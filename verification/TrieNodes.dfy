/**
 * Nodes as they are stored (trieNode.ts): branch, extension and leaf, their RLP form,
 * references that embed a node of less than 32 bytes, and the root hash as a commitment.
 */
module TrieNodes {
  import opened ByteStrings
  import opened NibblePaths
  import opened Rlp
  import opened Trees

  /** The hash is a parameter about which nothing is assumed. */
  type HashFn = Bytes -> Bytes

  /** Its output is read as 32 bytes, the length of a keccak digest. */
  function Digest(H: HashFn, s: Bytes): (d: Bytes)
    ensures |d| == 32
  {
    var h := H(s);
    seq(32, i requires 0 <= i < 32 => if i < |h| then h[i] else 0)
  }

  /** An embedded node or hash is an RLP item; null and the empty buffer are the empty string. */
  datatype Node =
    | BranchNode(branches: seq<Item>, bvalue: Item)
    | ExtensionNode(ekey: Nibbles, child: Item)
    | LeafNode(lkey: Nibbles, lvalue: Item)

  datatype TrieError = MissingNode | InvalidNode | BadRlp(rlp: RlpError)
    | StackUnderflow | ExpectedBranchNode | NotCheckpointed

  const NULL := Str([])

  /** The source tests `b !== null && b.length > 0`. */
  predicate Absent(b: Item) {
    match b
    case Str(bytes) => bytes == []
    case List(items) => items == []
  }

  ghost function Taken(branches: seq<Item>): set<nat> {
    set i: nat | i < |branches| && !Absent(branches[i])
  }

  /** The occupied branches with their indices, in order. */
  method GetChildren(branches: seq<Item>) returns (children: seq<(nat, Item)>)
    ensures |children| == |Taken(branches)|
    ensures forall c :: c in children <==> c.0 in Taken(branches) && c.1 == branches[c.0]
    ensures forall i, j :: 0 <= i < j < |children| ==> children[i].0 < children[j].0
  {
    children := [];
    for i := 0 to |branches|
      invariant |children| == |Taken(branches[..i])|
      invariant forall c :: c in children <==> c.0 < i && c.0 in Taken(branches) && c.1 == branches[c.0]
      invariant forall j :: 0 <= j < |children| ==> children[j].0 < i
      invariant forall j, k :: 0 <= j < k < |children| ==> children[j].0 < children[k].0
    {
      if Absent(branches[i]) {
        assert Taken(branches[..i + 1]) == Taken(branches[..i]);
      } else {
        assert Taken(branches[..i + 1]) == Taken(branches[..i]) + {i};
        children := children + [(i, branches[i])];
      }
    }
    assert branches[..|branches|] == branches;
  }

  function Raw(n: Node): Item {
    match n
    case BranchNode(branches, value) => List(branches + [value])
    case ExtensionNode(key, child) => List([Str(HexPrefixed(key, false)), child])
    case LeafNode(key, value) => List([Str(HexPrefixed(key, true)), value])
  }

  function Serialize(n: Node): Bytes {
    Encode(Raw(n))
  }

  function DecodeRawNode(raw: seq<Item>): Result<Node, TrieError> {
    if |raw| == 17 then Ok(BranchNode(raw[..16], raw[16]))
    else if |raw| == 2 && raw[0].Str? then
      var nibbles := BufferToNibbles(raw[0].bytes);
      if IsTerminator(nibbles) then Ok(LeafNode(RemoveHexPrefix(nibbles), raw[1]))
      else Ok(ExtensionNode(RemoveHexPrefix(nibbles), raw[1]))
    else Err(InvalidNode)
  }

  function DecodeNode(raw: Bytes): Result<Node, TrieError> {
    match Decode(raw)
    case Err(e) => Err(BadRlp(e))
    case Ok(Str(_)) => Err(InvalidNode)
    case Ok(List(items)) => DecodeRawNode(items)
  }

  ghost predicate Regular(n: Node) {
    (n.BranchNode? ==> |n.branches| == 16) && Fits(Raw(n))
  }

  /** Reading a node back, embedded or serialized, gives the node that was written. */
  lemma NodeRoundTrip(n: Node)
    requires Regular(n)
    ensures DecodeRawNode(Raw(n).items) == Ok(n)
    ensures DecodeNode(Serialize(n)) == Ok(n)
    ensures Serialize(n) != Encode(NULL)
  {
    if n.ExtensionNode? { HexPrefixRoundTrip(n.ekey, false); }
    if n.LeafNode? { HexPrefixRoundTrip(n.lkey, true); }
    if Serialize(n) == [] { RoundTrip(Raw(n), []); }
    DecodeIsInverse(Serialize(n), Raw(n));
    DecodeIsInverse(Encode(NULL), NULL);
  }

  // ---------- from trees to nodes ----------

  function SlotItem(slot: Option<Bytes>): Item {
    match slot
    case None => NULL
    case Some(v) => Str(v)
  }

  /** How a parent refers to a node: by hash, or the node itself when it is short. */
  function Embed(H: HashFn, n: Node): Item {
    if |Serialize(n)| >= 32 then Str(Digest(H, Serialize(n))) else Raw(n)
  }

  function Ref(H: HashFn, t: Tree): Item
    decreases t, 1
  {
    if t == Empty then NULL else Embed(H, NodeOf(H, t))
  }

  function NodeOf(H: HashFn, t: Tree): Node
    requires t != Empty
    decreases t, 0
  {
    match t
    case Leaf(key, value) => LeafNode(key, Str(value))
    case Ext(key, child) => ExtensionNode(key, Ref(H, child))
    case Branch(children, slot) =>
      BranchNode(seq(|children|, i requires 0 <= i < |children| => Ref(H, children[i])), SlotItem(slot))
  }

  /** KECCAK256_RLP: the root of the empty trie. */
  function EmptyRoot(H: HashFn): Bytes {
    Digest(H, Encode(NULL))
  }

  function RootHash(H: HashFn, t: Tree): Bytes {
    if t == Empty then EmptyRoot(H) else Digest(H, Serialize(NodeOf(H, t)))
  }

  // ---------- the bytes ----------

  /** A leaf is stored as the list of its compact path and its value, and an extension as that of its
      path and the link to its child. */
  lemma PairForm(H: HashFn, t: Tree, path: Bytes)
    requires (t.Leaf? || t.Ext?) && Compact(path, t.key, t.Leaf?)
    ensures t.Leaf? ==> Serialize(NodeOf(H, t)) == Encode(List([Str(path), Str(t.value)]))
    ensures t.Ext? ==> Serialize(NodeOf(H, t)) == Encode(List([Str(path), Ref(H, t.child)]))
  {
    hide Compact;
    hide HexPrefixed;
    hide Encode;
    HexPrefixForm(t.key, t.Leaf?, path);
  }

  /** A branch is stored as the list of its sixteen links and its value, or the empty string. */
  lemma BranchForm(H: HashFn, t: Tree, items: seq<Item>)
    requires t.Branch? && |t.children| == 16 && |items| == 17
    requires forall i :: 0 <= i < 16 ==> items[i] == Ref(H, t.children[i])
    requires items[16] == Str(if t.slot.Some? then t.slot.value else [])
    ensures Serialize(NodeOf(H, t)) == Encode(List(items))
  {
    hide Ref;
    hide Encode;
    var n := NodeOf(H, t);
    assert n.branches + [n.bvalue] == items;
  }

  /** A link is the empty string, or the hash of a string of 32 bytes or more, or the shorter node itself. */
  lemma RefForm(H: HashFn, t: Tree)
    ensures t == Empty ==> Encode(Ref(H, t)) == [0x80]
    ensures t != Empty && |Serialize(NodeOf(H, t))| >= 32 ==> Ref(H, t) == Str(Digest(H, Serialize(NodeOf(H, t))))
    ensures t != Empty && |Serialize(NodeOf(H, t))| < 32 ==>
              Ref(H, t).List? && Encode(Ref(H, t)) == Serialize(NodeOf(H, t))
  {
    if t != Empty {
      hide NodeOf;
      hide Encode;
    }
  }

  /** The root is the hash of the string of the top node, and of the single byte 0x80 without one. */
  lemma RootForm(H: HashFn, t: Tree)
    ensures t == Empty ==> RootHash(H, t) == Digest(H, [0x80])
    ensures t != Empty ==> RootHash(H, t) == Digest(H, Serialize(NodeOf(H, t)))
    ensures forall s :: |H(s)| == 32 ==> Digest(H, s) == H(s)
  {
    hide NodeOf;
    assert Encode(NULL) == [0x80];
    hide Encode;
  }

  /** What a node itself adds to the store when it is not the root. */
  ghost function Own(H: HashFn, t: Tree): set<Bytes> {
    if t != Empty && |Serialize(NodeOf(H, t))| >= 32 then {Serialize(NodeOf(H, t))} else {}
  }

  /** The serializations of 32 bytes or more: what the store holds below the root. */
  ghost function NodeStrings(H: HashFn, t: Tree): set<Bytes>
    decreases t
  {
    match t
    case Empty => {}
    case Leaf(_, _) => Own(H, t)
    case Ext(_, child) => Own(H, t) + NodeStrings(H, child)
    case Branch(children, _) =>
      Own(H, t) + set i: nat, s | i < |children| && s in NodeStrings(H, children[i]) :: s
  }

  /** Everything the store holds for a trie; the root is stored whatever its length. */
  ghost function RootStrings(H: HashFn, t: Tree): set<Bytes> {
    if t == Empty then {} else {Serialize(NodeOf(H, t))} + NodeStrings(H, t)
  }

  ghost predicate NoCollision(H: HashFn, a: Bytes, b: Bytes) {
    Digest(H, a) == Digest(H, b) ==> a == b
  }

  /** Among these strings, and only these, hashes are assumed not to collide. */
  ghost predicate CollisionFree(H: HashFn, strings: set<Bytes>) {
    forall a, b {:trigger NoCollision(H, a, b)} :: a in strings && b in strings ==> NoCollision(H, a, b)
  }

  // ---------- sizes ----------

  /** More than any single part of a node takes. */
  const PART_LIMIT := 0x40_0000_0000_0000

  lemma {:induction false} FitsAllFromEach(items: seq<Item>)
    requires forall x :: x in items ==> Fits(x) && |Encode(x)| <= PART_LIMIT
    ensures FitsAll(items) && |EncodeAll(items)| <= PART_LIMIT * |items|
  {
    if items != [] {
      assert items[0] in items;
      FitsAllFromEach(items[1..]);
    }
  }

  lemma EncodedString(b: Bytes)
    requires |b| < LENGTH_BOUND
    ensures Fits(Str(b)) && |Encode(Str(b))| <= |b| + 9
    ensures |b| < 56 ==> |Encode(Str(b))| <= |b| + 1
  {
    if |b| >= 56 { LengthPrefix(|b|, 128); }
  }

  lemma {:induction false} RefFits(H: HashFn, t: Tree, depth: int)
    requires Shape(t, depth) && depth < SIZE_LIMIT
    ensures Fits(Ref(H, t)) && |Encode(Ref(H, t))| <= 33
    decreases t, 1
  {
    if t != Empty {
      NodeFits(H, t, depth);
      EncodedString(Digest(H, Serialize(NodeOf(H, t))));
    }
  }

  lemma PairFits(path: Bytes, second: Item)
    requires |path| < SIZE_LIMIT && Fits(second) && |Encode(second)| <= PART_LIMIT
    ensures Fits(List([Str(path), second]))
  {
    EncodedString(path);
    FitsAllFromEach([Str(path), second]);
  }

  lemma {:induction false} NodeFits(H: HashFn, t: Tree, depth: int)
    requires Shape(t, depth) && t != Empty && depth < SIZE_LIMIT
    ensures Regular(NodeOf(H, t))
    decreases t, 0
  {
    match t
    case Leaf(key, value) =>
      EncodedString(value);
      PairFits(HexPrefixed(key, true), Str(value));
    case Ext(key, child) =>
      RefFits(H, child, depth - |key|);
      PairFits(HexPrefixed(key, false), Ref(H, child));
    case Branch(children, slot) =>
      var items := Raw(NodeOf(H, t)).items;
      if slot.Some? { EncodedString(slot.value); }
      forall x | x in items ensures Fits(x) && |Encode(x)| <= PART_LIMIT {
        var i :| 0 <= i < |items| && items[i] == x;
        if i < 16 { RefFits(H, children[i], depth - 1); }
      }
      FitsAllFromEach(items);
  }

  // ---------- the root commits to the tree ----------

  lemma RefAbsent(H: HashFn, t: Tree)
    ensures Absent(Ref(H, t)) <==> t == Empty
  {
    if t != Empty { var items := Raw(NodeOf(H, t)).items; assert |items| > 0; }
  }

  lemma ChildStrings(H: HashFn, t: Tree, i: nat, all: set<Bytes>)
    requires t.Branch? && i < |t.children| && NodeStrings(H, t) <= all
    ensures NodeStrings(H, t.children[i]) <= all
  {}

  lemma ExtStrings(H: HashFn, t: Tree, all: set<Bytes>)
    requires t.Ext? && NodeStrings(H, t) <= all
    ensures NodeStrings(H, t.child) <= all
  {}

  /** Two trees whose roots agree except for what their references hide. */
  ghost predicate Alike(H: HashFn, s: Tree, t: Tree) {
    match s
    case Empty => t == Empty
    case Leaf(_, _) => s == t
    case Ext(key, child) => t.Ext? && key == t.key && Ref(H, child) == Ref(H, t.child)
    case Branch(children, slot) =>
      && t.Branch? && slot == t.slot && |children| == |t.children|
      && forall i :: 0 <= i < |children| ==> Ref(H, children[i]) == Ref(H, t.children[i])
  }

  lemma NodesAlike(H: HashFn, s: Tree, t: Tree, d: int, e: int)
    requires s != Empty && t != Empty && NodeOf(H, s) == NodeOf(H, t)
    requires Shape(s, d) && Shape(t, e)
    ensures Alike(H, s, t)
  {
    if s.Branch? {
      forall i | 0 <= i < 16 ensures Ref(H, s.children[i]) == Ref(H, t.children[i]) {
        assert NodeOf(H, s).branches[i] == NodeOf(H, t).branches[i];
      }
    }
  }

  lemma SameRefAlike(H: HashFn, s: Tree, t: Tree, d: int, e: int, all: set<Bytes>)
    requires Shape(s, d) && Shape(t, e) && d < SIZE_LIMIT && e < SIZE_LIMIT
    requires CollisionFree(H, all) && NodeStrings(H, s) <= all && NodeStrings(H, t) <= all
    requires Ref(H, s) == Ref(H, t)
    ensures Alike(H, s, t)
  {
    RefAbsent(H, s);
    RefAbsent(H, t);
    if s != Empty {
      NodeFits(H, s, d);
      NodeFits(H, t, e);
      NodeRoundTrip(NodeOf(H, s));
      NodeRoundTrip(NodeOf(H, t));
      assert NoCollision(H, Serialize(NodeOf(H, s)), Serialize(NodeOf(H, t)));
      NodesAlike(H, s, t, d, e);
    }
  }

  lemma TakenIsOccupied(H: HashFn, t: Tree)
    requires t.Branch?
    ensures Taken(NodeOf(H, t).branches) == Occupied(t.children)
  {
    forall i: nat | i < |t.children|
      ensures i in Taken(NodeOf(H, t).branches) <==> i in Occupied(t.children)
    {
      RefAbsent(H, t.children[i]);
    }
  }

  lemma {:induction false} RefCommits(H: HashFn, s: Tree, t: Tree, d: int, e: int, all: set<Bytes>)
    requires Shape(s, d) && Shape(t, e) && d < SIZE_LIMIT && e < SIZE_LIMIT
    requires CollisionFree(H, all) && NodeStrings(H, s) <= all && NodeStrings(H, t) <= all
    requires Ref(H, s) == Ref(H, t)
    ensures s == t
    decreases s, 1
  {
    SameRefAlike(H, s, t, d, e, all);
    AlikeCommits(H, s, t, d, e, all);
  }

  lemma {:induction false} AlikeCommits(H: HashFn, s: Tree, t: Tree, d: int, e: int, all: set<Bytes>)
    requires Shape(s, d) && Shape(t, e) && d < SIZE_LIMIT && e < SIZE_LIMIT
    requires CollisionFree(H, all) && NodeStrings(H, s) <= all && NodeStrings(H, t) <= all
    requires Alike(H, s, t)
    ensures s == t
    decreases s, 0
  {
    if s.Ext? {
      ExtStrings(H, s, all);
      ExtStrings(H, t, all);
      RefCommits(H, s.child, t.child, d - |s.key|, e - |s.key|, all);
    } else if s.Branch? {
      forall i | 0 <= i < 16 ensures s.children[i] == t.children[i] {
        ChildCommits(H, s, t, i, d, e, all);
      }
      assert s.children == t.children;
    }
  }

  lemma {:induction false} ChildCommits(H: HashFn, s: Tree, t: Tree, i: nat, d: int, e: int, all: set<Bytes>)
    requires s.Branch? && t.Branch? && i < 16
    requires Shape(s, d) && Shape(t, e) && d < SIZE_LIMIT && e < SIZE_LIMIT
    requires CollisionFree(H, all) && NodeStrings(H, s) <= all && NodeStrings(H, t) <= all
    requires Ref(H, s.children[i]) == Ref(H, t.children[i])
    ensures s.children[i] == t.children[i]
    decreases s.children[i], 2
  {
    ChildStrings(H, s, i, all);
    ChildStrings(H, t, i, all);
    RefCommits(H, s.children[i], t.children[i], d - 1, e - 1, all);
  }

  lemma NotTheEmptyRoot(H: HashFn, t: Tree, d: int, all: set<Bytes>)
    requires Shape(t, d) && t != Empty && d < SIZE_LIMIT
    requires CollisionFree(H, all) && RootStrings(H, t) <= all && Encode(NULL) in all
    ensures RootHash(H, t) != EmptyRoot(H)
  {
    NodeFits(H, t, d);
    NodeRoundTrip(NodeOf(H, t));
    assert NoCollision(H, Serialize(NodeOf(H, t)), Encode(NULL));
  }

  lemma SameSerialization(H: HashFn, s: Tree, t: Tree, d: int, e: int, all: set<Bytes>)
    requires Shape(s, d) && Shape(t, e) && d < SIZE_LIMIT && e < SIZE_LIMIT
    requires s != Empty && t != Empty && RootHash(H, s) == RootHash(H, t)
    requires CollisionFree(H, all) && RootStrings(H, s) <= all && RootStrings(H, t) <= all
    ensures Alike(H, s, t)
  {
    NodeFits(H, s, d);
    NodeFits(H, t, e);
    NodeRoundTrip(NodeOf(H, s));
    NodeRoundTrip(NodeOf(H, t));
    assert NoCollision(H, Serialize(NodeOf(H, s)), Serialize(NodeOf(H, t)));
    NodesAlike(H, s, t, d, e);
  }

  /** Two tries with one root are the same trie, if the strings involved do not collide. */
  lemma RootCommits(H: HashFn, s: Tree, t: Tree, d: int, e: int)
    requires Shape(s, d) && Shape(t, e) && d < SIZE_LIMIT && e < SIZE_LIMIT
    requires CollisionFree(H, RootStrings(H, s) + RootStrings(H, t) + {Encode(NULL)})
    ensures RootHash(H, s) == RootHash(H, t) <==> s == t
  {
    var all := RootStrings(H, s) + RootStrings(H, t) + {Encode(NULL)};
    if RootHash(H, s) == RootHash(H, t) {
      if s == Empty && t != Empty {
        NotTheEmptyRoot(H, t, e, all);
      } else if s != Empty && t == Empty {
        NotTheEmptyRoot(H, s, d, all);
      } else if s != Empty {
        SameSerialization(H, s, t, d, e, all);
        AlikeCommits(H, s, t, d, e, all);
      }
    }
  }

  // ---------- the node store ----------

  type Store = map<Bytes, Bytes>

  function LookupNode(view: Store, ref: Item): Result<Node, TrieError> {
    match ref
    case List(raw) => DecodeRawNode(raw)
    case Str(key) => if key in view then DecodeNode(view[key]) else Err(MissingNode)
  }

  /** A store may lack nodes of a trie, but what it has under their hashes is theirs. */
  ghost predicate Honest(H: HashFn, view: Store, strings: set<Bytes>) {
    forall s :: s in strings && Digest(H, s) in view ==> view[Digest(H, s)] == s
  }

  ghost predicate Complete(H: HashFn, view: Store, strings: set<Bytes>) {
    forall s :: s in strings ==> Digest(H, s) in view && view[Digest(H, s)] == s
  }

  /** Every stored string is filed under its own hash. */
  ghost predicate HashKeyed(H: HashFn, view: Store) {
    forall k :: k in view ==> Digest(H, view[k]) == k
  }

  lemma ResolveRef(H: HashFn, view: Store, t: Tree, depth: int)
    requires Shape(t, depth) && depth < SIZE_LIMIT && t != Empty
    requires Honest(H, view, Own(H, t))
    ensures LookupNode(view, Ref(H, t)) in {Ok(NodeOf(H, t)), Err(MissingNode)}
    ensures Complete(H, view, Own(H, t)) ==> LookupNode(view, Ref(H, t)).Ok?
  {
    NodeFits(H, t, depth);
    NodeRoundTrip(NodeOf(H, t));
  }

  lemma ResolveRoot(H: HashFn, view: Store, t: Tree, depth: int)
    requires Shape(t, depth) && depth < SIZE_LIMIT && t != Empty
    requires Honest(H, view, {Serialize(NodeOf(H, t))})
    ensures LookupNode(view, Str(RootHash(H, t))) in {Ok(NodeOf(H, t)), Err(MissingNode)}
    ensures Complete(H, view, {Serialize(NodeOf(H, t))}) ==> LookupNode(view, Str(RootHash(H, t))).Ok?
  {
    NodeFits(H, t, depth);
    NodeRoundTrip(NodeOf(H, t));
  }
}
