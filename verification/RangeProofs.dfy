/** Range proofs (verifyRangeProof.ts): the all-elements and the one-element case. */
module RangeProofs {
  import opened ByteStrings
  import opened NibblePaths
  import opened Rlp
  import opened Trees
  import opened CanonicalTrees
  import opened TreeDeletion
  import opened TrieNodes
  import opened TriePaths
  import opened TrieUpdates
  import opened TrieStores
  import opened Tries
  import opened TrieRuns
  import opened TrieLists
  import opened TrieProofs
  import opened CheckpointDbs

  datatype RangeError =
    | LengthsDiffer | KeysNotAscending | EmptyValue | RootMismatch
    | FirstKeyIsNotTheKey | ValueMismatch | InvalidProof | NodeMissing | KeyExhausted

  // ---------- the checks that come first ----------

  ghost predicate Ascending(keys: seq<Bytes>) {
    forall i :: 0 <= i < |keys| - 1 ==> Compare(BufferToNibbles(keys[i]), BufferToNibbles(keys[i + 1])) < 0
  }

  lemma {:induction false} AscendingPair(keys: seq<Bytes>, i: nat, j: nat)
    requires Ascending(keys) && i < j < |keys|
    ensures Compare(BufferToNibbles(keys[i]), BufferToNibbles(keys[j])) < 0
  {
    if i < j - 1 {
      AscendingPair(keys, i, j - 1);
      CompareTransitive(BufferToNibbles(keys[i]), BufferToNibbles(keys[j - 1]), BufferToNibbles(keys[j]));
    }
  }

  lemma AscendingDistinct(keys: seq<Bytes>)
    requires Ascending(keys)
    ensures Distinct(keys)
  {
    forall i, j | 0 <= i < j < |keys| ensures BufferToNibbles(keys[i]) != BufferToNibbles(keys[j]) {
      AscendingPair(keys, i, j);
      CompareZero(BufferToNibbles(keys[i]), BufferToNibbles(keys[j]));
    }
  }

  method CheckLists(keys: seq<Bytes>, values: seq<Bytes>) returns (r: Result<(), RangeError>)
    ensures r.Ok? <==> |keys| == |values| && Ascending(keys) && forall i :: 0 <= i < |values| ==> values[i] != []
    ensures r.Err? ==> r.error in {LengthsDiffer, KeysNotAscending, EmptyValue}
    ensures |keys| != |values| ==> r == Err(LengthsDiffer)
    ensures |keys| == |values| && !Ascending(keys) ==> r == Err(KeysNotAscending)
  {
    if |keys| != |values| {
      return Err(LengthsDiffer);
    }
    for i := 0 to |keys|
      invariant forall j :: 0 <= j < i && j < |keys| - 1 ==>
                  Compare(BufferToNibbles(keys[j]), BufferToNibbles(keys[j + 1])) < 0
    {
      if i < |keys| - 1 && Compare(BufferToNibbles(keys[i]), BufferToNibbles(keys[i + 1])) >= 0 {
        return Err(KeysNotAscending);
      }
    }
    for i := 0 to |values|
      invariant forall j :: 0 <= j < i ==> values[j] != []
    {
      if |values[i]| == 0 {
        return Err(EmptyValue);
      }
    }
    return Ok(());
  }

  // ---------- all elements ----------

  /** The all-elements case: no proof and no edge keys, only the claimed content. */
  method VerifyAllElements(H: HashFn, rootHash: Bytes, keys: seq<Bytes>, values: seq<Bytes>, ghost all: set<Bytes>)
    returns (r: Result<bool, RangeError>)
    requires forall i :: 0 <= i < |keys| ==> 2 * |keys[i]| <= MAX_KEY
    requires forall i :: 0 <= i < |values| ==> |values[i]| < SIZE_LIMIT
    requires CollisionFree(H, all) && Encode(NULL) in all
    requires Pairs(keys, values) ==> BuildInRange(H, keys, values, all)
    ensures r.Ok? ==> r.value == false && Pairs(keys, values)
    ensures r.Ok? <==> Pairs(keys, values) && Ascending(keys) && RootHash(H, Built(keys, values)) == rootHash
  {
    hide CollisionFree;
    var checked := CheckLists(keys, values);
    if checked.Err? {
      return Err(checked.error);
    }
    hide BufferToNibbles;
    hide RootStrings;
    hide Built;
    hide Digest;
    var trie := new Trie(H);
    BuiltNone(keys, values);
    for i := 0 to |keys|
      invariant trie.Valid() && fresh(trie) && fresh(trie.db) && trie.H == H
      invariant trie.tree == Built(keys[..i], values[..i]) && trie.db.State().current.Values <= all
    {
      BuiltGrows(keys, values, i);
      InvolvedSafe(H, trie.db.State().current, Built(keys[..i + 1], values[..i + 1]), all);
      var _ := trie.Put(keys[i], values[i]);
    }
    if rootHash != trie.root {
      return Err(RootMismatch);
    }
    return Ok(false);
  }

  /** It accepts exactly the full content of the trie behind the root: the ascending list of all
      its keys, each with its own value. */
  lemma AllElementsExact(H: HashFn, t: Tree, keys: seq<Bytes>, values: seq<Bytes>)
    requires Canonical(t) && WellFormed(t) && Shape(t, MAX_KEY)
    requires Pairs(keys, values) && Ascending(keys)
    requires CollisionFree(H, RootStrings(H, Built(keys, values)) + RootStrings(H, t) + {Encode(NULL)})
    ensures RootHash(H, Built(keys, values)) == RootHash(H, t) <==>
            Lists(t, keys, values)
  {
    hide RootStrings;
    hide CollisionFree;
    hide RootHash;
    hide BufferToNibbles;
    ListRootCommits(H, keys, values, t);
    AscendingDistinct(keys);
    HoldsPairs(t, keys, values);
  }

  // ---------- what lies to the right of a key ----------

  /** The verdict of `hasRightElement`; None where it indexes past the key and throws. */
  function HasRight(t: Tree, k: Nibbles): Option<bool>
    requires WellFormed(t)
    decreases t
  {
    match t
    case Empty => Some(false)
    case Leaf(_, _) => Some(false)
    case Ext(key, child) =>
      if key <= k then HasRight(child, k[|key|..]) else Some(Compare(key, k) > 0)
    case Branch(children, _) =>
      if k == [] then None
      else if exists i :: k[0] < i < 16 && children[i] != Empty then Some(true)
      else HasRight(children[k[0]], k[1..])
  }

  /** A stored key to the right of k that does not merely continue it. */
  ghost predicate Beyond(t: Tree, k: Nibbles, q: Nibbles)
    requires WellFormed(t)
  {
    Lookup(t, q).Some? && Compare(q, k) > 0 && !(k <= q)
  }

  /** A stored key that continues k. */
  ghost predicate Continued(t: Tree, k: Nibbles, q: Nibbles)
    requires WellFormed(t)
  {
    Lookup(t, q).Some? && k < q
  }

  /** Below a common prefix, the same keys lie beyond and continue the key. */
  lemma Below(t: Tree, p: Nibbles, c: Tree, rest: Nibbles)
    requires WellFormed(t) && WellFormed(c)
    requires forall q: Nibbles :: Lookup(t, p + q) == Lookup(c, q)
    requires forall q: Nibbles :: Beyond(t, p + rest, q) ==> p <= q
    ensures (exists q: Nibbles :: Beyond(t, p + rest, q)) <==> exists q: Nibbles :: Beyond(c, rest, q)
    ensures (exists q: Nibbles :: Continued(t, p + rest, q)) <==> exists q: Nibbles :: Continued(c, rest, q)
  {
    hide Lookup;
    hide Compare;
    forall q: Nibbles ensures Beyond(t, p + rest, p + q) <==> Beyond(c, rest, q)
             ensures Continued(t, p + rest, p + q) <==> Continued(c, rest, q) {
      CompareAppend(p, q, rest);
      assert p + rest <= p + q <==> rest <= q by {
        assert (p + q)[|p|..] == q && (p + rest)[|p|..] == rest;
      }
    }
    forall q: Nibbles ensures Beyond(t, p + rest, q) ==> exists x :: Beyond(c, rest, x)
             ensures Continued(t, p + rest, q) ==> exists x :: Continued(c, rest, x) {
      if p <= q {
        assert q == p + q[|p|..];
        assert Beyond(t, p + rest, q) ==> Beyond(c, rest, q[|p|..]);
        assert Continued(t, p + rest, q) ==> Continued(c, rest, q[|p|..]);
      }
    }
  }

  lemma StoredChild(t: Tree, i: nat)
    requires Canonical(t) && WellFormed(t) && t.Branch? && i < 16 && t.children[i] != Empty
    ensures exists q: Nibbles :: Lookup(t, q).Some? && q != [] && q[0] == i
  {
    var rest := StoredKey(t.children[i]);
    var q: Nibbles := [i] + rest;
    assert q[1..] == rest && q[0] == i;
    assert Lookup(t, q).Some?;
  }

  lemma BeyondSibling(t: Tree, k: Nibbles, i: nat)
    requires Canonical(t) && WellFormed(t) && t.Branch? && k != [] && k[0] < i < 16 && t.children[i] != Empty
    ensures exists q: Nibbles :: Beyond(t, k, q)
  {
    StoredChild(t, i);
    var q: Nibbles :| Lookup(t, q).Some? && q != [] && q[0] == i;
    assert Beyond(t, k, q);
  }

  lemma ChildOf(t: Tree, q: Nibbles)
    requires WellFormed(t) && t.Branch? && q != [] && Lookup(t, q).Some?
    ensures t.children[q[0]] != Empty
  {}

  lemma BeyondBranch(t: Tree, k: Nibbles, q: Nibbles)
    requires WellFormed(t) && t.Branch? && k != [] && Beyond(t, k, q)
    requires !exists i :: k[0] < i < 16 && t.children[i] != Empty
    ensures q != [] && q[0] == k[0]
  {
    if q != [] {
      ChildOf(t, q);
      assert !(q[0] > k[0]);
    }
  }

  lemma UnderExt(t: Tree, k: Nibbles)
    requires WellFormed(t) && t.Ext? && t.key <= k
    ensures k == t.key + k[|t.key|..]
    ensures forall q: Nibbles :: Lookup(t, t.key + q) == Lookup(t.child, q)
  {
    forall q: Nibbles ensures Lookup(t, t.key + q) == Lookup(t.child, q) { assert (t.key + q)[|t.key|..] == q; }
  }

  lemma UnderBranch(t: Tree, k: Nibbles)
    requires WellFormed(t) && t.Branch? && k != []
    requires !exists i :: k[0] < i < 16 && t.children[i] != Empty
    ensures k == [k[0]] + k[1..]
    ensures forall q: Nibbles :: Lookup(t, [k[0]] + q) == Lookup(t.children[k[0]], q)
    ensures forall q: Nibbles :: Beyond(t, k, q) ==> [k[0]] <= q
  {
    forall q: Nibbles ensures Lookup(t, [k[0]] + q) == Lookup(t.children[k[0]], q) { assert ([k[0]] + q)[1..] == q; }
    forall q: Nibbles ensures Beyond(t, k, q) ==> [k[0]] <= q {
      if Beyond(t, k, q) { BeyondBranch(t, k, q); }
    }
  }

  lemma ContinuesEmpty(t: Tree)
    requires Canonical(t) && WellFormed(t) && t.Branch? && t.slot.Some?
    ensures exists q: Nibbles :: Continued(t, [], q)
    ensures !exists q: Nibbles :: Beyond(t, [], q)
  {
    assert Occupied(t.children) != {};
    var i :| i in Occupied(t.children);
    StoredChild(t, i);
    var q: Nibbles :| Lookup(t, q).Some? && q != [] && q[0] == i;
    assert Continued(t, [], q);
  }

  /** For a stored key the verdict is true exactly when a stored key lies beyond it; otherwise
      it throws exactly when a stored key continues it. */
  lemma {:induction false} HasRightExact(t: Tree, k: Nibbles)
    requires Canonical(t) && WellFormed(t) && Lookup(t, k).Some?
    ensures HasRight(t, k) == Some(true) <==> exists q: Nibbles :: Beyond(t, k, q)
    ensures HasRight(t, k) == None <==>
            (exists q: Nibbles :: Continued(t, k, q)) && !exists q: Nibbles :: Beyond(t, k, q)
    decreases t
  {
    match t
    case Leaf(key, _) =>
      CompareZero(key, k);
    case Ext(key, child) =>
      UnderExt(t, k);
      HasRightExact(child, k[|key|..]);
      Below(t, key, child, k[|key|..]);
    case Branch(children, _) =>
      if k == [] {
        ContinuesEmpty(t);
      } else if i :| k[0] < i < 16 && children[i] != Empty {
        BeyondSibling(t, k, i);
      } else {
        UnderBranch(t, k);
        HasRightExact(children[k[0]], k[1..]);
        Below(t, [k[0]], children[k[0]], k[1..]);
      }
  }

  /** With 0x12 and 0x1234 stored, the code throws on 0x12. */
  lemma HasRightThrows(a: Bytes, b: Bytes)
    ensures var t := Insert(Insert(Empty, BufferToNibbles(KEY_12), a), BufferToNibbles(KEY_1234), b);
      WellFormed(t) && Lookup(t, BufferToNibbles(KEY_12)) == Some(a) && HasRight(t, BufferToNibbles(KEY_12)) == None
  {
    TwoPut(a, b);
    KeyPaths();
    var path: Nibbles := [1, 2];
    assert path <= path && path[2..] == [];
    assert TwoStored(a, b).key == path;
  }

  lemma {:induction false} CompareDiffers(k: Nibbles, q: Nibbles)
    requires k <= q
    ensures Compare(q, k) > 0 <==> k != q
  {
    if k != [] { CompareDiffers(k[1..], q[1..]); }
  }

  ghost predicate Greater(t: Tree, k: Nibbles, q: Nibbles)
    requires WellFormed(t)
  {
    Lookup(t, q).Some? && Compare(q, k) > 0
  }

  /** When all stored keys have one length, the verdict is whether some stored key is greater. */
  lemma HasRightCorrect(t: Tree, k: Nibbles)
    requires Canonical(t) && WellFormed(t) && Lookup(t, k).Some?
    requires forall q: Nibbles :: Lookup(t, q).Some? ==> |q| == |k|
    ensures HasRight(t, k).Some?
    ensures HasRight(t, k).value <==> exists q: Nibbles :: Greater(t, k, q)
  {
    hide HasRight;
    HasRightExact(t, k);
    forall q: Nibbles ensures !Continued(t, k, q) && (Greater(t, k, q) <==> Beyond(t, k, q)) {
      if k <= q { CompareDiffers(k, q); }
    }
  }

  // ---------- the search for a right sibling ----------

  method AnyBranchFrom(branches: seq<Item>, from: nat) returns (found: bool)
    requires |branches| == 16
    ensures found <==> exists i :: from <= i < 16 && !Absent(branches[i])
  {
    var i := from;
    while i < 16
      invariant forall j :: from <= j < i && j < 16 ==> Absent(branches[j])
    {
      if !Absent(branches[i]) { return true; }
      i := i + 1;
    }
    return false;
  }

  lemma HasRightOnNode(H: HashFn, t: Tree, k: Nibbles)
    requires WellFormed(t) && t != Empty
    ensures t.Leaf? ==> NodeOf(H, t).LeafNode? && HasRight(t, k) == Some(false)
    ensures t.Ext? ==> NodeOf(H, t) == ExtensionNode(t.key, Ref(H, t.child))
    ensures t.Ext? && |t.key| <= |k| && Compare(t.key, k[..|t.key|]) == 0 ==>
              Continues(t, k) && HasRight(t, k) == HasRight(t.child, k[|t.key|..])
    ensures t.Ext? && !(|t.key| <= |k| && Compare(t.key, k[..|t.key|]) == 0) ==>
              HasRight(t, k) == Some(Compare(t.key, k) > 0)
    ensures t.Branch? ==> NodeOf(H, t).BranchNode? && |NodeOf(H, t).branches| == 16
    ensures t.Branch? && k == [] ==> HasRight(t, k) == None
    ensures t.Branch? && k != [] ==>
              var b := NodeOf(H, t).branches;
              if exists i :: k[0] < i < 16 && !Absent(b[i]) then HasRight(t, k) == Some(true)
              else if Absent(b[k[0]]) then HasRight(t, k) == Some(false)
              else Continues(t, k) && b[k[0]] == Ref(H, Next(t, k)) && HasRight(t, k) == HasRight(Next(t, k), k[1..])
  {
    if t.Ext? {
      if |t.key| <= |k| { CompareZero(t.key, k[..|t.key|]); }
      assert t.key <= k <==> |t.key| <= |k| && t.key == k[..|t.key|];
    } else if t.Branch? {
      forall i | 0 <= i < 16 ensures Absent(NodeOf(H, t).branches[i]) <==> t.children[i] == Empty {
        RefAbsent(H, t.children[i]);
      }
      if k != [] { assert t.children[k[0]] == Empty ==> HasRight(t.children[k[0]], k[1..]) == Some(false); }
    }
  }

  function Verdict(b: Option<bool>): Result<bool, RangeError> {
    match b
    case None => Err(KeyExhausted)
    case Some(answer) => Ok(answer)
  }

  /** `hasRightElement`, on a store that may lack nodes. */
  method HasRightElement(trie: Trie, key: Bytes, ghost t: Tree) returns (r: Result<bool, RangeError>)
    requires WellFormed(t) && Shape(t, MAX_KEY) && t != Empty && trie.root == RootHash(trie.H, t)
    requires Honest(trie.H, trie.db.State().current, Needed(trie.H, t, BufferToNibbles(key)))
    modifies trie.db
    ensures trie.db.State() == old(trie.db.State())
    ensures r == Err(NodeMissing) || r == Verdict(HasRight(t, BufferToNibbles(key)))
    ensures Complete(trie.H, trie.db.State().current, Needed(trie.H, t, BufferToNibbles(key))) ==>
              r == Verdict(HasRight(t, BufferToNibbles(key)))
  {
    hide NodeOf;
    hide RootHash;
    hide Rest;
    hide Path;
    hide BufferToNibbles;
    hide Needed;
    hide TrieNodes.LookupNode;
    hide Digest;
    hide Shape;
    hide HasRight;
    hide Compare;
    hide Honest;
    hide Complete;
    hide Continues;
    hide WellFormed;
    hide Ref;
    PathStart(trie.H, t, BufferToNibbles(key));
    var nibbles := BufferToNibbles(key);
    var pos := 0;
    var ref := Str(trie.root);
    ghost var n := 0;
    while true
      invariant trie.db.State() == old(trie.db.State()) && n < |Path(t, nibbles)| && 0 <= pos <= |nibbles|
      invariant nibbles[pos..] == Rest(t, nibbles, n)
      invariant Path(t, nibbles)[n] != Empty && WellFormed(Path(t, nibbles)[n])
      invariant HasRight(Path(t, nibbles)[n], nibbles[pos..]) == HasRight(t, nibbles)
      invariant ref == if n == 0 then Str(RootHash(trie.H, t)) else Ref(trie.H, Path(t, nibbles)[n])
      decreases |Path(t, nibbles)| - n
    {
      var found := trie.LookupNode(ref);
      Resolve(trie.H, trie.db.State().current, t, nibbles, n, ref);
      if found.Err? { return Err(NodeMissing); }
      ghost var cur := Path(t, nibbles)[n];
      PathStep(t, nibbles, n);
      var turn := LookRight(found.value, nibbles[pos..], trie.H, cur);
      match turn {
        case Answer(answer) => return Ok(answer);
        case Throw => return Err(KeyExhausted);
        case Descend(link, used) =>
          ref := link;
          Deeper(nibbles, pos, used);
          pos := pos + used;
      }
      n := n + 1;
    }
  }

  lemma Deeper(nibbles: Nibbles, pos: nat, used: nat)
    requires pos + used <= |nibbles|
    ensures nibbles[pos + used..] == nibbles[pos..][used..]
  {}

  datatype Turn = Answer(answer: bool) | Throw | Descend(link: Item, used: nat)

  /** What `hasRightElement` does at one node. */
  method LookRight(node: Node, rest: Nibbles, ghost H: HashFn, ghost t: Tree) returns (turn: Turn)
    requires WellFormed(t) && t != Empty && node == NodeOf(H, t)
    ensures turn.Answer? ==> HasRight(t, rest) == Some(turn.answer)
    ensures turn.Throw? ==> HasRight(t, rest) == None
    ensures turn.Descend? ==>
              && Continues(t, rest) && turn.link == Ref(H, Next(t, rest)) && turn.used == Step(t) && turn.used <= |rest|
              && HasRight(t, rest) == HasRight(Next(t, rest), rest[turn.used..])
  {
    hide HasRight;
    hide Compare;
    hide NodeOf;
    HasRightOnNode(H, t, rest);
    match node {
      case BranchNode(branches, _) =>
        if rest == [] { return Throw; }
        var right := AnyBranchFrom(branches, rest[0] as int + 1);
        if right { return Answer(true); }
        if Absent(branches[rest[0]]) { return Answer(false); }
        return Descend(branches[rest[0]], 1);
      case ExtensionNode(part, child) =>
        if |rest| < |part| || Compare(part, rest[..|part|]) != 0 { return Answer(Compare(part, rest) > 0); }
        return Descend(child, |part|);
      case LeafNode(_, _) => return Answer(false);
    }
  }

  /** The one-element case, for a list of one key with equal edge keys. Accepting it means the trie
      behind the root binds the key to the value; the verdict is `HasRight` of that trie. */
  method VerifyOneElement(H: HashFn, rootHash: Bytes, firstKey: Bytes, keys: seq<Bytes>, values: seq<Bytes>,
                          proof: Proof, ghost t: Tree) returns (r: Result<bool, RangeError>)
    requires |keys| == 1
    requires WellFormed(t) && Shape(t, MAX_KEY) && rootHash == RootHash(H, t)
    requires CollisionFree(H, ProofInvolved(H, t, proof))
    ensures r.Ok? || r == Err(KeyExhausted) ==>
              && |values| == 1 && keys[0] == firstKey && Lookup(t, BufferToNibbles(firstKey)) == Some(values[0])
              && r == Verdict(HasRight(t, BufferToNibbles(firstKey)))
    ensures && |values| == 1 && values[0] != [] && keys[0] == firstKey
            && Lookup(t, BufferToNibbles(firstKey)) == Some(values[0])
            && Needed(H, t, BufferToNibbles(firstKey)) <= Strings(proof)
            ==> r == Verdict(HasRight(t, BufferToNibbles(firstKey)))
  {
    hide CollisionFree;
    hide RootHash;
    hide HasRight;
    hide Needed;
    hide Compare;
    hide BufferToNibbles;
    hide Digest;
    var checked := CheckLists(keys, values);
    if checked.Err? { return Err(checked.error); }
    var proofTrie, ops := FromProof(H, rootHash, proof);
    ProofTrusted(H, t, BufferToNibbles(firstKey), proof, ops);
    var got := proofTrie.Get(firstKey, true, t);
    if got.Err? { return Err(InvalidProof); }
    CompareZero(BufferToNibbles(firstKey), BufferToNibbles(keys[0]));
    if Compare(BufferToNibbles(firstKey), BufferToNibbles(keys[0])) != 0 { return Err(FirstKeyIsNotTheKey); }
    SameKey(firstKey, keys[0]);
    if got.value != Some(Str(values[0])) { return Err(ValueMismatch); }
    r := HasRightElement(proofTrie, firstKey, t);
  }

  lemma SameKey(a: Bytes, b: Bytes)
    requires BufferToNibbles(a) == BufferToNibbles(b)
    ensures a == b
  {
    BufferRoundTrip(a);
    BufferRoundTrip(b);
  }
}
