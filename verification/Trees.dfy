/**
 * The trie as a mathematical tree: what `put` does to it (baseTrie.ts `_updateNode`),
 * what it stores, its canonical shape, and that the shape is unique for its content.
 */
module Trees {
  import opened ByteStrings
  import opened FiniteSets
  import opened NibblePaths

  datatype Tree =
    | Empty
    | Leaf(key: Nibbles, value: Bytes)
    | Ext(key: Nibbles, child: Tree)
    | Branch(children: seq<Tree>, slot: Option<Bytes>)

  /** The sixteen empty branches of a new branch node. */
  function NoChildren(): (r: seq<Tree>)
    ensures |r| == 16 && forall i :: 0 <= i < 16 ==> r[i] == Empty
  {
    seq(16, i => Empty)
  }

  /** No JavaScript buffer is longer than this, in bytes or in nibbles. */
  const SIZE_LIMIT := 0x20_0000_0000_0000

  ghost predicate Storable(value: Bytes) {
    0 < |value| < SIZE_LIMIT
  }

  /** What every reachable tree satisfies, whatever keys were put or deleted. */
  ghost predicate Shape(t: Tree, depth: int) {
    match t
    case Empty => true
    case Leaf(key, value) => |key| <= depth && Storable(value)
    case Ext(key, child) => 0 < |key| <= depth && child.Branch? && Shape(child, depth - |key|)
    case Branch(children, slot) =>
      && depth >= 0 && |children| == 16
      && (forall i :: 0 <= i < 16 ==> Shape(children[i], depth - 1))
      && (slot.Some? ==> Storable(slot.value))
  }

  /** The occupied branches, as counted by `getChildren`. */
  function Occupied(children: seq<Tree>): set<nat> {
    set i: nat | i < |children| && children[i] != Empty
  }

  function Entries(children: seq<Tree>, slot: Option<Bytes>): nat {
    |Occupied(children)| + if slot.Some? then 1 else 0
  }

  /** The canonical form: besides its shape, every branch has at least two entries. */
  ghost predicate Canonical(t: Tree) {
    match t
    case Empty => true
    case Leaf(key, value) => value != []
    case Ext(key, child) => key != [] && child.Branch? && Canonical(child)
    case Branch(children, slot) =>
      && |children| == 16
      && (forall i :: 0 <= i < 16 ==> Canonical(children[i]))
      && (slot.Some? ==> slot.value != [])
      && Entries(children, slot) >= 2
  }

  ghost predicate WellFormed(t: Tree) {
    match t
    case Empty => true
    case Leaf(key, value) => true
    case Ext(key, child) => child.Branch? && WellFormed(child)
    case Branch(children, slot) =>
      |children| == 16 && (forall i :: 0 <= i < 16 ==> WellFormed(children[i]))
  }

  lemma {:induction false} ShapeWellFormed(t: Tree, depth: int)
    requires Shape(t, depth)
    ensures WellFormed(t)
  {
    match t
    case Empty =>
    case Leaf(_, _) =>
    case Ext(key, child) => ShapeWellFormed(child, depth - |key|);
    case Branch(children, _) =>
      forall i | 0 <= i < 16 ensures WellFormed(children[i]) { ShapeWellFormed(children[i], depth - 1); }
  }

  lemma {:induction false} CanonicalWellFormed(t: Tree)
    requires Canonical(t)
    ensures WellFormed(t)
  {
    match t
    case Empty =>
    case Leaf(_, _) =>
    case Ext(_, child) => CanonicalWellFormed(child);
    case Branch(children, _) =>
      forall i | 0 <= i < 16 ensures WellFormed(children[i]) { CanonicalWellFormed(children[i]); }
  }

  /** The value `get` finds under a path. */
  function Lookup(t: Tree, k: Nibbles): Option<Bytes>
    requires WellFormed(t)
    decreases t
  {
    match t
    case Empty => None
    case Leaf(key, value) => if key == k then Some(value) else None
    case Ext(key, child) => if key <= k then Lookup(child, k[|key|..]) else None
    case Branch(children, slot) => if k == [] then slot else Lookup(children[k[0]], k[1..])
  }

  /** A tree stores exactly the bindings of a map. */
  ghost predicate Holds(t: Tree, m: map<Nibbles, Bytes>)
    requires WellFormed(t)
  {
    forall k :: Lookup(t, k) == if k in m then Some(m[k]) else None
  }

  // ---------- put ----------

  /** What `_updateNode` leaves of a leaf or extension below the new branch. */
  function Shrink(t: Tree, m: nat): Tree
    requires t.Leaf? || t.Ext?
    requires m < |t.key|
  {
    if t.Leaf? then Leaf(t.key[m + 1..], t.value)
    else if m + 1 == |t.key| then t.child
    else Ext(t.key[m + 1..], t.child)
  }

  /** The branch created where the path leaves a leaf or extension after m nibbles. */
  function ForkBranch(t: Tree, m: nat, k: Nibbles, v: Bytes): (r: Tree)
    requires t.Leaf? || (t.Ext? && m < |t.key|)
    requires m <= |k| && m <= |t.key|
    ensures r.Branch? && |r.children| == 16
  {
    var children := if m < |t.key| then NoChildren()[t.key[m] := Shrink(t, m)] else NoChildren();
    var slot := if m < |t.key| || t.Ext? then None else Some(t.value);
    if m < |k| then Branch(children[k[m] := Leaf(k[m + 1..], v)], slot)
    else Branch(children, Some(v))
  }

  function Fork(t: Tree, k: Nibbles, v: Bytes): Tree
    requires t.Leaf? || (t.Ext? && !(t.key <= k))
  {
    var m := MatchingLength(t.key, k);
    assert t.Ext? ==> m < |t.key|;
    var branch := ForkBranch(t, m, k, v);
    if m == 0 then branch else Ext(t.key[..m], branch)
  }

  function Insert(t: Tree, k: Nibbles, v: Bytes): Tree
    requires WellFormed(t)
    decreases t
  {
    match t
    case Empty => Leaf(k, v)
    case Leaf(key, _) => if key == k then Leaf(k, v) else Fork(t, k, v)
    case Ext(key, child) =>
      if key <= k then Ext(key, Insert(child, k[|key|..], v)) else Fork(t, k, v)
    case Branch(children, slot) =>
      if k == [] then Branch(children, Some(v))
      else Branch(children[k[0] := Insert(children[k[0]], k[1..], v)], slot)
  }

  lemma ForkShape(t: Tree, k: Nibbles, v: Bytes, depth: int)
    requires t.Leaf? || (t.Ext? && !(t.key <= k))
    requires Shape(t, depth) && |k| <= depth && Storable(v) && (t.Leaf? ==> t.key != k)
    ensures Shape(Fork(t, k, v), depth) && Fork(t, k, v) != Empty
  {
    var m := MatchingLength(t.key, k);
    assert m < |t.key| || m < |k| by {
      assert t.key[..|t.key|] == t.key && k[..|k|] == k;
    }
    ForkBranchShape(t, m, k, v, depth);
  }

  lemma ForkBranchShape(t: Tree, m: nat, k: Nibbles, v: Bytes, depth: int)
    requires t.Leaf? || (t.Ext? && m < |t.key|)
    requires m <= |k| && m <= |t.key| && (m < |t.key| || m < |k|)
    requires Shape(t, depth) && |k| <= depth && Storable(v)
    ensures Shape(ForkBranch(t, m, k, v), depth - m)
  {
    if m < |t.key| { assert Shape(Shrink(t, m), depth - m - 1); }
    if m < |k| { assert Shape(Leaf(k[m + 1..], v), depth - m - 1); }
    var b := ForkBranch(t, m, k, v);
    forall i | 0 <= i < 16 ensures Shape(b.children[i], depth - m - 1) {}
  }

  lemma {:induction false} InsertShape(t: Tree, k: Nibbles, v: Bytes, depth: int)
    requires Shape(t, depth) && |k| <= depth && Storable(v)
    ensures WellFormed(t)
    ensures Shape(Insert(t, k, v), depth) && WellFormed(Insert(t, k, v))
    ensures Insert(t, k, v) != Empty
    ensures t.Branch? ==> Insert(t, k, v).Branch?
    decreases t
  {
    hide Fork;
    ShapeWellFormed(t, depth);
    match t {
      case Empty =>
      case Leaf(key, value) =>
        if key != k { ForkShape(t, k, v, depth); }
      case Ext(key, child) =>
        if key <= k { InsertShape(child, k[|key|..], v, depth - |key|); } else { ForkShape(t, k, v, depth); }
      case Branch(children, slot) =>
        if k != [] { InsertShape(children[k[0]], k[1..], v, depth - 1); }
    }
    ShapeWellFormed(Insert(t, k, v), depth);
  }

  /** The branch of a fork, read from the fork point on. */
  lemma ForkBranchLookup(t: Tree, m: nat, k: Nibbles, v: Bytes, q: Nibbles)
    requires t.Leaf? || (t.Ext? && m < |t.key|)
    requires WellFormed(t) && m <= |k| && m <= |t.key|
    requires m < |t.key| && m < |k| ==> t.key[m] != k[m]
    requires t.Leaf? ==> t.key != k
    requires t.key[..m] == k[..m]
    ensures var b := ForkBranch(t, m, k, v);
      WellFormed(b) && Lookup(b, q) == if q == k[m..] then Some(v) else Lookup(t, t.key[..m] + q)
  {
    var path := t.key[..m] + q;
    assert path[m..] == q;
    assert m == |t.key| ==> t.key[..m] == t.key;
    if q != [] {
      assert k[m..] == q <==> m < |k| && k[m] == q[0] && k[m + 1..] == q[1..];
      if m < |t.key| {
        assert t.key <= path <==> t.key[m] == q[0] && t.key[m + 1..] <= q[1..];
        assert t.key == path <==> t.key[m] == q[0] && t.key[m + 1..] == q[1..];
        if t.key[m] == q[0] && t.key[m + 1..] <= q[1..] {
          assert path[|t.key|..] == q[1..][|t.key| - m - 1..];
        }
      }
    }
  }

  lemma ForkLookup(t: Tree, k: Nibbles, v: Bytes, q: Nibbles)
    requires t.Leaf? || (t.Ext? && !(t.key <= k))
    requires WellFormed(t) && (t.Leaf? ==> t.key != k)
    ensures var f := Fork(t, k, v);
      WellFormed(f) && Lookup(f, q) == if q == k then Some(v) else Lookup(t, q)
  {
    var m := MatchingLength(t.key, k);
    assert t.Ext? ==> m < |t.key|;
    if t.key[..m] <= q {
      assert q == t.key[..m] + q[m..] && k == t.key[..m] + k[m..];
      ForkBranchLookup(t, m, k, v, q[m..]);
      assert m == 0 ==> q[m..] == q;
    } else {
      ForkBranchLookup(t, m, k, v, []);
      assert !(t.key <= q) && q != k;
    }
  }

  /** A put changes the value under its own path and under no other. */
  lemma {:induction false} InsertLookup(t: Tree, k: Nibbles, v: Bytes, q: Nibbles)
    requires WellFormed(t)
    ensures WellFormed(Insert(t, k, v))
    ensures Insert(t, k, v) != Empty && (t.Branch? ==> Insert(t, k, v).Branch?)
    ensures Lookup(Insert(t, k, v), q) == if q == k then Some(v) else Lookup(t, q)
    decreases t
  {
    hide ForkBranch;
    hide MatchingLength;
    match t
    case Empty =>
    case Leaf(key, _) =>
      if key != k { ForkLookup(t, k, v, q); }
    case Ext(key, child) =>
      if key <= k {
        PrefixSplits(key, k);
        if key <= q { PrefixSplits(key, q); }
        InsertLookup(child, k[|key|..], v, if key <= q then q[|key|..] else []);
      } else {
        ForkLookup(t, k, v, q);
      }
    case Branch(children, _) =>
      if k != [] {
        PrefixSplits([k[0]], k);
        if q != [] { PrefixSplits([q[0]], q); }
        InsertLookup(children[k[0]], k[1..], v, if q != [] then q[1..] else []);
      }
  }

  lemma PrefixSplits(p: Nibbles, k: Nibbles)
    requires p <= k
    ensures k == p + k[|p|..]
  {}

  lemma AtLeastTwo(s: set<nat>, i: nat, j: nat)
    requires i in s && j in s && i != j
    ensures |s| >= 2
  {
    assert |s - {i}| == |s| - 1;
    assert j in s - {i};
  }

  lemma AtLeastOne(s: set<nat>, i: nat)
    requires i in s
    ensures |s| >= 1
  {}

  lemma OccupiedGrows(a: seq<Tree>, b: seq<Tree>)
    requires |a| == |b| && forall i :: 0 <= i < |a| && a[i] != Empty ==> b[i] != Empty
    ensures |Occupied(a)| <= |Occupied(b)|
  {
    SubsetSize(Occupied(a), Occupied(b));
  }

  lemma ForkEntries(t: Tree, m: nat, k: Nibbles, v: Bytes)
    requires t.Leaf? || (t.Ext? && m < |t.key|)
    requires m <= |k| && m <= |t.key| && (m < |t.key| || m < |k|)
    requires m < |t.key| && m < |k| ==> t.key[m] != k[m]
    requires t.Ext? ==> t.child != Empty
    ensures var b := ForkBranch(t, m, k, v); Entries(b.children, b.slot) >= 2
  {
    var b := ForkBranch(t, m, k, v);
    if m < |t.key| {
      assert Shrink(t, m) != Empty;
      AtLeastOne(Occupied(b.children), t.key[m]);
      if m < |k| { AtLeastTwo(Occupied(b.children), t.key[m], k[m]); }
    } else {
      AtLeastOne(Occupied(b.children), k[m]);
    }
  }

  lemma ForkBranchCanonical(t: Tree, m: nat, k: Nibbles, v: Bytes)
    requires t.Leaf? || (t.Ext? && m < |t.key|)
    requires m <= |k| && m <= |t.key| && (m < |t.key| || m < |k|)
    requires m < |t.key| && m < |k| ==> t.key[m] != k[m]
    requires Canonical(t) && v != []
    ensures Canonical(ForkBranch(t, m, k, v))
  {
    ForkEntries(t, m, k, v);
    if m < |t.key| { assert Canonical(Shrink(t, m)); }
  }

  lemma ForkCanonical(t: Tree, k: Nibbles, v: Bytes)
    requires t.Leaf? || (t.Ext? && !(t.key <= k))
    requires Canonical(t) && (t.Leaf? ==> t.key != k) && v != []
    ensures Canonical(Fork(t, k, v))
  {
    var m := MatchingLength(t.key, k);
    assert m < |t.key| || m < |k| by {
      assert t.key[..|t.key|] == t.key && k[..|k|] == k;
    }
    ForkBranchCanonical(t, m, k, v);
  }

  lemma {:induction false} InsertCanonical(t: Tree, k: Nibbles, v: Bytes)
    requires Canonical(t) && v != []
    ensures WellFormed(t) && Canonical(Insert(t, k, v))
    ensures Insert(t, k, v) != Empty && (t.Branch? ==> Insert(t, k, v).Branch?)
    decreases t
  {
    CanonicalWellFormed(t);
    match t
    case Empty =>
    case Leaf(key, _) => if key != k { ForkCanonical(t, k, v); }
    case Ext(key, child) =>
      if key <= k { InsertCanonical(child, k[|key|..], v); } else { ForkCanonical(t, k, v); }
    case Branch(children, slot) =>
      if k != [] {
        InsertCanonical(children[k[0]], k[1..], v);
        OccupiedGrows(children, Insert(t, k, v).children);
      }
  }
}
