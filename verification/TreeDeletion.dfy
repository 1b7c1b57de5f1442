/**
 * What `del` does to the tree (baseTrie.ts `_deleteNode`), on every key, and exactly
 * when that is the removal of one binding.
 */
module TreeDeletion {
  import opened ByteStrings
  import opened NibblePaths
  import opened Trees
  import CT = CanonicalTrees

  /** Put a path in front of a tree, merging it with a leaf or extension. */
  function Prepend(p: Nibbles, t: Tree): Tree
    requires t != Empty
  {
    match t
    case Leaf(key, value) => Leaf(p + key, value)
    case Ext(key, child) => Ext(p + key, child)
    case Branch(_, _) => Ext(p, t)
  }

  ghost function Only(children: seq<Tree>): (i: nat)
    requires |Occupied(children)| == 1
    ensures i < |children| && Occupied(children) == {i}
  {
    var i :| i in Occupied(children);
    assert |Occupied(children) - {i}| == 0;
    i
  }

  /** A branch after something was cleared from it: one remaining child absorbs the branch,
      and the branch value, if any, is not looked at. */
  ghost function Prune(children: seq<Tree>, slot: Option<Bytes>): (r: Tree)
    requires |children| == 16
    ensures r != Empty
  {
    if |Occupied(children)| == 1 then
      var i := Only(children);
      Prepend([i], children[i])
    else Branch(children, slot)
  }

  /** `findPath` ends on a node. That node can be a branch without a value. */
  predicate Reaches(t: Tree, k: Nibbles)
    requires WellFormed(t)
    decreases t
  {
    match t
    case Empty => false
    case Leaf(key, _) => key == k
    case Ext(key, child) => key <= k && Reaches(child, k[|key|..])
    case Branch(children, _) => k == [] || Reaches(children[k[0]], k[1..])
  }

  ghost function DeleteBelow(t: Tree, k: Nibbles): (r: Tree)
    requires WellFormed(t) && Reaches(t, k) && !t.Leaf?
    ensures r != Empty
    decreases t
  {
    match t
    case Ext(key, child) => Prepend(key, DeleteBelow(child, k[|key|..]))
    case Branch(children, slot) =>
      if k == [] then Prune(children, None)
      else if children[k[0]].Leaf? then Prune(children[k[0] := Empty], slot)
      else Branch(children[k[0] := DeleteBelow(children[k[0]], k[1..])], slot)
  }

  /** A node without a parent is taken to be the only one in the trie. */
  predicate EndsAtRoot(t: Tree, k: Nibbles) {
    (t.Leaf? && t.key == k) || (t.Branch? && k == [])
  }

  ghost function Delete(t: Tree, k: Nibbles): Tree
    requires WellFormed(t)
  {
    if !Reaches(t, k) then t
    else if EndsAtRoot(t, k) then Empty
    else DeleteBelow(t, k)
  }

  /** The number of occupied branches next to the leaf for k, counted only
      when the branch above that leaf also carries a value of its own. */
  function ValueAbove(t: Tree, k: Nibbles): nat
    requires WellFormed(t)
    decreases t
  {
    match t
    case Empty => 0
    case Leaf(_, _) => 0
    case Ext(key, child) => if key <= k then ValueAbove(child, k[|key|..]) else 0
    case Branch(children, slot) =>
      if k == [] then 0
      else if children[k[0]].Leaf? then
        if children[k[0]].key == k[1..] && slot.Some? then |Occupied(children)| else 0
      else ValueAbove(children[k[0]], k[1..])
  }

  // ---------- shape ----------

  lemma PrependShape(p: Nibbles, t: Tree, depth: int)
    requires t != Empty && p != [] && |p| <= depth && Shape(t, depth - |p|)
    ensures Shape(Prepend(p, t), depth)
  {}

  lemma PruneShape(children: seq<Tree>, slot: Option<Bytes>, depth: int)
    requires Shape(Branch(children, slot), depth)
    ensures Shape(Prune(children, slot), depth)
  {
    if |Occupied(children)| == 1 {
      var i := Only(children);
      assert i in Occupied(children);
      NoRoom(children[i], depth - 1);
      PrependShape([i], children[i], depth);
    }
  }

  lemma NoRoom(t: Tree, depth: int)
    requires Shape(t, depth) && t != Empty
    ensures depth >= 0
  {}

  lemma {:induction false} DeleteBelowShape(t: Tree, k: Nibbles, depth: int)
    requires Shape(t, depth) && WellFormed(t) && Reaches(t, k) && !t.Leaf?
    ensures Shape(DeleteBelow(t, k), depth)
    decreases t
  {
    match t
    case Ext(key, child) =>
      DeleteBelowShape(child, k[|key|..], depth - |key|);
      PrependShape(key, DeleteBelow(child, k[|key|..]), depth);
    case Branch(children, slot) =>
      if k == [] {
        PruneShape(children, None, depth);
      } else if children[k[0]].Leaf? {
        PruneShape(children[k[0] := Empty], slot, depth);
      } else {
        DeleteBelowShape(children[k[0]], k[1..], depth - 1);
      }
  }

  /** Deleting any key keeps the shape, so no deletion can run into a missing parent branch. */
  lemma DeleteShape(t: Tree, k: Nibbles, depth: int)
    requires Shape(t, depth)
    ensures WellFormed(t) && Shape(Delete(t, k), depth) && WellFormed(Delete(t, k))
  {
    ShapeWellFormed(t, depth);
    if Reaches(t, k) && !EndsAtRoot(t, k) { DeleteBelowShape(t, k, depth); }
    ShapeWellFormed(Delete(t, k), depth);
  }

  // ---------- what is stored afterwards ----------

  lemma PrependLookup(p: Nibbles, t: Tree, q: Nibbles)
    requires t != Empty && WellFormed(t)
    ensures WellFormed(Prepend(p, t))
    ensures Lookup(Prepend(p, t), q) == if p <= q then Lookup(t, q[|p|..]) else None
  {
    if p <= q {
      assert q == p + q[|p|..];
      if t.Ext? && t.key <= q[|p|..] {
        assert q[|p + t.key|..] == q[|p|..][|t.key|..];
      }
    }
  }

  lemma PruneLookup(children: seq<Tree>, slot: Option<Bytes>, q: Nibbles)
    requires WellFormed(Branch(children, slot))
    ensures WellFormed(Prune(children, slot))
    ensures Lookup(Prune(children, slot), q) ==
            if q == [] && |Occupied(children)| == 1 then None else Lookup(Branch(children, slot), q)
  {
    if |Occupied(children)| == 1 {
      var i := Only(children);
      assert i in Occupied(children);
      PrependLookup([i], children[i], q);
      if q != [] && q[0] != i { assert q[0] !in Occupied(children); }
    }
  }

  ghost predicate Removed(r: Tree, t: Tree, k: Nibbles)
    requires WellFormed(r) && WellFormed(t)
  {
    forall q :: Lookup(r, q) == if q == k then None else Lookup(t, q)
  }

  lemma SlotDropped(t: Tree, k: Nibbles)
    requires WellFormed(t) && t.Branch? && k != [] && t.children[k[0]].Leaf?
    requires Reaches(t, k)
    ensures WellFormed(DeleteBelow(t, k))
    ensures ValueAbove(t, k) != 2 ==> Removed(DeleteBelow(t, k), t, k)
    ensures ValueAbove(t, k) == 2 ==> Lookup(DeleteBelow(t, k), []) == None != Lookup(t, [])
  {
    var i := k[0];
    var children := t.children[i := Empty];
    assert Occupied(t.children) == Occupied(children) + {i};
    assert k == [i] + k[1..];
    PruneLookup(children, t.slot, []);
    forall q ensures Lookup(DeleteBelow(t, k), q) == if q == [] && |Occupied(children)| == 1 then None
                     else if q == k then None else Lookup(t, q) {
      PruneLookup(children, t.slot, q);
      if q != [] { assert q == [q[0]] + q[1..]; }
    }
  }

  /** Below the root a deletion removes its key and nothing else, unless the leaf shares its
      branch with exactly one other child and a value: then that value is lost. */
  lemma DeleteUnderExt(t: Tree, k: Nibbles, below: Nibbles)
    requires Canonical(t) && WellFormed(t) && t.Ext? && Reaches(t, k)
    requires var r := DeleteBelow(t.child, k[|t.key|..]); var rest := k[|t.key|..];
      && WellFormed(r)
      && (ValueAbove(t.child, rest) != 2 ==> Removed(r, t.child, rest))
      && (ValueAbove(t.child, rest) == 2 ==> below != rest && Lookup(t.child, below).Some? && Lookup(r, below).None?)
    ensures WellFormed(DeleteBelow(t, k))
    ensures ValueAbove(t, k) != 2 ==> Removed(DeleteBelow(t, k), t, k)
    ensures ValueAbove(t, k) == 2 ==>
              t.key + below != k && Lookup(t, t.key + below).Some? && Lookup(DeleteBelow(t, k), t.key + below).None?
  {
    var rest, r := k[|t.key|..], DeleteBelow(t.child, k[|t.key|..]);
    assert k == t.key + rest;
    assert (t.key + below)[|t.key|..] == below;
    forall q ensures Lookup(DeleteBelow(t, k), q) == if t.key <= q then Lookup(r, q[|t.key|..]) else None {
      PrependLookup(t.key, r, q);
    }
    forall q | t.key <= q ensures q == t.key + q[|t.key|..] {}
  }

  lemma DeleteUnderBranch(t: Tree, k: Nibbles, below: Nibbles)
    requires Canonical(t) && WellFormed(t) && t.Branch? && Reaches(t, k) && k != [] && !t.children[k[0]].Leaf?
    requires var c, rest := t.children[k[0]], k[1..]; var r := DeleteBelow(c, rest);
      && WellFormed(r)
      && (ValueAbove(c, rest) != 2 ==> Removed(r, c, rest))
      && (ValueAbove(c, rest) == 2 ==> below != rest && Lookup(c, below).Some? && Lookup(r, below).None?)
    ensures WellFormed(DeleteBelow(t, k))
    ensures ValueAbove(t, k) != 2 ==> Removed(DeleteBelow(t, k), t, k)
    ensures ValueAbove(t, k) == 2 ==>
              [k[0]] + below != k && Lookup(t, [k[0]] + below).Some? && Lookup(DeleteBelow(t, k), [k[0]] + below).None?
  {
    hide DeleteBelow;
    hide Lookup;
    var c, rest, r := t.children[k[0]], k[1..], DeleteBelow(t.children[k[0]], k[1..]);
    DeleteBelowBranch(t, k);
    var after := DeleteBelow(t, k);
    assert ([k[0]] + below)[1..] == below && k == [k[0]] + rest;
    BranchLookup(after, [k[0]] + below);
    BranchLookup(t, [k[0]] + below);
    forall q: Nibbles
      ensures q != [] && q[0] == k[0] ==>
                Lookup(after, q) == Lookup(r, q[1..]) && Lookup(t, q) == Lookup(c, q[1..])
                && (q == k <==> q[1..] == rest)
      ensures !(q != [] && q[0] == k[0]) ==> Lookup(after, q) == Lookup(t, q) && q != k
    {
      BranchLookup(after, q);
      BranchLookup(t, q);
      if q != [] { assert q == [q[0]] + q[1..]; }
    }
  }

  lemma DeleteBelowBranch(t: Tree, k: Nibbles)
    requires WellFormed(t) && t.Branch? && Reaches(t, k) && k != [] && !t.children[k[0]].Leaf?
    ensures Reaches(t.children[k[0]], k[1..])
    ensures DeleteBelow(t, k) == Branch(t.children[k[0] := DeleteBelow(t.children[k[0]], k[1..])], t.slot)
  {}

  lemma BranchLookup(t: Tree, q: Nibbles)
    requires WellFormed(t) && t.Branch?
    ensures Lookup(t, q) == if q == [] then t.slot else Lookup(t.children[q[0]], q[1..])
  {}

  lemma {:induction false} DeleteBelowLookup(t: Tree, k: Nibbles) returns (lost: Nibbles)
    requires Canonical(t) && WellFormed(t) && Reaches(t, k) && !t.Leaf?
    ensures WellFormed(DeleteBelow(t, k))
    ensures ValueAbove(t, k) != 2 ==> Removed(DeleteBelow(t, k), t, k)
    ensures ValueAbove(t, k) == 2 ==>
              lost != k && Lookup(t, lost).Some? && Lookup(DeleteBelow(t, k), lost).None?
    decreases t
  {
    match t
    case Ext(key, child) =>
      var below := DeleteBelowLookup(child, k[|key|..]);
      lost := key + below;
      DeleteUnderExt(t, k, below);
    case Branch(children, slot) =>
      lost := [];
      if k == [] {
        forall q ensures WellFormed(DeleteBelow(t, k)) &&
                         Lookup(DeleteBelow(t, k), q) == if q == k then None else Lookup(t, q) {
          PruneLookup(children, None, q);
        }
      } else if children[k[0]].Leaf? {
        SlotDropped(t, k);
      } else {
        var below := DeleteBelowLookup(children[k[0]], k[1..]);
        lost := [k[0]] + below;
        DeleteUnderBranch(t, k, below);
      }
  }

  /** The map is updated correctly exactly when the code's two blind spots are avoided:
      the empty key on a root branch, and a two-child branch with a value above the leaf. */
  lemma DeleteCorrectIff(t: Tree, k: Nibbles)
    requires Canonical(t) && WellFormed(t)
    ensures WellFormed(Delete(t, k))
    ensures Removed(Delete(t, k), t, k) <==> !(t.Branch? && k == []) && ValueAbove(t, k) != 2
  {
    if !Reaches(t, k) {
      NotReached(t, k);
    } else if EndsAtRoot(t, k) {
      if t.Branch? {
        var i :| i in Occupied(t.children);
        var rest := StoredBelow(t, i);
        assert Lookup(t, rest).Some?;
      }
    } else {
      var lost := DeleteBelowLookup(t, k);
      if ValueAbove(t, k) == 2 { assert Lookup(t, lost).Some?; }
    }
  }

  lemma StoredBelow(t: Tree, i: nat) returns (k: Nibbles)
    requires Canonical(t) && WellFormed(t) && t.Branch? && i in Occupied(t.children)
    ensures k != [] && Lookup(t, k).Some?
  {
    var rest := CT.StoredKey(t.children[i]);
    k := [i] + rest;
    assert k[1..] == rest;
  }

  lemma {:induction false} NotReached(t: Tree, k: Nibbles)
    requires WellFormed(t) && !Reaches(t, k)
    ensures Lookup(t, k).None? && ValueAbove(t, k) == 0 && !(t.Branch? && k == [])
    decreases t
  {
    match t
    case Empty =>
    case Leaf(_, _) =>
    case Ext(key, child) => if key <= k { NotReached(child, k[|key|..]); }
    case Branch(children, _) => NotReached(children[k[0]], k[1..]);
  }

  // ---------- canonical form afterwards ----------

  lemma PruneCanonical(children: seq<Tree>, slot: Option<Bytes>)
    requires |children| == 16 && (forall i :: 0 <= i < 16 ==> Canonical(children[i]))
    requires slot.Some? ==> slot.value != []
    ensures Canonical(Prune(children, slot)) <==> Occupied(children) != {}
  {
    if |Occupied(children)| == 1 {
      var i := Only(children);
      assert i in Occupied(children);
    } else if Occupied(children) == {} {
      assert Entries(children, slot) <= 1;
    } else {
      var i :| i in Occupied(children);
      assert |Occupied(children)| >= 1;
    }
  }

  lemma {:induction false} DeleteBelowCanonical(t: Tree, k: Nibbles)
    requires Canonical(t) && WellFormed(t) && Reaches(t, k) && !t.Leaf?
    ensures Canonical(DeleteBelow(t, k)) <==> ValueAbove(t, k) != 1
    ensures ValueAbove(t, k) == 1 ==> DeleteBelow(t, k).Branch? || DeleteBelow(t, k).Ext?
    decreases t
  {
    match t
    case Ext(key, child) =>
      DeleteBelowCanonical(child, k[|key|..]);
    case Branch(children, slot) =>
      if k == [] || children[k[0]].Leaf? {
        DeleteHereCanonical(t, k);
      } else {
        DeleteBelowCanonical(children[k[0]], k[1..]);
        OccupiedGrows(children, DeleteBelow(t, k).children);
        assert DeleteBelow(t, k).children[k[0]] == DeleteBelow(children[k[0]], k[1..]);
      }
  }

  lemma DeleteHereCanonical(t: Tree, k: Nibbles)
    requires Canonical(t) && WellFormed(t) && Reaches(t, k) && t.Branch? && (k == [] || t.children[k[0]].Leaf?)
    ensures Canonical(DeleteBelow(t, k)) <==> ValueAbove(t, k) != 1
    ensures ValueAbove(t, k) == 1 ==> DeleteBelow(t, k).Branch?
  {
    if k == [] {
      PruneCanonical(t.children, None);
      assert |Occupied(t.children)| >= 1;
    } else {
      var rest := t.children[k[0] := Empty];
      assert Occupied(t.children) == Occupied(rest) + {k[0]};
      PruneCanonical(rest, t.slot);
    }
  }

  /** The canonical form survives exactly when no branch is left with a value and no child. */
  lemma DeleteCanonicalIff(t: Tree, k: Nibbles)
    requires Canonical(t) && WellFormed(t)
    ensures Canonical(Delete(t, k)) <==> ValueAbove(t, k) != 1
  {
    if !Reaches(t, k) {
      NotReached(t, k);
    } else if !EndsAtRoot(t, k) {
      DeleteBelowCanonical(t, k);
    }
  }

  // ---------- prefix-free keys ----------

  lemma {:induction false} ValueAboveIsPrefix(t: Tree, k: Nibbles) returns (q: Nibbles)
    requires WellFormed(t) && ValueAbove(t, k) > 0
    ensures q < k && Lookup(t, q).Some?
    decreases t
  {
    match t
    case Ext(key, child) =>
      q := ValueAboveIsPrefix(child, k[|key|..]);
      assert k == key + k[|key|..];
      q := key + q;
      assert q[|key|..] <= k[|key|..];
    case Branch(children, _) =>
      if children[k[0]].Leaf? { return []; }
      q := ValueAboveIsPrefix(children[k[0]], k[1..]);
      assert k == [k[0]] + k[1..];
      q := [k[0]] + q;
      assert q[1..] <= k[1..];
  }

  /** With no stored proper prefix of a non-empty key, deletion is removal and stays canonical. */
  lemma DeletePrefixFree(t: Tree, k: Nibbles)
    requires Canonical(t) && WellFormed(t) && k != []
    requires forall q :: Lookup(t, q).Some? && q <= k ==> q == k
    ensures WellFormed(Delete(t, k)) && Canonical(Delete(t, k)) && Removed(Delete(t, k), t, k)
  {
    DeleteCorrectIff(t, k);
    DeleteCanonicalIff(t, k);
    if ValueAbove(t, k) > 0 { var q := ValueAboveIsPrefix(t, k); }
  }

  // ---------- keys on which deletion goes wrong ----------

  const KEY_12: Bytes := [0x12]
  const KEY_1234: Bytes := [0x12, 0x34]
  const KEY_1256: Bytes := [0x12, 0x56]
  const KEY_10: Bytes := [0x10]
  const KEY_20: Bytes := [0x20]

  lemma KeyPaths()
    ensures BufferToNibbles(KEY_12) == [1, 2] && BufferToNibbles(KEY_1234) == [1, 2, 3, 4]
    ensures BufferToNibbles(KEY_1256) == [1, 2, 5, 6] && BufferToNibbles([]) == []
    ensures BufferToNibbles(KEY_10) == [1, 0] && BufferToNibbles(KEY_20) == [2, 0]
  {
    assert 0x12 / 16 == 1 && 0x12 % 16 == 2 && 0x34 / 16 == 3 && 0x34 % 16 == 4 && 0x56 / 16 == 5 && 0x56 % 16 == 6;
  }

  /** Values under 0x12 and 0x1234. */
  ghost function TwoStored(a: Bytes, b: Bytes): Tree {
    Ext([1, 2], Branch(NoChildren()[3 := Leaf([4], b)], Some(a)))
  }

  /** Values under 0x12, 0x1234 and 0x1256. */
  ghost function ThreeStored(a: Bytes, b: Bytes, c: Bytes): Tree {
    Ext([1, 2], Branch(NoChildren()[3 := Leaf([4], b)][5 := Leaf([6], c)], Some(a)))
  }

  lemma TwoPut(a: Bytes, b: Bytes)
    ensures Insert(Insert(Empty, BufferToNibbles(KEY_12), a), BufferToNibbles(KEY_1234), b) == TwoStored(a, b)
  {
    KeyPaths();
    var short, long: Nibbles := [1, 2], [1, 2, 3, 4];
    PrefixMatches(short, long);
    var t := Leaf(short, a);
    assert long[2] == 3 && long[3..] == [4] && short[..2] == short;
    assert ForkBranch(t, 2, long, b) == Branch(NoChildren()[3 := Leaf([4], b)], Some(a));
    assert Insert(t, long, b) == Fork(t, long, b) == Ext(short[..2], ForkBranch(t, 2, long, b));
  }

  lemma PrefixMatches(p: Nibbles, q: Nibbles)
    requires p <= q
    ensures MatchingLength(p, q) == |p|
  {}

  lemma ThreePut(a: Bytes, b: Bytes, c: Bytes)
    ensures WellFormed(TwoStored(a, b)) && Insert(TwoStored(a, b), BufferToNibbles(KEY_1256), c) == ThreeStored(a, b, c)
  {
    KeyPaths();
    var path, rest: Nibbles := [1, 2, 5, 6], [5, 6];
    var t := TwoStored(a, b);
    assert t.key <= path && path[|t.key|..] == rest && rest[1..] == [6];
    assert t.child.children[5] == Empty && Insert(Empty, rest[1..], c) == Leaf([6], c);
    assert Insert(t.child, rest, c) == Branch(t.child.children[5 := Insert(Empty, rest[1..], c)], Some(a));
  }

  lemma StoredShapes(a: Bytes, b: Bytes, c: Bytes)
    requires a != [] && b != [] && c != []
    ensures Canonical(TwoStored(a, b)) && WellFormed(TwoStored(a, b))
    ensures Canonical(ThreeStored(a, b, c)) && WellFormed(ThreeStored(a, b, c))
    ensures ValueAbove(TwoStored(a, b), [1, 2, 3, 4]) == 1 && ValueAbove(ThreeStored(a, b, c), [1, 2, 3, 4]) == 2
  {
    var two, three := TwoStored(a, b).child, ThreeStored(a, b, c).child;
    assert Occupied(two.children) == {3} && Occupied(three.children) == {3, 5};
    var path, rest: Nibbles := [1, 2, 3, 4], [3, 4];
    assert TwoStored(a, b).key <= path && path[2..] == rest && rest[1..] == [4];
    assert ValueAbove(two, rest) == 1 && ValueAbove(three, rest) == 2;
  }

  /** After putting 0x12, 0x1234 and 0x1256, deleting 0x1234 loses a value; after 0x10 and 0x20,
      deleting the empty key, although it is absent, clears the trie. */
  lemma DeleteLosesValues(a: Bytes, b: Bytes, c: Bytes)
    requires a != [] && b != [] && c != []
    ensures var t := Insert(Insert(Insert(Empty, BufferToNibbles(KEY_12), a), BufferToNibbles(KEY_1234), b),
                            BufferToNibbles(KEY_1256), c);
      var k := BufferToNibbles(KEY_1234);
      Canonical(t) && WellFormed(t) && WellFormed(Delete(t, k)) && !Removed(Delete(t, k), t, k)
    ensures var t := Insert(Insert(Empty, BufferToNibbles(KEY_10), a), BufferToNibbles(KEY_20), b);
      Canonical(t) && WellFormed(t) && Lookup(t, BufferToNibbles([])) == None && Delete(t, BufferToNibbles([])) == Empty
  {
    TwoPut(a, b);
    ThreePut(a, b, c);
    StoredShapes(a, b, c);
    KeyPaths();
    DeleteCorrectIff(ThreeStored(a, b, c), BufferToNibbles(KEY_1234));
    DeleteAtTop(a, b);
  }

  lemma DeleteAtTop(a: Bytes, b: Bytes)
    requires a != [] && b != []
    ensures var t := Insert(Insert(Empty, BufferToNibbles(KEY_10), a), BufferToNibbles(KEY_20), b);
      Canonical(t) && WellFormed(t) && Lookup(t, BufferToNibbles([])) == None && Delete(t, BufferToNibbles([])) == Empty
  {
    KeyPaths();
    var one, two: Nibbles := [1, 0], [2, 0];
    var t0 := Leaf(one, a);
    InsertCanonical(t0, two, b);
    CanonicalWellFormed(Insert(t0, two, b));
    InsertLookup(t0, two, b, []);
    assert MatchingLength(one, two) == 0;
    assert Insert(t0, two, b).Branch?;
  }

  /** After putting 0x12 and 0x1234, deleting 0x1234 leaves a branch without children. */
  lemma DeleteLosesForm(a: Bytes, b: Bytes)
    requires a != [] && b != []
    ensures var t := Insert(Insert(Empty, BufferToNibbles(KEY_12), a), BufferToNibbles(KEY_1234), b);
      Canonical(t) && WellFormed(t) && !Canonical(Delete(t, BufferToNibbles(KEY_1234)))
  {
    TwoPut(a, b);
    StoredShapes(a, b, b);
    KeyPaths();
    DeleteCanonicalIff(TwoStored(a, b), BufferToNibbles(KEY_1234));
  }
}
