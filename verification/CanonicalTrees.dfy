/** A canonical tree is determined by what it stores. */
module CanonicalTrees {
  import opened ByteStrings
  import opened NibblePaths
  import opened Trees

  lemma {:induction false} StoredKey(t: Tree) returns (k: Nibbles)
    requires Canonical(t) && t != Empty
    ensures WellFormed(t) && Lookup(t, k).Some?
  {
    CanonicalWellFormed(t);
    match t
    case Leaf(key, _) => k := key;
    case Ext(key, child) =>
      var rest := StoredKey(child);
      k := key + rest;
      assert k[|key|..] == rest;
    case Branch(children, slot) =>
      if slot.Some? { return []; }
      var i :| i in Occupied(children);
      var rest := StoredKey(children[i]);
      k := [i] + rest;
      assert k[1..] == rest;
  }

  ghost predicate Diverge(a: Nibbles, b: Nibbles) {
    a != b && (a == [] || b == [] || a[0] != b[0])
  }

  /** Below a canonical branch two stored paths part at once. */
  lemma DivergingKeys(t: Tree) returns (a: Nibbles, b: Nibbles)
    requires Canonical(t) && t.Branch?
    ensures WellFormed(t) && Lookup(t, a).Some? && Lookup(t, b).Some? && Diverge(a, b)
  {
    CanonicalWellFormed(t);
    var i :| i in Occupied(t.children);
    var rest := StoredKey(t.children[i]);
    a := [i] + rest;
    assert a[1..] == rest;
    if t.slot.Some? { return a, []; }
    assert |Occupied(t.children) - {i}| >= 1;
    var j :| j in Occupied(t.children) - {i};
    rest := StoredKey(t.children[j]);
    b := [j] + rest;
    assert b[1..] == rest;
  }

  ghost predicate SameContent(s: Tree, t: Tree)
    requires WellFormed(s) && WellFormed(t)
  {
    forall k :: Lookup(s, k) == Lookup(t, k)
  }

  lemma TwoKeys(t: Tree) returns (a: Nibbles, b: Nibbles)
    requires Canonical(t) && (t.Branch? || t.Ext?)
    ensures WellFormed(t) && Lookup(t, a).Some? && Lookup(t, b).Some? && a != b
  {
    CanonicalWellFormed(t);
    if t.Branch? {
      a, b := DivergingKeys(t);
    } else {
      var x, y := DivergingKeys(t.child);
      a, b := t.key + x, t.key + y;
      assert a[|t.key|..] == x && b[|t.key|..] == y;
    }
  }

  lemma PathsPart(p: Nibbles, k: Nibbles, a: Nibbles, b: Nibbles)
    requires Diverge(a, b)
    ensures k <= p + a && k <= p + b ==> k <= p
  {
    if a != [] && b != [] {
      assert (p + a)[|p|] == a[0] && (p + b)[|p|] == b[0];
    }
  }

  lemma ExtKeyIsCommonPrefix(s: Tree, t: Tree)
    requires Canonical(s) && Canonical(t) && s.Ext? && t.Ext?
    requires WellFormed(s) && WellFormed(t) && SameContent(s, t)
    ensures t.key <= s.key
  {
    var a, b := DivergingKeys(s.child);
    var x, y := s.key + a, s.key + b;
    assert x[|s.key|..] == a && y[|s.key|..] == b;
    assert Lookup(s, x).Some? && Lookup(s, y).Some?;
    assert Lookup(t, x).Some? && Lookup(t, y).Some?;
    assert t.key <= x && t.key <= y;
    PathsPart(s.key, t.key, a, b);
  }

  lemma ExtMeetsNoBranch(s: Tree, t: Tree)
    requires Canonical(s) && Canonical(t) && s.Ext? && t.Branch?
    requires WellFormed(s) && WellFormed(t)
    ensures !SameContent(s, t)
  {
    if SameContent(s, t) {
      var a, b := DivergingKeys(t);
    }
  }

  /** History independence: equal content means equal canonical trees. */
  lemma {:induction false} CanonicalUnique(s: Tree, t: Tree)
    requires Canonical(s) && Canonical(t) && WellFormed(s) && WellFormed(t)
    requires SameContent(s, t)
    ensures s == t
    decreases s
  {
    if s == Empty || t == Empty {
      if s != Empty { var k := StoredKey(s); }
      if t != Empty { var k := StoredKey(t); }
    } else if s.Leaf? && t.Leaf? {
      assert Lookup(s, s.key) == Lookup(t, s.key);
    } else if s.Leaf? {
      var a, b := TwoKeys(t);
    } else if t.Leaf? {
      var a, b := TwoKeys(s);
    } else if s.Ext? && t.Branch? {
      ExtMeetsNoBranch(s, t);
    } else if s.Branch? && t.Ext? {
      ExtMeetsNoBranch(t, s);
    } else if s.Ext? {
      ExtKeyIsCommonPrefix(s, t);
      ExtKeyIsCommonPrefix(t, s);
      forall k ensures Lookup(s.child, k) == Lookup(t.child, k) {
        assert (s.key + k)[|s.key|..] == k;
        assert Lookup(s, s.key + k) == Lookup(t, s.key + k);
      }
      CanonicalUnique(s.child, t.child);
    } else {
      assert Lookup(s, []) == Lookup(t, []);
      forall i | 0 <= i < 16 ensures s.children[i] == t.children[i] {
        forall k ensures Lookup(s.children[i], k) == Lookup(t.children[i], k) {
          var path: Nibbles := [i] + k;
          assert path[1..] == k;
          assert Lookup(s, path) == Lookup(t, path);
        }
        CanonicalUnique(s.children[i], t.children[i]);
      }
      assert s.children == t.children;
    }
  }
}
