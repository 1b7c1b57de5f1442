/**
 * Put and del seen from the end of the path: both replace one node on it. And which
 * strings such a replacement adds to the store.
 */
module TrieUpdates {
  import opened ByteStrings
  import opened NibblePaths
  import opened Rlp
  import opened Trees
  import opened TreeDeletion
  import opened TrieNodes
  import opened TriePaths

  function Last(t: Tree, k: Nibbles): nat
    requires WellFormed(t) && t != Empty
  {
    |Path(t, k)| - 1
  }

  /** The path ends where the key is found or nothing is left to follow. */
  lemma {:induction false} PathEnd(t: Tree, k: Nibbles)
    requires WellFormed(t) && t != Empty
    ensures var n := Last(t, k); var last := Path(t, k)[n]; var rest := Rest(t, k, n);
      && last != Empty && WellFormed(last) && !Continues(last, rest)
      && (Reaches(t, k) <==> EndsAtRoot(last, rest))
      && Remaining(t, k) == if EndsAtRoot(last, rest) then [] else rest
    decreases t
  {
    if Continues(t, k) { PathEnd(Next(t, k), k[Step(t)..]); }
  }

  /** A put replaces the last node of the path. */
  lemma {:induction false} InsertIsPlug(t: Tree, k: Nibbles, v: Bytes)
    requires WellFormed(t) && t != Empty
    ensures var n := Last(t, k);
      && Path(t, k)[n] != Empty && WellFormed(Path(t, k)[n])
      && Insert(t, k, v) == Plug(t, k, n, Insert(Path(t, k)[n], Rest(t, k, n), v))
    decreases t
  {
    if Continues(t, k) { InsertIsPlug(Next(t, k), k[Step(t)..], v); }
  }

  // ---------- deletion ----------

  ghost predicate Deletable(t: Tree, k: Nibbles) {
    WellFormed(t) && Reaches(t, k) && !t.Leaf? && !EndsAtRoot(t, k)
  }

  /** The branch from which something is cleared: its value or a leaf. */
  predicate ClearsHere(t: Tree, k: Nibbles)
    requires WellFormed(t)
  {
    t.Branch? && (k == [] || (t.children[k[0]].Leaf? && t.children[k[0]].key == k[1..]))
  }

  /** Where on the path that branch is. */
  function ClearedAt(t: Tree, k: Nibbles): nat
    requires WellFormed(t)
    decreases t
  {
    if ClearsHere(t, k) || !Continues(t, k) then 0 else 1 + ClearedAt(Next(t, k), k[Step(t)..])
  }

  /** The branch with its value or its leaf gone. */
  function Cleared(branch: Tree, rest: Nibbles): (r: Tree)
    requires branch.Branch? && |branch.children| == 16
    ensures r.Branch? && |r.children| == 16
  {
    if rest == [] then Branch(branch.children, None)
    else Branch(branch.children[rest[0] := Empty], branch.slot)
  }

  predicate Collapses(branch: Tree, rest: Nibbles)
    requires branch.Branch? && |branch.children| == 16
  {
    |Occupied(Cleared(branch, rest).children)| == 1
  }

  lemma DeletableContinues(t: Tree, k: Nibbles)
    requires Deletable(t, k)
    ensures Continues(t, k) && Reaches(Next(t, k), k[Step(t)..]) && |Path(t, k)| >= 2
    ensures ClearsHere(t, k) || ClearsHere(Next(t, k), k[Step(t)..]) || Deletable(Next(t, k), k[Step(t)..])
  {
    if t.Branch? { assert Reaches(t.children[k[0]], k[1..]); }
  }

  /** The cleared branch lies on the path, and the path goes at most one leaf beyond it. */
  lemma {:induction false} ClearedBranch(t: Tree, k: Nibbles)
    requires WellFormed(t) && (ClearsHere(t, k) || Deletable(t, k))
    ensures var b := ClearedAt(t, k);
      && b <= Last(t, k) && Path(t, k)[b].Branch? && WellFormed(Path(t, k)[b])
      && ClearsHere(Path(t, k)[b], Rest(t, k, b))
      && Last(t, k) == b + if Rest(t, k, b) == [] then 0 else 1
    decreases t
  {
    if ClearsHere(t, k) {
      if k != [] { assert Path(Next(t, k), k[1..]) == [Next(t, k)]; }
    } else {
      DeletableContinues(t, k);
      ClearedBranch(Next(t, k), k[Step(t)..]);
    }
  }

  /** Clearing the branch at the b-th place of the path, when no extension above it merges. */
  lemma {:induction false} DeleteAtBranch(t: Tree, k: Nibbles)
    requires WellFormed(t) && t != Empty && (ClearsHere(t, k) || Deletable(t, k))
    requires var b := ClearedAt(t, k); b <= Last(t, k) && Path(t, k)[b].Branch? && WellFormed(Path(t, k)[b])
    requires var b := ClearedAt(t, k);
      b > 0 && Path(t, k)[b - 1].Ext? ==> !Collapses(Path(t, k)[b], Rest(t, k, b))
    ensures Reaches(t, k)
    ensures var b := ClearedAt(t, k); var c := Cleared(Path(t, k)[b], Rest(t, k, b));
      DeleteBelow(t, k) == Plug(t, k, b, Prune(c.children, c.slot))
    ensures ClearedAt(t, k) > 0 && t.Branch? ==> DeleteBelow(t, k).Branch?
    decreases t
  {
    if !ClearsHere(t, k) {
      DeletableContinues(t, k);
      DeleteAtBranch(Next(t, k), k[Step(t)..]);
      if ClearsHere(Next(t, k), k[Step(t)..]) {
        ClearedBranch(Next(t, k), k[Step(t)..]);
      }
    }
  }

  /** The same when the branch collapses into the extension above it. */
  lemma {:induction false} DeleteIntoExtension(t: Tree, k: Nibbles)
    requires Deletable(t, k)
    requires var b := ClearedAt(t, k); 0 < b <= Last(t, k) && Path(t, k)[b].Branch? && WellFormed(Path(t, k)[b])
    requires var b := ClearedAt(t, k); Path(t, k)[b - 1].Ext? && Collapses(Path(t, k)[b], Rest(t, k, b))
    ensures var b := ClearedAt(t, k); var c := Cleared(Path(t, k)[b], Rest(t, k, b));
      DeleteBelow(t, k) == Plug(t, k, b - 1, Prepend(Path(t, k)[b - 1].key, Prune(c.children, c.slot)))
    ensures ClearedAt(t, k) > 1 && t.Branch? ==> DeleteBelow(t, k).Branch?
    decreases t
  {
    DeletableContinues(t, k);
    if !ClearsHere(Next(t, k), k[Step(t)..]) {
      DeleteIntoExtension(Next(t, k), k[Step(t)..]);
    }
  }

  // ---------- strings ----------

  ghost function OwnAll(H: HashFn, trees: seq<Tree>): set<Bytes> {
    if trees == [] then {} else Own(H, trees[0]) + OwnAll(H, trees[1..])
  }

  lemma {:induction false} OwnAllIs(H: HashFn, trees: seq<Tree>, s: Bytes)
    ensures s in OwnAll(H, trees) <==> exists i :: 0 <= i < |trees| && s in Own(H, trees[i])
  {
    hide Own;
    if trees != [] {
      OwnAllIs(H, trees[1..], s);
      if i :| 0 <= i < |trees| && s in Own(H, trees[i]) {
        if i > 0 { assert trees[1..][i - 1] == trees[i]; }
      }
      if i :| 0 <= i < |trees[1..]| && s in Own(H, trees[1..][i]) {
        assert trees[1..][i] == trees[i + 1];
      }
    }
  }

  lemma OwnAllAppend(H: HashFn, trees: seq<Tree>, t: Tree)
    ensures OwnAll(H, trees + [t]) == OwnAll(H, trees) + Own(H, t)
  {
    hide Own;
    forall s ensures s in OwnAll(H, trees + [t]) <==> s in OwnAll(H, trees) + Own(H, t) {
      OwnAllIs(H, trees + [t], s);
      OwnAllIs(H, trees, s);
      if s in Own(H, t) { assert (trees + [t])[|trees|] == t; }
      if i :| 0 <= i < |trees| && s in Own(H, trees[i]) { assert (trees + [t])[i] == trees[i]; }
    }
  }

  lemma OwnInNode(H: HashFn, t: Tree)
    ensures Own(H, t) <= NodeStrings(H, t)
  {}

  lemma NextStrings(H: HashFn, t: Tree, k: Nibbles)
    requires WellFormed(t) && Continues(t, k)
    ensures NodeStrings(H, Next(t, k)) <= NodeStrings(H, t)
  {
    hide Own;
  }

  lemma {:induction false} PathStrings(H: HashFn, t: Tree, k: Nibbles, n: nat)
    requires WellFormed(t) && t != Empty && n < |Path(t, k)|
    ensures NodeStrings(H, Path(t, k)[n]) <= NodeStrings(H, t)
    decreases n
  {
    if n > 0 {
      NextStrings(H, t, k);
      PathStrings(H, Next(t, k), k[Step(t)..], n - 1);
    }
  }

  /** The strings of a branch with one child changed. */
  lemma BranchStrings(H: HashFn, t: Tree, i: nat, c: Tree, slot: Option<Bytes>)
    requires t.Branch? && i < |t.children|
    ensures var r := Branch(t.children[i := c], slot);
      NodeStrings(H, r) <= NodeStrings(H, t) + NodeStrings(H, c) + Own(H, r)
  {
    hide Own;
    var r := Branch(t.children[i := c], slot);
    forall s | s in NodeStrings(H, r) && s !in Own(H, r) ensures s in NodeStrings(H, t) + NodeStrings(H, c) {
      var j: nat :| j < |r.children| && s in NodeStrings(H, r.children[j]);
      if j != i { assert s in NodeStrings(H, t.children[j]); }
    }
  }

  lemma {:induction false} PlugStrings(H: HashFn, t: Tree, k: Nibbles, n: nat, x: Tree)
    requires WellFormed(t) && t != Empty && n < |Path(t, k)|
    ensures NodeStrings(H, Plug(t, k, n, x)) <=
            NodeStrings(H, t) + NodeStrings(H, x) + OwnAll(H, Upper(H, t, k, n, x).trees)
    decreases n
  {
    hide Own;
    hide NodeOf;
    if n > 0 {
      var c, rest := Next(t, k), k[Step(t)..];
      PlugStrings(H, c, rest, n - 1, x);
      NextStrings(H, t, k);
      if t.Branch? { BranchStrings(H, t, k[0], Plug(c, rest, n - 1, x), t.slot); }
      assert Upper(H, t, k, n, x).trees[1..] == Upper(H, c, rest, n - 1, x).trees;
    }
  }

  function Top(s: Stale, x: Tree): Tree {
    if s.trees == [] then x else s.trees[0]
  }

  lemma JointStrings(H: HashFn, node: Node, t: Tree, key: Nibbles, at: nat, child: Tree)
    requires Joint(H, node, t, key, at, child)
    ensures t != Empty && NodeStrings(H, child) <= NodeStrings(H, t)
  {
    hide Own;
    hide NodeOf;
  }

  /** Every tree of an open stack is part of the topmost one. */
  lemma {:induction false} OpenStrings(H: HashFn, s: Stale, x: Tree, i: nat)
    requires Open(H, s, x) && i <= |s.trees|
    ensures NodeStrings(H, if i < |s.trees| then s.trees[i] else x) <= NodeStrings(H, Top(s, x))
    ensures i < |s.trees| ==> s.trees[i] != Empty
    decreases i
  {
    hide Joint;
    hide NodeStrings;
    if i < |s.trees| {
      assert JointAt(H, s, i, x);
      JointStrings(H, s.nodes[i], s.trees[i], s.key, s.cuts[i], if i + 1 < |s.trees| then s.trees[i + 1] else x);
    }
    if i > 0 {
      OpenStrings(H, s, x, i - 1);
      assert JointAt(H, s, i - 1, x);
      JointStrings(H, s.nodes[i - 1], s.trees[i - 1], s.key, s.cuts[i - 1], if i < |s.trees| then s.trees[i] else x);
    }
  }

  lemma SpineStrings(H: HashFn, s: Stale, x: Tree)
    requires Open(H, s, x)
    ensures OwnAll(H, s.trees) + NodeStrings(H, x) <= NodeStrings(H, Top(s, x))
  {
    hide Own;
    hide NodeStrings;
    hide Open;
    OpenStrings(H, s, x, |s.trees|);
    forall b | b in OwnAll(H, s.trees) ensures b in NodeStrings(H, Top(s, x)) {
      OwnAllIs(H, s.trees, b);
      var i :| 0 <= i < |s.trees| && b in Own(H, s.trees[i]);
      OpenStrings(H, s, x, i);
      OwnInNode(H, s.trees[i]);
    }
  }

  lemma SlotStrings(H: HashFn, t: Tree, slot: Option<Bytes>)
    requires t.Branch?
    ensures var r := Branch(t.children, slot); NodeStrings(H, r) <= NodeStrings(H, t) + Own(H, r)
  {
    hide Own;
  }

  /** The part of a forked leaf or extension that stays below the new branch. */
  lemma ShrinkStrings(H: HashFn, t: Tree, m: nat)
    requires (t.Leaf? || t.Ext?) && m < |t.key|
    ensures NodeStrings(H, Shrink(t, m)) <= NodeStrings(H, t) + Own(H, Shrink(t, m))
  {
    hide Own;
  }

  lemma ForkBranchStrings(H: HashFn, t: Tree, m: nat, k: Nibbles, v: Bytes)
    requires t.Leaf? || (t.Ext? && m < |t.key|)
    requires m <= |k| && m <= |t.key| && (m < |t.key| || m < |k|)
    ensures var b := ForkBranch(t, m, k, v);
      NodeStrings(H, b) <= NodeStrings(H, t) + Own(H, b)
        + (if m < |t.key| then Own(H, Shrink(t, m)) else {})
        + (if m < |k| then Own(H, Leaf(k[m + 1..], v)) else {})
  {
    hide Own;
    var b := ForkBranch(t, m, k, v);
    forall s | s in NodeStrings(H, b) && s !in Own(H, b)
      ensures s in NodeStrings(H, t) + (if m < |t.key| then Own(H, Shrink(t, m)) else {})
                   + (if m < |k| then Own(H, Leaf(k[m + 1..], v)) else {})
    {
      var j: nat :| j < 16 && s in NodeStrings(H, b.children[j]);
      if m < |k| && j == k[m] {
      } else if m < |t.key| && j == t.key[m] {
        ShrinkStrings(H, t, m);
      } else {
        assert b.children[j] == Empty;
      }
    }
  }

  lemma PrependStrings(H: HashFn, p: Nibbles, t: Tree)
    requires t != Empty
    ensures NodeStrings(H, Prepend(p, t)) <= NodeStrings(H, t) + Own(H, Prepend(p, t))
  {
    hide Own;
  }

  // ---------- stacks ready to be saved ----------

  /** How many nibbles of the key the deepest node of a stack accounts for. */
  function Tail(x: Tree): nat {
    match x
    case Leaf(key, _) => |key|
    case Ext(key, _) => |key|
    case _ => 0
  }

  /** A stack and key that `_saveStack` turns into the tree on top of it. */
  ghost predicate Ready(H: HashFn, stack: seq<Node>, key: Nibbles, s: Stale, x: Tree) {
    && x != Empty && Open(H, s, x) && stack == s.nodes + [NodeOf(H, x)]
    && s.key <= key && |key| == |s.key| + Tail(x)
  }

  /** A new leaf under an unused branch. */
  lemma AttachReady(H: HashFn, s: Stale, last: Tree, rest: Nibbles, v: Bytes, key: Nibbles) returns (r: Stale)
    requires WellFormed(last) && last.Branch? && rest != [] && last.children[rest[0]] == Empty
    requires Open(H, s, Insert(last, rest, v)) && key == s.key + rest
    ensures Ready(H, s.nodes + [NodeOf(H, last), LeafNode(rest[1..], Str(v))], key, r, Leaf(rest[1..], v))
    ensures r.trees == s.trees + [Insert(last, rest, v)]
  {
    var t, x := Insert(last, rest, v), Leaf(rest[1..], v);
    var step: Nibbles := [rest[0]];
    assert Insert(Empty, rest[1..], v) == x;
    assert t.children == last.children[rest[0] := x];
    assert NodeOf(H, last).branches[rest[0] := Ref(H, x)] == NodeOf(H, t).branches;
    r := Push(s, NodeOf(H, last), t, step);
    assert Joint(H, NodeOf(H, last), t, s.key + step, |s.key|, x);
    OpenPush(H, s, NodeOf(H, last), t, step, x);
    assert s.key + step <= key;
    assert NodeOf(H, x) == LeafNode(rest[1..], Str(v));
  }

  /** The branch with its link still unset, and the new leaf below it. */
  ghost function ForkedBottom(H: HashFn, last: Tree, rest: Nibbles, v: Bytes): seq<Node>
    requires last.Leaf? || (last.Ext? && !(last.key <= rest))
    requires MatchingLength(last.key, rest) < |rest|
  {
    var m := MatchingLength(last.key, rest);
    assert last.Ext? ==> m < |last.key|;
    var b := NodeOf(H, ForkBranch(last, m, rest, v));
    [BranchNode(b.branches[rest[m] := NULL], b.bvalue), LeafNode(rest[m + 1..], Str(v))]
  }

  /** What a fork pushes: a placeholder extension, the new branch, the new leaf. */
  ghost function Forked(H: HashFn, last: Tree, rest: Nibbles, v: Bytes): seq<Node>
    requires last.Leaf? || (last.Ext? && !(last.key <= rest))
  {
    var m := MatchingLength(last.key, rest);
    assert last.Ext? ==> m < |last.key|;
    (if m > 0 then [ExtensionNode(last.key[..m], Str(v))] else []) +
    (if m < |rest| then ForkedBottom(H, last, rest, v) else [NodeOf(H, ForkBranch(last, m, rest, v))])
  }

  lemma ForkJoint(H: HashFn, last: Tree, m: nat, rest: Nibbles, v: Bytes, key: Nibbles, at: nat)
    requires last.Leaf? || (last.Ext? && m < |last.key|)
    requires m < |rest| && m <= |last.key| && at < |key| && key[at] == rest[m]
    ensures var b := ForkBranch(last, m, rest, v);
      Joint(H, BranchNode(NodeOf(H, b).branches[rest[m] := NULL], NodeOf(H, b).bvalue), b, key, at,
            Leaf(rest[m + 1..], v))
  {}

  lemma ForkTop(H: HashFn, s: Stale, last: Tree, m: nat, rest: Nibbles, v: Bytes, b: Tree) returns (r: Stale)
    requires (last.Leaf? || last.Ext?) && m <= |last.key| && m <= |rest| && last.key[..m] == rest[..m] && b != Empty
    requires Open(H, s, if m > 0 then Ext(last.key[..m], b) else b)
    ensures Open(H, r, b) && r.key == s.key + rest[..m]
    ensures r.nodes == s.nodes + if m > 0 then [ExtensionNode(last.key[..m], Str(v))] else []
    ensures r.trees == s.trees + if m > 0 then [Ext(last.key[..m], b)] else []
  {
    hide NodeOf;
    r := s;
    if m > 0 {
      var ext := ExtensionNode(last.key[..m], Str(v));
      OpenPush(H, s, ext, Ext(last.key[..m], b), rest[..m], b);
      r := Push(s, ext, Ext(last.key[..m], b), rest[..m]);
    }
  }

  lemma ForkBottom(H: HashFn, s: Stale, stale: Node, b: Tree, leaf: Tree, rest: Nibbles, key: Nibbles)
    returns (r: Stale)
    requires Open(H, s, b) && b.Branch? && rest != [] && leaf.Leaf? && leaf.key == rest[1..] && key == s.key + rest
    requires forall k, at: nat :: at < |k| && k[at] == rest[0] ==> Joint(H, stale, b, k, at, leaf)
    ensures Ready(H, s.nodes + [stale, NodeOf(H, leaf)], key, r, leaf)
    ensures r.trees == s.trees + [b]
  {
    hide NodeOf;
    hide Joint;
    var step: Nibbles := [rest[0]];
    assert (s.key + step)[|s.key|] == rest[0];
    OpenPush(H, s, stale, b, step, leaf);
    assert s.key + step == key[..|s.key| + 1];
    r := Push(s, stale, b, step);
  }

  /** The trees of the forked nodes, from the top. */
  function ForkSpine(last: Tree, rest: Nibbles, v: Bytes): (r: seq<Tree>)
    requires WellFormed(last) && (last.Leaf? || (last.Ext? && !(last.key <= rest))) && (last.Leaf? ==> last.key != rest)
    ensures r != [] && r[0] == Insert(last, rest, v)
  {
    var m := MatchingLength(last.key, rest);
    assert last.Ext? ==> m < |last.key|;
    (if m > 0 then [Insert(last, rest, v)] else []) + [ForkBranch(last, m, rest, v)]
    + if m < |rest| then [Leaf(rest[m + 1..], v)] else []
  }

  lemma ForkReady(H: HashFn, s: Stale, last: Tree, rest: Nibbles, v: Bytes, key: Nibbles) returns (r: Stale, x: Tree)
    requires WellFormed(last) && (last.Leaf? || (last.Ext? && !(last.key <= rest))) && (last.Leaf? ==> last.key != rest)
    requires Open(H, s, Insert(last, rest, v)) && key == s.key + rest
    ensures Ready(H, s.nodes + Forked(H, last, rest, v), key, r, x)
    ensures r.trees + [x] == s.trees + ForkSpine(last, rest, v)
  {
    hide Ready;
    hide Open;
    hide NodeOf;
    hide ForkBranch;
    hide Insert;
    hide Forked;
    hide ForkedBottom;
    hide MatchingLength;
    var m := MatchingLength(last.key, rest);
    InsertForks(last, rest, v);
    ForkedParts(H, last, rest, v);
    var b := ForkBranch(last, m, rest, v);
    var mid := ForkTop(H, s, last, m, rest, v, b);
    assert key == mid.key + rest[m..];
    var top := if m > 0 then [ExtensionNode(last.key[..m], Str(v))] else [];
    var trees := if m > 0 then [Insert(last, rest, v)] else [];
    if m < |rest| {
      x := Leaf(rest[m + 1..], v);
      r := ForkTail(H, mid, last, rest, v, key);
      Regroup(s.nodes, top, ForkedBottom(H, last, rest, v));
      RegroupMore(s.trees, trees, [b], [x]);
    } else {
      x, r := b, mid;
      EndsInBranch(H, mid, b, key);
      Regroup(s.nodes, top, [NodeOf(H, b)]);
      Regroup(s.trees, trees, [b]);
      NothingMore(trees + [b]);
    }
  }

  lemma RegroupMore<T>(a: seq<T>, b: seq<T>, c: seq<T>, d: seq<T>)
    ensures a + b + c + d == a + (b + c + d)
  {}

  lemma Regroup<T>(a: seq<T>, b: seq<T>, c: seq<T>)
    ensures a + b + c == a + (b + c)
  {}

  lemma NothingMore<T>(a: seq<T>)
    ensures a + [] == a
  {}

  lemma InsertForks(last: Tree, rest: Nibbles, v: Bytes)
    requires WellFormed(last) && (last.Leaf? || (last.Ext? && !(last.key <= rest))) && (last.Leaf? ==> last.key != rest)
    ensures var m := MatchingLength(last.key, rest);
      && (last.Ext? ==> m < |last.key|) && m <= |rest| && ForkBranch(last, m, rest, v) != Empty
      && Insert(last, rest, v) ==
         if m > 0 then Ext(last.key[..m], ForkBranch(last, m, rest, v)) else ForkBranch(last, m, rest, v)
  {}

  lemma ForkedParts(H: HashFn, last: Tree, rest: Nibbles, v: Bytes)
    requires last.Leaf? || (last.Ext? && !(last.key <= rest))
    ensures var m := MatchingLength(last.key, rest);
      && (last.Ext? ==> m < |last.key|)
      && Forked(H, last, rest, v) ==
         (if m > 0 then [ExtensionNode(last.key[..m], Str(v))] else []) +
         (if m < |rest| then ForkedBottom(H, last, rest, v) else [NodeOf(H, ForkBranch(last, m, rest, v))])
  {
    hide NodeOf;
    hide ForkBranch;
    hide ForkedBottom;
    hide MatchingLength;
    ExtensionEnds(last, rest);
  }

  lemma ExtensionEnds(last: Tree, rest: Nibbles)
    requires last.Leaf? || (last.Ext? && !(last.key <= rest))
    ensures last.Ext? ==> MatchingLength(last.key, rest) < |last.key|
  {
    var m := MatchingLength(last.key, rest);
    assert last.key[..|last.key|] == last.key;
  }

  lemma EndsInBranch(H: HashFn, s: Stale, b: Tree, key: Nibbles)
    requires Open(H, s, b) && b.Branch? && key == s.key
    ensures Ready(H, s.nodes + [NodeOf(H, b)], key, s, b)
  {
    hide NodeOf;
    hide Open;
  }

  lemma ForkTail(H: HashFn, s: Stale, last: Tree, rest: Nibbles, v: Bytes, key: Nibbles) returns (r: Stale)
    requires (last.Leaf? || (last.Ext? && !(last.key <= rest))) && MatchingLength(last.key, rest) < |rest|
    requires last.Ext? ==> MatchingLength(last.key, rest) < |last.key|
    requires Open(H, s, ForkBranch(last, MatchingLength(last.key, rest), rest, v))
    requires key == s.key + rest[MatchingLength(last.key, rest)..]
    ensures var m := MatchingLength(last.key, rest);
      && Ready(H, s.nodes + ForkedBottom(H, last, rest, v), key, r, Leaf(rest[m + 1..], v))
      && r.trees == s.trees + [ForkBranch(last, m, rest, v)]
  {
    hide Joint;
    hide Open;
    hide MatchingLength;
    var m := MatchingLength(last.key, rest);
    var b := ForkBranch(last, m, rest, v);
    var stale := BranchNode(NodeOf(H, b).branches[rest[m] := NULL], NodeOf(H, b).bvalue);
    var leaf := Leaf(rest[m + 1..], v);
    forall k, at: nat | at < |k| && k[at] == rest[m..][0] ensures Joint(H, stale, b, k, at, leaf) {
      ForkJoint(H, last, m, rest, v, k, at);
    }
    assert NodeOf(H, leaf) == LeafNode(rest[m + 1..], Str(v));
    r := ForkBottom(H, s, stale, b, leaf, rest[m..], key);
  }

  /** What a collapsing branch leaves of its only child, below the path p. */
  ghost function Collapsed(H: HashFn, p: Nibbles, x: Tree, link: Item): seq<Node>
    requires x != Empty
  {
    if x.Branch? then [ExtensionNode(p, link), NodeOf(H, x)] else [NodeOf(H, Prepend(p, x))]
  }

  lemma CollapseReady(H: HashFn, s: Stale, p: Nibbles, x: Tree, link: Item) returns (r: Stale, y: Tree)
    requires x != Empty && p != [] && Open(H, s, Prepend(p, x))
    ensures Ready(H, s.nodes + Collapsed(H, p, x, link), s.key + p + (if x.Branch? then [] else x.key), r, y)
    ensures r.trees + [y] == s.trees + [Prepend(p, x)] + if x.Branch? then [x] else []
  {
    hide NodeOf;
    r, y := s, Prepend(p, x);
    if x.Branch? {
      y := x;
      OpenPush(H, s, ExtensionNode(p, link), Ext(p, x), p, x);
      r := Push(s, ExtensionNode(p, link), Ext(p, x), p);
      assert s.key + p + [] == s.key + p;
    } else {
      assert s.key <= s.key + p + x.key;
    }
  }

  lemma OwnAllConcat(H: HashFn, a: seq<Tree>, b: seq<Tree>)
    ensures OwnAll(H, a + b) == OwnAll(H, a) + OwnAll(H, b)
  {
    hide Own;
    if a == [] {
      assert a + b == b;
    } else {
      OwnAllConcat(H, a[1..], b);
      assert (a + b)[1..] == a[1..] + b;
    }
  }

  /** What saving a stack writes: the tree it replaces and its new spine account for the whole
      new trie, and nothing else is written. */
  lemma WrittenStrings(H: HashFn, t: Tree, k: Nibbles, n: nat, replaced: Tree,
                       s: Stale, x: Tree, below: seq<Tree>, extra: set<Bytes>)
    requires WellFormed(t) && t != Empty && n < |Path(t, k)|
    requires Open(H, s, x) && x != Empty
    requires s.trees + [x] == Upper(H, t, k, n, replaced).trees + below && below != [] && below[0] == replaced
    requires NodeStrings(H, replaced) <= NodeStrings(H, t) + OwnAll(H, below) + extra
    requires extra <= NodeStrings(H, replaced)
    ensures Plug(t, k, n, replaced) == Top(s, x) != Empty
    ensures var top := Top(s, x);
      var written := extra + OwnAll(H, s.trees) + Own(H, x) + {Serialize(NodeOf(H, top))};
      written <= RootStrings(H, top) <= NodeStrings(H, t) + written
  {
    hide Own;
    hide Open;
    hide NodeOf;
    hide NodeStrings;
    hide Serialize;
    hide OwnAll;
    var up := Upper(H, t, k, n, replaced);
    UpperOpen(H, t, k, n, replaced);
    assert (s.trees + [x])[0] == (up.trees + below)[0] == (up.trees + [replaced])[0];
    OwnAllAppend(H, s.trees, x);
    OwnAllConcat(H, up.trees, below);
    SpineStrings(H, s, x);
    OwnInNode(H, x);
    PlugStrings(H, t, k, n, replaced);
    OpenSize(H, s, x);
    OpenStrings(H, s, x, n);
    assert (s.trees + [x])[n] == replaced;
    TopNonEmpty(H, s, x);
  }

  lemma OpenSize(H: HashFn, s: Stale, x: Tree)
    requires Open(H, s, x)
    ensures |s.nodes| == |s.trees|
  {}

  lemma TopNonEmpty(H: HashFn, s: Stale, x: Tree)
    requires Open(H, s, x) && x != Empty
    ensures Top(s, x) != Empty
  {
    hide Open;
    if s.trees != [] { OpenStrings(H, s, x, 0); }
  }
}
