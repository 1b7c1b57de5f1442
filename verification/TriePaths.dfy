/**
 * The stack of nodes along a key: what `findPath` collects, what replacing a node at its
 * end does to the tree, and what it means that a stack of stale nodes only waits for its
 * links to be refreshed, from the bottom up, by `_saveStack`.
 */
module TriePaths {
  import opened ByteStrings
  import opened NibblePaths
  import opened Rlp
  import opened Trees
  import opened TreeDeletion
  import opened TrieNodes

  /** `findPath` goes on below this node. */
  predicate Continues(t: Tree, k: Nibbles)
    requires WellFormed(t)
  {
    match t
    case Empty => false
    case Leaf(_, _) => false
    case Ext(key, _) => key <= k
    case Branch(children, _) => k != [] && children[k[0]] != Empty
  }

  function Step(t: Tree): nat {
    match t
    case Ext(key, _) => |key|
    case _ => 1
  }

  function Next(t: Tree, k: Nibbles): (c: Tree)
    requires WellFormed(t) && Continues(t, k)
    ensures c != Empty && c < t && WellFormed(c)
  {
    match t
    case Ext(_, child) => child
    case Branch(children, _) => children[k[0]]
  }

  function Path(t: Tree, k: Nibbles): (p: seq<Tree>)
    requires WellFormed(t) && t != Empty
    ensures p != [] && p[0] == t
    decreases t
  {
    if Continues(t, k) then [t] + Path(Next(t, k), k[Step(t)..]) else [t]
  }

  /** The `remaining` nibbles that `findPath` reports. */
  function Remaining(t: Tree, k: Nibbles): Nibbles
    requires WellFormed(t)
    decreases t
  {
    if Continues(t, k) then Remaining(Next(t, k), k[Step(t)..])
    else if Reaches(t, k) then []
    else k
  }

  /** The part of the key below the n-th node of the path. */
  function Rest(t: Tree, k: Nibbles, n: nat): Nibbles
    requires WellFormed(t) && t != Empty && n < |Path(t, k)|
    decreases n
  {
    if n == 0 then k else Rest(Next(t, k), k[Step(t)..], n - 1)
  }

  /** The tree with its n-th node along the key replaced. */
  function Plug(t: Tree, k: Nibbles, n: nat, x: Tree): Tree
    requires WellFormed(t) && t != Empty && n < |Path(t, k)|
    decreases n
  {
    if n == 0 then x
    else
      var below := Plug(Next(t, k), k[Step(t)..], n - 1, x);
      match t
      case Ext(key, _) => Ext(key, below)
      case Branch(children, slot) => Branch(children[k[0] := below], slot)
  }

  function Nodes(H: HashFn, p: seq<Tree>): (r: seq<Node>)
    requires forall i :: 0 <= i < |p| ==> p[i] != Empty
    ensures |r| == |p|
  {
    if p == [] then [] else [NodeOf(H, p[0])] + Nodes(H, p[1..])
  }

  lemma {:induction false} PathNonEmpty(t: Tree, k: Nibbles)
    requires WellFormed(t) && t != Empty
    ensures forall i :: 0 <= i < |Path(t, k)| ==> Path(t, k)[i] != Empty && WellFormed(Path(t, k)[i])
    decreases t
  {
    if Continues(t, k) { PathNonEmpty(Next(t, k), k[Step(t)..]); }
  }

  /** One step along the path. */
  lemma {:induction false} PathStep(t: Tree, k: Nibbles, n: nat)
    requires WellFormed(t) && t != Empty && n < |Path(t, k)|
    ensures var p := Path(t, k); var rest := Rest(t, k, n);
      && p[n] != Empty && WellFormed(p[n])
      && (Continues(p[n], rest) <==> n + 1 < |p|)
      && (n + 1 < |p| ==> p[n + 1] == Next(p[n], rest) && Rest(t, k, n + 1) == rest[Step(p[n])..])
    decreases n
  {
    if n > 0 { PathStep(Next(t, k), k[Step(t)..], n - 1); }
  }

  lemma {:induction false} PathShape(t: Tree, k: Nibbles, n: nat, depth: int) returns (d: int)
    requires WellFormed(t) && t != Empty && n < |Path(t, k)| && Shape(t, depth)
    ensures d <= depth && Shape(Path(t, k)[n], d)
    decreases n
  {
    if n == 0 { return depth; }
    d := PathShape(Next(t, k), k[Step(t)..], n - 1, depth - Step(t));
  }

  // ---------- stale stacks ----------

  /** Once its link is set to the child, the node is the node of this tree;
      the key spells the link from position `at` on. */
  ghost predicate Joint(H: HashFn, node: Node, t: Tree, key: Nibbles, at: nat, child: Tree) {
    match t
    case Ext(k, c) => at + |k| <= |key| && c == child && node.ExtensionNode? && node.ekey == k
    case Branch(children, slot) =>
      && at < |key| && |children| == 16 && children[key[at]] == child
      && node.BranchNode? && |node.branches| == 16
      && node.branches[key[at] := Ref(H, child)] == NodeOf(H, t).branches
      && node.bvalue == SlotItem(slot)
    case _ => false
  }

  /** A stack of stale nodes, the trees they stand for, and where each begins in the key. */
  datatype Stale = Stale(nodes: seq<Node>, trees: seq<Tree>, cuts: seq<nat>, key: Nibbles)

  ghost predicate Sized(s: Stale) {
    |s.nodes| == |s.trees| && |s.cuts| == |s.trees| + 1 && s.cuts[0] == 0 && s.cuts[|s.trees|] == |s.key|
  }

  /** The i-th node stands for the i-th tree, up to its link to the next one, or to x. */
  ghost predicate JointAt(H: HashFn, s: Stale, i: nat, x: Tree)
    requires Sized(s) && i < |s.trees|
  {
    && s.cuts[i + 1] == s.cuts[i] + Step(s.trees[i])
    && Joint(H, s.nodes[i], s.trees[i], s.key, s.cuts[i], if i + 1 < |s.trees| then s.trees[i + 1] else x)
  }

  ghost predicate Open(H: HashFn, s: Stale, x: Tree) {
    Sized(s) && forall i: nat {:trigger JointAt(H, s, i, x)} :: i < |s.trees| ==> JointAt(H, s, i, x)
  }

  lemma {:induction false} CutsGrow(H: HashFn, s: Stale, x: Tree, i: nat, j: nat)
    requires Open(H, s, x) && i <= j <= |s.trees|
    ensures s.cuts[i] <= s.cuts[j]
    decreases j
  {
    hide Joint;
    if i < j {
      assert JointAt(H, s, j - 1, x);
      CutsGrow(H, s, x, i, j - 1);
    }
  }

  function Front(s: Stale): Stale
    requires |s.nodes| == |s.trees| == |s.cuts| - 1 && s.nodes != []
    requires s.cuts[|s.nodes| - 1] <= |s.key|
  {
    var n := |s.nodes| - 1;
    Stale(s.nodes[..n], s.trees[..n], s.cuts[..n + 1], s.key[..s.cuts[n]])
  }

  /** Splitting off the deepest node of the stack. */
  lemma OpenLast(H: HashFn, s: Stale, x: Tree)
    requires Open(H, s, x) && s.nodes != []
    ensures var n := |s.nodes| - 1;
      && s.cuts[n] + Step(s.trees[n]) == |s.key|
      && Joint(H, s.nodes[n], s.trees[n], s.key, s.cuts[n], x)
      && Open(H, Front(s), s.trees[n])
  {
    hide Joint;
    var n := |s.nodes| - 1;
    assert JointAt(H, s, n, x);
    var f := Front(s);
    forall i: nat | i < n ensures JointAt(H, f, i, s.trees[n]) {
      assert JointAt(H, s, i, x);
      CutsGrow(H, s, x, i + 1, n);
      JointPrefix(H, s.nodes[i], s.trees[i], s.key, f.key, s.cuts[i], s.trees[i + 1]);
    }
  }

  lemma JointPrefix(H: HashFn, node: Node, t: Tree, key: Nibbles, other: Nibbles, at: nat, child: Tree)
    requires Joint(H, node, t, key, at, child)
    requires at + Step(t) <= |other| && (key <= other || other <= key)
    ensures Joint(H, node, t, other, at, child)
  {}

  function Push(s: Stale, node: Node, t: Tree, more: Nibbles): Stale {
    Stale(s.nodes + [node], s.trees + [t], s.cuts + [|s.key| + |more|], s.key + more)
  }

  /** One more stale node at the end of an open stack. */
  lemma OpenPush(H: HashFn, s: Stale, node: Node, t: Tree, more: Nibbles, x: Tree)
    requires Open(H, s, t)
    requires |more| == Step(t) && Joint(H, node, t, s.key + more, |s.key|, x)
    ensures Open(H, Push(s, node, t, more), x)
  {
    hide Joint;
    var n := |s.nodes|;
    var p := Push(s, node, t, more);
    forall i: nat | i < n + 1 ensures JointAt(H, p, i, x) {
      if i < n {
        assert JointAt(H, s, i, t);
        CutsGrow(H, s, t, i + 1, n);
        JointPrefix(H, s.nodes[i], s.trees[i], s.key, p.key, s.cuts[i], if i + 1 < n then s.trees[i + 1] else t);
      }
    }
  }

  function Cons(node: Node, t: Tree, first: Nibbles, s: Stale): Stale {
    Stale([node] + s.nodes, [t] + s.trees,
          [0] + seq(|s.cuts|, i requires 0 <= i < |s.cuts| => |first| + s.cuts[i]), first + s.key)
  }

  /** One more stale node above an open stack. */
  lemma OpenCons(H: HashFn, node: Node, t: Tree, first: Nibbles, s: Stale, x: Tree)
    requires Open(H, s, x) && |first| == Step(t)
    requires Joint(H, node, t, first + s.key, 0, if s.trees == [] then x else s.trees[0])
    ensures Open(H, Cons(node, t, first, s), x)
  {
    hide Joint;
    var c := Cons(node, t, first, s);
    forall i: nat | i < |c.trees| ensures JointAt(H, c, i, x) {
      if i > 0 {
        assert JointAt(H, s, i - 1, x);
        JointShifted(H, s.nodes[i - 1], s.trees[i - 1], s.key, first, s.cuts[i - 1],
                     if i < |s.trees| then s.trees[i] else x);
      }
    }
  }

  lemma JointShifted(H: HashFn, node: Node, t: Tree, key: Nibbles, first: Nibbles, at: nat, child: Tree)
    requires Joint(H, node, t, key, at, child)
    ensures Joint(H, node, t, first + key, |first| + at, child)
  {}

  // ---------- the upper part of a path found ----------

  /** The first n nodes found, as a stale stack for the tree with the n-th node replaced. */
  ghost function Upper(H: HashFn, t: Tree, k: Nibbles, n: nat, x: Tree): (s: Stale)
    requires WellFormed(t) && t != Empty && n < |Path(t, k)|
    ensures |s.trees| == n
    decreases n
  {
    if n == 0 then Stale([], [], [0], [])
    else Cons(NodeOf(H, t), Plug(t, k, n, x), k[..Step(t)], Upper(H, Next(t, k), k[Step(t)..], n - 1, x))
  }

  lemma {:induction false} UpperOpen(H: HashFn, t: Tree, k: Nibbles, n: nat, x: Tree)
    requires WellFormed(t) && t != Empty && n < |Path(t, k)|
    ensures Open(H, Upper(H, t, k, n, x), x)
    ensures (Upper(H, t, k, n, x).trees + [x])[0] == Plug(t, k, n, x)
    decreases n
  {
    hide Joint;
    hide NodeOf;
    if n > 0 {
      var inner := Upper(H, Next(t, k), k[Step(t)..], n - 1, x);
      UpperOpen(H, Next(t, k), k[Step(t)..], n - 1, x);
      UpperKey(H, t, k, n, x);
      PlugJoint(H, t, k, n, x, k[..Step(t)] + inner.key);
      OpenCons(H, NodeOf(H, t), Plug(t, k, n, x), k[..Step(t)], inner, x);
    }
  }

  /** It is the stack that `findPath` built. */
  lemma {:induction false} UpperNodes(H: HashFn, t: Tree, k: Nibbles, n: nat, x: Tree)
    requires WellFormed(t) && t != Empty && n < |Path(t, k)|
    ensures forall i :: 0 <= i < |Path(t, k)| ==> Path(t, k)[i] != Empty
    ensures Upper(H, t, k, n, x).nodes == Nodes(H, Path(t, k)[..n])
    decreases n
  {
    hide NodeOf;
    PathNonEmpty(t, k);
    if n > 0 {
      var c, rest := Next(t, k), k[Step(t)..];
      UpperNodes(H, c, rest, n - 1, x);
      assert Path(t, k)[..n] == [t] + Path(c, rest)[..n - 1];
      assert Path(t, k)[..n][1..] == Path(c, rest)[..n - 1];
    }
  }

  /** Its key is the part of the search key that led there. */
  lemma {:induction false} UpperKey(H: HashFn, t: Tree, k: Nibbles, n: nat, x: Tree)
    requires WellFormed(t) && t != Empty && n < |Path(t, k)|
    ensures Upper(H, t, k, n, x).key + Rest(t, k, n) == k
    decreases n
  {
    hide NodeOf;
    hide Plug;
    if n > 0 {
      var c, rest := Next(t, k), k[Step(t)..];
      UpperKey(H, c, rest, n - 1, x);
      Assoc(k[..Step(t)], Upper(H, c, rest, n - 1, x).key, Rest(t, k, n));
    }
  }

  lemma Assoc(a: Nibbles, b: Nibbles, c: Nibbles)
    ensures (a + b) + c == a + (b + c)
  {}

  lemma PlugJoint(H: HashFn, t: Tree, k: Nibbles, n: nat, x: Tree, key: Nibbles)
    requires WellFormed(t) && t != Empty && 0 < n < |Path(t, k)|
    requires key <= k && Step(t) <= |key|
    ensures Step(Plug(t, k, n, x)) == Step(t)
    ensures Joint(H, NodeOf(H, t), Plug(t, k, n, x), key, 0, Plug(Next(t, k), k[Step(t)..], n - 1, x))
  {}
}
