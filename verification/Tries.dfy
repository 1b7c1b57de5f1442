/**
 * The trie object (baseTrie.ts and checkpointTrie.ts): a root hash over a checkpointed
 * store, updated through stacks of nodes. Each method is proved against the tree.
 */
module Tries {
  import opened ByteStrings
  import opened NibblePaths
  import opened Rlp
  import opened Trees
  import opened TreeDeletion
  import opened TrieNodes
  import opened TriePaths
  import opened TrieUpdates
  import opened TrieStores
  import opened CheckpointDbs

  /** What `findPath` resolves to. */
  datatype PathResult = PathResult(node: Option<Node>, remaining: Nibbles, stack: seq<Node>)

  ghost function PathOf(H: HashFn, t: Tree, k: Nibbles): PathResult
    requires WellFormed(t) && t != Empty
  {
    PathNonEmpty(t, k);
    PathResult(if Reaches(t, k) then Some(NodeOf(H, Path(t, k)[Last(t, k)])) else None,
               Remaining(t, k), Nodes(H, Path(t, k)))
  }

  /** The getter `value` of a node. */
  function NodeValue(n: Node): Option<Item> {
    match n
    case BranchNode(_, value) => if Absent(value) then None else Some(value)
    case ExtensionNode(_, child) => Some(child)
    case LeafNode(_, value) => Some(value)
  }

  function AsItem(v: Option<Bytes>): Option<Item> {
    match v
    case None => None
    case Some(b) => Some(Str(b))
  }

  /** The tree after `put`, which deletes when the value is empty. */
  ghost function PutTree(t: Tree, k: Nibbles, v: Bytes): Tree
    requires WellFormed(t)
  {
    if v == [] then Delete(t, k) else Insert(t, k, v)
  }

  lemma MatchesWhole(a: Nibbles, b: Nibbles)
    ensures MatchingLength(a, b) == |b| <==> b <= a
    ensures MatchingLength(a, b) == |a| <==> a <= b
  {
    var n := MatchingLength(a, b);
    assert n < |a| && n < |b| ==> a[n] != b[n];
    assert a[..|a|] == a && b[..|b|] == b;
  }

  lemma {:induction false} NodesIndex(H: HashFn, p: seq<Tree>, i: nat)
    requires (forall j :: 0 <= j < |p| ==> p[j] != Empty) && i < |p|
    ensures Nodes(H, p)[i] == NodeOf(H, p[i])
  {
    hide NodeOf;
    if i > 0 { NodesIndex(H, p[1..], i - 1); }
  }

  lemma NodesPush(H: HashFn, p: seq<Tree>, n: nat)
    requires (forall j :: 0 <= j < |p| ==> p[j] != Empty) && n < |p|
    ensures Nodes(H, p[..n + 1]) == Nodes(H, p[..n]) + [NodeOf(H, p[n])]
  {
    hide NodeOf;
    forall i | 0 <= i <= n ensures Nodes(H, p[..n + 1])[i] == (Nodes(H, p[..n]) + [NodeOf(H, p[n])])[i] {
      NodesIndex(H, p[..n + 1], i);
      if i < n { NodesIndex(H, p[..n], i); }
    }
  }

  lemma {:induction false} ReachedValue(H: HashFn, t: Tree, k: Nibbles)
    requires WellFormed(t) && t != Empty && Shape(t, MAX_KEY)
    ensures var r := PathOf(H, t, k);
      AsItem(Lookup(t, k)) == if r.node.Some? && r.remaining == [] then NodeValue(r.node.value) else None
  {
    PathEnd(t, k);
    var n := Last(t, k);
    var d := PathShape(t, k, n, MAX_KEY);
    EndLookup(t, k);
  }

  lemma {:induction false} EndLookup(t: Tree, k: Nibbles)
    requires WellFormed(t) && t != Empty
    ensures var last := Path(t, k)[Last(t, k)];
      Lookup(t, k) == if !Reaches(t, k) then None else if last.Leaf? then Some(last.value)
                      else if last.Branch? then last.slot else None
    decreases t
  {
    if Continues(t, k) { EndLookup(Next(t, k), k[Step(t)..]); }
  }

  /** What the walk does at a node: stop on it, stop without the key, or follow a link. */
  datatype Decision = Found | Missed | Follow(ref: Item, consumed: Nibbles)

  function Decide(node: Node, keyRemainder: Nibbles): Decision
    requires node.BranchNode? ==> |node.branches| == 16
  {
    match node
    case BranchNode(branches, _) =>
      if keyRemainder == [] then Found
      else if Absent(branches[keyRemainder[0]]) then Missed
      else Follow(branches[keyRemainder[0]], keyRemainder[..1])
    case LeafNode(key, _) =>
      var length := MatchingLength(keyRemainder, key);
      if length == |keyRemainder| && length == |key| then Found else Missed
    case ExtensionNode(key, child) =>
      if MatchingLength(keyRemainder, key) != |key| then Missed else Follow(child, key)
  }

  lemma DecideOnTree(H: HashFn, t: Tree, rest: Nibbles)
    requires WellFormed(t) && t != Empty
    ensures Decide(NodeOf(H, t), rest) ==
            if Continues(t, rest) then Follow(Ref(H, Next(t, rest)), rest[..Step(t)])
            else if EndsAtRoot(t, rest) then Found else Missed
  {
    if t.Branch? {
      if rest != [] { RefAbsent(H, t.children[rest[0]]); }
    } else {
      MatchesWhole(rest, t.key);
    }
  }

  /** What a search for a key reads from the store. */
  ghost function Needed(H: HashFn, t: Tree, k: Nibbles): set<Bytes>
    requires WellFormed(t)
  {
    if t == Empty then {} else {Serialize(NodeOf(H, t))} + OwnAll(H, Path(t, k))
  }

  lemma NeededInRoot(H: HashFn, t: Tree, k: Nibbles)
    requires WellFormed(t)
    ensures Needed(H, t, k) <= RootStrings(H, t)
  {
    hide Own;
    hide NodeOf;
    if t != Empty {
      forall s | s in OwnAll(H, Path(t, k)) ensures s in NodeStrings(H, t) {
        OwnAllIs(H, Path(t, k), s);
        var i :| 0 <= i < |Path(t, k)| && s in Own(H, Path(t, k)[i]);
        PathStrings(H, t, k, i);
        OwnInNode(H, Path(t, k)[i]);
      }
    }
  }

  /** A node met on the way down is the tree's own, or is missing. */
  lemma Resolve(H: HashFn, view: Store, t: Tree, k: Nibbles, n: nat, ref: Item)
    requires Shape(t, MAX_KEY) && WellFormed(t) && t != Empty && n < |Path(t, k)|
    requires Honest(H, view, Needed(H, t, k))
    requires ref == if n == 0 then Str(RootHash(H, t)) else Ref(H, Path(t, k)[n])
    ensures Path(t, k)[n] != Empty
    ensures TrieNodes.LookupNode(view, ref) in {Ok(NodeOf(H, Path(t, k)[n])), Err(MissingNode)}
    ensures Complete(H, view, Needed(H, t, k)) ==> TrieNodes.LookupNode(view, ref).Ok?
  {
    hide Digest;
    hide NodeOf;
    hide Own;
    PathStep(t, k, n);
    if n == 0 {
      ResolveRoot(H, view, t, MAX_KEY);
    } else {
      forall s | s in Own(H, Path(t, k)[n]) ensures s in Needed(H, t, k) { OwnAllIs(H, Path(t, k), s); }
      var d := PathShape(t, k, n, MAX_KEY);
      ResolveRef(H, view, Path(t, k)[n], d);
    }
  }

  lemma MatchesPrefix(p: Nibbles, rest: Nibbles)
    ensures MatchingLength(p, p + rest) == |p| && (p + rest)[|p|..] == rest
  {
    MatchesWhole(p, p + rest);
  }

  lemma PathStart(H: HashFn, t: Tree, k: Nibbles)
    requires WellFormed(t) && t != Empty
    ensures forall i :: 0 <= i < |Path(t, k)| ==> Path(t, k)[i] != Empty
    ensures Path(t, k)[0] == t && Rest(t, k, 0) == k && Nodes(H, Path(t, k)[..0]) == [] && [] + k == k
  {
    PathNonEmpty(t, k);
  }

  lemma Advance(t: Tree, k: Nibbles, n: nat, progress: Nibbles)
    requires WellFormed(t) && t != Empty && n + 1 < |Path(t, k)| && progress + Rest(t, k, n) == k
    requires Path(t, k)[n] != Empty && WellFormed(Path(t, k)[n]) && Continues(Path(t, k)[n], Rest(t, k, n))
    ensures Step(Path(t, k)[n]) <= |Rest(t, k, n)|
    ensures (progress + Rest(t, k, n)[..Step(Path(t, k)[n])]) + Rest(t, k, n + 1) == k
  {
    PathStep(t, k, n);
    var rest, s := Rest(t, k, n), Step(Path(t, k)[n]);
    assert rest == rest[..s] + rest[s..];
    Assoc(progress, rest[..s], rest[s..]);
  }

  lemma StopsHere(H: HashFn, t: Tree, k: Nibbles, n: nat)
    requires WellFormed(t) && t != Empty && n < |Path(t, k)|
    requires Path(t, k)[n] != Empty && WellFormed(Path(t, k)[n]) && !Continues(Path(t, k)[n], Rest(t, k, n))
    requires forall i :: 0 <= i < |Path(t, k)| ==> Path(t, k)[i] != Empty
    ensures PathOf(H, t, k) ==
            if EndsAtRoot(Path(t, k)[n], Rest(t, k, n))
            then PathResult(Some(NodeOf(H, Path(t, k)[n])), [], Nodes(H, Path(t, k)[..n]) + [NodeOf(H, Path(t, k)[n])])
            else PathResult(None, Rest(t, k, n), Nodes(H, Path(t, k)[..n]) + [NodeOf(H, Path(t, k)[n])])
  {
    hide NodeOf;
    hide Rest;
    hide Path;
    hide Nodes;
    PathStep(t, k, n);
    PathEnd(t, k);
    NodesPush(H, Path(t, k), n);
    assert Path(t, k)[..n + 1] == Path(t, k);
  }

  /** One step of the descent: what the walk decides at the n-th node of the path. */
  lemma FindStep(H: HashFn, t: Tree, k: Nibbles, n: nat, progress: Nibbles, node: Node)
    requires WellFormed(t) && t != Empty && n < |Path(t, k)| && progress + Rest(t, k, n) == k
    requires forall i :: 0 <= i < |Path(t, k)| ==> Path(t, k)[i] != Empty
    requires node == NodeOf(H, Path(t, k)[n])
    ensures k[MatchingLength(progress, k)..] == Rest(t, k, n)
    ensures node.BranchNode? ==> |node.branches| == 16
    ensures Nodes(H, Path(t, k)[..n + 1]) == Nodes(H, Path(t, k)[..n]) + [node]
    ensures var d := Decide(node, Rest(t, k, n));
      && (d.Found? ==> PathOf(H, t, k) == PathResult(Some(node), [], Nodes(H, Path(t, k)[..n]) + [node]))
      && (d.Missed? ==> PathOf(H, t, k) == PathResult(None, Rest(t, k, n), Nodes(H, Path(t, k)[..n]) + [node]))
      && (d.Follow? ==> n + 1 < |Path(t, k)| && d.ref == Ref(H, Path(t, k)[n + 1])
                        && progress + d.consumed + Rest(t, k, n + 1) == k)
  {
    hide NodeOf;
    hide Rest;
    hide Path;
    hide Nodes;
    hide Decide;
    hide PathOf;
    hide EndsAtRoot;
    var cur, rest := Path(t, k)[n], Rest(t, k, n);
    MatchesPrefix(progress, rest);
    PathStep(t, k, n);
    NodeBranches(H, cur);
    DecideOnTree(H, cur, rest);
    NodesPush(H, Path(t, k), n);
    if Continues(cur, rest) {
      Advance(t, k, n, progress);
    } else {
      StopsHere(H, t, k, n);
    }
  }

  lemma NodeBranches(H: HashFn, t: Tree)
    requires WellFormed(t) && t != Empty
    ensures NodeOf(H, t).BranchNode? ==> |NodeOf(H, t).branches| == 16
  {}

  /** One step of `_saveStack`: set the node's link to the node below, if there is one,
      and take the node's nibbles off the key. */
  function Relink(node: Node, key: Nibbles, lastRoot: Option<Item>): (Node, Nibbles)
    requires |key| >= match node case LeafNode(k, _) => |k| case ExtensionNode(k, _) => |k| case _ => 0
    requires node.BranchNode? && lastRoot.Some? ==> key != [] && |node.branches| == 16
  {
    match node
    case LeafNode(k, _) => (node, key[..|key| - |k|])
    case ExtensionNode(k, child) =>
      (if lastRoot.Some? then ExtensionNode(k, lastRoot.value) else node, key[..|key| - |k|])
    case BranchNode(branches, value) =>
      if lastRoot.None? then (node, key)
      else
        var last := |key| - 1;
        (BranchNode(branches[key[last] := lastRoot.value], value), key[..last])
  }

  lemma RelinkDeepest(H: HashFn, stack: seq<Node>, key: Nibbles, s: Stale, x: Tree)
    requires Ready(H, stack, key, s, x)
    ensures x != Empty && Open(H, s, x) && |s.nodes| == |s.trees|
    ensures stack == s.nodes + [NodeOf(H, x)] && stack[..|stack| - 1] == s.nodes
    ensures |key| >= (match NodeOf(H, x) case LeafNode(k, _) => |k| case ExtensionNode(k, _) => |k| case _ => 0)
    ensures Relink(NodeOf(H, x), key, None) == (NodeOf(H, x), s.key)
  {
    assert s.key == key[..|s.key|] && key[..|key|] == key;
  }

  lemma RelinkLast(H: HashFn, s: Stale, x: Tree)
    requires Open(H, s, x) && s.trees != []
    ensures |s.nodes| == |s.trees| == |s.cuts| - 1 && s.cuts[|s.nodes| - 1] <= |s.key|
    ensures var n := |s.trees| - 1; var node := s.nodes[n];
      && |s.key| >= (match node case LeafNode(k, _) => |k| case ExtensionNode(k, _) => |k| case _ => 0)
      && (node.BranchNode? ==> s.key != [] && |node.branches| == 16)
      && s.trees[n] != Empty
      && Relink(node, s.key, Some(Ref(H, x))) == (NodeOf(H, s.trees[n]), Front(s).key)
      && Open(H, Front(s), s.trees[n]) && |Front(s).trees| == n
  {
    OpenLast(H, s, x);
    RelinkJoint(H, s.nodes[|s.nodes| - 1], s.trees[|s.nodes| - 1], s.key, s.cuts[|s.nodes| - 1], x);
  }

  lemma RelinkJoint(H: HashFn, node: Node, t: Tree, key: Nibbles, at: nat, x: Tree)
    requires Joint(H, node, t, key, at, x) && at + Step(t) == |key|
    ensures t != Empty
    ensures |key| >= (match node case LeafNode(k, _) => |k| case ExtensionNode(k, _) => |k| case _ => 0)
    ensures node.BranchNode? ==> key != [] && |node.branches| == 16
    ensures Relink(node, key, Some(Ref(H, x))) == (NodeOf(H, t), key[..at])
  {}

  lemma FormattedIs(H: HashFn, t: Tree)
    requires t != Empty
    ensures Embed(H, NodeOf(H, t)) == Ref(H, t)
    ensures Digest(H, Serialize(NodeOf(H, t))) == RootHash(H, t)
    ensures Own(H, t) == if |Serialize(NodeOf(H, t))| >= 32 then {Serialize(NodeOf(H, t))} else {}
  {}

  lemma OwnAllSplit(H: HashFn, trees: seq<Tree>, i: nat)
    requires i < |trees|
    ensures OwnAll(H, trees[i..]) == Own(H, trees[i]) + OwnAll(H, trees[i + 1..])
  {
    hide Own;
    assert trees[i..][1..] == trees[i + 1..];
  }

  lemma OwnAllEnds(H: HashFn, trees: seq<Tree>)
    ensures OwnAll(H, trees[|trees|..]) == {} && trees[0..] == trees
  {}

  /** How far `_saveStack` has come: the stack still stale, and the tree just written. */
  datatype Progress = Progress(s: Stale, x: Tree, cur: Stale, below: Tree)

  ghost predicate Saving(H: HashFn, g: Progress, stack: seq<Node>, key: Nibbles, lastRoot: Option<Item>,
                         opStack: seq<BatchOp>, pending: seq<BatchOp>)
  {
    && Open(H, g.cur, g.below) && g.below != Empty
    && |g.cur.nodes| == |g.cur.trees| <= |g.s.trees| && g.cur.trees == g.s.trees[..|g.cur.trees|]
    && Top(g.cur, g.below) == Top(g.s, g.x)
    && match lastRoot
       case None => Ready(H, stack, key, g.s, g.x) && g.cur == g.s && g.below == g.x && pending == opStack
       case Some(ref) =>
         && stack == g.cur.nodes && key == g.cur.key
         && ref == (if |stack| == 0 then Str(RootHash(H, g.below)) else Ref(H, g.below))
         && Values(pending) == Values(opStack) + OwnAll(H, g.s.trees[|g.cur.trees|..]) + Own(H, g.x)
                               + (if |stack| == 0 then {Serialize(NodeOf(H, g.below))} else {})
  }

  lemma StartSaving(H: HashFn, g: Progress, stack: seq<Node>, key: Nibbles, opStack: seq<BatchOp>)
    requires Ready(H, stack, key, g.s, g.x) && g.cur == g.s && g.below == g.x
    ensures Saving(H, g, stack, key, None, opStack, opStack)
  {
    hide NodeOf;
    hide Open;
    RelinkDeepest(H, stack, key, g.s, g.x);
  }

  /** The tree that the next node of the stack is about to become. */
  ghost function Advanced(g: Progress, lastRoot: Option<Item>): Progress
    requires |g.cur.nodes| == |g.cur.trees| == |g.cur.cuts| - 1
    requires lastRoot.Some? ==> g.cur.trees != [] && g.cur.cuts[|g.cur.nodes| - 1] <= |g.cur.key|
  {
    if lastRoot.None? then g else Progress(g.s, g.x, Front(g.cur), g.cur.trees[|g.cur.trees| - 1])
  }

  lemma SavingNode(H: HashFn, g: Progress, stack: seq<Node>, key: Nibbles, lastRoot: Option<Item>,
                   opStack: seq<BatchOp>, pending: seq<BatchOp>)
    requires Saving(H, g, stack, key, lastRoot, opStack, pending) && |stack| > 0
    ensures var node := stack[|stack| - 1];
      && |key| >= (match node case LeafNode(k, _) => |k| case ExtensionNode(k, _) => |k| case _ => 0)
      && (node.BranchNode? && lastRoot.Some? ==> key != [] && |node.branches| == 16)
      && |g.cur.nodes| == |g.cur.trees| == |g.cur.cuts| - 1
      && (lastRoot.Some? ==> g.cur.trees != [] && g.cur.cuts[|g.cur.nodes| - 1] <= |g.cur.key|)
    ensures var a := Advanced(g, lastRoot);
      && a.below != Empty && Open(H, a.cur, a.below) && stack[..|stack| - 1] == a.cur.nodes
      && Relink(stack[|stack| - 1], key, lastRoot) == (NodeOf(H, a.below), a.cur.key)
  {
    hide NodeOf;
    if lastRoot.None? {
      RelinkDeepest(H, stack, key, g.s, g.x);
    } else {
      RelinkLast(H, g.cur, g.below);
    }
  }

  lemma SavingStep(H: HashFn, g: Progress, rest: seq<Node>, node: Node, key: Nibbles, lastRoot: Option<Item>,
                   ref: Item, opStack: seq<BatchOp>, pending: seq<BatchOp>, more: seq<BatchOp>) returns (a: Progress)
    requires |g.cur.nodes| == |g.cur.trees| == |g.cur.cuts| - 1
    requires lastRoot.Some? ==> g.cur.trees != [] && g.cur.cuts[|g.cur.nodes| - 1] <= |g.cur.key|
    requires exists stack, before :: |stack| > 0 && Saving(H, g, stack, before, lastRoot, opStack, pending)
    requires var a := Advanced(g, lastRoot);
      && a.below != Empty && Open(H, a.cur, a.below) && rest == a.cur.nodes && node == NodeOf(H, a.below)
      && key == a.cur.key
    requires ref == if |rest| == 0 then Str(Digest(H, Serialize(node))) else Embed(H, node)
    requires Values(more) == Values(pending) + if |rest| == 0 || |Serialize(node)| >= 32 then {Serialize(node)} else {}
    ensures a == Advanced(g, lastRoot) && Saving(H, a, rest, key, Some(ref), opStack, more)
  {
    hide NodeOf;
    hide Open;
    hide Serialize;
    hide Digest;
    hide Own;
    hide OwnAll;
    hide Values;
    hide Ready;
    a := Advanced(g, lastRoot);
    FormattedIs(H, a.below);
    if lastRoot.None? {
      OwnAllEnds(H, g.s.trees);
    } else {
      OwnAllSplit(H, g.s.trees, |g.cur.trees| - 1);
    }
  }

  lemma Saved(H: HashFn, g: Progress, key: Nibbles, lastRoot: Option<Item>, opStack: seq<BatchOp>,
              pending: seq<BatchOp>)
    requires Saving(H, g, [], key, lastRoot, opStack, pending)
    ensures Top(g.s, g.x) != Empty && lastRoot == Some(Str(RootHash(H, Top(g.s, g.x))))
    ensures Values(pending) == Values(opStack) + OwnAll(H, g.s.trees) + Own(H, g.x)
                               + {Serialize(NodeOf(H, Top(g.s, g.x)))}
  {
    hide NodeOf;
    hide Open;
    hide Serialize;
    hide Own;
    hide OwnAll;
    hide Values;
    OwnAllEnds(H, g.s.trees);
  }

  function NoBranches(): (r: seq<Item>)
    ensures |r| == 16 && forall i :: 0 <= i < 16 ==> r[i] == NULL
  {
    seq(16, i => NULL)
  }

  ghost function KeptBranches(H: HashFn, last: Tree, m: nat): seq<Item>
    requires (last.Leaf? || last.Ext?) && m <= |last.key|
  {
    if m < |last.key| then NoBranches()[last.key[m] := Ref(H, Shrink(last, m))] else NoBranches()
  }

  /** What splitting a node stores besides the stack. */
  ghost function ShrunkStrings(H: HashFn, last: Tree, m: nat): set<Bytes>
    requires (last.Leaf? || last.Ext?) && m <= |last.key|
  {
    if m < |last.key| && (last.Leaf? || m + 1 < |last.key|) then Own(H, Shrink(last, m)) else {}
  }

  lemma ShrunkNode(H: HashFn, last: Tree, m: nat)
    requires (last.Leaf? || last.Ext?) && m < |last.key| && WellFormed(last)
    ensures var rest := last.key[m..][1..]; var n := NodeOf(H, last);
      && last.key[m..][0] == last.key[m]
      && (last.Leaf? ==> NodeOf(H, Shrink(last, m)) == LeafNode(rest, n.lvalue))
      && (last.Ext? && rest != [] ==> NodeOf(H, Shrink(last, m)) == ExtensionNode(rest, n.child))
      && (last.Leaf? || rest != [] ==> Ref(H, Shrink(last, m)) == Embed(H, NodeOf(H, Shrink(last, m))))
      && (last.Leaf? || rest != [] ==> ShrunkStrings(H, last, m) == Own(H, Shrink(last, m)))
      && (last.Ext? && rest == [] ==> Ref(H, Shrink(last, m)) == n.child && ShrunkStrings(H, last, m) == {})
  {
    hide Embed;
    assert last.key[m..][1..] == last.key[m + 1..];
  }

  lemma ForkBranchNode(H: HashFn, last: Tree, m: nat, k: Nibbles, v: Bytes)
    requires (last.Leaf? || (last.Ext? && m < |last.key|)) && WellFormed(last)
    requires m <= |k| && m <= |last.key| && (m < |last.key| && m < |k| ==> last.key[m] != k[m])
    ensures var b := NodeOf(H, ForkBranch(last, m, k, v)); var kept := KeptBranches(H, last, m);
      && (m < |k| ==> b.branches[k[m] := NULL] == kept
                      && b.bvalue == if m < |last.key| then NULL else NodeOf(H, last).lvalue)
      && (m == |k| ==> b == BranchNode(kept, Str(v)))
  {
    hide Embed;
    var t := ForkBranch(last, m, k, v);
    var b, kept := NodeOf(H, t), KeptBranches(H, last, m);
    forall i | 0 <= i < 16 && (m < |k| ==> i != k[m]) ensures b.branches[i] == kept[i] {
      assert t.children[i] == if m < |last.key| && i == last.key[m] then Shrink(last, m) else Empty;
      assert b.branches[i] == Ref(H, t.children[i]);
    }
  }

  lemma ForkedIs(H: HashFn, last: Tree, k: Nibbles, v: Bytes)
    requires WellFormed(last) && (last.Leaf? || (last.Ext? && !(last.key <= k)))
    ensures var m := MatchingLength(last.key, k);
      && m <= |last.key| && m <= |k| && (last.Ext? ==> m < |last.key|)
      && var kept := KeptBranches(H, last, m);
         Forked(H, last, k, v) ==
         (if m > 0 then [ExtensionNode(last.key[..m], Str(v))] else []) +
         (if m < |k|
          then [BranchNode(kept, if m < |last.key| then NULL else NodeOf(H, last).lvalue),
                LeafNode(k[m..][1..], Str(v))]
          else [BranchNode(kept, Str(v))])
  {
    hide NodeOf;
    hide KeptBranches;
    var m := MatchingLength(last.key, k);
    ForkBranchNode(H, last, m, k, v);
    assert m < |k| ==> k[m..][1..] == k[m + 1..];
  }

  /** Saving this stack, with these strings besides, writes exactly what the new trie lacks. */
  ghost predicate Writes(H: HashFn, t: Tree, s: Stale, x: Tree, extra: set<Bytes>)
    requires Top(s, x) != Empty
  {
    var written := extra + OwnAll(H, s.trees) + Own(H, x) + {Serialize(NodeOf(H, Top(s, x)))};
    written <= RootStrings(H, Top(s, x)) <= NodeStrings(H, t) + written
  }

  lemma SavedSound(H: HashFn, before: Snapshots, ops: seq<BatchOp>, t: Tree, s: Stale, x: Tree, root: Bytes,
                   extra: set<Bytes>)
    requires Top(s, x) != Empty && Writes(H, t, s, x, extra)
    requires exists oldRoot :: Sound(H, before.current, oldRoot, t)
    requires Shape(Top(s, x), MAX_KEY) && Filed(H, ops) && root == RootHash(H, Top(s, x))
    requires CollisionFree(H, Involved(H, before.current, Top(s, x)))
    requires Values(ops) == extra + OwnAll(H, s.trees) + Own(H, x) + {Serialize(NodeOf(H, Top(s, x)))}
    ensures Sound(H, before.Batch(ops).current, root, Top(s, x)) && before.Batch(ops).saved == before.saved
    ensures Grown(H, before.current, before.Batch(ops).current, Top(s, x))
  {
    hide NodeOf;
    hide NodeStrings;
    hide OwnAll;
    hide Own;
    hide CollisionFree;
    hide Serialize;
    hide Digest;
    var oldRoot :| Sound(H, before.current, oldRoot, t);
    assert NodeStrings(H, t) <= RootStrings(H, t) by { EmptyHasNone(H, t); }
    SoundAfter(H, before, ops, t, Top(s, x));
  }

  lemma EmptyHasNone(H: HashFn, t: Tree)
    ensures NodeStrings(H, t) <= RootStrings(H, t)
  {}

  lemma JointStep(H: HashFn, node: Node, t: Tree, key: Nibbles, at: nat, child: Tree)
    requires Joint(H, node, t, key, at, child)
    ensures Step(t) == match node case BranchNode(_, _) => 1 case ExtensionNode(k, _) => |k| case LeafNode(k, _) => |k|
  {}

  /** The tests `_updateNode` makes on the last node tell how its path ended. */
  lemma LastNode(H: HashFn, t: Tree, k: Nibbles)
    requires WellFormed(t) && t != Empty
    ensures var last := Path(t, k)[Last(t, k)]; var rest := Rest(t, k, Last(t, k)); var remainder := Remaining(t, k);
      && last != Empty && WellFormed(last)
      && (!Reaches(t, k) ==> remainder == rest)
      && match NodeOf(H, last)
         case LeafNode(key, _) =>
           last.Leaf? && (Reaches(t, k) <==> MatchingLength(key, rest) == |key| && remainder == [])
         case BranchNode(_, _) => last.Branch? && (Reaches(t, k) <==> remainder == [])
         case ExtensionNode(_, _) => last.Ext? && !Reaches(t, k)
  {
    PathEnd(t, k);
    var last, rest := Path(t, k)[Last(t, k)], Rest(t, k, Last(t, k));
    if last.Leaf? { MatchesWhole(last.key, rest); }
  }

  /** The unchanged upper part of a put's stack. */
  ghost function UpdateTarget(t: Tree, k: Nibbles, v: Bytes): Tree
    requires WellFormed(t) && t != Empty
  {
    PathEnd(t, k);
    Insert(Path(t, k)[Last(t, k)], Rest(t, k, Last(t, k)), v)
  }

  lemma UpdatePlan(H: HashFn, t: Tree, k: Nibbles, v: Bytes) returns (s: Stale)
    requires WellFormed(t) && t != Empty
    ensures var n := Last(t, k); var x := UpdateTarget(t, k, v);
      && s == Upper(H, t, k, n, x) && Open(H, s, x) && s.key + Rest(t, k, n) == k && k[|s.key|..] == Rest(t, k, n)
      && Path(t, k)[n] != Empty
      && PathOf(H, t, k).stack == s.nodes + [NodeOf(H, Path(t, k)[n])]
      && PathOf(H, t, k).stack[..|PathOf(H, t, k).stack| - 1] == s.nodes
      && Insert(t, k, v) == Plug(t, k, n, x)
  {
    hide NodeOf;
    hide Open;
    var n, x := Last(t, k), UpdateTarget(t, k, v);
    PathEnd(t, k);
    InsertIsPlug(t, k, v);
    s := Upper(H, t, k, n, x);
    UpperOpen(H, t, k, n, x);
    UpperNodes(H, t, k, n, x);
    UpperKey(H, t, k, n, x);
    NodesPush(H, Path(t, k), n);
    assert Path(t, k)[..n + 1] == Path(t, k);
  }

  /** The last node only gets a new value. */
  lemma SetReady(H: HashFn, t: Tree, k: Nibbles, v: Bytes, s: Stale)
    requires WellFormed(t) && t != Empty && s == Upper(H, t, k, Last(t, k), UpdateTarget(t, k, v))
    requires Open(H, s, UpdateTarget(t, k, v)) && s.key + Rest(t, k, Last(t, k)) == k && Reaches(t, k)
    ensures var x := UpdateTarget(t, k, v); var last := Path(t, k)[Last(t, k)];
      && x != Empty && last != Empty
      && NodeOf(H, x) == (match NodeOf(H, last)
                          case LeafNode(key, _) => LeafNode(key, Str(v))
                          case BranchNode(b, _) => BranchNode(b, Str(v))
                          case e => e)
      && Ready(H, s.nodes + [NodeOf(H, x)], k, s, x) && Top(s, x) == Plug(t, k, Last(t, k), x) != Empty
      && Writes(H, t, s, x, {})
  {
    hide Open;
    hide Plug;
    hide Upper;
    hide RootStrings;
    hide NodeStrings;
    hide OwnAll;
    hide Own;
    hide Path;
    hide Rest;
    var n := Last(t, k);
    var x, last, rest := UpdateTarget(t, k, v), Path(t, k)[n], Rest(t, k, n);
    PathEnd(t, k);
    assert EndsAtRoot(last, rest) && (last.Leaf? || last.Branch?);
    SetStrings(H, t, k, v);
    WrittenStrings(H, t, k, n, x, s, x, [x], {});
  }

  lemma SetStrings(H: HashFn, t: Tree, k: Nibbles, v: Bytes)
    requires WellFormed(t) && t != Empty && Reaches(t, k)
    ensures var x := UpdateTarget(t, k, v); NodeStrings(H, x) <= NodeStrings(H, t) + OwnAll(H, [x])
  {
    hide NodeOf;
    hide Own;
    var n := Last(t, k);
    var last := Path(t, k)[n];
    PathEnd(t, k);
    if last.Branch? {
      SlotStrings(H, last, Some(v));
      PathStrings(H, t, k, n);
    }
  }

  /** A new leaf hangs on a free branch of the last node. */
  lemma AttachedReady(H: HashFn, t: Tree, k: Nibbles, v: Bytes, s0: Stale) returns (s: Stale)
    requires WellFormed(t) && t != Empty && s0 == Upper(H, t, k, Last(t, k), UpdateTarget(t, k, v))
    requires Open(H, s0, UpdateTarget(t, k, v)) && s0.key + Rest(t, k, Last(t, k)) == k && !Reaches(t, k)
    requires Path(t, k)[Last(t, k)].Branch?
    ensures var last := Path(t, k)[Last(t, k)]; var rest := Rest(t, k, Last(t, k));
      && rest != [] && var x := Leaf(rest[1..], v);
      && Ready(H, s0.nodes + [NodeOf(H, last)] + [LeafNode(rest[1..], Str(v))], k, s, x)
      && Top(s, x) == Plug(t, k, Last(t, k), UpdateTarget(t, k, v)) != Empty
      && Writes(H, t, s, x, {})
  {
    hide Open;
    hide NodeOf;
    hide Ready;
    var n := Last(t, k);
    var target, last, rest := UpdateTarget(t, k, v), Path(t, k)[n], Rest(t, k, n);
    PathEnd(t, k);
    var x := Leaf(rest[1..], v);
    s := AttachReady(H, s0, last, rest, v, k);
    ReadyOpen(H, s0.nodes + [NodeOf(H, last), LeafNode(rest[1..], Str(v))], k, s, x);
    assert s0.nodes + [NodeOf(H, last)] + [LeafNode(rest[1..], Str(v))] ==
           s0.nodes + [NodeOf(H, last), LeafNode(rest[1..], Str(v))];
    AttachStrings(H, last, rest, v);
    PathStrings(H, t, k, n);
    assert s.trees + [x] == s0.trees + [target, x];
    WrittenStrings(H, t, k, n, target, s, x, [target, x], {});
  }

  lemma ReadyOpen(H: HashFn, stack: seq<Node>, key: Nibbles, s: Stale, x: Tree)
    requires Ready(H, stack, key, s, x)
    ensures Open(H, s, x) && x != Empty
  {}

  lemma AttachStrings(H: HashFn, last: Tree, rest: Nibbles, v: Bytes)
    requires WellFormed(last) && last.Branch? && rest != [] && last.children[rest[0]] == Empty
    ensures var target := Insert(last, rest, v);
      NodeStrings(H, target) <= NodeStrings(H, last) + OwnAll(H, [target, Leaf(rest[1..], v)])
  {
    hide NodeOf;
    hide Own;
    BranchStrings(H, last, rest[0], Leaf(rest[1..], v), last.slot);
    assert Insert(last, rest, v) == Branch(last.children[rest[0] := Leaf(rest[1..], v)], last.slot);
    assert [Insert(last, rest, v), Leaf(rest[1..], v)][1..] == [Leaf(rest[1..], v)];
    assert OwnAll(H, [Leaf(rest[1..], v)]) == Own(H, Leaf(rest[1..], v));
  }

  /** The last node is split. */
  lemma ForkedReady(H: HashFn, t: Tree, k: Nibbles, v: Bytes, s0: Stale) returns (s: Stale, x: Tree)
    requires WellFormed(t) && t != Empty && s0 == Upper(H, t, k, Last(t, k), UpdateTarget(t, k, v))
    requires Open(H, s0, UpdateTarget(t, k, v)) && s0.key + Rest(t, k, Last(t, k)) == k && !Reaches(t, k)
    requires !Path(t, k)[Last(t, k)].Branch?
    ensures var last := Path(t, k)[Last(t, k)]; var rest := Rest(t, k, Last(t, k));
      && (last.Leaf? || (last.Ext? && !(last.key <= rest)))
      && Ready(H, s0.nodes + Forked(H, last, rest, v), k, s, x)
      && Top(s, x) == Plug(t, k, Last(t, k), UpdateTarget(t, k, v)) != Empty
      && Writes(H, t, s, x, ShrunkStrings(H, last, MatchingLength(last.key, rest)))
  {
    hide Open;
    hide NodeOf;
    hide Ready;
    hide Forked;
    hide ForkSpine;
    hide MatchingLength;
    var n := Last(t, k);
    var target, last, rest := UpdateTarget(t, k, v), Path(t, k)[n], Rest(t, k, n);
    PathEnd(t, k);
    s, x := ForkReady(H, s0, last, rest, v, k);
    ReadyOpen(H, s0.nodes + Forked(H, last, rest, v), k, s, x);
    var below := ForkSpine(last, rest, v);
    ForkStrings(H, last, rest, v);
    PathStrings(H, t, k, n);
    WrittenStrings(H, t, k, n, target, s, x, below, ShrunkStrings(H, last, MatchingLength(last.key, rest)));
  }

  lemma ForkStrings(H: HashFn, last: Tree, rest: Nibbles, v: Bytes)
    requires WellFormed(last) && (last.Leaf? || (last.Ext? && !(last.key <= rest))) && (last.Leaf? ==> last.key != rest)
    ensures var target := Insert(last, rest, v);
      var extra := ShrunkStrings(H, last, MatchingLength(last.key, rest));
      && extra <= NodeStrings(H, target)
      && NodeStrings(H, target) <= NodeStrings(H, last) + OwnAll(H, ForkSpine(last, rest, v)) + extra
  {
    hide NodeOf;
    hide Own;
    var m := MatchingLength(last.key, rest);
    assert last.Ext? ==> m < |last.key|;
    assert m < |last.key| || m < |rest| by { assert last.key[..|last.key|] == last.key && rest[..|rest|] == rest; }
    var b, target := ForkBranch(last, m, rest, v), Insert(last, rest, v);
    ForkBranchStrings(H, last, m, rest, v);
    SpineOwn(H, last, m, rest, v);
    assert m > 0 ==> target == Ext(last.key[..m], b);
    if m < |last.key| {
      ForkKeepsShrunk(H, last, m, rest, v);
      if last.Ext? && m + 1 == |last.key| { OwnInNode(H, last.child); }
    }
  }

  lemma ForkKeepsShrunk(H: HashFn, last: Tree, m: nat, k: Nibbles, v: Bytes)
    requires (last.Leaf? || last.Ext?) && m < |last.key| && m <= |k| && (m < |k| ==> last.key[m] != k[m])
    ensures Own(H, Shrink(last, m)) <= NodeStrings(H, ForkBranch(last, m, k, v))
  {
    hide Own;
    var b := ForkBranch(last, m, k, v);
    assert b.children[last.key[m]] == Shrink(last, m);
    OwnInNode(H, Shrink(last, m));
    ChildStrings(H, b, last.key[m], NodeStrings(H, b));
  }

  lemma SpineOwn(H: HashFn, last: Tree, m: nat, rest: Nibbles, v: Bytes)
    requires WellFormed(last) && (last.Leaf? || (last.Ext? && !(last.key <= rest))) && (last.Leaf? ==> last.key != rest)
    requires m == MatchingLength(last.key, rest) && (last.Ext? ==> m < |last.key|)
    ensures OwnAll(H, ForkSpine(last, rest, v)) ==
            (if m > 0 then Own(H, Insert(last, rest, v)) else {}) + Own(H, ForkBranch(last, m, rest, v))
            + if m < |rest| then Own(H, Leaf(rest[m + 1..], v)) else {}
  {
    hide Own;
    var b := ForkBranch(last, m, rest, v);
    var top := if m > 0 then [Insert(last, rest, v)] else [];
    OwnAllConcat(H, top + [b], if m < |rest| then [Leaf(rest[m + 1..], v)] else []);
    OwnAllConcat(H, top, [b]);
    assert forall t: Tree {:trigger OwnAll(H, [t])} :: OwnAll(H, [t]) == Own(H, t);
  }

  lemma FirstWrite(H: HashFn, before: Snapshots, t: Tree, root: Bytes)
    requires t.Leaf? && Shape(t, MAX_KEY) && root == RootHash(H, t)
    requires HashKeyed(H, before.current) && EmptyRoot(H) !in before.current
    requires CollisionFree(H, Involved(H, before.current, t))
    ensures var after := before.Put(root, Serialize(NodeOf(H, t)));
      Sound(H, after.current, root, t) && after.saved == before.saved && Grown(H, before.current, after.current, t)
  {
    hide CollisionFree;
    hide Digest;
    var op := Put(root, Serialize(NodeOf(H, t)));
    assert ([] + [op])[..0] == [];
    BatchAppend(before, [], op);
    ValuesPush([], root, op.value);
    assert Values([op]) == {op.value} by { assert [] + [op] == [op]; }
    assert [] + [op] == [op];
    SoundAfter(H, before, [op], Empty, t);
  }

  // ---------- the parts of a deletion ----------

  ghost predicate ClearedPlace(t: Tree, k: Nibbles)
  {
    && WellFormed(t) && t != Empty && ClearedAt(t, k) <= Last(t, k)
    && var b := ClearedAt(t, k);
    && Path(t, k)[b].Branch? && WellFormed(Path(t, k)[b])
    && ClearsHere(Path(t, k)[b], Rest(t, k, b))
    && Last(t, k) == b + if Rest(t, k, b) == [] then 0 else 1
  }

  ghost function NodesTo(H: HashFn, t: Tree, k: Nibbles, n: nat): seq<Node>
    requires WellFormed(t) && t != Empty && n < |Path(t, k)|
  {
    PathNonEmpty(t, k);
    Nodes(H, Path(t, k)[..n])
  }

  lemma NodesToLast(H: HashFn, t: Tree, k: Nibbles, n: nat)
    requires WellFormed(t) && t != Empty && 0 < n < |Path(t, k)|
    ensures Path(t, k)[n - 1] != Empty
    ensures var all := NodesTo(H, t, k, n);
      |all| == n && all[n - 1] == NodeOf(H, Path(t, k)[n - 1]) && all[..n - 1] == NodesTo(H, t, k, n - 1)
  {
    hide NodeOf;
    PathNonEmpty(t, k);
    NodesPush(H, Path(t, k), n - 1);
  }

  lemma ClearedNode(H: HashFn, branch: Tree, rest: Nibbles)
    requires branch.Branch? && |branch.children| == 16
    ensures NodeOf(H, branch).BranchNode? && |NodeOf(H, branch).branches| == 16
    ensures NodeOf(H, Cleared(branch, rest)) ==
            if rest == [] then BranchNode(NodeOf(H, branch).branches, NULL)
            else BranchNode(NodeOf(H, branch).branches[rest[0] := NULL], NodeOf(H, branch).bvalue)
  {
    if rest != [] {
      var c := Cleared(branch, rest);
      assert NodeOf(H, c).branches == NodeOf(H, branch).branches[rest[0] := NULL];
    }
  }

  /** What the end of the path looks like when there is something to delete below the root. */
  lemma ClearPlan(H: HashFn, t: Tree, k: Nibbles)
    requires Deletable(t, k)
    ensures ClearedPlace(t, k)
    ensures var b := ClearedAt(t, k); var path := PathOf(H, t, k).stack; var rest := Rest(t, k, b);
      var branch := Path(t, k)[b]; var n := |path|;
      && n >= 2 && NodeOf(H, branch).BranchNode? && |NodeOf(H, branch).branches| == 16
      && NodesTo(H, t, k, b) == path[..b]
      && (rest == [] ==> n == b + 1 && path[b] == NodeOf(H, branch) && k + rest == k
                         && NodeOf(H, Cleared(branch, rest)) == BranchNode(NodeOf(H, branch).branches, NULL))
      && (rest != [] ==> n == b + 2 && path[b] == NodeOf(H, branch) && path[b + 1].LeafNode?
                         && |path[b + 1].lkey| + 1 == |rest| <= |k| && k[|k| - |rest|] == rest[0]
                         && k[..|k| - |rest|] + rest == k
                         && NodeOf(H, Cleared(branch, rest)) ==
                            BranchNode(NodeOf(H, branch).branches[rest[0] := NULL], NodeOf(H, branch).bvalue))
  {
    hide NodeOf;
    hide Cleared;
    hide PathOf;
    hide Rest;
    hide Path;
    hide NodesTo;
    hide WellFormed;
    hide ClearedAt;
    DeletableContinues(t, k);
    ClearedBranch(t, k);
    var b := ClearedAt(t, k);
    var rest, branch := Rest(t, k, b), Path(t, k)[b];
    ClearedNode(H, branch, rest);
    PathNodes(H, t, k, b);
    KeySplit(H, t, k, b);
    if rest != [] { LeafBelow(H, t, k, b); }
  }

  lemma PathNodes(H: HashFn, t: Tree, k: Nibbles, b: nat)
    requires WellFormed(t) && t != Empty && b < |Path(t, k)|
    ensures Path(t, k)[b] != Empty
    ensures var path := PathOf(H, t, k).stack;
      |path| == |Path(t, k)| && path[b] == NodeOf(H, Path(t, k)[b]) && NodesTo(H, t, k, b) == path[..b]
  {
    hide NodeOf;
    PathNonEmpty(t, k);
    NodesIndex(H, Path(t, k), b);
    forall i | 0 <= i < b ensures NodesTo(H, t, k, b)[i] == PathOf(H, t, k).stack[i] {
      NodesIndex(H, Path(t, k), i);
      NodesIndex(H, Path(t, k)[..b], i);
    }
  }

  lemma KeySplit(H: HashFn, t: Tree, k: Nibbles, n: nat)
    requires WellFormed(t) && t != Empty && n < |Path(t, k)|
    ensures var rest := Rest(t, k, n); |rest| <= |k| && k[..|k| - |rest|] + rest == k
    ensures FirstNibble(k, Rest(t, k, n))
  {
    hide NodeOf;
    hide Rest;
    UpperKey(H, t, k, n, Empty);
    var up := Upper(H, t, k, n, Empty).key;
    assert up + Rest(t, k, n) == k;
    assert k[..|up|] == up;
  }

  predicate FirstNibble(k: Nibbles, rest: Nibbles) {
    |rest| <= |k| && (rest != [] ==> k[|k| - |rest|] == rest[0])
  }

  lemma LeafBelow(H: HashFn, t: Tree, k: Nibbles, b: nat)
    requires WellFormed(t) && t != Empty && b + 1 < |Path(t, k)|
    requires Path(t, k)[b].Branch? && WellFormed(Path(t, k)[b]) && ClearsHere(Path(t, k)[b], Rest(t, k, b))
    requires Rest(t, k, b) != []
    ensures var leaf := Path(t, k)[b + 1]; leaf.Leaf? && leaf.key == Rest(t, k, b)[1..]
    ensures PathOf(H, t, k).stack[b + 1].LeafNode? && PathOf(H, t, k).stack[b + 1].lkey == Rest(t, k, b)[1..]
    ensures |PathOf(H, t, k).stack[b + 1].lkey| + 1 == |Rest(t, k, b)|
  {
    PathStep(t, k, b);
    PathNodes(H, t, k, b + 1);
  }

  lemma AtRoot(H: HashFn, t: Tree, k: Nibbles)
    requires WellFormed(t) && t != Empty && Reaches(t, k)
    ensures |PathOf(H, t, k).stack| >= 1
    ensures |PathOf(H, t, k).stack| == 1 ==> Delete(t, k) == Empty
    ensures |PathOf(H, t, k).stack| > 1 ==> Deletable(t, k) && Delete(t, k) == DeleteBelow(t, k)
  {
    hide NodeOf;
    PathEnd(t, k);
    PathNodes(H, t, k, 0);
  }

  lemma EmptySound(H: HashFn, view: Store)
    requires HashKeyed(H, view) && EmptyRoot(H) !in view
    ensures Sound(H, view, EmptyRoot(H), Empty)
  {}

  /** What `ClearEnd` hands over. */
  ghost predicate Handed(H: HashFn, t: Tree, k: Nibbles, key: Nibbles, parentNode: Option<Node>, stack: seq<Node>)
    requires ClearedPlace(t, k)
  {
    var b := ClearedAt(t, k);
    && key + Rest(t, k, b) == k
    && (if b == 0 then parentNode == None && stack == []
        else parentNode.Some? && stack + [parentNode.value] == NodesTo(H, t, k, b))
  }

  ghost function ClearedTree(t: Tree, k: Nibbles): (r: Tree)
    requires ClearedPlace(t, k)
    ensures r.Branch? && |r.children| == 16
  {
    Cleared(Path(t, k)[ClearedAt(t, k)], Rest(t, k, ClearedAt(t, k)))
  }

  /** The single child of a collapsing branch can be read from the store. */
  lemma OnlyChild(H: HashFn, view: Store, root: Bytes, t: Tree, k: Nibbles, lastNode: Node, i: nat) returns (x: Tree)
    requires ClearedPlace(t, k) && Sound(H, view, root, t)
    requires lastNode == NodeOf(H, ClearedTree(t, k))
    requires i in Taken(lastNode.branches) && |Taken(lastNode.branches)| == 1
    ensures Occupied(ClearedTree(t, k).children) == {i} && i < 16
    ensures x == ClearedTree(t, k).children[i] != Empty
    ensures TrieNodes.LookupNode(view, lastNode.branches[i]) == Ok(NodeOf(H, x))
  {
    hide Digest;
    hide Own;
    hide Path;
    hide Rest;
    hide NodeStrings;
    hide RootStrings;
    hide Shape;
    hide HashKeyed;
    var b, c := ClearedAt(t, k), ClearedTree(t, k);
    var branch := Path(t, k)[b];
    TakenIsOccupied(H, c);
    assert |Occupied(c.children) - {i}| == 0;
    x := c.children[i];
    var d := PathShape(t, k, b, MAX_KEY);
    assert x == branch.children[i];
    ChildStrings(H, branch, i, NodeStrings(H, branch));
    PathStrings(H, t, k, b);
    EmptyHasNone(H, t);
    assert Shape(x, d - 1);
    OwnInNode(H, x);
    ResolveRef(H, view, x, d - 1);
  }

  lemma ClearedIsBranch(H: HashFn, t: Tree, k: Nibbles)
    requires ClearedPlace(t, k)
    ensures var n := NodeOf(H, ClearedTree(t, k));
      n.BranchNode? && |n.branches| == 16 && Taken(n.branches) == Occupied(ClearedTree(t, k).children)
  {
    TakenIsOccupied(H, ClearedTree(t, k));
  }

  lemma SameFront(a: Nibbles, b: Nibbles, rest: Nibbles)
    requires a + rest == b + rest
    ensures a == b
  {
    assert a == (a + rest)[..|a|] && b == (b + rest)[..|b|];
  }

  /** The stack handed over, as the upper part of the path to the cleared branch. */
  lemma HandedUpper(H: HashFn, t: Tree, k: Nibbles, key: Nibbles, parentNode: Option<Node>, stack: seq<Node>, x: Tree)
    returns (s: Stale)
    requires ClearedPlace(t, k) && Handed(H, t, k, key, parentNode, stack)
    ensures var b := ClearedAt(t, k);
      && s == Upper(H, t, k, b, x) && Open(H, s, x) && s.key == key
      && s.nodes == (if parentNode.Some? then stack + [parentNode.value] else stack)
      && (b > 0 ==> parentNode.Some?)
      && (parentNode.Some? ==> b > 0 && Path(t, k)[b - 1] != Empty && parentNode.value == NodeOf(H, Path(t, k)[b - 1])
                               && stack == NodesTo(H, t, k, b - 1)
                               && WellFormed(Path(t, k)[b - 1]) && Continues(Path(t, k)[b - 1], Rest(t, k, b - 1)))
  {
    hide NodeOf;
    hide Open;
    hide Path;
    hide Rest;
    var b := ClearedAt(t, k);
    s := Upper(H, t, k, b, x);
    UpperOpen(H, t, k, b, x);
    UpperNodes(H, t, k, b, x);
    UpperKey(H, t, k, b, x);
    SameFront(s.key, key, Rest(t, k, b));
    if b > 0 {
      NodesToLast(H, t, k, b);
      PathStep(t, k, b - 1);
      assert stack == (stack + [parentNode.value])[..b - 1];
    }
  }

  lemma NodeKind(H: HashFn, t: Tree, k: Nibbles)
    requires WellFormed(t) && Continues(t, k)
    ensures t.Ext? ==> NodeOf(H, t).ExtensionNode? && NodeOf(H, t).ekey == t.key
    ensures t.Branch? ==> NodeOf(H, t).BranchNode?
    ensures t.Ext? || t.Branch?
  {}

  /** What a collapse adds below the path. */
  function CollapseSpine(p: Nibbles, x: Tree): (r: seq<Tree>)
    requires x != Empty
    ensures r != [] && r[0] == Prepend(p, x)
  {
    [Prepend(p, x)] + if x.Branch? then [x] else []
  }

  lemma CollapseStrings(H: HashFn, t: Tree, k: Nibbles, i: nat, p: Nibbles)
    requires ClearedPlace(t, k) && i < 16 && ClearedTree(t, k).children[i] != Empty
    ensures var x := ClearedTree(t, k).children[i];
      NodeStrings(H, Prepend(p, x)) <= NodeStrings(H, t) + OwnAll(H, CollapseSpine(p, x))
  {
    hide Own;
    var b := ClearedAt(t, k);
    var branch, x := Path(t, k)[b], ClearedTree(t, k).children[i];
    assert x == branch.children[i];
    ChildStrings(H, branch, i, NodeStrings(H, branch));
    PathStrings(H, t, k, b);
    PrependStrings(H, p, x);
  }

  lemma CollapseBelowBranch(H: HashFn, t: Tree, k: Nibbles, key: Nibbles, parentNode: Option<Node>, stack: seq<Node>,
                            i: Nibble, x: Tree) returns (s: Stale, y: Tree)
    requires Deletable(t, k) && ClearedPlace(t, k) && Handed(H, t, k, key, parentNode, stack)
    requires Occupied(ClearedTree(t, k).children) == {i} && x == ClearedTree(t, k).children[i] != Empty
    requires ClearedAt(t, k) > 0 ==> !Path(t, k)[ClearedAt(t, k) - 1].Ext?
    ensures var upper := if parentNode.Some? then stack + [parentNode.value] else stack;
      Ready(H, upper + Collapsed(H, [i], x, NULL), key + [i] + (if x.Branch? then [] else x.key), s, y)
    ensures Top(s, y) == DeleteBelow(t, k) != Empty && Writes(H, t, s, y, {})
  {
    hide NodeOf;
    hide Open;
    hide Ready;
    hide Path;
    hide Rest;
    hide Plug;
    hide Upper;
    hide NodeStrings;
    hide OwnAll;
    hide Own;
    hide RootStrings;
    hide Collapsed;
    var b, c := ClearedAt(t, k), ClearedTree(t, k);
    DeleteAtBranch(t, k);
    OnlyIs(c.children, i);
    var target := Prepend([i], x);
    assert Prune(c.children, c.slot) == target;
    var s0 := HandedUpper(H, t, k, key, parentNode, stack, target);
    s, y := CollapseReady(H, s0, [i], x, NULL);
    ReadyOpen(H, s0.nodes + Collapsed(H, [i], x, NULL), key + [i] + (if x.Branch? then [] else x.key), s, y);
    CollapseStrings(H, t, k, i, [i]);
    SpineSplit(s.trees + [y], s0.trees, [i], x);
    WrittenStrings(H, t, k, b, target, s, y, CollapseSpine([i], x), {});
  }

  lemma SpineSplit(all: seq<Tree>, upper: seq<Tree>, p: Nibbles, x: Tree)
    requires x != Empty && all == upper + [Prepend(p, x)] + if x.Branch? then [x] else []
    ensures all == upper + CollapseSpine(p, x)
  {}

  lemma OnlyIs(children: seq<Tree>, i: nat)
    requires |children| == 16 && Occupied(children) == {i}
    ensures |Occupied(children)| == 1 && Only(children) == i
  {
    assert Only(children) in Occupied(children);
  }

  lemma PrependTwice(p: Nibbles, q: Nibbles, t: Tree)
    requires t != Empty && q != []
    ensures Prepend(p, Prepend(q, t)) == Prepend(p + q, t)
  {
    if !t.Branch? { Assoc(p, q, t.key); }
  }

  lemma CollapseIntoExtension(H: HashFn, t: Tree, k: Nibbles, key: Nibbles, parentNode: Option<Node>, stack: seq<Node>,
                              i: Nibble, x: Tree) returns (s: Stale, y: Tree)
    requires Deletable(t, k) && ClearedPlace(t, k) && Handed(H, t, k, key, parentNode, stack)
    requires Occupied(ClearedTree(t, k).children) == {i} && x == ClearedTree(t, k).children[i] != Empty
    requires ClearedAt(t, k) > 0 && Path(t, k)[ClearedAt(t, k) - 1].Ext?
    ensures parentNode.Some? && parentNode.value.ExtensionNode?
    ensures Ready(H, stack + Collapsed(H, parentNode.value.ekey + [i], x, parentNode.value.child),
                  key + [i] + (if x.Branch? then [] else x.key), s, y)
    ensures Top(s, y) == DeleteBelow(t, k) != Empty && Writes(H, t, s, y, {})
  {
    hide NodeOf;
    hide Open;
    hide Ready;
    hide Path;
    hide Rest;
    hide Plug;
    hide Upper;
    hide NodeStrings;
    hide OwnAll;
    hide Own;
    hide RootStrings;
    hide Collapsed;
    var b, c := ClearedAt(t, k), ClearedTree(t, k);
    var ext := Path(t, k)[b - 1];
    var p := ext.key + [i];
    OnlyIs(c.children, i);
    DeleteIntoExtension(t, k);
    PrependTwice(ext.key, [i], x);
    var target := Prepend(p, x);
    var _ := HandedUpper(H, t, k, key, parentNode, stack, target);
    NodeKind(H, ext, Rest(t, k, b - 1));
    var s0 := Upper(H, t, k, b - 1, target);
    UpperOpen(H, t, k, b - 1, target);
    UpperNodes(H, t, k, b - 1, target);
    ExtensionKey(H, t, k, b, key, target);
    s, y := CollapseReady(H, s0, p, x, parentNode.value.child);
    Assoc(s0.key, ext.key, [i]);
    ReadyOpen(H, s0.nodes + Collapsed(H, p, x, parentNode.value.child),
              s0.key + p + (if x.Branch? then [] else x.key), s, y);
    CollapseStrings(H, t, k, i, p);
    SpineSplit(s.trees + [y], s0.trees, p, x);
    WrittenStrings(H, t, k, b - 1, target, s, y, CollapseSpine(p, x), {});
  }

  lemma ExtensionKey(H: HashFn, t: Tree, k: Nibbles, b: nat, key: Nibbles, x: Tree)
    requires WellFormed(t) && t != Empty && 0 < b < |Path(t, k)| && Path(t, k)[b - 1].Ext?
    requires key + Rest(t, k, b) == k
    ensures Upper(H, t, k, b - 1, x).key + Path(t, k)[b - 1].key == key
  {
    hide NodeOf;
    hide Path;
    hide Rest;
    hide Upper;
    PathStep(t, k, b - 1);
    UpperKey(H, t, k, b - 1, x);
    var up, rest, e := Upper(H, t, k, b - 1, x).key, Rest(t, k, b - 1), Path(t, k)[b - 1].key;
    assert rest == e + rest[|e|..];
    Assoc(up, e, rest[|e|..]);
    SameFront(up + e, key, Rest(t, k, b));
  }

  /** The stack and key after a collapse stand for the tree with the key deleted. */
  lemma CollapsePlan(H: HashFn, t: Tree, k: Nibbles, key: Nibbles, parentNode: Option<Node>, stack: seq<Node>,
                     i: Nibble, x: Tree) returns (s: Stale, y: Tree)
    requires Deletable(t, k) && ClearedPlace(t, k) && Handed(H, t, k, key, parentNode, stack)
    requires Occupied(ClearedTree(t, k).children) == {i} && x == ClearedTree(t, k).children[i] != Empty
    ensures parentNode.Some? ==> !parentNode.value.LeafNode?
    ensures var newKey := key + [i] + if x.Branch? then [] else x.key;
      && (parentNode.Some? && parentNode.value.ExtensionNode? ==>
            Ready(H, stack + Collapsed(H, parentNode.value.ekey + [i], x, parentNode.value.child), newKey, s, y))
      && (parentNode.Some? && parentNode.value.BranchNode? ==>
            Ready(H, stack + [parentNode.value] + Collapsed(H, [i], x, NULL), newKey, s, y))
      && (parentNode.None? ==> Ready(H, stack + Collapsed(H, [i], x, NULL), newKey, s, y))
    ensures Top(s, y) == DeleteBelow(t, k) != Empty && Writes(H, t, s, y, {})
  {
    hide NodeOf;
    hide Open;
    hide Ready;
    hide Writes;
    hide Path;
    hide Rest;
    hide Plug;
    hide Upper;
    hide Collapsed;
    hide Handed;
    hide DeleteBelow;
    hide ClearedTree;
    var b := ClearedAt(t, k);
    var _ := HandedUpper(H, t, k, key, parentNode, stack, x);
    if b > 0 {
      NodeKind(H, Path(t, k)[b - 1], Rest(t, k, b - 1));
    }
    if b > 0 && Path(t, k)[b - 1].Ext? {
      s, y := CollapseIntoExtension(H, t, k, key, parentNode, stack, i, x);
    } else {
      s, y := CollapseBelowBranch(H, t, k, key, parentNode, stack, i, x);
    }
  }

  /** The same when the cleared branch stays. */
  lemma KeepPlan(H: HashFn, t: Tree, k: Nibbles, key: Nibbles, parentNode: Option<Node>, stack: seq<Node>)
    returns (s: Stale, y: Tree)
    requires Deletable(t, k) && ClearedPlace(t, k) && Handed(H, t, k, key, parentNode, stack)
    requires |Occupied(ClearedTree(t, k).children)| != 1
    ensures y == ClearedTree(t, k)
    ensures Ready(H, (if parentNode.Some? then stack + [parentNode.value] else stack) + [NodeOf(H, y)], key, s, y)
    ensures Top(s, y) == DeleteBelow(t, k) != Empty && Writes(H, t, s, y, {})
  {
    hide NodeOf;
    hide Open;
    hide Path;
    hide Rest;
    hide Plug;
    hide Upper;
    hide NodeStrings;
    hide OwnAll;
    hide Own;
    hide RootStrings;
    hide ClearedTree;
    hide Handed;
    hide DeleteBelow;
    var b := ClearedAt(t, k);
    y := ClearedTree(t, k);
    KeptDelete(t, k);
    s := HandedUpper(H, t, k, key, parentNode, stack, y);
    KeepStrings(H, t, k);
    WrittenStrings(H, t, k, b, y, s, y, [y], {});
  }

  lemma KeptDelete(t: Tree, k: Nibbles)
    requires Deletable(t, k) && ClearedPlace(t, k) && |Occupied(ClearedTree(t, k).children)| != 1
    ensures ClearedAt(t, k) < |Path(t, k)| && Plug(t, k, ClearedAt(t, k), ClearedTree(t, k)) == DeleteBelow(t, k)
  {
    hide Path;
    hide Rest;
    hide Plug;
    hide DeleteBelow;
    hide ClearedAt;
    DeleteAtBranch(t, k);
  }

  lemma KeepStrings(H: HashFn, t: Tree, k: Nibbles)
    requires ClearedPlace(t, k)
    ensures NodeStrings(H, ClearedTree(t, k)) <= NodeStrings(H, t) + OwnAll(H, [ClearedTree(t, k)])
  {
    hide Own;
    hide NodeOf;
    var b := ClearedAt(t, k);
    var branch, rest := Path(t, k)[b], Rest(t, k, b);
    PathStrings(H, t, k, b);
    if rest == [] {
      SlotStrings(H, branch, None);
    } else {
      BranchStrings(H, branch, rest[0], Empty, branch.slot);
    }
    assert OwnAll(H, [ClearedTree(t, k)]) == Own(H, ClearedTree(t, k));
  }

  lemma CompleteIsHonest(H: HashFn, view: Store, t: Tree, root: Bytes)
    requires Sound(H, view, root, t)
    ensures WellFormed(t) && (t == Empty ==> root !in view)
    ensures forall k :: Honest(H, view, Needed(H, t, k)) && Complete(H, view, Needed(H, t, k))
  {
    hide Digest;
    ShapeWellFormed(t, MAX_KEY);
    forall k ensures Honest(H, view, Needed(H, t, k)) && Complete(H, view, Needed(H, t, k)) {
      NeededInRoot(H, t, k);
    }
  }

  lemma EmptyHasNoNode(view: Store, root: Bytes)
    requires root in view ==> view[root] == Encode(NULL)
    ensures TrieNodes.LookupNode(view, Str(root)) == Err(if root in view then InvalidNode else MissingNode)
  {
    DecodeIsInverse(Encode(NULL), NULL);
  }

  lemma RootTellsEmpty(H: HashFn, view: Store, root: Bytes, t: Tree)
    requires Sound(H, view, root, t)
    ensures root == EmptyRoot(H) <==> t == Empty
  {
    if t != Empty { assert Serialize(NodeOf(H, t)) in RootStrings(H, t); }
  }

  lemma PathOfParts(H: HashFn, t: Tree, k: Nibbles)
    requires WellFormed(t) && t != Empty
    ensures PathOf(H, t, k).remaining == Remaining(t, k)
    ensures PathOf(H, t, k).node.Some? <==> Reaches(t, k)
    ensures !Reaches(t, k) ==> Delete(t, k) == t
  {}

  class Trie {
    const H: HashFn
    const db: CheckpointDB
    var root: Bytes
    /** What the root stands for, now and at each checkpoint. */
    ghost var tree: Tree
    ghost var savedTrees: seq<Tree>

    ghost predicate Valid()
      reads this, db
    {
      var s := db.State();
      && Sound(H, s.current, root, tree)
      && |savedTrees| == |s.saved|
      && forall i :: 0 <= i < |s.saved| ==> Sound(H, s.saved[i].0, s.saved[i].1, savedTrees[i])
    }

    constructor (H: HashFn)
      ensures Valid() && fresh(db) && this.H == H
      ensures tree == Empty && savedTrees == [] && db.State() == Snapshots(map[], [])
    {
      this.H := H;
      db := new CheckpointDB();
      root := EmptyRoot(H);
      tree := Empty;
      savedTrees := [];
    }

    /** `new Trie(null, root)`: an empty store under a root whose nodes are yet to come. */
    constructor WithRoot(H: HashFn, root: Bytes)
      ensures fresh(db) && this.H == H && this.root == root
      ensures savedTrees == [] && db.State() == Snapshots(map[], [])
    {
      this.H := H;
      db := new CheckpointDB();
      this.root := root;
      tree := Empty;
      savedTrees := [];
    }

    // ---------- reading ----------

    method LookupNode(ref: Item) returns (r: Result<Node, TrieError>)
      modifies db
      ensures db.State() == old(db.State())
      ensures r == TrieNodes.LookupNode(db.State().current, ref)
    {
      if ref.List? {
        return DecodeRawNode(ref.items);
      }
      var value := db.Get(ref.bytes);
      if value.None? {
        return Err(MissingNode);
      }
      return DecodeNode(value.value);
    }

    /** The descent of `findPath`. It needs no complete store, only one that holds nothing
        false about the tree behind the root: a missing node is then the only way to fail. */
    method FindPath(key: Bytes, throwIfMissing: bool, ghost t: Tree) returns (r: Result<PathResult, TrieError>)
      requires WellFormed(t) && Shape(t, MAX_KEY) && root == RootHash(H, t)
      requires Honest(H, db.State().current, Needed(H, t, BufferToNibbles(key)))
      requires t == Empty && root in db.State().current ==> db.State().current[root] == Encode(NULL)
      modifies db
      ensures db.State() == old(db.State())
      ensures r.Err? ==> t == Empty || (r == Err(MissingNode) && throwIfMissing)
      ensures r.Ok? && throwIfMissing ==> t != Empty && r.value == PathOf(H, t, BufferToNibbles(key))
      ensures t == Empty && root !in db.State().current && !throwIfMissing ==> r.Ok?
      ensures t == Empty && r.Ok? ==> r.value == PathResult(None, [], [])
      ensures t != Empty && Complete(H, db.State().current, Needed(H, t, BufferToNibbles(key))) ==>
                r == Ok(PathOf(H, t, BufferToNibbles(key)))
    {
      hide NodeOf;
      hide RootStrings;
      hide RootHash;
      hide Rest;
      hide Path;
      hide Nodes;
      hide Decide;
      hide PathOf;
      hide BufferToNibbles;
      hide Needed;
      hide TrieNodes.LookupNode;
      hide Digest;
      hide Encode;
      hide Shape;
      hide EndsAtRoot;
      hide MatchingLength;
      hide Honest;
      hide Complete;
      hide Ref;
      hide WellFormed;
      if t != Empty { PathStart(H, t, BufferToNibbles(key)); }
      var targetKey := BufferToNibbles(key);
      var stack: seq<Node> := [];
      var nodeRef := Str(root);
      var keyProgress: Nibbles := [];
      ghost var n := 0;
      while true
        invariant db.State() == old(db.State()) && root == old(root)
        invariant t == Empty ==> stack == [] && nodeRef == Str(root)
        invariant t != Empty ==>
                    && n < |Path(t, targetKey)|
                    && keyProgress + Rest(t, targetKey, n) == targetKey
                    && stack == Nodes(H, Path(t, targetKey)[..n])
                    && nodeRef == if n == 0 then Str(root) else Ref(H, Path(t, targetKey)[n])
        decreases if t == Empty then 0 else |Path(t, targetKey)| - n
      {
        var found := LookupNode(nodeRef);
        if t == Empty {
          EmptyHasNoNode(db.State().current, root);
        } else {
          Resolve(H, db.State().current, t, targetKey, n, nodeRef);
        }
        if found.Err? {
          if found.error != MissingNode || throwIfMissing { return Err(found.error); }
          return Ok(PathResult(None, [], stack));
        }
        var node := found.value;
        if t != Empty { FindStep(H, t, targetKey, n, keyProgress, node); }
        var keyRemainder := targetKey[MatchingLength(keyProgress, targetKey)..];
        var decision := Decide(node, keyRemainder);
        stack := stack + [node];
        match decision {
          case Found => return Ok(PathResult(Some(node), [], stack));
          case Missed => return Ok(PathResult(None, keyRemainder, stack));
          case Follow(ref, consumed) =>
            keyProgress := keyProgress + consumed;
            nodeRef := ref;
        }
        n := n + 1;
      }
    }

    /** `get`: with `throwIfMissing` on any honest store, without it on a complete one,
        what is returned is what the tree stores. */
    method Get(key: Bytes, throwIfMissing: bool, ghost t: Tree) returns (r: Result<Option<Item>, TrieError>)
      requires WellFormed(t) && Shape(t, MAX_KEY) && root == RootHash(H, t)
      requires Honest(H, db.State().current, Needed(H, t, BufferToNibbles(key)))
      requires t == Empty && root in db.State().current ==> db.State().current[root] == Encode(NULL)
      modifies db
      ensures db.State() == old(db.State())
      ensures r.Err? ==> t == Empty || (r == Err(MissingNode) && throwIfMissing)
      ensures r.Ok? && (throwIfMissing || Complete(H, db.State().current, Needed(H, t, BufferToNibbles(key)))) ==>
                r.value == AsItem(Lookup(t, BufferToNibbles(key)))
      ensures t != Empty && Complete(H, db.State().current, Needed(H, t, BufferToNibbles(key))) ==> r.Ok?
      ensures t == Empty && root !in db.State().current && !throwIfMissing ==> r.Ok?
    {
      hide NodeOf;
      hide PathOf;
      hide RootStrings;
      var found := FindPath(key, throwIfMissing, t);
      if found.Err? {
        return Err(found.error);
      }
      if t != Empty { ReachedValue(H, t, BufferToNibbles(key)); }
      var value := None;
      if found.value.node.Some? && |found.value.remaining| == 0 {
        value := NodeValue(found.value.node.value);
      }
      return Ok(value);
    }

    // ---------- writing ----------

    /** Formats a node for its parent; pushes it to the operations when it is stored by hash. */
    method FormatNode(node: Node, topLevel: bool, ops: seq<BatchOp>) returns (ref: Item, ops': seq<BatchOp>)
      requires Filed(H, ops)
      ensures topLevel ==> ref == Str(Digest(H, Serialize(node)))
      ensures !topLevel ==> ref == Embed(H, node)
      ensures Filed(H, ops')
      ensures Values(ops') == Values(ops) + if topLevel || |Serialize(node)| >= 32 then {Serialize(node)} else {}
    {
      var rlpNode := Serialize(node);
      if |rlpNode| >= 32 || topLevel {
        var hashRoot := Digest(H, rlpNode);
        ValuesPush(ops, hashRoot, rlpNode);
        return Str(hashRoot), ops + [BatchOp.Put(hashRoot, rlpNode)];
      }
      return Raw(node), ops;
    }

    /** `_saveStack`: from the deepest node up, links each node to the one below it,
        stores them, and moves the root. */
    method SaveStack(fullKey: Nibbles, fullStack: seq<Node>, opStack: seq<BatchOp>, ghost s: Stale, ghost x: Tree)
      returns (ghost ops: seq<BatchOp>)
      requires Ready(H, fullStack, fullKey, s, x) && Filed(H, opStack)
      modifies this`root, db
      ensures root == RootHash(H, Top(s, x)) && Top(s, x) != Empty
      ensures Filed(H, ops)
      ensures Values(ops) == Values(opStack) + OwnAll(H, s.trees) + Own(H, x) + {Serialize(NodeOf(H, Top(s, x)))}
      ensures db.State() == old(db.State()).Batch(ops)
    {
      hide Saving;
      hide Ready;
      var key, stack := fullKey, fullStack;
      var pending := opStack;
      var lastRoot: Option<Item> := None;
      ghost var g := Progress(s, x, s, x);
      StartSaving(H, g, fullStack, fullKey, opStack);
      while |stack| > 0
        invariant db.State() == old(db.State()) && Filed(H, pending)
        invariant Saving(H, g, stack, key, lastRoot, opStack, pending) && g.s == s && g.x == x
        decreases |stack|
      {
        SavingNode(H, g, stack, key, lastRoot, opStack, pending);
        var node := stack[|stack| - 1];
        var relinked := Relink(node, key, lastRoot);
        stack := stack[..|stack| - 1];
        node, key := relinked.0, relinked.1;
        var ref, more := FormatNode(node, |stack| == 0, pending);
        g := SavingStep(H, g, stack, node, key, lastRoot, ref, opStack, pending, more);
        lastRoot, pending := Some(ref), more;
      }
      Saved(H, g, key, lastRoot, opStack, pending);
      root := lastRoot.value.bytes;
      db.Batch(pending);
      ops := pending;
    }

    /** What is left of the split node goes into the new branch: shrunk below its next nibble,
        or as the branch's own value. */
    method KeepLast(lastNode: Node, matchingLength: nat, ghost last: Tree)
      returns (branches: seq<Item>, branchValue: Item, toSave: seq<BatchOp>)
      requires WellFormed(last) && (last.Leaf? || last.Ext?) && matchingLength <= |last.key|
      requires last.Ext? ==> matchingLength < |last.key|
      requires lastNode == NodeOf(H, last)
      ensures branches == KeptBranches(H, last, matchingLength)
      ensures branchValue == if matchingLength < |last.key| then NULL else NodeOf(H, last).lvalue
      ensures Filed(H, toSave) && Values(toSave) == ShrunkStrings(H, last, matchingLength)
    {
      branches, branchValue, toSave := NoBranches(), NULL, [];
      var lastKey := if lastNode.LeafNode? then lastNode.lkey else lastNode.ekey;
      lastKey := lastKey[matchingLength..];
      if |lastKey| != 0 {
        ShrunkNode(H, last, matchingLength);
        var branchKey := lastKey[0];
        lastKey := lastKey[1..];
        if |lastKey| != 0 || lastNode.LeafNode? {
          var shrunk := if lastNode.LeafNode? then LeafNode(lastKey, lastNode.lvalue)
                        else ExtensionNode(lastKey, lastNode.child);
          var formatted;
          formatted, toSave := FormatNode(shrunk, false, toSave);
          branches := branches[branchKey := formatted];
        } else {
          branches := branches[branchKey := lastNode.child];
        }
      } else {
        branchValue := lastNode.lvalue;
      }
    }

    /** Splits a leaf or an extension where the key leaves it. */
    method ForkNode(lastNode: Node, remainder: Nibbles, value: Bytes, ghost last: Tree)
      returns (pushed: seq<Node>, toSave: seq<BatchOp>)
      requires WellFormed(last) && (last.Leaf? || (last.Ext? && !(last.key <= remainder)))
      requires lastNode == NodeOf(H, last)
      ensures pushed == Forked(H, last, remainder, value)
      ensures Filed(H, toSave) && Values(toSave) == ShrunkStrings(H, last, MatchingLength(last.key, remainder))
    {
      hide Forked;
      hide MatchingLength;
      hide KeptBranches;
      hide ShrunkStrings;
      hide Values;
      hide Filed;
      ForkedIs(H, last, remainder, value);
      var lastKey := if lastNode.LeafNode? then lastNode.lkey else lastNode.ekey;
      var matchingLength := MatchingLength(lastKey, remainder);
      var branches, branchValue;
      branches, branchValue, toSave := KeepLast(lastNode, matchingLength, last);
      pushed := if matchingLength != 0 then [ExtensionNode(lastKey[..matchingLength], Str(value))] else [];
      var keyRemainder := remainder[matchingLength..];
      if |keyRemainder| != 0 {
        pushed := pushed + [BranchNode(branches, branchValue), LeafNode(keyRemainder[1..], Str(value))];
      } else {
        pushed := pushed + [BranchNode(branches, Str(value))];
      }
    }

    /** Saves a stack that stands for a whole new tree. */
    method SaveTree(key: Nibbles, stack: seq<Node>, toSave: seq<BatchOp>, ghost s: Stale, ghost x: Tree)
      requires Valid() && Ready(H, stack, key, s, x) && Filed(H, toSave)
      requires Top(s, x) != Empty && Shape(Top(s, x), MAX_KEY)
      requires CollisionFree(H, Involved(H, db.State().current, Top(s, x)))
      requires Writes(H, tree, s, x, Values(toSave))
      modifies this`root, this`tree, db
      ensures Valid() && tree == Top(s, x)
      ensures db.State().saved == old(db.State().saved)
      ensures Grown(H, old(db.State().current), db.State().current, tree)
    {
      hide NodeOf;
      hide Ready;
      hide RootStrings;
      hide NodeStrings;
      hide OwnAll;
      hide Own;
      hide CollisionFree;
      hide Serialize;
      ghost var before := db.State();
      ghost var ops := SaveStack(key, stack, toSave, s, x);
      SavedSound(H, before, ops, tree, s, x, root, Values(toSave));
      tree := Top(s, x);
    }

    method KeyLength(stack: seq<Node>, ghost s: Stale, ghost x: Tree) returns (l: nat)
      requires Open(H, s, x) && stack == s.nodes
      ensures l == |s.key|
    {
      hide Joint;
      l := 0;
      for i := 0 to |stack|
        invariant l == s.cuts[i]
      {
        assert JointAt(H, s, i, x);
        JointStep(H, s.nodes[i], s.trees[i], s.key, s.cuts[i], if i + 1 < |s.trees| then s.trees[i + 1] else x);
        match stack[i] {
          case BranchNode(_, _) => l := l + 1;
          case ExtensionNode(nkey, _) => l := l + |nkey|;
          case LeafNode(nkey, _) => l := l + |nkey|;
        }
      }
    }

    /** `_updateNode`: stores a non-empty value under a key, given the path found for it. */
    method UpdateNode(k: Bytes, value: Bytes, remainder: Nibbles, path: seq<Node>) returns (r: Result<(), TrieError>)
      requires Valid() && tree != Empty && WellFormed(tree) && Storable(value) && 2 * |k| <= MAX_KEY
      requires CollisionFree(H, Involved(H, db.State().current, Insert(tree, BufferToNibbles(k), value)))
      requires PathOf(H, tree, BufferToNibbles(k)).stack == path
      requires Remaining(tree, BufferToNibbles(k)) == remainder
      modifies this`root, this`tree, db
      ensures r.Ok? && Valid()
      ensures WellFormed(old(tree)) && tree == Insert(old(tree), BufferToNibbles(k), value)
      ensures db.State().saved == old(db.State().saved)
      ensures Grown(H, old(db.State().current), db.State().current, tree)
    {
      hide NodeOf;
      hide Open;
      hide RootStrings;
      hide NodeStrings;
      hide CollisionFree;
      hide Involved;
      hide OwnAll;
      hide Ready;
      hide Writes;
      hide Forked;
      hide BufferToNibbles;
      hide Path;
      hide Rest;
      hide Remaining;
      hide Reaches;
      hide Insert;
      hide Plug;
      hide Upper;
      hide UpdateTarget;
      hide MatchingLength;
      hide Shape;
      var key := BufferToNibbles(k);
      if |path| == 0 {
        return Err(StackUnderflow);
      }
      var stack, keyRemainder := path, remainder;
      ghost var t, n := tree, Last(tree, key);
      ghost var last, rest := Path(t, key)[n], Rest(t, key, n);
      ghost var target := UpdateTarget(t, key, value);
      ghost var s0 := UpdatePlan(H, t, key, value);
      InsertShape(t, key, value, MAX_KEY);
      LastNode(H, t, key);
      var lastNode := stack[|stack| - 1];
      stack := stack[..|stack| - 1];
      var toSave: seq<BatchOp> := [];
      var matchLeaf := false;
      if lastNode.LeafNode? {
        var l := KeyLength(stack, s0, target);
        matchLeaf := MatchingLength(lastNode.lkey, key[l..]) == |lastNode.lkey| && |keyRemainder| == 0;
      }
      if matchLeaf {
        lastNode := LeafNode(lastNode.lkey, Str(value));
        SetReady(H, t, key, value, s0);
        stack := stack + [lastNode];
        SaveTree(key, stack, toSave, s0, target);
      } else if lastNode.BranchNode? {
        if |keyRemainder| != 0 {
          ghost var s := AttachedReady(H, t, key, value, s0);
          stack := stack + [lastNode];
          keyRemainder := keyRemainder[1..];
          stack := stack + [LeafNode(keyRemainder, Str(value))];
          SaveTree(key, stack, toSave, s, Leaf(rest[1..], value));
        } else {
          SetReady(H, t, key, value, s0);
          lastNode := BranchNode(lastNode.branches, Str(value));
          stack := stack + [lastNode];
          SaveTree(key, stack, toSave, s0, target);
        }
      } else {
        ghost var s, x := ForkedReady(H, t, key, value, s0);
        var pushed;
        pushed, toSave := ForkNode(lastNode, keyRemainder, value, last);
        stack := stack + pushed;
        SaveTree(key, stack, toSave, s, x);
      }
      r := Ok(());
    }

    /** `_createInitialNode`: the first node of an empty trie. */
    method CreateInitialNode(k: Bytes, value: Bytes)
      requires Valid() && tree == Empty && Storable(value) && 2 * |k| <= MAX_KEY
      requires CollisionFree(H, Involved(H, db.State().current, Insert(tree, BufferToNibbles(k), value)))
      modifies this`root, this`tree, db
      ensures Valid() && tree == Insert(Empty, BufferToNibbles(k), value)
      ensures db.State().saved == old(db.State().saved)
      ensures Grown(H, old(db.State().current), db.State().current, tree)
    {
      var newNode := LeafNode(BufferToNibbles(k), Str(value));
      ghost var t := Leaf(BufferToNibbles(k), value);
      ghost var before := db.State();
      root := Digest(H, Serialize(newNode));
      FirstWrite(H, before, t, root);
      db.Put(root, Serialize(newNode));
      tree := t;
    }

    /** The first half of `_deleteNode`: clears the value or the leaf at the end of the path.
        The branch it was cleared from comes back with its parent split off the stack. */
    method ClearEnd(k: Nibbles, path: seq<Node>, ghost t: Tree)
      returns (r: Result<(Nibbles, Node, Option<Node>, seq<Node>), TrieError>)
      requires Deletable(t, k) && PathOf(H, t, k).stack == path && |path| >= 2
      ensures ClearedPlace(t, k)
      ensures r.Ok?
      ensures var b := ClearedAt(t, k); var (key, lastNode, parentNode, stack) := r.value;
        && key + Rest(t, k, b) == k
        && lastNode == NodeOf(H, Cleared(Path(t, k)[b], Rest(t, k, b)))
        && (if b == 0 then parentNode == None && stack == []
            else parentNode.Some? && stack + [parentNode.value] == NodesTo(H, t, k, b))
    {
      hide NodeOf;
      hide Path;
      hide Rest;
      hide PathOf;
      hide ClearedAt;
      hide Cleared;
      ClearPlan(H, t, k);
      var key, stack := k, path;
      var lastNode := stack[|stack| - 1];
      stack := stack[..|stack| - 1];
      var parentNode := Some(stack[|stack| - 1]);
      stack := stack[..|stack| - 1];
      if lastNode.BranchNode? {
        lastNode := BranchNode(lastNode.branches, NULL);
      } else {
        if !parentNode.value.BranchNode? {
          return Err(ExpectedBranchNode);
        }
        key := key[..|key| - |lastNode.lkey|];
        var branchKey := key[|key| - 1];
        key := key[..|key| - 1];
        lastNode := BranchNode(parentNode.value.branches[branchKey := NULL], parentNode.value.bvalue);
        if |stack| == 0 {
          parentNode := None;
        } else {
          parentNode := Some(stack[|stack| - 1]);
          stack := stack[..|stack| - 1];
        }
      }
      return Ok((key, lastNode, parentNode, stack));
    }

    /** `processBranchNode`: the only child left takes the place of its branch, and of an
        extension above it. */
    method ProcessBranchNode(oldKey: Nibbles, branchKey: Nibble, branchNode: Node, parentNode: Option<Node>,
                             oldStack: seq<Node>, ghost x: Tree)
      returns (key: Nibbles, stack: seq<Node>)
      requires x != Empty && branchNode == NodeOf(H, x)
      requires parentNode.Some? ==> !parentNode.value.LeafNode?
      ensures key == oldKey + [branchKey] + if x.Branch? then [] else x.key
      ensures parentNode.Some? && parentNode.value.ExtensionNode? ==>
                stack == oldStack + Collapsed(H, parentNode.value.ekey + [branchKey], x, parentNode.value.child)
      ensures parentNode.Some? && parentNode.value.BranchNode? ==>
                stack == oldStack + [parentNode.value] + Collapsed(H, [branchKey], x, NULL)
      ensures parentNode.None? ==> stack == oldStack + Collapsed(H, [branchKey], x, NULL)
    {
      key, stack := oldKey, oldStack;
      assert key + [branchKey] + [] == key + [branchKey];
      if parentNode.None? || parentNode.value.BranchNode? {
        if parentNode.Some? {
          stack := stack + [parentNode.value];
        }
        match branchNode {
          case BranchNode(_, _) =>
            stack := stack + [ExtensionNode([branchKey], NULL)];
            key := key + [branchKey];
            stack := stack + [branchNode];
          case ExtensionNode(ekey, child) =>
            stack := stack + [ExtensionNode([branchKey] + ekey, child)];
            key := key + ([branchKey] + ekey);
          case LeafNode(lkey, value) =>
            stack := stack + [LeafNode([branchKey] + lkey, value)];
            key := key + ([branchKey] + lkey);
        }
      } else {
        var parentKey := parentNode.value.ekey;
        if !x.Branch? { Assoc(parentKey, [branchKey], x.key); }
        match branchNode {
          case BranchNode(_, _) =>
            parentKey := parentKey + [branchKey];
            key := key + [branchKey];
            stack := stack + [ExtensionNode(parentKey, parentNode.value.child)];
            stack := stack + [branchNode];
          case ExtensionNode(ekey, child) =>
            key := key + ([branchKey] + ekey);
            parentKey := parentKey + ([branchKey] + ekey);
            stack := stack + [ExtensionNode(parentKey, child)];
          case LeafNode(lkey, value) =>
            key := key + ([branchKey] + lkey);
            parentKey := parentKey + ([branchKey] + lkey);
            stack := stack + [LeafNode(parentKey, value)];
        }
      }
    }

    /** `_deleteNode`: removes what the path found ends on. */
    method DeleteNode(k: Bytes, path: seq<Node>) returns (r: Result<(), TrieError>)
      requires Valid() && tree != Empty && WellFormed(tree) && Reaches(tree, BufferToNibbles(k))
      requires CollisionFree(H, Involved(H, db.State().current, Delete(tree, BufferToNibbles(k))))
      requires PathOf(H, tree, BufferToNibbles(k)).stack == path
      modifies this`root, this`tree, db
      ensures r.Ok? && Valid()
      ensures WellFormed(old(tree)) && tree == Delete(old(tree), BufferToNibbles(k))
      ensures db.State().saved == old(db.State().saved)
      ensures Grown(H, old(db.State().current), db.State().current, tree)
    {
      hide NodeOf;
      hide Open;
      hide RootStrings;
      hide NodeStrings;
      hide CollisionFree;
      hide Involved;
      hide OwnAll;
      hide Ready;
      hide Writes;
      hide BufferToNibbles;
      hide Path;
      hide Rest;
      hide Reaches;
      hide Plug;
      hide Upper;
      hide Delete;
      hide Shape;
      hide PathOf;
      hide ClearedAt;
      hide ClearedPlace;
      hide Cleared;
      hide Collapsed;
      var key := BufferToNibbles(k);
      ghost var t := tree;
      AtRoot(H, t, key);
      DeleteShape(t, key, MAX_KEY);
      if |path| == 1 {
        root := EmptyRoot(H);
        tree := Empty;
        EmptySound(H, db.State().current);
        return Ok(());
      }
      var cleared := ClearEnd(key, path, t);
      if cleared.Err? {
        return Err(ExpectedBranchNode);
      }
      var (shortKey, lastNode, parentNode, stack) := cleared.value;
      ClearedIsBranch(H, t, key);
      var branchNodes := GetChildren(lastNode.branches);
      if |branchNodes| == 1 {
        var (branchKey, branchNode) := branchNodes[0];
        assert branchNodes[0] in branchNodes;
        ghost var x := OnlyChild(H, db.State().current, root, t, key, lastNode, branchKey);
        var found := LookupNode(branchNode);
        if found.Err? {
          return Err(MissingNode);
        }
        ghost var s, y := CollapsePlan(H, t, key, shortKey, parentNode, stack, branchKey, x);
        var newKey, newStack := ProcessBranchNode(shortKey, branchKey, found.value, parentNode, stack, x);
        SaveTree(newKey, newStack, [], s, y);
      } else {
        ghost var s, y := KeepPlan(H, t, key, shortKey, parentNode, stack);
        if parentNode.Some? {
          stack := stack + [parentNode.value];
        }
        stack := stack + [lastNode];
        SaveTree(shortKey, stack, [], s, y);
      }
      r := Ok(());
    }

    // ---------- the public operations ----------

    /** `get` on the trie itself. */
    method GetValue(key: Bytes) returns (value: Option<Item>)
      requires Valid()
      modifies db
      ensures Valid() && db.State() == old(db.State())
      ensures WellFormed(tree) && value == AsItem(Lookup(tree, BufferToNibbles(key)))
    {
      ghost var before := db.State();
      CompleteIsHonest(H, before.current, tree, root);
      var r := Get(key, false, tree);
      value := r.value;
    }

    /** `put`: an empty value deletes; otherwise the key is bound to the value. */
    method Put(key: Bytes, value: Bytes) returns (r: Result<(), TrieError>)
      requires Valid() && |value| < SIZE_LIMIT && 2 * |key| <= MAX_KEY
      requires WellFormed(tree)
      requires CollisionFree(H, Involved(H, db.State().current, PutTree(tree, BufferToNibbles(key), value)))
      modifies this`root, this`tree, db
      ensures r.Ok? && Valid()
      ensures WellFormed(old(tree)) && tree == PutTree(old(tree), BufferToNibbles(key), value)
      ensures db.State().saved == old(db.State().saved)
      ensures Grown(H, old(db.State().current), db.State().current, tree)
    {
      hide NodeOf;
      hide RootStrings;
      hide CollisionFree;
      hide Involved;
      hide BufferToNibbles;
      hide Insert;
      hide Delete;
      hide Lookup;
      hide Shape;
      if |value| == 0 {
        r := Del(key);
        return;
      }
      ghost var before := db.State();
      CompleteIsHonest(H, before.current, tree, root);
      RootTellsEmpty(H, before.current, root, tree);
      if root == EmptyRoot(H) {
        CreateInitialNode(key, value);
        return Ok(());
      }
      var found := FindPath(key, false, tree);
      PathOfParts(H, tree, BufferToNibbles(key));
      r := UpdateNode(key, value, found.value.remaining, found.value.stack);
    }

    /** `del`: removes what the search for the key ends on, if it ends on a node. */
    method Del(key: Bytes) returns (r: Result<(), TrieError>)
      requires Valid() && WellFormed(tree)
      requires CollisionFree(H, Involved(H, db.State().current, Delete(tree, BufferToNibbles(key))))
      modifies this`root, this`tree, db
      ensures r.Ok? && Valid()
      ensures WellFormed(old(tree)) && tree == Delete(old(tree), BufferToNibbles(key))
      ensures db.State().saved == old(db.State().saved)
      ensures Grown(H, old(db.State().current), db.State().current, tree)
    {
      hide NodeOf;
      hide RootStrings;
      hide CollisionFree;
      hide Involved;
      hide BufferToNibbles;
      hide Lookup;
      hide Shape;
      ghost var before := db.State();
      CompleteIsHonest(H, before.current, tree, root);
      var found := FindPath(key, false, tree);
      if tree != Empty { PathOfParts(H, tree, BufferToNibbles(key)); }
      if found.value.node.Some? {
        r := DeleteNode(key, found.value.stack);
      } else {
        r := Ok(());
      }
    }

    method Checkpoint()
      requires Valid()
      modifies this`savedTrees, db
      ensures Valid() && tree == old(tree) && savedTrees == old(savedTrees) + [tree]
      ensures db.State() == old(db.State()).Checkpoint(root)
    {
      db.AddCheckpoint(root);
      savedTrees := savedTrees + [tree];
    }

    method Commit() returns (r: Result<(), TrieError>)
      requires Valid()
      modifies this`savedTrees, db
      ensures Valid() && tree == old(tree)
      ensures r.Ok? <==> old(savedTrees) != []
      ensures savedTrees == if r.Ok? then old(savedTrees)[..|old(savedTrees)| - 1] else old(savedTrees)
      ensures old(db.State()).saved != [] ==> db.State() == old(db.State()).Commit()
      ensures old(db.State()).saved == [] ==> db.State() == old(db.State())
    {
      if !db.IsCheckpoint() {
        return Err(NotCheckpointed);
      }
      db.Commit();
      savedTrees := savedTrees[..|savedTrees| - 1];
      r := Ok(());
    }

    method Revert() returns (r: Result<(), TrieError>)
      requires Valid()
      modifies this`root, this`tree, this`savedTrees, db
      ensures Valid()
      ensures r.Ok? <==> old(savedTrees) != []
      ensures r.Err? ==> tree == old(tree) && savedTrees == old(savedTrees)
      ensures r.Ok? ==>
                && tree == old(savedTrees)[|old(savedTrees)| - 1]
                && savedTrees == old(savedTrees)[..|old(savedTrees)| - 1]
      ensures old(db.State()).saved != [] ==> db.State() == old(db.State()).Revert()
      ensures old(db.State()).saved == [] ==> db.State() == old(db.State())
    {
      if !db.IsCheckpoint() {
        return Err(NotCheckpointed);
      }
      ghost var n := |savedTrees| - 1;
      root := db.Revert();
      tree := savedTrees[n];
      savedTrees := savedTrees[..n];
      r := Ok(());
    }
  }
}
