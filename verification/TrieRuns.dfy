/**
 * Whole runs of put, del, checkpoint, commit and revert (checkpointTrie.ts over baseTrie.ts):
 * the trie is a stack of maps, and its root is a function of the current map.
 */
module TrieRuns {
  import opened ByteStrings
  import opened NibblePaths
  import opened Rlp
  import opened Trees
  import opened CanonicalTrees
  import opened TreeDeletion
  import opened TrieNodes
  import opened TrieStores
  import opened Tries

  datatype Op = Put(key: Bytes, value: Bytes) | Del(key: Bytes) | Checkpoint | Commit | Revert

  // ---------- what a run does to the tree ----------

  datatype TreeState = TreeState(tree: Tree, saved: seq<Tree>)

  ghost predicate Shaped(s: TreeState) {
    Shape(s.tree, MAX_KEY) && forall i :: 0 <= i < |s.saved| ==> Shape(s.saved[i], MAX_KEY)
  }

  ghost predicate Fitting(op: Op) {
    match op
    case Put(key, value) => 2 * |key| <= MAX_KEY && |value| < SIZE_LIMIT
    case _ => true
  }

  lemma PutTreeShape(t: Tree, key: Bytes, value: Bytes)
    requires Shape(t, MAX_KEY) && Fitting(Op.Put(key, value))
    ensures WellFormed(t) && Shape(PutTree(t, BufferToNibbles(key), value), MAX_KEY)
  {
    DeleteShape(t, BufferToNibbles(key), MAX_KEY);
    if value != [] { InsertShape(t, BufferToNibbles(key), value, MAX_KEY); }
  }

  /** A commit or a revert outside any checkpoint throws and changes nothing. */
  ghost function StepTree(s: TreeState, op: Op): (r: TreeState)
    requires Shaped(s) && Fitting(op)
    ensures Shaped(r)
  {
    ShapeWellFormed(s.tree, MAX_KEY);
    match op
    case Put(key, value) =>
      PutTreeShape(s.tree, key, value);
      s.(tree := PutTree(s.tree, BufferToNibbles(key), value))
    case Del(key) =>
      DeleteShape(s.tree, BufferToNibbles(key), MAX_KEY);
      s.(tree := Delete(s.tree, BufferToNibbles(key)))
    case Checkpoint => s.(saved := s.saved + [s.tree])
    case Commit => if s.saved == [] then s else s.(saved := s.saved[..|s.saved| - 1])
    case Revert => if s.saved == [] then s else TreeState(s.saved[|s.saved| - 1], s.saved[..|s.saved| - 1])
  }

  ghost function RunTree(s: TreeState, ops: seq<Op>): (r: TreeState)
    requires Shaped(s) && forall i :: 0 <= i < |ops| ==> Fitting(ops[i])
    ensures Shaped(r)
    decreases |ops|
  {
    if ops == [] then s else RunTree(StepTree(s, ops[0]), ops[1..])
  }

  // ---------- what it should do to maps ----------

  datatype MapState = MapState(current: map<Nibbles, Bytes>, saved: seq<map<Nibbles, Bytes>>)

  function StepMap(m: MapState, op: Op): MapState {
    match op
    case Put(key, value) =>
      var k := BufferToNibbles(key);
      m.(current := if value == [] then m.current - {k} else m.current[k := value])
    case Del(key) => m.(current := m.current - {BufferToNibbles(key)})
    case Checkpoint => m.(saved := m.saved + [m.current])
    case Commit => if m.saved == [] then m else m.(saved := m.saved[..|m.saved| - 1])
    case Revert => if m.saved == [] then m else MapState(m.saved[|m.saved| - 1], m.saved[..|m.saved| - 1])
  }

  function RunMap(m: MapState, ops: seq<Op>): MapState
    decreases |ops|
  {
    if ops == [] then m else RunMap(StepMap(m, ops[0]), ops[1..])
  }

  /** The key an operation deletes under, if it is a deletion. */
  function Deleted(op: Op): Option<Nibbles> {
    match op
    case Del(key) => Some(BufferToNibbles(key))
    case Put(key, value) => if value == [] then Some(BufferToNibbles(key)) else None
    case _ => None
  }

  /** The guard of the branches in which `_deleteNode` goes wrong. */
  ghost predicate SafeDelete(t: Tree, k: Nibbles)
    requires WellFormed(t)
  {
    ValueAbove(t, k) !in {1, 2} && !(t.Branch? && k == [])
  }

  ghost predicate Safe(s: TreeState, ops: seq<Op>)
    requires Shaped(s) && forall i :: 0 <= i < |ops| ==> Fitting(ops[i])
    decreases |ops|
  {
    ops == [] ||
    (ShapeWellFormed(s.tree, MAX_KEY);
     && (Deleted(ops[0]).Some? ==> SafeDelete(s.tree, Deleted(ops[0]).value))
     && Safe(StepTree(s, ops[0]), ops[1..]))
  }

  // ---------- refinement ----------

  ghost predicate Faithful(t: Tree, m: map<Nibbles, Bytes>) {
    Canonical(t) && (CanonicalWellFormed(t); Holds(t, m))
  }

  ghost predicate Refines(s: TreeState, m: MapState) {
    && Faithful(s.tree, m.current) && |s.saved| == |m.saved|
    && forall i :: 0 <= i < |s.saved| ==> Faithful(s.saved[i], m.saved[i])
  }

  lemma InsertFaithful(t: Tree, m: map<Nibbles, Bytes>, k: Nibbles, v: Bytes)
    requires Faithful(t, m) && v != []
    ensures WellFormed(t) && Faithful(Insert(t, k, v), m[k := v])
  {
    InsertCanonical(t, k, v);
    forall q
      ensures WellFormed(Insert(t, k, v)) && Lookup(Insert(t, k, v), q) == if q == k then Some(v) else Lookup(t, q)
    {
      InsertLookup(t, k, v, q);
    }
  }

  lemma DeleteFaithful(t: Tree, m: map<Nibbles, Bytes>, k: Nibbles)
    requires Faithful(t, m) && WellFormed(t) && SafeDelete(t, k)
    ensures Faithful(Delete(t, k), m - {k})
  {
    DeleteCorrectIff(t, k);
    DeleteCanonicalIff(t, k);
  }

  lemma StepRefines(s: TreeState, m: MapState, op: Op)
    requires Shaped(s) && Fitting(op) && Refines(s, m) && WellFormed(s.tree)
    requires Deleted(op).Some? ==> SafeDelete(s.tree, Deleted(op).value)
    ensures Refines(StepTree(s, op), StepMap(m, op))
  {
    hide Faithful;
    match op
    case Put(key, value) =>
      if value == [] {
        DeleteFaithful(s.tree, m.current, BufferToNibbles(key));
      } else {
        InsertFaithful(s.tree, m.current, BufferToNibbles(key), value);
      }
    case Del(key) => DeleteFaithful(s.tree, m.current, BufferToNibbles(key));
    case Checkpoint =>
    case Commit =>
    case Revert =>
  }

  /** Every run whose deletions are safe refines the run on maps, checkpoints nested at will. */
  lemma {:induction false} RunRefines(s: TreeState, m: MapState, ops: seq<Op>)
    requires Shaped(s) && (forall i :: 0 <= i < |ops| ==> Fitting(ops[i]))
    requires Refines(s, m) && Safe(s, ops)
    ensures Refines(RunTree(s, ops), RunMap(m, ops))
    decreases |ops|
  {
    if ops != [] {
      ShapeWellFormed(s.tree, MAX_KEY);
      StepRefines(s, m, ops[0]);
      RunRefines(StepTree(s, ops[0]), StepMap(m, ops[0]), ops[1..]);
    }
  }

  // ---------- prefix-free keys ----------

  ghost predicate PrefixFreeKeys(keys: iset<Bytes>) {
    forall a, b :: a in keys && b in keys && a <= b ==> a == b
  }

  ghost predicate Uses(op: Op, keys: iset<Bytes>) {
    match op
    case Put(key, _) => key in keys
    case Del(key) => key in keys
    case _ => true
  }

  ghost predicate KeysFrom(m: map<Nibbles, Bytes>, keys: iset<Bytes>) {
    forall k :: k in m ==> exists key :: key in keys && k == BufferToNibbles(key)
  }

  ghost predicate AllKeysFrom(m: MapState, keys: iset<Bytes>) {
    KeysFrom(m.current, keys) && forall i :: 0 <= i < |m.saved| ==> KeysFrom(m.saved[i], keys)
  }

  lemma PrefixFreeSafe(t: Tree, m: map<Nibbles, Bytes>, keys: iset<Bytes>, key: Bytes)
    requires Faithful(t, m) && KeysFrom(m, keys) && PrefixFreeKeys(keys)
    requires key in keys && key != []
    ensures WellFormed(t) && SafeDelete(t, BufferToNibbles(key))
  {
    CanonicalWellFormed(t);
    var k := BufferToNibbles(key);
    assert |k| == 2 * |key|;
    if ValueAbove(t, k) > 0 {
      var q := ValueAboveIsPrefix(t, k);
      var other :| other in keys && q == BufferToNibbles(other);
      NibblePrefix(other, key);
    }
  }

  lemma StepKeys(m: MapState, op: Op, keys: iset<Bytes>)
    requires AllKeysFrom(m, keys) && Uses(op, keys)
    ensures AllKeysFrom(StepMap(m, op), keys)
  {
    match op
    case Put(key, value) => PutKeys(m.current, key, value, keys);
    case Del(key) =>
    case Checkpoint =>
    case Commit =>
    case Revert =>
  }

  lemma PutKeys(m: map<Nibbles, Bytes>, key: Bytes, value: Bytes, keys: iset<Bytes>)
    requires KeysFrom(m, keys) && key in keys
    ensures KeysFrom(m[BufferToNibbles(key) := value], keys)
  {}

  lemma {:induction false} PrefixFreeRunSafe(s: TreeState, m: MapState, ops: seq<Op>, keys: iset<Bytes>)
    requires Shaped(s) && (forall i :: 0 <= i < |ops| ==> Fitting(ops[i]))
    requires Refines(s, m) && AllKeysFrom(m, keys)
    requires PrefixFreeKeys(keys) && [] !in keys && forall i :: 0 <= i < |ops| ==> Uses(ops[i], keys)
    ensures Safe(s, ops)
    decreases |ops|
  {
    if ops != [] {
      ShapeWellFormed(s.tree, MAX_KEY);
      if Deleted(ops[0]).Some? { PrefixFreeSafe(s.tree, m.current, keys, ops[0].key); }
      StepRefines(s, m, ops[0]);
      StepKeys(m, ops[0], keys);
      PrefixFreeRunSafe(StepTree(s, ops[0]), StepMap(m, ops[0]), ops[1..], keys);
    }
  }

  const INITIAL := TreeState(Empty, [])

  /** From the empty trie, any run over non-empty keys from a prefix-free set behaves as the
      stack of maps does and keeps the trie canonical. */
  lemma PrefixFreeRunRefines(ops: seq<Op>, keys: iset<Bytes>)
    requires forall i :: 0 <= i < |ops| ==> Fitting(ops[i]) && Uses(ops[i], keys)
    requires PrefixFreeKeys(keys) && [] !in keys
    ensures Refines(RunTree(INITIAL, ops), RunMap(MapState(map[], []), ops))
  {
    var m := MapState(map[], []);
    assert Refines(INITIAL, m);
    PrefixFreeRunSafe(INITIAL, m, ops, keys);
    RunRefines(INITIAL, m, ops);
  }

  /** A run of puts alone refines a map for arbitrary keys. */
  lemma {:induction false} PutsRefine(s: TreeState, m: MapState, ops: seq<Op>)
    requires Shaped(s) && Refines(s, m)
    requires forall i :: 0 <= i < |ops| ==> Fitting(ops[i]) && ops[i].Put? && ops[i].value != []
    ensures Refines(RunTree(s, ops), RunMap(m, ops))
    decreases |ops|
  {
    if ops != [] {
      ShapeWellFormed(s.tree, MAX_KEY);
      StepRefines(s, m, ops[0]);
      PutsRefine(StepTree(s, ops[0]), StepMap(m, ops[0]), ops[1..]);
    }
  }

  /** The root is a function of the current map: histories leave no trace in it. */
  lemma HistoryIndependence(H: HashFn, s: TreeState, t: TreeState, m: MapState, n: MapState)
    requires Refines(s, m) && Refines(t, n) && m.current == n.current
    ensures s.tree == t.tree && RootHash(H, s.tree) == RootHash(H, t.tree)
  {
    CanonicalWellFormed(s.tree);
    CanonicalWellFormed(t.tree);
    CanonicalUnique(s.tree, t.tree);
  }

  /** And the root commits to the map, among strings that do not collide. */
  lemma RootDeterminesMap(H: HashFn, s: TreeState, t: TreeState, m: MapState, n: MapState)
    requires Shaped(s) && Shaped(t) && Refines(s, m) && Refines(t, n)
    requires CollisionFree(H, RootStrings(H, s.tree) + RootStrings(H, t.tree) + {Encode(NULL)})
    ensures RootHash(H, s.tree) == RootHash(H, t.tree) <==> m.current == n.current
  {
    RootCommits(H, s.tree, t.tree, MAX_KEY, MAX_KEY);
    if m.current == n.current {
      HistoryIndependence(H, s, t, m, n);
    }
    if s.tree == t.tree {
      CanonicalWellFormed(s.tree);
      forall k ensures k in m.current <==> k in n.current {
        assert Lookup(s.tree, k) == Lookup(t.tree, k);
      }
      forall k | k in m.current ensures m.current[k] == n.current[k] {
        assert Lookup(s.tree, k) == Lookup(t.tree, k);
      }
    }
  }

  /** The checkpoints opened in a run are the ones it closes, d of them being open already. */
  predicate Nested(ops: seq<Op>, d: nat)
    decreases |ops|
  {
    if ops == [] then d == 0
    else
      match ops[0]
      case Checkpoint => Nested(ops[1..], d + 1)
      case Commit => d > 0 && Nested(ops[1..], d - 1)
      case Revert => d > 0 && Nested(ops[1..], d - 1)
      case _ => Nested(ops[1..], d)
  }

  lemma {:induction false} NestedKeepsSaved(s: TreeState, ops: seq<Op>, d: nat)
    requires Shaped(s) && (forall i :: 0 <= i < |ops| ==> Fitting(ops[i]))
    requires Nested(ops, d) && d <= |s.saved|
    ensures RunTree(s, ops).saved == s.saved[..|s.saved| - d]
    decreases |ops|
  {
    hide PutTree;
    hide Delete;
    if ops != [] {
      var next := StepTree(s, ops[0]);
      var e := match ops[0] case Checkpoint => d + 1 case Commit => d - 1 case Revert => d - 1 case _ => d;
      NestedKeepsSaved(next, ops[1..], e);
      assert next.saved[..|next.saved| - e] == s.saved[..|s.saved| - d];
    } else {
      assert s.saved[..|s.saved|] == s.saved;
    }
  }

  /** Whatever happens after a checkpoint, with inner checkpoints at any depth, a revert
      brings the trie back and a commit keeps it. */
  lemma RevertRestores(s: TreeState, ops: seq<Op>)
    requires Shaped(s) && (forall i :: 0 <= i < |ops| ==> Fitting(ops[i])) && Nested(ops, 0)
    ensures var r := RunTree(StepTree(s, Checkpoint), ops);
      StepTree(r, Revert) == s && StepTree(r, Commit) == TreeState(r.tree, s.saved)
  {
    var start := StepTree(s, Checkpoint);
    NestedKeepsSaved(start, ops, 0);
    SavedTop(s, start, RunTree(start, ops));
  }

  lemma SavedTop(s: TreeState, start: TreeState, r: TreeState)
    requires Shaped(s) && Shaped(r) && start.saved == s.saved + [s.tree] && r.saved == start.saved[..|start.saved| - 0]
    ensures StepTree(r, Revert) == s && StepTree(r, Commit) == TreeState(r.tree, s.saved)
  {
    assert r.saved == s.saved + [s.tree];
    assert r.saved[..|r.saved| - 1] == s.saved;
  }

  // ---------- the object ----------

  ghost predicate InRange(H: HashFn, s: TreeState, ops: seq<Op>, all: set<Bytes>)
    requires Shaped(s) && forall i :: 0 <= i < |ops| ==> Fitting(ops[i])
    decreases |ops|
  {
    RootStrings(H, s.tree) <= all && (ops == [] || InRange(H, StepTree(s, ops[0]), ops[1..], all))
  }

  ghost predicate Holding(trie: Trie, all: set<Bytes>)
    reads trie, trie.db
  {
    var s := trie.db.State();
    s.current.Values <= all && forall i :: 0 <= i < |s.saved| ==> s.saved[i].0.Values <= all
  }

  lemma {:induction false} RunSplit(s: TreeState, ops: seq<Op>, n: nat)
    requires Shaped(s) && (forall i :: 0 <= i < |ops| ==> Fitting(ops[i])) && n < |ops|
    ensures RunTree(s, ops[..n + 1]) == StepTree(RunTree(s, ops[..n]), ops[n])
    decreases n
  {
    if n == 0 {
      assert ops[..1][1..] == [];
    } else {
      RunSplit(StepTree(s, ops[0]), ops[1..], n - 1);
      assert ops[1..][..n] == ops[..n + 1][1..] && ops[1..][..n - 1] == ops[..n][1..];
    }
  }

  lemma {:induction false} InRangeAt(H: HashFn, s: TreeState, ops: seq<Op>, all: set<Bytes>, n: nat)
    requires Shaped(s) && (forall i :: 0 <= i < |ops| ==> Fitting(ops[i])) && n <= |ops|
    requires InRange(H, s, ops, all)
    ensures RootStrings(H, RunTree(s, ops[..n]).tree) <= all
    decreases n
  {
    hide RootStrings;
    if n > 0 {
      InRangeAt(H, StepTree(s, ops[0]), ops[1..], all, n - 1);
      assert ops[1..][..n - 1] == ops[..n][1..];
    }
  }

  /** The object follows one operation. */
  method ExecuteOp(trie: Trie, op: Op, ghost all: set<Bytes>)
    requires trie.Valid() && Fitting(op) && Shaped(TreeState(trie.tree, trie.savedTrees))
    requires CollisionFree(trie.H, all) && Encode(NULL) in all && Holding(trie, all)
    requires RootStrings(trie.H, StepTree(TreeState(trie.tree, trie.savedTrees), op).tree) <= all
    modifies trie, trie.db
    ensures trie.Valid() && Holding(trie, all)
    ensures TreeState(trie.tree, trie.savedTrees) == StepTree(old(TreeState(trie.tree, trie.savedTrees)), op)
  {
    hide RootStrings;
    hide CollisionFree;
    hide Involved;
    hide Insert;
    hide Delete;
    hide Shape;
    hide Sound;
    hide BufferToNibbles;
    ShapeWellFormed(trie.tree, MAX_KEY);
    ghost var next := StepTree(TreeState(trie.tree, trie.savedTrees), op);
    InvolvedSafe(trie.H, trie.db.State().current, next.tree, all);
    match op {
      case Put(key, value) => var _ := trie.Put(key, value);
      case Del(key) => var _ := trie.Del(key);
      case Checkpoint => trie.Checkpoint();
      case Commit => var _ := trie.Commit();
      case Revert => var _ := trie.Revert();
    }
  }

  /** The object follows the run step for step, as long as the strings of the trees it passes
      through, and those it already holds, do not collide. */
  method Execute(trie: Trie, ops: seq<Op>, ghost all: set<Bytes>)
    requires trie.Valid() && (forall i :: 0 <= i < |ops| ==> Fitting(ops[i]))
    requires Shaped(TreeState(trie.tree, trie.savedTrees))
    requires CollisionFree(trie.H, all) && Encode(NULL) in all && Holding(trie, all)
    requires InRange(trie.H, TreeState(trie.tree, trie.savedTrees), ops, all)
    modifies trie, trie.db
    ensures trie.Valid()
    ensures TreeState(trie.tree, trie.savedTrees) == RunTree(old(TreeState(trie.tree, trie.savedTrees)), ops)
  {
    hide RootStrings;
    hide CollisionFree;
    hide Holding;
    hide StepTree;
    hide RunTree;
    hide InRange;
    RunNothing(TreeState(trie.tree, trie.savedTrees), ops);
    ghost var start := TreeState(trie.tree, trie.savedTrees);
    for n := 0 to |ops|
      invariant trie.Valid() && Holding(trie, all)
      invariant TreeState(trie.tree, trie.savedTrees) == RunTree(start, ops[..n])
    {
      RunSplit(start, ops, n);
      InRangeAt(trie.H, start, ops, all, n + 1);
      ExecuteOp(trie, ops[n], all);
    }
    assert ops[..|ops|] == ops;
  }

  /** What a map binds a key to. */
  function Binding(m: map<Nibbles, Bytes>, key: Bytes): Option<Item> {
    var k := BufferToNibbles(key);
    if k in m then Some(Str(m[k])) else None
  }

  lemma HeldBinding(t: Tree, m: map<Nibbles, Bytes>, key: Bytes)
    requires Faithful(t, m) && WellFormed(t)
    ensures AsItem(Lookup(t, BufferToNibbles(key))) == Binding(m, key)
  {}

  /** End to end: a new trie, any run over non-empty keys from a prefix-free set, and then `get`
      of any key, which returns what the stack of maps binds it to. */
  method ExecuteAndGet(H: HashFn, ops: seq<Op>, key: Bytes, ghost keys: iset<Bytes>, ghost all: set<Bytes>)
    returns (value: Option<Item>)
    requires forall i :: 0 <= i < |ops| ==> Fitting(ops[i]) && Uses(ops[i], keys)
    requires PrefixFreeKeys(keys) && [] !in keys
    requires CollisionFree(H, all) && Encode(NULL) in all && InRange(H, INITIAL, ops, all)
    ensures value == Binding(RunMap(MapState(map[], []), ops).current, key)
  {
    hide CollisionFree;
    hide InRange;
    hide RunTree;
    hide RunMap;
    hide Faithful;
    hide PrefixFreeKeys;
    hide BufferToNibbles;
    hide RootStrings;
    var trie := new Trie(H);
    Execute(trie, ops, all);
    PrefixFreeRunRefines(ops, keys);
    value := trie.GetValue(key);
    HeldBinding(trie.tree, RunMap(MapState(map[], []), ops).current, key);
  }

  lemma RunNothing(s: TreeState, ops: seq<Op>)
    requires Shaped(s)
    ensures RunTree(s, ops[..0]) == s
  {}

  lemma InvolvedSafe(H: HashFn, view: Store, t: Tree, all: set<Bytes>)
    requires CollisionFree(H, all) && view.Values <= all && RootStrings(H, t) <= all && Encode(NULL) in all
    ensures CollisionFree(H, Involved(H, view, t))
  {
    hide RootStrings;
    forall a, b | a in Involved(H, view, t) && b in Involved(H, view, t) ensures NoCollision(H, a, b) {}
  }
}
