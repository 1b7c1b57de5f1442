/** What writing node strings, each under its own hash, does to a store. */
module TrieStores {
  import opened ByteStrings
  import opened Rlp
  import opened Trees
  import opened TrieNodes
  import opened CheckpointDbs

  /** Every operation files a string under its hash. */
  ghost predicate Filed(H: HashFn, ops: seq<BatchOp>) {
    forall i :: 0 <= i < |ops| ==> ops[i].Put? && ops[i].key == Digest(H, ops[i].value)
  }

  ghost function Values(ops: seq<BatchOp>): set<Bytes> {
    if ops == [] then {}
    else Values(ops[..|ops| - 1]) + if ops[|ops| - 1].Put? then {ops[|ops| - 1].value} else {}
  }

  lemma ValuesPush(ops: seq<BatchOp>, key: Bytes, value: Bytes)
    ensures Values(ops + [Put(key, value)]) == Values(ops) + {value}
  {
    assert (ops + [Put(key, value)])[..|ops|] == ops;
  }

  ghost predicate Keeps(before: Store, after: Store) {
    forall k :: k in before ==> k in after && after[k] == before[k]
  }

  lemma {:induction false} BatchStores(H: HashFn, s: Snapshots, ops: seq<BatchOp>, all: set<Bytes>)
    requires Filed(H, ops) && HashKeyed(H, s.current) && CollisionFree(H, all)
    requires s.current.Values <= all && Values(ops) <= all
    ensures var r := s.Batch(ops).current;
      && HashKeyed(H, r) && Keeps(s.current, r) && Complete(H, r, Values(ops))
      && r.Values <= s.current.Values + Values(ops)
    ensures s.Batch(ops).saved == s.saved
    decreases |ops|
  {
    if ops != [] {
      var front := ops[..|ops| - 1];
      var op := ops[|ops| - 1];
      BatchStores(H, s, front, all);
      OneStores(H, s.Batch(front).current, op.value, all);
    }
  }

  lemma OneStores(H: HashFn, view: Store, value: Bytes, all: set<Bytes>)
    requires HashKeyed(H, view) && CollisionFree(H, all) && view.Values <= all && value in all
    ensures var r := view[Digest(H, value) := value];
      HashKeyed(H, r) && Keeps(view, r) && r.Values <= view.Values + {value}
  {
    hide Digest;
    var d := Digest(H, value);
    if d in view {
      assert view[d] in view.Values;
      assert NoCollision(H, view[d], value);
    }
  }

  lemma KeepsComplete(H: HashFn, before: Store, after: Store, strings: set<Bytes>)
    requires Complete(H, before, strings) && Keeps(before, after)
    ensures Complete(H, after, strings)
  {
    hide Digest;
  }

  const MAX_KEY := SIZE_LIMIT - 1

  /** A root and a store that together hold this tree, completely. */
  ghost predicate Sound(H: HashFn, view: Store, root: Bytes, t: Tree) {
    && Shape(t, MAX_KEY) && root == RootHash(H, t)
    && Complete(H, view, RootStrings(H, t)) && HashKeyed(H, view) && EmptyRoot(H) !in view
  }

  /** The strings among which a write of the tree t must not produce a hash collision. */
  ghost function Involved(H: HashFn, view: Store, t: Tree): set<Bytes> {
    view.Values + RootStrings(H, t) + {Encode(NULL)}
  }

  lemma {:induction false} LongStrings(H: HashFn, t: Tree)
    ensures forall s :: s in NodeStrings(H, t) ==> |s| >= 32
    decreases t
  {
    hide NodeOf;
    match t
    case Empty =>
    case Leaf(_, _) =>
    case Ext(_, child) => LongStrings(H, child);
    case Branch(children, _) =>
      forall i: nat | i < |children| ensures forall s :: s in NodeStrings(H, children[i]) ==> |s| >= 32 {
        LongStrings(H, children[i]);
      }
  }

  lemma NoNullString(H: HashFn, t: Tree)
    requires Shape(t, MAX_KEY)
    ensures Encode(NULL) !in RootStrings(H, t)
  {
    hide NodeOf;
    LongStrings(H, t);
    assert |Encode(NULL)| == 1;
    if t != Empty {
      NodeFits(H, t, MAX_KEY);
      NodeRoundTrip(NodeOf(H, t));
    }
  }

  lemma NoEmptyRoot(H: HashFn, view: Store, after: Store, t: Tree)
    requires EmptyRoot(H) !in view && HashKeyed(H, after) && Shape(t, MAX_KEY)
    requires CollisionFree(H, Involved(H, view, t)) && after.Values <= view.Values + RootStrings(H, t)
    requires HashKeyed(H, view)
    ensures EmptyRoot(H) !in after
  {
    hide Digest;
    hide RootStrings;
    NoNullString(H, t);
    forall v | v in view.Values ensures v != Encode(NULL) {
      var k :| k in view && view[k] == v;
      assert k != EmptyRoot(H);
    }
    forall k | k in after ensures k != EmptyRoot(H) {
      assert after[k] in after.Values;
      assert NoCollision(H, after[k], Encode(NULL));
    }
  }

  /** A store only ever gains strings of the tree being written. */
  ghost predicate Grown(H: HashFn, before: Store, after: Store, t: Tree) {
    after.Values <= before.Values + RootStrings(H, t)
  }

  /** Writing the new strings of a tree keeps the store sound for it. */
  lemma SoundAfter(H: HashFn, s: Snapshots, ops: seq<BatchOp>, before: Tree, t: Tree)
    requires HashKeyed(H, s.current) && EmptyRoot(H) !in s.current && Shape(t, MAX_KEY)
    requires Complete(H, s.current, NodeStrings(H, before))
    requires Filed(H, ops) && CollisionFree(H, Involved(H, s.current, t))
    requires Values(ops) <= RootStrings(H, t) <= NodeStrings(H, before) + Values(ops)
    ensures Sound(H, s.Batch(ops).current, RootHash(H, t), t)
    ensures Keeps(s.current, s.Batch(ops).current) && s.Batch(ops).saved == s.saved
    ensures Grown(H, s.current, s.Batch(ops).current, t)
  {
    hide Digest;
    hide RootStrings;
    hide NodeStrings;
    BatchStores(H, s, ops, Involved(H, s.current, t));
    var after := s.Batch(ops).current;
    KeepsComplete(H, s.current, after, NodeStrings(H, before));
    NoEmptyRoot(H, s.current, after, t);
  }
}
