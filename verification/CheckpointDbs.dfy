/**
 * The checkpointed store (checkpointDb.ts over db.ts): overlays of pending writes over a
 * disk, with reads cached in the top overlay. It refines a stack of full snapshots.
 */
module CheckpointDbs {
  import opened ByteStrings

  type Table = map<Bytes, Bytes>

  /** A null value in an overlay is a pending deletion or a cached miss. */
  type Overlay = map<Bytes, Option<Bytes>>

  datatype Checkpoint = Checkpoint(keyValueMap: Overlay, root: Bytes)

  datatype BatchOp = Put(key: Bytes, value: Bytes) | Del(key: Bytes)

  ghost function Apply(base: Table, top: Overlay): Table {
    map k | k in base.Keys + top.Keys && (k in top ==> top[k].Some?) ::
      if k in top then top[k].value else base[k]
  }

  /** The contents seen through all overlays. */
  ghost function ViewOf(checkpoints: seq<Checkpoint>, disk: Table): Table {
    if checkpoints == [] then disk
    else Apply(ViewOf(checkpoints[..|checkpoints| - 1], disk), checkpoints[|checkpoints| - 1].keyValueMap)
  }

  ghost function Find(t: Table, key: Bytes): Option<Bytes> {
    if key in t then Some(t[key]) else None
  }

  /** The abstract state: the current contents, and at each checkpoint the contents then. */
  datatype Snapshots = Snapshots(current: Table, saved: seq<(Table, Bytes)>) {
    function Put(key: Bytes, value: Bytes): Snapshots { this.(current := current[key := value]) }
    function Del(key: Bytes): Snapshots { this.(current := current - {key}) }
    function Do(op: BatchOp): Snapshots {
      match op
      case Put(k, v) => this.Put(k, v)
      case Del(k) => this.Del(k)
    }
    function Batch(ops: seq<BatchOp>): Snapshots
      decreases |ops|
    {
      if ops == [] then this else Batch(ops[..|ops| - 1]).Do(ops[|ops| - 1])
    }
    function Checkpoint(root: Bytes): Snapshots { this.(saved := saved + [(current, root)]) }
    function Commit(): Snapshots
      requires saved != []
    {
      this.(saved := saved[..|saved| - 1])
    }
    function Revert(): Snapshots
      requires saved != []
    {
      Snapshots(saved[|saved| - 1].0, saved[..|saved| - 1])
    }
  }

  ghost function Abstract(checkpoints: seq<Checkpoint>, disk: Table): Snapshots {
    Snapshots(ViewOf(checkpoints, disk),
              seq(|checkpoints|, i requires 0 <= i < |checkpoints| =>
                (ViewOf(checkpoints[..i], disk), checkpoints[i].root)))
  }

  /** Only the top overlay changed: saved contents are the same. */
  lemma TopChanged(checkpoints: seq<Checkpoint>, top: Overlay, disk: Table)
    requires checkpoints != []
    ensures var n := |checkpoints| - 1;
      var changed := checkpoints[n := checkpoints[n].(keyValueMap := top)];
      Abstract(changed, disk) ==
      Abstract(checkpoints, disk).(current := Apply(ViewOf(checkpoints[..n], disk), top))
  {
    var n := |checkpoints| - 1;
    var changed := checkpoints[n := checkpoints[n].(keyValueMap := top)];
    assert changed[..n] == checkpoints[..n];
    forall i | 0 <= i < |checkpoints| ensures changed[..i] == checkpoints[..i] {}
  }

  /** The part of an overlay outside the pending keys. */
  ghost function Written(top: Overlay, pending: set<Bytes>): Overlay {
    map k | k in top && k !in pending :: top[k]
  }

  lemma NothingWritten(base: Table, top: Overlay)
    ensures Apply(base, Written(top, top.Keys)) == base
  {}

  lemma WrittenMore(top: Overlay, pending: set<Bytes>, key: Bytes)
    requires key in pending && key in top
    ensures Written(top, pending - {key}) == Written(top, pending)[key := top[key]]
  {}

  lemma AllWritten(top: Overlay)
    ensures Written(top, {}) == top
  {}

  /** An empty overlay on top saves what is seen below it. */
  lemma OverlayAdded(checkpoints: seq<Checkpoint>, disk: Table, root: Bytes)
    ensures Abstract(checkpoints + [Checkpoint(map[], root)], disk) == Abstract(checkpoints, disk).Checkpoint(root)
  {
    var more := checkpoints + [Checkpoint(map[], root)];
    assert more[..|checkpoints|] == checkpoints;
    assert Apply(ViewOf(checkpoints, disk), map[]) == ViewOf(checkpoints, disk);
    forall i | 0 <= i < |checkpoints| ensures more[..i] == checkpoints[..i] {}
    assert Abstract(more, disk).saved == Abstract(checkpoints, disk).Checkpoint(root).saved;
  }

  lemma OverlayWrite(base: Table, top: Overlay, key: Bytes, value: Option<Bytes>)
    ensures Apply(base, top[key := value]) ==
            if value.Some? then Apply(base, top)[key := value.value] else Apply(base, top) - {key}
  {}

  lemma {:induction false} MissesFallThrough(checkpoints: seq<Checkpoint>, disk: Table, key: Bytes)
    requires forall c :: c in checkpoints ==> key !in c.keyValueMap
    ensures Find(ViewOf(checkpoints, disk), key) == Find(disk, key)
  {
    if checkpoints != [] {
      MissesFallThrough(checkpoints[..|checkpoints| - 1], disk, key);
    }
  }

  lemma {:induction false} HitDecides(checkpoints: seq<Checkpoint>, disk: Table, key: Bytes, i: nat)
    requires i < |checkpoints| && key in checkpoints[i].keyValueMap
    requires forall j :: i < j < |checkpoints| ==> key !in checkpoints[j].keyValueMap
    ensures Find(ViewOf(checkpoints, disk), key) == checkpoints[i].keyValueMap[key]
  {
    if i < |checkpoints| - 1 {
      HitDecides(checkpoints[..|checkpoints| - 1], disk, key, i);
    }
  }

  /** A cached read, of a hit or of a miss, is invisible. */
  lemma CachedReadInvisible(checkpoints: seq<Checkpoint>, disk: Table, key: Bytes)
    requires checkpoints != [] && forall c :: c in checkpoints ==> key !in c.keyValueMap
    ensures var n := |checkpoints| - 1;
      var top := checkpoints[n].keyValueMap[key := Find(disk, key)];
      Abstract(checkpoints[n := checkpoints[n].(keyValueMap := top)], disk) == Abstract(checkpoints, disk)
  {
    var n := |checkpoints| - 1;
    var top := checkpoints[n].keyValueMap;
    var base := ViewOf(checkpoints[..n], disk);
    MissesFallThrough(checkpoints, disk, key);
    TopChanged(checkpoints, top[key := Find(disk, key)], disk);
    OverlayWrite(base, top, key, Find(disk, key));
    var cur := Apply(base, top);
    assert cur == ViewOf(checkpoints, disk);
    assert Find(disk, key).Some? ==> cur[key := disk[key]] == cur;
    assert Find(disk, key).None? ==> cur - {key} == cur;
  }

  /** Overlays merge: pushing one down a level does not change what is seen through both. */
  lemma MergedOverlay(base: Table, lower: Overlay, upper: Overlay)
    ensures Apply(base, lower + upper) == Apply(Apply(base, lower), upper)
  {}

  lemma {:induction false} BatchAppend(s: Snapshots, ops: seq<BatchOp>, op: BatchOp)
    ensures s.Batch(ops + [op]) == s.Batch(ops).Do(op)
  {
    assert (ops + [op])[..|ops|] == ops;
  }

  class CheckpointDB {
    var disk: Table
    var checkpoints: seq<Checkpoint>

    constructor ()
      ensures State() == Snapshots(map[], [])
    {
      disk := map[];
      checkpoints := [];
    }

    ghost function State(): Snapshots
      reads this
    {
      Abstract(checkpoints, disk)
    }

    predicate IsCheckpoint()
      reads this
      ensures IsCheckpoint() <==> |State().saved| > 0
    {
      |checkpoints| > 0
    }

    method AddCheckpoint(root: Bytes)
      modifies this
      ensures State() == old(State()).Checkpoint(root)
    {
      hide Abstract;
      OverlayAdded(checkpoints, disk, root);
      checkpoints := checkpoints + [Checkpoint(map[], root)];
    }

    /** Reads through the overlays from the top, and caches what it takes from disk. */
    method Get(key: Bytes) returns (value: Option<Bytes>)
      modifies this
      ensures value == Find(State().current, key)
      ensures State() == old(State()) && disk == old(disk)
    {
      var index := |checkpoints|;
      while index > 0
        invariant 0 <= index <= |checkpoints|
        invariant forall j :: index <= j < |checkpoints| ==> key !in checkpoints[j].keyValueMap
        invariant disk == old(disk) && checkpoints == old(checkpoints)
      {
        index := index - 1;
        if key in checkpoints[index].keyValueMap {
          value := checkpoints[index].keyValueMap[key];
          HitDecides(checkpoints, disk, key, index);
          return;
        }
      }
      value := if key in disk then Some(disk[key]) else None;
      MissesFallThrough(checkpoints, disk, key);
      if |checkpoints| > 0 {
        CachedReadInvisible(checkpoints, disk, key);
        WriteTop(key, value);
      }
    }

    method WriteTop(key: Bytes, value: Option<Bytes>)
      requires checkpoints != []
      modifies this`checkpoints
      ensures var n := |old(checkpoints)| - 1;
        checkpoints == old(checkpoints)[n :=
          old(checkpoints)[n].(keyValueMap := old(checkpoints)[n].keyValueMap[key := value])]
      ensures State() == if value.Some? then old(State()).Put(key, value.value) else old(State()).Del(key)
    {
      var n := |checkpoints| - 1;
      var top := checkpoints[n].keyValueMap;
      TopChanged(checkpoints, top[key := value], disk);
      OverlayWrite(ViewOf(checkpoints[..n], disk), top, key, value);
      checkpoints := checkpoints[n := checkpoints[n].(keyValueMap := top[key := value])];
    }

    method Put(key: Bytes, value: Bytes)
      modifies this
      ensures State() == old(State()).Put(key, value)
    {
      if |checkpoints| > 0 {
        WriteTop(key, Some(value));
      } else {
        disk := disk[key := value];
      }
    }

    method Del(key: Bytes)
      modifies this
      ensures State() == old(State()).Del(key)
    {
      if |checkpoints| > 0 {
        WriteTop(key, None);
      } else {
        disk := disk - {key};
      }
    }

    method Batch(ops: seq<BatchOp>)
      modifies this
      ensures State() == old(State()).Batch(ops)
    {
      for i := 0 to |ops|
        invariant State() == old(State()).Batch(ops[..i])
      {
        BatchAppend(old(State()), ops[..i], ops[i]);
        assert ops[..i + 1] == ops[..i] + [ops[i]];
        match ops[i]
        case Put(k, v) => Put(k, v);
        case Del(k) => Del(k);
      }
      assert ops[..|ops|] == ops;
    }

    /** Writes an overlay to disk, key by key in any order, as puts and deletions. */
    method Flush(top: Overlay)
      modifies this`disk
      ensures disk == Apply(old(disk), top)
    {
      hide Apply;
      hide Written;
      var pending := top.Keys;
      NothingWritten(old(disk), top);
      while pending != {}
        invariant pending <= top.Keys && disk == Apply(old(disk), Written(top, pending))
        decreases |pending|
      {
        var key :| key in pending;
        WrittenMore(top, pending, key);
        OverlayWrite(old(disk), Written(top, pending), key, top[key]);
        pending := pending - {key};
        if top[key].Some? {
          disk := disk[key := top[key].value];
        } else {
          disk := disk - {key};
        }
      }
      AllWritten(top);
    }

    /** Flushes the last overlay to disk, or folds it into the one below. */
    method Commit()
      requires IsCheckpoint()
      modifies this
      ensures State() == old(State()).Commit()
    {
      var n := |checkpoints| - 1;
      var top := checkpoints[n].keyValueMap;
      ghost var all := checkpoints;
      checkpoints := checkpoints[..n];
      if n == 0 {
        assert all[..0] == [];
        Flush(top);
        assert ViewOf(all, old(disk)) == Apply(ViewOf(all[..0], old(disk)), top) == disk;
        assert old(State()).Commit() == Snapshots(ViewOf(all, old(disk)), []);
      } else {
        var lower := checkpoints[n - 1].keyValueMap;
        checkpoints := checkpoints[n - 1 := checkpoints[n - 1].(keyValueMap := lower + top)];
        FoldDown(all, disk);
      }
    }

    method Revert() returns (root: Bytes)
      requires IsCheckpoint()
      modifies this
      ensures root == old(State()).saved[|old(State()).saved| - 1].1
      ensures State() == old(State()).Revert()
    {
      var n := |checkpoints| - 1;
      root := checkpoints[n].root;
      ghost var all := checkpoints;
      checkpoints := checkpoints[..n];
      forall i | 0 <= i < n ensures checkpoints[..i] == all[..i] {}
      assert State().saved == old(State()).saved[..n];
    }
  }

  lemma FoldDown(checkpoints: seq<Checkpoint>, disk: Table)
    requires |checkpoints| >= 2
    ensures var n := |checkpoints| - 1;
      var merged := checkpoints[n - 1].keyValueMap + checkpoints[n].keyValueMap;
      Abstract(checkpoints[..n][n - 1 := checkpoints[n - 1].(keyValueMap := merged)], disk)
      == Abstract(checkpoints, disk).Commit()
  {
    var n := |checkpoints| - 1;
    var lower, upper := checkpoints[n - 1].keyValueMap, checkpoints[n].keyValueMap;
    var front := checkpoints[..n];
    var base := ViewOf(front[..n - 1], disk);
    TopChanged(front, lower + upper, disk);
    MergedOverlay(base, lower, upper);
    forall i | 0 <= i < n ensures front[..i] == checkpoints[..i] {}
    assert Abstract(front, disk).saved == Abstract(checkpoints, disk).saved[..n];
  }
}
