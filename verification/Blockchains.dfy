/**
 * The blockchain object (packages/blockchain/src/index.ts): which chain is canonical, and the
 * reorganisation of the number lookups and of the heads when a heavier block arrives.
 */
module Blockchains {
  import opened ByteStrings
  import opened ChainDbs
  import opened Ancestries
  import opened Reorgs

  datatype ChainError = GenesisPut | Rejected | NoParent | InvalidNumber | NotFound | NoAncient

  lemma SavedIrrelevant(g: Hash, ever: Headers, a: Db, b: Db)
    requires a.headers == b.headers && a.td == b.td
    requires a.hashToNumber == b.hashToNumber && a.numberToHash == b.numberToHash
    ensures Consistent(g, ever, a) <==> Consistent(g, ever, b)
    ensures forall h :: CanonicalLine(g, a, h) <==> CanonicalLine(g, b, h)
    ensures forall h :: OnChain(a, h) <==> OnChain(b, h)
  {
    hide Weight;
    hide Linked;
    hide Archive;
  }

  /** The block outweighs the head. */
  ghost predicate Heavier(db: Db, head: Hash, x: Header) {
    && x.number > 0 && ParentId(x) in db.td && GetTotalDifficulty(db, head).Some?
    && db.td[ParentId(x)] + x.difficulty > GetTotalDifficulty(db, head).value
  }

  /** Exactly when a put succeeds, from a state in order. */
  ghost predicate Acceptable(g: Hash, clique: bool, validateBlocks: bool, db: Db, head: Hash, x: Header, accepted: bool)
    requires Named(db.headers) && head in db.hashToNumber
  {
    && x.number > 0 && accepted && ParentId(x) in db.td
    && (validateBlocks ==>
          GetBlock(db, x.parentHash).Some? && x.number == GetBlock(db, x.parentHash).value.number + 1)
    && (clique && Heavier(db, head, x) ==> Linked(g, db.headers, x) && x.number <= Height(db, head) + 2)
  }

  /** The heads that the two steps of a reorganisation leave. */
  ghost function HeadsLeft(db: Db, heads: Heads, x: Header, to: nat): Heads
    requires Named(db.headers)
  {
    var above := Retargeted(heads, Gone(db.numberToHash, x.number + 1, to), x.hash);
    if Completes(db, x) then Retargeted(above, Stale(db.numberToHash, Rewritten(db, x)), LastHash(db, x)) else above
  }

  ghost function HeadBlockLeft(db: Db, x: Header): Hash
    requires Named(db.headers)
  {
    if x.hash in Stale(db.numberToHash, Rewritten(db, x)) then LastHash(db, x) else x.hash
  }

  lemma HeadPut(g: Hash, ever: Headers, db: Db, heads: Heads, head: Hash, x: Header, td: nat, to: nat)
    requires Putable(g, ever, db, x, td) && Reorgs.InOrder(g, db, heads, head, head) && Heavier(db, head, x)
    requires FirstGap(db.numberToHash, x.number + 1, to)
    ensures
      Reorgs.InOrder(g, Reorganised(db, x, td, to), HeadsLeft(db, heads, x, to), x.hash, HeadBlockLeft(db, x)) <==>
      Linked(g, db.headers, x) && x.number <= Height(db, head) + 2
    ensures Linked(g, db.headers, x) && x.number <= Height(db, head) + 2 ==>
              HeadsLeft(db, heads, x, to) == MovedHeads(g, db, x, heads)
  {
    hide Consistent;
    hide Linked;
    hide CanonicalLine;
    hide Rewritten;
    hide Reorganised;
    hide MovedHead;
    hide NotForged;
    hide Retargeted;
    hide Stale;
    hide Gone;
    ConsistentNamed(g, ever, db);
    HeadNumber(g, ever, db, head);
    HeavierIsNew(g, ever, db, head, x, td);
    ReorgIff(g, ever, db, head, x, td, to);
    if Linked(g, db.headers, x) && x.number <= Height(db, head) + 2 {
      WalkFindsAll(g, ever, db, head, x);
      HeadsAfter(g, ever, db, head, x, to, heads);
      forall name: string | name in heads
        ensures OnChain(Reorganised(db, x, td, to), MovedHead(g, db, x, heads[name]))
      {
        MovedOnChain(g, ever, db, head, x, td, to, heads[name]);
      }
    }
  }

  /** A put below the head leaves the canonical chain alone. */
  lemma SidePut(g: Hash, ever: Headers, db: Db, heads: Heads, head: Hash, x: Header, td: nat, after: Db)
    requires Putable(g, ever, db, x, td) && Reorgs.InOrder(g, db, heads, head, head)
    requires after.headers == db.headers[IdOf(x) := x] && after.numberToHash == db.numberToHash
    requires after.hashToNumber == db.hashToNumber[x.hash := x.number]
    ensures Reorgs.InOrder(g, after, heads, head, head)
  {
    hide Consistent;
    hide Linked;
    hide Line;
    hide NotForged;
    ConsistentNamed(g, ever, db);
    IsKnown(g, ever, db, x);
    HeadNumber(g, ever, db, head);
    assert Named(after.headers) && Within(db.headers, after.headers) by {
      if IdOf(x) in db.headers { IsItself(ever, db, x); }
    }
    LinkedMore(g, db.headers, after.headers, HeaderOf(db, head));
    forall name: string | name in heads ensures OnChain(after, heads[name]) {
      assert OnChain(db, heads[name]);
    }
  }

  lemma PutHeaviest(g: Hash, ever: Headers, db: Db, head: Hash, x: Header, td: nat, after: Db)
    requires Putable(g, ever, db, x, td) && Heaviest(db, head)
    requires after.headers == db.headers[IdOf(x) := x] && after.td == db.td[IdOf(x) := td]
    requires after.hashToNumber == db.hashToNumber[x.hash := x.number]
    ensures Heaviest(after, if Heavier(db, head, x) then x.hash else head)
  {
    hide Archive;
    hide Weight;
    IsKnown(g, ever, db, x);
    if IdOf(x) in db.td { KnownTd(g, ever, db, x, td); }
  }

  /** Putting a stored block again computes the same total difficulty. */
  lemma KnownTd(g: Hash, ever: Headers, db: Db, x: Header, td: nat)
    requires Putable(g, ever, db, x, td) && IdOf(x) in db.td
    ensures db.td[IdOf(x)] == td
  {
    KnownWeight(g, ever, db, x, td);
  }

  lemma SaveHeads(db: Db, ops: seq<DbOp>, heads: Heads, headHeader: Hash, headBlock: Hash)
    ensures Batch(db, ops + [SetHeads(heads), SetHeadHeader(headHeader), SetHeadBlock(headBlock)]) ==
            Batch(db, ops).(savedHeads := Some(heads),
                            savedHeadHeader := Some(headHeader), savedHeadBlock := Some(headBlock))
  {
    hide Batch;
    var a, b, c := SetHeads(heads), SetHeadHeader(headHeader), SetHeadBlock(headBlock);
    BatchPush(db, ops, a);
    BatchPush(db, ops + [a], b);
    BatchPush(db, ops + [a] + [b], c);
    assert ops + [a, b, c] == ops + [a] + [b] + [c];
  }

  lemma SameOrder(g: Hash, a: Db, b: Db)
    requires a.headers == b.headers && a.td == b.td
    requires a.hashToNumber == b.hashToNumber && a.numberToHash == b.numberToHash
    ensures forall heads, h, k :: Reorgs.InOrder(g, a, heads, h, k) <==> Reorgs.InOrder(g, b, heads, h, k)
    ensures forall h :: Heaviest(a, h) <==> Heaviest(b, h)
    ensures Filed(a) <==> Filed(b)
  {}

  lemma ReorganisedIs(db: Db, x: Header, td: nat, to: nat, ops: seq<DbOp>)
    requires Named(db.headers)
    requires Batch(db, ops) == WithBlock(db, x, td).(numberToHash := Cut(db.numberToHash, x.number + 1, to))
    ensures Batch(db, ops + Lookups(Rewritten(db, x))) == Reorganised(db, x, td, to)
  {
    BatchLookups(db, ops, Rewritten(db, x));
  }

  lemma FirstOps(db: Db, x: Header, td: nat)
    ensures Batch(db, [SetTd(IdOf(x), td), SetHeader(x)]) == WithBlock(db, x, td)
    ensures Batch(db, [SetTd(IdOf(x), td), SetHeader(x)] + [SetHashToNumber(x.hash, x.number)]) ==
            WithBlock(db, x, td).(hashToNumber := db.hashToNumber[x.hash := x.number])
  {
    var a, b := SetTd(IdOf(x), td), SetHeader(x);
    assert [] + [a] == [a] && [a] + [b] == [a, b];
    BatchPush(db, [], a);
    BatchPush(db, [a], b);
    BatchPush(db, [a, b], SetHashToNumber(x.hash, x.number));
  }

  /** All that a put above the head does. */
  lemma HeadOutcome(g: Hash, ever: Headers, db: Db, heads: Heads, head: Hash, x: Header, td: nat, to: nat, after: Db)
    requires Putable(g, ever, db, x, td) && Filed(db) && Heavier(db, head, x)
    requires FirstGap(db.numberToHash, x.number + 1, to)
    requires after == Reorganised(db, x, td, to).(savedHeads := after.savedHeads,
                        savedHeadHeader := after.savedHeadHeader, savedHeadBlock := after.savedHeadBlock)
    ensures Consistent(g, ever[IdOf(x) := x], after) && Filed(after)
    ensures after.headers == db.headers[IdOf(x) := x] && after.td == db.td[IdOf(x) := td]
    ensures Reorgs.InOrder(g, db, heads, head, head) ==>
              && (Reorgs.InOrder(g, after, HeadsLeft(db, heads, x, to), x.hash, HeadBlockLeft(db, x)) <==>
                    Linked(g, db.headers, x) && x.number <= Height(db, head) + 2)
              && (Linked(g, db.headers, x) && x.number <= Height(db, head) + 2 ==>
                    HeadsLeft(db, heads, x, to) == MovedHeads(g, db, x, heads))
    ensures Heaviest(db, head) ==> Heaviest(after, x.hash)
  {
    hide Consistent;
    hide Linked;
    hide CanonicalLine;
    hide Reorganised;
    hide Reorgs.InOrder;
    hide MovedHeads;
    hide NotForged;
    hide Heaviest;
    hide Filed;
    hide HeadsLeft;
    hide HeadBlockLeft;
    ConsistentNamed(g, ever, db);
    var made := Reorganised(db, x, td, to);
    TablesAfter(g, ever, db, x, td, to);
    PutFiled(g, ever, db, x, td, to);
    PutConsistent(g, ever, db, x, td, made);
    SavedIrrelevant(g, ever[IdOf(x) := x], made, after);
    SameOrder(g, made, after);
    if Reorgs.InOrder(g, db, heads, head, head) {
      HeadPut(g, ever, db, heads, head, x, td, to);
    }
    if Heaviest(db, head) { PutHeaviest(g, ever, db, head, x, td, made); }
  }

  /** All that a put below the head does. */
  lemma SideOutcome(g: Hash, ever: Headers, db: Db, heads: Heads, head: Hash, x: Header, td: nat, after: Db)
    requires Putable(g, ever, db, x, td) && Filed(db)
    requires after == WithBlock(db, x, td).(hashToNumber := db.hashToNumber[x.hash := x.number],
                        savedHeads := after.savedHeads,
                        savedHeadHeader := after.savedHeadHeader, savedHeadBlock := after.savedHeadBlock)
    ensures Consistent(g, ever[IdOf(x) := x], after) && Filed(after)
    ensures after.headers == db.headers[IdOf(x) := x] && after.td == db.td[IdOf(x) := td]
    ensures Reorgs.InOrder(g, db, heads, head, head) ==> Reorgs.InOrder(g, after, heads, head, head)
    ensures Heaviest(db, head) && !Heavier(db, head, x) ==> Heaviest(after, head)
  {
    hide Consistent;
    hide Linked;
    hide Reorgs.InOrder;
    hide NotForged;
    hide Heaviest;
    ConsistentNamed(g, ever, db);
    PutConsistent(g, ever, db, x, td, after);
    if Reorgs.InOrder(g, db, heads, head, head) {
      SidePut(g, ever, db, heads, head, x, td, after);
    }
    if Heaviest(db, head) { PutHeaviest(g, ever, db, head, x, td, after); }
  }

  /** Validation reads the parent, and that read already needs a canonical block two below. */
  lemma ValidatedNear(g: Hash, ever: Headers, db: Db, head: Hash, x: Header)
    requires Consistent(g, ever, db) && CanonicalLine(g, db, head)
    requires GetBlock(db, x.parentHash).Some? && x.number == GetBlock(db, x.parentHash).value.number + 1
    ensures x.number <= Height(db, head) + 2
  {
    hide Linked;
    hide Archive;
    HeadNumber(g, ever, db, head);
    var p := GetBlock(db, x.parentHash).value;
    assert IdOf(p) == (db.hashToNumber[x.parentHash], x.parentHash);
  }

  /** A block accepted on a validating chain, or above the head on a Clique chain, is near the head. */
  lemma AcceptedNear(g: Hash, ever: Headers, clique: bool, validateBlocks: bool, db: Db, head: Hash, x: Header,
                     accepted: bool)
    requires Consistent(g, ever, db) && CanonicalLine(g, db, head)
    requires (validateBlocks || clique) && Heavier(db, head, x)
    requires Acceptable(g, clique, validateBlocks, db, head, x, accepted)
    ensures x.number <= Height(db, head) + 2
  {
    hide Consistent;
    hide CanonicalLine;
    hide Linked;
    hide GetBlock;
    if validateBlocks { ValidatedNear(g, ever, db, head, x); }
  }

  /** As long as nothing was deleted, every stored parent has its whole ancestry. */
  lemma WholeLinked(g: Hash, ever: Headers, db: Db, x: Header)
    requires Consistent(g, ever, db) && db.headers == ever && x.number > 0 && ParentId(x) in db.td
    ensures Linked(g, db.headers, x)
  {
    hide Weight;
    assert IdOf(ever[ParentId(x)]) == ParentId(x);
  }

  /** Different blocks have different hashes, among those stored and those to come. */
  ghost predicate Genuine(ever: Headers, blocks: seq<Header>) {
    && (forall i :: 0 <= i < |blocks| ==> NotForged(ever, blocks[i]))
    && forall i, j :: 0 <= i < |blocks| && 0 <= j < |blocks| && blocks[i].hash == blocks[j].hash ==>
         blocks[i] == blocks[j]
  }

  lemma GenuineRest(ever: Headers, blocks: seq<Header>, i: nat)
    requires Genuine(ever, blocks) && i < |blocks|
    ensures Genuine(ever[IdOf(blocks[i]) := blocks[i]], blocks)
  {
    var more := ever[IdOf(blocks[i]) := blocks[i]];
    forall j | 0 <= j < |blocks| ensures NotForged(more, blocks[j]) {
      assert NotForged(ever, blocks[j]);
    }
  }

  // ---------- deletion ----------

  /** Deleting a canonical block above the genesis block: the chain ends at its parent, and every
      head at or above it moves there. */
  lemma CanonicalDeleted(g: Hash, ever: Headers, db: Db, heads: Heads, head: Hash, x: Header, to: nat,
                         ids: seq<BlockId>, after: Db)
    requires Consistent(g, ever, db) && Reorgs.InOrder(g, db, heads, head, head)
    requires x.number > 0 && NumberToHash(db, x.number) == Some(x.hash)
    requires IdOf(x) in db.headers && db.headers[IdOf(x)] == x
    requires FirstGap(db.numberToHash, x.number, to)
    requires forall id :: id in ids <==> id in Upper(db, x.number)
    requires after == Without(db, ids).(numberToHash := Cut(db.numberToHash, x.number, to))
    ensures head in Hashes(ids) && head !in after.hashToNumber
    ensures Reorgs.InOrder(g, after, Retargeted(heads, Gone(db.numberToHash, x.number, to), x.parentHash),
                           x.parentHash, x.parentHash)
    ensures forall i: nat :: NumberToHash(after, i) == if i < x.number then NumberToHash(db, i) else None
    ensures forall id :: id in after.headers <==> id in db.headers && id !in Upper(db, x.number)
  {
    hide Consistent;
    hide Linked;
    hide Retargeted;
    hide CanonicalLine;
    hide Gone;
    hide AllOnChain;
    hide Upper;
    hide Without;
    hide Hashes;
    ConsistentNamed(g, ever, db);
    HeadNumber(g, ever, db, head);
    var n := (x.number - 1) as nat;
    CanonicalBlock(g, ever, db, head, x.number);
    CanonicalParents(g, ever, db, head, n);
    NothingAbove(g, db, head, x.number, to);
    forall i | i in db.numberToHash && i <= n
      ensures (i, db.numberToHash[i]) in after.headers
      ensures Stored(after, db.numberToHash[i]) && OnChain(after, db.numberToHash[i])
              && after.hashToNumber[db.numberToHash[i]] == i
    {
      StillThere(g, ever, db, head, x.number, i, to, ids, after);
    }
    DeletedTables(db, head, x.number, to, ids, after);
    TruncateInOrder(g, ever, db, head, n, after);
    HeadsDeleted(g, ever, db, heads, head, x, to, after);
  }

  /** The heads after the deletion of a canonical block. */
  ghost function MovedDown(db: Db, heads: Heads, x: Header): Heads {
    map name | name in heads ::
      if heads[name] in db.hashToNumber && db.hashToNumber[heads[name]] >= x.number then x.parentHash else heads[name]
  }

  lemma RetargetedAbove(g: Hash, ever: Headers, db: Db, heads: Heads, head: Hash, x: Header, to: nat)
    requires Consistent(g, ever, db) && Reorgs.InOrder(g, db, heads, head, head)
    requires FirstGap(db.numberToHash, x.number, to)
    ensures Retargeted(heads, Gone(db.numberToHash, x.number, to), x.parentHash) == MovedDown(db, heads, x)
  {
    hide Consistent;
    hide CanonicalLine;
    NothingAbove(g, db, head, x.number, to);
    forall name: string | name in heads
      ensures heads[name] in Gone(db.numberToHash, x.number, to) <==> db.hashToNumber[heads[name]] >= x.number
    {
      assert OnChain(db, heads[name]);
      forall m | m in db.numberToHash && db.numberToHash[m] == heads[name] ensures m == db.hashToNumber[heads[name]] {
        CanonicalBlock(g, ever, db, head, m);
      }
    }
  }

  lemma DeletionBatch(db: Db, ids: seq<BlockId>)
    ensures Batch(db, [] + Deletions(ids)) == Without(db, ids)
    ensures Without(db, ids) == db.(headers := Without(db, ids).headers, td := Without(db, ids).td,
                                    hashToNumber := Without(db, ids).hashToNumber)
  {
    BatchDeletions(db, [], ids);
  }

  lemma DifferentNumbers(g: Hash, ever: Headers, a: Db, b: Db)
    requires Consistent(g, ever, a) && b == a.(numberToHash := b.numberToHash)
    ensures Consistent(g, ever, b)
  {
    hide Weight;
    hide Archive;
  }

  lemma WithoutOneBlock(db: Db, id: BlockId)
    ensures Without(db, [id]).headers == db.headers - {id} && Without(db, [id]).numberToHash == db.numberToHash
  {
    assert (set x | x in [id]) == {id};
  }

  lemma CanonicalKept(g: Hash, ever: Headers, db: Db, head: Hash, from: nat, i: nat)
    requires Consistent(g, ever, db) && CanonicalLine(g, db, head) && i in db.numberToHash && i < from
    ensures var h := db.numberToHash[i];
      && (i, h) in db.headers && db.hashToNumber.Keys >= {h} && db.hashToNumber[h] == i
      && (i, h) !in Upper(db, from) && forall id :: id in Upper(db, from) ==> id.1 != h
  {
    hide Consistent;
    CanonicalBlock(g, ever, db, head, i);
    forall id | id in Upper(db, from) ensures id.1 != db.numberToHash[i] {
      CanonicalBlock(g, ever, db, head, id.0);
    }
  }

  lemma DeletedTables(db: Db, head: Hash, from: nat, to: nat, ids: seq<BlockId>, after: Db)
    requires OnChain(db, head) && db.hashToNumber[head] >= from && Named(db.headers)
    requires forall i :: i in db.numberToHash && i >= from ==> i < to
    requires from <= to
    requires forall id :: id in ids <==> id in Upper(db, from)
    requires after == Without(db, ids).(numberToHash := Cut(db.numberToHash, from, to))
    ensures head in Hashes(ids) && head !in after.hashToNumber
    ensures forall i: nat :: NumberToHash(after, i) == if i < from then NumberToHash(db, i) else None
    ensures forall id :: id in after.headers <==> id in db.headers && id !in Upper(db, from)
    ensures Within(after.headers, db.headers) && Named(after.headers)
  {
    assert (db.hashToNumber[head], head) in Upper(db, from);
  }

  lemma StillThere(g: Hash, ever: Headers, db: Db, head: Hash, from: nat, i: nat, to: nat, ids: seq<BlockId>, after: Db)
    requires Consistent(g, ever, db) && CanonicalLine(g, db, head) && i in db.numberToHash && i < from
    requires forall id :: id in ids <==> id in Upper(db, from)
    requires after == Without(db, ids).(numberToHash := Cut(db.numberToHash, from, to))
    ensures (i, db.numberToHash[i]) in after.headers
    ensures Stored(after, db.numberToHash[i]) && OnChain(after, db.numberToHash[i])
    ensures after.hashToNumber[db.numberToHash[i]] == i
  {
    hide Consistent;
    hide CanonicalLine;
    hide Upper;
    CanonicalKept(g, ever, db, head, from, i);
  }

  lemma HeadsDeleted(g: Hash, ever: Headers, db: Db, heads: Heads, head: Hash, x: Header, to: nat, after: Db)
    requires Consistent(g, ever, db) && Reorgs.InOrder(g, db, heads, head, head) && x.number > 0
    requires forall i :: i in db.numberToHash && i < x.number ==> OnChain(after, db.numberToHash[i])
    requires forall i :: i in db.numberToHash && i >= x.number ==> i < to
    requires x.number - 1 in db.numberToHash && db.numberToHash[x.number - 1] == x.parentHash
    ensures AllOnChain(after, Retargeted(heads, Gone(db.numberToHash, x.number, to), x.parentHash))
  {
    hide Consistent;
    hide CanonicalLine;
    forall name: string | name in heads
      ensures OnChain(after, if heads[name] in Gone(db.numberToHash, x.number, to) then x.parentHash else heads[name])
    {
      assert OnChain(db, heads[name]);
    }
  }

  /** Deleting a block that is not canonical leaves the canonical chain alone. */
  lemma SideDeleted(g: Hash, ever: Headers, db: Db, heads: Heads, head: Hash, x: Header)
    requires Consistent(g, ever, db) && Reorgs.InOrder(g, db, heads, head, head)
    requires NumberToHash(db, x.number) != Some(x.hash) && IdOf(x) in db.headers
    ensures Reorgs.InOrder(g, Without(db, [IdOf(x)]), heads, head, head)
  {
    hide Consistent;
    hide Linked;
    hide Line;
    hide Without;
    hide CanonicalLine;
    ConsistentNamed(g, ever, db);
    HeadNumber(g, ever, db, head);
    HeadLinked(g, db, head);
    var after := Without(db, [IdOf(x)]);
    OneDeleted(db, x);
    IsStored(g, ever, db, IdOf(x));
    forall i | i in db.numberToHash
      ensures (i, db.numberToHash[i]) in after.headers
      ensures db.numberToHash[i] != x.hash && OnChain(db, db.numberToHash[i])
    {
      CanonicalBlock(g, ever, db, head, i);
    }
    LineKept(g, ever, db, head, after);
    StayOnChain(db, heads, x, after);
  }

  lemma StayOnChain(db: Db, heads: Heads, x: Header, after: Db)
    requires AllOnChain(db, heads) && forall i :: i in db.numberToHash ==> db.numberToHash[i] != x.hash
    requires after.hashToNumber == db.hashToNumber - {x.hash} && after.numberToHash == db.numberToHash
    ensures AllOnChain(after, heads)
  {
    forall name: string | name in heads ensures OnChain(after, heads[name]) {
      assert OnChain(db, heads[name]);
    }
  }

  lemma HeadLinked(g: Hash, db: Db, head: Hash)
    requires CanonicalLine(g, db, head)
    ensures Named(db.headers) && Stored(db, head) && Linked(g, db.headers, HeaderOf(db, head))
  {}

  /** The canonical line survives a deletion that spares its blocks. */
  lemma LineKept(g: Hash, ever: Headers, db: Db, head: Hash, after: Db)
    requires CanonicalLine(g, db, head) && Stored(after, head) && HeaderOf(after, head) == HeaderOf(db, head)
    requires HeaderOf(db, head).number == Height(db, head) && HeaderOf(db, head).hash == head
    requires Within(after.headers, db.headers) && Named(after.headers) && after.numberToHash == db.numberToHash
    requires forall i :: i in db.numberToHash ==> (i, db.numberToHash[i]) in after.headers
    ensures CanonicalLine(g, after, head)
  {
    LinkedLess(g, db.headers, after.headers, HeaderOf(db, head));
  }

  lemma OneDeleted(db: Db, x: Header)
    ensures Without(db, [IdOf(x)]) == db.(headers := db.headers - {IdOf(x)}, td := db.td - {IdOf(x)},
                                          hashToNumber := db.hashToNumber - {x.hash})
  {
    assert Hashes([IdOf(x)]) == {x.hash} && (set id | id in [IdOf(x)]) == {IdOf(x)};
  }

  lemma SideFiledAfter(g: Hash, ever: Headers, db: Db, x: Header)
    requires Consistent(g, ever, db) && Filed(db) && NumberToHash(db, x.number) != Some(x.hash)
    ensures Filed(Without(db, [IdOf(x)]))
  {
    assert (set id | id in [IdOf(x)]) == {IdOf(x)};
  }

  lemma DoomedStep(db: Db, number: nat, hash: Hash)
    requires Named(db.headers) && number in db.numberToHash
    ensures var child := GetCanonicalHeader(db, number + 1);
      && (child.None? ==> Doomed(db, number, hash) == [(number, hash)])
      && (child.Some? ==> child.value.number == number + 1 && number + 1 in db.numberToHash
                          && Doomed(db, number, hash) ==
                             [(number, hash)] + Doomed(db, child.value.number, child.value.hash))
  {
    NumbersFromShrinks(db.numberToHash, number);
    if GetCanonicalHeader(db, number + 1).Some? {
      var child := GetCanonicalHeader(db, number + 1).value;
      assert IdOf(child) == (number + 1, db.numberToHash[number + 1]);
    }
  }

  lemma HashesCons(id: BlockId, rest: seq<BlockId>)
    ensures Hashes([id] + rest) == {id.1} + Hashes(rest) && Hashes([id]) == {id.1}
  {
    assert forall x :: x in [id] + rest <==> x == id || x in rest;
  }

  lemma DeletionsCons(id: BlockId, rest: seq<BlockId>)
    ensures Deletions([id] + rest) == [DelHeader(id), DelHashToNumber(id.1), DelTd(id)] + Deletions(rest)
    ensures rest == [] ==> Deletions([id]) == [DelHeader(id), DelHashToNumber(id.1), DelTd(id)]
  {
    assert ([id] + rest)[1..] == rest;
  }

  lemma CanonicalFiledAfter(g: Hash, ever: Headers, db: Db, n: nat, to: nat, after: Db)
    requires Consistent(g, ever, db) && Filed(db) && n in db.numberToHash && FirstGap(db.numberToHash, n, to)
    requires after == Without(db, Doomed(db, n, db.numberToHash[n])).(numberToHash := Cut(db.numberToHash, n, to))
    ensures Filed(after) && forall id :: id in Doomed(db, n, db.numberToHash[n]) ==> id in db.headers
  {
    hide Consistent;
    ConsistentNamed(g, ever, db);
    DoomedRange(g, ever, db, n, to);
  }

  /** All that the deletion of a canonical block does. */
  lemma ChainOutcome(g: Hash, ever: Headers, db: Db, heads: Heads, head: Hash, x: Header, to: nat, after: Db)
    requires Consistent(g, ever, db) && Filed(db) && IdOf(x) in db.headers && db.headers[IdOf(x)] == x
    requires NumberToHash(db, x.number) == Some(x.hash) && FirstGap(db.numberToHash, x.number, to)
    requires after == Without(db, Doomed(db, x.number, x.hash)).(numberToHash := Cut(db.numberToHash, x.number, to))
    ensures Consistent(g, ever, after) && Filed(after)
    ensures Reorgs.InOrder(g, db, heads, head, head) && x.number > 0 ==>
              && head in Hashes(Doomed(db, x.number, x.hash)) && head !in after.hashToNumber
              && Retargeted(heads, Gone(db.numberToHash, x.number, to), x.parentHash) == MovedDown(db, heads, x)
              && Reorgs.InOrder(g, after, MovedDown(db, heads, x), x.parentHash, x.parentHash)
              && (forall i: nat :: NumberToHash(after, i) == if i < x.number then NumberToHash(db, i) else None)
              && forall id :: id in after.headers <==> id in db.headers && id !in Upper(db, x.number)
    ensures Reorgs.InOrder(g, db, heads, head, head) && x.number == 0 ==> after.numberToHash == map[]
  {
    hide Consistent;
    hide Reorgs.InOrder;
    hide Filed;
    hide Doomed;
    hide Upper;
    hide Hashes;
    hide Gone;
    hide Cut;
    hide MovedDown;
    hide Retargeted;
    ConsistentNamed(g, ever, db);
    var ids := Doomed(db, x.number, x.hash);
    CanonicalFiledAfter(g, ever, db, x.number, to, after);
    DeleteConsistent(g, ever, db, ids);
    DifferentNumbers(g, ever, Without(db, ids), after);
    hide Without;
    if Reorgs.InOrder(g, db, heads, head, head) && x.number == 0 {
      OrderedLine(g, db, heads, head);
      NothingLeft(g, db, head, to);
    }
    if Reorgs.InOrder(g, db, heads, head, head) && x.number > 0 {
      OrderedLine(g, db, heads, head);
      DoomedIsUpper(g, ever, db, head, x.number);
      CanonicalDeleted(g, ever, db, heads, head, x, to, ids, after);
      RetargetedAbove(g, ever, db, heads, head, x, to);
    }
  }

  lemma NothingLeft(g: Hash, db: Db, head: Hash, to: nat)
    requires CanonicalLine(g, db, head) && FirstGap(db.numberToHash, 0, to)
    ensures Cut(db.numberToHash, 0, to) == map[]
  {
    hide CanonicalLine;
    NothingAbove(g, db, head, 0, to);
  }

  lemma OrderedLine(g: Hash, db: Db, heads: Heads, head: Hash)
    requires Reorgs.InOrder(g, db, heads, head, head)
    ensures CanonicalLine(g, db, head)
  {}

  lemma StaysHeaviest(db: Db, head: Hash, x: Header)
    requires Heaviest(db, head) && x.hash != head
    ensures Heaviest(Without(db, [IdOf(x)]), head)
  {
    OneDeleted(db, x);
  }

  /** All that the deletion of another block does. */
  lemma OffChainOutcome(g: Hash, ever: Headers, db: Db, heads: Heads, head: Hash, x: Header)
    requires Consistent(g, ever, db) && Filed(db) && IdOf(x) in db.headers
    requires NumberToHash(db, x.number) != Some(x.hash)
    ensures var after := Without(db, [IdOf(x)]);
      && Consistent(g, ever, after) && Filed(after)
      && after.headers == db.headers - {IdOf(x)} && after.numberToHash == db.numberToHash
      && (Reorgs.InOrder(g, db, heads, head, head) ==> Reorgs.InOrder(g, after, heads, head, head))
      && (Heaviest(db, head) && x.hash != head ==> Heaviest(after, head))
  {
    hide Consistent;
    hide Reorgs.InOrder;
    hide Filed;
    hide Heaviest;
    hide Without;
    if Heaviest(db, head) && x.hash != head { StaysHeaviest(db, head, x); }
    DeleteConsistent(g, ever, db, [IdOf(x)]);
    SideFiledAfter(g, ever, db, x);
    WithoutOneBlock(db, IdOf(x));
    if Reorgs.InOrder(g, db, heads, head, head) {
      SideDeleted(g, ever, db, heads, head, x);
    }
  }

  lemma BatchNone(db: Db)
    ensures Batch(db, []) == db
  {}

  /** Saving the heads changes nothing else. */
  lemma SavedOutcome(g: Hash, ever: Headers, db: Db, heads: Heads, head: Hash, headBlock: Hash)
    requires Consistent(g, ever, db) && Filed(db)
    ensures var after := Batch(db, [] + [SetHeads(heads), SetHeadHeader(head), SetHeadBlock(headBlock)]);
      && after == db.(savedHeads := Some(heads), savedHeadHeader := Some(head), savedHeadBlock := Some(headBlock))
      && Consistent(g, ever, after) && Filed(after)
      && (Reorgs.InOrder(g, db, heads, head, headBlock) ==> Reorgs.InOrder(g, after, heads, head, headBlock))
      && (Heaviest(db, head) ==> Heaviest(after, head))
  {
    hide Consistent;
    hide Filed;
    hide Heaviest;
    hide Reorgs.InOrder;
    hide Batch;
    SaveHeads(db, [], heads, head, headBlock);
    BatchNone(db);
    var after := Batch(db, [] + [SetHeads(heads), SetHeadHeader(head), SetHeadBlock(headBlock)]);
    SavedIrrelevant(g, ever, db, after);
    SameOrder(g, db, after);
  }

  lemma NextReadable(g: Hash, ever: Headers, db: Db, head: Hash, i: nat)
    requires Consistent(g, ever, db) && CanonicalLine(g, db, head) && 0 < i <= Height(db, head)
    ensures GetBlockByNumber(db, i).Some?
  {
    hide Consistent;
    HeadNumber(g, ever, db, head);
    CanonicalReadable(g, ever, db, head, i);
    CanonicalParents(g, ever, db, head, i - 1);
    CanonicalBlock(g, ever, db, head, i - 1);
  }

  lemma ReadByNumber(db: Db, i: nat)
    requires Named(db.headers) && GetBlockByNumber(db, i).Some?
    ensures i in db.numberToHash && GetBlockByNumber(db, i).value.hash == db.numberToHash[i]
  {
    assert IdOf(GetBlockByNumber(db, i).value) == (i, db.numberToHash[i]);
  }

  lemma IteratorBegins(g: Hash, ever: Headers, db: Db, heads: Heads, head: Hash, name: string)
    requires Consistent(g, ever, db) && Reorgs.InOrder(g, db, heads, head, head)
    ensures var h := if name in heads then heads[name] else g;
      Stored(db, head) && h in db.hashToNumber && db.hashToNumber[h] <= Height(db, head)
    ensures Height(db, head) + 1 !in db.numberToHash
  {
    hide Consistent;
    HeadNumber(g, ever, db, head);
    CanonicalBlock(g, ever, db, head, 0);
    assert name in heads ==> OnChain(db, heads[name]);
  }

  lemma IteratedOrder(g: Hash, ever: Headers, db: Db, before: Heads, head: Hash, name: string, i: nat, after: Heads)
    requires Consistent(g, ever, db) && Reorgs.InOrder(g, db, before, head, head)
    requires after == before || (i in db.numberToHash && after == before[name := db.numberToHash[i]])
    ensures Reorgs.InOrder(g, db, after, head, head)
  {
    hide Consistent;
    if i in db.numberToHash { CanonicalBlock(g, ever, db, head, i); }
  }

  // ---------- a put that leaves a gap ----------

  const GAP_GENESIS := Header([0], [], 0, 1)
  const GAP_ONE := Header([1], [0], 1, 0)
  const GAP_TWO := Header([2], [1], 2, 0)
  const GAP_THREE := Header([3], [2], 3, 1)

  ghost function GenesisDb(x: Header): Db {
    Db(map[(0, x.hash) := x], map[(0, x.hash) := x.difficulty], map[x.hash := 0], map[0 := x.hash], None, None, None)
  }

  lemma GenesisState(x: Header)
    requires x.number == 0
    ensures Consistent(x.hash, map[(0, x.hash) := x], GenesisDb(x)) && Filed(GenesisDb(x))
    ensures Reorgs.InOrder(x.hash, GenesisDb(x), map[], x.hash, x.hash) && Heaviest(GenesisDb(x), x.hash)
  {}

  ghost function SideDb(db: Db, x: Header, td: nat): Db {
    WithBlock(db, x, td).(hashToNumber := db.hashToNumber[x.hash := x.number])
  }

  /** Two weightless blocks above the genesis block, which stays the head. */
  ghost function GapDb(): Db {
    SideDb(SideDb(GenesisDb(GAP_GENESIS), GAP_ONE, 1), GAP_TWO, 1)
  }

  ghost function GapEver(): Headers {
    map[(0, [0]) := GAP_GENESIS][(1, [1]) := GAP_ONE][(2, [2]) := GAP_TWO]
  }

  lemma GapFirst()
    ensures var db := SideDb(GenesisDb(GAP_GENESIS), GAP_ONE, 1);
      var ever: Headers := map[(0, [0]) := GAP_GENESIS][(1, [1]) := GAP_ONE];
      && Consistent([0], ever, db) && Filed(db) && Reorgs.InOrder([0], db, map[], [0], [0]) && Heaviest(db, [0])
  {
    hide Consistent;
    hide Reorgs.InOrder;
    hide Heaviest;
    assert [0 as Byte] != [1];
    GenesisState(GAP_GENESIS);
    SideOutcome([0], map[(0, [0]) := GAP_GENESIS], GenesisDb(GAP_GENESIS), map[], [0], GAP_ONE, 1,
                SideDb(GenesisDb(GAP_GENESIS), GAP_ONE, 1));
  }

  lemma GapState()
    ensures Consistent([0], GapEver(), GapDb()) && Filed(GapDb())
    ensures Reorgs.InOrder([0], GapDb(), map[], [0], [0]) && Heaviest(GapDb(), [0])
    ensures Putable([0], GapEver(), GapDb(), GAP_THREE, 2) && GapDb().numberToHash == map[0 := [0]]
    ensures GapDb().headers == GapEver()
  {
    hide Consistent;
    hide Reorgs.InOrder;
    hide Heaviest;
    hide Filed;
    assert [0 as Byte] != [1] && [0 as Byte] != [2] && [1 as Byte] != [2];
    assert [0 as Byte] != [3] && [1 as Byte] != [3] && [2 as Byte] != [3];
    GapFirst();
    SideOutcome([0], map[(0, [0]) := GAP_GENESIS][(1, [1]) := GAP_ONE], SideDb(GenesisDb(GAP_GENESIS), GAP_ONE, 1),
                map[], [0], GAP_TWO, 1, GapDb());
  }

  /** The third block outweighs the head, but the walk stops at it: without validation, the put
      makes it the head of a chain whose numbers 1 and 2 are missing. */
  lemma GapExample()
    ensures Putable([0], GapEver(), GapDb(), GAP_THREE, 2) && Heavier(GapDb(), [0], GAP_THREE)
    ensures Named(GapDb().headers) && Linked([0], GapDb().headers, GAP_THREE) && FirstGap(GapDb().numberToHash, 4, 4)
    ensures !CanonicalLine([0], Reorganised(GapDb(), GAP_THREE, 2, 4), [3])
  {
    hide Consistent;
    hide CanonicalLine;
    hide Reorganised;
    GapState();
    ConsistentNamed([0], GapEver(), GapDb());
    WholeLinked([0], GapEver(), GapDb(), GAP_THREE);
    ReorgIff([0], GapEver(), GapDb(), [0], GAP_THREE, 2, 4);
  }

  lemma GenesisOps(x: Header, ops: seq<DbOp>)
    requires x.number == 0
    requires ops == [SetTd((0, x.hash), x.difficulty), SetHeader(x), SetNumberToHash(0, x.hash),
                     SetHashToNumber(x.hash, 0)]
    ensures Batch(EMPTY_DB, ops) == GenesisDb(x)
  {
    BatchPush(EMPTY_DB, [], ops[0]);
    BatchPush(EMPTY_DB, [] + [ops[0]], ops[1]);
    BatchPush(EMPTY_DB, [] + [ops[0]] + [ops[1]], ops[2]);
    BatchPush(EMPTY_DB, [] + [ops[0]] + [ops[1]] + [ops[2]], ops[3]);
    assert ops == [] + [ops[0]] + [ops[1]] + [ops[2]] + [ops[3]];
  }

  function NamesOf(heads: Heads, hashes: set<Hash>): set<string> {
    set name | name in heads && heads[name] in hashes
  }

  function Renamed(heads: Heads, names: set<string>, to: Hash): Heads {
    map name | name in heads :: if name in names then to else heads[name]
  }

  lemma NamesMore(heads: Heads, a: set<Hash>, h: Hash)
    ensures NamesOf(heads, a + {h}) == NamesOf(heads, a) + NamesOf(heads, {h})
  {}

  lemma NoneStale(nums: map<nat, Hash>, heads: Heads)
    ensures Stale(nums, []) == {} && NamesOf(heads, {}) == {} && Lookups([]) == []
  {}

  lemma RenamedIs(heads: Heads, stale: set<Hash>, to: Hash)
    ensures Renamed(heads, NamesOf(heads, stale), to) == Retargeted(heads, stale, to)
  {}

  lemma NoneRenamed(heads: Heads, to: Hash)
    ensures Renamed(heads, {}, to) == heads
  {}

  /** A header that is read has the number and the hash under which it is filed. */
  lemma ReadNamed(db: Db, hash: Hash, number: nat)
    requires Named(db.headers)
    ensures GetHeader(db, hash, number).Some? ==> IdOf(GetHeader(db, hash, number).value) == (number, hash)
  {}

  /** One step of the walk. */
  lemma WalkStep(db: Db, x: Header)
    requires Named(db.headers)
    ensures NumberToHash(db, x.number) == Some(x.hash) || x.number == 0 ==>
              Rewritten(db, x) == [] && Completes(db, x) && LastHash(db, x) == x.hash
    ensures NumberToHash(db, x.number) != Some(x.hash) && x.number > 0 ==>
              var parent := GetHeader(db, x.parentHash, x.number - 1);
              && (parent.None? ==> Rewritten(db, x) == [x] && !Completes(db, x) && LastHash(db, x) == x.hash)
              && (parent.Some? ==>
                    && parent.value.number == x.number - 1 && Rewritten(db, x) == [x] + Rewritten(db, parent.value)
                    && Completes(db, x) == Completes(db, parent.value)
                    && LastHash(db, x) == LastHash(db, parent.value))
  {
    if x.number > 0 && GetHeader(db, x.parentHash, x.number - 1).Some? {
      assert IdOf(GetHeader(db, x.parentHash, x.number - 1).value) == ParentId(x);
    }
  }

  lemma WalkSplits(done: seq<Header>, x: Header, rest: seq<Header>)
    ensures done + ([x] + rest) == done + [x] + rest
  {}

  class Blockchain {
    const genesis: Hash
    const clique: bool
    const validateBlocks: bool
    var db: Db
    var heads: Heads
    var headHeaderHash: Hash
    var headBlockHash: Hash
    ghost var ever: Headers

    ghost predicate Valid()
      reads this
    {
      Consistent(genesis, ever, db) && Filed(db)
    }

    ghost predicate InOrder()
      reads this
    {
      Reorgs.InOrder(genesis, db, heads, headHeaderHash, headBlockHash)
    }

    /** The memory and the database agree on the heads. */
    ghost predicate Saved()
      reads this
    {
      && db.savedHeads == Some(heads) && db.savedHeadHeader == Some(headHeaderHash)
      && db.savedHeadBlock == Some(headBlockHash)
    }

    /** `_init` on an empty database. */
    constructor (genesisBlock: Header, clique: bool, validateBlocks: bool)
      requires genesisBlock.number == 0
      ensures Valid() && InOrder() && Heaviest(db, headHeaderHash) && db.headers == ever
      ensures ever == map[IdOf(genesisBlock) := genesisBlock]
      ensures headHeaderHash == genesis == genesisBlock.hash && heads == map[]
      ensures this.clique == clique && this.validateBlocks == validateBlocks
    {
      var hash := genesisBlock.hash;
      var dbOps := [SetTd((0, hash), genesisBlock.difficulty), SetHeader(genesisBlock),
                    SetNumberToHash(0, hash), SetHashToNumber(hash, 0)];
      genesis := hash;
      this.clique := clique;
      this.validateBlocks := validateBlocks;
      db := Batch(EMPTY_DB, dbOps);
      heads := map[];
      headHeaderHash := hash;
      headBlockHash := hash;
      ever := map[(0, hash) := genesisBlock];
      new;
      GenesisOps(genesisBlock, dbOps);
      GenesisState(genesisBlock);
    }

    // ---------- reorganisation ----------

    method DeleteCanonicalChainReferences(from: nat, headHash: Hash, ops: seq<DbOp>)
      returns (ops': seq<DbOp>, ghost to: nat)
      modifies this`heads, this`headBlockHash
      ensures FirstGap(db.numberToHash, from, to)
      ensures Batch(db, ops') == Batch(db, ops).(numberToHash := Cut(Batch(db, ops).numberToHash, from, to))
      ensures heads == Retargeted(old(heads), Gone(db.numberToHash, from, to), headHash)
      ensures headBlockHash ==
              if old(headBlockHash) in Gone(db.numberToHash, from, to) then headHash else old(headBlockHash)
    {
      hide Batch;
      hide Cut;
      hide Gone;
      hide Retargeted;
      ops' := ops;
      var blockNumber := from;
      ghost var base := Batch(db, ops).numberToHash;
      NothingCut(base, from);
      NothingCut(db.numberToHash, from);
      RetargetNone(heads, headHash);
      var hash := NumberToHash(db, blockNumber);
      while hash.Some?
        invariant from <= blockNumber && hash == NumberToHash(db, blockNumber)
        invariant forall i :: from <= i < blockNumber ==> i in db.numberToHash
        invariant Batch(db, ops') == Batch(db, ops).(numberToHash := Cut(base, from, blockNumber))
        invariant heads == Retargeted(old(heads), Gone(db.numberToHash, from, blockNumber), headHash)
        invariant headBlockHash ==
                  if old(headBlockHash) in Gone(db.numberToHash, from, blockNumber) then headHash
                  else old(headBlockHash)
        decreases |NumbersFrom(db.numberToHash, blockNumber)|
      {
        BatchPush(db, ops', DelNumberToHash(blockNumber));
        CutMore(base, from, blockNumber);
        ops' := ops' + [DelNumberToHash(blockNumber)];
        GoneMore(db.numberToHash, from, blockNumber);
        RetargetMore(old(heads), Gone(db.numberToHash, from, blockNumber), hash.value, headHash);
        heads := Retargeted(heads, {hash.value}, headHash);
        if headBlockHash == hash.value {
          headBlockHash := headHash;
        }
        NumbersFromShrinks(db.numberToHash, blockNumber);
        blockNumber := blockNumber + 1;
        hash := NumberToHash(db, blockNumber);
      }
      to := blockNumber;
    }

    /** Reads the old database throughout, while the lookups pile up in the operations. */
    method RebuildCanonical(header: Header, ops: seq<DbOp>) returns (ops': seq<DbOp>)
      requires Named(db.headers)
      modifies this`heads, this`headBlockHash
      ensures ops' == ops + Lookups(Rewritten(db, header))
      ensures heads == if Completes(db, header)
                       then Retargeted(old(heads), Stale(db.numberToHash, Rewritten(db, header)), LastHash(db, header))
                       else old(heads)
      ensures headBlockHash == if old(headBlockHash) in Stale(db.numberToHash, Rewritten(db, header))
                               then LastHash(db, header) else old(headBlockHash)
    {
      hide Stale;
      hide Lookups;
      hide NamesOf;
      hide Renamed;
      hide Retargeted;
      hide Rewritten;
      hide Completes;
      hide LastHash;
      hide GetHeader;
      ops' := ops;
      NoneStale(db.numberToHash, heads);
      var current := header;
      var currentCanonicalHash := current.hash;
      var staleHash := NumberToHash(db, current.number);
      var staleHeads := {};
      var staleHeadBlock := false;
      ghost var done: seq<Header> := [];
      ghost var broken := false;
      while staleHash != Some(currentCanonicalHash)
        invariant currentCanonicalHash == current.hash && staleHash == NumberToHash(db, current.number)
        invariant ops' == ops + Lookups(done)
        invariant Rewritten(db, header) == done + Rewritten(db, current)
        invariant Completes(db, header) == Completes(db, current) && LastHash(db, header) == LastHash(db, current)
        invariant staleHeads == NamesOf(heads, Stale(db.numberToHash, done))
        invariant staleHeadBlock == (headBlockHash in Stale(db.numberToHash, done))
        invariant heads == old(heads) && headBlockHash == old(headBlockHash) && !broken
        decreases current.number
      {
        WalkStep(db, current);
        if current.number == 0 {
          break;
        }
        LookupsPush(done, current);
        StaleMore(db.numberToHash, done, current);
        ops' := ops' + [SetNumberToHash(current.number, current.hash), SetHashToNumber(current.hash, current.number)];
        if staleHash.Some? {
          NamesMore(heads, Stale(db.numberToHash, done), staleHash.value);
          staleHeads := staleHeads + NamesOf(heads, {staleHash.value});
          if headBlockHash == staleHash.value {
            staleHeadBlock := true;
          }
        }
        ghost var before := done;
        done := done + [current];
        var parent := GetHeader(db, current.parentHash, current.number - 1);
        if parent.None? {
          staleHeads := {};
          broken := true;
          break;
        }
        WalkSplits(before, current, Rewritten(db, parent.value));
        current := parent.value;
        staleHash := NumberToHash(db, current.number);
        currentCanonicalHash := current.hash;
      }
      WalkStep(db, current);
      assert Rewritten(db, header) == done;
      NoneRenamed(heads, currentCanonicalHash);
      assert broken == !Completes(db, header) && currentCanonicalHash == LastHash(db, header);
      RenamedIs(heads, Stale(db.numberToHash, done), currentCanonicalHash);
      heads := Renamed(heads, staleHeads, currentCanonicalHash);
      if staleHeadBlock {
        headBlockHash := currentCanonicalHash;
      }
    }

    /** The highest block common to the canonical chain and the line of a new header. */
    method FindAncient(x: Header) returns (r: Result<Header, ChainError>)
      requires Valid() && NotForged(ever, x)
      ensures CanonicalLine(genesis, db, headHeaderHash) ==>
                (r.Ok? <==> Linked(genesis, db.headers, x) && x.number <= Height(db, headHeaderHash) + 2)
      ensures CanonicalLine(genesis, db, headHeaderHash) && r.Ok? ==>
                && NumberToHash(db, CommonNumber(genesis, db, x)) == Some(r.value.hash)
                && r.value.number == CommonNumber(genesis, db, x)
    {
      hide Consistent;
      hide Linked;
      hide CanonicalLine;
      hide NotForged;
      hide CommonNumber;
      hide Within;
      hide Stored;
      hide HeaderOf;
      hide GetHeader;
      ConsistentNamed(genesis, ever, db);
      ghost var sound := CanonicalLine(genesis, db, headHeaderHash);
      var head := GetBlock(db, headHeaderHash);
      if sound { HeadReadable(genesis, ever, db, headHeaderHash); HeadNumber(genesis, ever, db, headHeaderHash); }
      if head.None? {
        return Err(NotFound);
      }
      var header, newHeader := head.value, x;
      ghost var height := header.number;
      if header.number > newHeader.number {
        if sound { CanonicalReadable(genesis, ever, db, headHeaderHash, newHeader.number); }
        var canonical := GetCanonicalHeader(db, newHeader.number);
        if canonical.None? {
          return Err(NotFound);
        }
        header := canonical.value;
      } else {
        while header.number != newHeader.number && newHeader.number > 0
          invariant header.number <= newHeader.number <= x.number
          invariant sound ==> Follows(x, newHeader) && (newHeader == x || x.number <= height + 2)
          decreases newHeader.number
        {
          if sound { StepDown(genesis, ever, db, headHeaderHash, newHeader); }
          assert sound ==> newHeader.number !in db.numberToHash;
          var parent := GetHeader(db, newHeader.parentHash, newHeader.number - 1);
          if parent.None? {
            return Err(NotFound);
          }
          ReadNamed(db, newHeader.parentHash, newHeader.number - 1);
          newHeader := parent.value;
        }
      }
      if header.number != newHeader.number {
        return Err(NoAncient);
      }
      assert sound ==> x.number <= height + 2;
      while header.hash != newHeader.hash && header.number > 0
        invariant header.number == newHeader.number <= x.number
        invariant sound ==> Follows(x, newHeader) && NumberToHash(db, header.number) == Some(header.hash)
        decreases header.number
      {
        if sound {
          CanonicalReadable(genesis, ever, db, headHeaderHash, header.number - 1);
          StepDown(genesis, ever, db, headHeaderHash, newHeader);
        }
        var canonical := GetCanonicalHeader(db, header.number - 1);
        if canonical.None? {
          return Err(NotFound);
        }
        ReadNamed(db, db.numberToHash[header.number - 1], header.number - 1);
        header := canonical.value;
        var parent := GetHeader(db, newHeader.parentHash, newHeader.number - 1);
        if parent.None? {
          return Err(NotFound);
        }
        ReadNamed(db, newHeader.parentHash, newHeader.number - 1);
        newHeader := parent.value;
      }
      if header.hash != newHeader.hash {
        if sound { AtGenesis(newHeader, header.hash); }
        return Err(NoAncient);
      }
      if sound { Met(genesis, ever, db, headHeaderHash, newHeader); }
      return Ok(header);
    }

    /** A header on the way down the line of x, with the same common block. */
    ghost predicate Follows(x: Header, y: Header)
      reads this
      requires Named(db.headers)
    {
      && NotForged(ever, y)
      && (Linked(genesis, db.headers, y) <==> Linked(genesis, db.headers, x))
      && (Linked(genesis, db.headers, x) ==> CommonNumber(genesis, db, y) == CommonNumber(genesis, db, x))
    }

    lemma AtGenesis(y: Header, h: Hash)
      requires Named(db.headers) && Valid() && CanonicalLine(genesis, db, headHeaderHash)
      requires y.number == 0 && NumberToHash(db, 0) == Some(h) && y.hash != h
      ensures !Linked(genesis, db.headers, y)
    {
      hide Consistent;
      CanonicalBlock(genesis, ever, db, headHeaderHash, 0);
    }

    // ---------- putting blocks ----------

    /** What `block.validate` looks up in the chain; the other rules, and those of the consensus
        algorithm, are the caller's verdict `accepted`. */
    method Validate(block: Header, accepted: bool) returns (r: Result<(), ChainError>)
      ensures r.Ok? <==> && accepted
                         && (validateBlocks ==>
                               GetBlock(db, block.parentHash).Some?
                               && block.number == GetBlock(db, block.parentHash).value.number + 1)
    {
      if validateBlocks {
        var parent := GetBlock(db, block.parentHash);
        if parent.None? {
          return Err(NoParent);
        }
        if block.number != parent.value.number + 1 {
          return Err(InvalidNumber);
        }
      }
      return if accepted then Ok(()) else Err(Rejected);
    }

    ghost predicate Accepts(block: Header, accepted: bool)
      requires Valid() && InOrder()
      reads this
    {
      Acceptable(genesis, clique, validateBlocks, db, headHeaderHash, block, accepted)
    }

    method PutBlock(block: Header, accepted: bool) returns (r: Result<(), ChainError>)
      requires Valid() && NotForged(ever, block)
      modifies this
      ensures Valid()
      ensures old(InOrder()) ==> (r.Ok? <==> old(Accepts(block, accepted)))
      ensures r.Err? ==> unchanged(this)
      ensures r.Ok? ==> block.number > 0 && ParentId(block) in old(db.td) && Saved()
      ensures r.Ok? ==> ever == old(ever)[IdOf(block) := block] && db.headers == old(db.headers)[IdOf(block) := block]
      ensures r.Ok? ==> db.td == old(db.td)[IdOf(block) := old(db.td)[ParentId(block)] + block.difficulty]
      ensures old(InOrder()) && r.Ok? && !Heavier(old(db), old(headHeaderHash), block) ==>
                && InOrder() && db.numberToHash == old(db.numberToHash) && heads == old(heads)
                && headHeaderHash == old(headHeaderHash)
      ensures old(InOrder()) && r.Ok? && Heavier(old(db), old(headHeaderHash), block) ==>
                && headHeaderHash == block.hash
                && (InOrder() <==>
                      Linked(genesis, old(db).headers, block)
                      && block.number <= Height(old(db), old(headHeaderHash)) + 2)
                && (InOrder() ==> heads == MovedHeads(genesis, old(db), block, old(heads)))
      ensures old(Heaviest(db, headHeaderHash)) ==> Heaviest(db, headHeaderHash)
    {
      hide Consistent;
      hide Linked;
      hide Reorgs.InOrder;
      hide Reorganised;
      hide MovedHeads;
      hide NotForged;
      hide Heaviest;
      hide Filed;
      hide Batch;
      hide GetBlock;
      hide GetTotalDifficulty;
      hide HeadsLeft;
      hide HeadBlockLeft;
      ghost var before, oldHeads, oldHead := db, heads, headHeaderHash;
      ConsistentNamed(genesis, ever, db);
      if block.number == 0 {
        return Err(GenesisPut);
      }
      var valid := Validate(block, accepted);
      if valid.Err? {
        return Err(valid.error);
      }
      if InOrder() { OrderedHead(); }
      var currentTdHeader := GetTotalDifficulty(db, headHeaderHash);
      var currentTdBlock := GetTotalDifficulty(db, headBlockHash);
      if currentTdHeader.None? || currentTdBlock.None? {
        return Err(NotFound);
      }
      if (block.number - 1, block.parentHash) !in db.td {
        return Err(NotFound);
      }
      var td := block.difficulty + db.td[(block.number - 1, block.parentHash)];
      var dbOps := [SetTd(IdOf(block), td), SetHeader(block)];
      FirstOps(db, block, td);
      ghost var to;
      if td > currentTdHeader.value {
        r, dbOps, to := TakeHead(block, td, dbOps);
        if r.Err? {
          return;
        }
      } else {
        if td > currentTdBlock.value {
          headBlockHash := block.hash;
        }
        dbOps := dbOps + [SetHashToNumber(block.hash, block.number)];
      }
      SaveHeads(db, dbOps, heads, headHeaderHash, headBlockHash);
      db := Batch(db, dbOps + [SetHeads(heads), SetHeadHeader(headHeaderHash), SetHeadBlock(headBlockHash)]);
      ghost var known := ever;
      ever := ever[IdOf(block) := block];
      if Heavier(before, oldHead, block) {
        HeadOutcome(genesis, known, before, oldHeads, oldHead, block, td, to, db);
      } else {
        SideOutcome(genesis, known, before, oldHeads, oldHead, block, td, db);
      }
      return Ok(());
    }

    lemma OrderedHead()
      requires Valid() && InOrder()
      ensures headBlockHash == headHeaderHash && CanonicalLine(genesis, db, headHeaderHash)
      ensures GetTotalDifficulty(db, headHeaderHash).Some?
    {
      hide Consistent;
      HeadReadable(genesis, ever, db, headHeaderHash);
    }

    /** The block becomes the head: the canonical chain is rewritten down to the common ancestor. */
    method TakeHead(block: Header, td: nat, ops: seq<DbOp>)
      returns (r: Result<(), ChainError>, ops': seq<DbOp>, ghost to: nat)
      requires Valid() && Putable(genesis, ever, db, block, td) && Batch(db, ops) == WithBlock(db, block, td)
      modifies this`heads, this`headHeaderHash, this`headBlockHash
      ensures CanonicalLine(genesis, db, old(headHeaderHash)) ==>
                (r.Ok? <==>
                   clique ==> Linked(genesis, db.headers, block) && block.number <= Height(db, old(headHeaderHash)) + 2)
      ensures r.Err? ==>
                heads == old(heads) && headHeaderHash == old(headHeaderHash) && headBlockHash == old(headBlockHash)
      ensures r.Ok? ==>
                && FirstGap(db.numberToHash, block.number + 1, to) && Batch(db, ops') == Reorganised(db, block, td, to)
                && heads == HeadsLeft(db, old(heads), block, to)
                && headHeaderHash == block.hash && headBlockHash == HeadBlockLeft(db, block)
    {
      hide Consistent;
      hide Linked;
      hide CanonicalLine;
      hide Rewritten;
      hide Completes;
      hide LastHash;
      hide Reorganised;
      hide NotForged;
      hide Batch;
      hide Stale;
      hide Gone;
      hide Retargeted;
      ConsistentNamed(genesis, ever, db);
      ops', to := ops, 0;
      if clique {
        var ancient := FindAncient(block);
        if ancient.Err? {
          return Err(ancient.error), ops', to;
        }
      }
      headHeaderHash := block.hash;
      headBlockHash := block.hash;
      ops', to := DeleteCanonicalChainReferences(block.number + 1, block.hash, ops');
      ReorganisedIs(db, block, td, to, ops');
      ops' := RebuildCanonical(block, ops');
      r := Ok(());
    }

    /** Each block in turn, up to the first that is refused. On any chain, total difficulties stay sums
        along the ancestry and the head stays the heaviest block; on a validating or Clique chain from which
        nothing was deleted, the whole state stays in order. */
    method PutBlocks(blocks: seq<Header>, accepted: seq<bool>) returns (r: Result<(), ChainError>)
      requires Valid() && |accepted| == |blocks| && Genuine(ever, blocks)
      modifies this
      ensures Valid()
      ensures old(Heaviest(db, headHeaderHash)) ==> Heaviest(db, headHeaderHash)
      ensures old(db.headers == ever) ==> db.headers == ever
      ensures old(InOrder() && db.headers == ever) && (validateBlocks || clique) ==> InOrder()
    {
      hide Consistent;
      hide Linked;
      hide Reorgs.InOrder;
      hide Heaviest;
      hide Filed;
      hide Acceptable;
      for i := 0 to |blocks|
        invariant Valid() && Genuine(ever, blocks)
        invariant old(Heaviest(db, headHeaderHash)) ==> Heaviest(db, headHeaderHash)
        invariant old(db.headers == ever) ==> db.headers == ever
        invariant old(InOrder() && db.headers == ever) && (validateBlocks || clique) ==> InOrder()
      {
        ghost var before := ever;
        if old(InOrder() && db.headers == ever) && (validateBlocks || clique) {
          PutKeepsOrder(blocks[i], accepted[i]);
        }
        r := PutBlock(blocks[i], accepted[i]);
        if r.Err? {
          return;
        }
        GenuineRest(before, blocks, i);
      }
      return Ok(());
    }

    /** Where a put is accepted, the new head is near enough for the walk to find every header. */
    lemma PutKeepsOrder(block: Header, accepted: bool)
      requires Valid() && InOrder() && db.headers == ever && (validateBlocks || clique)
      ensures Accepts(block, accepted) && Heavier(db, headHeaderHash, block) ==>
                && headHeaderHash in db.hashToNumber && Linked(genesis, db.headers, block)
                && block.number <= Height(db, headHeaderHash) + 2
    {
      hide Consistent;
      hide Linked;
      ConsistentNamed(genesis, ever, db);
      OrderedHead();
      if Accepts(block, accepted) && Heavier(db, headHeaderHash, block) {
        WholeLinked(genesis, ever, db, block);
        AcceptedNear(genesis, ever, clique, validateBlocks, db, headHeaderHash, block, accepted);
      }
    }

    // ---------- deleting blocks ----------

    method DelChild(blockHash: Hash, blockNumber: nat, headHash: Option<Hash>, ops: seq<DbOp>) returns (ops': seq<DbOp>)
      requires Named(db.headers) && (headHash.Some? ==> blockNumber in db.numberToHash)
      modifies this`headHeaderHash, this`headBlockHash
      ensures headHash.None? ==> ops' == ops + Deletions([(blockNumber, blockHash)])
                                 && headHeaderHash == old(headHeaderHash) && headBlockHash == old(headBlockHash)
      ensures headHash.Some? ==>
                && ops' == ops + Deletions(Doomed(db, blockNumber, blockHash))
                && headHeaderHash == (if old(headHeaderHash) in Hashes(Doomed(db, blockNumber, blockHash))
                                      then headHash.value else old(headHeaderHash))
                && headBlockHash == (if old(headBlockHash) in Hashes(Doomed(db, blockNumber, blockHash))
                                     then headHash.value else old(headBlockHash))
      decreases |NumbersFrom(db.numberToHash, blockNumber)|
    {
      hide Doomed;
      hide Deletions;
      hide Hashes;
      hide GetCanonicalHeader;
      var id := (blockNumber, blockHash);
      ops' := ops + [DelHeader(id), DelHashToNumber(blockHash), DelTd(id)];
      DeletionsCons(id, []);
      HashesCons(id, []);
      if headHash.None? {
        return;
      }
      if headHeaderHash == blockHash {
        headHeaderHash := headHash.value;
      }
      if headBlockHash == blockHash {
        headBlockHash := headHash.value;
      }
      NumbersFromShrinks(db.numberToHash, blockNumber);
      DoomedStep(db, blockNumber, blockHash);
      var childHeader := GetCanonicalHeader(db, blockNumber + 1);
      if childHeader.Some? {
        var child := childHeader.value;
        HashesCons(id, Doomed(db, child.number, child.hash));
        DeletionsCons(id, Doomed(db, child.number, child.hash));
        ops' := DelChild(child.hash, child.number, headHash, ops');
      }
    }

    method DelBlock(blockHash: Hash) returns (r: Result<(), ChainError>)
      requires Valid()
      modifies this
      ensures Valid() && ever == old(ever)
      ensures r.Err? ==> unchanged(this)
      ensures r.Ok? <==> old(blockHash in db.hashToNumber && GetHeader(db, blockHash, db.hashToNumber[blockHash]).Some?)
      ensures db.savedHeads == old(db.savedHeads) && db.savedHeadHeader == old(db.savedHeadHeader)
      ensures db.savedHeadBlock == old(db.savedHeadBlock)
      ensures r.Ok? && old(InOrder()) && !old(OnChain(db, blockHash)) ==>
                && InOrder() && heads == old(heads) && headHeaderHash == old(headHeaderHash)
                && db.numberToHash == old(db.numberToHash)
                && db.headers == old(db.headers - {(db.hashToNumber[blockHash], blockHash)})
      ensures r.Ok? && old(InOrder()) && old(OnChain(db, blockHash)) && old(db.hashToNumber[blockHash]) > 0 ==>
                var x := HeaderOf(old(db), blockHash);
                && InOrder() && headHeaderHash == x.parentHash
                && old(headHeaderHash) !in db.hashToNumber
                && (forall i: nat :: NumberToHash(db, i) == if i < x.number then NumberToHash(old(db), i) else None)
                && (forall id :: id in db.headers <==> id in old(db).headers && id !in Upper(old(db), x.number))
                && heads == MovedDown(old(db), old(heads), x)
      ensures r.Ok? && old(InOrder()) && old(OnChain(db, blockHash)) && old(db.hashToNumber[blockHash]) == 0 ==>
                db.numberToHash == map[]
      ensures !old(OnChain(db, blockHash)) && blockHash != old(headHeaderHash) && old(Heaviest(db, headHeaderHash)) ==>
                Heaviest(db, headHeaderHash)
    {
      hide Consistent;
      hide Linked;
      hide Reorgs.InOrder;
      hide Filed;
      hide Heaviest;
      hide Batch;
      hide Doomed;
      hide Upper;
      hide Deletions;
      hide Hashes;
      hide Gone;
      hide Without;
      hide Retargeted;
      hide MovedDown;
      hide Cut;
      hide Within;
      hide FirstGap;
      hide Stored;
      ghost var before, oldHeads, oldHead := db, heads, headHeaderHash;
      ConsistentNamed(genesis, ever, db);
      if blockHash !in db.hashToNumber {
        return Err(NotFound);
      }
      var header := GetHeader(db, blockHash, db.hashToNumber[blockHash]);
      if header.None? {
        return Err(NotFound);
      }
      var x := header.value;
      assert IdOf(x) == (db.hashToNumber[blockHash], blockHash);
      if InOrder() { OrderedHead(); }
      var canonicalHash := NumberToHash(db, x.number);
      var inCanonical := canonicalHash == Some(blockHash);
      var dbOps := DelChild(blockHash, x.number, if inCanonical then Some(x.parentHash) else None, []);
      DeletionBatch(db, if inCanonical then Doomed(db, x.number, blockHash) else [IdOf(x)]);
      ghost var to;
      if inCanonical {
        dbOps, to := DeleteCanonicalChainReferences(x.number, x.parentHash, dbOps);
      }
      db := Batch(db, dbOps);
      if inCanonical {
        ChainOutcome(genesis, ever, before, oldHeads, oldHead, x, to, db);
      } else {
        OffChainOutcome(genesis, ever, before, oldHeads, oldHead, x);
      }
      return Ok(());
    }

    // ---------- iterating ----------

    function IteratorStart(heads: Heads, name: string): nat
      reads this
    {
      var headHash := if name in heads then heads[name] else genesis;
      if headHash in db.hashToNumber then db.hashToNumber[headHash] else 0
    }

    /** `iterator`, without its callback: the named head moves up the canonical chain. */
    method Iterator(name: string, maxBlocks: Option<nat>) returns (r: Result<nat, ChainError>)
      requires Valid()
      modifies this
      ensures Valid() && ever == old(ever) && headHeaderHash == old(headHeaderHash)
      ensures headBlockHash == old(headBlockHash)
      ensures db == old(db).(savedHeads := db.savedHeads,
                             savedHeadHeader := db.savedHeadHeader, savedHeadBlock := db.savedHeadBlock)
      ensures old(InOrder()) ==> InOrder() && r.Ok?
      ensures old(Heaviest(db, headHeaderHash)) ==> Heaviest(db, headHeaderHash)
      ensures r.Ok? ==> Saved()
      ensures r.Ok? ==>
                var at := IteratorStart(old(heads), name) + r.value;
                && (maxBlocks.Some? ==> r.value <= maxBlocks.value)
                && (old(InOrder()) && maxBlocks != Some(r.value) ==> at + 1 !in db.numberToHash)
                && (r.value == 0 ==> heads == old(heads))
                && (r.value > 0 ==>
                      name in heads && NumberToHash(db, at) == Some(heads[name])
                      && heads == old(heads)[name := heads[name]])
    {
      hide Consistent;
      hide Filed;
      hide Batch;
      hide CanonicalLine;
      hide Reorgs.InOrder;
      hide GetBlockByNumber;
      hide NumbersFrom;
      hide Heaviest;
      hide Within;
      hide Named;
      ConsistentNamed(genesis, ever, db);
      if InOrder() {
        OrderedHead();
        IteratorBegins(genesis, ever, db, heads, headHeaderHash, name);
      }
      var headHash := if name in heads then heads[name] else genesis;
      if headHash !in db.hashToNumber {
        return Err(NotFound);
      }
      var start := db.hashToNumber[headHash];
      var ran := 0;
      while maxBlocks != Some(ran)
        invariant maxBlocks.Some? ==> ran <= maxBlocks.value
        invariant db == old(db) && headHeaderHash == old(headHeaderHash)
        invariant headBlockHash == old(headBlockHash) && ever == old(ever)
        invariant ran > 0 ==> start + ran in db.numberToHash
        invariant heads == if ran == 0 then old(heads) else old(heads)[name := db.numberToHash[start + ran]]
        invariant old(InOrder()) ==> start + ran <= Height(db, headHeaderHash)
        decreases |NumbersFrom(db.numberToHash, start + ran + 1)|
      {
        if old(InOrder()) && start + ran + 1 <= Height(db, headHeaderHash) {
          NextReadable(genesis, ever, db, headHeaderHash, start + ran + 1);
        }
        var next := GetBlockByNumber(db, start + ran + 1);
        if next.None? {
          break;
        }
        ReadByNumber(db, start + ran + 1);
        NumbersFromShrinks(db.numberToHash, start + ran + 1);
        heads := heads[name := next.value.hash];
        ran := ran + 1;
      }
      if old(InOrder()) { IteratedOrder(genesis, ever, db, old(heads), headHeaderHash, name, start + ran, heads); }
      SavedOutcome(genesis, ever, db, heads, headHeaderHash, headBlockHash);
      db := Batch(db, [] + [SetHeads(heads), SetHeadHeader(headHeaderHash), SetHeadBlock(headBlockHash)]);
      return Ok(ran);
    }
  }
}
