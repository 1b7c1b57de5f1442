/**
 * Whole runs of the blockchain object (packages/blockchain/src/index.ts): puts, deletions and
 * iterations in any order.
 */
module ChainRuns {
  import opened ByteStrings
  import opened ChainDbs
  import opened Ancestries
  import opened Reorgs
  import opened Blockchains

  datatype ChainOp =
    | Put(block: Header, accepted: bool)
    | Delete(hash: Hash)
    | Iterate(name: string, maxBlocks: Option<nat>)

  /** What does not change about a chain. */
  datatype Kind = Kind(genesis: Hash, clique: bool, validateBlocks: bool)

  /** The state of a chain at one moment; `ever` holds all headers stored so far. */
  datatype State = State(db: Db, heads: Heads, headHeader: Hash, headBlock: Hash, ever: Headers)

  ghost function KindOf(chain: Blockchain): Kind {
    Kind(chain.genesis, chain.clique, chain.validateBlocks)
  }

  ghost function StateOf(chain: Blockchain): State
    reads chain
  {
    State(chain.db, chain.heads, chain.headHeaderHash, chain.headBlockHash, chain.ever)
  }

  ghost predicate Sound(k: Kind, s: State) {
    Consistent(k.genesis, s.ever, s.db) && Filed(s.db)
  }

  ghost predicate Ordered(k: Kind, s: State) {
    Sound(k, s) && Reorgs.InOrder(k.genesis, s.db, s.heads, s.headHeader, s.headBlock)
  }

  /** The condition under which an operation leaves an ordered state ordered: the ancestry of a new head
      is stored and near enough for the walk, and the genesis block is not deleted. A Clique chain refuses
      the other blocks itself, and validation only lets near ones through. */
  ghost predicate Keeps(k: Kind, s: State, op: ChainOp)
    requires Ordered(k, s)
  {
    && (op.Put? && Takes(k, s, op.block, op.accepted) && Heavier(s.db, s.headHeader, op.block) ==>
          && (!k.clique ==> Linked(k.genesis, s.db.headers, op.block))
          && (!k.clique && !k.validateBlocks ==> op.block.number <= Height(s.db, s.headHeader) + 2))
    && (op.Delete? && OnChain(s.db, op.hash) ==> Height(s.db, op.hash) > 0)
  }

  ghost predicate Takes(k: Kind, s: State, x: Header, accepted: bool)
    requires Ordered(k, s)
  {
    Acceptable(k.genesis, k.clique, k.validateBlocks, s.db, s.headHeader, x, accepted)
  }

  /** What a put makes of an ordered state. */
  ghost predicate PutStep(k: Kind, s: State, x: Header, accepted: bool, t: State)
    requires Ordered(k, s)
  {
    if !Takes(k, s, x, accepted) then t == s
    else
      && t.ever == s.ever[IdOf(x) := x] && t.db.headers == s.db.headers[IdOf(x) := x]
      && t.db.td == s.db.td[IdOf(x) := s.db.td[ParentId(x)] + x.difficulty]
      && if Heavier(s.db, s.headHeader, x)
         then t.headHeader == x.hash
              && (Ordered(k, t) ==>
                    Linked(k.genesis, s.db.headers, x) && t.heads == MovedHeads(k.genesis, s.db, x, s.heads))
         else t.headHeader == s.headHeader && t.heads == s.heads && t.db.numberToHash == s.db.numberToHash
  }

  /** What a deletion makes of it. */
  ghost predicate DeleteStep(k: Kind, s: State, hash: Hash, t: State)
    requires Ordered(k, s)
  {
    if !Stored(s.db, hash) || GetHeader(s.db, hash, s.db.hashToNumber[hash]).None? then t == s
    else
      var x := HeaderOf(s.db, hash);
      && t.ever == s.ever
      && if !OnChain(s.db, hash)
         then && t.heads == s.heads && t.headHeader == s.headHeader && t.db.numberToHash == s.db.numberToHash
              && t.db.headers == s.db.headers - {IdOf(x)}
         else if x.number == 0 then t.db.numberToHash == map[]
         else && t.headHeader == x.parentHash && t.heads == MovedDown(s.db, s.heads, x)
              && (forall i: nat :: NumberToHash(t.db, i) == if i < x.number then NumberToHash(s.db, i) else None)
              && forall id :: id in t.db.headers <==> id in s.db.headers && id !in Upper(s.db, x.number)
  }

  /** The number at which a named head stands. */
  ghost function StandsAt(k: Kind, s: State, name: string): nat {
    var h := if name in s.heads then s.heads[name] else k.genesis;
    if h in s.db.hashToNumber then s.db.hashToNumber[h] else 0
  }

  /** What an iteration makes of it: the head moves up by all blocks, or by as many as it may. */
  ghost predicate IterateStep(k: Kind, s: State, name: string, maxBlocks: Option<nat>, t: State)
    requires Ordered(k, s)
  {
    var at, top := StandsAt(k, s, name), Height(s.db, s.headHeader);
    var end := if maxBlocks.Some? && at + maxBlocks.value < top then at + maxBlocks.value else top;
    && t.ever == s.ever && t.headHeader == s.headHeader && t.headBlock == s.headBlock
    && t.db == s.db.(savedHeads := Some(t.heads),
                     savedHeadHeader := Some(t.headHeader), savedHeadBlock := Some(t.headBlock))
    && at <= end && (if end == at then t.heads == s.heads
                     else end in s.db.numberToHash && t.heads == s.heads[name := s.db.numberToHash[end]])
  }

  /** No stored block is heavier than the head. */
  ghost predicate Leads(s: State) {
    Heaviest(s.db, s.headHeader)
  }

  /** The operation deletes neither the head nor a canonical block. */
  ghost predicate Spares(s: State, op: ChainOp) {
    op.Delete? ==> !OnChain(s.db, op.hash) && op.hash != s.headHeader
  }

  ghost predicate Step(k: Kind, s: State, op: ChainOp, t: State)
    requires Ordered(k, s)
  {
    && (op.Put? ==> PutStep(k, s, op.block, op.accepted, t))
    && (op.Delete? ==> DeleteStep(k, s, op.hash, t))
    && (op.Iterate? ==> IterateStep(k, s, op.name, op.maxBlocks, t))
  }

  lemma NeverEmpty(k: Kind, s: State)
    requires Ordered(k, s)
    ensures s.db.numberToHash != map[]
  {
    hide Consistent;
    HeadNumber(k.genesis, s.ever, s.db, s.headHeader);
  }

  lemma TakenNear(k: Kind, s: State, x: Header, accepted: bool)
    requires Ordered(k, s) && Takes(k, s, x, accepted) && Heavier(s.db, s.headHeader, x)
    ensures Keeps(k, s, Put(x, accepted)) <==>
            Linked(k.genesis, s.db.headers, x) && x.number <= Height(s.db, s.headHeader) + 2
  {
    hide Consistent;
    hide CanonicalLine;
    hide Linked;
    if k.validateBlocks || k.clique {
      AcceptedNear(k.genesis, s.ever, k.clique, k.validateBlocks, s.db, s.headHeader, x, accepted);
    }
  }

  method RunPut(chain: Blockchain, block: Header, accepted: bool)
    requires chain.Valid() && NotForged(chain.ever, block)
    modifies chain
    ensures chain.Valid()
    ensures StateOf(chain).ever == old(chain.ever) || StateOf(chain).ever == old(chain.ever)[IdOf(block) := block]
    ensures var k, s, t := KindOf(chain), old(StateOf(chain)), StateOf(chain);
      Ordered(k, s) ==> PutStep(k, s, block, accepted, t) && (Ordered(k, t) <==> Keeps(k, s, Put(block, accepted)))
    ensures old(Leads(StateOf(chain))) ==> Leads(StateOf(chain))
  {
    hide Heaviest;
    hide Consistent;
    hide Filed;
    hide Linked;
    hide Reorgs.InOrder;
    hide Heaviest;
    hide MovedHeads;
    hide NotForged;
    hide GetBlock;
    ghost var k, s := KindOf(chain), StateOf(chain);
    var r := chain.PutBlock(block, accepted);
    if Ordered(k, s) && r.Ok? && Heavier(s.db, s.headHeader, block) {
      TakenNear(k, s, block, accepted);
    }
  }

  lemma HeaderNamed(k: Kind, s: State, hash: Hash)
    requires Ordered(k, s) && hash in s.db.hashToNumber
    ensures Stored(s.db, hash) && IdOf(HeaderOf(s.db, hash)) == (s.db.hashToNumber[hash], hash)
  {
    ConsistentNamed(k.genesis, s.ever, s.db);
  }

  method RunDelete(chain: Blockchain, hash: Hash)
    requires chain.Valid()
    modifies chain
    ensures chain.Valid() && chain.ever == old(chain.ever)
    ensures var k, s, t := KindOf(chain), old(StateOf(chain)), StateOf(chain);
      Ordered(k, s) ==> DeleteStep(k, s, hash, t) && (Ordered(k, t) <==> Keeps(k, s, Delete(hash)))
    ensures old(Leads(StateOf(chain))) && old(Spares(StateOf(chain), Delete(hash))) ==> Leads(StateOf(chain))
  {
    hide Heaviest;
    hide Consistent;
    hide Filed;
    hide Linked;
    hide Reorgs.InOrder;
    hide MovedDown;
    hide Upper;
    ghost var k, s := KindOf(chain), StateOf(chain);
    var r := chain.DelBlock(hash);
    ghost var t := StateOf(chain);
    if Ordered(k, s) {
      if hash in s.db.hashToNumber { HeaderNamed(k, s, hash); }
      if Ordered(k, t) { NeverEmpty(k, t); }
    }
  }

  /** Where an iteration ends that ran over so many blocks, if it stopped only at the top or at its limit. */
  lemma IterationEnd(k: Kind, s: State, name: string, maxBlocks: Option<nat>, ran: nat)
    requires Ordered(k, s) && (maxBlocks.Some? ==> ran <= maxBlocks.value)
    requires maxBlocks != Some(ran) ==> StandsAt(k, s, name) + ran + 1 !in s.db.numberToHash
    requires ran > 0 ==> StandsAt(k, s, name) + ran in s.db.numberToHash
    ensures var at, top := StandsAt(k, s, name), Height(s.db, s.headHeader);
      at + ran == if maxBlocks.Some? && at + maxBlocks.value < top then at + maxBlocks.value else top
  {
    hide Consistent;
    hide Linked;
    IteratorBegins(k.genesis, s.ever, s.db, s.heads, s.headHeader, name);
    HeadNumber(k.genesis, s.ever, s.db, s.headHeader);
    var at, top := StandsAt(k, s, name), Height(s.db, s.headHeader);
    assert at + ran <= top;
    assert maxBlocks != Some(ran) ==> at + ran + 1 > top;
    assert maxBlocks.Some? && maxBlocks.value == ran ==> maxBlocks == Some(ran);
  }

  method RunIterate(chain: Blockchain, name: string, maxBlocks: Option<nat>)
    requires chain.Valid()
    modifies chain
    ensures chain.Valid() && chain.ever == old(chain.ever)
    ensures var k, s, t := KindOf(chain), old(StateOf(chain)), StateOf(chain);
      Ordered(k, s) ==> IterateStep(k, s, name, maxBlocks, t) && Ordered(k, t)
    ensures old(Leads(StateOf(chain))) ==> Leads(StateOf(chain))
  {
    hide Heaviest;
    hide Consistent;
    hide Filed;
    hide Reorgs.InOrder;
    ghost var k, s := KindOf(chain), StateOf(chain);
    assert chain.IteratorStart(chain.heads, name) == StandsAt(k, s, name);
    var r := chain.Iterator(name, maxBlocks);
    if Ordered(k, s) {
      IterationEnd(k, s, name, maxBlocks, r.value);
    }
  }

  /** The blocks of a run are genuine, among themselves and with those stored. */
  ghost predicate Trusted(ever: Headers, ops: seq<ChainOp>) {
    && (forall op :: op in ops && op.Put? ==> NotForged(ever, op.block))
    && forall op, other :: op in ops && other in ops && op.Put? && other.Put? && op.block.hash == other.block.hash ==>
         op.block == other.block
  }

  lemma TrustedRest(ever: Headers, ops: seq<ChainOp>, op: ChainOp)
    requires Trusted(ever, ops) && op in ops && op.Put?
    ensures NotForged(ever, op.block) && Trusted(ever[IdOf(op.block) := op.block], ops)
  {}

  /** Any of the three calls. */
  method RunOp(chain: Blockchain, op: ChainOp, ghost ops: seq<ChainOp>)
    requires chain.Valid() && Trusted(chain.ever, ops) && op in ops
    modifies chain
    ensures chain.Valid() && Trusted(chain.ever, ops)
    ensures var k, s, t := KindOf(chain), old(StateOf(chain)), StateOf(chain);
      Ordered(k, s) ==> Step(k, s, op, t) && (Ordered(k, t) <==> Keeps(k, s, op))
    ensures old(Leads(StateOf(chain))) && old(Spares(StateOf(chain), op)) ==> Leads(StateOf(chain))
  {
    hide Heaviest;
    hide Ordered;
    hide PutStep;
    hide DeleteStep;
    hide IterateStep;
    hide Trusted;
    if op.Put? {
      TrustedRest(chain.ever, ops, op);
      RunPut(chain, op.block, op.accepted);
    } else if op.Delete? {
      RunDelete(chain, op.hash);
    } else {
      RunIterate(chain, op.name, op.maxBlocks);
    }
  }

  /** What a run of operations leaves behind: every call did its step, and kept the order exactly
      when its condition held. */
  ghost predicate Traced(k: Kind, trace: seq<State>, ops: seq<ChainOp>) {
    && |trace| == |ops| + 1
    && (forall i :: 0 <= i < |ops| && Ordered(k, trace[i]) ==>
          Step(k, trace[i], ops[i], trace[i + 1]) && (Ordered(k, trace[i + 1]) <==> Keeps(k, trace[i], ops[i])))
    && forall i :: 0 <= i < |ops| && Leads(trace[i]) && Spares(trace[i], ops[i]) ==> Leads(trace[i + 1])
  }

  ghost predicate AlwaysOrdered(k: Kind, trace: seq<State>) {
    forall s :: s in trace ==> Ordered(k, s)
  }

  ghost predicate AlwaysKeeps(k: Kind, trace: seq<State>, ops: seq<ChainOp>)
    requires |trace| == |ops| + 1
  {
    forall i :: 0 <= i < |ops| ==> Ordered(k, trace[i]) && Keeps(k, trace[i], ops[i])
  }

  lemma TracedMore(k: Kind, trace: seq<State>, ops: seq<ChainOp>, i: nat, t: State)
    requires i < |ops| && Traced(k, trace, ops[..i])
    requires Ordered(k, trace[i]) ==>
               Step(k, trace[i], ops[i], t) && (Ordered(k, t) <==> Keeps(k, trace[i], ops[i]))
    requires Leads(trace[i]) && Spares(trace[i], ops[i]) ==> Leads(t)
    ensures Traced(k, trace + [t], ops[..i + 1])
  {
    hide Leads;
    hide Spares;
    hide Ordered;
    hide Step;
    hide Keeps;
    assert ops[..i + 1] == ops[..i] + [ops[i]];
  }

  lemma TracedNone(k: Kind, s: State, ops: seq<ChainOp>)
    ensures Traced(k, [s], ops[..0])
  {}

  lemma StartsOrdered(chain: Blockchain)
    requires chain.Valid() && chain.InOrder()
    ensures Ordered(KindOf(chain), StateOf(chain))
  {}

  /** A run stays in order if and only if every operation meets its condition when it is called. */
  lemma OrderedIff(k: Kind, trace: seq<State>, ops: seq<ChainOp>)
    requires Traced(k, trace, ops) && Ordered(k, trace[0])
    ensures AlwaysOrdered(k, trace) <==> AlwaysKeeps(k, trace, ops)
  {
    hide Ordered;
    hide Step;
    hide Keeps;
    if AlwaysKeeps(k, trace, ops) {
      forall i | 0 <= i < |trace| ensures Ordered(k, trace[i]) {
        if i > 0 { assert Keeps(k, trace[i - 1], ops[i - 1]); }
      }
    }
    if AlwaysOrdered(k, trace) {
      forall i | 0 <= i < |ops| ensures Ordered(k, trace[i]) && Keeps(k, trace[i], ops[i]) {
        assert trace[i] in trace && trace[i + 1] in trace;
      }
    }
  }

  /** As long as no canonical block and no head is deleted, the head is the heaviest block, in order or not. */
  lemma {:induction false} StillLeads(k: Kind, trace: seq<State>, ops: seq<ChainOp>, n: nat)
    requires Traced(k, trace, ops) && Leads(trace[0]) && n <= |ops|
    requires forall i :: 0 <= i < n ==> Spares(trace[i], ops[i])
    ensures Leads(trace[n])
    decreases n
  {
    hide Ordered;
    hide Step;
    hide Keeps;
    hide Leads;
    hide Spares;
    if n > 0 { StillLeads(k, trace, ops, n - 1); }
  }

  /** The operations in turn. */
  method Run(chain: Blockchain, ops: seq<ChainOp>) returns (ghost trace: seq<State>)
    requires chain.Valid() && Trusted(chain.ever, ops)
    modifies chain
    ensures chain.Valid() && Traced(KindOf(chain), trace, ops)
    ensures trace[0] == old(StateOf(chain)) && trace[|ops|] == StateOf(chain)
    ensures old(chain.InOrder()) ==> (AlwaysOrdered(KindOf(chain), trace) <==> AlwaysKeeps(KindOf(chain), trace, ops))
  {
    hide Ordered;
    hide Keeps;
    hide Step;
    hide Trusted;
    hide Traced;
    hide AlwaysOrdered;
    hide AlwaysKeeps;
    hide Consistent;
    hide Filed;
    hide Reorgs.InOrder;
    hide Leads;
    hide Spares;
    ghost var k := KindOf(chain);
    trace := [StateOf(chain)];
    if chain.InOrder() { StartsOrdered(chain); }
    TracedNone(k, StateOf(chain), ops);
    for i := 0 to |ops|
      invariant chain.Valid() && Trusted(chain.ever, ops) && |trace| == i + 1
      invariant trace[0] == old(StateOf(chain)) && trace[i] == StateOf(chain) && Traced(k, trace, ops[..i])
    {
      RunOp(chain, ops[i], ops);
      TracedMore(k, trace, ops, i, StateOf(chain));
      trace := trace + [StateOf(chain)];
    }
    assert ops[..|ops|] == ops;
    if old(chain.InOrder()) { OrderedIff(k, trace, ops); }
  }

  // ---------- a put after a deletion ----------

  /** The least difficulty of an Ethash block. */
  const MINIMUM_DIFFICULTY := 131072

  /** Every block ever stored has the least difficulty. */
  ghost predicate Level(s: State) {
    forall id :: id in s.ever ==> s.ever[id].difficulty == MINIMUM_DIFFICULTY
  }

  lemma {:induction false} LevelWeight(g: Hash, hs: Headers, x: Header)
    requires Named(hs) && Linked(g, hs, x) && x.difficulty == MINIMUM_DIFFICULTY
    requires forall id :: id in hs ==> hs[id].difficulty == MINIMUM_DIFFICULTY
    ensures Weight(g, hs, x) == (x.number + 1) * MINIMUM_DIFFICULTY
    decreases x.number
  {
    if x.number > 0 {
      assert IdOf(hs[ParentId(x)]) == ParentId(x);
      LevelWeight(g, hs, hs[ParentId(x)]);
    }
  }

  lemma LevelTd(k: Kind, s: State, id: BlockId)
    requires Ordered(k, s) && Level(s) && id in s.db.headers
    ensures id in s.db.td && s.db.td[id] == (id.0 + 1) * MINIMUM_DIFFICULTY
  {
    hide Weight;
    LevelWeight(k.genesis, s.ever, s.ever[id]);
  }

  lemma HeightIs(k: Kind, s: State, x: Header)
    requires Ordered(k, s) && IdOf(x) in s.db.headers
    ensures x.hash in s.db.hashToNumber && Height(s.db, x.hash) == x.number
  {
    hide CanonicalLine;
  }

  lemma StoredTd(k: Kind, s: State, id: BlockId)
    requires Ordered(k, s) && id in s.db.headers
    ensures id in s.db.td
  {
    hide CanonicalLine;
  }

  /** A stored block can be read by its hash if its parent is stored and it is near the head. */
  lemma ReadableBlock(k: Kind, s: State, x: Header)
    requires Ordered(k, s) && IdOf(x) in s.db.headers && s.db.headers[IdOf(x)] == x
    requires x.number <= Height(s.db, s.headHeader) + 1 && (x.number > 0 ==> ParentId(x) in s.db.headers)
    ensures GetBlock(s.db, x.hash) == Some(x)
  {
    hide Consistent;
    hide CanonicalLine;
    hide Linked;
    hide Line;
    HeightIs(k, s, x);
    HeadNumber(k.genesis, s.ever, s.db, s.headHeader);
    if x.number > 0 {
      StoredTd(k, s, ParentId(x));
      CanonicalBlock(k.genesis, s.ever, s.db, s.headHeader, x.number - 1);
    }
  }

  /** Among blocks of one difficulty, a valid put above the head is a put of a higher number. */
  lemma LevelPut(k: Kind, s: State, x: Header, p: Header)
    requires Ordered(k, s) && Level(s) && k.validateBlocks && !k.clique && x.difficulty == MINIMUM_DIFFICULTY
    requires x.number > 0 && IdOf(p) == ParentId(x) && IdOf(p) in s.db.headers && s.db.headers[IdOf(p)] == p
    requires p.number <= Height(s.db, s.headHeader) + 1 && (p.number > 0 ==> ParentId(p) in s.db.headers)
    ensures Takes(k, s, x, true)
    ensures Heavier(s.db, s.headHeader, x) <==> x.number > Height(s.db, s.headHeader)
  {
    hide Consistent;
    hide CanonicalLine;
    hide GetBlock;
    ReadableBlock(k, s, p);
    LevelTd(k, s, IdOf(p));
    HeadNumber(k.genesis, s.ever, s.db, s.headHeader);
    LevelTd(k, s, (Height(s.db, s.headHeader), s.headHeader));
  }

  /** Hashes for eight blocks: 0 is the genesis block, 1 to 3 stand above it, 4 to 7 beside them. */
  ghost predicate EightHashes(h: seq<Hash>) {
    |h| == 8 && forall i, j :: 0 <= i < j < 8 ==> h[i] != h[j]
  }

  const NO_PARENT: Hash :=
    [0, 0, 0, 0, 0, 0, 0, 0, 0, 0, 0, 0, 0, 0, 0, 0, 0, 0, 0, 0, 0, 0, 0, 0, 0, 0, 0, 0, 0, 0, 0, 0]

  function NumberAt(i: nat): nat {
    if i <= 3 then i else i - 3
  }

  function ParentAt(i: nat): nat {
    if i == 4 || i == 0 then 0 else i - 1
  }

  function BlockAt(h: seq<Hash>, i: nat): Header
    requires |h| == 8 && i < 8
  {
    Header(h[i], if i == 0 then NO_PARENT else h[ParentAt(i)], NumberAt(i), MINIMUM_DIFFICULTY)
  }

  /** The headers after the first n puts. */
  function HeadersAfter(h: seq<Hash>, n: nat): Headers
    requires |h| == 8 && n < 8
  {
    var x := BlockAt(h, n);
    if n == 0 then map[IdOf(x) := x] else HeadersAfter(h, n - 1)[IdOf(x) := x]
  }

  lemma {:induction false} StoredAt(h: seq<Hash>, n: nat, i: nat)
    requires EightHashes(h) && i <= n < 8
    ensures IdOf(BlockAt(h, i)) in HeadersAfter(h, n) && HeadersAfter(h, n)[IdOf(BlockAt(h, i))] == BlockAt(h, i)
    decreases n
  {
    if i < n { StoredAt(h, n - 1, i); }
  }

  /** Three blocks, then three beside them, then the deletion of the lowest of these, then one more. */
  function HoleOps(h: seq<Hash>): seq<ChainOp>
    requires |h| == 8
  {
    [Put(BlockAt(h, 1), true), Put(BlockAt(h, 2), true), Put(BlockAt(h, 3), true),
     Put(BlockAt(h, 4), true), Put(BlockAt(h, 5), true), Put(BlockAt(h, 6), true),
     Delete(h[4]), Put(BlockAt(h, 7), true)]
  }

  /** The state after n puts: block n, but at most block 3, is the head. */
  ghost predicate Grown(h: seq<Hash>, k: Kind, s: State, n: nat)
    requires |h| == 8 && n < 8
  {
    var top := if n <= 3 then n else 3;
    && Ordered(k, s) && s.db.headers == s.ever == HeadersAfter(h, n)
    && s.headHeader == h[top] && Height(s.db, s.headHeader) == top
  }

  lemma {:induction false} AllLevel(h: seq<Hash>, n: nat)
    requires |h| == 8 && n < 8
    ensures forall id :: id in HeadersAfter(h, n) ==> HeadersAfter(h, n)[id].difficulty == MINIMUM_DIFFICULTY
    decreases n
  {
    if n > 0 { AllLevel(h, n - 1); }
  }

  lemma WholeKeeps(k: Kind, s: State, x: Header)
    requires Ordered(k, s) && s.db.headers == s.ever && k.validateBlocks && Takes(k, s, x, true)
    ensures Keeps(k, s, Put(x, true))
  {
    hide Consistent;
    hide CanonicalLine;
    hide GetBlock;
    WholeLinked(k.genesis, s.ever, s.db, x);
  }

  /** One more put of the eight blocks, below the last. */
  lemma GrownMore(h: seq<Hash>, k: Kind, s: State, n: nat, t: State)
    requires EightHashes(h) && k == Kind(h[0], false, true) && n < 6 && Grown(h, k, s, n)
    requires var x := BlockAt(h, n + 1);
      PutStep(k, s, x, true, t) && (Ordered(k, t) <==> Keeps(k, s, Put(x, true)))
    ensures Grown(h, k, t, n + 1)
  {
    hide Ordered;
    hide Takes;
    hide Keeps;
    hide Heavier;
    hide MovedHeads;
    hide Linked;
    hide Level;
    var x, p := BlockAt(h, n + 1), BlockAt(h, ParentAt(n + 1));
    StoredAt(h, n, ParentAt(n + 1));
    StoredAt(h, n, ParentAt(ParentAt(n + 1)));
    IsLevel(h, s, n);
    LevelPut(k, s, x, p);
    WholeKeeps(k, s, x);
    var top := if n + 1 <= 3 then n + 1 else 3;
    StoredAt(h, n + 1, top);
    HeightIs(k, t, BlockAt(h, top));
  }

  lemma IsLevel(h: seq<Hash>, s: State, n: nat)
    requires |h| == 8 && n < 8 && s.ever == HeadersAfter(h, n)
    ensures Level(s)
  {
    AllLevel(h, n);
  }

  lemma {:induction false} GrownAll(h: seq<Hash>, trace: seq<State>, n: nat)
    requires EightHashes(h) && Traced(Kind(h[0], false, true), trace, HoleOps(h)) && n <= 6
    requires Grown(h, Kind(h[0], false, true), trace[0], 0)
    ensures Grown(h, Kind(h[0], false, true), trace[n], n)
    decreases n
  {
    hide Grown;
    hide PutStep;
    hide Keeps;
    if n > 0 {
      var k := Kind(h[0], false, true);
      GrownAll(h, trace, n - 1);
      GrownOrdered(h, k, trace[n - 1], n - 1);
      assert HoleOps(h)[n - 1] == Put(BlockAt(h, n), true);
      GrownMore(h, k, trace[n - 1], n - 1, trace[n]);
    }
  }

  lemma GrownOrdered(h: seq<Hash>, k: Kind, s: State, n: nat)
    requires |h| == 8 && n < 8 && Grown(h, k, s, n)
    ensures Ordered(k, s)
  {}

  /** The canonical hash at number 1 is that of block 1. */
  lemma FirstIsCanonical(h: seq<Hash>, k: Kind, s: State)
    requires EightHashes(h) && k.genesis == h[0] && Grown(h, k, s, 6)
    ensures NumberToHash(s.db, 1) == Some(h[1])
  {
    hide Consistent;
    hide CanonicalLine;
    hide HeadersAfter;
    StoredAt(h, 6, 3);
    StoredAt(h, 6, 2);
    HeadNumber(k.genesis, s.ever, s.db, s.headHeader);
    CanonicalParents(k.genesis, s.ever, s.db, s.headHeader, 2);
    CanonicalParents(k.genesis, s.ever, s.db, s.headHeader, 1);
  }

  /** The deletion beside the chain only removes its block. */
  lemma HoleDeleted(h: seq<Hash>, k: Kind, s: State, t: State)
    requires EightHashes(h) && k == Kind(h[0], false, true) && Grown(h, k, s, 6)
    requires DeleteStep(k, s, h[4], t) && (Ordered(k, t) <==> Keeps(k, s, Delete(h[4])))
    ensures Ordered(k, t) && t.ever == s.ever && t.headHeader == h[3]
    ensures t.db.headers == HeadersAfter(h, 6) - {(1, h[4])}
  {
    hide Ordered;
    hide Takes;
    hide HeadersAfter;
    FirstIsCanonical(h, k, s);
    StoredAt(h, 6, 0);
    StoredAt(h, 6, 4);
    HeightIs(k, s, BlockAt(h, 4));
    ReadableBlock(k, s, BlockAt(h, 4));
  }

  /** Run on a validating chain that is not Clique, with blocks of one difficulty: after a block beside
      the chain was deleted, the put of a valid and heavier block three above it is accepted and breaks
      the canonical chain, because the new head's ancestry has a hole. */
  lemma HoleExample(h: seq<Hash>, trace: seq<State>)
    requires EightHashes(h) && Traced(Kind(h[0], false, true), trace, HoleOps(h))
    requires Grown(h, Kind(h[0], false, true), trace[0], 0)
    ensures forall i :: 0 <= i <= 7 ==> Ordered(Kind(h[0], false, true), trace[i])
    ensures Takes(Kind(h[0], false, true), trace[7], BlockAt(h, 7), true)
    ensures Heavier(trace[7].db, trace[7].headHeader, BlockAt(h, 7))
    ensures !Ordered(Kind(h[0], false, true), trace[8])
  {
    hide Ordered;
    hide Takes;
    hide Keeps;
    hide DeleteStep;
    hide PutStep;
    hide Heavier;
    hide Linked;
    hide Grown;
    var k := Kind(h[0], false, true);
    forall i | 0 <= i <= 6 ensures Ordered(k, trace[i]) {
      GrownAll(h, trace, i);
      GrownOrdered(h, k, trace[i], i);
    }
    GrownAll(h, trace, 6);
    assert HoleOps(h)[6] == Delete(h[4]) && HoleOps(h)[7] == Put(BlockAt(h, 7), true);
    HoleFollows(h, k, trace[6], trace[7]);
  }

  lemma HoleFollows(h: seq<Hash>, k: Kind, s: State, t: State)
    requires EightHashes(h) && k == Kind(h[0], false, true) && Grown(h, k, s, 6)
    requires DeleteStep(k, s, h[4], t) && (Ordered(k, t) <==> Keeps(k, s, Delete(h[4])))
    ensures Ordered(k, t) && Takes(k, t, BlockAt(h, 7), true) && Heavier(t.db, t.headHeader, BlockAt(h, 7))
    ensures !Keeps(k, t, Put(BlockAt(h, 7), true))
  {
    hide Ordered;
    hide Takes;
    hide DeleteStep;
    hide Heavier;
    hide Linked;
    hide HeadersAfter;
    HoleDeleted(h, k, s, t);
    IsLevel(h, t, 6);
    StoredAt(h, 6, 3);
    StoredAt(h, 6, 5);
    StoredAt(h, 6, 6);
    HeightIs(k, t, BlockAt(h, 3));
    LevelPut(k, t, BlockAt(h, 7), BlockAt(h, 6));
    OrderedNamed(k, t);
    HoleStep(k.genesis, t.db.headers, BlockAt(h, 5));
    HoleStep(k.genesis, t.db.headers, BlockAt(h, 6));
    HoleStep(k.genesis, t.db.headers, BlockAt(h, 7));
  }

  lemma OrderedNamed(k: Kind, s: State)
    requires Ordered(k, s)
    ensures Named(s.db.headers)
  {}

  lemma HoleStep(g: Hash, hs: Headers, x: Header)
    requires Named(hs) && x.number > 0 && (ParentId(x) in hs ==> !Linked(g, hs, hs[ParentId(x)]))
    ensures !Linked(g, hs, x)
  {}

  lemma SameBlock(h: seq<Hash>, i: nat, j: nat)
    requires EightHashes(h) && i < 8 && j < 8 && BlockAt(h, i).hash == BlockAt(h, j).hash
    ensures BlockAt(h, i) == BlockAt(h, j)
  {
    assert i == j;
  }

  lemma HoleBlocks(h: seq<Hash>, op: ChainOp) returns (i: nat)
    requires |h| == 8 && op in HoleOps(h) && op.Put?
    ensures 0 < i < 8 && op.block == BlockAt(h, i)
  {
    var j :| 0 <= j < 8 && HoleOps(h)[j] == op;
    i := if j < 6 then j + 1 else 7;
  }

  lemma HoleTrusted(h: seq<Hash>, ever: Headers)
    requires EightHashes(h) && ever == HeadersAfter(h, 0)
    ensures Trusted(ever, HoleOps(h))
  {
    var ops := HoleOps(h);
    hide HoleOps;
    forall op | op in ops && op.Put? ensures NotForged(ever, op.block) {
      var i := HoleBlocks(h, op);
    }
    forall op, other | op in ops && other in ops && op.Put? && other.Put? && op.block.hash == other.block.hash
      ensures op.block == other.block
    {
      var i := HoleBlocks(h, op);
      var j := HoleBlocks(h, other);
      SameBlock(h, i, j);
    }
  }

  lemma StartsGrown(h: seq<Hash>, k: Kind, s: State)
    requires |h| == 8 && Ordered(k, s) && s.db.headers == s.ever == map[(0, h[0]) := BlockAt(h, 0)]
    requires s.headHeader == h[0]
    ensures Grown(h, k, s, 0)
  {
    hide Ordered;
    HeightIs(k, s, BlockAt(h, 0));
  }

  lemma NotInOrder(chain: Blockchain)
    requires chain.Valid() && !Ordered(KindOf(chain), StateOf(chain))
    ensures !chain.InOrder()
  {}

  /** The run itself, from an empty database, whatever the hashes of the blocks. */
  method HoleRun(h: seq<Hash>) returns (chain: Blockchain, ghost trace: seq<State>)
    requires EightHashes(h)
    ensures fresh(chain) && KindOf(chain) == Kind(h[0], false, true) && chain.Valid() && !chain.InOrder()
    ensures Traced(KindOf(chain), trace, HoleOps(h)) && trace[8] == StateOf(chain)
    ensures Ordered(KindOf(chain), trace[7]) && Takes(KindOf(chain), trace[7], BlockAt(h, 7), true)
  {
    hide EightHashes;
    hide HoleOps;
    hide Grown;
    hide Ordered;
    hide Takes;
    hide Heavier;
    hide Trusted;
    hide AlwaysOrdered;
    hide AlwaysKeeps;
    hide Step;
    hide Keeps;
    hide Consistent;
    hide Filed;
    hide Reorgs.InOrder;
    hide Heaviest;
    LengthEight(h);
    chain := new Blockchain(BlockAt(h, 0), false, true);
    StartsOrdered(chain);
    StartsGrown(h, KindOf(chain), StateOf(chain));
    HoleTrusted(h, chain.ever);
    trace := Run(chain, HoleOps(h));
    HoleExample(h, trace);
    NotInOrder(chain);
  }

  lemma LengthEight(h: seq<Hash>)
    requires EightHashes(h)
    ensures |h| == 8 && |HoleOps(h)| == 8
  {}
}
