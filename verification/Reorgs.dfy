/**
 * What a reorganisation does to the canonical chain, and why: the backward walk of
 * `_rebuildCanonical` over a database whose writes are still pending, the highest common
 * block, and the exact condition under which the walk finds every header.
 */
module Reorgs {
  import opened ByteStrings
  import opened ChainDbs
  import opened Ancestries

  // ---------- invariants ----------

  /** The tables agree with one another and with the headers ever stored: every total
      difficulty is the sum of the difficulties along the ancestry. */
  ghost predicate Consistent(g: Hash, ever: Headers, db: Db) {
    && Archive(g, ever)
    && Named(db.headers) && Within(db.headers, ever)
    && (forall id :: id in db.headers <==> id in db.td)
    && (forall id :: id in db.td ==> db.td[id] == Weight(g, ever, ever[id]))
    && Indexed(db)
  }

  /** All headers ever stored: each with its whole ancestry, and no two with one hash. */
  ghost predicate Archive(g: Hash, ever: Headers) {
    && Named(ever)
    && (forall id {:trigger Linked(g, ever, ever[id])} :: id in ever ==> Linked(g, ever, ever[id]))
    && (forall id, other :: id in ever && other in ever && id.1 == other.1 ==> id == other)
  }

  /** Hashes lead to the numbers of the stored headers. */
  ghost predicate Indexed(db: Db) {
    && (forall id :: id in db.headers ==> id.1 in db.hashToNumber && db.hashToNumber[id.1] == id.0)
    && (forall h :: h in db.hashToNumber ==> (db.hashToNumber[h], h) in db.headers)
  }

  /** The canonical numbers are exactly this line. */
  ghost predicate Spells(nums: map<nat, Hash>, line: seq<Hash>) {
    (forall i: nat :: i in nums <==> i < |line|) && forall i: nat :: i in nums ==> nums[i] == line[i]
  }

  /** The header of a known hash. */
  function HeaderOf(db: Db, h: Hash): Header
    requires h in db.hashToNumber && (db.hashToNumber[h], h) in db.headers
  {
    db.headers[(db.hashToNumber[h], h)]
  }

  ghost predicate Stored(db: Db, h: Hash) {
    h in db.hashToNumber && (db.hashToNumber[h], h) in db.headers
  }

  /** Number by number, the canonical chain is the ancestry of the head: no gap, nothing above. */
  ghost predicate CanonicalLine(g: Hash, db: Db, head: Hash) {
    && Named(db.headers) && Stored(db, head)
    && Linked(g, db.headers, HeaderOf(db, head))
    && Spells(db.numberToHash, Line(g, db.headers, HeaderOf(db, head)))
  }

  ghost predicate OnChain(db: Db, h: Hash) {
    h in db.hashToNumber && NumberToHash(db, db.hashToNumber[h]) == Some(h)
  }

  ghost predicate AllOnChain(db: Db, heads: Heads) {
    forall name: string :: name in heads ==> OnChain(db, heads[name])
  }

  /** The whole state is in order: the canonical chain, the head block, the iterator heads. */
  ghost predicate InOrder(g: Hash, db: Db, heads: Heads, headHeader: Hash, headBlock: Hash) {
    && CanonicalLine(g, db, headHeader) && headBlock == headHeader
    && AllOnChain(db, heads)
  }

  /** No stored block is heavier than the head. */
  ghost predicate Heaviest(db: Db, head: Hash) {
    && Stored(db, head) && (db.hashToNumber[head], head) in db.td
    && forall id :: id in db.td ==> db.td[id] <= db.td[(db.hashToNumber[head], head)]
  }

  function Height(db: Db, head: Hash): nat
    requires head in db.hashToNumber
  {
    db.hashToNumber[head]
  }

  lemma ConsistentNamed(g: Hash, ever: Headers, db: Db)
    requires Consistent(g, ever, db)
    ensures Named(ever) && Named(db.headers) && Within(db.headers, ever)
  {}

  /** The blocks of the canonical chain. */
  lemma CanonicalBlock(g: Hash, ever: Headers, db: Db, head: Hash, i: nat)
    requires Consistent(g, ever, db) && CanonicalLine(g, db, head) && i in db.numberToHash
    ensures i <= Height(db, head) && (i, db.numberToHash[i]) in db.headers && (i, db.numberToHash[i]) in db.td
    ensures OnChain(db, db.numberToHash[i]) && db.hashToNumber[db.numberToHash[i]] == i
    ensures var y := db.headers[(i, db.numberToHash[i])];
      Linked(g, db.headers, y) && Line(g, db.headers, y) == Line(g, db.headers, HeaderOf(db, head))[..i + 1]
    ensures i == 0 ==> db.numberToHash[i] == g
  {
    var x := HeaderOf(db, head);
    if i < x.number {
      AncestorAt(g, db.headers, x, i);
    } else {
      assert Line(g, db.headers, x)[..i + 1] == Line(g, db.headers, x);
    }
  }

  /** Parent links along the canonical chain. */
  lemma CanonicalParents(g: Hash, ever: Headers, db: Db, head: Hash, i: nat)
    requires Consistent(g, ever, db) && CanonicalLine(g, db, head) && i + 1 in db.numberToHash
    ensures i in db.numberToHash && (i + 1, db.numberToHash[i + 1]) in db.headers
    ensures db.headers[(i + 1, db.numberToHash[i + 1])].parentHash == db.numberToHash[i]
  {
    CanonicalBlock(g, ever, db, head, i + 1);
    var y := db.headers[(i + 1, db.numberToHash[i + 1])];
    assert IdOf(db.headers[ParentId(y)]) == ParentId(y);
    assert Line(g, db.headers, y)[i] == y.parentHash;
  }

  // ---------- the walk ----------

  /** The headers for which `_rebuildCanonical` writes lookups, from the new head down. */
  function Rewritten(db: Db, x: Header): (r: seq<Header>)
    requires Named(db.headers)
    decreases x.number
  {
    if NumberToHash(db, x.number) == Some(x.hash) || x.number == 0 then []
    else
      match GetHeader(db, x.parentHash, x.number - 1)
      case None => [x]
      case Some(parent) => assert IdOf(parent) == ParentId(x); [x] + Rewritten(db, parent)
  }

  /** No header was missing on the way. */
  predicate Completes(db: Db, x: Header)
    requires Named(db.headers)
    decreases x.number
  {
    NumberToHash(db, x.number) == Some(x.hash) || x.number == 0 ||
    match GetHeader(db, x.parentHash, x.number - 1)
    case None => false
    case Some(parent) => assert IdOf(parent) == ParentId(x); Completes(db, parent)
  }

  /** The hash at which the walk stopped. */
  function LastHash(db: Db, x: Header): Hash
    requires Named(db.headers)
    decreases x.number
  {
    if NumberToHash(db, x.number) == Some(x.hash) || x.number == 0 then x.hash
    else
      match GetHeader(db, x.parentHash, x.number - 1)
      case None => x.hash
      case Some(parent) => assert IdOf(parent) == ParentId(x); LastHash(db, parent)
  }

  /** The highest number at which the line of x is the canonical one. */
  ghost function CommonNumber(g: Hash, db: Db, x: Header): (k: nat)
    requires Named(db.headers) && Linked(g, db.headers, x)
    ensures k <= x.number
    decreases x.number
  {
    if NumberToHash(db, x.number) == Some(x.hash) || x.number == 0 then x.number
    else
      assert IdOf(db.headers[ParentId(x)]) == ParentId(x);
      CommonNumber(g, db, db.headers[ParentId(x)])
  }

  /** A header is known only as itself. */
  ghost predicate NotForged(hs: Headers, x: Header) {
    forall id :: id in hs && id.1 == x.hash ==> hs[id] == x
  }

  lemma IsItself(ever: Headers, db: Db, x: Header)
    requires Within(db.headers, ever) && NotForged(ever, x) && IdOf(x) in db.headers
    ensures db.headers[IdOf(x)] == x
  {}

  lemma ParentGenuine(g: Hash, ever: Headers, db: Db, x: Header)
    requires Consistent(g, ever, db) && x.number > 0 && ParentId(x) in db.headers
    ensures NotForged(ever, db.headers[ParentId(x)])
  {
    var p := db.headers[ParentId(x)];
    forall id | id in ever && id.1 == p.hash ensures ever[id] == p {
      assert ParentId(x) in ever && id == ParentId(x);
    }
  }

  /** The line of x is canonical up to the common number and nowhere above. */
  lemma {:induction false} CommonIsHighest(g: Hash, ever: Headers, db: Db, head: Hash, x: Header)
    requires Consistent(g, ever, db) && CanonicalLine(g, db, head)
    requires Linked(g, db.headers, x) && NotForged(ever, x)
    ensures var k := CommonNumber(g, db, x); var line := Line(g, db.headers, x);
      && k in db.numberToHash
      && forall i: nat :: i <= x.number ==> (NumberToHash(db, i) == Some(line[i]) <==> i <= k)
    decreases x.number
  {
    hide Consistent;
    hide NotForged;
    ConsistentNamed(g, ever, db);
    var line := Line(g, db.headers, x);
    if x.number == 0 || NumberToHash(db, x.number) == Some(x.hash) {
      var top := HeaderOf(db, head);
      assert x.number in db.numberToHash;
      CanonicalBlock(g, ever, db, head, x.number);
      IsItself(ever, db, x);
      assert line == Line(g, db.headers, top)[..x.number + 1];
    } else {
      var p := db.headers[ParentId(x)];
      assert IdOf(p) == ParentId(x);
      ParentGenuine(g, ever, db, x);
      CommonIsHighest(g, ever, db, head, p);
      assert forall i: nat :: i <= p.number ==> line[i] == Line(g, db.headers, p)[i];
    }
  }

  /** Below two blocks above the old head, the walk finds every header, rewrites exactly the
      numbers above the common block, and stops on that block. */
  lemma {:induction false} WalkFindsAll(g: Hash, ever: Headers, db: Db, head: Hash, x: Header)
    requires Consistent(g, ever, db) && CanonicalLine(g, db, head)
    requires Linked(g, db.headers, x) && NotForged(ever, x) && x.number <= Height(db, head) + 2
    ensures var k := CommonNumber(g, db, x); var line := Line(g, db.headers, x); var r := Rewritten(db, x);
      && Completes(db, x) && LastHash(db, x) == line[k] && |r| == x.number - k
      && forall j :: 0 <= j < |r| ==> r[j].number == x.number - j && r[j].hash == line[x.number - j]
    decreases x.number
  {
    hide Consistent;
    hide NotForged;
    hide CanonicalLine;
    hide GetHeader;
    ConsistentNamed(g, ever, db);
    if x.number > 0 && NumberToHash(db, x.number) != Some(x.hash) {
      var p := db.headers[ParentId(x)];
      assert IdOf(p) == ParentId(x);
      ParentGenuine(g, ever, db, x);
      ParentRead(g, ever, db, head, x);
      WalkFindsAll(g, ever, db, head, p);
      var r, below := Rewritten(db, x), Rewritten(db, p);
      assert r == [x] + below && Line(g, db.headers, x) == Line(g, db.headers, p) + [x.hash];
    }
  }

  /** A parent can be read when it is stored and not too far above the head. */
  lemma ParentRead(g: Hash, ever: Headers, db: Db, head: Hash, y: Header)
    requires Consistent(g, ever, db) && CanonicalLine(g, db, head) && y.number > 0
    ensures Stored(db, head)
    ensures GetHeader(db, y.parentHash, y.number - 1) ==
            if ParentId(y) in db.headers && y.number <= Height(db, head) + 2 then Some(db.headers[ParentId(y)])
            else None
  {
    hide Consistent;
    hide CanonicalLine;
    hide Line;
    hide Linked;
    HeadNumber(g, ever, db, head);
    if 1 < y.number <= Height(db, head) + 2 {
      CanonicalBlock(g, ever, db, head, y.number - 2);
    }
  }

  /** More than two blocks above the head, the walk stops at once. */
  lemma WalkStopsShort(g: Hash, db: Db, head: Hash, x: Header)
    requires CanonicalLine(g, db, head) && Height(db, head) == HeaderOf(db, head).number
    requires x.number > Height(db, head) + 2
    ensures Rewritten(db, x) == [x] && !Completes(db, x) && LastHash(db, x) == x.hash
  {
    assert x.number !in db.numberToHash && x.number - 2 !in db.numberToHash;
  }

  // ---------- what the pending operations amount to ----------

  /** `DBSaveLookups` for each header. */
  function Lookups(xs: seq<Header>): seq<DbOp> {
    if xs == [] then []
    else
      var x := xs[|xs| - 1];
      Lookups(xs[..|xs| - 1]) + [SetNumberToHash(x.number, x.hash), SetHashToNumber(x.hash, x.number)]
  }

  lemma LookupsPush(xs: seq<Header>, x: Header)
    ensures Lookups(xs + [x]) == Lookups(xs) + [SetNumberToHash(x.number, x.hash), SetHashToNumber(x.hash, x.number)]
  {
    assert (xs + [x])[..|xs|] == xs;
  }

  ghost function WithLookups(db: Db, xs: seq<Header>): (r: Db)
    ensures r == db.(numberToHash := r.numberToHash, hashToNumber := r.hashToNumber)
  {
    if xs == [] then db
    else
      var x, before := xs[|xs| - 1], WithLookups(db, xs[..|xs| - 1]);
      before.(numberToHash := before.numberToHash[x.number := x.hash],
              hashToNumber := before.hashToNumber[x.hash := x.number])
  }

  lemma {:induction false} BatchLookups(db: Db, ops: seq<DbOp>, xs: seq<Header>)
    ensures Batch(db, ops + Lookups(xs)) == WithLookups(Batch(db, ops), xs)
    decreases |xs|
  {
    if xs == [] {
      assert ops + Lookups(xs) == ops;
    } else {
      var front, x := xs[..|xs| - 1], xs[|xs| - 1];
      var a, b := SetNumberToHash(x.number, x.hash), SetHashToNumber(x.hash, x.number);
      BatchLookups(db, ops, front);
      assert ops + Lookups(xs) == ops + Lookups(front) + [a] + [b];
      BatchPush(db, ops + Lookups(front), a);
      BatchPush(db, ops + Lookups(front) + [a], b);
    }
  }

  /** Consecutive numbers, from the top down. */
  ghost predicate Descending(xs: seq<Header>, top: nat) {
    |xs| <= top + 1 && forall j :: 0 <= j < |xs| ==> xs[j].number == top - j
  }

  lemma {:induction false} LookupNumbers(db: Db, xs: seq<Header>, top: nat, i: nat)
    requires Descending(xs, top)
    ensures NumberToHash(WithLookups(db, xs), i) ==
            if i <= top && top - i < |xs| then Some(xs[top - i].hash) else NumberToHash(db, i)
    decreases |xs|
  {
    if xs != [] { LookupNumbers(db, xs[..|xs| - 1], top, i); }
  }

  lemma {:induction false} LookupHashes(db: Db, xs: seq<Header>)
    requires xs != []
    requires forall j :: 1 <= j < |xs| ==> xs[j].hash in db.hashToNumber && db.hashToNumber[xs[j].hash] == xs[j].number
    requires xs[0].hash in db.hashToNumber ==> db.hashToNumber[xs[0].hash] == xs[0].number
    ensures WithLookups(db, xs).hashToNumber == db.hashToNumber[xs[0].hash := xs[0].number]
    decreases |xs|
  {
    if |xs| > 1 {
      LookupHashes(db, xs[..|xs| - 1]);
    } else {
      assert xs[..0] == [];
    }
  }

  lemma {:induction false} RewrittenStored(g: Hash, ever: Headers, db: Db, x: Header)
    requires Consistent(g, ever, db)
    ensures forall j :: 1 <= j < |Rewritten(db, x)| ==>
              Stored(db, Rewritten(db, x)[j].hash) && HeaderOf(db, Rewritten(db, x)[j].hash) == Rewritten(db, x)[j]
    ensures Rewritten(db, x) != [] ==> Rewritten(db, x)[0] == x
    decreases x.number
  {
    hide Consistent;
    ConsistentNamed(g, ever, db);
    if NumberToHash(db, x.number) != Some(x.hash) && x.number > 0 && GetHeader(db, x.parentHash, x.number - 1).Some? {
      var p := db.headers[ParentId(x)];
      assert IdOf(p) == ParentId(x);
      IsStored(g, ever, db, ParentId(x));
      RewrittenStored(g, ever, db, p);
      assert Rewritten(db, x) == [x] + Rewritten(db, p);
    }
  }

  lemma IsStored(g: Hash, ever: Headers, db: Db, id: BlockId)
    requires Consistent(g, ever, db) && id in db.headers
    ensures Stored(db, id.1) && db.hashToNumber[id.1] == id.0 && HeaderOf(db, id.1) == db.headers[id]
  {}

  // ---------- moving heads ----------

  /** The numbers without those of a range. */
  function Cut(nums: map<nat, Hash>, from: nat, to: nat): map<nat, Hash> {
    map i | i in nums && !(from <= i < to) :: nums[i]
  }

  lemma NothingCut(nums: map<nat, Hash>, from: nat)
    ensures Cut(nums, from, from) == nums && Gone(nums, from, from) == {}
  {}

  lemma RetargetNone(heads: Heads, to: Hash)
    ensures Retargeted(heads, {}, to) == heads
  {}

  lemma CutMore(nums: map<nat, Hash>, from: nat, to: nat)
    requires from <= to
    ensures Cut(nums, from, to + 1) == Cut(nums, from, to) - {to}
  {}

  ghost function Gone(nums: map<nat, Hash>, from: nat, to: nat): set<Hash> {
    set i: nat | from <= i < to && i in nums :: nums[i]
  }

  ghost function Stale(nums: map<nat, Hash>, xs: seq<Header>): set<Hash> {
    set j: nat | j < |xs| && xs[j].number in nums :: nums[xs[j].number]
  }

  function Retargeted(heads: Heads, stale: set<Hash>, to: Hash): Heads {
    map name | name in heads :: if heads[name] in stale then to else heads[name]
  }

  lemma RetargetMore(heads: Heads, a: set<Hash>, h: Hash, to: Hash)
    ensures Retargeted(Retargeted(heads, a, to), {h}, to) == Retargeted(heads, a + {h}, to)
  {}

  lemma GoneMore(nums: map<nat, Hash>, from: nat, to: nat)
    requires from <= to
    ensures Gone(nums, from, to + 1) == Gone(nums, from, to) + if to in nums then {nums[to]} else {}
  {}

  lemma StaleMore(nums: map<nat, Hash>, xs: seq<Header>, x: Header)
    ensures Stale(nums, xs + [x]) == if x.number in nums then Stale(nums, xs) + {nums[x.number]} else Stale(nums, xs)
  {
    var ys := xs + [x];
    forall h | h in Stale(nums, xs) ensures h in Stale(nums, ys) {
      var j: nat :| j < |xs| && xs[j].number in nums && nums[xs[j].number] == h;
      assert ys[j] == xs[j];
    }
    if x.number in nums { assert ys[|xs|] == x; }
  }

  // ---------- a put that becomes the head ----------

  ghost function WithBlock(db: Db, x: Header, td: nat): Db {
    db.(headers := db.headers[IdOf(x) := x], td := db.td[IdOf(x) := td])
  }

  /** The database after the batch of a put that becomes the head, apart from the saved heads;
      `to` is the first number above x that the old chain lacks. */
  ghost function Reorganised(db: Db, x: Header, td: nat, to: nat): Db
    requires Named(db.headers)
  {
    WithLookups(WithBlock(db, x, td).(numberToHash := Cut(db.numberToHash, x.number + 1, to)), Rewritten(db, x))
  }

  ghost predicate FirstGap(nums: map<nat, Hash>, from: nat, to: nat) {
    from <= to && to !in nums && forall i :: from <= i < to ==> i in nums
  }

  /** A block whose parent is stored with its total difficulty. */
  ghost predicate Putable(g: Hash, ever: Headers, db: Db, x: Header, td: nat) {
    && Consistent(g, ever, db) && NotForged(ever, x) && x.number > 0
    && ParentId(x) in db.td && td == db.td[ParentId(x)] + x.difficulty
  }

  /** Storing a block with its total difficulty keeps the tables consistent. */
  lemma PutConsistent(g: Hash, ever: Headers, db: Db, x: Header, td: nat, after: Db)
    requires Putable(g, ever, db, x, td)
    requires after.headers == db.headers[IdOf(x) := x] && after.td == db.td[IdOf(x) := td]
    requires after.hashToNumber == db.hashToNumber[x.hash := x.number]
    ensures Consistent(g, ever[IdOf(x) := x], after)
  {
    hide Weight;
    hide Linked;
    hide Archive;
    hide Indexed;
    var more := ever[IdOf(x) := x];
    ArchiveMore(g, ever, db, x, td);
    PutIndexed(g, ever, db, x, td, after);
  }

  lemma ArchiveMore(g: Hash, ever: Headers, db: Db, x: Header, td: nat)
    requires Putable(g, ever, db, x, td)
    ensures var more := ever[IdOf(x) := x];
      && Archive(g, more) && Within(ever, more) && Named(more)
      && Weight(g, more, x) == td
      && forall id :: id in db.td ==> Weight(g, more, more[id]) == db.td[id]
  {
    hide Weight;
    hide Linked;
    hide Indexed;
    var more := ever[IdOf(x) := x];
    assert Within(ever, more);
    forall id | id in ever ensures Linked(g, more, more[id]) && Weight(g, more, more[id]) == Weight(g, ever, ever[id]) {
      LinkedMore(g, ever, more, ever[id]);
    }
    PutWeight(g, ever, db, x, td);
  }

  lemma PutIndexed(g: Hash, ever: Headers, db: Db, x: Header, td: nat, after: Db)
    requires Putable(g, ever, db, x, td)
    requires after.headers == db.headers[IdOf(x) := x]
    requires after.hashToNumber == db.hashToNumber[x.hash := x.number]
    ensures Indexed(after)
  {
    hide Consistent;
    hide NotForged;
    IsKnown(g, ever, db, x);
    ConsistentIndexed(g, ever, db);
    forall id | id in db.headers && id.1 == x.hash ensures id.0 == x.number {}
  }

  lemma ConsistentIndexed(g: Hash, ever: Headers, db: Db)
    requires Consistent(g, ever, db)
    ensures Indexed(db)
  {
    hide Archive;
    hide Indexed;
    hide Weight;
  }

  lemma PutWeight(g: Hash, ever: Headers, db: Db, x: Header, td: nat)
    requires Putable(g, ever, db, x, td)
    ensures Named(ever[IdOf(x) := x]) && Linked(g, ever[IdOf(x) := x], x) && Weight(g, ever[IdOf(x) := x], x) == td
  {
    hide Consistent;
    var more := ever[IdOf(x) := x];
    ConsistentNamed(g, ever, db);
    ParentWeighs(g, ever, db, x);
    assert Within(ever, more) by { hide Weight; hide Linked; assert IdOf(x) in ever ==> ever[IdOf(x)] == x; }
    LinkedMore(g, ever, more, ever[ParentId(x)]);
  }

  lemma ParentWeighs(g: Hash, ever: Headers, db: Db, x: Header)
    requires Consistent(g, ever, db) && x.number > 0 && ParentId(x) in db.td
    ensures ParentId(x) in db.headers && ParentId(x) in ever && ever[ParentId(x)] == db.headers[ParentId(x)]
    ensures Linked(g, ever, ever[ParentId(x)]) && db.td[ParentId(x)] == Weight(g, ever, ever[ParentId(x)])
  {}

  /** A header is not among its own ancestors. */
  lemma {:induction false} LinkedWithout(g: Hash, hs: Headers, x: Header, y: Header)
    requires Named(hs) && Named(hs[IdOf(x) := x]) && y.number <= x.number
    ensures Linked(g, hs[IdOf(x) := x], y) <==> Linked(g, hs, y)
    ensures Linked(g, hs, y) ==> Line(g, hs[IdOf(x) := x], y) == Line(g, hs, y)
    decreases y.number
  {
    if y.number > 0 && ParentId(y) in hs {
      assert IdOf(hs[ParentId(y)]) == ParentId(y);
      LinkedWithout(g, hs, x, hs[ParentId(y)]);
    }
  }

  /** The tables after the batch. */
  lemma ReorganisedTables(g: Hash, ever: Headers, db: Db, x: Header, td: nat, to: nat)
    requires Putable(g, ever, db, x, td) && NumberToHash(db, x.number) != Some(x.hash)
    ensures var after := Reorganised(db, x, td, to);
      && after.headers == db.headers[IdOf(x) := x] && after.td == db.td[IdOf(x) := td]
      && after.hashToNumber == db.hashToNumber[x.hash := x.number]
  {
    hide Consistent;
    hide Rewritten;
    ConsistentNamed(g, ever, db);
    RewrittenStored(g, ever, db, x);
    var r := Rewritten(db, x);
    assert r != [] by { assert Rewritten(db, x) == r; RewrittenNonEmpty(db, x); }
    IsKnown(g, ever, db, x);
    LookupHashes(WithBlock(db, x, td).(numberToHash := Cut(db.numberToHash, x.number + 1, to)), r);
  }

  lemma RewrittenNonEmpty(db: Db, x: Header)
    requires Named(db.headers) && x.number > 0 && NumberToHash(db, x.number) != Some(x.hash)
    ensures Rewritten(db, x) != []
  {}

  lemma IsKnown(g: Hash, ever: Headers, db: Db, x: Header)
    requires Consistent(g, ever, db) && NotForged(ever, x)
    ensures x.hash in db.hashToNumber ==>
              db.hashToNumber[x.hash] == x.number && Stored(db, x.hash) && HeaderOf(db, x.hash) == x
  {}

  /** The canonical numbers after a walk that finds every header: the line of the new head. */
  lemma NumbersAfter(g: Hash, ever: Headers, db: Db, head: Hash, x: Header, td: nat, to: nat)
    requires Putable(g, ever, db, x, td) && CanonicalLine(g, db, head) && NumberToHash(db, x.number) != Some(x.hash)
    requires Linked(g, db.headers, x) && x.number <= Height(db, head) + 2
    requires FirstGap(db.numberToHash, x.number + 1, to)
    ensures Spells(Reorganised(db, x, td, to).numberToHash, Line(g, db.headers, x))
  {
    hide Consistent;
    hide Linked;
    hide Line;
    hide Rewritten;
    hide CanonicalLine;
    hide NotForged;
    ConsistentNamed(g, ever, db);
    CommonIsHighest(g, ever, db, head, x);
    WalkFindsAll(g, ever, db, head, x);
    var after := Reorganised(db, x, td, to);
    var base := WithBlock(db, x, td).(numberToHash := Cut(db.numberToHash, x.number + 1, to));
    var line := Line(g, db.headers, x);
    NothingAbove(g, db, head, x.number + 1, to);
    forall i: nat ensures NumberToHash(after, i) == if i <= x.number then Some(line[i]) else None {
      LookupNumbers(base, Rewritten(db, x), x.number, i);
    }
    forall i: nat
      ensures i in after.numberToHash <==> i < |line|
      ensures i in after.numberToHash ==> after.numberToHash[i] == line[i]
    {
      assert NumberToHash(after, i) == if i <= x.number then Some(line[i]) else None;
    }
  }

  lemma NothingAbove(g: Hash, db: Db, head: Hash, from: nat, to: nat)
    requires CanonicalLine(g, db, head) && FirstGap(db.numberToHash, from, to)
    ensures forall i :: i in db.numberToHash && i >= from ==> i < to
  {}

  /** The canonical chain is the ancestry of the new head if and only if the ancestry is stored
      and the new head is at most two blocks above the old one. */
  lemma ReorgIff(g: Hash, ever: Headers, db: Db, head: Hash, x: Header, td: nat, to: nat)
    requires Putable(g, ever, db, x, td) && CanonicalLine(g, db, head) && NumberToHash(db, x.number) != Some(x.hash)
    requires FirstGap(db.numberToHash, x.number + 1, to)
    ensures CanonicalLine(g, Reorganised(db, x, td, to), x.hash) <==>
            Linked(g, db.headers, x) && x.number <= Height(db, head) + 2
  {
    hide Consistent;
    hide Linked;
    hide Line;
    hide Rewritten;
    hide CanonicalLine;
    ConsistentNamed(g, ever, db);
    HeadNumber(g, ever, db, head);
    ReorganisedTables(g, ever, db, x, td, to);
    var after := Reorganised(db, x, td, to);
    LinkedWithout(g, db.headers, x, x);
    IsCanonical(g, after, x);
    if Linked(g, db.headers, x) && x.number <= Height(db, head) + 2 {
      NumbersAfter(g, ever, db, head, x, td, to);
    } else if x.number > Height(db, head) + 2 {
      TooHigh(g, ever, db, head, x, td, to);
    }
  }

  lemma IsCanonical(g: Hash, db: Db, x: Header)
    requires Named(db.headers) && Stored(db, x.hash) && HeaderOf(db, x.hash) == x
    ensures CanonicalLine(g, db, x.hash) <==>
            Linked(g, db.headers, x) && Spells(db.numberToHash, Line(g, db.headers, x))
  {}

  /** Too far above the old head, the numbers in between stay empty. */
  lemma TooHigh(g: Hash, ever: Headers, db: Db, head: Hash, x: Header, td: nat, to: nat)
    requires Putable(g, ever, db, x, td) && CanonicalLine(g, db, head)
    requires x.number > Height(db, head) + 2
    ensures x.number - 1 !in Reorganised(db, x, td, to).numberToHash
  {
    hide Consistent;
    hide Rewritten;
    HeadNumber(g, ever, db, head);
    WalkStopsShort(g, db, head, x);
    var base := WithBlock(db, x, td).(numberToHash := Cut(db.numberToHash, x.number + 1, to));
    LookupNumbers(base, [x], x.number, x.number - 1);
  }

  lemma HeadNumber(g: Hash, ever: Headers, db: Db, head: Hash)
    requires Consistent(g, ever, db) && CanonicalLine(g, db, head)
    ensures Stored(db, head) && HeaderOf(db, head).number == Height(db, head) && HeaderOf(db, head).hash == head
    ensures OnChain(db, head) && forall i: nat :: i in db.numberToHash <==> i <= Height(db, head)
  {
    assert IdOf(HeaderOf(db, head)) == (db.hashToNumber[head], head);
  }

  // ---------- the heads after it ----------

  /** Where a head on the old chain ends up. */
  ghost function MovedHead(g: Hash, db: Db, x: Header, h: Hash): Hash
    requires Named(db.headers) && Linked(g, db.headers, x) && h in db.hashToNumber
  {
    var k, i := CommonNumber(g, db, x), db.hashToNumber[h];
    if i <= k then h else if i <= x.number then Line(g, db.headers, x)[k] else x.hash
  }

  ghost function MovedHeads(g: Hash, db: Db, x: Header, heads: Heads): Heads
    requires Named(db.headers) && Linked(g, db.headers, x)
    requires AllOnChain(db, heads)
  {
    map name: string | name in heads :: assert OnChain(db, heads[name]); MovedHead(g, db, x, heads[name])
  }

  /** Both retargetings together: heads above the new one go to it, heads between the common
      block and the new one go to the common block, heads at or below the common block stay. */
  lemma HeadsAfter(g: Hash, ever: Headers, db: Db, head: Hash, x: Header, to: nat, heads: Heads)
    requires Consistent(g, ever, db) && CanonicalLine(g, db, head) && NotForged(ever, x)
    requires Linked(g, db.headers, x) && x.number <= Height(db, head) + 2 && NumberToHash(db, x.number) != Some(x.hash)
    requires FirstGap(db.numberToHash, x.number + 1, to)
    requires AllOnChain(db, heads)
    ensures var above := Retargeted(heads, Gone(db.numberToHash, x.number + 1, to), x.hash);
      Retargeted(above, Stale(db.numberToHash, Rewritten(db, x)), LastHash(db, x))
      == MovedHeads(g, db, x, heads)
    ensures x.hash !in Stale(db.numberToHash, Rewritten(db, x))
  {
    hide Consistent;
    hide Linked;
    hide Line;
    hide Rewritten;
    hide CanonicalLine;
    hide NotForged;
    ConsistentNamed(g, ever, db);
    hide Gone;
    hide Stale;
    hide OnChain;
    WalkFindsAll(g, ever, db, head, x);
    CommonIsHighest(g, ever, db, head, x);
    var nums, r := db.numberToHash, Rewritten(db, x);
    forall name: string | name in heads
      ensures heads[name] in db.hashToNumber
      ensures heads[name] in Gone(nums, x.number + 1, to) <==> db.hashToNumber[heads[name]] > x.number
      ensures heads[name] in Stale(nums, r) <==> CommonNumber(g, db, x) < db.hashToNumber[heads[name]] <= x.number
    {
      WhichMove(g, ever, db, head, x, to, heads[name]);
    }
    NewNotStale(g, ever, db, head, x);
  }

  /** Which retargeting concerns a canonical hash. */
  lemma WhichMove(g: Hash, ever: Headers, db: Db, head: Hash, x: Header, to: nat, h: Hash)
    requires Consistent(g, ever, db) && CanonicalLine(g, db, head) && NotForged(ever, x)
    requires Linked(g, db.headers, x) && x.number <= Height(db, head) + 2
    requires FirstGap(db.numberToHash, x.number + 1, to) && OnChain(db, h)
    ensures h in db.hashToNumber
    ensures h in Gone(db.numberToHash, x.number + 1, to) <==> db.hashToNumber[h] > x.number
    ensures h in Stale(db.numberToHash, Rewritten(db, x)) <==> CommonNumber(g, db, x) < db.hashToNumber[h] <= x.number
  {
    hide Consistent;
    hide Linked;
    hide Line;
    hide Rewritten;
    hide CanonicalLine;
    hide NotForged;
    hide CommonNumber;
    ConsistentNamed(g, ever, db);
    WalkFindsAll(g, ever, db, head, x);
    NothingAbove(g, db, head, x.number + 1, to);
    var nums, r, i := db.numberToHash, Rewritten(db, x), db.hashToNumber[h];
    forall m | m in nums && nums[m] == h ensures m == i { CanonicalBlock(g, ever, db, head, m); }
    if CommonNumber(g, db, x) < i <= x.number { assert r[x.number - i].number == i; }
  }

  lemma NewNotStale(g: Hash, ever: Headers, db: Db, head: Hash, x: Header)
    requires Consistent(g, ever, db) && CanonicalLine(g, db, head) && NotForged(ever, x)
    requires NumberToHash(db, x.number) != Some(x.hash)
    ensures x.hash !in Stale(db.numberToHash, Rewritten(db, x))
  {
    hide Consistent;
    hide CanonicalLine;
    hide NotForged;
    ConsistentNamed(g, ever, db);
    var nums, r := db.numberToHash, Rewritten(db, x);
    if x.hash in Stale(nums, r) {
      var j: nat :| j < |r| && r[j].number in nums && nums[r[j].number] == x.hash;
      CanonicalBlock(g, ever, db, head, r[j].number);
      IsKnown(g, ever, db, x);
    }
  }

  /** Every moved head is on the new chain. */
  lemma MovedOnChain(g: Hash, ever: Headers, db: Db, head: Hash, x: Header, td: nat, to: nat, h: Hash)
    requires Putable(g, ever, db, x, td) && CanonicalLine(g, db, head) && NumberToHash(db, x.number) != Some(x.hash)
    requires Linked(g, db.headers, x) && x.number <= Height(db, head) + 2
    requires FirstGap(db.numberToHash, x.number + 1, to) && OnChain(db, h)
    ensures OnChain(Reorganised(db, x, td, to), MovedHead(g, db, x, h))
  {
    hide Consistent;
    hide Linked;
    hide Rewritten;
    hide CanonicalLine;
    hide NotForged;
    ConsistentNamed(g, ever, db);
    NumbersAfter(g, ever, db, head, x, td, to);
    ReorganisedTables(g, ever, db, x, td, to);
    CommonIsHighest(g, ever, db, head, x);
    var k := CommonNumber(g, db, x);
    CanonicalBlock(g, ever, db, head, k);
    IsKnown(g, ever, db, x);
  }

  // ---------- the search for the common ancestor ----------

  /** One step down the line of a header. */
  lemma StepDown(g: Hash, ever: Headers, db: Db, head: Hash, y: Header)
    requires Consistent(g, ever, db) && CanonicalLine(g, db, head) && y.number > 0
    ensures var p := GetHeader(db, y.parentHash, y.number - 1);
      && (p.Some? ==> p.value.number == y.number - 1 && NotForged(ever, p.value)
                      && (Linked(g, db.headers, p.value) <==> Linked(g, db.headers, y))
                      && (Linked(g, db.headers, y) && NumberToHash(db, y.number) != Some(y.hash) ==>
                            CommonNumber(g, db, p.value) == CommonNumber(g, db, y)))
      && (p.Some? ==> y.number <= Height(db, head) + 2)
      && (p.None? ==> !(Linked(g, db.headers, y) && y.number <= Height(db, head) + 2))
  {
    hide Consistent;
    hide CanonicalLine;
    hide NotForged;
    hide Line;
    ConsistentNamed(g, ever, db);
    ParentRead(g, ever, db, head, y);
    if ParentId(y) in db.headers {
      assert IdOf(db.headers[ParentId(y)]) == ParentId(y);
      ParentGenuine(g, ever, db, y);
    }
  }

  lemma CanonicalReadable(g: Hash, ever: Headers, db: Db, head: Hash, i: nat)
    requires Consistent(g, ever, db) && CanonicalLine(g, db, head) && i <= Height(db, head)
    ensures i in db.numberToHash && (i, db.numberToHash[i]) in db.headers
    ensures GetCanonicalHeader(db, i) == Some(db.headers[(i, db.numberToHash[i])])
  {
    hide Consistent;
    HeadNumber(g, ever, db, head);
    CanonicalBlock(g, ever, db, head, i);
    if i > 0 { CanonicalBlock(g, ever, db, head, i - 1); }
  }

  lemma HeadReadable(g: Hash, ever: Headers, db: Db, head: Hash)
    requires Consistent(g, ever, db) && CanonicalLine(g, db, head)
    ensures Stored(db, head) && GetBlock(db, head) == Some(HeaderOf(db, head))
    ensures HeaderOf(db, head).number == Height(db, head) && HeaderOf(db, head).hash == head
    ensures GetTotalDifficulty(db, head).Some?
  {
    hide Consistent;
    HeadNumber(g, ever, db, head);
    var n := Height(db, head);
    CanonicalReadable(g, ever, db, head, n);
    CanonicalBlock(g, ever, db, head, n);
    if n > 0 {
      CanonicalParents(g, ever, db, head, n - 1);
      CanonicalBlock(g, ever, db, head, n - 1);
    }
  }

  /** Where the two lines meet. */
  lemma Met(g: Hash, ever: Headers, db: Db, head: Hash, y: Header)
    requires Consistent(g, ever, db) && CanonicalLine(g, db, head) && NotForged(ever, y)
    requires NumberToHash(db, y.number) == Some(y.hash)
    ensures Linked(g, db.headers, y) && CommonNumber(g, db, y) == y.number
  {
    hide Consistent;
    hide NotForged;
    ConsistentNamed(g, ever, db);
    CanonicalBlock(g, ever, db, head, y.number);
    IsItself(ever, db, y);
  }

  // ---------- deletion ----------

  /** The blocks of the canonical chain from a number up. */
  ghost function Upper(db: Db, from: nat): set<BlockId> {
    set i | i in db.numberToHash && i >= from :: (i, db.numberToHash[i])
  }

  function NumbersFrom(nums: map<nat, Hash>, from: nat): set<nat> {
    set i | i in nums && i >= from
  }

  lemma NumbersFromShrinks(nums: map<nat, Hash>, from: nat)
    requires from in nums
    ensures NumbersFrom(nums, from + 1) < NumbersFrom(nums, from)
    ensures |NumbersFrom(nums, from + 1)| < |NumbersFrom(nums, from)|
  {
    assert NumbersFrom(nums, from) == NumbersFrom(nums, from + 1) + {from};
  }

  /** The blocks that `_delChild` deletes: this one and the canonical blocks above it. */
  ghost function Doomed(db: Db, number: nat, hash: Hash): (r: seq<BlockId>)
    requires Named(db.headers) && number in db.numberToHash
    ensures r != [] && r[0] == (number, hash)
    decreases |NumbersFrom(db.numberToHash, number)|
  {
    NumbersFromShrinks(db.numberToHash, number);
    match GetCanonicalHeader(db, number + 1)
    case None => [(number, hash)]
    case Some(child) =>
      assert IdOf(child) == (number + 1, db.numberToHash[number + 1]);
      [(number, hash)] + Doomed(db, child.number, child.hash)
  }

  function Deletions(ids: seq<BlockId>): seq<DbOp> {
    if ids == [] then []
    else
      var id := ids[0];
      [DelHeader(id), DelHashToNumber(id.1), DelTd(id)] + Deletions(ids[1..])
  }

  ghost function Hashes(ids: seq<BlockId>): set<Hash> {
    set id | id in ids :: id.1
  }

  ghost function Without(db: Db, ids: seq<BlockId>): Db {
    db.(headers := db.headers - (set id | id in ids), td := db.td - (set id | id in ids),
        hashToNumber := db.hashToNumber - Hashes(ids))
  }

  lemma {:induction false} BatchDeletions(db: Db, ops: seq<DbOp>, ids: seq<BlockId>)
    ensures Batch(db, ops + Deletions(ids)) == Without(Batch(db, ops), ids)
    decreases |ids|
  {
    hide Without;
    hide Batch;
    if ids == [] {
      assert ops + Deletions(ids) == ops;
      WithoutNone(Batch(db, ops));
    } else {
      var one := [DelHeader(ids[0]), DelHashToNumber(ids[0].1), DelTd(ids[0])];
      BatchDeletion(db, ops, ids[0]);
      assert ops + Deletions(ids) == (ops + one) + Deletions(ids[1..]);
      BatchDeletions(db, ops + one, ids[1..]);
      WithoutOne(Batch(db, ops), ids);
    }
  }

  lemma BatchDeletion(db: Db, ops: seq<DbOp>, id: BlockId)
    ensures Batch(db, ops + [DelHeader(id), DelHashToNumber(id.1), DelTd(id)]) == Without(Batch(db, ops), [id])
  {
    hide Batch;
    var a, b, c := DelHeader(id), DelHashToNumber(id.1), DelTd(id);
    BatchPush(db, ops, a);
    BatchPush(db, ops + [a], b);
    BatchPush(db, ops + [a] + [b], c);
    assert ops + [a] + [b] + [c] == ops + [a, b, c];
    assert (set x | x in [id]) == {id} && Hashes([id]) == {id.1};
  }

  lemma WithoutNone(db: Db)
    ensures Without(db, []) == db
  {}

  lemma WithoutOne(db: Db, ids: seq<BlockId>)
    requires ids != []
    ensures Without(db, ids) == Without(Without(db, [ids[0]]), ids[1..])
  {
    assert forall id :: id in ids <==> id in [ids[0]] || id in ids[1..];
  }

  lemma {:induction false} DoomedIsUpper(g: Hash, ever: Headers, db: Db, head: Hash, number: nat)
    requires Consistent(g, ever, db) && CanonicalLine(g, db, head) && number in db.numberToHash
    ensures forall id :: id in Doomed(db, number, db.numberToHash[number]) <==> id in Upper(db, number)
    decreases |NumbersFrom(db.numberToHash, number)|
  {
    hide Consistent;
    hide CanonicalLine;
    hide Linked;
    ConsistentNamed(g, ever, db);
    HeadNumber(g, ever, db, head);
    NumbersFromShrinks(db.numberToHash, number);
    var id := (number, db.numberToHash[number]);
    if number < Height(db, head) {
      CanonicalReadable(g, ever, db, head, number + 1);
      var child := db.headers[(number + 1, db.numberToHash[number + 1])];
      assert IdOf(child) == (number + 1, db.numberToHash[number + 1]);
      DoomedIsUpper(g, ever, db, head, number + 1);
      assert Doomed(db, number, id.1) == [id] + Doomed(db, number + 1, child.hash);
      assert Upper(db, number) == {id} + Upper(db, number + 1);
    } else {
      assert number + 1 !in db.numberToHash;
      assert Upper(db, number) == {id};
    }
  }

  /** An ancestry is complete as long as its own blocks are there. */
  lemma {:induction false} LinkedLess(g: Hash, hs: Headers, less: Headers, x: Header)
    requires Named(hs) && Named(less) && Within(less, hs) && Linked(g, hs, x)
    requires forall i :: 0 <= i < x.number ==> (i, Line(g, hs, x)[i]) in less
    ensures Linked(g, less, x) && Line(g, less, x) == Line(g, hs, x)
    decreases x.number
  {
    if x.number > 0 {
      var p := hs[ParentId(x)];
      assert IdOf(p) == ParentId(x) && Line(g, hs, x)[x.number - 1] == p.hash;
      forall i | 0 <= i < p.number ensures (i, Line(g, hs, p)[i]) in less {
        assert Line(g, hs, x)[i] == Line(g, hs, p)[i];
      }
      LinkedLess(g, hs, less, p);
    }
  }

  /** Deleting blocks keeps the tables consistent. */
  lemma DeleteConsistent(g: Hash, ever: Headers, db: Db, ids: seq<BlockId>)
    requires Consistent(g, ever, db) && forall id :: id in ids ==> id in db.headers
    ensures Consistent(g, ever, Without(db, ids))
  {
    hide Weight;
    hide Archive;
    hide Linked;
  }

  /** Deleting blocks above a canonical one, together with their numbers, truncates the chain there. */
  lemma TruncateInOrder(g: Hash, ever: Headers, db: Db, head: Hash, n: nat, after: Db)
    requires Consistent(g, ever, db) && CanonicalLine(g, db, head) && n + 1 in db.numberToHash
    requires Within(after.headers, db.headers) && Named(after.headers)
    requires forall i :: 0 <= i <= n && i in db.numberToHash ==> (i, db.numberToHash[i]) in after.headers
    requires forall i :: i in after.numberToHash <==> i in db.numberToHash && i <= n
    requires forall i :: i in after.numberToHash ==> after.numberToHash[i] == db.numberToHash[i]
    requires n in db.numberToHash && Stored(after, db.numberToHash[n]) && after.hashToNumber[db.numberToHash[n]] == n
    ensures CanonicalLine(g, after, db.numberToHash[n])
  {
    hide Consistent;
    hide Linked;
    hide Line;
    ConsistentNamed(g, ever, db);
    CanonicalBlock(g, ever, db, head, n);
    var y := db.headers[(n, db.numberToHash[n])];
    assert IdOf(y) == (n, db.numberToHash[n]);
    var line := Line(g, db.headers, y);
    forall i | 0 <= i < n ensures (i, line[i]) in after.headers {
      assert line[i] == db.numberToHash[i];
    }
    LinkedLess(g, db.headers, after.headers, y);
  }

  // ---------- number lookups lead to stored blocks ----------

  ghost predicate Filed(db: Db) {
    forall i :: i in db.numberToHash ==> (i, db.numberToHash[i]) in db.headers
  }

  lemma {:induction false} RewrittenDescends(g: Hash, ever: Headers, db: Db, x: Header)
    requires Consistent(g, ever, db)
    ensures Descending(Rewritten(db, x), x.number)
    ensures forall j :: 0 <= j < |Rewritten(db, x)| ==> j == 0 || IdOf(Rewritten(db, x)[j]) in db.headers
    decreases x.number
  {
    hide Consistent;
    ConsistentNamed(g, ever, db);
    if NumberToHash(db, x.number) != Some(x.hash) && x.number > 0 && GetHeader(db, x.parentHash, x.number - 1).Some? {
      var p := db.headers[ParentId(x)];
      assert IdOf(p) == ParentId(x);
      RewrittenDescends(g, ever, db, p);
      var r := Rewritten(db, p);
      if r != [] { RewrittenStored(g, ever, db, p); }
      forall j | 0 <= j < |[x] + r| ensures ([x] + r)[j].number == x.number - j {
        if j > 0 { assert ([x] + r)[j] == r[j - 1]; }
      }
    }
  }

  lemma PutFiled(g: Hash, ever: Headers, db: Db, x: Header, td: nat, to: nat)
    requires Putable(g, ever, db, x, td) && Filed(db)
    ensures Filed(Reorganised(db, x, td, to))
  {
    hide Consistent;
    hide Rewritten;
    ConsistentNamed(g, ever, db);
    RewrittenDescends(g, ever, db, x);
    var r := Rewritten(db, x);
    if r != [] { RewrittenStored(g, ever, db, x); }
    var base := WithBlock(db, x, td).(numberToHash := Cut(db.numberToHash, x.number + 1, to));
    var after := Reorganised(db, x, td, to);
    forall i | i in after.numberToHash ensures (i, after.numberToHash[i]) in after.headers {
      LookupNumbers(base, r, x.number, i);
      assert NumberToHash(after, i) == Some(after.numberToHash[i]);
    }
  }

  /** The tables after the batch, also when the block was canonical already. */
  lemma TablesAfter(g: Hash, ever: Headers, db: Db, x: Header, td: nat, to: nat)
    requires Putable(g, ever, db, x, td) && Filed(db)
    ensures var after := Reorganised(db, x, td, to);
      && after.headers == db.headers[IdOf(x) := x] && after.td == db.td[IdOf(x) := td]
      && after.hashToNumber == db.hashToNumber[x.hash := x.number]
  {
    hide Consistent;
    ConsistentNamed(g, ever, db);
    if NumberToHash(db, x.number) != Some(x.hash) {
      ReorganisedTables(g, ever, db, x, td, to);
    } else {
      IsStored(g, ever, db, (x.number, x.hash));
      assert Rewritten(db, x) == [];
    }
  }

  /** A block heavier than the head is not on the canonical chain. */
  lemma HeavierIsNew(g: Hash, ever: Headers, db: Db, head: Hash, x: Header, td: nat)
    requires Putable(g, ever, db, x, td) && CanonicalLine(g, db, head) && Stored(db, head)
    requires GetTotalDifficulty(db, head).Some? && td > GetTotalDifficulty(db, head).value
    ensures NumberToHash(db, x.number) != Some(x.hash)
  {
    hide Consistent;
    hide Weight;
    hide Linked;
    ConsistentNamed(g, ever, db);
    if NumberToHash(db, x.number) == Some(x.hash) {
      HeadNumber(g, ever, db, head);
      CanonicalBlock(g, ever, db, head, x.number);
      var top := HeaderOf(db, head);
      LinkedMore(g, db.headers, ever, top);
      KnownWeight(g, ever, db, x, td);
      HeadWeight(g, ever, db, head);
      if x.number < top.number { AncestorAt(g, ever, top, x.number); }
    }
  }

  lemma KnownWeight(g: Hash, ever: Headers, db: Db, x: Header, td: nat)
    requires Putable(g, ever, db, x, td) && IdOf(x) in db.headers
    ensures IdOf(x) in ever && ever[IdOf(x)] == x && Linked(g, ever, x) && Weight(g, ever, x) == td
  {
    assert ever[IdOf(x) := x] == ever by { hide Weight; hide Linked; }
    PutWeight(g, ever, db, x, td);
  }

  lemma HeadWeight(g: Hash, ever: Headers, db: Db, head: Hash)
    requires Consistent(g, ever, db) && Stored(db, head) && GetTotalDifficulty(db, head).Some?
    ensures var x := HeaderOf(db, head); Linked(g, ever, x) && GetTotalDifficulty(db, head).value == Weight(g, ever, x)
  {}

  /** The doomed blocks are canonical ones at or above the number, below the first gap. */
  lemma {:induction false} DoomedRange(g: Hash, ever: Headers, db: Db, number: nat, to: nat)
    requires Consistent(g, ever, db) && Filed(db) && number in db.numberToHash && FirstGap(db.numberToHash, number, to)
    ensures forall id :: id in Doomed(db, number, db.numberToHash[number]) ==>
              && number <= id.0 < to && id.0 in db.numberToHash && db.numberToHash[id.0] == id.1 && id in db.headers
    decreases |NumbersFrom(db.numberToHash, number)|
  {
    hide Consistent;
    ConsistentNamed(g, ever, db);
    NumbersFromShrinks(db.numberToHash, number);
    var id := (number, db.numberToHash[number]);
    if GetCanonicalHeader(db, number + 1).Some? {
      var child := db.headers[(number + 1, db.numberToHash[number + 1])];
      assert IdOf(child) == (number + 1, db.numberToHash[number + 1]);
      DoomedRange(g, ever, db, number + 1, to);
      assert Doomed(db, number, id.1) == [id] + Doomed(db, number + 1, child.hash);
    } else {
      assert Doomed(db, number, id.1) == [id];
    }
  }
}
