/**
 * The block tables as the database manager stores them (packages/blockchain/src/db): under the keys of
 * one flat store, with encoded values. Batches and lookups through the manager are those of the tables.
 */
module StoredTables {
  import opened ByteStrings
  import opened ChainDbs
  import opened Ancestries
  import M = DbManagers
  import Rlp

  /** How headers and iterator heads are written; both can be read back. */
  datatype Codec = Codec(
    writeHeader: Header -> Bytes, readHeader: Bytes -> Header, writeHeads: Heads -> Bytes, readHeads: Bytes -> Heads)

  ghost predicate Readable(c: Codec) {
    && (forall x :: (c.readHeader)((c.writeHeader)(x)) == x)
    && (forall heads :: (c.readHeads)((c.writeHeads)(heads)) == heads)
  }

  predicate IsHash(h: Hash) {
    |h| == 32
  }

  predicate IsNumber(n: nat) {
    n < Pow256(8)
  }

  /** Total difficulties are written as items, numbers in eight bytes. */
  function WriteTd(td: nat): Bytes {
    Rlp.Encode(Rlp.Str(ToBigEndian(td)))
  }

  /** `new BN(rlp.decode(td))`. */
  function ReadTd(value: Bytes): nat {
    var item := Rlp.Decode(value);
    if item.Ok? && item.value.Str? then FromBigEndian(item.value.bytes) else 0
  }

  predicate IsTd(td: nat) {
    |ToBigEndian(td)| < Rlp.LENGTH_BOUND
  }

  lemma TdRoundTrip(td: nat)
    requires IsTd(td)
    ensures ReadTd(WriteTd(td)) == td
  {
    var item := Rlp.Str(ToBigEndian(td));
    BigEndianRoundTrip(td);
    Rlp.RoundTrip(item, []);
    assert Rlp.Encode(item) + [] == Rlp.Encode(item);
    NotEmpty(item);
  }

  /** It is the item of its shortest big-endian form. */
  lemma TdForm(td: nat, digits: Bytes)
    requires Rlp.Shortest(digits, td)
    ensures WriteTd(td) == Rlp.Encode(Rlp.Str(digits))
  {
    Rlp.ShortestIs(digits, td);
  }

  lemma NotEmpty(item: Rlp.Item)
    requires item.Str?
    ensures Rlp.Encode(item) != []
  {}

  /** The hashes, numbers and difficulties of an operation have the sizes that keys and values allow. */
  predicate Sized(op: DbOp) {
    match op
    case SetTd(id, td) => IsNumber(id.0) && IsHash(id.1) && IsTd(td)
    case SetHeader(x) => IsNumber(x.number) && IsHash(x.hash) && IsHash(x.parentHash)
    case SetHashToNumber(hash, number) => IsHash(hash) && IsNumber(number)
    case SetNumberToHash(number, hash) => IsNumber(number) && IsHash(hash)
    case SetHeads(_) => true
    case SetHeadHeader(_) => true
    case SetHeadBlock(_) => true
    case DelHeader(id) => IsNumber(id.0) && IsHash(id.1)
    case DelHashToNumber(hash) => IsHash(hash)
    case DelTd(id) => IsNumber(id.0) && IsHash(id.1)
    case DelNumberToHash(number) => IsNumber(number)
  }

  ghost predicate AllSized(ops: seq<DbOp>) {
    forall op :: op in ops ==> Sized(op)
  }

  ghost predicate SizedDb(db: Db) {
    && (forall id :: id in db.td ==> IsTd(db.td[id]))
    && (forall id :: id in db.headers ==> IsHash(db.headers[id].parentHash))
    && (forall h :: h in db.hashToNumber ==> IsNumber(db.hashToNumber[h]))
    && (forall n :: n in db.numberToHash ==> IsHash(db.numberToHash[n]))
  }

  /** The operation on the flat store. */
  function Lowered(c: Codec, op: DbOp): M.DbOp
    requires Sized(op)
  {
    match op
    case SetTd(id, td) => M.Set(M.TotalDifficulty(id.0, id.1), WriteTd(td))
    case SetHeader(x) => M.Set(M.Target.Header(x.number, x.hash), (c.writeHeader)(x))
    case SetHashToNumber(hash, number) => M.Set(M.HashToNumber(hash), M.BufBE8(number))
    case SetNumberToHash(number, hash) => M.Set(M.NumberToHash(number), hash)
    case SetHeads(heads) => M.Set(M.Target.Heads, (c.writeHeads)(heads))
    case SetHeadHeader(hash) => M.Set(M.HeadHeader, hash)
    case SetHeadBlock(hash) => M.Set(M.HeadBlock, hash)
    case DelHeader(id) => M.Del(M.Target.Header(id.0, id.1))
    case DelHashToNumber(hash) => M.Del(M.HashToNumber(hash))
    case DelTd(id) => M.Del(M.TotalDifficulty(id.0, id.1))
    case DelNumberToHash(number) => M.Del(M.NumberToHash(number))
  }

  function LoweredAll(c: Codec, ops: seq<DbOp>): (r: seq<M.DbOp>)
    requires AllSized(ops)
    ensures |r| == |ops| && forall i :: 0 <= i < |r| ==> r[i] == Lowered(c, ops[i])
  {
    if ops == [] then [] else LoweredAll(c, ops[..|ops| - 1]) + [Lowered(c, ops[|ops| - 1])]
  }

  /** What the flat store holds for a target of the tables. */
  ghost function Image(c: Codec, db: Db, t: M.Target): Option<Bytes>
    requires SizedDb(db)
  {
    match t
    case Header(number, hash) =>
      if (number, hash) in db.headers then Some((c.writeHeader)(db.headers[(number, hash)])) else None
    case TotalDifficulty(number, hash) =>
      if (number, hash) in db.td then Some(WriteTd(db.td[(number, hash)])) else None
    case HashToNumber(hash) => if hash in db.hashToNumber then Some(M.BufBE8(db.hashToNumber[hash])) else None
    case NumberToHash(number) => if number in db.numberToHash then Some(db.numberToHash[number]) else None
    case Heads => if db.savedHeads.Some? then Some((c.writeHeads)(db.savedHeads.value)) else None
    case HeadHeader => db.savedHeadHeader
    case HeadBlock => db.savedHeadBlock
    case _ => None
  }

  predicate OfTables(t: M.Target) {
    !t.Body? && !t.CliqueSignerStates? && !t.CliqueVotes? && !t.CliqueBlockSigners?
  }

  /** The store holds exactly these tables. */
  ghost predicate Represents(c: Codec, store: M.Store, db: Db) {
    SizedDb(db) && forall t :: M.Proper(t) && OfTables(t) ==> M.Table(store, t) == Image(c, db, t)
  }

  lemma SizedApply(db: Db, op: DbOp)
    requires SizedDb(db) && Sized(op)
    ensures SizedDb(Apply(db, op))
  {
    hide IsTd;
    hide IsNumber;
    hide IsHash;
  }

  /** One operation changes the image of its own target and of no other. */
  lemma ApplyImage(c: Codec, db: Db, op: DbOp, t: M.Target)
    requires SizedDb(db) && Sized(op) && SizedDb(Apply(db, op))
    ensures Image(c, Apply(db, op), t) ==
            var low := Lowered(c, op);
            if low.target != t then Image(c, db, t) else if low.Set? then Some(low.value) else None
  {
    hide WriteTd;
    hide M.BufBE8;
    hide IsTd;
    hide IsNumber;
    hide IsHash;
    if op.SetTd? || op.DelTd? || op.SetHeader? || op.DelHeader? {
      ApplyIdImage(c, db, op, t);
    }
  }

  lemma ApplyIdImage(c: Codec, db: Db, op: DbOp, t: M.Target)
    requires SizedDb(db) && Sized(op) && SizedDb(Apply(db, op))
    requires op.SetTd? || op.DelTd? || op.SetHeader? || op.DelHeader?
    ensures Image(c, Apply(db, op), t) ==
            var low := Lowered(c, op);
            if low.target != t then Image(c, db, t) else if low.Set? then Some(low.value) else None
  {
    hide WriteTd;
    hide M.BufBE8;
    hide IsTd;
    hide IsNumber;
    hide IsHash;
  }

  /** On the image of each target, a batch of tables acts as the lowered batch. */
  lemma {:induction false} BatchImage(c: Codec, db: Db, ops: seq<DbOp>, t: M.Target)
    requires SizedDb(db) && AllSized(ops)
    ensures SizedDb(Batch(db, ops)) && Image(c, Batch(db, ops), t) == M.After(Image(c, db, t), LoweredAll(c, ops), t)
    decreases |ops|
  {
    hide Image;
    hide SizedDb;
    hide Lowered;
    hide Apply;
    if ops != [] {
      var front, op := ops[..|ops| - 1], ops[|ops| - 1];
      BatchImage(c, db, front, t);
      SizedApply(Batch(db, front), op);
      ApplyImage(c, Batch(db, front), op, t);
      var low := LoweredAll(c, ops);
      assert low[..|low| - 1] == LoweredAll(c, front);
    }
  }

  lemma LoweredProper(c: Codec, ops: seq<DbOp>)
    requires AllSized(ops)
    ensures M.AllProper(LoweredAll(c, ops))
  {
    hide Lowered;
    hide Sized;
    forall i | 0 <= i < |ops| ensures M.Proper(LoweredAll(c, ops)[i].target) {
      ProperOne(c, ops[i]);
    }
  }

  lemma ProperOne(c: Codec, op: DbOp)
    requires Sized(op)
    ensures M.Proper(Lowered(c, op).target)
  {}

  /** A batch through the manager is the batch of the tables, with coherent caches. */
  method BatchTables(manager: M.DbManager, c: Codec, ops: seq<DbOp>, ghost db: Db)
    requires manager.Valid() && Represents(c, manager.db, db) && AllSized(ops)
    modifies manager
    ensures manager.Valid() && Represents(c, manager.db, Batch(db, ops))
  {
    hide Image;
    hide SizedDb;
    hide M.Table;
    hide M.After;
    hide M.Coherent;
    hide M.Proper;
    hide LoweredAll;
    LoweredProper(c, ops);
    manager.Batch(LoweredAll(c, ops));
    BatchSized(db, ops);
    forall t | M.Proper(t) && OfTables(t) ensures M.Table(manager.db, t) == Image(c, Batch(db, ops), t) {
      BatchImage(c, db, ops, t);
    }
  }

  lemma {:induction false} BatchSized(db: Db, ops: seq<DbOp>)
    requires SizedDb(db) && AllSized(ops)
    ensures SizedDb(Batch(db, ops))
    decreases |ops|
  {
    hide SizedDb;
    hide Apply;
    if ops != [] {
      BatchSized(db, ops[..|ops| - 1]);
      SizedApply(Batch(db, ops[..|ops| - 1]), ops[|ops| - 1]);
    }
  }

  /** The empty store holds the empty tables. */
  lemma EmptyRepresents(c: Codec)
    ensures Represents(c, map[], EMPTY_DB)
  {}

  // ---------- lookups through the manager ----------

  method HashToNumber(manager: M.DbManager, c: Codec, hash: Hash, ghost db: Db) returns (r: Option<nat>)
    requires manager.Valid() && Represents(c, manager.db, db) && IsHash(hash)
    modifies manager`caches
    ensures manager.Valid()
    ensures r == if hash in db.hashToNumber then Some(db.hashToNumber[hash]) else None
  {
    hide M.Coherent;
    var value := manager.Get(M.HashToNumber(hash));
    if value.None? {
      return None;
    }
    M.BufBE8Number(db.hashToNumber[hash]);
    return Some(FromBigEndian(value.value));
  }

  method NumberToHash(manager: M.DbManager, c: Codec, number: nat, ghost db: Db) returns (r: Option<Hash>)
    requires manager.Valid() && Represents(c, manager.db, db) && IsNumber(number)
    modifies manager`caches
    ensures manager.Valid()
    ensures r == ChainDbs.NumberToHash(db, number)
  {
    hide M.Coherent;
    r := manager.Get(M.NumberToHash(number));
  }

  method GetTd(manager: M.DbManager, c: Codec, hash: Hash, number: nat, ghost db: Db) returns (r: Option<nat>)
    requires manager.Valid() && Represents(c, manager.db, db) && IsHash(hash) && IsNumber(number)
    modifies manager`caches
    ensures manager.Valid()
    ensures r == if (number, hash) in db.td then Some(db.td[(number, hash)]) else None
  {
    hide M.Coherent;
    hide WriteTd;
    hide ReadTd;
    var value := manager.Get(M.TotalDifficulty(number, hash));
    if value.None? {
      return None;
    }
    TdRoundTrip(db.td[(number, hash)]);
    return Some(ReadTd(value.value));
  }

  /** A header, after the reads that its hardfork needs. */
  method GetHeader(manager: M.DbManager, c: Codec, hash: Hash, number: nat, ghost db: Db) returns (r: Option<Header>)
    requires manager.Valid() && Represents(c, manager.db, db) && Readable(c) && IsHash(hash) && IsNumber(number)
    modifies manager`caches
    ensures manager.Valid()
    ensures r == ChainDbs.GetHeader(db, hash, number)
  {
    hide M.Coherent;
    hide Pow256;
    var encoded := manager.Get(M.Target.Header(number, hash));
    if encoded.None? {
      return None;
    }
    if number > 0 {
      var parentHash := NumberToHash(manager, c, number - 1, db);
      if parentHash.None? {
        return None;
      }
      var td := GetTd(manager, c, parentHash.value, number - 1, db);
      if td.None? {
        return None;
      }
    }
    return Some((c.readHeader)(encoded.value));
  }

  /** A block, whose body may be missing. */
  method ReadBlock(manager: M.DbManager, c: Codec, hash: Hash, number: nat, ghost db: Db) returns (r: Option<Header>)
    requires manager.Valid() && Represents(c, manager.db, db) && Readable(c) && IsHash(hash) && IsNumber(number)
    modifies manager`caches
    ensures manager.Valid()
    ensures var x := ChainDbs.GetHeader(db, hash, number);
      r == if x.Some? && number > 0 && (number - 1, x.value.parentHash) !in db.td then None else x
  {
    hide M.Coherent;
    hide Pow256;
    var header := GetHeader(manager, c, hash, number, db);
    if header.None? {
      return None;
    }
    if number > 0 {
      var td := GetTd(manager, c, header.value.parentHash, number - 1, db);
      if td.None? {
        return None;
      }
    }
    return header;
  }

  method GetBlock(manager: M.DbManager, c: Codec, hash: Hash, ghost db: Db) returns (r: Option<Header>)
    requires manager.Valid() && Represents(c, manager.db, db) && Readable(c) && IsHash(hash)
    modifies manager`caches
    ensures manager.Valid()
    ensures r == ChainDbs.GetBlock(db, hash)
  {
    hide M.Coherent;
    var number := HashToNumber(manager, c, hash, db);
    if number.None? {
      return None;
    }
    r := ReadBlock(manager, c, hash, number.value, db);
  }

  method GetBlockByNumber(manager: M.DbManager, c: Codec, number: nat, ghost db: Db) returns (r: Option<Header>)
    requires manager.Valid() && Represents(c, manager.db, db) && Readable(c) && IsNumber(number)
    modifies manager`caches
    ensures manager.Valid()
    ensures r == ChainDbs.GetBlockByNumber(db, number)
  {
    hide M.Coherent;
    var hash := NumberToHash(manager, c, number, db);
    if hash.None? {
      return None;
    }
    r := ReadBlock(manager, c, hash.value, number, db);
  }
}
