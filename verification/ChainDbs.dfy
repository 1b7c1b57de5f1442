/**
 * The block database of the chain, as its tables (packages/blockchain/src/db), and the
 * operations that a batch applies to it in order.
 */
module ChainDbs {
  import opened ByteStrings

  type Hash = Bytes

  /** A block, as far as the choice of the canonical chain looks at it. */
  datatype Header = Header(hash: Hash, parentHash: Hash, number: nat, difficulty: nat)

  /** Headers and total difficulties are filed under number and hash. */
  type BlockId = (nat, Hash)
  type Headers = map<BlockId, Header>
  type Heads = map<string, Hash>

  function IdOf(x: Header): BlockId {
    (x.number, x.hash)
  }

  datatype Db = Db(
    headers: Headers,
    td: map<BlockId, nat>,
    hashToNumber: map<Hash, nat>,
    numberToHash: map<nat, Hash>,
    savedHeads: Option<Heads>,
    savedHeadHeader: Option<Hash>,
    savedHeadBlock: Option<Hash>)

  const EMPTY_DB := Db(map[], map[], map[], map[], None, None, None)

  datatype DbOp =
    | SetTd(id: BlockId, td: nat)
    | SetHeader(header: Header)
    | SetHashToNumber(hash: Hash, number: nat)
    | SetNumberToHash(number: nat, hash: Hash)
    | SetHeads(heads: Heads)
    | SetHeadHeader(hash: Hash)
    | SetHeadBlock(hash: Hash)
    | DelHeader(id: BlockId)
    | DelHashToNumber(hash: Hash)
    | DelTd(id: BlockId)
    | DelNumberToHash(number: nat)

  function Apply(db: Db, op: DbOp): Db {
    match op
    case SetTd(id, td) => db.(td := db.td[id := td])
    case SetHeader(header) => db.(headers := db.headers[IdOf(header) := header])
    case SetHashToNumber(hash, number) => db.(hashToNumber := db.hashToNumber[hash := number])
    case SetNumberToHash(number, hash) => db.(numberToHash := db.numberToHash[number := hash])
    case SetHeads(heads) => db.(savedHeads := Some(heads))
    case SetHeadHeader(hash) => db.(savedHeadHeader := Some(hash))
    case SetHeadBlock(hash) => db.(savedHeadBlock := Some(hash))
    case DelHeader(id) => db.(headers := db.headers - {id})
    case DelHashToNumber(hash) => db.(hashToNumber := db.hashToNumber - {hash})
    case DelTd(id) => db.(td := db.td - {id})
    case DelNumberToHash(number) => db.(numberToHash := db.numberToHash - {number})
  }

  function Batch(db: Db, ops: seq<DbOp>): Db {
    if ops == [] then db else Apply(Batch(db, ops[..|ops| - 1]), ops[|ops| - 1])
  }

  lemma BatchPush(db: Db, ops: seq<DbOp>, op: DbOp)
    ensures Batch(db, ops + [op]) == Apply(Batch(db, ops), op)
  {
    assert (ops + [op])[..|ops|] == ops;
  }

  // ---------- lookups; None is the NotFoundError ----------

  function NumberToHash(db: Db, number: nat): Option<Hash> {
    if number in db.numberToHash then Some(db.numberToHash[number]) else None
  }

  /** Reading a header also reads, for its hardfork, the total difficulty of the canonical
      block below it. */
  function GetHeader(db: Db, hash: Hash, number: nat): Option<Header> {
    if (number, hash) !in db.headers then None
    else if
      number > 0
      && (number - 1 !in db.numberToHash || (number - 1, db.numberToHash[number - 1]) !in db.td) then None
    else Some(db.headers[(number, hash)])
  }

  function GetCanonicalHeader(db: Db, number: nat): Option<Header> {
    match NumberToHash(db, number)
    case None => None
    case Some(hash) => GetHeader(db, hash, number)
  }

  /** Reading a block by hash needs its header and the total difficulty of its parent. */
  function GetBlock(db: Db, hash: Hash): Option<Header> {
    if hash !in db.hashToNumber then None
    else
      var number := db.hashToNumber[hash];
      match GetHeader(db, hash, number)
      case None => None
      case Some(header) => if number > 0 && (number - 1, header.parentHash) !in db.td then None else Some(header)
  }

  /** Reading a block by number. */
  function GetBlockByNumber(db: Db, number: nat): Option<Header> {
    match NumberToHash(db, number)
    case None => None
    case Some(hash) =>
      match GetHeader(db, hash, number)
      case None => None
      case Some(header) => if number > 0 && (number - 1, header.parentHash) !in db.td then None else Some(header)
  }

  function GetTotalDifficulty(db: Db, hash: Hash): Option<nat> {
    if hash in db.hashToNumber && (db.hashToNumber[hash], hash) in db.td then Some(db.td[(db.hashToNumber[hash], hash)])
    else None
  }
}
