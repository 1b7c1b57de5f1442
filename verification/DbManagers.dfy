/**
 * The database below the blockchain (packages/blockchain/src/db): one flat store of byte keys,
 * read through caches that forget entries, behaves as independent tables.
 */
module DbManagers {
  import opened ByteStrings

  /** What a key is for, with the parts it is made of. */
  datatype Target =
    | Heads | HeadHeader | HeadBlock
    | HashToNumber(hash: Bytes) | NumberToHash(number: nat)
    | TotalDifficulty(number: nat, hash: Bytes) | Body(number: nat, hash: Bytes) | Header(number: nat, hash: Bytes)
    | CliqueSignerStates | CliqueVotes | CliqueBlockSigners

  datatype CacheName = TdCache | HeaderCache | BodyCache | NumberToHashCache | HashToNumberCache

  /** Hashes have 32 bytes and numbers fit into eight. */
  predicate Proper(t: Target) {
    match t
    case HashToNumber(hash) => |hash| == 32
    case NumberToHash(number) => number < Pow256(8)
    case TotalDifficulty(number, hash) => number < Pow256(8) && |hash| == 32
    case Body(number, hash) => number < Pow256(8) && |hash| == 32
    case Header(number, hash) => number < Pow256(8) && |hash| == 32
    case _ => true
  }

  // ---------- keys ----------

  const HEADS_KEY: Bytes := [104, 101, 97, 100, 115]
  const HEAD_HEADER_KEY: Bytes := [76, 97, 115, 116, 72, 101, 97, 100, 101, 114]
  const HEAD_BLOCK_KEY: Bytes := [76, 97, 115, 116, 66, 108, 111, 99, 107]
  const CLIQUE_SIGNERS_KEY: Bytes := [67, 108, 105, 113, 117, 101, 83, 105, 103, 110, 101, 114, 115]
  const CLIQUE_VOTES_KEY: Bytes := [67, 108, 105, 113, 117, 101, 86, 111, 116, 101, 115]
  const CLIQUE_BLOCK_SIGNERS_KEY: Bytes :=
    [67, 108, 105, 113, 117, 101, 66, 108, 111, 99, 107, 83, 105, 103, 110, 101, 114, 115, 83, 110, 97, 112, 115, 104,
     111, 116]
  const HEADER_PREFIX: Bytes := [104]
  const TD_SUFFIX: Bytes := [116]
  const NUM_SUFFIX: Bytes := [110]
  const BLOCK_HASH_PREFIX: Bytes := [72]
  const BODY_PREFIX: Bytes := [98]

  /** The number in exactly eight bytes, the highest first. */
  function BufBE8(n: nat): (r: Bytes)
    requires n < Pow256(8)
    ensures |r| == 8
  {
    var digits := ToBigEndian(n);
    BigEndianLength(n, 8);
    seq(8 - |digits|, i => 0) + digits
  }

  function KeyOf(t: Target): Bytes
    requires Proper(t)
  {
    match t
    case Heads => HEADS_KEY
    case HeadHeader => HEAD_HEADER_KEY
    case HeadBlock => HEAD_BLOCK_KEY
    case HashToNumber(hash) => BLOCK_HASH_PREFIX + hash
    case NumberToHash(number) => HEADER_PREFIX + BufBE8(number) + NUM_SUFFIX
    case TotalDifficulty(number, hash) => HEADER_PREFIX + BufBE8(number) + hash + TD_SUFFIX
    case Body(number, hash) => BODY_PREFIX + BufBE8(number) + hash
    case Header(number, hash) => HEADER_PREFIX + BufBE8(number) + hash
    case CliqueSignerStates => CLIQUE_SIGNERS_KEY
    case CliqueVotes => CLIQUE_VOTES_KEY
    case CliqueBlockSigners => CLIQUE_BLOCK_SIGNERS_KEY
  }

  lemma {:induction false} LeadingZeros(digits: Bytes, zeros: nat)
    ensures FromBigEndian(seq(zeros, i => 0 as Byte) + digits) == FromBigEndian(digits)
    decreases |digits|
  {
    if digits == [] {
      AllZeros(zeros);
      assert seq(zeros, i => 0 as Byte) + digits == seq(zeros, i => 0 as Byte);
    } else {
      var front, last := digits[..|digits| - 1], digits[|digits| - 1];
      LeadingZeros(front, zeros);
      var s := seq(zeros, i => 0 as Byte) + digits;
      assert s[..|s| - 1] == seq(zeros, i => 0 as Byte) + front;
    }
  }

  lemma {:induction false} AllZeros(zeros: nat)
    ensures FromBigEndian(seq(zeros, i => 0 as Byte)) == 0
  {
    if zeros > 0 {
      var s := seq(zeros, i => 0 as Byte);
      assert s[..zeros - 1] == seq(zeros - 1, i => 0 as Byte);
      AllZeros(zeros - 1);
    }
  }

  lemma BufBE8Number(n: nat)
    requires n < Pow256(8)
    ensures FromBigEndian(BufBE8(n)) == n
  {
    BigEndianRoundTrip(n);
    BigEndianLength(n, 8);
    LeadingZeros(ToBigEndian(n), 8 - |ToBigEndian(n)|);
  }

  /** The characters of a name as bytes. */
  function Ascii(name: string): Bytes
    requires forall i :: 0 <= i < |name| ==> name[i] as int < 256
  {
    seq(|name|, i requires 0 <= i < |name| && name[i] as int < 256 => var b: Byte := name[i] as int; b)
  }

  lemma {:induction false} SameNumber(a: Bytes, b: Bytes)
    requires |a| == |b| && FromBigEndian(a) == FromBigEndian(b)
    ensures a == b
  {
    if a != [] {
      SameNumber(a[..|a| - 1], b[..|b| - 1]);
      assert a == a[..|a| - 1] + [a[|a| - 1]] && b == b[..|b| - 1] + [b[|b| - 1]];
    }
  }

  /** The single keys are these names. */
  lemma NamesSpelled()
    ensures KeyOf(Heads) == Ascii("heads") && KeyOf(HeadHeader) == Ascii("LastHeader")
    ensures KeyOf(HeadBlock) == Ascii("LastBlock") && KeyOf(CliqueSignerStates) == Ascii("CliqueSigners")
    ensures KeyOf(CliqueVotes) == Ascii("CliqueVotes")
    ensures KeyOf(CliqueBlockSigners) == Ascii("CliqueBlockSignersSnapshot")
  {}

  /** The other keys are made of a letter, the number in eight bytes, the hash, and a letter. */
  lemma KeyForm(number: nat, hash: Bytes, eight: Bytes)
    requires |hash| == 32 && |eight| == 8 && FromBigEndian(eight) == number && number < Pow256(8)
    ensures KeyOf(Target.Header(number, hash)) == Ascii("h") + eight + hash
    ensures KeyOf(TotalDifficulty(number, hash)) == Ascii("h") + eight + hash + Ascii("t")
    ensures KeyOf(NumberToHash(number)) == Ascii("h") + eight + Ascii("n")
    ensures KeyOf(HashToNumber(hash)) == Ascii("H") + hash
    ensures KeyOf(Body(number, hash)) == Ascii("b") + eight + hash
  {
    BufBE8Number(number);
    SameNumber(eight, BufBE8(number));
    hide BufBE8;
    hide FromBigEndian;
    assert Ascii("h") == HEADER_PREFIX && Ascii("t") == TD_SUFFIX && Ascii("n") == NUM_SUFFIX;
    assert Ascii("H") == BLOCK_HASH_PREFIX && Ascii("b") == BODY_PREFIX;
  }

  /** The target of a key, by its length and its first letter. */
  function TargetOf(key: Bytes): Target {
    match |key|
    case 5 => Heads
    case 9 => HeadBlock
    case 10 => if key[0] == 104 then NumberToHash(FromBigEndian(key[1..9])) else HeadHeader
    case 11 => CliqueVotes
    case 13 => CliqueSignerStates
    case 33 => HashToNumber(key[1..])
    case 41 =>
      if key[0] == 98 then Body(FromBigEndian(key[1..9]), key[9..])
      else Header(FromBigEndian(key[1..9]), key[9..])
    case 42 => TotalDifficulty(FromBigEndian(key[1..9]), key[9..41])
    case _ => CliqueBlockSigners
  }

  lemma Slices(prefix: Bytes, number: Bytes, hash: Bytes, suffix: Bytes)
    requires |prefix| == 1 && |number| == 8
    ensures var key := prefix + number + hash + suffix;
      key[0] == prefix[0] && key[1..9] == number && key[9..9 + |hash|] == hash && |key| == 9 + |hash| + |suffix|
  {}

  /** The target can be read off the key, so no two targets share one, within a table or across tables. */
  lemma KeyRoundTrip(t: Target)
    requires Proper(t)
    ensures TargetOf(KeyOf(t)) == t
  {
    hide BufBE8;
    hide FromBigEndian;
    match t
    case NumberToHash(number) =>
      BufBE8Number(number);
      Slices(HEADER_PREFIX, BufBE8(number), [], NUM_SUFFIX);
      assert HEADER_PREFIX + BufBE8(number) + [] + NUM_SUFFIX == KeyOf(t);
    case TotalDifficulty(number, hash) =>
      BufBE8Number(number);
      Slices(HEADER_PREFIX, BufBE8(number), hash, TD_SUFFIX);
    case Body(number, hash) =>
      BufBE8Number(number);
      Slices(BODY_PREFIX, BufBE8(number), hash, []);
      assert BODY_PREFIX + BufBE8(number) + hash + [] == KeyOf(t);
    case Header(number, hash) =>
      BufBE8Number(number);
      Slices(HEADER_PREFIX, BufBE8(number), hash, []);
      assert HEADER_PREFIX + BufBE8(number) + hash + [] == KeyOf(t);
    case HashToNumber(hash) =>
      assert KeyOf(t)[1..] == hash;
    case _ =>
  }

  // ---------- the store and its tables ----------

  type Store = map<Bytes, Bytes>

  datatype DbOp = Set(target: Target, value: Bytes) | Del(target: Target)

  ghost predicate AllProper(ops: seq<DbOp>) {
    forall i :: 0 <= i < |ops| ==> Proper(ops[i].target)
  }

  function Table(db: Store, t: Target): Option<Bytes>
    requires Proper(t)
  {
    if KeyOf(t) in db then Some(db[KeyOf(t)]) else None
  }

  function ApplyOp(db: Store, op: DbOp): Store
    requires Proper(op.target)
  {
    match op
    case Set(t, value) => db[KeyOf(t) := value]
    case Del(t) => db - {KeyOf(t)}
  }

  ghost function ApplyAll(db: Store, ops: seq<DbOp>): Store
    requires AllProper(ops)
  {
    if ops == [] then db else ApplyOp(ApplyAll(db, ops[..|ops| - 1]), ops[|ops| - 1])
  }

  /** What a batch makes of one target: the last operation on it decides. */
  ghost function After(before: Option<Bytes>, ops: seq<DbOp>, t: Target): Option<Bytes> {
    if ops == [] then before
    else
      var op := ops[|ops| - 1];
      if op.target != t then After(before, ops[..|ops| - 1], t)
      else if op.Set? then Some(op.value)
      else None
  }

  /** On the one flat store, the tables do not disturb each other. */
  lemma {:induction false} TablesIndependent(db: Store, ops: seq<DbOp>, t: Target)
    requires AllProper(ops) && Proper(t)
    ensures Table(ApplyAll(db, ops), t) == After(Table(db, t), ops, t)
    decreases |ops|
  {
    hide KeyOf;
    hide TargetOf;
    if ops != [] {
      var op := ops[|ops| - 1];
      TablesIndependent(db, ops[..|ops| - 1], t);
      KeyRoundTrip(t);
      KeyRoundTrip(op.target);
    }
  }

  lemma AllTables(db: Store, ops: seq<DbOp>)
    requires AllProper(ops)
    ensures forall t :: Proper(t) ==> Table(ApplyAll(db, ops), t) == After(Table(db, t), ops, t)
  {
    forall t | Proper(t) ensures Table(ApplyAll(db, ops), t) == After(Table(db, t), ops, t) {
      TablesIndependent(db, ops, t);
    }
  }

  /** One operation more is applied after those before it. */
  lemma NextOp(db: Store, ops: seq<DbOp>, i: nat)
    requires AllProper(ops) && i < |ops|
    ensures Proper(ops[i].target) && AllProper(ops[..i]) && AllProper(ops[..i + 1])
    ensures ApplyAll(db, ops[..i + 1]) == ApplyOp(ApplyAll(db, ops[..i]), ops[i])
  {
    assert ops[..i + 1][..i] == ops[..i];
  }

  // ---------- caches ----------

  function CacheFor(t: Target): Option<CacheName> {
    match t
    case HashToNumber(_) => Some(HashToNumberCache)
    case NumberToHash(_) => Some(NumberToHashCache)
    case TotalDifficulty(_, _) => Some(TdCache)
    case Body(_, _) => Some(BodyCache)
    case Header(_, _) => Some(HeaderCache)
    case _ => None
  }

  type Caches = map<CacheName, Store>

  /** Every cached value is the stored one, and each cache holds only keys of its own table. */
  ghost predicate Coherent(caches: Caches, db: Store) {
    && (forall c: CacheName :: c in caches)
    && (forall c, k :: c in caches && k in caches[c] ==>
          k in db && db[k] == caches[c][k] && CacheFor(TargetOf(k)) == Some(c))
  }

  lemma RememberCoherent(caches: Caches, db: Store, t: Target, value: Bytes, cached: Store)
    requires Coherent(caches, db) && Proper(t) && CacheFor(t).Some?
    requires forall k :: k in cached ==>
               if k == KeyOf(t) then cached[k] == value
               else k in caches[CacheFor(t).value] && cached[k] == caches[CacheFor(t).value][k]
    ensures Coherent(caches[CacheFor(t).value := cached], db[KeyOf(t) := value])
  {
    hide KeyOf;
    hide TargetOf;
    KeyRoundTrip(t);
  }

  lemma ForgetCoherent(caches: Caches, db: Store, t: Target, cached: Store)
    requires Coherent(caches, db) && Proper(t) && CacheFor(t).Some?
    requires cached == caches[CacheFor(t).value] - {KeyOf(t)}
    ensures Coherent(caches[CacheFor(t).value := cached], db - {KeyOf(t)})
  {
    hide KeyOf;
    hide TargetOf;
    KeyRoundTrip(t);
  }

  /** Targets without a cache do not touch any cached key. */
  lemma UncachedCoherent(caches: Caches, db: Store, op: DbOp)
    requires Coherent(caches, db) && Proper(op.target) && CacheFor(op.target).None?
    ensures Coherent(caches, ApplyOp(db, op))
  {
    hide KeyOf;
    hide TargetOf;
    KeyRoundTrip(op.target);
  }

  class DbManager {
    var db: Store
    var caches: Caches

    ghost predicate Valid()
      reads this
    {
      Coherent(caches, db)
    }

    constructor ()
      ensures Valid() && db == map[]
    {
      db := map[];
      caches := map[TdCache := map[], HeaderCache := map[], BodyCache := map[],
                    NumberToHashCache := map[], HashToNumberCache := map[]];
      new;
      forall c: CacheName ensures c in caches {
        match c
        case TdCache =>
        case HeaderCache =>
        case BodyCache =>
        case NumberToHashCache =>
        case HashToNumberCache =>
      }
    }

    /** `Cache.set`: the new entry is added, and any entries at all may be evicted. */
    method CacheSet(t: Target, value: Bytes, ghost before: Store)
      requires Proper(t) && CacheFor(t).Some?
      requires Coherent(caches, before)
      modifies this`caches
      ensures Coherent(caches, before[KeyOf(t) := value])
    {
      hide KeyOf;
      var name := CacheFor(t).value;
      var kept: set<Bytes> := *;
      var grown := caches[name][KeyOf(t) := value];
      var cached := map k | k in grown && k in kept :: grown[k];
      RememberCoherent(caches, before, t, value, cached);
      caches := caches[name := cached];
    }

    /** Reading gives what the table holds, from the cache or from the store, and changes no table. */
    method Get(t: Target) returns (r: Option<Bytes>)
      requires Valid() && Proper(t)
      modifies this`caches
      ensures Valid() && r == Table(db, t)
    {
      hide KeyOf;
      hide TargetOf;
      hide Coherent;
      var key := KeyOf(t);
      var name := CacheFor(t);
      if name.Some? {
        CachedIsStored(caches, db, name.value, key);
        if key in caches[name.value] {
          return Some(caches[name.value][key]);
        }
        if key !in db {
          return None;
        }
        assert db == db[key := db[key]];
        CacheSet(t, db[key], db);
        return Some(db[key]);
      }
      return if key in db then Some(db[key]) else None;
    }

    /** A batch first updates the caches, operation by operation, and then the store at once. */
    method Batch(ops: seq<DbOp>)
      requires Valid() && AllProper(ops)
      modifies this
      ensures Valid()
      ensures forall t :: Proper(t) ==> Table(db, t) == After(old(Table(db, t)), ops, t)
    {
      hide KeyOf;
      hide TargetOf;
      hide Coherent;
      hide Table;
      hide After;
      hide ApplyOp;
      for i := 0 to |ops|
        invariant db == old(db) && Coherent(caches, ApplyAll(db, ops[..i]))
      {
        NextOp(db, ops, i);
        UpdateCache(ops[i], ApplyAll(db, ops[..i]));
      }
      assert ops[..|ops|] == ops;
      ghost var after := ApplyAll(db, ops);
      for i := 0 to |ops|
        invariant db == ApplyAll(old(db), ops[..i]) && Coherent(caches, after)
      {
        NextOp(old(db), ops, i);
        db := ApplyOp(db, ops[i]);
      }
      AllTables(old(db), ops);
    }

    method UpdateCache(op: DbOp, ghost before: Store)
      requires Proper(op.target) && Coherent(caches, before)
      modifies this`caches
      ensures Coherent(caches, ApplyOp(before, op))
    {
      hide KeyOf;
      hide TargetOf;
      hide Coherent;
      var name := CacheFor(op.target);
      if name.None? {
        UncachedCoherent(caches, before, op);
        return;
      }
      match op {
        case Set(t, value) =>
          CacheSet(t, value, before);
        case Del(t) =>
          CachedIsStored(caches, before, name.value, KeyOf(t));
          ForgetCoherent(caches, before, t, caches[name.value] - {KeyOf(t)});
          caches := caches[name.value := caches[name.value] - {KeyOf(t)}];
      }
    }
  }

  lemma CachedIsStored(caches: Caches, db: Store, name: CacheName, key: Bytes)
    requires Coherent(caches, db)
    ensures name in caches && (key in caches[name] ==> key in db && db[key] == caches[name][key])
  {}
}
