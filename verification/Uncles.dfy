/**
 * Uncles (block.ts `validateUncles`, header.ts `validate`): a block looks back over a short
 * window of ancestors only, and still no uncle is ever included twice in a chain.
 */
module Uncles {
  import opened ByteStrings

  type Hash = Bytes

  /** A header; `rulesHold` stands for the rules that do not concern its place in the chain. */
  datatype Header = Header(hash: Hash, parentHash: Hash, number: nat, rulesHold: bool)
  datatype Block = Block(header: Header, uncleHeaders: seq<Header>)
  type Store = map<Hash, Block>

  datatype UncleError = TooMany | Duplicate | InvalidHeader | MissingParent | ParentNotCanonical
    | AlreadyIncluded | Canonical

  // ---------- what is checked ----------

  /** The rules of `header.validate` about the parent, for an uncle in a block at this height.
      A header with number 0 passes unchecked. */
  predicate AcceptsHeader(uh: Header, height: nat, store: Store) {
    || uh.number == 0
    || (&& uh.rulesHold && uh.parentHash in store
        && uh.number == store[uh.parentHash].header.number + 1
        && 1 < height - store[uh.parentHash].header.number < 8)
  }

  function HashesOf(headers: seq<Header>): set<Hash> {
    set h | h in headers :: h.hash
  }

  function BlockHashes(blocks: seq<Block>): set<Hash> {
    set b | b in blocks :: b.header.hash
  }

  function UnclesOf(blocks: seq<Block>): set<Hash> {
    set b, u | b in blocks && u in b.uncleHeaders :: u.hash
  }

  /** The next n ancestors from a hash down. */
  function Ancestors(store: Store, hash: Hash, n: nat): Option<seq<Block>>
    decreases n
  {
    if n == 0 then Some([])
    else if hash !in store then None
    else
      match Ancestors(store, store[hash].header.parentHash, n - 1)
      case None => None
      case Some(rest) => Some([store[hash]] + rest)
  }

  function Lowest(number: nat, uncles: seq<Header>): (r: nat)
    ensures r <= number && forall u :: u in uncles ==> r <= u.number
  {
    if uncles == [] then number
    else
      var rest := Lowest(number, uncles[..|uncles| - 1]);
      if uncles[|uncles| - 1].number < rest then uncles[|uncles| - 1].number else rest
  }

  /** How many ancestors are fetched. */
  function Depth(b: Block): nat {
    b.header.number - Lowest(b.header.number, b.uncleHeaders) + 1
  }

  ghost predicate Unrelated(u: Header, window: seq<Block>) {
    && u.parentHash in BlockHashes(window)
    && u.hash !in UnclesOf(window) && u.hash !in BlockHashes(window)
  }

  ghost predicate Distinct(headers: seq<Header>) {
    forall i, j :: 0 <= i < j < |headers| ==> headers[i].hash != headers[j].hash
  }

  ghost predicate UnclesValid(b: Block, store: Store) {
    b.header.number == 0 || b.uncleHeaders == [] ||
    (&& |b.uncleHeaders| <= 2 && Distinct(b.uncleHeaders)
     && (forall u :: u in b.uncleHeaders ==> AcceptsHeader(u, b.header.number, store))
     && var window := Ancestors(store, b.header.parentHash, Depth(b));
       && window.Some?
       && forall u :: u in b.uncleHeaders ==> Unrelated(u, window.value))
  }

  /** `header.validate`, as far as it concerns the place in the chain. */
  method ValidateHeader(uh: Header, height: nat, store: Store) returns (r: Result<(), UncleError>)
    ensures r.Ok? <==> AcceptsHeader(uh, height, store)
  {
    if uh.number == 0 {
      return Ok(());
    }
    if !uh.rulesHold || uh.parentHash !in store {
      return Err(InvalidHeader);
    }
    var parentHeader := store[uh.parentHash].header;
    if uh.number != parentHeader.number + 1 {
      return Err(InvalidHeader);
    }
    var dif := height - parentHeader.number;
    if !(dif < 8 && dif > 1) {
      return Err(InvalidHeader);
    }
    return Ok(());
  }

  /** `validateUncles`. */
  method ValidateUncles(b: Block, store: Store) returns (r: Result<(), UncleError>)
    ensures r.Ok? <==> UnclesValid(b, store)
  {
    if b.header.number == 0 {
      return Ok(());
    }
    if |b.uncleHeaders| > 2 {
      return Err(TooMany);
    }
    var uncleHashes: set<Hash> := {};
    for i := 0 to |b.uncleHeaders|
      invariant uncleHashes == HashesOf(b.uncleHeaders[..i])
      invariant Distinct(b.uncleHeaders[..i])
    {
      var h := b.uncleHeaders[i].hash;
      assert b.uncleHeaders[..i + 1] == b.uncleHeaders[..i] + [b.uncleHeaders[i]];
      if h in uncleHashes {
        SomeTwice(b.uncleHeaders, i);
        return Err(Duplicate);
      }
      uncleHashes := uncleHashes + {h};
    }
    assert b.uncleHeaders[..|b.uncleHeaders|] == b.uncleHeaders;
    r := ValidateUncleHeaders(b, store);
  }

  lemma SomeTwice(headers: seq<Header>, i: nat)
    requires i < |headers| && headers[i].hash in HashesOf(headers[..i])
    ensures !Distinct(headers)
  {
    var u :| u in headers[..i] && u.hash == headers[i].hash;
    var j :| 0 <= j < i && headers[..i][j] == u;
    assert headers[j].hash == headers[i].hash;
  }

  /** `_validateUncleHeaders`: the window is collected into two lookup tables, then each uncle is checked. */
  method ValidateUncleHeaders(b: Block, store: Store) returns (r: Result<(), UncleError>)
    requires b.header.number > 0 && |b.uncleHeaders| <= 2 && Distinct(b.uncleHeaders)
    ensures r.Ok? <==> UnclesValid(b, store)
  {
    hide Unrelated;
    hide Ancestors;
    hide AcceptsHeader;
    hide BlockHashes;
    hide UnclesOf;
    hide HashesOf;
    hide Lowest;
    hide Distinct;
    if |b.uncleHeaders| == 0 {
      return Ok(());
    }
    NoUncles(b.header.number, b.uncleHeaders);
    for i := 0 to |b.uncleHeaders|
      invariant forall j :: 0 <= j < i ==> AcceptsHeader(b.uncleHeaders[j], b.header.number, store)
    {
      var valid := ValidateHeader(b.uncleHeaders[i], b.header.number, store);
      if valid.Err? {
        return Err(valid.error);
      }
    }
    var lowestUncleNumber := b.header.number;
    for i := 0 to |b.uncleHeaders|
      invariant lowestUncleNumber == Lowest(b.header.number, b.uncleHeaders[..i])
    {
      LowestStep(b.header.number, b.uncleHeaders, i);
      if b.uncleHeaders[i].number < lowestUncleNumber {
        lowestUncleNumber := b.uncleHeaders[i].number;
      }
    }
    assert b.uncleHeaders[..|b.uncleHeaders|] == b.uncleHeaders;
    var canonicalChainHashes, includedUncles: set<Hash> := {}, {};
    ghost var window: seq<Block> := [];
    var getBlocks := b.header.number - lowestUncleNumber + 1;
    var parentHash := b.header.parentHash;
    PrependNone(Ancestors(store, parentHash, getBlocks));
    for i := 0 to getBlocks
      invariant Ancestors(store, b.header.parentHash, getBlocks) ==
                  Prepend(window, Ancestors(store, parentHash, getBlocks - i))
      invariant canonicalChainHashes == BlockHashes(window) && includedUncles == UnclesOf(window)
    {
      AncestorsStep(store, window, parentHash, getBlocks - i);
      if parentHash !in store {
        return Err(MissingParent);
      }
      var parentBlock := store[parentHash];
      TablesGrow(window, parentBlock);
      window := window + [parentBlock];
      canonicalChainHashes := canonicalChainHashes + {parentBlock.header.hash};
      includedUncles := includedUncles + HashesOf(parentBlock.uncleHeaders);
      parentHash := parentBlock.header.parentHash;
    }
    assert Ancestors(store, b.header.parentHash, getBlocks) == Some(window) by {
      AncestorsEnd(store, window, parentHash);
    }
    for i := 0 to |b.uncleHeaders|
      invariant forall j :: 0 <= j < i ==> Unrelated(b.uncleHeaders[j], window)
    {
      var u := b.uncleHeaders[i];
      IsUnrelated(u, window);
      if u.parentHash !in canonicalChainHashes {
        return Err(ParentNotCanonical);
      }
      if u.hash in includedUncles {
        return Err(AlreadyIncluded);
      }
      if u.hash in canonicalChainHashes {
        return Err(Canonical);
      }
    }
    return Ok(());
  }

  lemma IsUnrelated(u: Header, window: seq<Block>)
    ensures Unrelated(u, window) <==>
            u.parentHash in BlockHashes(window) && u.hash !in UnclesOf(window) && u.hash !in BlockHashes(window)
  {}

  function Prepend(window: seq<Block>, rest: Option<seq<Block>>): Option<seq<Block>> {
    match rest
    case None => None
    case Some(blocks) => Some(window + blocks)
  }

  lemma PrependNone(rest: Option<seq<Block>>)
    ensures Prepend([], rest) == rest
  {
    if rest.Some? { assert [] + rest.value == rest.value; }
  }

  lemma AncestorsStep(store: Store, window: seq<Block>, hash: Hash, n: nat)
    requires n > 0
    ensures hash !in store ==> Prepend(window, Ancestors(store, hash, n)) == None
    ensures hash in store ==> Prepend(window, Ancestors(store, hash, n)) ==
                              Prepend(window + [store[hash]], Ancestors(store, store[hash].header.parentHash, n - 1))
  {
    if hash in store {
      var rest := Ancestors(store, store[hash].header.parentHash, n - 1);
      if rest.Some? { assert window + ([store[hash]] + rest.value) == window + [store[hash]] + rest.value; }
    }
  }

  lemma AncestorsEnd(store: Store, window: seq<Block>, hash: Hash)
    ensures Prepend(window, Ancestors(store, hash, 0)) == Some(window)
  {
    assert window + [] == window;
  }

  lemma NoUncles(number: nat, uncles: seq<Header>)
    ensures Lowest(number, uncles[..0]) == number && uncles[..|uncles|] == uncles
    ensures BlockHashes([]) == {} && UnclesOf([]) == {}
  {}

  lemma LowestStep(number: nat, uncles: seq<Header>, i: nat)
    requires i < |uncles|
    ensures Lowest(number, uncles[..i + 1]) ==
            if uncles[i].number < Lowest(number, uncles[..i]) then uncles[i].number else Lowest(number, uncles[..i])
  {
    assert uncles[..i + 1][..i] == uncles[..i];
  }

  lemma TablesGrow(window: seq<Block>, b: Block)
    ensures BlockHashes(window + [b]) == BlockHashes(window) + {b.header.hash}
    ensures UnclesOf(window + [b]) == UnclesOf(window) + HashesOf(b.uncleHeaders)
  {
    assert forall x :: x in window + [b] <==> x in window || x == b;
  }

  // ---------- over a whole chain ----------

  /** A parent-linked chain from a genesis block without uncles; store i holds, by hash, all the
      blocks below block i, and no parent of the genesis block. */
  ghost predicate LinkedChain(chain: seq<Block>, stores: seq<Store>) {
    && |stores| == |chain|
    && (forall i :: 0 <= i < |chain| ==> chain[i].header.number == i)
    && (forall i :: 0 < i < |chain| ==> chain[i].header.parentHash == chain[i - 1].header.hash)
    && (forall i, j :: 0 <= j < i < |chain| ==> Knows(stores[i], chain[j]))
    && (chain != [] ==> chain[0].uncleHeaders == [])
    && (forall i :: 0 <= i < |stores| ==> chain[0].header.parentHash !in stores[i])
  }

  ghost predicate Knows(store: Store, b: Block) {
    b.header.hash in store && store[b.header.hash] == b
  }

  /** Each block of the chain was validated against its store. */
  ghost predicate ValidChain(chain: seq<Block>, stores: seq<Store>) {
    LinkedChain(chain, stores) && forall i :: 0 <= i < |chain| ==> UnclesValid(chain[i], stores[i])
  }

  /** The headers that occur, as blocks or as uncles. */
  ghost predicate Occurs(chain: seq<Block>, h: Header) {
    exists i :: 0 <= i < |chain| && (chain[i].header == h || h in chain[i].uncleHeaders)
  }

  /** Different headers have different hashes, among those that occur. */
  ghost predicate NoCollision(chain: seq<Block>) {
    forall g, h :: Occurs(chain, g) && Occurs(chain, h) && g.hash == h.hash ==> g == h
  }

  /** The window below block i is the stretch of the chain below it. */
  lemma {:induction false} WindowIsChain(chain: seq<Block>, stores: seq<Store>, i: nat, k: nat, n: nat)
    requires LinkedChain(chain, stores) && k < i < |chain|
    ensures var w := Ancestors(stores[i], chain[k].header.hash, n);
      && (n > k + 1 ==> w == None)
      && (n <= k + 1 ==> w.Some? && |w.value| == n && forall j :: 0 <= j < n ==> w.value[j] == chain[k - j])
    decreases n
  {
    if n > 0 {
      assert Knows(stores[i], chain[k]);
      if k > 0 {
        WindowIsChain(chain, stores, i, k - 1, n - 1);
      } else {
        assert n > 1 ==> Ancestors(stores[i], chain[0].header.parentHash, n - 1) == None;
      }
    }
  }

  lemma {:induction false} LowestIsReached(number: nat, uncles: seq<Header>)
    ensures Lowest(number, uncles) == number || exists u :: u in uncles && u.number == Lowest(number, uncles)
  {
    if uncles != [] { LowestIsReached(number, uncles[..|uncles| - 1]); }
  }

  /** The window of a block with uncles: two to seven blocks, never eight, unless an uncle claims
      number 0, for which it reaches below the genesis block. */
  lemma DepthRange(b: Block, store: Store)
    requires b.uncleHeaders != [] && forall u :: u in b.uncleHeaders ==> AcceptsHeader(u, b.header.number, store)
    ensures (exists u :: u in b.uncleHeaders && u.number == 0) ==> Depth(b) == b.header.number + 1
    ensures (forall u :: u in b.uncleHeaders ==> u.number > 0) ==> 2 <= Depth(b) <= 7 && Depth(b) <= b.header.number
    ensures forall u :: u in b.uncleHeaders ==> b.header.number - Depth(b) <= u.number - 1
  {
    LowestIsReached(b.header.number, b.uncleHeaders);
    assert AcceptsHeader(b.uncleHeaders[0], b.header.number, store);
  }

  /** A legal uncle of block i of a chain, where the lowest uncle of that block has number `low`: it is one to six
      numbers below the block, its parent is the block of the chain below it, and it is none of the blocks, and
      no uncle of one, from the parent of the lowest uncle up to the block. */
  ghost predicate LegalUncle(chain: seq<Block>, i: nat, u: Header, low: nat) {
    && u.rulesHold && 1 <= low <= u.number < i <= u.number + 6 && i < |chain|
    && u.parentHash == chain[u.number - 1].header.hash
    && forall k :: low - 1 <= k < i ==>
         chain[k].header.hash != u.hash && forall v :: v in chain[k].uncleHeaders ==> v.hash != u.hash
  }

  lemma {:induction false} LowestIs(number: nat, uncles: seq<Header>, low: nat)
    requires (exists u :: u in uncles && u.number == low) && forall u :: u in uncles ==> low <= u.number
    ensures Lowest(number, uncles) == if low < number then low else number
  {
    LowestIsReached(number, uncles);
  }

  /** The stretch of the chain from a number up to below block i, from the top. */
  ghost predicate Stretch(chain: seq<Block>, i: nat, from: nat, w: seq<Block>)
    requires i <= |chain|
  {
    && (forall k :: from <= k < i ==> chain[k] in w)
    && (forall b :: b in w ==> exists k :: from <= k < i && chain[k] == b)
  }

  lemma Links(chain: seq<Block>, stores: seq<Store>, i: nat)
    requires LinkedChain(chain, stores) && 0 < i < |chain|
    ensures |stores| == |chain| && chain[i].header.parentHash == chain[i - 1].header.hash
  {}

  lemma WindowStretch(chain: seq<Block>, stores: seq<Store>, i: nat, low: nat)
    requires LinkedChain(chain, stores) && i < |chain| && 1 <= low < i
    ensures var w := Ancestors(stores[i], chain[i].header.parentHash, i - low + 1);
      w.Some? && Stretch(chain, i, low - 1, w.value)
  {
    hide Ancestors;
    hide LinkedChain;
    Links(chain, stores, i);
    WindowIsChain(chain, stores, i, i - 1, i - low + 1);
    var w := Ancestors(stores[i], chain[i].header.parentHash, i - low + 1).value;
    forall k | low - 1 <= k < i ensures chain[k] in w { assert w[i - 1 - k] == chain[k]; }
    forall b | b in w ensures exists k :: low - 1 <= k < i && chain[k] == b {
      var j :| 0 <= j < |w| && w[j] == b;
      assert chain[i - 1 - j] == b;
    }
  }

  lemma UnrelatedTo(chain: seq<Block>, i: nat, from: nat, w: seq<Block>, u: Header)
    requires i <= |chain| && Stretch(chain, i, from, w)
    ensures Unrelated(u, w) <==>
            && (exists k :: from <= k < i && chain[k].header.hash == u.parentHash)
            && forall k :: from <= k < i ==>
                 chain[k].header.hash != u.hash && forall v :: v in chain[k].uncleHeaders ==> v.hash != u.hash
  {
    if Unrelated(u, w) {
      var b :| b in w && b.header.hash == u.parentHash;
      forall k, v | from <= k < i && v in chain[k].uncleHeaders ensures v.hash != u.hash {
        assert v.hash in UnclesOf(w);
      }
    }
  }

  /** Being accepted and unrelated to the window from the lowest uncle's parent up is being legal. */
  lemma UnrelatedIff(chain: seq<Block>, stores: seq<Store>, i: nat, u: Header, low: nat)
    requires LinkedChain(chain, stores) && i < |chain| && 1 <= low < i && low <= u.number
    ensures var w := Ancestors(stores[i], chain[i].header.parentHash, i - low + 1);
      && w.Some?
      && (AcceptsHeader(u, i, stores[i]) && Unrelated(u, w.value) <==> LegalUncle(chain, i, u, low))
  {
    hide Ancestors;
    hide Unrelated;
    hide Stretch;
    WindowStretch(chain, stores, i, low);
    var w := Ancestors(stores[i], chain[i].header.parentHash, i - low + 1).value;
    UnrelatedTo(chain, i, low - 1, w, u);
    if AcceptsHeader(u, i, stores[i]) && Unrelated(u, w) {
      var k :| low - 1 <= k < i && chain[k].header.hash == u.parentHash;
      assert Knows(stores[i], chain[k]);
    }
    if LegalUncle(chain, i, u, low) {
      assert Knows(stores[i], chain[u.number - 1]);
    }
  }

  /** Exactly which uncles a block of a chain may have. */
  lemma UnclesValidIff(chain: seq<Block>, stores: seq<Store>, i: nat, low: nat)
    requires LinkedChain(chain, stores) && 0 < i < |chain|
    requires exists u :: u in chain[i].uncleHeaders && u.number == low
    requires forall u :: u in chain[i].uncleHeaders ==> low <= u.number
    ensures UnclesValid(chain[i], stores[i]) <==>
            var uncles := chain[i].uncleHeaders;
            && |uncles| <= 2 && (|uncles| == 2 ==> uncles[0].hash != uncles[1].hash)
            && forall u :: u in uncles ==> LegalUncle(chain, i, u, low)
  {
    hide Unrelated;
    hide LegalUncle;
    hide AcceptsHeader;
    hide Ancestors;
    hide Lowest;
    var uncles := chain[i].uncleHeaders;
    LowestIs(i, uncles, low);
    if 1 <= low < i {
      WindowStretch(chain, stores, i, low);
      var w := Ancestors(stores[i], chain[i].header.parentHash, i - low + 1).value;
      forall u | u in uncles
        ensures AcceptsHeader(u, i, stores[i]) && Unrelated(u, w) <==> LegalUncle(chain, i, u, low)
      {
        UnrelatedIff(chain, stores, i, u, low);
      }
    } else {
      var u :| u in uncles && u.number == low;
      OutOfRange(chain, stores, i, u, low);
    }
  }

  /** An uncle with number 0, or not below the block, makes the block invalid. */
  lemma OutOfRange(chain: seq<Block>, stores: seq<Store>, i: nat, u: Header, low: nat)
    requires LinkedChain(chain, stores) && 0 < i < |chain| && u in chain[i].uncleHeaders && u.number == low
    requires (low == 0 || low >= i) && forall v :: v in chain[i].uncleHeaders ==> low <= v.number
    ensures !UnclesValid(chain[i], stores[i]) && !LegalUncle(chain, i, u, low)
  {
    hide Unrelated;
    LowestIs(i, chain[i].uncleHeaders, low);
    if low == 0 {
      WindowIsChain(chain, stores, i, i - 1, i + 1);
    }
  }

  lemma ItsUncles(chain: seq<Block>, stores: seq<Store>, i: nat, u: Header)
    requires ValidChain(chain, stores) && i < |chain| && u in chain[i].uncleHeaders
    ensures i > 0 && chain[i].header.number == i && chain[i].header.parentHash == chain[i - 1].header.hash
    ensures forall x :: x in chain[i].uncleHeaders ==> AcceptsHeader(x, i, stores[i])
    ensures var w := Ancestors(stores[i], chain[i].header.parentHash, Depth(chain[i])); w.Some? && Unrelated(u, w.value)
  {
    hide Unrelated;
    hide AcceptsHeader;
    hide Ancestors;
    assert UnclesValid(chain[i], stores[i]);
  }

  /** In a valid chain no uncle claims number 0: its window would reach below the genesis block. */
  lemma NoGenesisUncle(chain: seq<Block>, stores: seq<Store>, i: nat, u: Header)
    requires ValidChain(chain, stores) && i < |chain| && u in chain[i].uncleHeaders
    ensures u.number > 0
  {
    hide UnclesValid;
    hide Unrelated;
    ItsUncles(chain, stores, i, u);
    DepthRange(chain[i], stores[i]);
    WindowIsChain(chain, stores, i, i - 1, Depth(chain[i]));
  }

  /** The blocks of the window, and what an uncle must not share with them. */
  lemma Window(chain: seq<Block>, stores: seq<Store>, i: nat, u: Header) returns (w: seq<Block>)
    requires ValidChain(chain, stores) && i < |chain| && u in chain[i].uncleHeaders
    ensures u.number > 0 && AcceptsHeader(u, i, stores[i]) && Unrelated(u, w)
    ensures 2 <= |w| <= 7 && |w| == Depth(chain[i]) <= i && i - |w| <= u.number - 1
    ensures forall j :: 0 <= j < |w| ==> w[j] == chain[i - 1 - j]
  {
    hide Unrelated;
    hide AcceptsHeader;
    hide UnclesValid;
    var b := chain[i];
    ItsUncles(chain, stores, i, u);
    forall x | x in b.uncleHeaders ensures x.number > 0 { NoGenesisUncle(chain, stores, i, x); }
    DepthRange(b, stores[i]);
    WindowIsChain(chain, stores, i, i - 1, Depth(b));
    w := Ancestors(stores[i], b.header.parentHash, Depth(b)).value;
  }

  /** An uncle comes from one to six blocks below its block, and its parent is the block of the
      chain below it. */
  lemma UncleRange(chain: seq<Block>, stores: seq<Store>, i: nat, u: Header)
    requires ValidChain(chain, stores) && i < |chain| && u in chain[i].uncleHeaders
    ensures 1 <= u.number < i <= u.number + 6
    ensures u.parentHash == chain[u.number - 1].header.hash
  {
    hide UnclesValid;
    var w := Window(chain, stores, i, u);
    var p :| p in w && p.header.hash == u.parentHash;
    var j :| 0 <= j < |w| && w[j] == p;
    assert p == chain[i - 1 - j] && Knows(stores[i], p);
  }

  /** An uncle shares nothing with the blocks from its parent up to the one that includes it. */
  lemma WindowExcludes(chain: seq<Block>, stores: seq<Store>, i: nat, u: Header, k: nat)
    requires ValidChain(chain, stores) && i < |chain| && u in chain[i].uncleHeaders && u.number - 1 <= k < i
    ensures u.hash != chain[k].header.hash
    ensures forall v :: v in chain[k].uncleHeaders ==> v.hash != u.hash
  {
    hide UnclesValid;
    hide AcceptsHeader;
    var w := Window(chain, stores, i, u);
    assert w[i - 1 - k] == chain[k];
    assert chain[k] in w;
  }

  /** No uncle is a block of the chain. */
  lemma UncleIsNoBlock(chain: seq<Block>, stores: seq<Store>, i: nat, u: Header, k: nat)
    requires ValidChain(chain, stores) && NoCollision(chain) && i < |chain| && k < |chain| && u in chain[i].uncleHeaders
    ensures u.hash != chain[k].header.hash
  {
    hide UnclesValid;
    UncleRange(chain, stores, i, u);
    if u.hash == chain[k].header.hash {
      assert Occurs(chain, u) && Occurs(chain, chain[k].header);
      WindowExcludes(chain, stores, i, u, k);
    }
  }

  /** No uncle is included by two blocks. */
  lemma UncleIncludedOnce(chain: seq<Block>, stores: seq<Store>, i: nat, k: nat, u: Header, v: Header)
    requires ValidChain(chain, stores) && NoCollision(chain) && k < i < |chain|
    requires u in chain[i].uncleHeaders && v in chain[k].uncleHeaders
    ensures u.hash != v.hash
  {
    hide UnclesValid;
    UncleRange(chain, stores, k, v);
    if u.hash == v.hash {
      assert Occurs(chain, u) && Occurs(chain, v);
      WindowExcludes(chain, stores, i, u, k);
    }
  }

  /** All uncles of a chain of accepted blocks are pairwise different, and none is a block of the chain. */
  lemma AllUnclesDistinct(chain: seq<Block>, stores: seq<Store>, i: nat, a: nat, k: nat, c: nat)
    requires ValidChain(chain, stores) && NoCollision(chain) && i < |chain| && k < |chain|
    requires a < |chain[i].uncleHeaders| && c < |chain[k].uncleHeaders|
    ensures chain[i].uncleHeaders[a].hash == chain[k].uncleHeaders[c].hash <==> i == k && a == c
    ensures chain[i].uncleHeaders[a].hash != chain[k].header.hash
  {
    var u, v := chain[i].uncleHeaders[a], chain[k].uncleHeaders[c];
    UncleIsNoBlock(chain, stores, i, u, k);
    if k < i { UncleIncludedOnce(chain, stores, i, k, u, v); }
    if i < k { UncleIncludedOnce(chain, stores, k, i, v, u); }
    if i == k { TwoUncles(chain, stores, i); }
  }

  lemma TwoUncles(chain: seq<Block>, stores: seq<Store>, i: nat)
    requires ValidChain(chain, stores) && i < |chain|
    ensures Distinct(chain[i].uncleHeaders)
  {
    hide Ancestors;
    hide Unrelated;
    assert UnclesValid(chain[i], stores[i]);
  }
}
