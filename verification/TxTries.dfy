/** The transaction trie of a block (block.ts `genTxTrie`, `validateTransactionsTrie`). */
module TxTries {
  import opened ByteStrings
  import opened NibblePaths
  import opened Rlp
  import opened Trees
  import opened CanonicalTrees
  import opened TrieNodes
  import opened TrieStores
  import opened Tries
  import opened TrieRuns
  import opened TrieLists
  import opened CheckpointDbs

  /** Transaction i is stored under `rlp.encode(i)`. */
  function TxKey(i: nat): Bytes {
    Encode(Str(ToBigEndian(i)))
  }

  ghost function TxKeys(n: nat): (r: seq<Bytes>)
    ensures |r| == n && forall i :: 0 <= i < n ==> r[i] == TxKey(i)
  {
    seq(n, i requires 0 <= i < n => TxKey(i))
  }

  /** Serialized transactions: never empty, and no longer than a buffer can be. */
  ghost predicate Transactions(txs: seq<Bytes>) {
    |txs| < SIZE_LIMIT && forall i :: 0 <= i < |txs| ==> Storable(txs[i])
  }

  lemma TxKeyLength(i: nat)
    requires i < SIZE_LIMIT
    ensures |ToBigEndian(i)| <= 7 && |TxKey(i)| <= 8 && Fits(Str(ToBigEndian(i)))
  {
    assert Pow256(7) == 0x100_0000_0000_0000 by {
      assert Pow256(1) == 256 && Pow256(2) == 65536 && Pow256(3) == 0x100_0000 && Pow256(4) == 0x1_0000_0000;
    }
    BigEndianLength(i, 7);
    LengthBytes(|ToBigEndian(i)|);
  }

  /** No key is a prefix of the key of another transaction. */
  lemma TxKeysPrefixFree(i: nat, j: nat)
    requires i < SIZE_LIMIT && j < SIZE_LIMIT && BufferToNibbles(TxKey(i)) <= BufferToNibbles(TxKey(j))
    ensures i == j
  {
    TxKeyLength(i);
    TxKeyLength(j);
    NibblePrefix(TxKey(i), TxKey(j));
    PrefixFree(Str(ToBigEndian(i)), Str(ToBigEndian(j)));
    BigEndianRoundTrip(i);
    BigEndianRoundTrip(j);
  }

  lemma TxPairs(txs: seq<Bytes>)
    requires Transactions(txs)
    ensures Pairs(TxKeys(|txs|), txs) && Distinct(TxKeys(|txs|))
  {
    forall i | 0 <= i < |txs| ensures |TxKey(i)| <= 8 { TxKeyLength(i); }
    forall i, j | 0 <= i < j < |txs| ensures BufferToNibbles(TxKey(i)) != BufferToNibbles(TxKey(j)) {
      if BufferToNibbles(TxKey(i)) == BufferToNibbles(TxKey(j)) { TxKeysPrefixFree(i, j); }
    }
  }

  ghost function TxTree(txs: seq<Bytes>): (t: Tree)
    requires Transactions(txs)
    ensures Canonical(t) && WellFormed(t)
  {
    Built(TxKeys(|txs|), txs)
  }

  ghost predicate TxInRange(H: HashFn, txs: seq<Bytes>, all: set<Bytes>)
    requires Transactions(txs)
  {
    forall n :: 0 <= n <= |txs| ==> RootStrings(H, TxTree(txs[..n])) <= all
  }

  /** The trie finds transaction i under its key, and nothing under any other key. */
  lemma TxTreeHolds(txs: seq<Bytes>)
    requires Transactions(txs)
    ensures Shape(TxTree(txs), MAX_KEY) && Lists(TxTree(txs), TxKeys(|txs|), txs)
  {
    hide BufferToNibbles;
    hide TxKey;
    TxPairs(txs);
    BuiltHolds(TxKeys(|txs|), txs);
    HoldsPairs(TxTree(txs), TxKeys(|txs|), txs);
  }

  /** The key decodes to the number, written without leading zeros. */
  ghost predicate Names(key: Bytes, i: nat) {
    key != [] && Decode(key).Ok? && Decode(key).value.Str? && Shortest(Decode(key).value.bytes, i)
  }

  /** Transaction i is stored under the encoding of i, for every i, and nothing else is stored. */
  ghost predicate HoldsTransactions(t: Tree, txs: seq<Bytes>)
    requires WellFormed(t)
  {
    && (forall i :: 0 <= i < |txs| ==> Lookup(t, BufferToNibbles(Encode(Str(ToBigEndian(i))))) == Some(txs[i]))
    && (forall q: Nibbles :: Lookup(t, q).Some? ==>
          exists key, i :: 0 <= i < |txs| && Names(key, i) && BufferToNibbles(key) == q && Lookup(t, q) == Some(txs[i]))
  }

  lemma EncodedNames(i: nat)
    requires i < SIZE_LIMIT
    ensures Names(Encode(Str(ToBigEndian(i))), i)
  {
    var key := Encode(Str(ToBigEndian(i)));
    TxKeyLength(i);
    BigEndianRoundTrip(i);
    assert key != [];
    DecodeIsInverse(key, Str(ToBigEndian(i)));
  }

  lemma OnlyEncodedNames(key: Bytes, i: nat)
    requires Names(key, i)
    ensures key == Encode(Str(ToBigEndian(i)))
  {
    DecodeIsInverse(key, Decode(key).value);
    ShortestIs(Decode(key).value.bytes, i);
  }

  /** The trie of the transactions is the one canonical tree that holds them in this way. */
  lemma TxTreeIs(txs: seq<Bytes>, t: Tree)
    requires Transactions(txs) && Canonical(t) && WellFormed(t)
    ensures HoldsTransactions(t, txs) <==> t == TxTree(txs)
  {
    hide BufferToNibbles;
    hide Encode;
    hide Names;
    hide TxTree;
    TxTreeHolds(txs);
    var u := TxTree(txs);
    forall q: Nibbles | Lookup(u, q).Some?
      ensures exists key, i ::
                0 <= i < |txs| && Names(key, i) && BufferToNibbles(key) == q && Lookup(u, q) == Some(txs[i])
    {
      var i :| 0 <= i < |txs| && BufferToNibbles(TxKeys(|txs|)[i]) == q;
      EncodedNames(i);
      assert Names(TxKey(i), i) && Lookup(u, q) == Some(txs[i]);
    }
    if HoldsTransactions(t, txs) {
      SameHoldings(txs, t, u);
    }
  }

  lemma WhichHeld(txs: seq<Bytes>, t: Tree, q: Nibbles) returns (i: nat)
    requires WellFormed(t) && HoldsTransactions(t, txs) && Lookup(t, q).Some?
    ensures i < |txs| && q == BufferToNibbles(Encode(Str(ToBigEndian(i)))) && Lookup(t, q) == Some(txs[i])
  {
    hide BufferToNibbles;
    hide Encode;
    hide ToBigEndian;
    hide Names;
    hide Lookup;
    var key, j :| 0 <= j < |txs| && Names(key, j) && BufferToNibbles(key) == q && Lookup(t, q) == Some(txs[j]);
    i := j;
    hide HoldsTransactions;
    OnlyEncodedNames(key, i);
  }

  lemma EntryHeld(txs: seq<Bytes>, t: Tree, i: nat)
    requires WellFormed(t) && HoldsTransactions(t, txs) && i < |txs|
    ensures Lookup(t, BufferToNibbles(Encode(Str(ToBigEndian(i))))) == Some(txs[i])
  {
    hide BufferToNibbles;
    hide Encode;
    hide ToBigEndian;
    hide Names;
    hide Lookup;
  }

  lemma HeldAlike(txs: seq<Bytes>, t: Tree, u: Tree, q: Nibbles)
    requires WellFormed(t) && WellFormed(u) && HoldsTransactions(t, txs) && HoldsTransactions(u, txs)
    requires Lookup(t, q).Some?
    ensures Lookup(u, q) == Lookup(t, q)
  {
    hide BufferToNibbles;
    hide Encode;
    hide ToBigEndian;
    hide HoldsTransactions;
    hide Lookup;
    var i := WhichHeld(txs, t, q);
    EntryHeld(txs, u, i);
  }

  lemma SameHoldings(txs: seq<Bytes>, t: Tree, u: Tree)
    requires Canonical(t) && WellFormed(t) && Canonical(u) && WellFormed(u)
    requires HoldsTransactions(t, txs) && HoldsTransactions(u, txs)
    ensures t == u
  {
    hide HoldsTransactions;
    hide Lookup;
    hide WellFormed;
    hide Canonical;
    forall q: Nibbles ensures Lookup(t, q) == Lookup(u, q) {
      if Lookup(t, q).Some? { HeldAlike(txs, t, u, q); }
      if Lookup(u, q).Some? { HeldAlike(txs, u, t, q); }
    }
    CanonicalUnique(t, u);
  }

  lemma SameEntry(a: seq<Bytes>, b: seq<Bytes>, i: nat)
    requires Transactions(a) && Transactions(b) && TxTree(a) == TxTree(b) && i < |a|
    ensures i < |b| && a[i] == b[i]
  {
    hide BufferToNibbles;
    hide TxTree;
    hide TxKey;
    TxTreeHolds(a);
    TxTreeHolds(b);
    var q := BufferToNibbles(TxKeys(|a|)[i]);
    assert Lookup(TxTree(b), q) == Some(a[i]);
    var j :| 0 <= j < |b| && BufferToNibbles(TxKeys(|b|)[j]) == q;
    TxKeysPrefixFree(i, j);
    assert Lookup(TxTree(b), q) == Some(b[j]);
  }

  lemma SameTreeSameList(a: seq<Bytes>, b: seq<Bytes>)
    requires Transactions(a) && Transactions(b) && TxTree(a) == TxTree(b)
    ensures a <= b
  {
    hide TxTree;
    forall i | 0 <= i < |a| ensures i < |b| && a[i] == b[i] { SameEntry(a, b, i); }
    if |a| > |b| { SameEntry(a, b, |b|); }
  }

  /** The root binds the ordered list of transactions. */
  lemma TxRootBinds(H: HashFn, a: seq<Bytes>, b: seq<Bytes>)
    requires Transactions(a) && Transactions(b)
    requires CollisionFree(H, RootStrings(H, TxTree(a)) + RootStrings(H, TxTree(b)) + {Encode(NULL)})
    ensures RootHash(H, TxTree(a)) == RootHash(H, TxTree(b)) <==> a == b
  {
    hide CollisionFree;
    hide RootStrings;
    hide RootHash;
    hide TxTree;
    TxTreeHolds(a);
    TxTreeHolds(b);
    RootCommits(H, TxTree(a), TxTree(b), MAX_KEY, MAX_KEY);
    if TxTree(a) == TxTree(b) {
      SameTreeSameList(a, b);
      SameTreeSameList(b, a);
      assert |a| == |b|;
    }
  }

  lemma TxTreeGrows(txs: seq<Bytes>, i: nat)
    requires Transactions(txs) && i < |txs|
    ensures Transactions(txs[..i]) && Transactions(txs[..i + 1])
    ensures 2 * |TxKey(i)| <= MAX_KEY
    ensures TxTree(txs[..i + 1]) == PutTree(TxTree(txs[..i]), BufferToNibbles(TxKey(i)), txs[i])
  {
    hide BufferToNibbles;
    hide TxKey;
    TxKeyLength(i);
    var k, v := TxKeys(i + 1), txs[..i + 1];
    assert k[..i] == TxKeys(i) && v[..i] == txs[..i];
  }

  lemma NoTransactions(txs: seq<Bytes>)
    ensures Transactions(txs[..0]) && TxTree(txs[..0]) == Empty
  {}

  lemma TxTreeOnly(txs: seq<Bytes>)
    requires Transactions(txs)
    ensures HoldsTransactions(TxTree(txs), txs)
    ensures forall t :: Canonical(t) && WellFormed(t) && HoldsTransactions(t, txs) ==> t == TxTree(txs)
  {
    hide TxTree;
    hide HoldsTransactions;
    TxTreeIs(txs, TxTree(txs));
    forall t | Canonical(t) && WellFormed(t) && HoldsTransactions(t, txs) ensures t == TxTree(txs) {
      TxTreeIs(txs, t);
    }
  }

  lemma EmptyTxRoot(H: HashFn)
    ensures RootHash(H, Empty) == Digest(H, Encode(NULL))
  {}

  method GenTxTrie(txTrie: Trie, txs: seq<Bytes>, ghost all: set<Bytes>)
    requires Transactions(txs) && txTrie.Valid() && txTrie.tree == Empty && txTrie.db.State().saved == []
    requires txTrie.db.State().current.Values <= all && Encode(NULL) in all
    requires CollisionFree(txTrie.H, all) && TxInRange(txTrie.H, txs, all)
    modifies txTrie, txTrie.db
    ensures txTrie.Valid() && txTrie.tree == TxTree(txs) && HoldsTransactions(TxTree(txs), txs)
  {
    hide HoldsTransactions;
    hide CollisionFree;
    hide BufferToNibbles;
    hide TxKey;
    hide TxTree;
    NoTransactions(txs);
    for i := 0 to |txs|
      invariant txTrie.Valid() && txTrie.tree == TxTree(txs[..i]) && txTrie.db.State().current.Values <= all
    {
      TxTreeGrows(txs, i);
      InvolvedSafe(txTrie.H, txTrie.db.State().current, TxTree(txs[..i + 1]), all);
      var key := TxKey(i);
      var _ := txTrie.Put(key, txs[i]);
    }
    TxTreeOnly(txs);
    assert txs[..|txs|] == txs;
  }

  /** `validateTransactionsTrie`: for a fresh or an already generated trie, it accepts exactly
      the root of the trie of the transactions. */
  method ValidateTransactionsTrie(txTrie: Trie, txs: seq<Bytes>, transactionsTrie: Bytes, ghost all: set<Bytes>)
    returns (valid: bool)
    requires Transactions(txs) && txTrie.Valid() && txTrie.tree in {Empty, TxTree(txs)} && txTrie.db.State().saved == []
    requires txTrie.db.State().current.Values <= all && Encode(NULL) in all
    requires CollisionFree(txTrie.H, all) && TxInRange(txTrie.H, txs, all)
    modifies txTrie, txTrie.db
    ensures valid <==> exists t :: Canonical(t) && WellFormed(t) && HoldsTransactions(t, txs)
                                   && transactionsTrie == RootHash(txTrie.H, t)
    ensures txTrie.Valid() && txTrie.tree in {old(txTrie.tree), TxTree(txs)}
  {
    hide CollisionFree;
    hide TxTree;
    hide Digest;
    hide RootStrings;
    hide RootHash;
    hide HoldsTransactions;
    TxTreeHolds(txs);
    TxTreeOnly(txs);
    EmptyTxRoot(txTrie.H);
    if |txs| == 0 {
      NoTransactions(txs);
      assert txs[..0] == txs;
      return transactionsTrie == Digest(txTrie.H, Encode(NULL));
    }
    if txTrie.tree != Empty { NotTheEmptyRoot(txTrie.H, TxTree(txs), MAX_KEY, all) by { assert txs[..|txs|] == txs; } }
    if txTrie.root == Digest(txTrie.H, Encode(NULL)) {
      GenTxTrie(txTrie, txs, all);
    }
    return txTrie.root == transactionsTrie;
  }
}
