/** The trie that a list of key-value pairs is put into, one pair after the other. */
module TrieLists {
  import opened ByteStrings
  import opened NibblePaths
  import opened Rlp
  import opened Trees
  import opened CanonicalTrees
  import opened TrieNodes
  import opened TriePaths
  import opened TrieStores
  import opened Tries
  import opened TrieRuns

  /** The trie built by putting the pairs one after the other. */
  ghost function Built(keys: seq<Bytes>, values: seq<Bytes>): (t: Tree)
    requires |keys| == |values| && forall i :: 0 <= i < |values| ==> values[i] != []
    ensures Canonical(t) && WellFormed(t)
    decreases |keys|
  {
    if keys == [] then Empty
    else
      var n := |keys| - 1;
      var t := Built(keys[..n], values[..n]);
      InsertCanonical(t, BufferToNibbles(keys[n]), values[n]);
      CanonicalWellFormed(Insert(t, BufferToNibbles(keys[n]), values[n]));
      Insert(t, BufferToNibbles(keys[n]), values[n])
  }

  ghost function MapOf(keys: seq<Bytes>, values: seq<Bytes>): map<Nibbles, Bytes>
    requires |keys| == |values|
    decreases |keys|
  {
    if keys == [] then map[]
    else MapOf(keys[..|keys| - 1], values[..|keys| - 1])[BufferToNibbles(keys[|keys| - 1]) := values[|keys| - 1]]
  }

  ghost predicate Pairs(keys: seq<Bytes>, values: seq<Bytes>) {
    && |keys| == |values|
    && forall i :: 0 <= i < |values| ==> Storable(values[i]) && 2 * |keys[i]| <= MAX_KEY
  }

  lemma {:induction false} BuiltHolds(keys: seq<Bytes>, values: seq<Bytes>)
    requires Pairs(keys, values)
    ensures Shape(Built(keys, values), MAX_KEY) && Holds(Built(keys, values), MapOf(keys, values))
    decreases |keys|
  {
    if keys != [] {
      var n := |keys| - 1;
      BuiltHolds(keys[..n], values[..n]);
      var t, k := Built(keys[..n], values[..n]), BufferToNibbles(keys[n]);
      InsertShape(t, k, values[n], MAX_KEY);
      forall q: Nibbles ensures Lookup(Insert(t, k, values[n]), q) == if q == k then Some(values[n]) else Lookup(t, q) {
        InsertLookup(t, k, values[n], q);
      }
    }
  }

  /** The map of a list binds exactly its keys. */
  lemma {:induction false} MapOfKeys(keys: seq<Bytes>, values: seq<Bytes>, k: Nibbles)
    requires |keys| == |values|
    ensures k in MapOf(keys, values) <==> exists i :: 0 <= i < |keys| && BufferToNibbles(keys[i]) == k
    decreases |keys|
  {
    hide BufferToNibbles;
    if keys != [] {
      var n := |keys| - 1;
      MapOfKeys(keys[..n], values[..n], k);
      if i :| 0 <= i < |keys| && BufferToNibbles(keys[i]) == k {
        if i < n { assert BufferToNibbles(keys[..n][i]) == k; }
      }
    }
  }

  /** No two positions of the list hold the same key. */
  ghost predicate Distinct(keys: seq<Bytes>) {
    forall i, j :: 0 <= i < j < |keys| ==> BufferToNibbles(keys[i]) != BufferToNibbles(keys[j])
  }

  /** The map of distinct keys binds each key to its own value. */
  lemma {:induction false} MapOfDistinct(keys: seq<Bytes>, values: seq<Bytes>, i: nat)
    requires |keys| == |values| && Distinct(keys) && i < |keys|
    ensures BufferToNibbles(keys[i]) in MapOf(keys, values)
    ensures MapOf(keys, values)[BufferToNibbles(keys[i])] == values[i]
    decreases |keys|
  {
    hide BufferToNibbles;
    var n := |keys| - 1;
    if i < n {
      var k := keys[..n];
      forall a, b | 0 <= a < b < n ensures BufferToNibbles(k[a]) != BufferToNibbles(k[b]) {
        assert k[a] == keys[a] && k[b] == keys[b];
      }
      MapOfDistinct(k, values[..n], i);
    }
  }

  /** The next pair put into the trie. */
  lemma BuiltGrows(keys: seq<Bytes>, values: seq<Bytes>, i: nat)
    requires Pairs(keys, values) && i < |keys|
    ensures Pairs(keys[..i], values[..i]) && Pairs(keys[..i + 1], values[..i + 1])
    ensures Built(keys[..i + 1], values[..i + 1]) ==
            PutTree(Built(keys[..i], values[..i]), BufferToNibbles(keys[i]), values[i])
  {
    hide BufferToNibbles;
    var k, v := keys[..i + 1], values[..i + 1];
    assert k[..i] == keys[..i] && v[..i] == values[..i];
  }

  lemma BuiltNone(keys: seq<Bytes>, values: seq<Bytes>)
    requires Pairs(keys, values)
    ensures Pairs(keys[..0], values[..0]) && Built(keys[..0], values[..0]) == Empty
    ensures keys[..|keys|] == keys && values[..|values|] == values
  {}

  /** The trie stores these pairs and no others. */
  ghost predicate Lists(t: Tree, keys: seq<Bytes>, values: seq<Bytes>)
    requires WellFormed(t) && |keys| == |values|
  {
    && (forall i :: 0 <= i < |keys| ==> Lookup(t, BufferToNibbles(keys[i])) == Some(values[i]))
    && (forall q: Nibbles :: Lookup(t, q).Some? ==> exists i :: 0 <= i < |keys| && BufferToNibbles(keys[i]) == q)
  }

  lemma HoldsPairs(t: Tree, keys: seq<Bytes>, values: seq<Bytes>)
    requires WellFormed(t) && |keys| == |values| && Distinct(keys)
    ensures Holds(t, MapOf(keys, values)) <==> Lists(t, keys, values)
  {
    hide BufferToNibbles;
    hide Lookup;
    hide MapOf;
    var m := MapOf(keys, values);
    forall i | 0 <= i < |keys| ensures BufferToNibbles(keys[i]) in m && m[BufferToNibbles(keys[i])] == values[i] {
      MapOfDistinct(keys, values, i);
    }
    forall q: Nibbles ensures q in m <==> exists i :: 0 <= i < |keys| && BufferToNibbles(keys[i]) == q {
      MapOfKeys(keys, values, q);
    }
    if Lists(t, keys, values) {
      forall q: Nibbles ensures Lookup(t, q) == if q in m then Some(m[q]) else None {
        if q in m {
          var i :| 0 <= i < |keys| && BufferToNibbles(keys[i]) == q;
        }
      }
    }
  }

  ghost predicate BuildInRange(H: HashFn, keys: seq<Bytes>, values: seq<Bytes>, all: set<Bytes>)
    requires Pairs(keys, values)
  {
    forall n :: 0 <= n <= |keys| ==> RootStrings(H, Built(keys[..n], values[..n])) <= all
  }

  /** Equal roots, equal maps. */
  lemma ListRootCommits(H: HashFn, k: seq<Bytes>, v: seq<Bytes>, t: Tree)
    requires Canonical(t) && WellFormed(t) && Shape(t, MAX_KEY) && Pairs(k, v)
    requires CollisionFree(H, RootStrings(H, Built(k, v)) + RootStrings(H, t) + {Encode(NULL)})
    ensures RootHash(H, Built(k, v)) == RootHash(H, t) <==> Holds(t, MapOf(k, v))
  {
    hide RootStrings;
    hide CollisionFree;
    hide RootHash;
    BuiltHolds(k, v);
    RootCommits(H, Built(k, v), t, MAX_KEY, MAX_KEY);
    if Holds(t, MapOf(k, v)) {
      CanonicalUnique(Built(k, v), t);
    }
  }
}
