/** Membership proofs (baseTrie.ts `createProof`, `fromProof`, `verifyProof`). */
module TrieProofs {
  import opened ByteStrings
  import opened NibblePaths
  import opened Rlp
  import opened Trees
  import opened TrieNodes
  import opened TriePaths
  import opened TrieUpdates
  import opened TrieStores
  import opened Tries
  import opened CheckpointDbs

  type Proof = seq<Bytes>

  /** The proof `createProof` builds: every node on the path, serialized. */
  function ProofOf(H: HashFn, t: Tree, k: Nibbles): Proof
    requires WellFormed(t)
  {
    if t == Empty then []
    else
      PathNonEmpty(t, k);
      SerializeAll(Nodes(H, Path(t, k)))
  }

  function SerializeAll(stack: seq<Node>): (r: Proof)
    ensures |r| == |stack| && forall i :: 0 <= i < |stack| ==> r[i] == Serialize(stack[i])
  {
    seq(|stack|, i requires 0 <= i < |stack| => Serialize(stack[i]))
  }

  ghost function Strings(proof: Proof): set<Bytes> {
    set s | s in proof
  }

  /** What the strings of a proof must not collide with. */
  ghost function ProofInvolved(H: HashFn, t: Tree, proof: Proof): set<Bytes> {
    Strings(proof) + RootStrings(H, t) + {Encode(NULL)}
  }

  method CreateProof(trie: Trie, key: Bytes) returns (p: Proof)
    requires trie.Valid() && WellFormed(trie.tree)
    modifies trie.db
    ensures trie.Valid() && trie.db.State() == old(trie.db.State())
    ensures p == ProofOf(trie.H, trie.tree, BufferToNibbles(key))
  {
    CompleteIsHonest(trie.H, trie.db.State().current, trie.tree, trie.root);
    var found := trie.FindPath(key, false, trie.tree);
    p := SerializeAll(found.value.stack);
  }

  /** The proof strings, filed under their hashes, are honest about any tree they do not collide with. */
  lemma ProofStore(H: HashFn, proof: Proof, ops: seq<BatchOp>, all: set<Bytes>)
    requires |ops| == |proof| && forall i :: 0 <= i < |ops| ==> ops[i] == Put(Digest(H, proof[i]), proof[i])
    requires CollisionFree(H, all) && Strings(proof) <= all
    ensures var view := Snapshots(map[], []).Batch(ops).current;
      && HashKeyed(H, view) && view.Values <= Strings(proof) && Complete(H, view, Strings(proof))
  {
    hide Digest;
    ProofValues(H, proof, ops);
    BatchStores(H, Snapshots(map[], []), ops, all);
  }

  lemma {:induction false} ProofValues(H: HashFn, proof: Proof, ops: seq<BatchOp>)
    requires |ops| == |proof| && forall i :: 0 <= i < |ops| ==> ops[i] == Put(Digest(H, proof[i]), proof[i])
    ensures Filed(H, ops) && Values(ops) == Strings(proof)
    decreases |proof|
  {
    hide Digest;
    if proof != [] {
      var n := |proof| - 1;
      ProofValues(H, proof[..n], ops[..n]);
      assert proof == proof[..n] + [proof[n]];
    }
  }

  lemma StoreIsHonest(H: HashFn, view: Store, all: set<Bytes>, strings: set<Bytes>)
    requires HashKeyed(H, view) && view.Values <= all && strings <= all && CollisionFree(H, all)
    ensures Honest(H, view, strings)
  {
    hide Digest;
    forall s | s in strings && Digest(H, s) in view ensures view[Digest(H, s)] == s {
      assert view[Digest(H, s)] in view.Values;
      assert NoCollision(H, view[Digest(H, s)], s);
    }
  }

  /** `fromProof` into a new trie with the given root. */
  method FromProof(H: HashFn, rootHash: Bytes, proof: Proof) returns (trie: Trie, ghost ops: seq<BatchOp>)
    ensures fresh(trie) && fresh(trie.db) && trie.H == H && trie.root == rootHash
    ensures |ops| == |proof| && forall i :: 0 <= i < |ops| ==> ops[i] == Put(Digest(H, proof[i]), proof[i])
    ensures trie.db.State() == Snapshots(map[], []).Batch(ops)
  {
    trie := new Trie.WithRoot(H, rootHash);
    var opStack := seq(|proof|, i requires 0 <= i < |proof| => Put(Digest(H, proof[i]), proof[i]));
    trie.db.Batch(opStack);
    ops := opStack;
  }

  /** What a store built from a proof lets one rely on, for any tree with the proof's root. */
  ghost predicate Trusted(H: HashFn, view: Store, t: Tree, k: Nibbles, root: Bytes, proof: Proof)
    requires WellFormed(t)
  {
    && Honest(H, view, Needed(H, t, k))
    && (t == Empty && root in view ==> view[root] == Encode(NULL))
    && (Needed(H, t, k) <= Strings(proof) ==> Complete(H, view, Needed(H, t, k)))
  }

  lemma ProofTrusted(H: HashFn, t: Tree, k: Nibbles, proof: Proof, ops: seq<BatchOp>)
    requires WellFormed(t) && CollisionFree(H, ProofInvolved(H, t, proof))
    requires |ops| == |proof| && forall i :: 0 <= i < |ops| ==> ops[i] == Put(Digest(H, proof[i]), proof[i])
    ensures Trusted(H, Snapshots(map[], []).Batch(ops).current, t, k, RootHash(H, t), proof)
  {
    hide Digest;
    hide RootStrings;
    hide Needed;
    hide NodeOf;
    var all := ProofInvolved(H, t, proof);
    ProofStore(H, proof, ops, all);
    NeededInRoot(H, t, k);
    var view := Snapshots(map[], []).Batch(ops).current;
    StoreIsHonest(H, view, all, Needed(H, t, k));
    StoreIsHonest(H, view, all, {Encode(NULL)});
  }

  /** `verifyProof`. Whatever nodes the proof holds, a verdict agrees with every trie that has
      this root, absence included; and a proof that holds the nodes on the path gets a verdict. */
  method VerifyProof(H: HashFn, rootHash: Bytes, key: Bytes, proof: Proof, ghost t: Tree)
    returns (r: Result<Option<Item>, TrieError>)
    requires WellFormed(t) && Shape(t, MAX_KEY) && rootHash == RootHash(H, t)
    requires CollisionFree(H, ProofInvolved(H, t, proof))
    ensures r.Ok? ==> r.value == AsItem(Lookup(t, BufferToNibbles(key)))
    ensures t != Empty && Needed(H, t, BufferToNibbles(key)) <= Strings(proof) ==> r.Ok?
  {
    var proofTrie, ops := FromProof(H, rootHash, proof);
    ProofTrusted(H, t, BufferToNibbles(key), proof, ops);
    r := proofTrie.Get(key, true, t);
  }

  lemma ProofHasNeeded(H: HashFn, t: Tree, k: Nibbles)
    requires WellFormed(t)
    ensures Needed(H, t, k) <= Strings(ProofOf(H, t, k))
  {
    hide NodeOf;
    if t != Empty {
      PathNonEmpty(t, k);
      var path, proof := Path(t, k), ProofOf(H, t, k);
      forall s | s in Needed(H, t, k) ensures s in proof {
        var i := 0;
        if s in OwnAll(H, path) {
          OwnAllIs(H, path, s);
          i :| 0 <= i < |path| && s in Own(H, path[i]);
        }
        NodesIndex(H, path, i);
        assert proof[i] == s;
      }
    }
  }

  /** A proof made from a non-empty trie verifies, against its root, to what `get` returns. */
  method ProveAndVerify(trie: Trie, key: Bytes) returns (r: Result<Option<Item>, TrieError>)
    requires trie.Valid() && WellFormed(trie.tree) && trie.tree != Empty
    requires CollisionFree(trie.H, ProofInvolved(trie.H, trie.tree, ProofOf(trie.H, trie.tree, BufferToNibbles(key))))
    modifies trie.db
    ensures r == Ok(AsItem(Lookup(trie.tree, BufferToNibbles(key))))
  {
    var proof := CreateProof(trie, key);
    ProofHasNeeded(trie.H, trie.tree, BufferToNibbles(key));
    r := VerifyProof(trie.H, trie.root, key, proof, trie.tree);
  }
}
