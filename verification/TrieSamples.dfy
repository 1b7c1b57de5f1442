/** Concrete tries, down to the string whose hash is the root, and concrete RLP encodings. */
module TrieSamples {
  import opened ByteStrings
  import opened NibblePaths
  import opened Rlp
  import opened Trees
  import opened TrieNodes
  import opened TrieStores
  import opened Tries

  lemma EncodedPair(a: Item, b: Item)
    ensures EncodeAll([a, b]) == Encode(a) + Encode(b)
  {
    hide Encode;
    assert [a, b][1..] == [b] && [b][1..] == [];
    assert EncodeAll([b]) == Encode(b) + [];
  }

  /** The value 0x61 under the key 0x12. */
  ghost function OneStored(): Tree {
    Insert(Empty, BufferToNibbles([0x12]), [0x61])
  }

  const ONE_LEAF: Bytes := [0xc4, 0x82, 0x20, 0x12, 0x61]

  lemma OneLeaf(H: HashFn)
    ensures OneStored().Leaf? && Serialize(NodeOf(H, OneStored())) == ONE_LEAF
    ensures RootHash(H, OneStored()) == Digest(H, ONE_LEAF)
  {
    var path: Bytes := [0x20, 0x12];
    var nibbles: Nibbles := [1, 2];
    assert 0x12 / 16 == 1 && 0x12 % 16 == 2;
    assert BufferToNibbles([0x12]) == nibbles;
    assert OneStored() == Leaf(nibbles, [0x61]);
    assert Compact(path, nibbles, true);
    PairForm(H, OneStored(), path);
    assert Encode(Str(path)) == [0x82, 0x20, 0x12] && Encode(Str([0x61])) == [0x61];
    EncodedPair(Str(path), Str([0x61]));
    assert Encode(List([Str(path), Str([0x61])])) == ONE_LEAF;
  }

  /** Also the value 0x62 under the key 0x13: an extension above a branch, with embedded nodes. */
  ghost function TwoStored(): Tree {
    Insert(OneStored(), BufferToNibbles([0x13]), [0x62])
  }

  const TWO_LEAVES: Bytes :=
    [0xd7, 0x11, 0xd5, 0x80, 0x80, 0xc2, 0x20, 0x61, 0xc2, 0x20, 0x62,
     0x80, 0x80, 0x80, 0x80, 0x80, 0x80, 0x80, 0x80, 0x80, 0x80, 0x80, 0x80, 0x80]

  lemma {:induction false} EncodedNulls(n: nat)
    ensures EncodeAll(seq(n, i => NULL)) == seq(n, i => 0x80)
  {
    if n > 0 {
      EncodedNulls(n - 1);
      assert seq(n, i => NULL)[1..] == seq(n - 1, i => NULL);
      assert Encode(NULL) == [0x80];
      assert seq(n, i => 0x80 as Byte) == [0x80] + seq(n - 1, i => 0x80 as Byte);
    }
  }

  lemma SmallLeaf(H: HashFn, t: Tree, v: Byte)
    requires t == Leaf([], [v]) && v < 0x80
    ensures Encode(Ref(H, t)) == [0xc2, 0x20, v]
  {
    var path: Bytes := [0x20];
    PairForm(H, t, path);
    assert Encode(Str(path)) == [0x20] && Encode(Str([v])) == [v];
    EncodedPair(Str(path), Str([v]));
    assert Encode(List([Str(path), Str([v])])) == [0xc2, 0x20, v];
    RefForm(H, t);
  }

  lemma TwoShape()
    ensures TwoStored() == Ext([1], Branch(NoChildren()[2 := Leaf([], [0x61])][3 := Leaf([], [0x62])], None))
  {
    var one, two: Nibbles := [1, 2], [1, 3];
    assert 0x12 / 16 == 1 && 0x12 % 16 == 2 && 0x13 / 16 == 1 && 0x13 % 16 == 3;
    assert BufferToNibbles([0x12]) == one && BufferToNibbles([0x13]) == two;
    var t := Leaf(one, [0x61]);
    assert OneStored() == t;
    var m := MatchingLength(one, two);
    assert m == 1 by { assert one[..2] == one && two[..2] == two; }
    assert one[..1] == [1] && one[2..] == [] && two[2..] == [];
    assert Fork(t, two, [0x62]) == Ext(one[..1], ForkBranch(t, 1, two, [0x62]));
  }

  /** The encoding of a branch with two links. */
  lemma BranchItems(low: Item, high: Item)
    requires |Encode(low)| == 3 && |Encode(high)| == 3
    ensures var items := seq(2, i => NULL) + [low, high] + seq(13, i => NULL);
      Encode(List(items)) == [0xd5] + seq(2, i => 0x80) + Encode(low) + Encode(high) + seq(13, i => 0x80)
  {
    var front, tail := seq(2, i => NULL), seq(13, i => NULL);
    var items := front + [low, high] + tail;
    EncodedNulls(2);
    EncodedNulls(13);
    EncodeAllAppend(front + [low, high], tail);
    EncodeAllAppend(front, [low, high]);
    EncodedPair(low, high);
    assert |EncodeAll(items)| == 21;
  }

  lemma TwoLeaves(H: HashFn)
    ensures Serialize(NodeOf(H, TwoStored())) == TWO_LEAVES && RootHash(H, TwoStored()) == Digest(H, TWO_LEAVES)
  {
    TwoShape();
    var t := TwoStored();
    hide TwoStored;
    hide NodeOf;
    hide Insert;
    hide Ref;
    TwoBranch(H, t.child);
    RefForm(H, t.child);
    var path: Bytes := [0x11];
    assert Compact(path, t.key, false);
    PairForm(H, t, path);
    ShortPair(Ref(H, t.child), TWO_LEAVES[2..]);
    hide Encode;
    RootForm(H, t);
    assert [0xd7, 0x11] + TWO_LEAVES[2..] == TWO_LEAVES;
  }

  lemma ShortPair(link: Item, bytes: Bytes)
    requires Encode(link) == bytes && |bytes| == 22
    ensures Encode(List([Str([0x11]), link])) == [0xd7, 0x11] + bytes
  {
    assert Encode(Str([0x11])) == [0x11];
    EncodedPair(Str([0x11]), link);
  }

  lemma BranchBytes()
    ensures [0xd5] + seq(2, i => 0x80) + [0xc2, 0x20, 0x61] + [0xc2, 0x20, 0x62] + seq(13, i => 0x80)
            == TWO_LEAVES[2..]
  {}

  lemma TwoBranch(H: HashFn, b: Tree)
    requires b == Branch(NoChildren()[2 := Leaf([], [0x61])][3 := Leaf([], [0x62])], None)
    ensures Serialize(NodeOf(H, b)) == TWO_LEAVES[2..]
  {
    hide Encode;
    hide Ref;
    hide NodeOf;
    var low, high := Ref(H, b.children[2]), Ref(H, b.children[3]);
    SmallLeaf(H, b.children[2], 0x61);
    SmallLeaf(H, b.children[3], 0x62);
    BranchItems(low, high);
    BranchBytes();
    EmptyLinks(H, b);
    BranchForm(H, b, seq(2, i => NULL) + [low, high] + seq(13, i => NULL));
  }

  lemma EmptyLinks(H: HashFn, b: Tree)
    requires b.Branch? && |b.children| == 16 && forall i :: 0 <= i < 16 && i != 2 && i != 3 ==> b.children[i] == Empty
    ensures forall i :: 0 <= i < 16 && i != 2 && i != 3 ==> Ref(H, b.children[i]) == NULL
  {}

  /** What the store holds for the two tries: no node below the root is long enough to be filed. */
  lemma OneStrings(H: HashFn)
    ensures RootStrings(H, OneStored()) == {ONE_LEAF}
  {
    OneLeaf(H);
    hide NodeOf;
    hide OneStored;
    assert Own(H, OneStored()) == {};
  }

  lemma TwoStrings(H: HashFn)
    ensures RootStrings(H, TwoStored()) == {TWO_LEAVES}
  {
    TwoLeaves(H);
    TwoShape();
    var b := TwoStored().child;
    hide NodeOf;
    hide TwoStored;
    TwoBranch(H, b);
    ShortLeaf(H, b.children[2], 0x61);
    ShortLeaf(H, b.children[3], 0x62);
    forall i | 0 <= i < 16 ensures NodeStrings(H, b.children[i]) == {} {}
  }

  lemma ShortLeaf(H: HashFn, t: Tree, v: Byte)
    requires t == Leaf([], [v]) && v < 0x80
    ensures NodeStrings(H, t) == {}
  {
    SmallLeaf(H, t, v);
  }

  lemma SampleSafe(H: HashFn, view: Store, t: Tree, strings: set<Bytes>)
    requires CollisionFree(H, strings) && view.Values <= strings && RootStrings(H, t) <= strings && [0x80] in strings
    ensures CollisionFree(H, Involved(H, view, t))
  {
    hide RootStrings;
    assert Encode(NULL) == [0x80];
    forall a, b | a in Involved(H, view, t) && b in Involved(H, view, t) ensures NoCollision(H, a, b) {}
  }

  /** From a new trie: two puts, and the root. */
  method PutTwo(H: HashFn) returns (trie: Trie)
    requires CollisionFree(H, {ONE_LEAF, TWO_LEAVES, [0x80]})
    ensures fresh(trie) && trie.Valid() && trie.root == Digest(H, TWO_LEAVES)
  {
    hide NodeOf;
    hide RootStrings;
    hide CollisionFree;
    hide Involved;
    hide BufferToNibbles;
    hide Insert;
    hide Digest;
    hide Shape;
    hide Sound;
    OneStrings(H);
    TwoStrings(H);
    TwoLeaves(H);
    trie := new Trie(H);
    SampleSafe(H, trie.db.State().current, OneStored(), {ONE_LEAF, TWO_LEAVES, [0x80]});
    var _ := trie.Put([0x12], [0x61]);
    SampleSafe(H, trie.db.State().current, TwoStored(), {ONE_LEAF, TWO_LEAVES, [0x80]});
    OneWellFormed();
    var _ := trie.Put([0x13], [0x62]);
    SoundRoot(H, trie.db.State().current, trie.root, trie.tree);
  }

  lemma OneWellFormed()
    ensures WellFormed(OneStored())
  {}

  lemma SoundRoot(H: HashFn, view: Store, root: Bytes, t: Tree)
    requires Sound(H, view, root, t)
    ensures root == RootHash(H, t)
  {}
}
