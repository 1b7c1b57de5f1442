/** Nibble paths and the hex-prefix code, after packages/trie/src/util/nibbles.ts and hex.ts. */
module NibblePaths {
  import opened ByteStrings

  type Nibble = x: int | 0 <= x < 16
  type Nibbles = seq<Nibble>

  function BufferToNibbles(key: Bytes): (r: Nibbles)
    ensures |r| == 2 * |key|
  {
    seq(2 * |key|, i requires 0 <= i < 2 * |key| =>
      if i % 2 == 0 then key[i / 2] / 16 else key[i / 2] % 16)
  }

  /** A trailing odd nibble is dropped: the source allocates `arr.length / 2` bytes. */
  function NibblesToBuffer(arr: Nibbles): (r: Bytes)
    ensures |r| == |arr| / 2
  {
    seq(|arr| / 2, i requires 0 <= i < |arr| / 2 => (arr[2 * i] as int) * 16 + arr[2 * i + 1])
  }

  lemma BufferRoundTrip(key: Bytes)
    ensures NibblesToBuffer(BufferToNibbles(key)) == key
  {
    var n := BufferToNibbles(key);
    forall i | 0 <= i < |key|
      ensures NibblesToBuffer(n)[i] == key[i]
    {
      assert n[2 * i] == key[i] / 16 && n[2 * i + 1] == key[i] % 16;
    }
  }

  lemma NibbleRoundTrip(arr: Nibbles)
    requires |arr| % 2 == 0
    ensures BufferToNibbles(NibblesToBuffer(arr)) == arr
  {
    var b := NibblesToBuffer(arr);
    forall i | 0 <= i < |arr|
      ensures BufferToNibbles(b)[i] == arr[i]
    {
      assert b[i / 2] == (arr[2 * (i / 2)] as int) * 16 + arr[2 * (i / 2) + 1];
    }
  }

  /** Paths are prefixes of one another exactly when the keys are. */
  lemma NibblePrefix(a: Bytes, b: Bytes)
    ensures BufferToNibbles(a) <= BufferToNibbles(b) <==> a <= b
  {
    var m, n := BufferToNibbles(a), BufferToNibbles(b);
    if m <= n {
      forall i | 0 <= i < |a|
        ensures a[i] == b[i]
      {
        assert m[2 * i] == n[2 * i] && m[2 * i + 1] == n[2 * i + 1];
      }
    }
    if a <= b {
      forall i | 0 <= i < |m|
        ensures m[i] == n[i]
      {
        assert a[i / 2] == b[i / 2];
      }
    }
  }

  /** The source's `matchingNibbleLength`. */
  function MatchingLength(a: Nibbles, b: Nibbles): (n: nat)
    ensures n <= |a| && n <= |b| && a[..n] == b[..n]
    ensures n < |a| && n < |b| ==> a[n] != b[n]
  {
    if a == [] || b == [] || a[0] != b[0] then 0
    else
      var n := 1 + MatchingLength(a[1..], b[1..]);
      assert a[..n] == [a[0]] + a[1..][..n - 1];
      assert b[..n] == [b[0]] + b[1..][..n - 1];
      n
  }

  /** The source's `nibblesCompare`, as the order it stands for. */
  function Compare(a: Nibbles, b: Nibbles): int {
    if a == [] then (if b == [] then 0 else -1)
    else if b == [] then 1
    else if a[0] < b[0] then -1
    else if a[0] > b[0] then 1
    else Compare(a[1..], b[1..])
  }

  lemma {:induction false} CompareZero(a: Nibbles, b: Nibbles)
    ensures Compare(a, b) == 0 <==> a == b
    ensures Compare(a, b) == -Compare(b, a)
  {
    if a != [] && b != [] {
      CompareZero(a[1..], b[1..]);
      assert a == [a[0]] + a[1..] && b == [b[0]] + b[1..];
    }
  }

  lemma {:induction false} CompareTransitive(a: Nibbles, b: Nibbles, c: Nibbles)
    requires Compare(a, b) < 0 && Compare(b, c) < 0
    ensures Compare(a, c) < 0
  {
    if a != [] && b != [] && c != [] && a[0] == b[0] == c[0] {
      CompareTransitive(a[1..], b[1..], c[1..]);
    }
  }

  lemma {:induction false} CompareAppend(p: Nibbles, a: Nibbles, b: Nibbles)
    ensures Compare(p + a, p + b) == Compare(a, b)
  {
    if p == [] {
      assert p + a == a && p + b == b;
    } else {
      CompareAppend(p[1..], a, b);
      assert (p + a)[1..] == p[1..] + a && (p + b)[1..] == p[1..] + b;
    }
  }

  // ---------- hex prefix ----------

  function AddHexPrefix(key: Nibbles, terminator: bool): (r: Nibbles)
    ensures |r| % 2 == 0 && |key| < |r| <= |key| + 2
  {
    var flag := if terminator then 2 else 0;
    if |key| % 2 == 1 then [1 + flag] + key else [flag, 0] + key
  }

  function RemoveHexPrefix(val: Nibbles): Nibbles {
    if val != [] && val[0] % 2 == 1 then val[1..]
    else if |val| >= 2 then val[2..]
    else []
  }

  predicate IsTerminator(key: Nibbles) {
    key != [] && key[0] > 1
  }

  function HexPrefixed(key: Nibbles, terminator: bool): Bytes {
    NibblesToBuffer(AddHexPrefix(key, terminator))
  }

  /** Reading a stored path back recovers the path and the leaf flag. */
  lemma HexPrefixRoundTrip(key: Nibbles, terminator: bool)
    ensures var n := BufferToNibbles(HexPrefixed(key, terminator));
      IsTerminator(n) == terminator && RemoveHexPrefix(n) == key
  {
    NibbleRoundTrip(AddHexPrefix(key, terminator));
  }

  /** The compact form of a path (appendix C of the Ethereum Yellow Paper): a first byte with the flag of
      a leaf, the parity of the length and, if that is odd, the first nibble; then two nibbles a byte. */
  ghost predicate Compact(bytes: Bytes, key: Nibbles, leaf: bool) {
    var odd := |key| % 2;
    && |bytes| == |key| / 2 + 1
    && bytes[0] == 32 * (if leaf then 1 else 0) + 16 * odd + (if odd == 1 then key[0] else 0)
    && forall i :: 1 <= i < |bytes| ==> bytes[i] == (key[2 * i - 2 + odd] as int) * 16 + key[2 * i - 1 + odd]
  }

  /** The stored path is the compact form, and no other string is. */
  lemma HexPrefixForm(key: Nibbles, leaf: bool, bytes: Bytes)
    ensures Compact(bytes, key, leaf) <==> bytes == HexPrefixed(key, leaf)
  {
    var odd, r, p := |key| % 2, AddHexPrefix(key, leaf), HexPrefixed(key, leaf);
    assert |r| == |key| + 2 - odd && forall j :: 2 - odd <= j < |r| ==> r[j] == key[j - 2 + odd];
    hide AddHexPrefix;
    forall i | 1 <= i < |p| ensures p[i] == (key[2 * i - 2 + odd] as int) * 16 + key[2 * i - 1 + odd] {
      assert p[i] == (r[2 * i] as int) * 16 + r[2 * i + 1];
    }
    hide NibblesToBuffer;
    assert Compact(p, key, leaf);
    assert Compact(bytes, key, leaf) ==> bytes == p;
  }

  /** The comparison is negative exactly when the first path ends inside the second, or has the smaller
      nibble where they first differ. */
  lemma {:induction false} CompareIsOrder(a: Nibbles, b: Nibbles)
    ensures Compare(a, b) < 0 <==>
            exists n :: 0 <= n <= |a| && n < |b| && a[..n] == b[..n] && (n < |a| ==> a[n] < b[n])
  {
    if a == [] {
      if b != [] { assert a[..0] == b[..0]; }
    } else if b != [] {
      CompareIsOrder(a[1..], b[1..]);
      if a[0] < b[0] { assert a[..0] == b[..0]; }
      if a[0] == b[0] {
        if Compare(a[1..], b[1..]) < 0 {
          var n :| 0 <= n <= |a| - 1 && n < |b| - 1 && a[1..][..n] == b[1..][..n]
                   && (n < |a| - 1 ==> a[1..][n] < b[1..][n]);
          assert a[..n + 1] == [a[0]] + a[1..][..n] && b[..n + 1] == [b[0]] + b[1..][..n];
        }
        if n: nat :| n <= |a| && n < |b| && a[..n] == b[..n] && (n < |a| ==> a[n] < b[n]) {
          assert n > 0 && a[1..][..n - 1] == a[..n][1..] && b[1..][..n - 1] == b[..n][1..];
        }
      }
    }
  }
}
