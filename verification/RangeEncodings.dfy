/**
 * Ganache's encoder in two steps (ganache src/packages/rlp/index.ts): ranges of a list are
 * encoded one by one, and `digest` copies them into the encoding of the whole list.
 */
module RangeEncodings {
  import opened ByteStrings
  import opened Rlp

  datatype EncodedPart = EncodedPart(length: nat, output: seq<Bytes>)

  function Joined(parts: seq<Bytes>): Bytes {
    if parts == [] then [] else Joined(parts[..|parts| - 1]) + parts[|parts| - 1]
  }

  lemma JoinedPush(parts: seq<Bytes>, part: Bytes)
    ensures Joined(parts + [part]) == Joined(parts) + part
  {
    assert (parts + [part])[..|parts|] == parts;
  }

  function JoinedAll(ranges: seq<seq<Bytes>>): Bytes {
    if ranges == [] then [] else JoinedAll(ranges[..|ranges| - 1]) + Joined(ranges[|ranges| - 1])
  }

  lemma JoinedAllPush(ranges: seq<seq<Bytes>>, range: seq<Bytes>)
    ensures JoinedAll(ranges + [range]) == JoinedAll(ranges) + Joined(range)
  {
    assert (ranges + [range])[..|ranges|] == ranges;
  }

  lemma NothingEncoded(items: seq<Item>, start: nat)
    requires start <= |items|
    ensures EncodeAll(items[start..start]) == [] && Joined([]) == []
  {}

  lemma OneMoreEncoded(items: seq<Item>, start: nat, i: nat)
    requires start <= i < |items|
    ensures EncodeAll(items[start..i + 1]) == EncodeAll(items[start..i]) + Encode(items[i])
  {
    hide Encode;
    assert items[start..i + 1] == items[start..i] + [items[i]];
    EncodeAllAppend(items[start..i], [items[i]]);
    assert EncodeAll([items[i]]) == Encode(items[i]) + [];
  }

  /** The encodings of the items from `start` on, and their total length. */
  method EncodeRange(items: seq<Item>, start: nat, length: nat) returns (r: EncodedPart)
    requires start + length <= |items|
    ensures Joined(r.output) == EncodeAll(items[start..start + length]) && r.length == |Joined(r.output)|
    ensures |r.output| == length && forall i :: 0 <= i < length ==> r.output[i] == Encode(items[start + i])
  {
    hide Encode;
    hide EncodeAll;
    hide Joined;
    var count, end := 0, start + length;
    var output: seq<Bytes> := [];
    NothingEncoded(items, start);
    for i := start to end
      invariant |output| == i - start && forall j :: 0 <= j < |output| ==> output[j] == Encode(items[start + j])
      invariant Joined(output) == EncodeAll(items[start..i]) && count == |Joined(output)|
    {
      var encoded := EncodeLoop(items[i]);
      JoinedPush(output, encoded);
      OneMoreEncoded(items, start, i);
      count := count + |encoded|;
      output := output + [encoded];
    }
    return EncodedPart(count, output);
  }

  /** `Buffer.copy`: writes the entry at the offset. */
  method CopyTo(entry: Bytes, buf: array<Byte>, offset: nat)
    requires offset + |entry| <= buf.Length
    modifies buf
    ensures buf[..] == old(buf[..offset]) + entry + old(buf[offset + |entry|..])
  {
    for i := 0 to |entry|
      invariant forall j :: 0 <= j < i ==> buf[offset + j] == entry[j]
      invariant forall j :: 0 <= j < offset || offset + i <= j < buf.Length ==> buf[j] == old(buf[j])
    {
      buf[offset + i] := entry[i];
    }
  }

  /** The inner loop of `digest`: the parts of one range, one after the other. */
  method CopyRange(range: seq<Bytes>, buf: array<Byte>, offset: nat) returns (end: nat)
    requires offset + |Joined(range)| <= buf.Length
    modifies buf
    ensures end == offset + |Joined(range)| && buf[..end] == old(buf[..offset]) + Joined(range)
  {
    end := offset;
    assert range[..0] == [];
    for j := 0 to |range|
      invariant end == offset + |Joined(range[..j])| <= buf.Length
      invariant buf[..end] == old(buf[..offset]) + Joined(range[..j])
    {
      var entry := range[j];
      JoinedPush(range[..j], entry);
      assert range[..j + 1] == range[..j] + [entry];
      PartFits(range, j);
      ghost var before := buf[..end];
      CopyTo(entry, buf, end);
      assert buf[..end + |entry|] == before + entry;
      end := end + |entry|;
    }
    assert range[..|range|] == range;
  }

  /** The header for the given length, followed by all the parts in order. */
  method Digest(ranges: seq<seq<Bytes>>, length: nat) returns (buf: array<Byte>)
    requires length == |JoinedAll(ranges)|
    ensures buf[..] == EncodeLength(length, 192) + JoinedAll(ranges)
  {
    hide EncodeLength;
    hide Joined;
    var encodedLength := EncodeLength(length, 192);
    buf := new Byte[|encodedLength| + length];
    CopyTo(encodedLength, buf, 0);
    var offset := |encodedLength|;
    assert buf[..offset] == encodedLength + JoinedAll(ranges[..0]);
    for i := 0 to |ranges|
      invariant offset == |encodedLength| + |JoinedAll(ranges[..i])| <= buf.Length
      invariant buf[..offset] == encodedLength + JoinedAll(ranges[..i])
    {
      var range := ranges[i];
      JoinedAllPush(ranges[..i], range);
      assert ranges[..i + 1] == ranges[..i] + [range];
      RangeFits(ranges, i);
      offset := CopyRange(range, buf, offset);
    }
    assert ranges[..|ranges|] == ranges;
    assert buf[..offset] == buf[..];
  }

  lemma {:induction false} RangeFits(ranges: seq<seq<Bytes>>, i: nat)
    requires i < |ranges|
    ensures |JoinedAll(ranges[..i])| + |Joined(ranges[i])| <= |JoinedAll(ranges)|
    decreases |ranges|
  {
    if i == |ranges| - 1 {
    } else {
      var front := ranges[..|ranges| - 1];
      RangeFits(front, i);
      assert front[..i] == ranges[..i];
    }
  }

  lemma {:induction false} PartFits(range: seq<Bytes>, j: nat)
    requires j < |range|
    ensures |Joined(range[..j])| + |range[j]| <= |Joined(range)|
    decreases |range|
  {
    if j == |range| - 1 {
    } else {
      var front := range[..|range| - 1];
      PartFits(front, j);
      assert front[..j] == range[..j];
    }
  }

  /** A list cut into consecutive ranges. */
  function Concat(parts: seq<seq<Item>>): seq<Item> {
    if parts == [] then [] else Concat(parts[..|parts| - 1]) + parts[|parts| - 1]
  }

  /** However a list is cut into consecutive ranges, the digest of the encoded ranges is the
      encoding of the list. */
  lemma {:induction false} RangesMakeTheWhole(parts: seq<seq<Item>>, ranges: seq<seq<Bytes>>)
    requires |ranges| == |parts| && forall i :: 0 <= i < |parts| ==> Joined(ranges[i]) == EncodeAll(parts[i])
    ensures JoinedAll(ranges) == EncodeAll(Concat(parts))
    ensures EncodeLength(|JoinedAll(ranges)|, 192) + JoinedAll(ranges) == Encode(List(Concat(parts)))
    decreases |parts|
  {
    if parts != [] {
      var n := |parts| - 1;
      RangesMakeTheWhole(parts[..n], ranges[..n]);
      EncodeAllAppend(Concat(parts[..n]), parts[n]);
    }
  }
}
