/**
 * Recursive Length Prefix, after packages/rlp/src/index.ts: a recursive printer
 * and a strict parser, which turn out to be exact inverses.
 */
module Rlp {
  import opened ByteStrings

  /** A byte string or a list of items (the source's `Uint8Array | NestedUint8Array`). */
  datatype Item = Str(bytes: Bytes) | List(items: seq<Item>)

  datatype RlpError =
    | InvalidByteSequence
    | SliceOutOfBounds
    | ExtraZeros
    | InvalidPrefix
    | NotEnoughBytes
    | StringTooShort
    | ListTooShort
    | TotalLengthTooLarge
    | RemainderNotZero

  datatype Decoded = Decoded(data: Item, remainder: Bytes)

  /** A prefix announces its length field in at most eight bytes. */
  const LENGTH_BOUND := 0x1_0000_0000_0000_0000

  lemma LengthBytes(n: nat)
    ensures |ToBigEndian(n)| <= 8 <==> n < LENGTH_BOUND
  {
    BigEndianLength(n, 8);
    assert Pow256(4) == 0x1_0000_0000;
    assert Pow256(8) == 256 * 256 * 256 * 256 * Pow256(4);
  }

  // ---------- printing ----------

  function EncodeLength(len: nat, offset: nat): Bytes
    requires offset == 128 || offset == 192
  {
    if len < 56 then [len + offset]
    else ToBigEndian(offset + 55 + |ToBigEndian(len)|) + ToBigEndian(len)
  }

  function Encode(input: Item): Bytes {
    match input
    case Str(b) =>
      if |b| == 1 && b[0] < 128 then b else EncodeLength(|b|, 128) + b
    case List(items) =>
      var payload := EncodeAll(items);
      EncodeLength(|payload|, 192) + payload
  }

  function EncodeAll(items: seq<Item>): Bytes {
    if items == [] then [] else Encode(items[0]) + EncodeAll(items[1..])
  }

  /** Every length field fits in the eight bytes a prefix can announce. */
  ghost predicate Fits(input: Item) {
    match input
    case Str(b) => |b| < LENGTH_BOUND
    case List(items) => |EncodeAll(items)| < LENGTH_BOUND && FitsAll(items)
  }

  ghost predicate FitsAll(items: seq<Item>) {
    items == [] || (Fits(items[0]) && FitsAll(items[1..]))
  }

  // ---------- parsing ----------

  function SafeSlice(input: Bytes, start: nat, end: nat): Result<Bytes, RlpError>
    requires start <= end
  {
    if end > |input| then Err(SliceOutOfBounds) else Ok(input[start..end])
  }

  /** An empty slice reaches `parseInt('')` and is rejected as NaN. */
  function DecodeLength(v: Bytes): Result<nat, RlpError> {
    if v == [] then Err(InvalidByteSequence)
    else if v[0] == 0 then Err(ExtraZeros)
    else Ok(FromBigEndian(v))
  }

  /** The source's `_decode`: one item from the front, and what is left. */
  function DecodeOne(input: Bytes): (r: Result<Decoded, RlpError>)
    ensures r.Ok? ==> |r.value.remainder| < |input|
    decreases |input|, 0
  {
    if input == [] then Err(InvalidByteSequence)
    else
      var firstByte := input[0];
      if firstByte <= 0x7f then Ok(Decoded(Str(input[..1]), input[1..]))
      else if firstByte <= 0xb7 then
        var length := firstByte - 0x7f;
        var data :- if firstByte == 0x80 then Ok([]) else SafeSlice(input, 1, length);
        if length == 2 && data[0] < 0x80 then Err(InvalidPrefix)
        else Ok(Decoded(Str(data), input[length..]))
      else if firstByte <= 0xbf then
        var llength := firstByte - 0xb6;
        if |input| - 1 < llength then Err(NotEnoughBytes)
        else
          var lengthBytes :- SafeSlice(input, 1, llength);
          var length :- DecodeLength(lengthBytes);
          if length <= 55 then Err(StringTooShort)
          else
            var data :- SafeSlice(input, llength, length + llength);
            Ok(Decoded(Str(data), input[length + llength..]))
      else if firstByte <= 0xf7 then
        var length := firstByte - 0xbf;
        var inner :- SafeSlice(input, 1, length);
        var decoded :- DecodeAll(inner);
        Ok(Decoded(List(decoded), input[length..]))
      else
        var llength := firstByte - 0xf6;
        var lengthBytes :- SafeSlice(input, 1, llength);
        var length :- DecodeLength(lengthBytes);
        if length < 56 then Err(ListTooShort)
        else if llength + length > |input| then Err(TotalLengthTooLarge)
        else
          var decoded :- DecodeAll(input[llength..llength + length]);
          Ok(Decoded(List(decoded), input[llength + length..]))
  }

  function DecodeAll(input: Bytes): Result<seq<Item>, RlpError>
    decreases |input|, 1
  {
    if input == [] then Ok([])
    else
      var d :- DecodeOne(input);
      var rest :- DecodeAll(d.remainder);
      Ok([d.data] + rest)
  }

  /** The exported `decode` on bytes, without the stream flag. */
  function Decode(input: Bytes): Result<Item, RlpError> {
    if input == [] then Ok(Str([]))
    else
      var d :- DecodeOne(input);
      if d.remainder != [] then Err(RemainderNotZero) else Ok(d.data)
  }

  // ---------- the two are inverse ----------

  lemma SingleByte(n: nat)
    requires 0 < n < 256
    ensures ToBigEndian(n) == [n]
  {
    assert ToBigEndian(n / 256) == [];
  }

  lemma LengthPrefix(len: nat, offset: nat)
    requires 56 <= len < LENGTH_BOUND
    requires offset == 128 || offset == 192
    ensures var l := |ToBigEndian(len)|;
      1 <= l <= 8 && EncodeLength(len, offset) == [offset + 55 + l] + ToBigEndian(len)
  {
    var l := |ToBigEndian(len)|;
    assert 1 <= l <= 8 by { BigEndianRoundTrip(len); LengthBytes(len); }
    SingleByte(offset + 55 + l);
  }

  lemma ThreeParts(a: Bytes, b: Bytes, c: Bytes)
    ensures (a + b + c)[..|a|] == a
    ensures (a + b + c)[|a|..|a| + |b|] == b
    ensures (a + b + c)[|a| + |b|..] == c
  {}

  lemma LongForm(offset: nat, body: Bytes, rest: Bytes)
    requires 56 <= |body| < LENGTH_BOUND
    requires offset == 128 || offset == 192
    ensures var s := EncodeLength(|body|, offset) + body + rest; var l := 1 + |ToBigEndian(|body|)|;
      && 2 <= l <= 9 && s[0] == offset + 54 + l && |s| == l + |body| + |rest|
      && DecodeLength(s[1..l]) == Ok(|body|)
      && s[l..l + |body|] == body && s[l + |body|..] == rest
  {
    var field := ToBigEndian(|body|);
    LengthPrefix(|body|, offset);
    BigEndianRoundTrip(|body|);
    ThreeParts(EncodeLength(|body|, offset), body, rest);
    var s := EncodeLength(|body|, offset) + body + rest;
    assert s[..1 + |field|] == [offset + 55 + |field|] + field;
    assert s[1..1 + |field|] == s[..1 + |field|][1..] == field;
  }

  lemma DecodeStr(b: Bytes, rest: Bytes)
    requires |b| < LENGTH_BOUND
    ensures DecodeOne(Encode(Str(b)) + rest) == Ok(Decoded(Str(b), rest))
  {
    if |b| == 1 && b[0] < 128 {
      ThreeParts([], b, rest);
      assert [] + b + rest == b + rest;
    } else if |b| < 56 {
      ThreeParts([|b| + 128], b, rest);
    } else {
      LongForm(128, b, rest);
    }
  }

  lemma DecodeList(items: seq<Item>, rest: Bytes)
    requires |EncodeAll(items)| < LENGTH_BOUND
    requires DecodeAll(EncodeAll(items)) == Ok(items)
    ensures DecodeOne(Encode(List(items)) + rest) == Ok(Decoded(List(items), rest))
  {
    var payload := EncodeAll(items);
    if |payload| < 56 {
      ThreeParts([|payload| + 192], payload, rest);
    } else {
      LongForm(192, payload, rest);
    }
  }

  /** Printing then parsing gives the item back and leaves exactly what followed it. */
  lemma {:induction false} RoundTrip(input: Item, rest: Bytes)
    requires Fits(input)
    ensures DecodeOne(Encode(input) + rest) == Ok(Decoded(input, rest))
    decreases input
  {
    match input
    case Str(b) => DecodeStr(b, rest);
    case List(items) =>
      RoundTripAll(items);
      DecodeList(items, rest);
  }

  lemma {:induction false} RoundTripAll(items: seq<Item>)
    requires FitsAll(items)
    ensures DecodeAll(EncodeAll(items)) == Ok(items)
    decreases items
  {
    if items != [] {
      RoundTrip(items[0], EncodeAll(items[1..]));
      RoundTripAll(items[1..]);
      assert items == [items[0]] + items[1..];
    }
  }

  lemma ParsedLength(input: Bytes, llength: nat)
    requires 1 <= llength - 1 <= 8 && llength <= |input|
    requires DecodeLength(input[1..llength]).Ok?
    requires DecodeLength(input[1..llength]).value >= 56
    requires input[0] == 128 + 55 + (llength - 1) || input[0] == 192 + 55 + (llength - 1)
    ensures var len := DecodeLength(input[1..llength]).value;
      len < LENGTH_BOUND && EncodeLength(len, input[0] - 55 - (llength - 1)) == input[..llength]
  {
    var v := input[1..llength];
    BigEndianMinimal(v);
    LengthBytes(FromBigEndian(v));
    LengthPrefix(FromBigEndian(v), input[0] - 55 - (llength - 1));
  }

  lemma PrefixedStr(input: Bytes, start: nat, end: nat)
    requires start + 1 < end <= |input| && EncodeLength(end - start, 128) == input[..start]
    ensures input == Encode(Str(input[start..end])) + input[end..]
  {
    hide EncodeLength;
    assert input == input[..start] + input[start..end] + input[end..];
  }

  lemma ExactLongStr(input: Bytes)
    requires DecodeOne(input).Ok? && 0xb8 <= input[0] <= 0xbf
    ensures var d := DecodeOne(input).value;
      Fits(d.data) && input == Encode(d.data) + d.remainder
  {
    hide DecodeAll;
    hide DecodeLength;
    hide Encode;
    hide EncodeLength;
    var llength := input[0] - 0xb6;
    var length := DecodeLength(input[1..llength]).value;
    ParsedLength(input, llength);
    PrefixedStr(input, llength, length + llength);
  }

  lemma ExactStr(input: Bytes)
    requires DecodeOne(input).Ok? && DecodeOne(input).value.data.Str?
    ensures var d := DecodeOne(input).value;
      Fits(d.data) && input == Encode(d.data) + d.remainder
  {
    hide DecodeAll;
    hide EncodeAll;
    var d := DecodeOne(input).value;
    var firstByte := input[0];
    if firstByte <= 0x7f {
    } else if firstByte <= 0xb7 {
      assert input == input[..1] + input[1..firstByte - 0x7f] + input[firstByte - 0x7f..];
      if firstByte == 0x80 { assert d.data.bytes == []; }
    } else {
      ExactLongStr(input);
    }
  }

  lemma {:induction false} PrefixedList(input: Bytes, start: nat, end: nat, items: seq<Item>)
    requires start <= end <= |input| && EncodeAll(items) == input[start..end]
    requires EncodeLength(end - start, 192) == input[..start]
    ensures input == Encode(List(items)) + input[end..]
  {
    assert input == input[..start] + input[start..end] + input[end..];
  }

  /** Whatever the parser accepts is the printed form of what it returns, followed by the rest. */
  lemma {:induction false} Exact(input: Bytes)
    requires DecodeOne(input).Ok?
    ensures var d := DecodeOne(input).value;
      Fits(d.data) && input == Encode(d.data) + d.remainder
    decreases |input|, 0
  {
    hide Encode;
    hide EncodeAll;
    hide DecodeAll;
    hide DecodeLength;
    var d := DecodeOne(input).value;
    if d.data.Str? {
      ExactStr(input);
    } else {
      var firstByte := input[0];
      var start, end := 1, firstByte - 0xbf;
      if firstByte > 0xf7 {
        start := firstByte - 0xf6;
        ParsedLength(input, start);
        end := start + DecodeLength(input[1..start]).value;
      }
      ExactAll(input[start..end]);
      PrefixedList(input, start, end, d.data.items);
    }
  }

  lemma {:induction false} ExactAll(input: Bytes)
    requires DecodeAll(input).Ok?
    ensures FitsAll(DecodeAll(input).value) && EncodeAll(DecodeAll(input).value) == input
    decreases |input|, 1
  {
    if input != [] {
      Exact(input);
      ExactAll(DecodeOne(input).value.remainder);
    }
  }

  /** On non-empty input the exported decoder is the exact inverse of the encoder. */
  lemma DecodeIsInverse(input: Bytes, item: Item)
    requires input != []
    ensures Decode(input) == Ok(item) <==> Fits(item) && input == Encode(item)
  {
    if Decode(input) == Ok(item) {
      Exact(input);
      assert Encode(item) + [] == Encode(item);
    }
    if Fits(item) && input == Encode(item) {
      RoundTrip(item, []);
      assert Encode(item) + [] == Encode(item);
    }
  }

  /** No printed item is a proper prefix of another, and equal prints mean equal items. */
  lemma PrefixFree(a: Item, b: Item)
    requires Fits(a) && Fits(b) && Encode(a) <= Encode(b)
    ensures a == b
  {
    var rest := Encode(b)[|Encode(a)|..];
    assert Encode(b) == Encode(a) + rest;
    assert Encode(b) == Encode(b) + [];
    RoundTrip(a, rest);
    RoundTrip(b, []);
  }

  // ---------- the loops of the source ----------

  lemma {:induction false} EncodeAllAppend(items: seq<Item>, more: seq<Item>)
    ensures EncodeAll(items + more) == EncodeAll(items) + EncodeAll(more)
  {
    hide Encode;
    if items == [] {
      assert items + more == more;
    } else {
      EncodeAllAppend(items[1..], more);
      assert (items + more)[1..] == items[1..] + more;
      Regroup(Encode(items[0]), EncodeAll(items[1..]), EncodeAll(more));
    }
  }

  lemma Regroup(a: Bytes, b: Bytes, c: Bytes)
    ensures a + (b + c) == a + b + c
  {}

  method EncodeLoop(input: Item) returns (r: Bytes)
    ensures r == Encode(input)
    decreases input
  {
    if input.List? {
      var output: Bytes := [];
      for i := 0 to |input.items|
        invariant output == EncodeAll(input.items[..i])
      {
        var part := EncodeLoop(input.items[i]);
        EncodeAllAppend(input.items[..i], [input.items[i]]);
        assert input.items[..i + 1] == input.items[..i] + [input.items[i]];
        assert EncodeAll([input.items[i]]) == Encode(input.items[i]) + [];
        output := output + part;
      }
      assert input.items[..|input.items|] == input.items;
      return EncodeLength(|output|, 192) + output;
    }
    if |input.bytes| == 1 && input.bytes[0] < 128 {
      return input.bytes;
    }
    return EncodeLength(|input.bytes|, 128) + input.bytes;
  }

  /** The inner loop of `_decode`: takes items off `innerRemainder` until it is empty. */
  method DecodeItemsLoop(inner: Bytes) returns (r: Result<seq<Item>, RlpError>)
    ensures r == DecodeAll(inner)
    decreases |inner|, 1
  {
    var decoded: seq<Item> := [];
    var innerRemainder := inner;
    assert DecodeAll(inner).Ok? ==> [] + DecodeAll(inner).value == DecodeAll(inner).value;
    while |innerRemainder| > 0
      invariant |innerRemainder| <= |inner|
      invariant DecodeAll(innerRemainder).Ok? ==>
                  DecodeAll(inner) == Ok(decoded + DecodeAll(innerRemainder).value)
      invariant DecodeAll(innerRemainder).Err? ==> DecodeAll(inner) == DecodeAll(innerRemainder)
      decreases |innerRemainder|
    {
      var d := DecodeLoop(innerRemainder);
      if d.Err? {
        return Err(d.error);
      }
      ghost var rest := DecodeAll(d.value.remainder);
      assert rest.Ok? ==> decoded + ([d.value.data] + rest.value) == decoded + [d.value.data] + rest.value;
      decoded := decoded + [d.value.data];
      innerRemainder := d.value.remainder;
    }
    assert decoded + [] == decoded;
    return Ok(decoded);
  }

  /** `_decode`, branch by branch. */
  method DecodeLoop(input: Bytes) returns (r: Result<Decoded, RlpError>)
    ensures r == DecodeOne(input)
    decreases |input|, 0
  {
    if input == [] {
      return Err(InvalidByteSequence);
    }
    var firstByte := input[0];
    if firstByte <= 0x7f {
      return Ok(Decoded(Str(input[..1]), input[1..]));
    }
    if firstByte <= 0xb7 {
      var length := firstByte - 0x7f;
      var data: Bytes := [];
      if firstByte != 0x80 {
        data :- SafeSlice(input, 1, length);
      }
      if length == 2 && data[0] < 0x80 {
        return Err(InvalidPrefix);
      }
      return Ok(Decoded(Str(data), input[length..]));
    }
    if firstByte <= 0xbf {
      var llength := firstByte - 0xb6;
      if |input| - 1 < llength {
        return Err(NotEnoughBytes);
      }
      var length :- DecodeLength(input[1..llength]);
      if length <= 55 {
        return Err(StringTooShort);
      }
      var data :- SafeSlice(input, llength, length + llength);
      return Ok(Decoded(Str(data), input[length + llength..]));
    }
    if firstByte <= 0xf7 {
      var length := firstByte - 0xbf;
      var inner :- SafeSlice(input, 1, length);
      var items :- DecodeItemsLoop(inner);
      return Ok(Decoded(List(items), input[length..]));
    }
    var llength := firstByte - 0xf6;
    var lengthBytes :- SafeSlice(input, 1, llength);
    var length :- DecodeLength(lengthBytes);
    if length < 56 {
      return Err(ListTooShort);
    }
    var totalLength := llength + length;
    if totalLength > |input| {
      return Err(TotalLengthTooLarge);
    }
    var items :- DecodeItemsLoop(input[llength..totalLength]);
    return Ok(Decoded(List(items), input[totalLength..]));
  }

  // ---------- the code itself ----------

  /** The shortest big-endian form of a number. */
  ghost predicate Shortest(bytes: Bytes, n: nat) {
    FromBigEndian(bytes) == n && (bytes != [] ==> bytes[0] != 0)
  }

  lemma ShortestIs(bytes: Bytes, n: nat)
    requires Shortest(bytes, n)
    ensures bytes == ToBigEndian(n)
  {
    BigEndianMinimal(bytes);
  }

  /** How strings are written (appendix B of the Ethereum Yellow Paper). */
  lemma StringForm(b: Bytes, len: Bytes)
    requires Shortest(len, |b|) && |b| < LENGTH_BOUND
    ensures |b| == 1 && b[0] < 128 ==> Encode(Str(b)) == b
    ensures |b| < 56 && !(|b| == 1 && b[0] < 128) ==> Encode(Str(b)) == [128 + |b|] + b
    ensures |b| >= 56 ==> |len| <= 8 && Encode(Str(b)) == [183 + |len|] + len + b
  {
    ShortestIs(len, |b|);
    LengthBytes(|b|);
    if |b| >= 56 { SingleByte(183 + |len|); }
  }

  /** How lists are written, when the encodings of their items, one after the other, are the payload. */
  lemma ListForm(items: seq<Item>, payload: Bytes, len: Bytes)
    requires payload == EncodeAll(items) && Shortest(len, |payload|) && |payload| < LENGTH_BOUND
    ensures |payload| < 56 ==> Encode(List(items)) == [192 + |payload|] + payload
    ensures |payload| >= 56 ==> |len| <= 8 && Encode(List(items)) == [247 + |len|] + len + payload
  {
    hide EncodeAll;
    ShortestIs(len, |payload|);
    LengthBytes(|payload|);
    if |payload| >= 56 { SingleByte(247 + |len|); }
  }

  lemma PayloadForm(items: seq<Item>, item: Item)
    ensures EncodeAll([]) == [] && EncodeAll(items + [item]) == EncodeAll(items) + Encode(item)
  {
    hide Encode;
    EncodeAllAppend(items, [item]);
    assert EncodeAll([item]) == Encode(item) + [];
  }

  /** The empty input decodes to the empty string. */
  lemma DecodeNothing()
    ensures Decode([]) == Ok(Str([])) && Encode(Str([])) == [0x80] && Encode(List([])) == [0xc0]
  {}
}
