/**
 The UTF-8 codec of Encoding.ets on UTF-16 code units, with the 32-bit operations of the
 source on bit vectors, and the exact set of strings it carries unchanged.
 */
module Utf8 {
  import opened JsText
  import opened Base64
  import opened ArkBase64

  predicate IsHigh(u: bv16) { 0xD800 <= u <= 0xDBFF }

  predicate IsLow(u: bv16) { 0xDC00 <= u <= 0xDFFF }

  // ---- One character

  function One(code: bv16): seq<bv8>
    requires code < 0x80
  {
    [code as bv8]
  }

  function Two(code: bv16): (r: seq<bv8>)
    requires code < 0x800
    ensures |r| == 2
  {
    var c := code as bv32;
    [(0xC0 | (c >> 6)) as bv8, (0x80 | (c & 0x3F)) as bv8]
  }

  function Three(code: bv16): (r: seq<bv8>)
    ensures |r| == 3
  {
    var c := code as bv32;
    [(0xE0 | (c >> 12)) as bv8, (0x80 | ((c >> 6) & 0x3F)) as bv8, (0x80 | (c & 0x3F)) as bv8]
  }

  function Full(high: bv16, next: bv16): (full: bv32)
    ensures 0x10000 <= full < 0x11_0000
  {
    0x10000 + ((((high as bv32) & 0x3FF) << 10) | ((next as bv32) & 0x3FF))
  }

  function Four(high: bv16, next: bv16): (r: seq<bv8>)
    ensures |r| == 4
  {
    var full := Full(high, next);
    [(0xF0 | (full >> 18)) as bv8, (0x80 | ((full >> 12) & 0x3F)) as bv8,
     (0x80 | ((full >> 6) & 0x3F)) as bv8, (0x80 | (full & 0x3F)) as bv8]
  }

  function ReadTwo(a: bv8, b: bv8): bv16 {
    ((((a as bv32) & 0x1F) << 6) | ((b as bv32) & 0x3F)) as bv16
  }

  function ReadThree(a: bv8, b: bv8, c: bv8): bv16 {
    ((((a as bv32) & 0x0F) << 12) | (((b as bv32) & 0x3F) << 6) | ((c as bv32) & 0x3F)) as bv16
  }

  function ReadFour(a: bv8, b: bv8, c: bv8, d: bv8): bv32 {
    (((a as bv32) & 0x07) << 18) | (((b as bv32) & 0x3F) << 12) | (((c as bv32) & 0x3F) << 6) | ((d as bv32) & 0x3F)
  }

  /** `code >> 10` for a code that may be negative, as a 32-bit integer. */
  function Sar10(code: bv32): bv32 { if code & 0x8000_0000 == 0 then code >> 10 else !((!code) >> 10) }

  /** The two units of a four-byte sequence; `fromCharCode` keeps 16 bits. */
  function Pair(raw: bv32): seq<bv16> {
    var code := raw - 0x10000;
    [((0xD800 + Sar10(code)) & 0xFFFF) as bv16, ((0xDC00 + (code & 0x3FF)) & 0xFFFF) as bv16]
  }

  // ---- Whole strings

  /** How many units the next character takes: two after a high surrogate that is not last. */
  function Width(v: seq<bv16>): (n: nat)
    requires v != []
    ensures 1 <= n <= |v|
  {
    if IsHigh(v[0]) && |v| > 1 then 2 else 1
  }

  function Head(v: seq<bv16>): seq<bv8>
    requires v != []
  {
    if v[0] < 0x80 then One(v[0])
    else if v[0] < 0x800 then Two(v[0])
    else if IsHigh(v[0]) && |v| > 1 then Four(v[0], v[1])
    else Three(v[0])
  }

  function EncodeUtf8(v: seq<bv16>): seq<bv8> {
    if v == [] then [] else Head(v) + EncodeUtf8(v[Width(v)..])
  }

  datatype Read = Bad | Read(units: seq<bv16>, width: nat)

  function ReadHead(b: seq<bv8>): (r: Read)
    requires b != []
    ensures r.Read? ==> 1 <= r.width <= |b|
  {
    if b[0] < 0x80 then Read([b[0] as bv16], 1)
    else if 0xC0 <= b[0] < 0xE0 && |b| > 1 then Read([ReadTwo(b[0], b[1])], 2)
    else if 0xE0 <= b[0] < 0xF0 && |b| > 2 then Read([ReadThree(b[0], b[1], b[2])], 3)
    else if 0xF0 <= b[0] < 0xF8 && |b| > 3 then Read(Pair(ReadFour(b[0], b[1], b[2], b[3])), 4)
    else Bad
  }

  function Prepend(units: seq<bv16>, r: Result<seq<bv16>>): Result<seq<bv16>> {
    match r
    case Err => Err
    case Ok(rest) => Ok(units + rest)
  }

  function DecodeUtf8(b: seq<bv8>): Result<seq<bv16>> {
    if b == [] then Ok([])
    else
      match ReadHead(b)
      case Bad => Err
      case Read(units, width) => Prepend(units, DecodeUtf8(b[width..]))
  }

  // ---- The loops of the source

  lemma EncodeStep(v: seq<bv16>, index: nat, done: seq<bv8>)
    requires index < |v|
    ensures var rest := v[index..];
      done + EncodeUtf8(rest) == done + Head(rest) + EncodeUtf8(v[index + Width(rest)..])
  {
    hide Head;
    var rest := v[index..];
    assert rest[Width(rest)..] == v[index + Width(rest)..];
    assert done + (Head(rest) + EncodeUtf8(rest[Width(rest)..])) == done + Head(rest) + EncodeUtf8(rest[Width(rest)..]);
  }

  method EncodeUtf8ToBytes(value: seq<bv16>) returns (bytes: seq<bv8>)
    ensures bytes == EncodeUtf8(value)
  {
    hide One, Two, Three, Four, EncodeUtf8;
    bytes := [];
    var index := 0;
    assert value[0..] == value && [] + EncodeUtf8(value) == EncodeUtf8(value);
    while index < |value|
      invariant 0 <= index <= |value|
      invariant EncodeUtf8(value) == bytes + EncodeUtf8(value[index..])
    {
      EncodeStep(value, index, bytes);
      var code := value[index];
      if code < 0x80 {
        bytes := bytes + One(code);
      } else if code < 0x800 {
        bytes := bytes + Two(code);
      } else if code >= 0xD800 && code <= 0xDBFF && index + 1 < |value| {
        var next := value[index + 1];
        bytes := bytes + Four(code, next);
        index := index + 1;
      } else {
        bytes := bytes + Three(code);
      }
      index := index + 1;
    }
    EncodeEnd(value, bytes);
  }

  lemma EncodeEnd(v: seq<bv16>, done: seq<bv8>)
    ensures done + EncodeUtf8(v[|v|..]) == done
  {
  }

  lemma DecodeStep(b: seq<bv8>, index: nat, done: seq<bv16>)
    requires index < |b|
    ensures Prepend(done, DecodeUtf8(b[index..])) ==
      match ReadHead(b[index..])
      case Bad => Err
      case Read(units, width) => Prepend(done + units, DecodeUtf8(b[index + width..]))
  {
    hide ReadHead;
    var rest := b[index..];
    if ReadHead(rest).Read? {
      var Read(units, width) := ReadHead(rest);
      assert rest[width..] == b[index + width..];
      PrependTwice(done, units, DecodeUtf8(rest[width..]));
    }
  }

  lemma PrependTwice(a: seq<bv16>, b: seq<bv16>, r: Result<seq<bv16>>)
    ensures Prepend(a, Prepend(b, r)) == Prepend(a + b, r)
  {
    if r.Ok? {
      assert a + (b + r.value) == a + b + r.value;
    }
  }

  method DecodeUtf8Bytes(bytes: seq<bv8>) returns (r: Result<seq<bv16>>)
    ensures r == DecodeUtf8(bytes)
  {
    hide ReadTwo, ReadThree, ReadFour, Pair, DecodeUtf8, Prepend;
    var result: seq<bv16>, index := [], 0;
    DecodeStart(bytes);
    while index < |bytes|
      invariant 0 <= index <= |bytes|
      invariant DecodeUtf8(bytes) == Prepend(result, DecodeUtf8(bytes[index..]))
    {
      DecodeStep(bytes, index, result);
      var first := bytes[index];
      if first < 0x80 {
        result := result + [first as bv16];
        index := index + 1;
      } else if first >= 0xC0 && first < 0xE0 && index + 1 < |bytes| {
        result := result + [ReadTwo(first, bytes[index + 1])];
        index := index + 2;
      } else if first >= 0xE0 && first < 0xF0 && index + 2 < |bytes| {
        result := result + [ReadThree(first, bytes[index + 1], bytes[index + 2])];
        index := index + 3;
      } else if first >= 0xF0 && first < 0xF8 && index + 3 < |bytes| {
        result := result + Pair(ReadFour(first, bytes[index + 1], bytes[index + 2], bytes[index + 3]));
        index := index + 4;
      } else {
        return Err;
      }
    }
    DecodeEnd(bytes, result);
    r := Ok(result);
  }

  lemma DecodeStart(b: seq<bv8>)
    ensures DecodeUtf8(b) == Prepend([], DecodeUtf8(b[0..]))
  {
    hide DecodeUtf8;
    assert b[0..] == b;
    var r := DecodeUtf8(b);
    if r.Ok? {
      assert [] + r.value == r.value;
    }
  }

  lemma DecodeEnd(b: seq<bv8>, result: seq<bv16>)
    ensures Prepend(result, DecodeUtf8(b[|b|..])) == Ok(result)
  {
    assert result + [] == result;
  }

  // ---- What comes back

  /** After a high surrogate the next unit comes back as a low surrogate with the same ten bits. */
  function RepairedHead(v: seq<bv16>): (r: seq<bv16>)
    requires v != []
    ensures |r| == Width(v)
  {
    if IsHigh(v[0]) && |v| > 1 then [v[0], 0xDC00 | (v[1] & 0x3FF)] else [v[0]]
  }

  function Repaired(v: seq<bv16>): seq<bv16> {
    if v == [] then [] else RepairedHead(v) + Repaired(v[Width(v)..])
  }

  lemma OneBits(u: bv16, tail: seq<bv8>)
    requires u < 0x80
    ensures ReadHead(One(u) + tail) == Read([u], 1)
  {
    var b := One(u) + tail;
    assert b[0] == u as bv8;
  }

  lemma TwoBits(u: bv16)
    requires 0x80 <= u < 0x800
    ensures var b := Two(u);
      0xC0 <= b[0] < 0xE0 && ReadTwo(b[0], b[1]) == u
  {
  }

  lemma ThreeBits(u: bv16)
    ensures var b := Three(u);
      0xE0 <= b[0] < 0xF0 && ReadThree(b[0], b[1], b[2]) == u
  {
  }

  lemma FourBits(high: bv16, next: bv16)
    ensures var b := Four(high, next);
      0xF0 <= b[0] < 0xF8 && ReadFour(b[0], b[1], b[2], b[3]) == Full(high, next)
  {
  }

  lemma PairBits(high: bv16, next: bv16)
    requires IsHigh(high)
    ensures Pair(Full(high, next)) == [high, 0xDC00 | (next & 0x3FF)]
  {
  }

  lemma TwoReads(u: bv16, tail: seq<bv8>)
    requires 0x80 <= u < 0x800
    ensures ReadHead(Two(u) + tail) == Read([u], 2)
  {
    TwoBits(u);
    hide Two, ReadTwo, ReadThree, ReadFour, Pair;
    var h := Two(u);
    assert (h + tail)[0] == h[0] && (h + tail)[1] == h[1];
  }

  lemma ThreeReads(u: bv16, tail: seq<bv8>)
    ensures ReadHead(Three(u) + tail) == Read([u], 3)
  {
    ThreeBits(u);
    hide Three, ReadTwo, ReadThree, ReadFour, Pair;
    var h := Three(u);
    assert (h + tail)[0] == h[0] && (h + tail)[1] == h[1] && (h + tail)[2] == h[2];
  }

  lemma FourReads(high: bv16, next: bv16, tail: seq<bv8>)
    requires IsHigh(high)
    ensures ReadHead(Four(high, next) + tail) == Read([high, 0xDC00 | (next & 0x3FF)], 4)
  {
    FourBits(high, next);
    PairBits(high, next);
    hide Four, Full, ReadTwo, ReadThree, ReadFour, Pair;
    var h := Four(high, next);
    assert (h + tail)[0] == h[0] && (h + tail)[1] == h[1] && (h + tail)[2] == h[2] && (h + tail)[3] == h[3];
  }

  /** The bytes of one character are read back as that character, repaired. */
  lemma HeadReads(v: seq<bv16>, tail: seq<bv8>)
    requires v != []
    ensures ReadHead(Head(v) + tail) == Read(RepairedHead(v), |Head(v)|)
  {
    hide Two, Three, Four, ReadHead;
    if v[0] < 0x80 {
      OneBits(v[0], tail);
    } else if v[0] < 0x800 {
      TwoReads(v[0], tail);
    } else if IsHigh(v[0]) && |v| > 1 {
      FourReads(v[0], v[1], tail);
    } else {
      ThreeReads(v[0], tail);
    }
  }

  /** Encoding then decoding never fails and returns the repaired string. */
  lemma {:induction false} DecodeOfEncode(v: seq<bv16>)
    ensures DecodeUtf8(EncodeUtf8(v)) == Ok(Repaired(v))
  {
    if v != [] {
      hide Head, ReadHead, RepairedHead, Width;
      var rest := EncodeUtf8(v[Width(v)..]);
      assert (Head(v) + rest)[|Head(v)|..] == rest;
      HeadReads(v, rest);
      DecodeOfEncode(v[Width(v)..]);
    }
  }

  /** Every high surrogate is the last unit or followed by a low surrogate. */
  predicate WellPaired(v: seq<bv16>) {
    forall i | 0 <= i < |v| - 1 && IsHigh(v[i]) :: IsLow(v[i + 1])
  }

  lemma LowIsFixed(u: bv16)
    ensures 0xDC00 | (u & 0x3FF) == u <==> IsLow(u)
    ensures IsLow(u) ==> !IsHigh(u)
  {
  }

  lemma HeadSame(v: seq<bv16>)
    requires v != []
    ensures RepairedHead(v) == v[..Width(v)] <==> (IsHigh(v[0]) && |v| > 1 ==> IsLow(v[1]))
  {
    hide IsHigh, IsLow;
    if IsHigh(v[0]) && |v| > 1 {
      LowIsFixed(v[1]);
      assert v[..2] == [v[0], v[1]];
    } else {
      assert v[..1] == [v[0]];
    }
  }

  /** Pairing of a string is pairing of its first character and of what follows it. */
  lemma PairedTail(v: seq<bv16>)
    requires v != []
    ensures WellPaired(v) <==> (IsHigh(v[0]) && |v| > 1 ==> IsLow(v[1])) && WellPaired(v[Width(v)..])
  {
    hide IsHigh, IsLow;
    var n := Width(v);
    var tail := v[n..];
    if |v| > 1 {
      LowIsFixed(v[1]);
      assert WellPaired(v) && IsHigh(v[0]) ==> IsLow(v[0 + 1]);
    }
    assert forall i | 0 <= i < |tail| :: tail[i] == v[n + i];
    if WellPaired(tail) && (IsHigh(v[0]) && |v| > 1 ==> IsLow(v[1])) {
      forall i | 0 <= i < |v| - 1 && IsHigh(v[i])
        ensures IsLow(v[i + 1])
      {
        if i >= n {
          assert tail[i - n + 1] == v[i + 1];
        }
      }
    }
    if WellPaired(v) {
      forall i | 0 <= i < |tail| - 1 && IsHigh(tail[i])
        ensures IsLow(tail[i + 1])
      {
        assert IsHigh(v[n + i]) && v[n + i + 1] == tail[i + 1];
      }
    }
  }

  lemma {:induction false} RepairedSame(v: seq<bv16>)
    ensures |Repaired(v)| == |v|
    ensures Repaired(v) == v <==> WellPaired(v)
  {
    if v != [] {
      hide RepairedHead, WellPaired, IsHigh, IsLow;
      var n := Width(v);
      assert v == v[..n] + v[n..];
      HeadSame(v);
      PairedTail(v);
      RepairedSame(v[n..]);
      SameParts(RepairedHead(v), Repaired(v[n..]), v, n);
    }
  }

  lemma SameParts(a: seq<bv16>, b: seq<bv16>, v: seq<bv16>, n: nat)
    requires |a| == n <= |v|
    ensures a + b == v <==> a == v[..n] && b == v[n..]
  {
    if a + b == v {
      assert (a + b)[..n] == a && (a + b)[n..] == b;
    }
  }

  // ---- Through Base64

  /** `decodeBase64ToUtf8` */
  function DecodedText(t: string): Result<seq<bv16>> {
    match ArkBase64.Decoded(t)
    case Err => Err
    case Ok(bytes) => DecodeUtf8(bytes)
  }

  function EncodedText(v: seq<bv16>): string { Encode(EncodeUtf8(v)) }

  /** A string survives the round trip, padded or not, exactly when it is well paired. */
  lemma {:induction false} TextRoundTrip(v: seq<bv16>)
    ensures DecodedText(EncodedText(v)) == Ok(v) <==> WellPaired(v)
    ensures DecodedText(Unpadded(EncodedText(v))) == Ok(v) <==> WellPaired(v)
  {
    hide EncodeUtf8, DecodeUtf8, Repaired, WellPaired, Encode, Unpadded, Decoded;
    ArkBase64.DecodeEncode(EncodeUtf8(v));
    DecodeOfEncode(v);
    RepairedSame(v);
  }

  method EncodeUtf8ToBase64(value: seq<bv16>) returns (result: string)
    ensures result == EncodedText(value)
  {
    var bytes := EncodeUtf8ToBytes(value);
    result := EncodeBytes(bytes);
  }

  method EncodeUtf8ToBase64NoPadding(value: seq<bv16>) returns (result: string)
    ensures result == Unpadded(EncodedText(value))
  {
    var bytes := EncodeUtf8ToBytes(value);
    result := EncodeBytesNoPadding(bytes);
  }

  method DecodeBase64ToUtf8(value: string) returns (r: Result<seq<bv16>>)
    ensures r == DecodedText(value)
  {
    var bytes := DecodeBase64ToBytes(value);
    if bytes.Err? {
      return Err;
    }
    r := DecodeUtf8Bytes(bytes.value);
  }

  /** A high surrogate before the letter A: the text comes back, but not the same. */
  lemma BrokenPairChanges(v: seq<bv16>)
    requires v == [0xD800, 0x41]
    ensures DecodedText(EncodedText(v)) != Ok(v)
  {
    hide DecodedText, EncodedText;
    assert IsHigh(v[0]) && !IsLow(v[1]);
    assert !WellPaired(v);
    TextRoundTrip(v);
  }
}
