/** The UTF-8 codec of Encoding.ets against the strict readers of the standards. */
module Utf8Standard {
  import opened JsText
  import opened Base64
  import opened Rfc3629
  import opened Utf8
  import Base64Sample

  // ---- What the encoder writes

  lemma TwoPoint(u: bv16)
    requires 0x80 <= u < 0x800
    ensures var b := Two(u);
      0xC2 <= b[0] <= 0xDF && IsTail(b[1]) && ((((b[0] as bv32) & 0x1F) << 6) | Low(b[1])) == u as bv32
  {
  }

  lemma ThreeRange(u: bv16)
    requires u >= 0x800
    ensures var b := Three(u);
      && 0xE0 <= b[0] <= 0xEF && IsTail(b[1]) && IsTail(b[2])
      && (b[0] == 0xE0 ==> b[1] >= 0xA0)
      && (b[0] == 0xED && b[1] > 0x9F <==> 0xD800 <= u <= 0xDFFF)
  {
  }

  lemma ThreePoint(u: bv16)
    ensures var b := Three(u); ((((b[0] as bv32) & 0x0F) << 12) | (Low(b[1]) << 6) | Low(b[2])) == u as bv32
  {
  }

  lemma FourRange(high: bv16, next: bv16)
    requires IsHigh(high)
    ensures var b := Four(high, next);
      && 0xF0 <= b[0] <= 0xF4 && IsTail(b[1]) && IsTail(b[2]) && IsTail(b[3])
      && (b[0] == 0xF0 ==> b[1] >= 0x90) && (b[0] == 0xF4 ==> b[1] <= 0x8F)
  {
  }

  lemma FourPoint(high: bv16, next: bv16)
    requires IsHigh(high)
    ensures var b := Four(high, next);
      ((((b[0] as bv32) & 0x07) << 18) | (Low(b[1]) << 12) | (Low(b[2]) << 6) | Low(b[3])) == Full(high, next)
  {
  }

  lemma FullIsPaired(high: bv16, next: bv16)
    requires IsHigh(high)
    ensures Full(high, next) == Paired(high, 0xDC00 | (next & 0x3FF))
  {
  }

  lemma TwoReads(u: bv16, tail: seq<bv8>)
    requires 0x80 <= u < 0x800
    ensures ReadPoint(Two(u) + tail) == Character(Wide(u), 2)
  {
    TwoPoint(u);
    hide Two, Low;
    var h := Two(u);
    assert (h + tail)[0] == h[0] && (h + tail)[1] == h[1];
  }

  lemma ThreeReads(u: bv16, tail: seq<bv8>)
    requires u >= 0x800
    ensures ReadPoint(Three(u) + tail) == if 0xD800 <= u <= 0xDFFF then Malformed else Character(Wide(u), 3)
  {
    ThreeRange(u);
    ThreePoint(u);
    hide Three, Low;
    var h := Three(u);
    assert (h + tail)[0] == h[0] && (h + tail)[1] == h[1] && (h + tail)[2] == h[2];
  }

  lemma FourReads(high: bv16, next: bv16, tail: seq<bv8>)
    requires IsHigh(high)
    ensures ReadPoint(Four(high, next) + tail) == Character(Paired(high, 0xDC00 | (next & 0x3FF)), 4)
  {
    FourRange(high, next);
    FourPoint(high, next);
    FullIsPaired(high, next);
    hide Four, Full, Low, Paired;
    var h := Four(high, next);
    assert (h + tail)[0] == h[0] && (h + tail)[1] == h[1] && (h + tail)[2] == h[2] && (h + tail)[3] == h[3];
  }

  /** The bytes of a character are one code point to the strict reader, or nothing if it is a lone surrogate. */
  lemma HeadPoint(v: seq<bv16>, tail: seq<bv8>)
    requires v != []
    ensures ReadPoint(Head(v) + tail) == PointOf(v)
  {
    hide One, Two, Three, Four, ReadPoint, Paired, Wide;
    var u := v[0];
    if u < 0x80 {
      OneReads(u, tail);
    } else if u < 0x800 {
      TwoReads(u, tail);
    } else if IsHigh(u) && |v| > 1 {
      FourReads(u, v[1], tail);
    } else {
      ThreeReads(u, tail);
    }
  }

  /** The code point that the strict reader finds, and in how many bytes. */
  function PointOf(v: seq<bv16>): Character
    requires v != []
  {
    var u := v[0];
    if u < 0x80 then Character(Wide(u), 1)
    else if u < 0x800 then Character(Wide(u), 2)
    else if IsHigh(u) && |v| > 1 then Character(Paired(u, 0xDC00 | (v[1] & 0x3FF)), 4)
    else if 0xD800 <= u <= 0xDFFF then Malformed
    else Character(Wide(u), 3)
  }

  lemma OneReads(u: bv16, tail: seq<bv8>)
    requires u < 0x80
    ensures ReadPoint(One(u) + tail) == Character(Wide(u), 1)
  {
    var b := One(u) + tail;
    assert b[0] == u as bv8;
  }

  lemma HeadWidth(v: seq<bv16>)
    requires v != [] && PointOf(v).Character?
    ensures |Head(v)| == PointOf(v).width
  {
    hide Two, Three, Four, Paired;
  }

  /** A pair, a unit that stands for itself, and a lone surrogate. */
  lemma PairFirst(high: bv16, low: bv16, rest: seq<bv16>)
    requires 0xD800 <= high <= 0xDBFF && 0xDC00 <= low <= 0xDFFF
    ensures Points16([high, low] + rest) == Before(Paired(high, low), Points16(rest))
  {
    hide Paired, Wide;
    var v := [high, low] + rest;
    assert v[0] == high && v[1] == low && v[2..] == rest;
  }

  lemma SingleFirst(u: bv16, rest: seq<bv16>)
    requires u <= 0xD7FF || u >= 0xE000
    ensures Points16([u] + rest) == Before(Wide(u), Points16(rest))
  {
    hide Paired, Wide;
    var v := [u] + rest;
    assert v[0] == u && v[1..] == rest;
  }

  lemma LoneFirst(u: bv16, rest: seq<bv16>)
    requires 0xD800 <= u <= 0xDFFF && (IsHigh(u) ==> rest == [])
    ensures Points16([u] + rest) == None
  {
    hide Paired, Wide;
    var v := [u] + rest;
    assert v[0] == u;
    if IsHigh(u) {
      assert v == [u];
    }
  }

  lemma LowRange(u: bv16)
    ensures 0xDC00 <= 0xDC00 | (u & 0x3FF) <= 0xDFFF
  {
  }

  lemma RepairedPoint(v: seq<bv16>)
    requires v != []
    ensures Points16(Repaired(v)) ==
      match PointOf(v)
      case Malformed => None
      case Character(point, width) => Before(point, Points16(Repaired(v[Width(v)..])))
  {
    hide Paired, Points16, Before, Wide;
    var u, rest := v[0], Repaired(v[Width(v)..]);
    if IsHigh(u) && |v| > 1 {
      var low := 0xDC00 | (v[1] & 0x3FF);
      LowRange(v[1]);
      PairFirst(u, low, rest);
    } else if 0xD800 <= u <= 0xDFFF {
      LoneFirst(u, rest);
    } else {
      SingleFirst(u, rest);
    }
  }

  /** What the encoder writes is to a strict reader what it was given, surrogate pairs completed. */
  lemma {:induction false} EncodesStandard(v: seq<bv16>)
    ensures Points8(EncodeUtf8(v)) == Points16(Repaired(v))
  {
    if v != [] {
      hide Head, ReadPoint, PointOf, Repaired, Points16;
      var rest := v[Width(v)..];
      var tail := EncodeUtf8(rest);
      assert (Head(v) + tail)[|Head(v)|..] == tail;
      HeadPoint(v, tail);
      if PointOf(v).Character? {
        HeadWidth(v);
      }
      HeadSome(v);
      EncodesStandard(rest);
      RepairedPoint(v);
    }
  }

  lemma HeadSome(v: seq<bv16>)
    requires v != []
    ensures Head(v) != []
  {
    hide Two, Three, Four;
  }

  /** A string without lone surrogates becomes UTF-8 of the same code points. */
  lemma {:induction false} EncodesPoints(v: seq<bv16>)
    requires Points16(v).Some?
    ensures Points8(EncodeUtf8(v)) == Points16(v)
  {
    hide Points8, EncodeUtf8;
    PointsArePaired(v);
    RepairedSame(v);
    EncodesStandard(v);
  }

  lemma {:induction false} PointsArePaired(v: seq<bv16>)
    requires Points16(v).Some?
    ensures WellPaired(v)
  {
    if v != [] {
      hide WellPaired, Paired;
      PairedTail(v);
      PointsArePaired(v[Width(v)..]);
    } else {
    }
  }

  // ---- What the decoder reads

  /** On UTF-8 that a strict reader accepts the decoder returns the same code points. */
  lemma {:induction false} DecodesStandard(b: seq<bv8>)
    requires Points8(b).Some?
    ensures DecodeUtf8(b).Ok? && Points16(DecodeUtf8(b).value) == Points8(b)
  {
    if b != [] {
      hide ReadPoint, ReadHead;
      var Character(point, width) := ReadPoint(b);
      var rest := b[width..];
      DecodesStandard(rest);
      HeadDecodes(b);
      var units := ReadHead(b).units;
      var after := DecodeUtf8(rest).value;
      PointsPrepend(units, after, point);
    }
  }

  /** The units that stand for one code point. */
  predicate StandFor(units: seq<bv16>, point: bv32) {
    || (|units| == 1 && (units[0] <= 0xD7FF || units[0] >= 0xE000) && Wide(units[0]) == point)
    || (|units| == 2 && 0xD800 <= units[0] <= 0xDBFF && 0xDC00 <= units[1] <= 0xDFFF && Paired(units[0], units[1]) == point)
  }

  lemma PointsPrepend(units: seq<bv16>, rest: seq<bv16>, point: bv32)
    requires StandFor(units, point)
    ensures Points16(units + rest) == Before(point, Points16(rest))
  {
    hide Paired, Points16, Before, Wide;
    if |units| == 2 {
      var a, b := units[0], units[1];
      assert units == [a, b];
      assert Paired(a, b) == point;
      PairFirst(a, b, rest);
    } else {
      var a := units[0];
      assert units == [a];
      assert Wide(a) == point;
      SingleFirst(a, rest);
    }
  }

  lemma HeadDecodes(b: seq<bv8>)
    requires b != [] && ReadPoint(b).Character?
    ensures var r := ReadHead(b);
      r.Read? && r.width == ReadPoint(b).width && StandFor(r.units, ReadPoint(b).point)
  {
    hide Low, Pair, ReadTwo, ReadThree, ReadFour, Paired;
    if b[0] <= 0x7F {
      OneStands(b[0]);
    } else if b[0] <= 0xDF {
      TwoStands(b[0], b[1]);
    } else if b[0] <= 0xEF {
      ThreeStands(b[0], b[1], b[2]);
    } else {
      FourStands(b[0], b[1], b[2], b[3]);
    }
  }

  lemma OneStands(a: bv8)
    requires a <= 0x7F
    ensures StandFor([a as bv16], a as bv32)
  {
  }

  lemma TwoStands(a: bv8, b: bv8)
    requires 0xC2 <= a <= 0xDF && IsTail(b)
    ensures StandFor([ReadTwo(a, b)], (((a as bv32) & 0x1F) << 6) | Low(b))
  {
  }

  lemma ThreeStands(a: bv8, b: bv8, c: bv8)
    requires 0xE0 <= a <= 0xEF && IsTail(b) && IsTail(c) && (a == 0xED ==> b <= 0x9F)
    ensures StandFor([ReadThree(a, b, c)], (((a as bv32) & 0x0F) << 12) | (Low(b) << 6) | Low(c))
  {
    ThreeValue(a, b, c);
    NoSurrogate(a, b, c);
    hide ReadThree, Low, Wide, Paired;
  }

  lemma ThreeValue(a: bv8, b: bv8, c: bv8)
    ensures Wide(ReadThree(a, b, c)) == (((a as bv32) & 0x0F) << 12) | (Low(b) << 6) | Low(c)
  {
  }

  lemma NoSurrogate(a: bv8, b: bv8, c: bv8)
    requires 0xE0 <= a <= 0xEF && IsTail(b) && (a == 0xED ==> b <= 0x9F)
    ensures ReadThree(a, b, c) <= 0xD7FF || ReadThree(a, b, c) >= 0xE000
  {
  }

  lemma FourStands(a: bv8, b: bv8, c: bv8, d: bv8)
    requires 0xF0 <= a <= 0xF4 && IsTail(b) && IsTail(c) && IsTail(d)
    requires (a == 0xF0 ==> b >= 0x90) && (a == 0xF4 ==> b <= 0x8F)
    ensures StandFor(Pair(ReadFour(a, b, c, d)), (((a as bv32) & 0x07) << 18) | (Low(b) << 12) | (Low(c) << 6) | Low(d))
  {
    FourRaw(a, b, c, d);
    FourSame(a, b, c, d);
    hide ReadFour, Low, Pair, StandFor;
    PairStands(ReadFour(a, b, c, d));
  }

  lemma FourSame(a: bv8, b: bv8, c: bv8, d: bv8)
    ensures ReadFour(a, b, c, d) == (((a as bv32) & 0x07) << 18) | (Low(b) << 12) | (Low(c) << 6) | Low(d)
  {
  }

  lemma FourRaw(a: bv8, b: bv8, c: bv8, d: bv8)
    requires 0xF0 <= a <= 0xF4 && (a == 0xF0 ==> b >= 0x90) && (a == 0xF4 ==> b <= 0x8F)
    requires IsTail(b)
    ensures 0x10000 <= ReadFour(a, b, c, d) <= 0x10FFFF
  {
    var x, y := ((a as bv32) & 0x07) << 18, ((b as bv32) & 0x3F) << 12;
    assert 0x10000 <= x | y <= 0x10F000 && (x | y) & 0xFFF == 0;
    FourRest(x | y, c, d);
  }

  lemma FourRest(top: bv32, c: bv8, d: bv8)
    requires 0x10000 <= top <= 0x10F000 && top & 0xFFF == 0
    ensures 0x10000 <= top | (((c as bv32) & 0x3F) << 6) | ((d as bv32) & 0x3F) <= 0x10FFFF
  {
  }

  lemma PairStands(raw: bv32)
    requires 0x10000 <= raw <= 0x10FFFF
    ensures StandFor(Pair(raw), raw)
  {
    PairRange(raw);
    PairValue(raw);
    hide Pair, Paired;
  }

  lemma PairRange(raw: bv32)
    requires 0x10000 <= raw <= 0x10FFFF
    ensures var p := Pair(raw);
      |p| == 2 && 0xD800 <= p[0] <= 0xDBFF && 0xDC00 <= p[1] <= 0xDFFF
  {
  }

  lemma PairValue(raw: bv32)
    requires 0x10000 <= raw <= 0x10FFFF
    ensures Paired(Pair(raw)[0], Pair(raw)[1]) == raw
  {
  }

  /** The decoder tests no continuation byte: it accepts exactly what has as many bytes as each first byte asks for. */
  lemma AcceptsExactly(b: seq<bv8>)
    requires b != []
    ensures var width :=
        if b[0] <= 0x7F then 1 else if 0xC0 <= b[0] <= 0xDF then 2
        else if 0xE0 <= b[0] <= 0xEF then 3 else if 0xF0 <= b[0] <= 0xF7 then 4 else |b| + 1;
      DecodeUtf8(b).Ok? <==> width <= |b| && DecodeUtf8(b[width..]).Ok?
  {
    hide ReadTwo, ReadThree, ReadFour, Pair;
  }

  /** `é` is the bytes C3 A9, in Base64 `w6k=`. */
  lemma KnownText(v: seq<bv16>)
    requires v == [0xE9]
    ensures EncodeUtf8(v) == [0xC3, 0xA9]
    ensures EncodedText(v) == "w6k="
  {
    assert v[1..] == [];
    assert Two(0xE9) == [0xC3, 0xA9];
    assert EncodeUtf8(v) == [0xC3, 0xA9];
    hide EncodeUtf8;
    Base64Sample.AccentedOctets(EncodeUtf8(v));
  }
}
