/** Code points of a JavaScript string and back, as IdnUrl.ets computes them. */
module Unicode16 {
  import opened JsText
  import opened JsBits

  type CodePoint = c: int | 0 <= c <= 0x10FFFF

  predicate IsHigh(u: Unit) { 0xD800 <= u <= 0xDBFF }

  predicate IsLow(u: Unit) { 0xDC00 <= u <= 0xDFFF }

  const SURROGATE_BITS: nat := 10
  const SURROGATE_MASK: nat := 0x3FF

  lemma SurrogateBits(high: nat)
    ensures Double(high, SURROGATE_BITS) == 0x400 * high
    ensures Pow2(SURROGATE_BITS) == SURROGATE_MASK + 1 == 0x400
  {
    TenDoublings(high);
    TenDoublings(1);
  }

  lemma TenDoublings(x: int)
    ensures Double(x, SURROGATE_BITS) == 0x400 * x
  {
    FiveDoublings(x);
    FiveDoublings(32 * x);
    DoubleAdds(x, 5, 5);
  }

  lemma FiveDoublings(x: int)
    ensures Double(x, 5) == 32 * x
  {
    assert Double(x, 1) == 2 * x;
    assert Double(x, 2) == 2 * Double(x, 1);
    assert Double(x, 3) == 2 * Double(x, 2);
    assert Double(x, 4) == 2 * Double(x, 3);
  }

  function Combine(high: Unit, low: Unit): (c: CodePoint)
    requires IsHigh(high) && IsLow(low)
    ensures c > 0xFFFF
  {
    SurrogateBits(high - 0xD800);
    AppendBits(high - 0xD800, low - 0xDC00, SURROGATE_BITS);
    0x10000 + Or(ShiftLeft(high - 0xD800, SURROGATE_BITS), low - 0xDC00)
  }

  function FromCodePoint(value: CodePoint): (units: Text)
    ensures 1 <= |units| <= 2
    ensures value <= 0xFFFF ==> units == [value]
  {
    if value <= 0xFFFF then [value]
    else
      var code := value - 0x10000;
      SurrogateBits(0x400);
      SplitBits(code, 0x400, SURROGATE_BITS);
      [0xD800 + ShiftRight(code, SURROGATE_BITS), 0xDC00 + And(code, SURROGATE_MASK)]
  }

  lemma CombineInverse(high: Unit, low: Unit)
    requires IsHigh(high) && IsLow(low)
    ensures FromCodePoint(Combine(high, low)) == [high, low]
  {
    CombineIs(high, low);
    SupplementaryUnits(high - 0xD800, low - 0xDC00);
  }

  lemma CombineIs(high: Unit, low: Unit)
    requires IsHigh(high) && IsLow(low)
    ensures Combine(high, low) == 0x10000 + 0x400 * (high - 0xD800) + (low - 0xDC00)
  {
    hide And, Or, ShiftLeft, ShiftRight, Double;
    SurrogateBits(high - 0xD800);
    AppendBits(high - 0xD800, low - 0xDC00, SURROGATE_BITS);
  }

  lemma SupplementaryUnits(high: nat, low: nat)
    requires high < 0x400 && low < 0x400
    ensures FromCodePoint(0x10000 + 0x400 * high + low) == [0xD800 + high, 0xDC00 + low]
  {
    hide And, Or, ShiftLeft, ShiftRight, Double;
    SurrogateBits(high);
    AppendBits(high, low, SURROGATE_BITS);
    var code := 0x400 * high + low;
    assert And(code, SURROGATE_MASK) == low;
  }

  /** A surrogate pair is one code point, every other unit stands for itself. */
  function CodePoints(s: Text): seq<CodePoint> {
    if s == [] then []
    else if IsHigh(s[0]) && |s| > 1 && IsLow(s[1]) then [Combine(s[0], s[1])] + CodePoints(s[2..])
    else [s[0]] + CodePoints(s[1..])
  }

  /** RFC 2781, section 2.2: a unit from D800 to DBFF and one from DC00 to DFFF after it are one code point. */
  lemma PairIsOne(high: Unit, low: Unit, rest: Text)
    requires 0xD800 <= high <= 0xDBFF && 0xDC00 <= low <= 0xDFFF
    ensures CodePoints([high, low] + rest) == [0x10000 + 0x400 * (high - 0xD800) + (low - 0xDC00)] + CodePoints(rest)
  {
    CombineIs(high, low);
    hide Combine;
    var s := [high, low] + rest;
    assert s[2..] == rest && s[0] == high && s[1] == low;
  }

  lemma OtherIsItself(u: Unit, rest: Text)
    requires !(0xD800 <= u <= 0xDBFF && rest != [] && 0xDC00 <= rest[0] <= 0xDFFF)
    ensures CodePoints([u] + rest) == [u] + CodePoints(rest)
  {
    hide Combine;
    var s := [u] + rest;
    assert s[1..] == rest && s[0] == u;
    assert rest != [] ==> s[1] == rest[0];
  }

  function UnitsOf(points: seq<CodePoint>): Text {
    if points == [] then [] else FromCodePoint(points[0]) + UnitsOf(points[1..])
  }

  /** No unit is lost, lone surrogates included. */
  lemma {:induction false} UnitsOfCodePoints(s: Text)
    ensures UnitsOf(CodePoints(s)) == s
  {
    if s == [] {
    } else if IsHigh(s[0]) && |s| > 1 && IsLow(s[1]) {
      assert [s[0], s[1]] + s[2..] == s;
      assert CodePoints(s)[1..] == CodePoints(s[2..]);
      CombineInverse(s[0], s[1]);
      UnitsOfCodePoints(s[2..]);
    } else {
      assert [s[0]] + s[1..] == s;
      assert CodePoints(s)[1..] == CodePoints(s[1..]);
      UnitsOfCodePoints(s[1..]);
    }
  }

  predicate NotAscii(s: Text) { exists i :: 0 <= i < |s| && s[i] >= 0x80 }

  /** A string is ASCII exactly when its code points are. */
  lemma {:induction false} AsciiPoints(s: Text)
    ensures NotAscii(s) <==> exists i :: 0 <= i < |CodePoints(s)| && CodePoints(s)[i] >= 0x80
  {
    if s == [] {
    } else {
      var step := if IsHigh(s[0]) && |s| > 1 && IsLow(s[1]) then 2 else 1;
      var rest := CodePoints(s[step..]);
      AsciiPoints(s[step..]);
      assert CodePoints(s)[1..] == rest;
      if s[0] >= 0x80 {
        assert CodePoints(s)[0] >= 0x80;
      } else {
        assert forall i | 0 <= i < |rest| :: CodePoints(s)[i + 1] == rest[i];
        if i :| 0 <= i < |s| && s[i] >= 0x80 {
          assert s[1..][i - 1] >= 0x80;
          var j :| 0 <= j < |rest| && rest[j] >= 0x80;
          assert CodePoints(s)[j + 1] >= 0x80;
        }
        if i :| 0 <= i < |CodePoints(s)| && CodePoints(s)[i] >= 0x80 {
          assert rest[i - 1] >= 0x80;
        }
      }
    }
  }

  method CodePointsFromString(value: Text) returns (result: seq<CodePoint>)
    ensures result == CodePoints(value)
  {
    hide CodePoints, Combine;
    result := [];
    var index := 0;
    while index < |value|
      invariant 0 <= index <= |value|
      invariant CodePoints(value) == result + CodePoints(value[index..])
    {
      var code := value[index];
      var point: CodePoint := code;
      ghost var done := result;
      Unfold(value, index);
      if 0xD800 <= code <= 0xDBFF && index + 1 < |value| {
        var next := value[index + 1];
        if 0xDC00 <= next <= 0xDFFF {
          point := Combine(code, next);
          index := index + 1;
        }
      }
      result := result + [point];
      index := index + 1;
      assert done + ([point] + CodePoints(value[index..])) == result + CodePoints(value[index..]);
    }
    Unfold(value, index);
  }

  lemma Unfold(s: Text, index: nat)
    requires index <= |s|
    ensures index == |s| ==> CodePoints(s[index..]) == []
    ensures index < |s| ==>
      (CodePoints(s[index..]) ==
       if IsHigh(s[index]) && index + 1 < |s| && IsLow(s[index + 1])
       then [Combine(s[index], s[index + 1])] + CodePoints(s[index + 2..])
       else [s[index]] + CodePoints(s[index + 1..]))
  {
    var rest := s[index..];
    if index == |s| {
      return;
    }
    assert rest[1..] == s[index + 1..];
    if index + 1 < |s| {
      assert rest[2..] == s[index + 2..];
    }
  }
}
