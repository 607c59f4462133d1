/**
 Known encodings, which fix the constants of the encoder: `9ca` for E9, `9ca8457cdir` for E9 6F22 8A9E and
 `wgv71a119e` for 65E5 672C 8A9E. They need both branches of the bias adaptation, its loop, and
 digits under thresholds at either end and in the middle.
 */
module PunycodeSample {
  import opened JsText
  import opened Unicode16
  import opened Punycode
  import PunycodeDecoder
  import JsBits

  lemma LastDigit(q: nat, k: nat, bias: nat)
    requires q < Threshold(k, bias)
    ensures VarInt(q, k, bias) == [EncodeDigit(q)]
  {
  }

  /** One digit d, and the rest of the number. */
  lemma MoreDigits(q: nat, k: nat, bias: nat, d: nat, next: nat)
    requires var t := Threshold(k, bias); t <= d < BASE && q - t == next * (BASE - t) + (d - t)
    ensures VarInt(q, k, bias) == [EncodeDigit(d)] + VarInt(next, k + BASE, bias)
  {
    var t := Threshold(k, bias);
    JsBits.DivUnique(q - t, BASE - t, next, d - t);
    assert q >= t by { assert next * (BASE - t) >= 0; }
  }

  lemma FirstDigits()
    ensures VarInt(105, 36, 72) == [0x39, 0x63, 0x61]
    ensures VarInt(56434, 36, 0) == [0x38, 0x34, 0x35, 0x37, 0x63]
    ensures VarInt(21108, 36, 89) == [0x64, 0x69, 0x72]
  {
    hide VarInt;
    LastDigit(0, 108, 72);
    MoreDigits(2, 72, 72, 2, 0);
    MoreDigits(105, 36, 72, 35, 2);
    LastDigit(2, 180, 0);
    MoreDigits(53, 144, 0, 33, 2);
    MoreDigits(561, 108, 0, 31, 53);
    MoreDigits(5640, 72, 0, 30, 561);
    MoreDigits(56434, 36, 0, 34, 5640);
    LastDigit(17, 108, 89);
    MoreDigits(603, 72, 89, 8, 17);
    MoreDigits(21108, 36, 89, 3, 603);
  }

  lemma SecondDigits()
    ensures VarInt(25957, 36, 72) == [0x77, 0x67, 0x76]
    ensures VarInt(654, 36, 23) == [0x37, 0x31, 0x61]
    ensures VarInt(27222, 36, 45) == [0x31, 0x31, 0x39, 0x65]
  {
    hide VarInt;
    LastDigit(21, 108, 72);
    MoreDigits(741, 72, 72, 6, 21);
    MoreDigits(25957, 36, 72, 22, 741);
    LastDigit(0, 108, 23);
    MoreDigits(27, 72, 23, 27, 0);
    MoreDigits(654, 36, 23, 33, 27);
    LastDigit(4, 144, 45);
    MoreDigits(75, 108, 45, 35, 4);
    MoreDigits(777, 72, 45, 27, 75);
    MoreDigits(27222, 36, 45, 27, 777);
  }

  lemma Biases()
    ensures Adapt(105, 1, true) == 0
    ensures Adapt(56434, 2, false) == 89
    ensures Adapt(25957, 1, true) == 23
    ensures Adapt(654, 2, false) == 45
  {
    assert Reduce(42325, 0) == Reduce(1209, 36) == Reduce(34, 72) == 89;
    assert Reduce(74, 0) == 23;
    assert Reduce(490, 0) == Reduce(14, 36) == 45;
  }

  lemma BelowThree(points: seq<CodePoint>, n: int)
    requires |points| == 3
    ensures |Below(points, n)| == (if points[0] < n then 1 else 0) + (if points[1] < n then 1 else 0) + (if points[2] < n then 1 else 0)
  {
    var one, two := points[1..], points[2..];
    assert one[0] == points[1] && one[1..] == two && two[0] == points[2] && two[1..] == [];
    assert |Below(two, n)| == (if points[2] < n then 1 else 0);
    assert |Below(one, n)| == (if points[1] < n then 1 else 0) + |Below(two, n)|;
  }

  lemma NoBasic(points: seq<CodePoint>)
    requires |Below(points, 0x80)| == 0
    ensures BasicUnits(points) == []
  {
    assert BasicUnits(points) == Below(points, 0x80);
  }

  predicate Ascending(points: seq<CodePoint>) {
    |points| == 3 && 0x80 <= points[0] < points[1] < points[2]
  }

  lemma Thirds(points: seq<CodePoint>)
    requires Ascending(points)
    ensures |Below(points, 0x80)| == 0 && |Below(points, points[0] + 1)| == 1 && |Below(points, points[1] + 1)| == 2
    ensures MinAtLeast(points, 0x80) == points[0]
    ensures MinAtLeast(points, points[0] + 1) == points[1]
    ensures MinAtLeast(points, points[1] + 1) == points[2]
  {
    hide Below, MinAtLeast;
    BelowThree(points, 0x80);
    BelowThree(points, points[0] + 1);
    BelowThree(points, points[1] + 1);
  }

  lemma PassOfThree(points: seq<CodePoint>, n: int, e: Encoder)
    requires |points| == 3
    ensures Pass(points, n, 0, e) ==
            Visit(points[2], n, 0, Visit(points[1], n, 0, Visit(points[0], n, 0, e)))
  {
    hide Visit;
    var one, two := points[1..], points[2..];
    assert one[0] == points[1] && one[1..] == two && two[0] == points[2] && two[1..] == [];
    var first := Visit(points[0], n, 0, e);
    var second := Visit(points[1], n, 0, first);
    assert Pass(two, n, 0, second) == Visit(points[2], n, 0, second);
    assert Pass(one, n, 0, first) == Pass(two, n, 0, second);
  }

  lemma FirstRound(points: seq<CodePoint>, m: nat)
    requires Ascending(points) && m == points[0]
    ensures |Below(points, 0x80)| == 0 && |Below(points, m + 1)| == 1
    ensures Encoded(points) ==
            Rounds(points, m + 1, 0, Encoder(VarInt(m - 0x80, 36, 72), 1, Adapt(m - 0x80, 1, true), 1))
  {
    hide VarInt, Adapt, Below, BasicUnits, MinAtLeast, Pass, Rounds;
    Thirds(points);
    NoBasic(points);
    var e := Encoder([], 0, 72, 0);
    assert Start(points) == e;
    PunycodeDecoder.RoundUnfolds(points, 0x80, 0, e);
    PassOfThree(points, m, e.(delta := m - 0x80));
    assert [] + VarInt(m - 0x80, 36, 72) == VarInt(m - 0x80, 36, 72);
  }

  lemma SecondRound(points: seq<CodePoint>, before: nat, m: nat, e: Encoder)
    requires Ascending(points) && before == points[0] && m == points[1]
    requires e.delta == e.handled == 1
    ensures |Below(points, before + 1)| == 1 && |Below(points, m + 1)| == 2
    ensures var delta := 2 * (m - before);
      Rounds(points, before + 1, 0, e) ==
      Rounds(points, m + 1, 0, Encoder(e.output + VarInt(delta, 36, e.bias), 1, Adapt(delta, 2, false), 2))
  {
    hide VarInt, Adapt, Below, MinAtLeast, Pass, Rounds;
    Thirds(points);
    PunycodeDecoder.RoundUnfolds(points, before + 1, 0, e);
    PassOfThree(points, m, e.(delta := 2 * (m - before) - 1));
  }

  lemma ThirdRound(points: seq<CodePoint>, before: nat, m: nat, e: Encoder)
    requires Ascending(points) && before == points[1] && m == points[2]
    requires e.delta == 1 && e.handled == 2
    ensures |Below(points, before + 1)| == 2
    ensures Rounds(points, before + 1, 0, e) == e.output + VarInt(3 * (m - before), 36, e.bias)
  {
    hide VarInt, Adapt, Below, MinAtLeast, Pass, Rounds;
    Thirds(points);
    PunycodeDecoder.RoundUnfolds(points, before + 1, 0, e);
    PassOfThree(points, m, e.(delta := 3 * (m - before) - 2));
    var after := Pass(points, m, 0, e.(delta := 3 * (m - before) - 2));
    PunycodeDecoder.RoundsDone(points, m + 1, 0, after.(delta := after.delta + 1));
  }

  /** Three code points in ascending order take three rounds of one delta each. */
  lemma ThreeRounds(points: seq<CodePoint>, d0: nat, d1: nat, d2: nat, bias: nat, last: nat)
    requires Ascending(points)
    requires d0 == points[0] as int - 0x80 && d1 == 2 * (points[1] - points[0]) as int && d2 == 3 * (points[2] - points[1]) as int
    requires bias == Adapt(d0, 1, true) && last == Adapt(d1, 2, false)
    ensures Encoded(points) == VarInt(d0, 36, 72) + VarInt(d1, 36, bias) + VarInt(d2, 36, last)
  {
    hide VarInt, Adapt, Below, Rounds, Encoded;
    FirstRound(points, points[0]);
    var first := Encoder(VarInt(d0, 36, 72), 1, bias, 1);
    SecondRound(points, points[0], points[1], first);
    ThirdRound(points, points[1], points[2], Encoder(first.output + VarInt(d1, 36, bias), 1, last, 2));
  }

  lemma Known(points: seq<CodePoint>)
    requires points == [0xE9, 0x6F22, 0x8A9E]
    ensures Encoded(points) == [0x39, 0x63, 0x61, 0x38, 0x34, 0x35, 0x37, 0x63, 0x64, 0x69, 0x72]
  {
    hide VarInt, Adapt, Encoded;
    FirstDigits();
    Biases();
    ThreeRounds(points, 105, 56434, 21108, 0, 89);
  }

  lemma KnownMiddle(points: seq<CodePoint>)
    requires points == [0x65E5, 0x672C, 0x8A9E]
    ensures Encoded(points) == [0x77, 0x67, 0x76, 0x37, 0x31, 0x61, 0x31, 0x31, 0x39, 0x65]
  {
    hide VarInt, Adapt, Encoded;
    SecondDigits();
    Biases();
    ThreeRounds(points, 25957, 654, 27222, 23, 45);
  }

  /** A single code point beyond ASCII is one delta. */
  lemma KnownSingle(points: seq<CodePoint>)
    requires points == [0xE9]
    ensures Encoded(points) == [0x39, 0x63, 0x61]
  {
    hide VarInt, Adapt, Rounds, BasicUnits;
    FirstDigits();
    assert points[1..] == [] && points[..0] == [];
    assert |Below(points, 0x80)| == 0 && |Below(points, 0xEA)| == 1;
    NoBasic(points);
    var e0 := Encoder([], 0, 72, 0);
    assert Start(points) == e0;
    PunycodeDecoder.RoundUnfolds(points, 0x80, 0, e0);
    var e1 := Pass(points, 0xE9, 0, e0.(delta := 105));
    assert Pass([], 0xE9, 0, Visit(0xE9, 0xE9, 0, e0.(delta := 105))) == e1;
    assert [] + VarInt(105, 36, 72) == VarInt(105, 36, 72);
    PunycodeDecoder.RoundsDone(points, 0xEA, 0, e1.(delta := e1.delta + 1));
  }
}
