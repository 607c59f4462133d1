/**
 The Punycode encoder of IdnUrl.ets against the decoder of RFC 3492, section 6.2.

 `Encoded` is the encoder as a function; `PunycodeEncode` is the source's loops.
 Rfc3492 is the decoder, with digits, thresholds and bias adaptation of its own; `ThresholdIs` and `AdaptIs`
 prove the encoder's equal to them.
 Numbers are unbounded here; `DeltaBound` shows how small the source's stay.
 */
module Punycode {
  import opened JsText
  import opened JsBits
  import opened Rfc3492
  import opened Unicode16

  const BASE := 36
  const TMIN := 1
  const TMAX := 26
  const SKEW := 38
  const DAMP := 700
  const INITIAL_BIAS := 72
  const INITIAL_N := 128

  // ---- Bias adaptation and thresholds (RFC 3492, sections 3.3 and 6.1)

  function Reduce(delta: nat, k: nat): nat {
    if delta > 455 then Reduce(delta / (BASE - TMIN), k + BASE)
    else k + 36 * delta / (delta + SKEW)
  }

  function Adapt(delta: nat, points: nat, firstTime: bool): nat
    requires points > 0
  {
    var damped := if firstTime then delta / DAMP else delta / 2;
    DivNat(damped, points);
    Reduce(damped + damped / points, 0)
  }

  method AdaptBias(deltaValue: nat, points: nat, firstTime: bool) returns (bias: nat)
    requires points > 0
    ensures bias == Adapt(deltaValue, points, firstTime)
  {
    var delta := if firstTime then deltaValue / DAMP else deltaValue / 2;
    DivNat(delta, points);
    delta := delta + delta / points;
    var k := 0;
    ghost var start := delta;
    while delta > ((BASE - TMIN) * TMAX) / 2
      invariant delta >= 0 && k >= 0
      invariant Reduce(start, 0) == Reduce(delta, k)
    {
      delta := delta / (BASE - TMIN);
      k := k + BASE;
    }
    bias := k + ((BASE - TMIN + 1) * delta) / (delta + SKEW);
  }

  function Threshold(k: nat, bias: nat): (t: nat)
    ensures TMIN <= t <= TMAX
  {
    if k <= bias then TMIN
    else if k >= bias + TMAX then TMAX
    else k - bias
  }

  // ---- Digits

  function EncodeDigit(value: nat): (u: Unit)
    requires value < BASE
  {
    if value < 26 then 97 + value else 22 + value
  }

  predicate IsDigit(u: Unit) { 97 <= u <= 122 || 48 <= u <= 57 }

  // ---- Generalized variable-length integers (RFC 3492, section 3.3)

  /** The digits the encoder writes for q, the first one at position k. */
  function VarInt(q: nat, k: nat, bias: nat): (digits: Text)
    ensures |digits| > 0
    ensures forall i | 0 <= i < |digits| :: IsDigit(digits[i])
    decreases q
  {
    var t := Threshold(k, bias);
    if q < t then [EncodeDigit(q)]
    else
      Shrinks(q, t);
      [EncodeDigit(t + (q - t) % (BASE - t))] + VarInt((q - t) / (BASE - t), k + BASE, bias)
  }

  lemma Shrinks(q: nat, t: nat)
    requires TMIN <= t <= TMAX && t <= q
    ensures 0 <= (q - t) / (BASE - t) < q
    ensures q == t + (q - t) % (BASE - t) + (BASE - t) * ((q - t) / (BASE - t))
  {
    var d, m := BASE - t, (q - t) / (BASE - t);
    assert d * m <= q - t;
    if m >= q {
      assert d * m >= m by { MulGrows(d, m); }
    }
  }

  lemma MulGrows(d: nat, m: nat)
    requires d >= 1
    ensures d * m >= m
  {
  }

  /** The threshold is k - bias, but at least 1 and at most 26, and so the decoder's. */
  lemma ThresholdIs(k: nat, bias: nat)
    ensures Threshold(k, bias) == if k - bias < 1 then 1 else if k - bias > 26 then 26 else k - bias
    ensures Threshold(k, bias) == ThresholdAt(k, bias)
  {
  }

  lemma {:induction false} ReduceIs(delta: nat, k: nat)
    ensures Reduce(delta, k) == BiasOf(delta, k)
  {
    if delta > 455 {
      ReduceIs(delta / 35, k + 36);
    }
  }

  /** The bias adaptation is the decoder's. */
  lemma AdaptIs(delta: nat, points: nat, firstTime: bool)
    requires points > 0
    ensures Adapt(delta, points, firstTime) == BiasAfter(delta, points, firstTime)
  {
    var damped := if firstTime then delta / DAMP else delta / 2;
    DivNat(damped, points);
    hide Reduce, BiasOf;
    ReduceIs(damped + damped / points, 0);
  }

  /** Reading what was written returns the number and leaves the rest of the input alone. */
  lemma {:induction false} VarIntInverse(q: nat, k: nat, bias: nat, i: nat, w: nat, rest: Text)
    ensures ReadVarInt(VarInt(q, k, bias) + rest, k, bias, i, w) == Some((i + q * w, rest))
    decreases q
  {
    hide ReadVarInt, EncodeDigit, VarInt, Threshold;
    var t := Threshold(k, bias);
    if q < t {
      VarIntLast(q, k, bias, rest);
      ReadDigit(q, [], rest, k, bias, i, w);
    } else {
      var r, m := (q - t) % (BASE - t), (q - t) / (BASE - t);
      VarIntStep(q, k, bias, rest);
      Weigh(q, t, w);
      ReadDigit(t + r, VarInt(m, k + BASE, bias), rest, k, bias, i, w);
      VarIntInverse(m, k + BASE, bias, i + (t + r) * w, w * (BASE - t), rest);
    }
  }

  lemma VarIntLast(q: nat, k: nat, bias: nat, rest: Text)
    requires q < Threshold(k, bias)
    ensures VarInt(q, k, bias) + rest == [EncodeDigit(q)] + [] + rest && [] + rest == rest
  {
  }

  /** The weight of q is the weight of its first digit and of the digits after it. */
  lemma Weigh(q: nat, t: nat, w: nat)
    requires TMIN <= t <= TMAX && t <= q
    ensures q * w == (t + (q - t) % (BASE - t)) * w + ((q - t) / (BASE - t)) * (w * (BASE - t))
  {
    Shrinks(q, t);
    Distribute(t + (q - t) % (BASE - t), BASE - t, (q - t) / (BASE - t), w);
  }

  lemma VarIntStep(q: nat, k: nat, bias: nat, rest: Text)
    requires q >= Threshold(k, bias)
    ensures var t := Threshold(k, bias);
      var r, m := (q - t) % (BASE - t), (q - t) / (BASE - t);
      && 0 <= m < q && 0 <= r < BASE - t
      && VarInt(q, k, bias) + rest == [EncodeDigit(t + r)] + VarInt(m, k + BASE, bias) + rest
  {
    Shrinks(q, Threshold(k, bias));
  }

  /** Reading one digit. */
  lemma ReadDigit(digit: nat, others: Text, rest: Text, k: nat, bias: nat, i: nat, w: nat)
    requires digit < BASE
    ensures var t := Threshold(k, bias);
      var input := [EncodeDigit(digit)] + others + rest;
      ReadVarInt(input, k, bias, i, w) ==
      if digit < t then Some((i + digit * w, others + rest))
      else ReadVarInt(others + rest, k + BASE, bias, i + digit * w, w * (BASE - t))
  {
    ThresholdIs(k, bias);
    var input := [EncodeDigit(digit)] + others + rest;
    assert input[1..] == others + rest;
  }

  lemma Distribute(a: nat, b: nat, m: nat, w: nat)
    ensures (a + b * m) * w == a * w + m * (w * b)
  {
  }

  /** Every digit but the last is at least its threshold, the last one is below it. */
  lemma {:induction false} VarIntShape(q: nat, k: nat, bias: nat, j: nat)
    requires j < |VarInt(q, k, bias)|
    ensures DigitValue(VarInt(q, k, bias)[j]).Some?
    ensures DigitValue(VarInt(q, k, bias)[j]).value < Threshold(k + j * BASE, bias) <==> j == |VarInt(q, k, bias)| - 1
    decreases q
  {
    var t := Threshold(k, bias);
    if q >= t {
      Shrinks(q, t);
      if j > 0 {
        VarIntShape((q - t) / (BASE - t), k + BASE, bias, j - 1);
        assert k + BASE + (j - 1) * BASE == k + j * BASE;
      }
    }
  }

  // ---- The code points below a limit, in order

  function Below(points: seq<int>, n: int): (r: seq<int>)
    ensures |r| <= |points|
  {
    if points == [] then []
    else
      var rest := Below(points[1..], n);
      if points[0] < n then [points[0]] + rest else rest
  }

  lemma {:induction false} BelowAppend(a: seq<int>, b: seq<int>, n: int)
    ensures Below(a + b, n) == Below(a, n) + Below(b, n)
  {
    if a == [] {
      assert a + b == b;
    } else {
      assert a + b == [a[0]] + (a[1..] + b);
      BelowAppend(a[1..], b, n);
    }
  }

  lemma {:induction false} BelowAll(points: seq<int>, n: int)
    requires |Below(points, n)| == |points|
    ensures Below(points, n) == points
  {
    if points != [] {
      BelowAll(points[1..], n);
    }
  }

  lemma {:induction false} BelowGap(points: seq<int>, n: int, m: int)
    requires n <= m
    requires forall i | 0 <= i < |points| :: points[i] < n || points[i] >= m
    ensures Below(points, m) == Below(points, n)
  {
    if points != [] {
      BelowGap(points[1..], n, m);
    }
  }

  /** If some point is not below n, fewer than all of them are. */
  lemma {:induction false} BelowMisses(points: seq<int>, n: int)
    ensures |Below(points, n)| < |points| <==> exists i :: 0 <= i < |points| && points[i] >= n
  {
    if points != [] {
      BelowMisses(points[1..], n);
      if i :| 0 <= i < |points| && points[i] >= n {
        if i > 0 {
          assert points[1..][i - 1] >= n;
        }
      }
      if |Below(points, n)| < |points| && points[0] < n {
        var i :| 0 <= i < |points[1..]| && points[1..][i] >= n;
        assert points[i + 1] >= n;
      }
    }
  }

  /** Raising the limit past a point that is present keeps more of them. */
  lemma {:induction false} BelowGrows(points: seq<int>, n: int, m: int)
    requires n <= m
    ensures |Below(points, n)| <= |Below(points, m + 1)|
    ensures m in points ==> |Below(points, n)| < |Below(points, m + 1)|
  {
    if points != [] {
      BelowGrows(points[1..], n, m);
    }
  }

  const NO_POINT := 0x7FFF_FFFF

  /** The least value that is at least `minimum`. */
  function MinAtLeast(values: seq<int>, minimum: int): (r: int)
    ensures r <= NO_POINT
    ensures r == NO_POINT || (r in values && r >= minimum)
    ensures forall i | 0 <= i < |values| :: minimum <= values[i] ==> r <= values[i] || r == NO_POINT
    ensures forall i | 0 <= i < |values| :: minimum <= values[i] < NO_POINT ==> r <= values[i]
  {
    if values == [] then NO_POINT
    else
      var last := values[|values| - 1];
      var r := MinAtLeast(values[..|values| - 1], minimum);
      if minimum <= last < r then last else r
  }

  method MinCodePointAtLeast(values: seq<int>, minimum: int) returns (result: int)
    ensures result == MinAtLeast(values, minimum)
  {
    result := NO_POINT;
    for index := 0 to |values|
      invariant result == MinAtLeast(values[..index], minimum)
    {
      assert values[..index + 1][..index] == values[..index];
      var value := values[index];
      if value >= minimum && value < result {
        result := value;
      }
    }
    assert values[..|values|] == values;
  }

  // ---- The encoder (RFC 3492, section 6.3)

  datatype Encoder = Encoder(output: Text, delta: nat, bias: nat, handled: nat)

  function Visit(value: int, n: int, basicLength: nat, e: Encoder): Encoder {
    if value < n then e.(delta := e.delta + 1)
    else if value == n then
      Encoder(e.output + VarInt(e.delta, BASE, e.bias), 0,
              Adapt(e.delta, e.handled + 1, e.handled == basicLength), e.handled + 1)
    else e
  }

  /** One pass over the code points with the limit n. */
  function Pass(points: seq<int>, n: int, basicLength: nat, e: Encoder): Encoder {
    if points == [] then e
    else Pass(points[1..], n, basicLength, Visit(points[0], n, basicLength, e))
  }

  lemma {:induction false} PassHandles(points: seq<int>, n: int, basicLength: nat, e: Encoder)
    ensures Pass(points, n, basicLength, e).handled == e.handled + |Below(points, n + 1)| - |Below(points, n)|
  {
    if points != [] {
      PassHandles(points[1..], n, basicLength, Visit(points[0], n, basicLength, e));
    }
  }

  /** Each pass starts with every code point below n handled and handles at least one more. */
  lemma NextPass(points: seq<CodePoint>, n: int, basicLength: nat, e: Encoder)
    requires e.handled == |Below(points, n)| < |points|
    ensures var m := MinAtLeast(points, n);
      && n <= m <= 0x10FFFF && m in points
      && Below(points, m) == Below(points, n)
      && Pass(points, m, basicLength, e).handled == |Below(points, m + 1)|
      && e.handled < |Below(points, m + 1)| <= |points|
  {
    BelowMisses(points, n);
    var m := MinAtLeast(points, n);
    BelowGap(points, n, m);
    PassHandles(points, m, basicLength, e);
    BelowGrows(points, n, m);
  }

  function Jump(e: Encoder, n: int, m: int): Encoder
    requires n <= m
  {
    JumpIsNat(m - n, e.handled + 1);
    e.(delta := e.delta + (m - n) * (e.handled + 1))
  }

  lemma JumpIsNat(a: nat, b: nat)
    ensures a * b >= 0
  {
  }

  function Rounds(points: seq<CodePoint>, n: int, basicLength: nat, e: Encoder): Text
    requires e.handled == |Below(points, n)|
    decreases |points| - e.handled
  {
    if e.handled >= |points| then e.output
    else
      var m := MinAtLeast(points, n);
      NextPass(points, n, basicLength, e);
      var jumped := Jump(e, n, m);
      NextPass(points, n, basicLength, jumped);
      var after := Pass(points, m, basicLength, jumped);
      Rounds(points, m + 1, basicLength, after.(delta := after.delta + 1))
  }

  function BasicPart(points: seq<CodePoint>): Text {
    var basic := Below(points, 0x80);
    BasicUnits(points) + (if 0 < |basic| < |points| then [HYPHEN] else [])
  }

  function BasicUnits(points: seq<CodePoint>): (units: Text)
    ensures units == Below(points, 0x80)
  {
    if points == [] then []
    else if points[0] < 0x80 then FromCodePoint(points[0]) + BasicUnits(points[1..])
    else BasicUnits(points[1..])
  }

  function Start(points: seq<CodePoint>): Encoder {
    Encoder(BasicPart(points), 0, INITIAL_BIAS, |Below(points, 0x80)|)
  }

  function Encoded(points: seq<CodePoint>): Text {
    Rounds(points, INITIAL_N, |Below(points, 0x80)|, Start(points))
  }

  // ---- The loops of the source

  /** The k loop: the digits of one delta. */
  method EncodeDelta(delta: nat, bias: nat) returns (digits: Text)
    ensures digits == VarInt(delta, BASE, bias)
  {
    digits := [];
    var q, k := delta, BASE;
    while q >= Threshold(k, bias)
      invariant q >= 0 && k >= 0
      invariant VarInt(delta, BASE, bias) == digits + VarInt(q, k, bias)
      decreases q
    {
      var t := Threshold(k, bias);
      Shrinks(q, t);
      digits := digits + [EncodeDigit(t + (q - t) % (BASE - t))];
      q, k := (q - t) / (BASE - t), k + BASE;
    }
    digits := digits + [EncodeDigit(q)];
  }

  /** What delta can reach while `position` code points up to n lie behind the scan. */
  ghost predicate DeltaInRange(delta: nat, n: int, handled: nat, position: nat) {
    n >= INITIAL_N && delta <= (n - INITIAL_N) * (handled + 1) + position
  }

  /** Far below 2^53 for every string length, so the source's doubles stay exact. */
  lemma DeltaBound(delta: nat, n: int, handled: nat, position: nat, length: nat)
    requires DeltaInRange(delta, n, handled, position)
    requires n <= 0x110000 && handled <= length && position <= length
    ensures delta < 0x110000 * (length + 1)
  {
    var span := n - INITIAL_N;
    assert span * (handled + 1) <= (0x110000 - 128) * (handled + 1) by { MulMonotone(span, 0x110000 - 128, handled + 1); }
  }

  lemma MulMonotone(a: int, b: int, c: nat)
    requires a <= b
    ensures a * c <= b * c
  {
  }

  lemma DeltaJump(e: Encoder, n: int, m: int)
    requires n <= m && DeltaInRange(e.delta, n, e.handled, 0)
    ensures DeltaInRange(Jump(e, n, m).delta, m, e.handled, 0)
  {
    assert (n - INITIAL_N) * (e.handled + 1) + (m - n) * (e.handled + 1) == (m - INITIAL_N) * (e.handled + 1);
  }

  /** One step of the inner loop keeps delta in range. */
  lemma DeltaVisit(points: seq<CodePoint>, index: nat, n: int, basicLength: nat, e: Encoder)
    requires index < |points|
    requires DeltaInRange(e.delta, n, e.handled, |Below(points[..index], n + 1)|)
    ensures var next := Visit(points[index], n, basicLength, e);
      DeltaInRange(next.delta, n, next.handled, |Below(points[..index + 1], n + 1)|)
  {
    BelowStep(points, index, n + 1);
    var next := Visit(points[index], n, basicLength, e);
    JumpIsNat(n - INITIAL_N, next.handled + 1);
  }

  lemma BelowStep(points: seq<int>, index: nat, n: int)
    requires index < |points|
    ensures Below(points[..index + 1], n) == Below(points[..index], n) + (if points[index] < n then [points[index]] else [])
  {
    assert points[..index + 1] == points[..index] + [points[index]];
    BelowAppend(points[..index], [points[index]], n);
  }

  /** The first loop: the basic code points, in order. */
  method CopyBasic(codePoints: seq<CodePoint>) returns (output: Text, handled: nat)
    ensures output == BasicUnits(codePoints)
    ensures handled == |Below(codePoints, 0x80)|
  {
    hide BasicUnits, Below, FromCodePoint;
    output, handled := [], 0;
    for index := 0 to |codePoints|
      invariant BasicUnits(codePoints) == output + BasicUnits(codePoints[index..])
      invariant |Below(codePoints, 0x80)| == handled + |Below(codePoints[index..], 0x80)|
    {
      var value := codePoints[index];
      BasicStep(codePoints[index..]);
      assert codePoints[index..][1..] == codePoints[index + 1..];
      ghost var before, rest := output, BasicUnits(codePoints[index + 1..]);
      if value < 0x80 {
        assert before + ([value] + rest) == before + [value] + rest;
        output := output + FromCodePoint(value);
        handled := handled + 1;
      }
    }
    BasicStep(codePoints[|codePoints|..]);
  }

  lemma BasicStep(points: seq<CodePoint>)
    ensures points == [] ==> BasicUnits(points) == [] && |Below(points, 0x80)| == 0
    ensures points != [] && points[0] < 0x80 ==>
      && BasicUnits(points) == [points[0]] + BasicUnits(points[1..])
      && |Below(points, 0x80)| == 1 + |Below(points[1..], 0x80)|
    ensures points != [] && points[0] >= 0x80 ==>
      && BasicUnits(points) == BasicUnits(points[1..])
      && |Below(points, 0x80)| == |Below(points[1..], 0x80)|
  {
  }

  /** The inner loop over the code points, for the limit n. */
  method EncodePass(codePoints: seq<CodePoint>, n: int, basicLength: nat, e: Encoder) returns (after: Encoder)
    requires n <= 0x10FFFF && e.handled == |Below(codePoints, n)|
    requires DeltaInRange(e.delta, n, e.handled, 0)
    ensures after == Pass(codePoints, n, basicLength, e)
    ensures after.handled == |Below(codePoints, n + 1)|
    ensures DeltaInRange(after.delta, n, after.handled, after.handled)
    ensures after.delta < 0x110000 * (|codePoints| + 1)
  {
    var output: Text, delta: nat, bias: nat, handled: nat := e.output, e.delta, e.bias, e.handled;
    for index := 0 to |codePoints|
      invariant Pass(codePoints, n, basicLength, e) ==
                Pass(codePoints[index..], n, basicLength, Encoder(output, delta, bias, handled))
      invariant DeltaInRange(delta, n, handled, |Below(codePoints[..index], n + 1)|)
      invariant handled <= |codePoints|
    {
      ghost var before := Encoder(output, delta, bias, handled);
      assert codePoints[index..][1..] == codePoints[index + 1..];
      PassHandles(codePoints[index + 1..], n, basicLength, Visit(codePoints[index], n, basicLength, before));
      PassHandles(codePoints, n, basicLength, e);
      BelowGrows(codePoints[index + 1..], n, n);
      DeltaVisit(codePoints, index, n, basicLength, before);
      var value := codePoints[index];
      if value < n {
        delta := delta + 1;
      } else if value == n {
        var digits := EncodeDelta(delta, bias);
        output := output + digits;
        bias := AdaptBias(delta, handled + 1, handled == basicLength);
        delta := 0;
        handled := handled + 1;
      }
      DeltaBound(delta, n, handled, |Below(codePoints[..index + 1], n + 1)|, |codePoints|);
    }
    after := Encoder(output, delta, bias, handled);
    PassHandles(codePoints, n, basicLength, e);
    assert codePoints[..|codePoints|] == codePoints;
    DeltaBound(delta, n, handled, handled, |codePoints|);
  }

  /** An outer iteration finds a real code point and jumps to it. */
  lemma RoundStart(points: seq<CodePoint>, n: int, e: Encoder)
    requires e.handled == |Below(points, n)| < |points|
    requires DeltaInRange(e.delta, n, e.handled, 0)
    ensures var m := MinAtLeast(points, n);
      && n <= m <= 0x10FFFF && m in points
      && e.handled == |Below(points, m)|
      && DeltaInRange(Jump(e, n, m).delta, m, e.handled, 0)
  {
    NextPass(points, n, 0, e);
    DeltaJump(e, n, MinAtLeast(points, n));
  }

  /** It then handles at least one more code point and is back at the loop's invariant. */
  lemma RoundEnd(points: seq<CodePoint>, n: int, basicLength: nat, e: Encoder, m: int, after: Encoder)
    requires e.handled == |Below(points, n)| < |points|
    requires m == MinAtLeast(points, n) && n <= m
    requires after == Pass(points, m, basicLength, Jump(e, n, m))
    requires DeltaInRange(after.delta, m, after.handled, after.handled)
    ensures e.handled < after.handled == |Below(points, m + 1)|
    ensures DeltaInRange(after.delta + 1, m + 1, after.handled, 0)
    ensures Rounds(points, n, basicLength, e) == Rounds(points, m + 1, basicLength, after.(delta := after.delta + 1))
  {
    NextPass(points, n, basicLength, Jump(e, n, m));
    var h := after.handled + 1;
    assert (m - INITIAL_N) * h + h == (m + 1 - INITIAL_N) * h;
  }

  /** One iteration of the outer loop. */
  method EncodeRound(codePoints: seq<CodePoint>, n: int, basicLength: nat, e: Encoder)
    returns (m: int, after: Encoder)
    requires e.handled == |Below(codePoints, n)| < |codePoints|
    requires DeltaInRange(e.delta, n, e.handled, 0)
    ensures n <= m <= 0x10FFFF
    ensures e.handled < after.handled == |Below(codePoints, m + 1)|
    ensures DeltaInRange(after.delta, m + 1, after.handled, 0)
    ensures Rounds(codePoints, n, basicLength, e) == Rounds(codePoints, m + 1, basicLength, after)
  {
    m := MinCodePointAtLeast(codePoints, n);
    RoundStart(codePoints, n, e);
    var jumped := e.(delta := e.delta + (m - n) * (e.handled + 1));
    var passed := EncodePass(codePoints, m, basicLength, jumped);
    RoundEnd(codePoints, n, basicLength, e, m, passed);
    after := passed.(delta := passed.delta + 1);
  }

  /** The outer loop. */
  method EncodeRounds(codePoints: seq<CodePoint>, start: Encoder) returns (output: Text)
    requires start.delta == 0 && start.handled == |Below(codePoints, INITIAL_N)|
    ensures output == Rounds(codePoints, INITIAL_N, start.handled, start)
  {
    hide Below, MinAtLeast, Pass, Jump;
    var basicLength := start.handled;
    var n: int, e := INITIAL_N, start;
    while e.handled < |codePoints|
      invariant e.handled == |Below(codePoints, n)|
      invariant DeltaInRange(e.delta, n, e.handled, 0)
      invariant Rounds(codePoints, INITIAL_N, basicLength, start) == Rounds(codePoints, n, basicLength, e)
      decreases |codePoints| - e.handled
    {
      var m, after := EncodeRound(codePoints, n, basicLength, e);
      n, e := m + 1, after;
    }
    output := e.output;
  }

  method PunycodeEncode(text: Text) returns (output: Text)
    ensures output == Encoded(CodePoints(text))
  {
    var codePoints := CodePointsFromString(text);
    var handled: nat;
    output, handled := CopyBasic(codePoints);
    var basicLength := handled;
    if basicLength > 0 && handled < |codePoints| {
      output := output + [HYPHEN];
    }
    assert Encoder(output, 0, INITIAL_BIAS, handled) == Start(codePoints);
    output := EncodeRounds(codePoints, Start(codePoints));
  }
}
