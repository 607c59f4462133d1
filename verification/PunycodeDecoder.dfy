/** The proof that the decoder of RFC 3492 inverts the encoder. */
module PunycodeDecoder {
  import opened JsText
  import opened JsBits
  import opened Rfc3492
  import opened Unicode16
  import opened Punycode

  // ---- Running on a longer input

  lemma {:induction false} ReadExtends(input: Text, more: Text, k: nat, bias: nat, i: nat, w: nat)
    requires ReadVarInt(input, k, bias, i, w).Some?
    ensures var r := ReadVarInt(input, k, bias, i, w).value;
      ReadVarInt(input + more, k, bias, i, w) == Some((r.0, r.1 + more))
  {
    hide DigitValue, ThresholdAt;
    assert input + more == [input[0]] + (input[1..] + more);
    var digit := DigitValue(input[0]).value;
    var t := ThresholdAt(k, bias);
    if digit >= t {
      ReadExtends(input[1..], more, k + BASE, bias, i + digit * w, w * (BASE - t));
    }
  }

  lemma {:induction false} RunAppend(input: Text, more: Text, d: Decoder)
    requires Run(input, d).Some?
    ensures Run(input + more, d) == Run(more, Run(input, d).value)
    decreases |input|
  {
    if input == [] {
      assert input + more == more;
    } else {
      ReadExtends(input, more, BASE, d.bias, d.i, 1);
      var read := ReadVarInt(input, BASE, d.bias, d.i, 1).value;
      RunAppend(read.1, more, Insert(d, read.0));
    }
  }

  // ---- The decoder follows the encoder

  /** The code points inserted so far when the scan for n stands at p. */
  function Kept(points: seq<int>, p: nat, n: int): seq<int>
    requires p <= |points|
  {
    Below(points[..p], n + 1) + Below(points[p..], n)
  }

  /** How many of them precede the scan position. */
  function Behind(points: seq<int>, p: nat, n: int): nat
    requires p <= |points|
  {
    |Below(points[..p], n + 1)|
  }

  /**
   Decoding what has been written yields exactly the code points inserted so far, and delta
   is the number of decoder states between the last insertion and (n, position).
   */
  ghost predicate Follows(d: Decoder, e: Encoder, points: seq<int>, p: nat, n: int, basicLength: nat)
    requires p <= |points|
  {
    && d.out == Kept(points, p, n)
    && |d.out| == e.handled
    && d.bias == e.bias
    && (d.i == 0 <==> e.handled == basicLength)
    && d.n * (e.handled + 1) + d.i + e.delta == n * (e.handled + 1) + Behind(points, p, n)
  }

  /** The text is the basic part followed by digits that decode to d. */
  ghost predicate Wrote(output: Text, basic: Text, start: Decoder, d: Decoder) {
    && |basic| <= |output| && output[..|basic|] == basic
    && (forall i | |basic| <= i < |output| :: IsDigit(output[i]))
    && Run(output[|basic|..], start) == Some(d)
  }

  lemma SplitAt(points: seq<int>, p: nat, n: int)
    requires p < |points|
    ensures var v := points[p];
      && Below(points[..p + 1], n + 1) == (if v <= n then Below(points[..p], n + 1) + [v] else Below(points[..p], n + 1))
      && Below(points[p..], n) == (if v < n then [v] + Below(points[p + 1..], n) else Below(points[p + 1..], n))
  {
    BelowStep(points, p, n + 1);
    assert points[p..][1..] == points[p + 1..];
  }

  lemma KeptStep(points: seq<int>, p: nat, n: int)
    requires p < |points|
    ensures points[p] != n ==> Kept(points, p + 1, n) == Kept(points, p, n)
    ensures points[p] == n ==>
      var at := Behind(points, p, n);
      && at <= |Kept(points, p, n)|
      && Kept(points, p + 1, n) == Kept(points, p, n)[..at] + [n] + Kept(points, p, n)[at..]
    ensures Behind(points, p + 1, n) == Behind(points, p, n) + (if points[p] <= n then 1 else 0)
  {
    hide Below;
    SplitAt(points, p, n);
    var before, after := Below(points[..p], n + 1), Below(points[p + 1..], n);
    if points[p] < n {
      assert before + ([points[p]] + after) == (before + [points[p]]) + after;
    } else if points[p] == n {
      assert Kept(points, p, n) == before + after;
      assert (before + after)[..|before|] == before && (before + after)[|before|..] == after;
    }
  }

  /** A delta that leads from the decoder's state to (n, at) decodes to an insertion of n there. */
  lemma InsertLands(d: Decoder, delta: nat, n: int, at: nat)
    requires at <= |d.out|
    requires d.n * (|d.out| + 1) + d.i + delta == n * (|d.out| + 1) + at
    ensures Insert(d, d.i + delta) ==
            Decoder(d.out[..at] + [n] + d.out[at..], n, at + 1, Adapt(delta, |d.out| + 1, d.i == 0))
  {
    AdaptIs(delta, |d.out| + 1, d.i == 0);
    hide Adapt, BiasAfter;
    var places := |d.out| + 1;
    assert d.i + delta == (n - d.n) * places + at by { SubMul(n, d.n, places); }
    DivUnique(d.i + delta, places, n - d.n, at);
  }

  lemma SubMul(a: int, b: int, c: int)
    ensures (a - b) * c == a * c - b * c
  {
  }

  /** A written delta is read back and inserted. */
  lemma RunVarInt(d: Decoder, delta: nat)
    ensures Run(VarInt(delta, BASE, d.bias), d) == Some(Insert(d, d.i + delta))
  {
    hide ReadVarInt, VarInt, Insert;
    var digits := VarInt(delta, BASE, d.bias);
    VarIntInverse(delta, BASE, d.bias, d.i, 1, []);
    assert digits + [] == digits;
  }

  lemma {:induction false} Emission(d: Decoder, e: Encoder, points: seq<CodePoint>, p: nat, n: int, basicLength: nat)
    requires p < |points| && points[p] == n && basicLength <= e.handled
    requires Follows(d, e, points, p, n, basicLength)
    ensures Follows(Insert(d, d.i + e.delta), Visit(n, n, basicLength, e), points, p + 1, n, basicLength)
  {
    hide Below, Adapt, VarInt, Kept, Behind, Insert;
    KeptStep(points, p, n);
    InsertLands(d, e.delta, n, Behind(points, p, n));
  }

  lemma Skip(d: Decoder, e: Encoder, points: seq<CodePoint>, p: nat, n: int, basicLength: nat)
    requires p < |points| && points[p] != n
    requires Follows(d, e, points, p, n, basicLength)
    ensures Follows(d, Visit(points[p], n, basicLength, e), points, p + 1, n, basicLength)
  {
    hide Below, Adapt, VarInt, Kept, Behind;
    KeptStep(points, p, n);
  }

  lemma WroteMore(output: Text, basic: Text, start: Decoder, d: Decoder, delta: nat)
    requires Wrote(output, basic, start, d)
    ensures Wrote(output + VarInt(delta, BASE, d.bias), basic, start, Insert(d, d.i + delta))
  {
    hide VarInt, Insert, Run;
    var digits := VarInt(delta, BASE, d.bias);
    assert (output + digits)[|basic|..] == output[|basic|..] + digits;
    RunAppend(output[|basic|..], digits, start);
    RunVarInt(d, delta);
  }

  /** One pass over the code points from position p keeps decoder and encoder together. */
  lemma {:induction false} PassFollows(d: Decoder, e: Encoder, points: seq<CodePoint>, p: nat, n: int, basicLength: nat,
                                       basic: Text, start: Decoder)
    returns (last: Decoder)
    requires p <= |points| && basicLength <= e.handled
    requires Follows(d, e, points, p, n, basicLength) && Wrote(e.output, basic, start, d)
    ensures var after := Pass(points[p..], n, basicLength, e);
      && Follows(last, after, points, |points|, n, basicLength)
      && Wrote(after.output, basic, start, last) && basicLength <= after.handled
    decreases |points| - p
  {
    if p == |points| {
      last := d;
    } else {
      hide Below, Adapt, VarInt, Kept, Behind, Insert, Follows, Wrote;
      assert points[p..][0] == points[p] && points[p..][1..] == points[p + 1..];
      var next := d;
      if points[p] == n {
        WroteMore(e.output, basic, start, d, e.delta);
        Emission(d, e, points, p, n, basicLength);
        next := Insert(d, d.i + e.delta);
      } else {
        Skip(d, e, points, p, n, basicLength);
      }
      last := PassFollows(next, Visit(points[p], n, basicLength, e), points, p + 1, n, basicLength, basic, start);
    }
  }

  lemma FollowsJump(d: Decoder, e: Encoder, points: seq<CodePoint>, n: int, m: int, basicLength: nat)
    requires n <= m && Below(points, m) == Below(points, n)
    requires Follows(d, e, points, 0, n, basicLength)
    ensures Follows(d, Jump(e, n, m), points, 0, m, basicLength)
  {
    hide Below;
    assert points[..0] == [] && points[0..] == points;
    BelowEmpty(n + 1);
    BelowEmpty(m + 1);
    SubMul(m, n, e.handled + 1);
  }

  lemma BelowEmpty(n: int)
    ensures Below([], n) == []
  {
  }

  /** A finished pass for m is the start of the pass for m + 1. */
  lemma FollowsNext(d: Decoder, e: Encoder, points: seq<CodePoint>, m: int, basicLength: nat)
    requires Follows(d, e, points, |points|, m, basicLength)
    ensures Follows(d, e.(delta := e.delta + 1), points, 0, m + 1, basicLength)
  {
    hide Below;
    assert points[..0] == [] && points[0..] == points;
    assert points[..|points|] == points && points[|points|..] == [];
    BelowEmpty(m);
    BelowEmpty(m + 2);
    var h := e.handled + 1;
    assert m * h + h == (m + 1) * h by { SubMul(m + 1, m, h); }
  }

  lemma RoundUnfolds(points: seq<CodePoint>, n: int, basicLength: nat, e: Encoder)
    requires e.handled == |Below(points, n)| < |points|
    ensures var m := MinAtLeast(points, n);
      && n <= m && Below(points, m) == Below(points, n)
      && var after := Pass(points, m, basicLength, Jump(e, n, m));
      && e.handled < after.handled == |Below(points, m + 1)|
      && Rounds(points, n, basicLength, e) == Rounds(points, m + 1, basicLength, after.(delta := after.delta + 1))
  {
    hide Below, Pass;
    NextPass(points, n, basicLength, e);
    NextPass(points, n, basicLength, Jump(e, n, MinAtLeast(points, n)));
  }

  /** One round: the jump to m, the pass for m, and the step to m + 1. */
  lemma RoundFollows(d: Decoder, e: Encoder, points: seq<CodePoint>, n: int, m: int, basicLength: nat,
                     basic: Text, start: Decoder)
    returns (last: Decoder)
    requires n <= m && Below(points, m) == Below(points, n) && basicLength <= e.handled
    requires Follows(d, e, points, 0, n, basicLength) && Wrote(e.output, basic, start, d)
    ensures var after := Pass(points, m, basicLength, Jump(e, n, m));
      && Follows(last, after.(delta := after.delta + 1), points, 0, m + 1, basicLength)
      && Wrote(after.output, basic, start, last) && basicLength <= after.handled
  {
    hide Below, Pass, Follows, Wrote, Jump;
    assert points[0..] == points;
    FollowsJump(d, e, points, n, m, basicLength);
    JumpKeeps(e, n, m);
    last := PassFollows(d, Jump(e, n, m), points, 0, m, basicLength, basic, start);
    FollowsNext(last, Pass(points, m, basicLength, Jump(e, n, m)), points, m, basicLength);
  }

  /** When every round is done, the text decodes to all the code points. */
  lemma {:induction false} RoundsFollow(d: Decoder, e: Encoder, points: seq<CodePoint>, n: int, basicLength: nat,
                                        basic: Text, start: Decoder)
    returns (last: Decoder)
    requires e.handled == |Below(points, n)| && basicLength <= e.handled
    requires Follows(d, e, points, 0, n, basicLength) && Wrote(e.output, basic, start, d)
    ensures Wrote(Rounds(points, n, basicLength, e), basic, start, last) && last.out == points
    decreases |points| - e.handled
  {
    hide Below, Pass, Follows, Wrote, Rounds, Jump, MinAtLeast;
    if e.handled >= |points| {
      last := d;
      FollowedAll(d, e, points, n, basicLength);
      RoundsDone(points, n, basicLength, e);
    } else {
      RoundUnfolds(points, n, basicLength, e);
      var m := MinAtLeast(points, n);
      var next := RoundFollows(d, e, points, n, m, basicLength, basic, start);
      var after := Pass(points, m, basicLength, Jump(e, n, m));
      last := RoundsFollow(next, after.(delta := after.delta + 1), points, m + 1, basicLength, basic, start);
    }
  }

  lemma RoundsDone(points: seq<CodePoint>, n: int, basicLength: nat, e: Encoder)
    requires e.handled == |Below(points, n)| >= |points|
    ensures Rounds(points, n, basicLength, e) == e.output
  {
  }

  lemma FollowedAll(d: Decoder, e: Encoder, points: seq<CodePoint>, n: int, basicLength: nat)
    requires e.handled == |Below(points, n)| >= |points|
    requires Follows(d, e, points, 0, n, basicLength)
    ensures d.out == points
  {
    assert points[..0] == [] && points[0..] == points;
    BelowAll(points, n);
  }

  lemma JumpKeeps(e: Encoder, n: int, m: int)
    requires n <= m
    ensures Jump(e, n, m).output == e.output && Jump(e, n, m).handled == e.handled
  {
  }

  lemma {:induction false} BasicIsAscii(points: seq<CodePoint>)
    ensures forall u | u in BasicUnits(points) :: u < 0x80
  {
    if points != [] {
      BasicIsAscii(points[1..]);
    }
  }

  /** What the encoder wrote: the basic part, then digits without a delimiter. */
  lemma EncodedParts(points: seq<CodePoint>) returns (last: Decoder)
    requires exists i :: 0 <= i < |points| && points[i] >= 0x80
    ensures Wrote(Encoded(points), BasicPart(points), Initial(BasicUnits(points)), last) && last.out == points
    ensures BasicPart(points) == BasicUnits(points) + (if BasicUnits(points) == [] then [] else [HYPHEN])
  {
    hide Rounds, MinAtLeast, Pass;
    BelowMisses(points, 0x80);
    var basicLength := |Below(points, 0x80)|;
    var start := Initial(BasicUnits(points));
    assert points[..0] == [] && points[0..] == points;
    last := RoundsFollow(start, Start(points), points, INITIAL_N, basicLength, BasicPart(points), start);
  }

  /** Where the decoder splits a basic part from delimiter-free digits. */
  lemma DecodeSplits(basic: Text, digits: Text)
    requires HYPHEN !in digits && forall u | u in basic :: u < 0x80
    ensures Decode(basic + (if basic == [] then [] else [HYPHEN]) + digits) ==
            match Run(digits, Initial(basic)) case None => None case Some(d) => Some(d.out)
  {
    hide Run;
    var input := basic + (if basic == [] then [] else [HYPHEN]) + digits;
    if basic == [] {
      assert input == digits && input[0..] == digits;
      assert LastIndexOf(input, HYPHEN) == -1;
    } else {
      assert input[|basic|] == HYPHEN;
      assert forall j | |basic| < j < |input| :: input[j] == digits[j - |basic| - 1];
      assert LastIndexOf(input, HYPHEN) == |basic|;
      assert input[..|basic|] == basic && input[|basic| + 1..] == digits;
    }
  }

  /**
   The decoder of the standard inverts the encoder on every list of code points that is
   not all ASCII, surrogates that stand alone included.
   */
  lemma {:induction false} RoundTrip(points: seq<CodePoint>)
    requires exists i :: 0 <= i < |points| && points[i] >= 0x80
    ensures Decode(Encoded(points)) == Some(points)
  {
    hide Encoded, BasicPart, BasicUnits, Run, Decode;
    var last := EncodedParts(points);
    var basic, part := BasicUnits(points), BasicPart(points);
    var digits := Encoded(points)[|part|..];
    assert Encoded(points) == part + digits;
    BasicIsAscii(points);
    DecodeSplits(basic, digits);
  }

  /** The encoding is the basic code points, a delimiter if there are any, and digits. */
  lemma EncodedShape(points: seq<CodePoint>) returns (digits: Text)
    requires exists i :: 0 <= i < |points| && points[i] >= 0x80
    ensures Encoded(points) == BasicPart(points) + digits
    ensures forall i | 0 <= i < |digits| :: IsDigit(digits[i])
    ensures BasicPart(points) == BasicUnits(points) + (if BasicUnits(points) == [] then [] else [HYPHEN])
  {
    hide Encoded, BasicPart, BasicUnits, Run;
    var last := EncodedParts(points);
    digits := Encoded(points)[|BasicPart(points)|..];
  }

  /** The encoding of a label decodes to the label's code points and so to the label. */
  lemma {:induction false} LabelRoundTrip(text: Text)
    requires NotAscii(text)
    ensures Decode(Encoded(CodePoints(text))) == Some(CodePoints(text))
    ensures UnitsOf(CodePoints(text)) == text
  {
    hide Decode, Encoded, CodePoints;
    AsciiPoints(text);
    RoundTrip(CodePoints(text));
    UnitsOfCodePoints(text);
  }

  /** Two different labels that are not ASCII never get the same encoding. */
  lemma {:induction false} EncodingInjective(a: Text, b: Text)
    requires NotAscii(a) && NotAscii(b)
    requires Encoded(CodePoints(a)) == Encoded(CodePoints(b))
    ensures a == b
  {
    hide Decode, Encoded, CodePoints;
    LabelRoundTrip(a);
    LabelRoundTrip(b);
  }
}
