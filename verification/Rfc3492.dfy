/**
 The Punycode decoder of RFC 3492, section 6.2, in the numbers of the RFC and apart from the encoder.
 Its overflow checks (section 6.4) are absent because numbers are unbounded.
 */
module Rfc3492 {
  import opened JsText
  import JsBits

  /** Section 5: either case of a letter is accepted. */
  function DigitValue(u: Unit): (d: Option<nat>)
    ensures d.Some? ==> d.value < 36
  {
    if 97 <= u <= 122 then Some(u - 97)
    else if 65 <= u <= 90 then Some(u - 65)
    else if 48 <= u <= 57 then Some(u - 22)
    else None
  }

  /** Section 6.2: k - bias, but at least tmin = 1 and at most tmax = 26. */
  function ThresholdAt(k: nat, bias: nat): (t: nat)
    ensures 1 <= t <= 26
  {
    var least := if k - bias < 26 then k - bias else 26;
    if least > 1 then least else 1
  }

  /** Section 6.1: divisions by 35 until delta is at most 455, 36 for each. */
  function BiasOf(delta: nat, k: nat): nat {
    if delta <= 455 then k + 36 * delta / (delta + 38) else BiasOf(delta / 35, k + 36)
  }

  function BiasAfter(delta: nat, points: nat, firstTime: bool): nat
    requires points > 0
  {
    var damped := if firstTime then delta / 700 else delta / 2;
    JsBits.DivNat(damped, points);
    BiasOf(damped + damped / points, 0)
  }

  /** One variable-length integer (section 3.3), with the accumulator i and the weight w. */
  function ReadVarInt(input: Text, k: nat, bias: nat, i: nat, w: nat): (r: Option<(nat, Text)>)
    ensures r.Some? ==> |r.value.1| < |input| && i <= r.value.0
  {
    if input == [] then None
    else
      match DigitValue(input[0])
      case None => None
      case Some(digit) =>
        var t := ThresholdAt(k, bias);
        if digit < t then Some((i + digit * w, input[1..]))
        else ReadVarInt(input[1..], k + 36, bias, i + digit * w, w * (36 - t))
  }

  datatype Decoder = Decoder(out: seq<int>, n: int, i: nat, bias: nat)

  /** Insert the code point that i, advanced to `next`, stands for. */
  function Insert(d: Decoder, next: nat): Decoder
    requires d.i <= next
  {
    var places := |d.out| + 1;
    ModRange(next, places);
    var n, at := d.n + next / places, next % places;
    Decoder(d.out[..at] + [n] + d.out[at..], n, at + 1, BiasAfter(next - d.i, places, d.i == 0))
  }

  lemma ModRange(a: int, b: nat)
    requires b > 0
    ensures 0 <= a % b < b
  {
  }

  /** Consume the whole input, or fail on a digit that is bad or missing. */
  function Run(input: Text, d: Decoder): Option<Decoder>
    decreases |input|
  {
    if input == [] then Some(d)
    else
      match ReadVarInt(input, 36, d.bias, d.i, 1)
      case None => None
      case Some(read) => Run(read.1, Insert(d, read.0))
  }

  function Initial(basic: seq<int>): Decoder { Decoder(basic, 128, 0, 72) }

  /** What precedes the last delimiter, a hyphen, is copied, the rest is decoded. */
  function Decode(input: Text): Option<seq<int>> {
    var delimiter := LastIndexOf(input, 0x2D);
    var length := if delimiter > 0 then delimiter else 0;
    var basic := input[..length];
    if exists u | u in basic :: u >= 0x80 then None
    else
      match Run(input[if delimiter > 0 then length + 1 else 0..], Initial(basic))
      case None => None
      case Some(d) => Some(d.out)
  }
}
