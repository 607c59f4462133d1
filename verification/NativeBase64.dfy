/**
 The Base64 codec of napi_init.cpp. The `int` accumulators are 32-bit words that wrap, as
 two's complement hardware and C++20 shifts make them.
 */
module NativeBase64 {
  import opened JsText
  import opened Base64
  import opened Base64Stream
  import ArkBase64

  lemma WholeNext(input: seq<bv8>, i: nat)
    requires i < |input|
    ensures Whole(input[..i + 1]) == Whole(input[..i]) + Emitted(i % 3, LastByte(input[..i]), input[i])
    ensures LastByte(input[..i + 1]) == input[i]
  {
    assert input[..i + 1] == input[..i] + [input[i]];
    WholeSnoc(input[..i], input[i]);
  }

  method Base64Encode(input: seq<bv8>) returns (output: string)
    ensures output == Encode(input)
  {
    hide Whole, HoldsByte, LastByte, Emitted, Chars, Rest, IndexAt, PushedByte, Encode;
    output := "";
    var value: bv32, bits := 0, -6;
    Begin(input);
    for i := 0 to |input|
      invariant bits == 2 * (i % 3) - 6
      invariant output == Chars(Whole(input[..i]))
      invariant HoldsByte(value, i % 3, LastByte(input[..i]))
    {
      var ch := input[i];
      WholeNext(input, i);
      PushByte(value, i % 3, LastByte(input[..i]), ch);
      PushedByteIs(value, ch);
      value := (value << 8) + (ch as bv32);
      bits := bits + 8;
      CharsAppend(Whole(input[..i]), Drained(value, bits));
      while bits >= 0
        invariant -6 <= bits <= 2 * (i % 3) + 2 && (bits - (2 * (i % 3) + 2)) % 6 == 0
        invariant output + Chars(Drained(value, bits)) == Chars(Whole(input[..i + 1]))
      {
        DrainOne(value, bits, output);
        output := output + [CharOf(IndexAt(value, bits))];
        bits := bits - 6;
      }
      NothingDrained();
    }
    assert input[..|input|] == input;
    SextetsAreWhole(input);
    CharsAppend(Whole(input), Rest(|input| % 3, LastByte(input)));
    if bits > -6 {
      FlushByte(value, |input| % 3, LastByte(input));
      OneChar(IndexAt(value << 8, bits + 8));
      output := output + [CharOf(IndexAt(value << 8, bits + 8))];
    } else {
      NoRest(LastByte(input));
      NothingDrained();
    }
    assert output == Chars(Sextets(input));
    output := PadToFour(output, input);
  }

  /** The closing loop: '=' until the length is a multiple of four. */
  method PadToFour(text: string, ghost input: seq<bv8>) returns (output: string)
    requires text == Chars(Sextets(input))
    ensures output == Encode(input)
  {
    hide Sextets;
    SextetsLength(input);
    output := text;
    while |output| % 4 != 0
      invariant output == text || (|text| % 4 >= 2 && output == text + "=") || (|text| % 4 == 2 && output == text + "==")
      decreases |text| + 2 - |output|
    {
      output := output + "=";
      assert text + "=" + "=" == text + "==";
    }
  }

  lemma Begin(input: seq<bv8>)
    ensures "" == Chars(Whole(input[..0])) && HoldsByte(0, 0, LastByte(input[..0]))
  {
  }

  lemma PushedByteIs(value: bv32, ch: bv8)
    ensures (value << 8) + (ch as bv32) == PushedByte(value, ch)
  {
  }

  lemma DrainOne(value: bv32, bits: int, output: string)
    requires 0 <= bits < 32
    ensures output + Chars(Drained(value, bits)) == output + [CharOf(IndexAt(value, bits))] + Chars(Drained(value, bits - 6))
  {
    hide IndexAt, CharOf, Chars;
    var rest := Drained(value, bits - 6);
    CharsAppend([IndexAt(value, bits)], rest);
    OneChar(IndexAt(value, bits));
  }

  lemma OneChar(x: bv6)
    ensures Chars([x]) == [CharOf(x)]
  {
  }

  lemma NothingDrained()
    ensures Chars([]) == ""
    ensures forall output: string :: output + Chars([]) == output
  {
  }

  /** The two encoders of the repository write the same text. */
  method EncodersAgree(bytes: seq<bv8>) returns (native: string, ark: string)
    ensures native == ark == Encode(bytes)
  {
    native := Base64Encode(bytes);
    ark := ArkBase64.EncodeBytes(bytes);
  }

  // ---- Decoding

  /** A std::string holds bytes. */
  predicate IsByteString(t: string) { forall i | 0 <= i < |t| :: t[i] as int < 256 }

  /** The reverse table: -1 for every byte outside the alphabet. */
  method BuildTable() returns (values: array<int>)
    ensures fresh(values) && values.Length == 256
    ensures forall c: char | c as int < 256 :: values[c as int] == IndexOfChar(c)
  {
    values := new int[256](_ => -1);
    for index := 0 to 64
      invariant forall c: char | c as int < 256 ::
        values[c as int] == if 0 <= IndexOfChar(c) < index then IndexOfChar(c) else -1
    {
      hide IndexOfChar;
      AlphabetByte(index);
      forall c: char | IndexOfChar(c) == index
        ensures c == ALPHABET[index]
      {
        CharAt(c);
      }
      values[ALPHABET[index] as int] := index;
    }
  }

  lemma AlphabetByte(index: nat)
    requires index < 64
    ensures ALPHABET[index] as int < 256 && IndexOfChar(ALPHABET[index]) == index
  {
    AlphabetAt(index);
    IndexOfAlphabet(index);
  }

  lemma CharAt(c: char)
    requires IndexOfChar(c) >= 0
    ensures c == ALPHABET[IndexOfChar(c)]
  {
  }

  /** The indices of the alphabet characters before the first '='; others are skipped. */
  function Kept(t: string): seq<bv6> {
    if t == "" || t[0] == '=' then []
    else if IndexOfChar(t[0]) < 0 then Kept(t[1..])
    else [IndexOfChar(t[0]) as bv6] + Kept(t[1..])
  }

  function Decoded(t: string): seq<bv8> { Octets(Kept(t)) }

  lemma KeptStep(t: string, index: nat, s: seq<bv6>)
    requires index <= |t|
    ensures index == |t| || t[index] == '=' ==> s + Kept(t[index..]) == s
    ensures index < |t| && t[index] != '=' && IndexOfChar(t[index]) < 0 ==> s + Kept(t[index..]) == s + Kept(t[index + 1..])
    ensures index < |t| && t[index] != '=' && IndexOfChar(t[index]) >= 0 ==>
      s + Kept(t[index..]) == s + [IndexOfChar(t[index]) as bv6] + Kept(t[index + 1..])
  {
    hide IndexOfChar;
    if index < |t| {
      assert t[index..][1..] == t[index + 1..];
    }
  }

  method Base64Decode(input: string) returns (output: seq<bv8>)
    requires IsByteString(input)
    ensures output == Decoded(input)
  {
    hide Octets, Completed, Holds, OctetAt, Pushed, IndexOfChar, Kept;
    output := [];
    var values := BuildTable();
    var value: bv32, bits := 0, -8;
    ghost var s: seq<bv6> := [];
    assert input[0..] == input && [] + Kept(input) == Kept(input);
    ArkBase64.Begin("");
    for index := 0 to |input|
      invariant forall c: char | c as int < 256 :: values[c as int] == IndexOfChar(c)
      invariant Kept(input) == s + Kept(input[index..])
      invariant output == Octets(s)
      invariant Holds(value, |s| % 4, Last(s))
      invariant bits == (if |s| % 4 == 0 then -8 else -2 * (|s| % 4))
    {
      var ch := input[index];
      KeptStep(input, index, s);
      if ch == '=' {
        break;
      }
      var decoded := values[ch as int];
      if decoded < 0 {
        continue;
      }
      ghost var x, phase := decoded as bv6, |s| % 4;
      PushIndex(value, phase, Last(s), x);
      OctetsSnoc(s, x);
      ArkBase64.PushedIs(value, decoded);
      value := (value << 6) + (decoded as bv32);
      bits := bits + 6;
      if bits >= 0 {
        output := output + [OctetAt(value, bits)];
        bits := bits - 8;
      }
      s := s + [x];
    }
    KeptStep(input, |input|, s);
  }

  lemma {:induction false} KeptIsRead(t: string)
    requires ReadAll(t).Some?
    ensures Kept(t) == ReadAll(t).value
  {
    hide IndexOfChar;
    if t != "" && t[0] != '=' {
      KeptIsRead(t[1..]);
    }
  }

  /** Decoding inverts both encoders on every byte string. */
  lemma DecodeEncode(b: seq<bv8>)
    ensures Decoded(Encode(b)) == b
  {
    hide Encode, Octets, Sextets, ReadAll, Kept;
    ReadEncode(b);
    KeptIsRead(Encode(b));
    OctetsOfSextets(b);
  }

  /** Text in the standard alphabet, with any '=' and the whitespace the ArkTS side strips. */
  predicate IsStandard(t: string) {
    forall c | c in t :: IndexOfChar(c) >= 0 || c == '=' || ArkBase64.IsSpace(c)
  }

  lemma SpaceNotInAlphabet(c: char)
    requires ArkBase64.IsSpace(c) || c == '-' || c == '_'
    ensures IndexOfChar(c) < 0
  {
    var k := IndexOfChar(c);
    if k >= 0 {
      AlphabetAt(k);
    }
  }

  lemma {:induction false} StandardReads(t: string)
    requires IsStandard(t)
    ensures ReadAll(ArkBase64.Plain(t)) == Some(Kept(t))
  {
    hide IndexOfChar;
    if t != "" {
      assert t[0] in t && forall c | c in t[1..] :: c in t;
      StandardReads(t[1..]);
      SpaceNotInAlphabet(' ');
      SpaceNotInAlphabet('\n');
      SpaceNotInAlphabet('\r');
      SpaceNotInAlphabet('\t');
      SpaceNotInAlphabet('-');
      SpaceNotInAlphabet('_');
      ArkBase64.StandardCons(t[0], ArkBase64.Stripped(t[1..]));
      ReadCons(t[0], ArkBase64.Plain(t[1..]));
    }
  }

  lemma ReadCons(c: char, t: string)
    ensures c == '=' ==> ReadAll([c] + t) == Some([])
    ensures c != '=' && IndexOfChar(c) >= 0 && ReadAll(t).Some? ==>
      ReadAll([c] + t) == Some([IndexOfChar(c) as bv6] + ReadAll(t).value)
  {
    hide IndexOfChar;
    assert ([c] + t)[1..] == t;
  }

  /** The two decoders return the same bytes on all standard-alphabet text. */
  lemma DecodersAgree(t: string)
    requires IsStandard(t)
    ensures ArkBase64.Decoded(t) == ArkBase64.Ok(Decoded(t))
  {
    hide Octets, ReadAll, Kept, IsStandard;
    StandardReads(t);
  }
}
