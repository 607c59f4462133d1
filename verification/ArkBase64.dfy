/** The Base64 codec of Encoding.ets. */
module ArkBase64 {
  import opened JsText
  import opened Base64
  import opened Base64Stream

  datatype Result<+T> = Ok(value: T) | Err

  // ---- Encoding

  lemma EncodeGroup(b: seq<bv8>)
    requires |b| >= 3
    ensures Encode(b) == Chars(Emitted(0, 0, b[0]) + Emitted(1, b[0], b[1]) + Emitted(2, b[1], b[2])) + Encode(b[3..])
  {
    hide Group, First, Second, Third, Fourth, Emitted, Chars;
    GroupIndices(b[0], b[1], b[2]);
    var head := Emitted(0, 0, b[0]) + Emitted(1, b[0], b[1]) + Emitted(2, b[1], b[2]);
    assert Sextets(b) == head + Sextets(b[3..]);
    CharsAppend(head, Sextets(b[3..]));
    PadLater(Chars(head), Chars(Sextets(b[3..])));
  }

  lemma PadLater(head: string, t: string)
    requires |head| == 4
    ensures Padded(head + t) == head + Padded(t)
  {
    assert head + t + "=" == head + (t + "=");
    assert head + t + "==" == head + (t + "==");
  }

  lemma EncodeShort(b: seq<bv8>)
    ensures |b| == 0 ==> Encode(b) == ""
    ensures |b| == 1 ==> Encode(b) == Chars(Emitted(0, 0, b[0]) + Rest(1, b[0])) + "=="
    ensures |b| == 2 ==> Encode(b) == Chars(Emitted(0, 0, b[0]) + Emitted(1, b[0], b[1]) + Rest(2, b[1])) + "="
  {
    hide Group, First, Second, Third, Fourth, Emitted, Rest, Chars;
    EmptyChars();
    if |b| == 1 {
      GroupIndices(b[0], 0, 0);
    } else if |b| == 2 {
      GroupIndices(b[0], b[1], 0);
    }
  }

  lemma EmptyChars()
    ensures Chars([]) == ""
  {
  }

  /** The characters of one block of up to three bytes, as the source computes them. */
  method EncodeBlock(first: bv8, second: Option<bv8>, third: Option<bv8>) returns (block: string)
    requires third.Some? ==> second.Some?
    ensures third.Some? ==>
      block == Chars(Emitted(0, 0, first) + Emitted(1, first, second.value) + Emitted(2, second.value, third.value))
    ensures third.None? && second.Some? ==>
      block == Chars(Emitted(0, 0, first) + Emitted(1, first, second.value) + Rest(2, second.value)) + "="
    ensures second.None? ==> block == Chars(Emitted(0, 0, first) + Rest(1, first)) + "=="
  {
    block := [CharOf((first >> 2) as bv6)];
    block := block + [CharOf((((first & 0x03) << 4) | (if second.Some? then second.value >> 4 else 0)) as bv6)];
    block := block + if second.Some?
      then [CharOf((((second.value & 0x0F) << 2) | (if third.Some? then third.value >> 6 else 0)) as bv6)] else "=";
    block := block + if third.Some? then [CharOf((third.value & 0x3F) as bv6)] else "=";
  }

  method EncodeBytes(bytes: seq<bv8>) returns (result: string)
    ensures result == Encode(bytes)
  {
    hide Encode, Chars, Emitted, Rest;
    result := "";
    var index := 0;
    while index < |bytes|
      invariant 0 <= index <= |bytes|
      invariant result + Encode(bytes[index..]) == Encode(bytes)
    {
      ghost var rest, done := bytes[index..], result;
      EncodeShort(rest);
      var first := bytes[index];
      index := index + 1;
      var second, third := None, None;
      if index < |bytes| {
        second := Some(bytes[index]);
        index := index + 1;
      }
      if index < |bytes| {
        third := Some(bytes[index]);
        index := index + 1;
        EncodeGroup(rest);
        assert rest[3..] == bytes[index..];
      }
      var block := EncodeBlock(first, second, third);
      result := result + block;
      EncodeShort(bytes[index..]);
      assert Encode(rest) == block + Encode(bytes[index..]);
      assert done + (block + Encode(bytes[index..])) == result + Encode(bytes[index..]);
    }
    EncodeShort(bytes[index..]);
  }

  /** The text without the '=' at its end. */
  function Unpadded(t: string): string {
    if t != "" && t[|t| - 1] == '=' then Unpadded(t[..|t| - 1]) else t
  }

  method EncodeBytesNoPadding(bytes: seq<bv8>) returns (result: string)
    ensures result == Unpadded(Encode(bytes))
  {
    result := EncodeBytes(bytes);
    while result != "" && result[|result| - 1] == '='
      invariant Unpadded(result) == Unpadded(Encode(bytes))
      decreases |result|
    {
      result := result[..|result| - 1];
    }
  }

  // ---- Normalising

  predicate IsSpace(c: char) { c == ' ' || c == '\n' || c == '\r' || c == '\t' }

  function Stripped(t: string): string {
    if t == "" then "" else if IsSpace(t[0]) then Stripped(t[1..]) else [t[0]] + Stripped(t[1..])
  }

  /** The URL-safe letters of RFC 4648, section 5, mapped to the standard ones. */
  function Standard(t: string): (r: string)
    ensures |r| == |t|
  {
    if t == "" then ""
    else [if t[0] == '-' then '+' else if t[0] == '_' then '/' else t[0]] + Standard(t[1..])
  }

  function Plain(t: string): string { Standard(Stripped(t)) }

  function Normalized(t: string): string { Padded(Plain(t)) }

  method StripWhitespace(value: string) returns (result: string)
    ensures result == Stripped(value)
  {
    result := "";
    for index := 0 to |value|
      invariant Stripped(value) == result + Stripped(value[index..])
    {
      var ch := value[index];
      assert value[index..][1..] == value[index + 1..];
      ghost var rest := Stripped(value[index + 1..]);
      assert result + ([ch] + rest) == result + [ch] + rest;
      if ch != ' ' && ch != '\n' && ch != '\r' && ch != '\t' {
        result := result + [ch];
      }
    }
  }

  function Replaced(t: string, a: char, b: char): string {
    if t == "" then "" else [if t[0] == a then b else t[0]] + Replaced(t[1..], a, b)
  }

  /** `split(a).join(b)` replaces every a by b. */
  lemma {:induction false} SplitJoin(t: string, a: char, b: char)
    ensures Join(Split(t, a), b) == Replaced(t, a, b)
  {
    if t != "" {
      SplitJoin(t[1..], a, b);
      var rest := Split(t[1..], a);
      if t[0] == a {
        assert ([[]] + rest)[1..] == rest;
      } else {
        assert ([[t[0]] + rest[0]] + rest[1..])[1..] == rest[1..];
      }
    }
  }

  lemma {:induction false} StandardIsReplaced(t: string)
    ensures Replaced(Replaced(t, '-', '+'), '_', '/') == Standard(t)
  {
    if t != "" {
      assert Replaced(t, '-', '+')[1..] == Replaced(t[1..], '-', '+');
      StandardIsReplaced(t[1..]);
    }
  }

  method NormalizeBase64(value: string) returns (result: string)
    ensures result == Normalized(value)
  {
    var stripped := StripWhitespace(value);
    result := Join(Split(Join(Split(stripped, '-'), '+'), '_'), '/');
    SplitJoin(stripped, '-', '+');
    SplitJoin(Replaced(stripped, '-', '+'), '_', '/');
    StandardIsReplaced(stripped);
    var remainder := |result| % 4;
    if remainder == 2 {
      result := result + "==";
    } else if remainder == 3 {
      result := result + "=";
    }
  }

  // ---- Decoding

  /** What decoding means: fail on a character outside the alphabet, else the whole octets. */
  function Decoded(t: string): Result<seq<bv8>> {
    match ReadAll(Plain(t))
    case None => Err
    case Some(s) => Ok(Octets(s))
  }

  lemma {:induction false} ReadIgnoresPadding(t: string)
    ensures ReadAll(t + "=") == ReadAll(t)
  {
    hide IndexOfChar;
    if t != "" && t[0] != '=' {
      assert t + "=" == [t[0]] + (t[1..] + "=");
      ReadIgnoresPadding(t[1..]);
    }
  }

  lemma ReadPadded(t: string)
    ensures ReadAll(Padded(t)) == ReadAll(t)
  {
    hide ReadAll;
    ReadIgnoresPadding(t);
    ReadIgnoresPadding(t + "=");
    assert t + "=" + "=" == t + "==";
  }

  lemma ReadStep(t: string, index: nat)
    requires index <= |t|
    ensures index == |t| || t[index] == '=' ==> ReadAll(t[index..]) == Some([])
    ensures index < |t| && t[index] != '=' && IndexOfChar(t[index]) < 0 ==> ReadAll(t[index..]) == None
    ensures index < |t| && t[index] != '=' && IndexOfChar(t[index]) >= 0 ==>
      ReadAll(t[index..]) ==
      match ReadAll(t[index + 1..]) case None => None case Some(rest) => Some([IndexOfChar(t[index]) as bv6] + rest)
  {
    if index < |t| {
      assert t[index..][1..] == t[index + 1..];
    }
  }

  ghost predicate ReadSoFar(input: string, index: nat, s: seq<bv6>)
    requires index <= |input|
  {
    ReadAll(input) == match ReadAll(input[index..]) case None => None case Some(rest) => Some(s + rest)
  }

  lemma ReadMore(input: string, index: nat, s: seq<bv6>)
    requires index < |input| && ReadSoFar(input, index, s) && input[index] != '=' && IndexOfChar(input[index]) >= 0
    ensures ReadSoFar(input, index + 1, s + [IndexOfChar(input[index]) as bv6])
  {
    hide IndexOfChar, ReadAll;
    ReadStep(input, index);
    var x := IndexOfChar(input[index]) as bv6;
    if ReadAll(input[index + 1..]).Some? {
      var rest := ReadAll(input[index + 1..]).value;
      assert s + ([x] + rest) == s + [x] + rest;
    }
  }

  lemma SmallIndex(decoded: int)
    requires 0 <= decoded < 64
    ensures decoded as bv32 == (decoded as bv6) as bv32
  {
  }

  method DecodeBase64ToBytes(value: string) returns (r: Result<seq<bv8>>)
    ensures r == Decoded(value)
  {
    hide Octets, Completed, Holds, OctetAt, Pushed, IndexOfChar, ReadAll, ReadSoFar;
    var input := NormalizeBase64(value);
    ReadPadded(Plain(value));
    var bytes: seq<bv8>, buffer: bv32, bits: nat := [], 0, 0;
    ghost var s: seq<bv6> := [];
    Begin(input);
    for index := 0 to |input|
      invariant ReadSoFar(input, index, s)
      invariant bytes == Octets(s)
      invariant Holds(buffer, |s| % 4, Last(s))
      invariant bits == (6 * (|s| % 4)) % 8
    {
      var ch := input[index];
      ReadStep(input, index);
      if ch == '=' {
        ReadEnds(input, index, s);
        return Ok(bytes);
      }
      var decoded := IndexOfChar(ch);
      if decoded < 0 {
        ReadFails(input, index, s);
        return Err;
      }
      ghost var x, phase := decoded as bv6, |s| % 4;
      ReadMore(input, index, s);
      PushIndex(buffer, phase, Last(s), x);
      OctetsSnoc(s, x);
      PushedIs(buffer, decoded);
      buffer := (buffer << 6) | (decoded as bv32);
      bits := bits + 6;
      ghost var before := bytes;
      while bits >= 8
        invariant bits == 6 * phase % 8 + 6 || (bits == 6 * phase % 8 - 2 && bits < 8)
        invariant bytes == if bits == 6 * phase % 8 + 6 then before else before + [OctetAt(buffer, Shift(phase))]
      {
        bits := bits - 8;
        bytes := bytes + [OctetAt(buffer, bits)];
      }
      s := s + [x];
    }
    ReadStep(input, |input|);
    ReadEnds(input, |input|, s);
    r := Ok(bytes);
  }

  lemma Begin(input: string)
    ensures ReadSoFar(input, 0, []) && Octets([]) == [] && Holds(0, 0, 0)
  {
    hide IndexOfChar;
    assert input[0..] == input;
    if ReadAll(input).Some? {
      assert [] + ReadAll(input).value == ReadAll(input).value;
    }
  }

  lemma ReadEnds(input: string, index: nat, s: seq<bv6>)
    requires index <= |input| && ReadSoFar(input, index, s) && ReadAll(input[index..]) == Some([])
    ensures ReadAll(input) == Some(s)
  {
    assert s + [] == s;
  }

  lemma ReadFails(input: string, index: nat, s: seq<bv6>)
    requires index <= |input| && ReadSoFar(input, index, s) && ReadAll(input[index..]) == None
    ensures ReadAll(input) == None
  {
  }

  lemma PushedIs(buffer: bv32, decoded: int)
    requires 0 <= decoded < 64
    ensures (buffer << 6) | (decoded as bv32) == Pushed(buffer, decoded as bv6)
    ensures (buffer << 6) + (decoded as bv32) == Pushed(buffer, decoded as bv6)
  {
    SmallIndex(decoded);
    OrIsPlus(buffer, decoded as bv6);
  }

  // ---- What decoding does not depend on

  /** Decoding inverts encoding on every byte string. */
  lemma DecodeEncode(b: seq<bv8>)
    ensures Decoded(Encode(b)) == Ok(b)
    ensures Decoded(Unpadded(Encode(b))) == Ok(b)
  {
    hide Encode, Unpadded, Octets, Sextets, Plain;
    PlainEncode(b);
    OctetsOfSextets(b);
    ReadEncode(b);
    UnpaddedEncode(b);
    PlainUnpadded(b);
  }

  predicate IsPlain(c: char) { !IsSpace(c) && c != '-' && c != '_' }

  lemma {:induction false} PlainSame(t: string)
    requires forall c | c in t :: IsPlain(c)
    ensures Plain(t) == t
  {
    if t != "" {
      PlainSame(t[1..]);
      assert t[0] in t;
      assert Stripped(t) == [t[0]] + Stripped(t[1..]);
      assert Standard(Stripped(t))[1..] == Standard(Stripped(t[1..]));
    }
  }

  lemma {:induction false} CharsPlain(s: seq<bv6>)
    ensures forall c | c in Chars(s) :: IsPlain(c) && c != '='
  {
    hide CharOf;
    forall i | 0 <= i < |s|
      ensures IsPlain(Chars(s)[i]) && Chars(s)[i] != '='
    {
      CharPlain(s[i]);
    }
  }

  lemma CharPlain(x: bv6)
    ensures IsPlain(CharOf(x)) && CharOf(x) != '='
  {
    AlphabetAt(x as int);
  }

  lemma PlainEncode(b: seq<bv8>)
    ensures Plain(Encode(b)) == Encode(b)
  {
    hide Chars, Plain;
    CharsPlain(Sextets(b));
    PlainSame(Encode(b));
  }

  lemma PlainUnpadded(b: seq<bv8>)
    ensures Plain(Chars(Sextets(b))) == Chars(Sextets(b))
  {
    hide Chars, Plain;
    CharsPlain(Sextets(b));
    PlainSame(Chars(Sextets(b)));
  }

  /** Dropping the padding leaves the characters of the indices. */
  lemma UnpaddedEncode(b: seq<bv8>)
    ensures Unpadded(Encode(b)) == Chars(Sextets(b))
  {
    var t := Chars(Sextets(b));
    CharsPlain(Sextets(b));
    assert t != "" ==> t[|t| - 1] in t;
    assert Unpadded(t) == t;
    UnpaddedOnce(t);
    UnpaddedOnce(t + "=");
    assert t + "=" + "=" == t + "==";
  }

  lemma UnpaddedOnce(t: string)
    ensures Unpadded(t + "=") == Unpadded(t)
  {
    assert (t + "=")[..|t + "="| - 1] == t;
  }

  lemma {:induction false} StrippedAppend(a: string, b: string)
    ensures Stripped(a + b) == Stripped(a) + Stripped(b)
  {
    if a == "" {
      assert a + b == b;
    } else {
      assert a + b == [a[0]] + (a[1..] + b);
      StrippedAppend(a[1..], b);
    }
  }

  /** A space, a line end or a tab may be inserted anywhere. */
  lemma DecodeWithSpace(a: string, space: char, b: string)
    requires space == ' ' || space == '\n' || space == '\r' || space == '\t'
    ensures Decoded(a + [space] + b) == Decoded(a + b)
  {
    StrippedAppend(a + [space], b);
    StrippedAppend(a, [space]);
    StrippedAppend(a, b);
    assert Stripped([space]) == "";
    assert Stripped(a) + "" == Stripped(a);
  }

  /** The text in the URL-safe alphabet of RFC 4648, section 5. */
  function UrlSafe(t: string): (r: string)
    ensures |r| == |t|
  {
    if t == "" then ""
    else [if t[0] == '+' then '-' else if t[0] == '/' then '_' else t[0]] + UrlSafe(t[1..])
  }

  lemma {:induction false} DecodeUrlSafe(t: string)
    ensures Plain(UrlSafe(t)) == Plain(t)
    ensures Decoded(UrlSafe(t)) == Decoded(t)
  {
    if t != "" {
      assert UrlSafe(t)[1..] == UrlSafe(t[1..]);
      DecodeUrlSafe(t[1..]);
      StandardCons(UrlSafe(t)[0], Stripped(UrlSafe(t[1..])));
      StandardCons(t[0], Stripped(t[1..]));
    }
  }

  lemma StandardCons(c: char, t: string)
    ensures Standard([c] + t) == [if c == '-' then '+' else if c == '_' then '/' else c] + Standard(t)
  {
    assert ([c] + t)[1..] == t;
  }
}
