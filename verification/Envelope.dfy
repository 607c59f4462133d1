/**
 The base64(JSON) envelope between libsingbox/main.go and napi_init.cpp, on bytes: the
 response written by Go and read by a substring test, and the request escaped in C++.
 */
module Envelope {
  import opened JsText
  import Base64
  import NativeBase64
  import Rfc3629

  type Bytes = seq<bv8>

  const QUOTE: bv8 := 0x22
  const BACKSLASH: bv8 := 0x5C
  const COLON_BYTE: bv8 := 0x3A
  const COMMA_BYTE: bv8 := 0x2C
  const OPEN_BRACE: bv8 := 0x7B
  const CLOSE_BRACE: bv8 := 0x7D
  const LETTER_S: bv8 := 0x73
  const LETTER_T: bv8 := 0x74
  const LETTER_R: bv8 := 0x72
  const LETTER_O: bv8 := 0x6F

  /** `"success"`, `true`, `false`, `"data"`, `"err"` */
  const SUCCESS: Bytes := [0x22, 0x73, 0x75, 0x63, 0x63, 0x65, 0x73, 0x73, 0x22]
  const TRUE: Bytes := [0x74, 0x72, 0x75, 0x65]
  const FALSE: Bytes := [0x66, 0x61, 0x6C, 0x73, 0x65]
  const DATA: Bytes := [0x22, 0x64, 0x61, 0x74, 0x61, 0x22]
  const ERR: Bytes := [0x22, 0x65, 0x72, 0x72, 0x22]

  /** `"success":true` and `"error":"`, what the native side searches for. */
  const SUCCESS_TRUE: Bytes :=
    [0x22, 0x73, 0x75, 0x63, 0x63, 0x65, 0x73, 0x73, 0x22, 0x3A, 0x74, 0x72, 0x75, 0x65]
  const ERROR_FIELD: Bytes := [0x22, 0x65, 0x72, 0x72, 0x6F, 0x72, 0x22, 0x3A, 0x22]

  // ---- The Go side

  function HexDigit(n: bv8): bv8
    requires n < 16
  {
    if n < 10 then 0x30 + n else 0x57 + n
  }

  /** How encoding/json writes an ASCII byte of a string, HTML escaping included. */
  function GoAscii(c: bv8): Bytes {
    if c == QUOTE || c == BACKSLASH then [BACKSLASH, c]
    else if c == 0x08 then [BACKSLASH, 0x62]
    else if c == 0x0C then [BACKSLASH, 0x66]
    else if c == 0x0A then [BACKSLASH, 0x6E]
    else if c == 0x0D then [BACKSLASH, 0x72]
    else if c == 0x09 then [BACKSLASH, 0x74]
    else if c < 0x20 || c == 0x3C || c == 0x3E || c == 0x26 then
      [BACKSLASH, 0x75, 0x30, 0x30, HexDigit(c >> 4), HexDigit(c & 0xF)]
    else [c]
  }

  predicate IsContinuation(c: bv8) { 0x80 <= c <= 0xBF }

  /** The length of the well-formed multi-byte UTF-8 sequence at the start of s, or 0. */
  function RuneLength(s: Bytes): (n: nat)
    requires s != []
    ensures n <= |s|
    ensures forall k | 0 <= k < n :: s[k] >= 0x80
  {
    var c := s[0];
    if 0xC2 <= c <= 0xDF && |s| > 1 && IsContinuation(s[1]) then 2
    else if |s| > 2 && IsContinuation(s[1]) && IsContinuation(s[2]) && 0xE0 <= c <= 0xEF &&
            (c == 0xE0 ==> s[1] >= 0xA0) && (c == 0xED ==> s[1] <= 0x9F) then 3
    else if |s| > 3 && IsContinuation(s[1]) && IsContinuation(s[2]) && IsContinuation(s[3]) && 0xF0 <= c <= 0xF4 &&
            (c == 0xF0 ==> s[1] >= 0x90) && (c == 0xF4 ==> s[1] <= 0x8F) then 4
    else 0
  }

  /** A multi-byte sequence is copied; an invalid byte, U+2028 and U+2029 become `\uXXXX`. */
  function GoEscape(s: Bytes): Bytes {
    if s == [] then []
    else if s[0] < 0x80 then GoAscii(s[0]) + GoEscape(s[1..])
    else
      var n := RuneLength(s);
      if n == 0 then [BACKSLASH, 0x75, 0x66, 0x66, 0x66, 0x64] + GoEscape(s[1..])
      else if n == 3 && s[0] == 0xE2 && s[1] == 0x80 && s[2] & 0xFE == 0xA8 then
        [BACKSLASH, 0x75, 0x32, 0x30, 0x32, 0x38 + (s[2] & 1)] + GoEscape(s[3..])
      else s[..n] + GoEscape(s[n..])
  }

  function Member(key: Bytes, text: Bytes): Bytes { key + [COLON_BYTE, QUOTE] + GoEscape(text) + [QUOTE] }

  function Field(key: Bytes, text: Bytes): Bytes {
    if text == [] then [] else [COMMA_BYTE] + Member(key, text)
  }

  function ObjectHead(success: bool): Bytes {
    [OPEN_BRACE] + SUCCESS + [COLON_BYTE] + (if success then TRUE else FALSE)
  }

  /** json.Marshal of callResponse; empty `data` and `err` are omitted. */
  function Marshalled(data: Bytes, err: Option<Bytes>): Bytes {
    ObjectHead(err.None?) + Field(DATA, data) + Field(ERR, if err.Some? then err.value else []) + [CLOSE_BRACE]
  }

  /** `encode` of main.go */
  function Encoded(data: Bytes, err: Option<Bytes>): string { Base64.Encode(Marshalled(data, err)) }

  /** The text after `prefix`, if it starts with it. */
  function After(prefix: Bytes, text: Bytes): Option<Bytes> {
    if prefix <= text then Some(text[|prefix|..]) else None
  }

  lemma AfterPrefix(prefix: Bytes, rest: Bytes)
    ensures After(prefix, prefix + rest) == Some(rest)
  {
  }

  // ---- The native side

  datatype Response = Empty | Accepted(body: Bytes) | ErrorText(text: Bytes) | Rejected(body: Bytes)

  /** `ResponseOk`: true is Accepted; the others carry the message. */
  function ReadResponse(text: string): Response {
    var decoded := NativeBase64.Decoded(text);
    if decoded == [] then Empty
    else if IndexOfText(decoded, SUCCESS_TRUE, 0) >= 0 then Accepted(decoded)
    else
      var key := IndexOfText(decoded, ERROR_FIELD, 0);
      if key >= 0 then
        var start := key + 9;
        var end := IndexOf(decoded, QUOTE, start);
        ErrorText(if end < 0 then decoded[start..] else decoded[start..end])
      else Rejected(decoded)
  }

  // ---- No quote can start or close a searched pattern

  /** The quote at j shows that it is not the second quote of `"success":true`. */
  predicate NotSuccess(t: Bytes, j: nat)
    requires j < |t|
  {
    (j > 0 && t[j - 1] != LETTER_S) || (j + 1 < |t| && t[j + 1] != COLON_BYTE) || (j + 2 < |t| && t[j + 2] != LETTER_T)
  }

  /** Nor that of `"error":"`. */
  predicate NotError(t: Bytes, j: nat)
    requires j < |t|
  {
    (j > 0 && t[j - 1] != LETTER_R) || (j > 1 && t[j - 2] != LETTER_O) || (j + 1 < |t| && t[j + 1] != COLON_BYTE)
  }

  predicate SafeAt(t: Bytes, j: nat)
    requires j < |t|
  {
    t[j] == QUOTE ==> NotSuccess(t, j) && NotError(t, j)
  }

  predicate Safe(t: Bytes) { forall j | 0 <= j < |t| :: SafeAt(t, j) }

  lemma SafeAtAppend(a: Bytes, b: Bytes, j: nat)
    ensures j < |a| && SafeAt(a, j) ==> SafeAt(a + b, j)
    ensures j < |b| && SafeAt(b, j) ==> SafeAt(a + b, |a| + j)
  {
  }

  lemma SafeAppend(a: Bytes, b: Bytes)
    requires Safe(a) && Safe(b)
    ensures Safe(a + b)
  {
    hide SafeAt;
    forall j | 0 <= j < |a + b|
      ensures SafeAt(a + b, j)
    {
      if j < |a| {
        SafeAtAppend(a, b, j);
      } else {
        SafeAtAppend(a, b, j - |a|);
      }
    }
  }

  lemma SuccessUnsafe(t: Bytes, i: nat)
    requires OccursAt(t, SUCCESS_TRUE, i)
    ensures !Safe(t)
  {
    var p := t[i..i + 14];
    assert t[i + 7] == p[7] && t[i + 8] == p[8] && t[i + 9] == p[9] && t[i + 10] == p[10];
    assert !SafeAt(t, i + 8);
  }

  lemma ErrorUnsafe(t: Bytes, i: nat)
    requires OccursAt(t, ERROR_FIELD, i)
    ensures !Safe(t)
  {
    var p := t[i..i + 9];
    assert t[i + 4] == p[4] && t[i + 5] == p[5] && t[i + 6] == p[6] && t[i + 7] == p[7];
    assert !SafeAt(t, i + 6);
  }

  lemma SafeHasNoPattern(t: Bytes)
    requires Safe(t)
    ensures IndexOfText(t, SUCCESS_TRUE, 0) < 0 && IndexOfText(t, ERROR_FIELD, 0) < 0
  {
    hide OccursAt, Safe, IndexOfText;
    if IndexOfText(t, SUCCESS_TRUE, 0) >= 0 {
      SuccessUnsafe(t, IndexOfText(t, SUCCESS_TRUE, 0));
    }
    if IndexOfText(t, ERROR_FIELD, 0) >= 0 {
      ErrorUnsafe(t, IndexOfText(t, ERROR_FIELD, 0));
    }
  }

  /** In an escaped string every quote follows a backslash. */
  lemma {:induction false} EscapeSafe(s: Bytes)
    ensures forall j | 0 <= j < |GoEscape(s)| && GoEscape(s)[j] == QUOTE :: j > 0 && GoEscape(s)[j - 1] == BACKSLASH
  {
    if s == [] {
    } else if s[0] < 0x80 {
      AsciiSafe(s[0]);
      EscapeSafe(s[1..]);
    } else {
      hide HexDigit;
      var n := RuneLength(s);
      EscapeSafe(s[if n == 0 then 1 else n..]);
    }
  }

  lemma AsciiSafe(c: bv8)
    ensures var p := GoAscii(c);
      forall j | 0 <= j < |p| && p[j] == QUOTE :: j > 0 && p[j - 1] == BACKSLASH
  {
  }

  /** `,` + key + `:"` + the escaped text + `"` followed by what closes or continues the object. */
  lemma FieldSafe(key: Bytes, text: Bytes, next: bv8)
    requires key == DATA || key == ERR
    requires next == COMMA_BYTE || next == CLOSE_BRACE
    ensures Safe(Member(key, text) + [next])
  {
    hide GoEscape;
    assert Member(key, text) + [next] == key + [COLON_BYTE, QUOTE] + GoEscape(text) + [QUOTE, next];
    EscapeSafe(text);
    SafeAppend(key + [COLON_BYTE, QUOTE], GoEscape(text));
    SafeAppend(key + [COLON_BYTE, QUOTE] + GoEscape(text), [QUOTE, next]);
  }

  /** `{"success":false` */
  const FAILED_HEAD: Bytes :=
    [0x7B, 0x22, 0x73, 0x75, 0x63, 0x63, 0x65, 0x73, 0x73, 0x22, 0x3A, 0x66, 0x61, 0x6C, 0x73, 0x65]

  lemma HeadSafe()
    ensures Safe(FAILED_HEAD + [COMMA_BYTE]) && Safe(FAILED_HEAD + [CLOSE_BRACE])
  {
    assert Safe(FAILED_HEAD);
    SafeAppend(FAILED_HEAD, [COMMA_BYTE]);
    SafeAppend(FAILED_HEAD, [CLOSE_BRACE]);
  }

  lemma FailureSafe(data: Bytes, err: Bytes)
    ensures Safe(Marshalled(data, Some(err)))
  {
    hide Member, Safe;
    var d, e := Member(DATA, data), Member(ERR, err);
    HeadSafe();
    FieldSafe(DATA, data, COMMA_BYTE);
    FieldSafe(DATA, data, CLOSE_BRACE);
    FieldSafe(ERR, err, CLOSE_BRACE);
    SafeAppend(d + [COMMA_BYTE], e + [CLOSE_BRACE]);
    SafeAppend(FAILED_HEAD + [COMMA_BYTE], d + [COMMA_BYTE] + (e + [CLOSE_BRACE]));
    SafeAppend(FAILED_HEAD + [COMMA_BYTE], d + [CLOSE_BRACE]);
    SafeAppend(FAILED_HEAD + [COMMA_BYTE], e + [CLOSE_BRACE]);
    FailureShape(data, err);
  }

  lemma FailureShape(data: Bytes, err: Bytes)
    ensures var d, e := Member(DATA, data), Member(ERR, err);
      Marshalled(data, Some(err)) ==
      if data != [] && err != [] then
        FAILED_HEAD + [COMMA_BYTE] + (d + [COMMA_BYTE] + (e + [CLOSE_BRACE]))
      else if data != [] then FAILED_HEAD + [COMMA_BYTE] + (d + [CLOSE_BRACE])
      else if err != [] then FAILED_HEAD + [COMMA_BYTE] + (e + [CLOSE_BRACE])
      else FAILED_HEAD + [CLOSE_BRACE]
  {
    FailedHead();
    hide Member, ObjectHead;
    Regroup(FAILED_HEAD, COMMA_BYTE, Member(DATA, data), Member(ERR, err), [CLOSE_BRACE]);
  }

  lemma FailedHead()
    ensures ObjectHead(false) == FAILED_HEAD
  {
  }

  lemma Regroup(h: Bytes, c: bv8, d: Bytes, e: Bytes, z: Bytes)
    ensures h + ([c] + d) + ([c] + e) + z == h + [c] + (d + [c] + (e + z))
    ensures h + ([c] + d) + [] + z == h + [c] + (d + z)
    ensures h + [] + ([c] + e) + z == h + [c] + (e + z)
    ensures h + [] + [] + z == h + z
  {
  }

  lemma SuccessFound(data: Bytes)
    ensures OccursAt(Marshalled(data, None), SUCCESS_TRUE, 1)
  {
    hide Field;
    var t := Marshalled(data, None);
    assert ObjectHead(true) == [OPEN_BRACE] + SUCCESS_TRUE;
    assert t == [OPEN_BRACE] + SUCCESS_TRUE + (Field(DATA, data) + Field(ERR, []) + [CLOSE_BRACE]);
    assert t[1..15] == SUCCESS_TRUE;
  }

  lemma ReadIs(text: string, body: Bytes)
    requires NativeBase64.Decoded(text) == body != []
    ensures IndexOfText(body, SUCCESS_TRUE, 0) >= 0 ==> ReadResponse(text) == Accepted(body)
    ensures IndexOfText(body, SUCCESS_TRUE, 0) < 0 && IndexOfText(body, ERROR_FIELD, 0) < 0 ==>
      ReadResponse(text) == Rejected(body)
  {
    hide NativeBase64.Decoded, IndexOfText, OccursAt;
  }

  /**
   The substring test reads the envelope exactly: success if and only if Go reported no
   error, and a failure is passed on whole, whatever the texts of `data` and `err` hold.
   */
  lemma {:induction false} EnvelopeExact(data: Bytes, err: Option<Bytes>)
    ensures ReadResponse(Encoded(data, err)) ==
            if err.None? then Accepted(Marshalled(data, err)) else Rejected(Marshalled(data, err))
  {
    hide Marshalled, ReadResponse, Base64.Encode, NativeBase64.Decoded, IndexOfText, OccursAt;
    NativeBase64.DecodeEncode(Marshalled(data, err));
    MarshalledNotEmpty(data, err);
    ReadIs(Encoded(data, err), Marshalled(data, err));
    if err.None? {
      SuccessFound(data);
    } else {
      FailureSafe(data, err.value);
      SafeHasNoPattern(Marshalled(data, err));
    }
  }

  lemma MarshalledNotEmpty(data: Bytes, err: Option<Bytes>)
    ensures Marshalled(data, err) != []
  {
  }

  /** Success is read exactly where `"success":true` stands anywhere in the answer. */
  lemma SuccessSearched(body: Bytes)
    requires body != []
    ensures ReadResponse(Base64.Encode(body)) == Accepted(body) <==> HasSuccess(body)
  {
    hide Base64.Encode, NativeBase64.Decoded, OccursAt, IndexOfText;
    NativeBase64.DecodeEncode(body);
  }

  ghost predicate HasSuccess(body: Bytes) {
    exists i: nat :: OccursAt(body,
      [0x22, 0x73, 0x75, 0x63, 0x63, 0x65, 0x73, 0x73, 0x22, 0x3A, 0x74, 0x72, 0x75, 0x65], i)
  }

  /** Where the answer has no success but a member `"error":"`, the message is its text. */
  lemma ErrorFieldRead(before: Bytes, text: Bytes, after: Bytes)
    requires 0x22 !in before && 0x22 !in text
    requires !HasSuccess(WithError(before, text, after))
    ensures ReadResponse(Base64.Encode(WithError(before, text, after))) == ErrorText(text)
  {
    hide Base64.Encode, NativeBase64.Decoded, IndexOfText, IndexOf, OccursAt;
    var body, key := WithError(before, text, after), |before|;
    NativeBase64.DecodeEncode(body);
    ErrorFound(before, text + [0x22] + after);
    assert body == before + ERROR_FIELD + (text + [0x22] + after);
    assert body == (before + ERROR_FIELD) + text + [0x22] + after;
    QuoteFound(before + ERROR_FIELD, text, after);
    assert body[key + 9..key + 9 + |text|] == text;
  }

  lemma ErrorFound(before: Bytes, rest: Bytes)
    requires 0x22 !in before
    ensures IndexOfText(before + ERROR_FIELD + rest, ERROR_FIELD, 0) == |before|
  {
    var body, key := before + ERROR_FIELD + rest, |before|;
    assert body[key..key + 9] == ERROR_FIELD;
    assert OccursAt(body, ERROR_FIELD, key);
    forall j | 0 <= j < key
      ensures !OccursAt(body, ERROR_FIELD, j)
    {
      assert body[j] == before[j] && body[j] in before;
      assert body[j..j + 9][0] == body[j];
    }
  }

  lemma QuoteFound(front: Bytes, text: Bytes, after: Bytes)
    requires 0x22 !in text
    ensures IndexOf(front + text + [0x22] + after, QUOTE, |front|) == |front| + |text|
  {
    var body, from, end := front + text + [0x22] + after, |front|, |front| + |text|;
    assert body[end] == 0x22;
    forall j | from <= j < end
      ensures body[j] != 0x22
    {
      assert body[j] == text[j - from] && body[j] in text;
    }
  }

  function WithError(before: Bytes, text: Bytes, after: Bytes): Bytes {
    before + [0x22, 0x65, 0x72, 0x72, 0x6F, 0x72, 0x22, 0x3A, 0x22] + text + [0x22] + after
  }

  // ---- The request direction

  function EscapeByte(c: bv8): Bytes {
    if c == BACKSLASH then [BACKSLASH, BACKSLASH]
    else if c == QUOTE then [BACKSLASH, QUOTE]
    else if c == 0x0A then [BACKSLASH, 0x6E]
    else if c == 0x0D then [BACKSLASH, 0x72]
    else if c == 0x09 then [BACKSLASH, 0x74]
    else [c]
  }

  function Escaped(s: Bytes): Bytes { if s == [] then [] else EscapeByte(s[0]) + Escaped(s[1..]) }

  lemma EscapedStep(input: Bytes, i: nat, done: Bytes)
    requires i < |input|
    ensures done + Escaped(input[i..]) == done + EscapeByte(input[i]) + Escaped(input[i + 1..])
  {
    hide EscapeByte;
    assert input[i..][1..] == input[i + 1..];
  }

  method JsonEscape(input: Bytes) returns (output: Bytes)
    ensures output == Escaped(input)
  {
    hide Escaped;
    output := [];
    assert input[0..] == input && [] + Escaped(input) == Escaped(input);
    for i := 0 to |input|
      invariant Escaped(input) == output + Escaped(input[i..])
    {
      var ch := input[i];
      EscapedStep(input, i, output);
      if ch == BACKSLASH {
        output := output + [BACKSLASH, BACKSLASH];
      } else if ch == QUOTE {
        output := output + [BACKSLASH, QUOTE];
      } else if ch == 0x0A {
        output := output + [BACKSLASH, 0x6E];
      } else if ch == 0x0D {
        output := output + [BACKSLASH, 0x72];
      } else if ch == 0x09 {
        output := output + [BACKSLASH, 0x74];
      } else {
        output := output + [ch];
      }
    }
    EscapedEnd(input, output);
  }

  lemma EscapedEnd(input: Bytes, done: Bytes)
    ensures done + Escaped(input[|input|..]) == done
  {
  }

  /** The byte that a two-character escape of RFC 8259, section 7, stands for. */
  function Unescaped(c: bv8): Option<bv8> {
    if c == 0x22 || c == 0x5C || c == 0x2F then Some(c)
    else if c == 0x62 then Some(0x08)
    else if c == 0x66 then Some(0x0C)
    else if c == 0x6E then Some(0x0A)
    else if c == 0x72 then Some(0x0D)
    else if c == 0x74 then Some(0x09)
    else None
  }

  /** The value of a hexadecimal digit. */
  function HexValue(c: bv8): Option<bv16> {
    if 0x30 <= c <= 0x39 then Some((c - 0x30) as bv16)
    else if 0x61 <= c <= 0x66 then Some((c - 0x57) as bv16)
    else if 0x41 <= c <= 0x46 then Some((c - 0x37) as bv16)
    else None
  }

  /** The code unit that four hexadecimal digits name. */
  function HexUnit(a: bv8, b: bv8, c: bv8, d: bv8): Option<bv16> {
    if HexValue(a).None? || HexValue(b).None? || HexValue(c).None? || HexValue(d).None? then None
    else
      Some((HexValue(a).value << 12) | (HexValue(b).value << 8) | (HexValue(c).value << 4) | HexValue(d).value)
  }

  /** What was read of a string before the rest of it. */
  function Put(p: Bytes, r: Option<(Bytes, Bytes)>): Option<(Bytes, Bytes)> {
    match r
    case None => None
    case Some(read) => Some((p + read.0, read.1))
  }

  /**
   Reads a JSON string after its opening quote (RFC 8259, section 7): its value and what follows the closing
   quote. Control characters are not allowed unescaped. A `\uXXXX` that is half of a surrogate
   pair, which neither side writes, is not read.
   */
  function ReadString(t: Bytes): Option<(Bytes, Bytes)> {
    if t == [] || t[0] < 0x20 then None
    else if t[0] == 0x22 then Some(([], t[1..]))
    else if t[0] != 0x5C then Put([t[0]], ReadString(t[1..]))
    else if |t| >= 6 && t[1] == 0x75 then
      match HexUnit(t[2], t[3], t[4], t[5])
      case None => None
      case Some(unit) =>
        if 0xD800 <= unit <= 0xDFFF then None else Put(Rfc3629.Written(unit), ReadString(t[6..]))
    else if |t| < 2 || Unescaped(t[1]).None? then None
    else Put([Unescaped(t[1]).value], ReadString(t[2..]))
  }

  /** A control character that the escaper copies as it is. */
  predicate RawControl(c: bv8) { c < 0x20 && c != 0x0A && c != 0x0D && c != 0x09 }

  lemma ReadOneEscape(c: bv8, tail: Bytes)
    ensures ReadString(EscapeByte(c) + tail) ==
            if RawControl(c) then None
            else Put([c], ReadString(tail))
  {
    hide HexUnit, Rfc3629.Written;
    var p := EscapeByte(c);
    var t := p + tail;
    assert t[|p|..] == tail && t[0] == p[0];
    if |p| == 2 {
      assert t[1] == p[1];
    }
  }

  predicate HasRawControl(s: Bytes) { exists i :: 0 <= i < |s| && RawControl(s[i]) }

  lemma RawControlCons(s: Bytes)
    requires s != []
    ensures HasRawControl(s) <==> RawControl(s[0]) || HasRawControl(s[1..])
  {
    hide RawControl;
    if i :| 0 <= i < |s| && RawControl(s[i]) {
      if i > 0 {
        assert s[1..][i - 1] == s[i];
      }
    }
    if i :| 0 <= i < |s[1..]| && RawControl(s[1..][i]) {
      assert s[i + 1] == s[1..][i];
    }
  }

  /**
   The escaped text is read back as the original, and the literal ends exactly at the quote
   that follows it, if and only if the original holds no control character other than
   newline, carriage return and tab.
   */
  lemma {:induction false} EscapeRoundTrip(s: Bytes, rest: Bytes)
    ensures ReadString(Escaped(s) + [QUOTE] + rest) == if HasRawControl(s) then None else Some((s, rest))
  {
    hide EscapeByte, RawControl;
    if s == [] {
      assert Escaped(s) + [QUOTE] + rest == [QUOTE] + rest;
    } else {
      hide ReadString, HasRawControl;
      var tail := Escaped(s[1..]) + [QUOTE] + rest;
      assert Escaped(s) + [QUOTE] + rest == EscapeByte(s[0]) + tail;
      assert s == [s[0]] + s[1..];
      RawControlCons(s);
      EscapeRoundTrip(s[1..], rest);
      ReadOneEscape(s[0], tail);
    }
  }

  /** A backspace is such a control character: escaped, it is a string no reader accepts. */
  lemma BackspaceIsLost(s: Bytes, rest: Bytes)
    requires s == [0x08]
    ensures ReadString(Escaped(s) + [QUOTE] + rest) == None
  {
    hide Escaped, ReadString;
    assert RawControl(s[0]);
    EscapeRoundTrip(s, rest);
  }
}
