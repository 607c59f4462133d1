/** What encoding/json writes into a response, read back by a JSON reader. */
module GoJson {
  import opened JsText
  import opened Envelope
  import opened Rfc3629

  /** The text with U+FFFD in the place of every byte that is not part of well-formed UTF-8. */
  function Repaired(s: Bytes): Bytes {
    if s == [] then []
    else
      match ReadPoint(s)
      case Malformed => [0xEF, 0xBF, 0xBD] + Repaired(s[1..])
      case Character(_, width) => s[..width] + Repaired(s[width..])
  }

  lemma RuneIsPoint(s: Bytes)
    requires s != [] && s[0] >= 0x80
    ensures ReadPoint(s).Malformed? <==> RuneLength(s) == 0
    ensures ReadPoint(s).Character? ==> ReadPoint(s).width == RuneLength(s)
  {
    hide Low;
  }

  lemma PutTwice(a: Bytes, b: Bytes, r: Option<(Bytes, Bytes)>)
    ensures Put(a, Put(b, r)) == Put(a + b, r)
  {
    if r.Some? {
      assert a + (b + r.value.0) == a + b + r.value.0;
    }
  }

  /** Bytes beyond ASCII are read as they are. */
  lemma {:induction false} ReadCopied(p: Bytes, tail: Bytes)
    requires forall i | 0 <= i < |p| :: p[i] >= 0x80
    ensures ReadString(p + tail) == Put(p, ReadString(tail))
  {
    hide HexUnit, Written, Unescaped;
    if p == [] {
      assert p + tail == tail;
      NoPut(ReadString(tail));
    } else {
      assert p + tail == [p[0]] + (p[1..] + tail);
      assert (p + tail)[1..] == p[1..] + tail;
      ReadCopied(p[1..], tail);
      PutTwice([p[0]], p[1..], ReadString(tail));
      assert [p[0]] + p[1..] == p;
    }
  }

  lemma NoPut(r: Option<(Bytes, Bytes)>)
    ensures Put([], r) == r
  {
    if r.Some? {
      assert [] + r.value.0 == r.value.0;
    }
  }

  /** A two-character escape, and one of six. */
  lemma ReadShort(c: bv8, tail: Bytes)
    requires c != 0x75 && Unescaped(c).Some?
    ensures ReadString([BACKSLASH, c] + tail) == Put([Unescaped(c).value], ReadString(tail))
  {
    hide HexUnit, Written, Unescaped;
    var t := [BACKSLASH, c] + tail;
    assert t[2..] == tail && t[0] == BACKSLASH && t[1] == c;
  }

  lemma ReadLong(a: bv8, b: bv8, c: bv8, d: bv8, unit: bv16, tail: Bytes)
    requires HexUnit(a, b, c, d) == Some(unit) && !(0xD800 <= unit <= 0xDFFF)
    ensures ReadString([BACKSLASH, 0x75, a, b, c, d] + tail) == Put(Written(unit), ReadString(tail))
  {
    hide HexUnit, Written, Unescaped;
    var t := [BACKSLASH, 0x75, a, b, c, d] + tail;
    assert t[6..] == tail && t[0] == BACKSLASH && t[1] == 0x75;
    assert t[2] == a && t[3] == b && t[4] == c && t[5] == d;
  }

  lemma ReadPlain(c: bv8, tail: Bytes)
    requires c >= 0x20 && c != QUOTE && c != BACKSLASH
    ensures ReadString([c] + tail) == Put([c], ReadString(tail))
  {
    hide HexUnit, Written, Unescaped;
    var t := [c] + tail;
    assert t[1..] == tail && t[0] == c;
  }

  lemma HexOfAscii(c: bv8)
    requires c < 0x80
    ensures HexUnit(0x30, 0x30, HexDigit(c >> 4), HexDigit(c & 0xF)) == Some(c as bv16)
    ensures Written(c as bv16) == [c]
  {
    HexOfDigit(c >> 4);
    HexOfDigit(c & 0xF);
    assert HexValue(0x30) == Some(0);
    var h, l := (c >> 4) as bv16, (c & 0xF) as bv16;
    assert (0 << 12) | (0 << 8) | (h << 4) | l == c as bv16;
  }

  lemma HexOfDigit(n: bv8)
    requires n < 16
    ensures HexValue(HexDigit(n)) == Some(n as bv16)
  {
  }

  lemma ReadAscii(c: bv8, tail: Bytes)
    requires c < 0x80
    ensures ReadString(GoAscii(c) + tail) == Put([c], ReadString(tail))
  {
    hide ReadString, HexUnit, Written, HexDigit;
    if c == QUOTE || c == BACKSLASH {
      ReadShort(c, tail);
    } else if c == 0x08 {
      ReadShort(0x62, tail);
    } else if c == 0x0C {
      ReadShort(0x66, tail);
    } else if c == 0x0A {
      ReadShort(0x6E, tail);
    } else if c == 0x0D {
      ReadShort(0x72, tail);
    } else if c == 0x09 {
      ReadShort(0x74, tail);
    } else if c < 0x20 || c == 0x3C || c == 0x3E || c == 0x26 {
      HexOfAscii(c);
      ReadLong(0x30, 0x30, HexDigit(c >> 4), HexDigit(c & 0xF), c as bv16, tail);
    } else {
      ReadPlain(c, tail);
    }
  }

  lemma ReadInvalid(tail: Bytes)
    ensures ReadString([BACKSLASH, 0x75, 0x66, 0x66, 0x66, 0x64] + tail) == Put([0xEF, 0xBF, 0xBD], ReadString(tail))
  {
    assert HexUnit(0x66, 0x66, 0x66, 0x64) == Some(0xFFFD);
    assert Written(0xFFFD) == [0xEF, 0xBF, 0xBD];
    hide HexUnit, Written, ReadString;
    ReadLong(0x66, 0x66, 0x66, 0x64, 0xFFFD, tail);
  }

  lemma ReadSeparator(last: bv8, tail: Bytes)
    requires last & 0xFE == 0xA8
    ensures ReadString([BACKSLASH, 0x75, 0x32, 0x30, 0x32, 0x38 + (last & 1)] + tail) ==
            Put([0xE2, 0x80, last], ReadString(tail))
  {
    assert last == 0xA8 || last == 0xA9;
    var unit: bv16 := if last == 0xA8 then 0x2028 else 0x2029;
    assert HexUnit(0x32, 0x30, 0x32, 0x38 + (last & 1)) == Some(unit);
    assert Written(unit) == [0xE2, 0x80, last];
    hide HexUnit, Written, ReadString;
    ReadLong(0x32, 0x30, 0x32, 0x38 + (last & 1), unit, tail);
  }

  /**
   The string that Go writes is read back as the text, up to its closing quote and whatever follows; only bytes
   that are not UTF-8 come back as U+FFFD.
   */
  lemma {:induction false} GoRoundTrip(s: Bytes, rest: Bytes)
    ensures ReadString(GoEscape(s) + [QUOTE] + rest) == Some((Repaired(s), rest))
  {
    if s == [] {
      assert GoEscape(s) + [QUOTE] + rest == [QUOTE] + rest;
      assert ([QUOTE] + rest)[1..] == rest;
    } else {
      hide ReadString, GoEscape, Repaired, RuneLength, ReadPoint;
      var n := Taken(s);
      var head, more := EscapedHead(s), GoEscape(s[n..]) + [QUOTE] + rest;
      EscapeHead(s);
      assert head + GoEscape(s[n..]) + [QUOTE] + rest == head + more;
      GoRoundTrip(s[n..], rest);
      ReadHead(s, more);
      RepairHead(s);
    }
  }

  /** How many bytes one step of the writer takes, what it writes for them and what a reader gets. */
  function Taken(s: Bytes): (n: nat)
    requires s != []
    ensures 1 <= n <= |s|
  {
    if s[0] < 0x80 || RuneLength(s) == 0 then 1 else RuneLength(s)
  }

  function EscapedHead(s: Bytes): Bytes
    requires s != []
  {
    var n := RuneLength(s);
    if s[0] < 0x80 then GoAscii(s[0])
    else if n == 0 then [BACKSLASH, 0x75, 0x66, 0x66, 0x66, 0x64]
    else if n == 3 && s[0] == 0xE2 && s[1] == 0x80 && s[2] & 0xFE == 0xA8 then
      [BACKSLASH, 0x75, 0x32, 0x30, 0x32, 0x38 + (s[2] & 1)]
    else s[..n]
  }

  function RepairedHead(s: Bytes): Bytes
    requires s != []
  {
    if s[0] >= 0x80 && RuneLength(s) == 0 then [0xEF, 0xBF, 0xBD] else s[..Taken(s)]
  }

  lemma EscapeHead(s: Bytes)
    requires s != []
    ensures GoEscape(s) == EscapedHead(s) + GoEscape(s[Taken(s)..])
  {
    hide GoAscii, RuneLength;
  }

  lemma RepairHead(s: Bytes)
    requires s != []
    ensures Repaired(s) == RepairedHead(s) + Repaired(s[Taken(s)..])
  {
    if s[0] >= 0x80 {
      RuneIsPoint(s);
      hide RuneLength, ReadPoint;
    } else {
      hide RuneLength;
    }
  }

  lemma ReadHead(s: Bytes, tail: Bytes)
    requires s != []
    ensures ReadString(EscapedHead(s) + tail) == Put(RepairedHead(s), ReadString(tail))
  {
    hide ReadString, RuneLength, GoAscii;
    var n := RuneLength(s);
    if s[0] < 0x80 {
      ReadAscii(s[0], tail);
      assert s[..1] == [s[0]];
    } else if n == 0 {
      ReadInvalid(tail);
    } else if n == 3 && s[0] == 0xE2 && s[1] == 0x80 && s[2] & 0xFE == 0xA8 {
      ReadSeparator(s[2], tail);
      assert s[..3] == [0xE2, 0x80, s[2]];
    } else {
      ReadCopied(s[..n], tail);
    }
  }

  /** The short escapes, `\u00XX` for other control characters and for '<', '>' and '&', everything else as it is. */
  lemma GoWrites(c: bv8)
    requires c < 0x80
    ensures c == 0x08 ==> GoAscii(c) == [0x5C, 0x62]
    ensures c == 0x09 ==> GoAscii(c) == [0x5C, 0x74]
    ensures c == 0x0A ==> GoAscii(c) == [0x5C, 0x6E]
    ensures c == 0x0C ==> GoAscii(c) == [0x5C, 0x66]
    ensures c == 0x0D ==> GoAscii(c) == [0x5C, 0x72]
    ensures c == 0x22 || c == 0x5C ==> GoAscii(c) == [0x5C, c]
    ensures c == 0x1F ==> GoAscii(c) == [0x5C, 0x75, 0x30, 0x30, 0x31, 0x66]
    ensures c == 0x26 ==> GoAscii(c) == [0x5C, 0x75, 0x30, 0x30, 0x32, 0x36]
    ensures c == 0x3C ==> GoAscii(c) == [0x5C, 0x75, 0x30, 0x30, 0x33, 0x63]
    ensures c == 0x3E ==> GoAscii(c) == [0x5C, 0x75, 0x30, 0x30, 0x33, 0x65]
    ensures c < 0x20 && c != 0x08 && c != 0x09 && c != 0x0A && c != 0x0C && c != 0x0D ==> |GoAscii(c)| == 6
    ensures c >= 0x20 && c != 0x22 && c != 0x26 && c != 0x3C && c != 0x3E && c != 0x5C ==> GoAscii(c) == [c]
  {
  }

  // ---- The whole response

  datatype Reply = Reply(success: bool, data: Bytes, err: Bytes)

  /** `{"success":true`, `{"success":false`, `,"data":"`, `,"err":"` */
  const SUCCESS_HEAD: Bytes :=
    [0x7B, 0x22, 0x73, 0x75, 0x63, 0x63, 0x65, 0x73, 0x73, 0x22, 0x3A, 0x74, 0x72, 0x75, 0x65]
  const FAILURE_HEAD: Bytes :=
    [0x7B, 0x22, 0x73, 0x75, 0x63, 0x63, 0x65, 0x73, 0x73, 0x22, 0x3A, 0x66, 0x61, 0x6C, 0x73, 0x65]
  const DATA_KEY: Bytes := [0x2C, 0x22, 0x64, 0x61, 0x74, 0x61, 0x22, 0x3A, 0x22]
  const ERR_KEY: Bytes := [0x2C, 0x22, 0x65, 0x72, 0x72, 0x22, 0x3A, 0x22]

  /** Reads the JSON object of a callResponse, in the order in which its fields are declared. */
  function ReadReply(t: Bytes): Option<Reply> {
    match After(SUCCESS_HEAD, t)
    case Some(rest) => ReadData(true, rest)
    case None =>
      match After(FAILURE_HEAD, t)
      case Some(rest) => ReadData(false, rest)
      case None => None
  }

  function ReadData(success: bool, t: Bytes): Option<Reply> {
    match After(DATA_KEY, t)
    case None => ReadErr(success, [], t)
    case Some(text) =>
      match ReadString(text)
      case None => None
      case Some(read) => ReadErr(success, read.0, read.1)
  }

  function ReadErr(success: bool, data: Bytes, t: Bytes): Option<Reply> {
    match After(ERR_KEY, t)
    case None => if t == [0x7D] then Some(Reply(success, data, [])) else None
    case Some(text) =>
      match ReadString(text)
      case None => None
      case Some(read) => if read.1 == [0x7D] then Some(Reply(success, data, read.0)) else None
  }

  lemma Keys()
    ensures [COMMA_BYTE] + DATA + [COLON_BYTE, QUOTE] == DATA_KEY
    ensures [COMMA_BYTE] + ERR + [COLON_BYTE, QUOTE] == ERR_KEY
    ensures ObjectHead(true) == SUCCESS_HEAD && ObjectHead(false) == FAILURE_HEAD
    ensures CLOSE_BRACE == 0x7D
  {
  }

  lemma FieldIs(key: Bytes, text: Bytes, rest: Bytes)
    requires text != []
    ensures Field(key, text) + rest == [COMMA_BYTE] + key + [COLON_BYTE, QUOTE] + (GoEscape(text) + [QUOTE] + rest)
  {
    hide GoEscape;
  }

  lemma ErrReads(success: bool, data: Bytes, err: Bytes)
    ensures ReadErr(success, data, Field(ERR, err) + [CLOSE_BRACE]) == Some(Reply(success, data, Repaired(err)))
  {
    hide ReadString, GoEscape, Repaired, Field, After;
    Keys();
    if err == [] {
      NoField(ERR, [CLOSE_BRACE]);
      OtherStart(ERR_KEY, [CLOSE_BRACE]);
    } else {
      FieldIs(ERR, err, [CLOSE_BRACE]);
      AfterPrefix(ERR_KEY, GoEscape(err) + [QUOTE] + [CLOSE_BRACE]);
      GoRoundTrip(err, [CLOSE_BRACE]);
    }
  }

  lemma NoField(key: Bytes, rest: Bytes)
    ensures Field(key, []) + rest == rest && Repaired([]) == []
  {
  }

  lemma OtherStart(prefix: Bytes, t: Bytes)
    requires prefix != [] && (t == [] || (|t| < |prefix| || exists i :: 0 <= i < |prefix| && t[i] != prefix[i]))
    ensures After(prefix, t) == None
  {
  }

  lemma DataReads(success: bool, data: Bytes, err: Bytes)
    ensures ReadData(success, Field(DATA, data) + (Field(ERR, err) + [CLOSE_BRACE])) ==
            Some(Reply(success, Repaired(data), Repaired(err)))
  {
    hide ReadString, GoEscape, Repaired, Field, After, ReadErr;
    Keys();
    var rest := Field(ERR, err) + [CLOSE_BRACE];
    ErrReads(success, Repaired(data), err);
    if data == [] {
      NoField(DATA, rest);
      ErrStart(err);
      OtherStart(DATA_KEY, rest);
    } else {
      FieldIs(DATA, data, rest);
      AfterPrefix(DATA_KEY, GoEscape(data) + [QUOTE] + rest);
      GoRoundTrip(data, rest);
    }
  }

  /** Where `data` is left out, what follows is not its key. */
  lemma ErrStart(err: Bytes)
    ensures var rest := Field(ERR, err) + [CLOSE_BRACE]; var key := DATA_KEY;
      |rest| < |key| || exists i :: 0 <= i < |key| && rest[i] != key[i]
  {
    hide GoEscape;
    var rest := Field(ERR, err) + [CLOSE_BRACE];
    var key := DATA_KEY;
    if err == [] {
      NoField(ERR, [CLOSE_BRACE]);
    } else {
      FieldIs(ERR, err, [CLOSE_BRACE]);
      assert rest[2] == 0x65 && key[2] == 0x64;
    }
  }

  /** A JSON reader gets from a response the outcome and both texts, as far as they are UTF-8. */
  lemma ResponseReads(data: Bytes, err: Option<Bytes>)
    ensures ReadReply(Marshalled(data, err)) ==
            Some(Reply(err.None?, Repaired(data), Repaired(if err.Some? then err.value else [])))
  {
    hide ReadString, GoEscape, Repaired, Field, After, ReadErr, ReadData, ObjectHead;
    Keys();
    var text := if err.Some? then err.value else [];
    var rest := Field(DATA, data) + (Field(ERR, text) + [CLOSE_BRACE]);
    assert Marshalled(data, err) == ObjectHead(err.None?) + rest;
    DataReads(err.None?, data, text);
    AfterPrefix(ObjectHead(err.None?), rest);
    if err.Some? {
      assert (ObjectHead(false) + rest)[11] == 0x66;
      assert SUCCESS_HEAD[11] == 0x74;
      OtherStart(SUCCESS_HEAD, ObjectHead(false) + rest);
    }
  }
}
