/** What every character means to the two Base64 decoders, in the characters themselves. */
module Base64Characters {
  import opened JsText
  import opened Base64
  import ArkBase64
  import NativeBase64
  import opened Base64Agreement

  predicate IsAlphanumeric(c: char) { 'A' <= c <= 'Z' || 'a' <= c <= 'z' || '0' <= c <= '9' }

  /** RFC 4648, table 1, with the two letters of table 2 beside the ones they replace. */
  function ValueOf(c: char): (x: int)
    ensures -1 <= x < 64
  {
    if 'A' <= c <= 'Z' then c as int - 'A' as int
    else if 'a' <= c <= 'z' then c as int - 'a' as int + 26
    else if '0' <= c <= '9' then c as int - '0' as int + 52
    else if c == '+' || c == '-' then 62
    else if c == '/' || c == '_' then 63
    else -1
  }

  lemma IndexIsValue(c: char)
    ensures IndexOfChar(c) == if c == '-' || c == '_' then -1 else ValueOf(c)
  {
    var k, x := IndexOfChar(c), ValueOf(c);
    if k >= 0 {
      AlphabetAt(k);
    } else if x >= 0 && c != '-' && c != '_' {
      AlphabetAt(x);
      IndexOfAlphabet(x);
    }
  }

  lemma LetterIsValue(c: char)
    ensures IndexOfChar(Letter(c)) == ValueOf(c)
  {
    IndexIsValue(Letter(c));
    hide IndexOfChar;
  }

  /** A letter of either alphabet, or one of the four characters of white space. */
  predicate Allowed(c: char) {
    IsAlphanumeric(c) || c == '+' || c == '-' || c == '/' || c == '_' || c == ' ' || c == '\n' || c == '\r' || c == '\t'
  }

  predicate AllAllowed(t: string) {
    forall i | 0 <= i < |t| && '=' !in t[..i + 1] :: Allowed(t[i])
  }

  function Values(t: string): seq<bv6> {
    if t == "" || t[0] == '=' then []
    else if ValueOf(t[0]) < 0 then Values(t[1..])
    else [ValueOf(t[0]) as bv6] + Values(t[1..])
  }

  lemma AllowedTail(t: string)
    requires t != "" && t[0] != '='
    ensures AllAllowed(t) <==> Allowed(t[0]) && AllAllowed(t[1..])
  {
    var tail := t[1..];
    hide Allowed;
    assert t[..0 + 1] == [t[0]];
    forall i | 0 <= i < |tail|
      ensures tail[i] == t[i + 1] && ('=' in tail[..i + 1] <==> '=' in t[..i + 2])
    {
      assert t[..i + 2] == [t[0]] + tail[..i + 1];
    }
    if AllAllowed(t) {
      forall i | 0 <= i < |tail| && '=' !in tail[..i + 1]
        ensures Allowed(tail[i])
      {
        assert '=' !in t[..(i + 1) + 1];
      }
    }
    if AllAllowed(tail) && Allowed(t[0]) {
      forall i | 0 <= i < |t| && '=' !in t[..i + 1]
        ensures Allowed(t[i])
      {
        if i > 0 {
          assert '=' !in tail[..(i - 1) + 1];
          assert t[i] == tail[i - 1];
        }
      }
    }
  }

  lemma {:induction false} ReadableIs(t: string)
    ensures Readable(t) <==> AllAllowed(t)
    ensures Read(t) == Values(t)
  {
    if t != "" {
      if t[0] == '=' {
        forall i | 0 <= i < |t|
          ensures '=' !in t[..i + 1] ==> Allowed(t[i])
        {
          assert t[..i + 1][0] == '=';
        }
      } else {
        AllowedTail(t);
        LetterIsValue(t[0]);
        hide IndexOfChar, AllAllowed, Letter;
        ReadableIs(t[1..]);
      }
    }
  }

  /**
   The ArkTS decoder accepts a text exactly if up to the first '=' there are only letters of either alphabet,
   spaces, tabs and line ends, and the letters are then read with the values of the RFC.
   */
  lemma ArkExactly(t: string)
    ensures ArkBase64.Decoded(t) == if AllAllowed(t) then ArkBase64.Ok(Octets(Values(t))) else ArkBase64.Err
  {
    hide ReadAll, Octets, AllAllowed, Readable, Read, Values, ArkBase64.Plain;
    ArkReads(t);
    ReadableIs(t);
  }

  /** Normalising drops white space, maps the two URL-safe letters, and fills up with '=' unless one letter is over. */
  lemma NormalizedExactly(c: char, t: string)
    ensures ArkBase64.Plain("") == ""
    ensures ArkBase64.Plain([c] + t) ==
      (if c == ' ' || c == '\n' || c == '\r' || c == '\t' then ""
       else if c == '-' then "+" else if c == '_' then "/" else [c]) + ArkBase64.Plain(t)
    ensures var plain := ArkBase64.Plain(t); var rest := |plain| % 4;
      ArkBase64.Normalized(t) == plain + (if rest == 2 then "==" else if rest == 3 then "=" else "")
  {
    assert ([c] + t)[1..] == t;
    ArkBase64.StandardCons(c, ArkBase64.Stripped(t));
    hide ArkBase64.Standard;
    assert "" + ArkBase64.Plain(t) == ArkBase64.Plain(t) == ArkBase64.Plain(t) + "";
  }

  /** The values of the standard letters alone: what the C++ decoder reads of any text. */
  function StandardValues(t: string): seq<bv6> {
    if t == "" || t[0] == '=' then []
    else if ValueOf(t[0]) < 0 || t[0] == '-' || t[0] == '_' then StandardValues(t[1..])
    else [ValueOf(t[0]) as bv6] + StandardValues(t[1..])
  }

  lemma {:induction false} NativeExactly(t: string)
    ensures NativeBase64.Kept(t) == StandardValues(t)
    ensures NativeBase64.Decoded(t) == Octets(StandardValues(t))
  {
    hide Octets;
    if t != "" {
      IndexIsValue(t[0]);
      hide IndexOfChar;
      NativeExactly(t[1..]);
    }
  }

  /** Before the first '=' any other character makes the ArkTS decoder fail. */
  lemma OtherCharacterFails(a: string, c: char, b: string)
    requires '=' !in a && c != '=' && !IsAlphanumeric(c) && c !in "+-/_ \n\r\t"
    ensures ArkBase64.Decoded(a + [c] + b) == ArkBase64.Err
  {
    var t := a + [c] + b;
    assert t[..|a| + 1] == a + [c] && t[|a|] == c;
    assert forall d | d == '+' || d == '-' || d == '/' || d == '_' || d == ' ' || d == '\n' || d == '\r' || d == '\t' ::
        d in "+-/_ \n\r\t";
    assert !Allowed(c);
    assert !AllAllowed(t);
    hide AllAllowed, Allowed;
    ArkExactly(t);
  }
}
