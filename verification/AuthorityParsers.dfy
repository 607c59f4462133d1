/** The two authority parsers of the repository, PrivateNetwork.ets against IdnUrl.ets. */
module AuthorityParsers {
  import opened JsText
  import opened IdnUrl
  import opened IdnUrlProperties
  import opened IdnUrlReparse

  /** Cut at the first occurrence of c. */
  function CutAt(s: Text, c: Unit): (r: Text)
    ensures r <= s
  {
    var position := IndexOf(s, c, 0);
    if position >= 0 then s[..position] else s
  }

  function TextAfterAt(authority: Text): Text { authority[LastIndexOf(authority, AT) + 1..] }

  /** The last steps of extractUrlHost, on the text after the last '@'. */
  function HostAfter(text: Text): Text {
    if text != [] && text[0] == OPEN_BRACKET then
      var close := IndexOf(text, CLOSE_BRACKET, 0);
      if close > 0 then text[1..close] else text[1..]
    else CutAt(text, COLON)
  }

  /** What precedes the first '/', '?' or '#'. */
  function AuthorityIn(rest: Text): Text { rest[..AuthorityEnd(rest, 0)] }

  function ExtractedHost(url: Text): Text {
    var scheme := IndexOfText(url, SCHEME_END, 0);
    if scheme < 0 then [] else HostAfter(TextAfterAt(AuthorityIn(url[scheme + 3..])))
  }

  /** Cutting three times, in any state of the text, is one search for the earliest terminator. */
  lemma CutsAreMinimum(rest: Text)
    ensures CutAt(CutAt(CutAt(rest, SLASH), QUESTION), HASH) == AuthorityIn(rest)
  {
    var a := CutAt(rest, SLASH);
    var b := CutAt(a, QUESTION);
    var c := CutAt(b, HASH);
    CutIs(rest, SLASH);
    CutIs(a, QUESTION);
    CutIs(b, HASH);
    assert c <= b <= a <= rest;
    FirstTerminator(rest, 0, |c|);
  }

  lemma CutIs(s: Text, c: Unit)
    ensures c !in CutAt(s, c)
    ensures |CutAt(s, c)| < |s| ==> s[|CutAt(s, c)|] == c
  {
  }

  method ExtractUrlHost(url: Text) returns (host: Text)
    ensures host == ExtractedHost(url)
  {
    hide AuthorityIn, CutAt;
    var schemeIndex := IndexOfText(url, SCHEME_END, 0);
    if schemeIndex < 0 {
      return [];
    }
    var authority := url[schemeIndex + 3..];
    ghost var rest := authority;
    var terminators := [SLASH, QUESTION, HASH];
    for index := 0 to 3
      invariant index == 0 ==> authority == rest
      invariant index == 1 ==> authority == CutAt(rest, SLASH)
      invariant index == 2 ==> authority == CutAt(CutAt(rest, SLASH), QUESTION)
      invariant index == 3 ==> authority == CutAt(CutAt(CutAt(rest, SLASH), QUESTION), HASH)
    {
      var position := IndexOf(authority, terminators[index], 0);
      CutIsIndex(authority, terminators[index]);
      if position >= 0 {
        authority := authority[..position];
      }
    }
    CutsAreMinimum(rest);
    ghost var text := TextAfterAt(authority);
    var at := LastIndexOf(authority, AT);
    if at >= 0 {
      authority := authority[at + 1..];
    }
    assert authority == text;
    if authority != [] && authority[0] == OPEN_BRACKET {
      var close := IndexOf(authority, CLOSE_BRACKET, 0);
      return if close > 0 then authority[1..close] else authority[1..];
    }
    var colon := IndexOf(authority, COLON, 0);
    CutIsIndex(authority, COLON);
    return if colon >= 0 then authority[..colon] else authority;
  }

  lemma CutIsIndex(s: Text, c: Unit)
    ensures CutAt(s, c) == if IndexOf(s, c, 0) >= 0 then s[..IndexOf(s, c, 0)] else s
  {
  }

  /** A closed bracket form, or at most one colon, which is not the first unit. */
  predicate Regular(text: Text) {
    || text == []
    || Bracketed(text)
    || (text[0] != OPEN_BRACKET && text[0] != COLON && Count(text, COLON) <= 1)
  }

  function RangeText(text: Text): Text { text[HostIn(text).start..HostIn(text).end] }

  lemma ColonCases(text: Text)
    requires text != [] && text[0] != OPEN_BRACKET
    ensures HostAfter(text) == RangeText(text) <==> text[0] != COLON && Count(text, COLON) <= 1
  {
    hide Count, HostIn;
    HostInIs(text);
    CountMember(text, COLON);
    var colon := IndexOf(text, COLON, 0);
    if colon == 0 {
      CountBefore(text, COLON, 0);
    }
  }

  /** Without a closing bracket the two hosts always differ. */
  lemma OpenCase(text: Text)
    requires text != [] && text[0] == OPEN_BRACKET && CLOSE_BRACKET !in text
    ensures HostAfter(text) != RangeText(text)
  {
    hide Count, HostIn;
    HostInIs(text);
    var r := RangeText(text);
    assert HostAfter(text) == text[1..];
    assert r != [] && r[0] == OPEN_BRACKET;
  }

  /** The two parsers extract the same host exactly from regular texts. */
  lemma HostsAgree(text: Text)
    ensures HostAfter(text) == RangeText(text) <==> Regular(text)
  {
    hide Count, HostIn;
    HostInIs(text);
    if text == [] {
    } else if Bracketed(text) {
      var r := HostIn(text);
      assert forall j | 1 <= j < r.end :: text[1..r.end][j - 1] == text[j];
      assert IndexOf(text, CLOSE_BRACKET, 0) == r.end;
    } else if text[0] == OPEN_BRACKET {
      OpenCase(text);
    } else {
      ColonCases(text);
    }
  }

  lemma SuffixEnd(url: Text, from: nat)
    requires from <= |url|
    ensures AuthorityIn(url[from..]) == url[from..AuthorityEnd(url, from)]
  {
    var end := AuthorityEnd(url, from);
    FirstTerminator(url[from..], 0, end - from);
  }

  lemma ExtractedParts(url: Text)
    requires IndexOfText(url, SCHEME_END, 0) >= 0
    ensures ExtractedHost(url) == HostAfter(PartsOf(url).authority[PartsOf(url).text..])
  {
    hide HostAfter, AuthorityIn, AuthorityEnd;
    SuffixEnd(url, IndexOfText(url, SCHEME_END, 0) + 3);
  }

  lemma RangeParts(url: Text)
    requires Locate(url).Some?
    ensures IndexOfText(url, SCHEME_END, 0) >= 0
    ensures var r := Locate(url).value;
      url[r.start..r.end] == RangeText(PartsOf(url).authority[PartsOf(url).text..])
  {
    hide HostIn, Locate, PartsOf;
    LocateParts(url);
    var p := PartsOf(url);
    var h := HostIn(p.authority[p.text..]);
    Nested(url, p, h.start, h.end);
  }

  /** On whole URLs: the host IdnUrl rewrites is the host PrivateNetwork tests, or the authority is irregular. */
  lemma {:induction false} ParsersAgree(url: Text)
    requires Locate(url).Some?
    ensures IndexOfText(url, SCHEME_END, 0) >= 0
    ensures var p := PartsOf(url);
      var r := Locate(url).value;
      ExtractedHost(url) == url[r.start..r.end] <==> Regular(p.authority[p.text..])
  {
    hide RangeText, HostAfter, ExtractedHost, Regular, Locate, PartsOf;
    RangeParts(url);
    ExtractedParts(url);
    HostsAgree(PartsOf(url).authority[PartsOf(url).text..]);
  }
}
