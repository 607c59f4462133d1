/** Reading the rewritten URL again with the same parser. */
module IdnUrlReparse {
  import opened JsText
  import opened Unicode16
  import opened IdnUrl
  import opened IdnUrlProperties

  /** The text with the host at r replaced by its ASCII form. */
  function WithNewHost(text: Text, r: Range): Text
    requires r.start <= r.end <= |text|
  {
    text[..r.start] + IdnDomain(text[r.start..r.end]) + text[r.end..]
  }

  /** Replacing the host inside a longer text. */
  lemma SpliceInside(front: Text, text: Text, back: Text, r: Range)
    requires r.start <= r.end <= |text|
    ensures WithNewHost(front + text + back, Range(|front| + r.start, |front| + r.end)) ==
            front + WithNewHost(text, r) + back
  {
    hide IdnDomain;
    var all, host := front + text + back, text[r.start..r.end];
    assert all[..|front| + r.start] == front + text[..r.start];
    assert all[|front| + r.start..|front| + r.end] == host;
    assert all[|front| + r.end..] == text[r.end..] + back;
    Associate(front, text[..r.start], IdnDomain(host), text[r.end..], back);
  }

  lemma Associate(a: Text, b: Text, c: Text, d: Text, e: Text)
    ensures (a + b) + c + (d + e) == a + (b + c + d) + e
  {
  }

  lemma CountSplice(text: Text, r: Range, c: Unit)
    requires r.start <= r.end <= |text| && Kept(c)
    ensures Count(WithNewHost(text, r), c) == Count(text, c)
    ensures c in WithNewHost(text, r) <==> c in text
  {
    hide Count, IdnDomain;
    var before, host, after := text[..r.start], text[r.start..r.end], text[r.end..];
    var renewed := IdnDomain(host);
    assert text == before + host + after;
    CountAppend(before + host, after, c);
    CountAppend(before, host, c);
    CountAppend(before + renewed, after, c);
    CountAppend(before, renewed, c);
    CountDomain(host, c);
    CountMember(text, c);
    CountMember(before + renewed + after, c);
  }

  lemma {:induction false} SingleCount(s: Text, c: Unit)
    requires c in s
    ensures LastIndexOf(s, c) == IndexOf(s, c, 0) <==> Count(s, c) == 1
  {
    var first := IndexOf(s, c, 0);
    var tail := s[first + 1..];
    CountBefore(s, c, first);
    CountMember(tail, c);
    if c in tail {
      var j :| 0 <= j < |tail| && tail[j] == c;
      assert s[first + 1 + j] == c;
    } else {
      assert forall j | first < j < |s| :: s[j] == tail[j - first - 1];
    }
  }

  lemma CountBefore(s: Text, c: Unit, first: nat)
    requires first < |s| && s[first] == c && c !in s[..first]
    ensures Count(s, c) == 1 + Count(s[first + 1..], c)
  {
    assert s == s[..first] + ([c] + s[first + 1..]);
    CountAppend(s[..first], [c] + s[first + 1..], c);
    CountMember(s[..first], c);
  }

  /** Neither the colon nor a bracket can make the new host a different range of the text. */
  predicate HostStays(text: Text) {
    HostIn(text).start == 1 || !ColonMoves(text[..HostIn(text).end])
  }

  predicate Bracketed(text: Text) {
    text != [] && text[0] == OPEN_BRACKET && CLOSE_BRACKET in text
  }

  lemma HostInIs(text: Text)
    ensures Bracketed(text) ==>
      var r := HostIn(text);
      r.start == 1 && r.end < |text| && text[r.end] == CLOSE_BRACKET && CLOSE_BRACKET !in text[1..r.end]
    ensures !Bracketed(text) ==>
      var colon := IndexOf(text, COLON, 0);
      HostIn(text) == Range(0, if colon > 0 && Count(text, COLON) == 1 then colon else |text|)
  {
    if Bracketed(text) {
      var k :| 0 <= k < |text| && text[k] == CLOSE_BRACKET;
    } else {
      if COLON in text {
        SingleCount(text, COLON);
      }
    }
  }

  lemma BracketCase(text: Text)
    requires Bracketed(text)
    ensures var r := HostIn(text);
      HostIn(WithNewHost(text, r)) == Range(1, 1 + |IdnDomain(text[1..r.end])|)
  {
    hide Count, IdnDomain, HostIn;
    HostInIs(text);
    var r := HostIn(text);
    var host := text[1..r.end];
    var renewed := WithNewHost(text, r);
    var d := IdnDomain(host);
    CountDomain(host, CLOSE_BRACKET);
    CountMember(host, CLOSE_BRACKET);
    CountMember(d, CLOSE_BRACKET);
    assert renewed[0] == OPEN_BRACKET && renewed[1..1 + |d|] == d && renewed[1 + |d|] == CLOSE_BRACKET;
    HostInIs(renewed);
    var e := HostIn(renewed).end;
    assert forall j | 1 <= j < 1 + |d| :: renewed[j] == d[j - 1];
    assert forall j | 1 <= j < e :: renewed[1..e][j - 1] == renewed[j];
  }

  lemma NotBracketedAfter(text: Text)
    requires !Bracketed(text) && HostIn(text).start == 0
    ensures !Bracketed(WithNewHost(text, HostIn(text)))
  {
    hide Count, IdnDomain, HostIn, ColonMoves;
    HostInIs(text);
    var r := HostIn(text);
    CountSplice(text, r, CLOSE_BRACKET);
    var host := text[..r.end];
    if host != [] {
      FirstUnit(host, OPEN_BRACKET);
    }
  }

  lemma PortCase(text: Text)
    requires !Bracketed(text) && HostIn(text).end < |text|
    ensures var r := HostIn(text);
      && !ColonMoves(text[..r.end])
      && HostIn(WithNewHost(text, r)) == Range(0, |IdnDomain(text[..r.end])|)
  {
    hide Count, IdnDomain, HostIn;
    HostInIs(text);
    NotBracketedAfter(text);
    var r := HostIn(text);
    var host := text[..r.end];
    var d := IdnDomain(host);
    var renewed := WithNewHost(text, r);
    CountSplice(text, r, COLON);
    CountDomain(host, COLON);
    CountMember(host, COLON);
    CountMember(d, COLON);
    FirstUnit(host, COLON);
    assert renewed[|d|] == COLON && forall j | 0 <= j < |d| :: renewed[j] == d[j];
    assert IndexOf(renewed, COLON, 0) == |d|;
    HostInIs(renewed);
  }

  lemma WholeCase(text: Text)
    requires !Bracketed(text) && HostIn(text).end == |text|
    ensures WithNewHost(text, HostIn(text)) == IdnDomain(text)
    ensures HostIn(IdnDomain(text)) == Range(0, |IdnDomain(text)|) <==> !ColonMoves(text)
    ensures HostIn(IdnDomain(text)).start == 0
  {
    hide Count, IdnDomain, HostIn, ColonMoves;
    HostInIs(text);
    NotBracketedAfter(text);
    var d := IdnDomain(text);
    assert text[0..|text|] == text && [] + d + [] == d;
    CountDomain(text, COLON);
    CountMember(text, COLON);
    CountMember(d, COLON);
    HostInIs(d);
    WholeColon(text);
  }

  lemma WholeColon(text: Text)
    requires !Bracketed(text) && HostIn(text).end == |text|
    ensures var d := IdnDomain(text);
      ColonMoves(text) <==> Count(d, COLON) == 1 && IndexOf(d, COLON, 0) > 0
  {
    hide Count, IdnDomain, HostIn, Labels;
    HostInIs(text);
    var d := IdnDomain(text);
    CountDomain(text, COLON);
    CountMember(text, COLON);
    CountMember(d, COLON);
    if COLON in text && text[0] == COLON {
      CountBefore(text, COLON, 0);
      CountMember(text[1..], COLON);
      FirstUnit(text, COLON);
    }
  }

  /** The new host is found exactly where it was put, unless a leading colon moves. */
  lemma {:induction false} HostRelocates(text: Text)
    ensures var r := HostIn(text);
      HostIn(WithNewHost(text, r)) == Range(r.start, r.start + |IdnDomain(text[r.start..r.end])|) <==> HostStays(text)
  {
    hide IdnDomain, HostIn, ColonMoves, Count;
    HostInIs(text);
    var r := HostIn(text);
    if Bracketed(text) {
      BracketCase(text);
    } else if r.end < |text| {
      PortCase(text);
    } else {
      WholeCase(text);
      assert text[..r.end] == text;
    }
  }

  /** What follows the host up to the end of the authority: a closing bracket, a port. */
  function AfterHost(text: Text): Text { text[HostIn(text).end..] }

  /** It is read back as it was under the same condition: else the moved colon opens a port that was not there. */
  lemma AfterHostReadBack(text: Text)
    ensures AfterHost(WithNewHost(text, HostIn(text))) == AfterHost(text) <==> HostStays(text)
  {
    hide IdnDomain, HostIn, ColonMoves, Count;
    HostRelocates(text);
    HostInIs(text);
    var r := HostIn(text);
    var d := IdnDomain(text[r.start..r.end]);
    var renewed := WithNewHost(text, r);
    if HostStays(text) {
      assert renewed[r.start + |d|..] == text[r.end..];
    } else {
      if r.end < |text| {
        PortCase(text);
      }
      assert text[..r.end] == text && text[r.end..] == [];
      WholeCase(text);
    }
  }

  /** `:é`: rewritten to `xn--:-` and digits, which is read as a host and a port. */
  lemma LeadingColonMoves(text: Text)
    requires text == [COLON, 0xE9]
    ensures !HostStays(text) && HostIn(text) == Range(0, 2)
    ensures HostIn(WithNewHost(text, HostIn(text))) != Range(0, |IdnDomain(text)|)
    ensures AfterHost(text) == [] && AfterHost(WithNewHost(text, HostIn(text))) != []
  {
    assert NormalizedDots(text) == text && DOT !in text;
    SplitWhole(text, DOT);
    assert Labels(text) == [text];
    assert text[1] >= 0x80 && NotAscii(text);
    assert text[1..] == [0xE9] && COLON !in text[1..];
    assert text[..2] == text && text[0..2] == text;
    LeadingColonHost(text);
    hide IdnDomain, Labels, HostIn;
    HostRelocates(text);
    AfterHostReadBack(text);
  }

  lemma LeadingColonHost(text: Text)
    requires |text| == 2 && text[0] == COLON && text[1] != COLON
    ensures HostIn(text) == Range(0, 2)
  {
  }

  // ---- The whole URL

  lemma SchemeKept(url: Text, renewed: Text)
    requires var k := IndexOfText(url, SCHEME_END, 0);
      k >= 0 && k + 3 <= |renewed| && renewed[..k + 3] == url[..k + 3]
    ensures IndexOfText(renewed, SCHEME_END, 0) == IndexOfText(url, SCHEME_END, 0)
  {
    hide IndexOfText;
    var k := IndexOfText(url, SCHEME_END, 0);
    SameOccurrence(url, renewed, k + 3, k);
    var q := IndexOfText(renewed, SCHEME_END, 0);
    if 0 <= q < k {
      SameOccurrence(renewed, url, k + 3, q);
    }
  }

  lemma SameOccurrence(a: Text, b: Text, limit: nat, k: nat)
    requires k + 3 <= limit <= |a| && limit <= |b| && a[..limit] == b[..limit]
    ensures OccursAt(a, SCHEME_END, k) ==> OccursAt(b, SCHEME_END, k)
  {
    assert a[k..k + 3] == a[..limit][k..k + 3];
    assert b[k..k + 3] == b[..limit][k..k + 3];
  }

  lemma AuthorityKept(front: Text, former: Text, renewed: Text, back: Text)
    requires AuthorityEnd(front + former + back, |front|) == |front| + |former|
    requires forall c | c in renewed :: !IsTerminator(c)
    ensures AuthorityEnd(front + renewed + back, |front|) == |front| + |renewed|
  {
    hide AuthorityEnd;
    Middle(front, former, back);
    Middle(front, renewed, back);
    FirstTerminator(front + renewed + back, |front|, |front| + |renewed|);
  }

  lemma Middle(front: Text, mid: Text, back: Text)
    ensures var s := front + mid + back;
      && |s| == |front| + |mid| + |back|
      && (forall j | |front| <= j < |front| + |mid| :: s[j] in mid)
      && (back != [] ==> s[|front| + |mid|] == back[0])
  {
    var s := front + mid + back;
    forall j | |front| <= j < |front| + |mid|
      ensures s[j] in mid
    {
      assert s[j] == mid[j - |front|];
    }
  }

  lemma UserinfoStart(authority: Text)
    ensures var text := HostTextStart(authority);
      && (text == 0 || authority[text - 1] == AT)
      && AT !in authority[text..]
  {
    var text := HostTextStart(authority);
    assert forall j | 0 <= j < |authority[text..]| :: authority[text..][j] == authority[text + j];
  }

  lemma UserinfoKept(userinfo: Text, text: Text)
    requires userinfo == [] || userinfo[|userinfo| - 1] == AT
    requires AT !in text
    ensures HostTextStart(userinfo + text) == |userinfo|
  {
    var s := userinfo + text;
    assert forall j | |userinfo| <= j < |s| :: s[j] == text[j - |userinfo|];
    assert LastIndexOf(s, AT) < |userinfo|;
    if userinfo != [] {
      assert s[|userinfo| - 1] == AT;
    }
  }

  /** The parts of a URL, as the parser finds them. */
  datatype Parts = Parts(from: nat, authority: Text, text: nat)

  function PartsOf(url: Text): (p: Parts)
    requires IndexOfText(url, SCHEME_END, 0) >= 0
    ensures p.text <= |p.authority| && p.from + |p.authority| <= |url|
    ensures p.authority == url[p.from..p.from + |p.authority|]
  {
    var from := IndexOfText(url, SCHEME_END, 0) + 3;
    var authority := url[from..AuthorityEnd(url, from)];
    Parts(from, authority, HostTextStart(authority))
  }

  lemma LocateParts(url: Text)
    ensures IndexOfText(url, SCHEME_END, 0) < 0 <==> Locate(url) == None
    ensures IndexOfText(url, SCHEME_END, 0) >= 0 ==>
      var p := PartsOf(url);
      var r := HostIn(p.authority[p.text..]);
      Locate(url) == Some(Range(p.from + p.text + r.start, p.from + p.text + r.end))
  {
    hide HostIn, HostTextStart;
  }

  /** A text with these parts is read back as these parts. */
  lemma PartsBuild(url: Text, next: Text, authority: Text)
    requires IndexOfText(url, SCHEME_END, 0) >= 0
    requires var p := PartsOf(url);
      && next == url[..p.from] + authority + url[p.from + |p.authority|..]
      && forall c | c in authority :: !IsTerminator(c)
    ensures IndexOfText(next, SCHEME_END, 0) >= 0
    ensures PartsOf(next) == Parts(PartsOf(url).from, authority, HostTextStart(authority))
  {
    hide HostTextStart, AuthorityEnd, PartsOf;
    PartsEnd(url);
    var p := PartsOf(url);
    var front, back := url[..p.from], url[p.from + |p.authority|..];
    assert front + p.authority + back == url;
    assert next[..p.from] == front;
    SchemeKept(url, next);
    AuthorityKept(front, p.authority, authority, back);
    PartsEnd(next);
    assert next[p.from..p.from + |authority|] == authority;
  }

  /** The rewritten URL has the same parts, with the host text replaced. */
  lemma {:induction false} PartsKept(url: Text)
    requires Locate(url).Some?
    ensures IndexOfText(url, SCHEME_END, 0) >= 0 && IndexOfText(Rewritten(url), SCHEME_END, 0) >= 0
    ensures var p := PartsOf(url);
      var text := p.authority[p.text..];
      PartsOf(Rewritten(url)) == Parts(p.from, p.authority[..p.text] + WithNewHost(text, HostIn(text)), p.text)
  {
    hide WithNewHost, HostIn, HostTextStart, AuthorityEnd, Locate, Rewritten, PartsOf, IsTerminator, Count;
    LocateParts(url);
    PartsEnd(url);
    var p := PartsOf(url);
    var userinfo, text := p.authority[..p.text], p.authority[p.text..];
    var r := HostIn(text);
    var authority := userinfo + WithNewHost(text, r);
    RewrittenParts(url);
    UserinfoStart(p.authority);
    CountSplice(text, r, AT);
    UserinfoKept(userinfo, WithNewHost(text, r));
    NoTerminator(url);
    assert userinfo + text == p.authority;
    forall c | IsTerminator(c)
      ensures c !in authority
    {
      assert c !in p.authority;
      TerminatorKept(text, r, c);
    }
    PartsBuild(url, Rewritten(url), authority);
  }

  lemma NoTerminator(url: Text)
    requires IndexOfText(url, SCHEME_END, 0) >= 0
    ensures forall c | IsTerminator(c) :: c !in PartsOf(url).authority
  {
    var p := PartsOf(url);
    assert forall j | 0 <= j < |p.authority| :: p.authority[j] == url[p.from + j];
  }

  lemma SliceOfSlice(s: Text, from: nat, to: nat, a: nat, b: nat)
    requires from <= to <= |s| && a <= b <= to - from
    ensures s[from..to][a..b] == s[from + a..from + b]
  {
    var inner, outer := s[from..to][a..b], s[from + a..from + b];
    assert |inner| == |outer|;
    assert forall j | 0 <= j < |inner| :: inner[j] == outer[j];
  }

  lemma Nested(s: Text, p: Parts, a: nat, b: nat)
    requires p.from + |p.authority| <= |s| && p.authority == s[p.from..p.from + |p.authority|]
    requires p.text + a <= p.text + b <= |p.authority|
    ensures p.authority[p.text..][a..b] == s[p.from + p.text + a..p.from + p.text + b]
  {
    SliceOfSlice(p.authority, p.text, |p.authority|, a, b);
    SliceOfSlice(s, p.from, p.from + |p.authority|, p.text + a, p.text + b);
    assert p.authority[p.text..] == p.authority[p.text..|p.authority|];
  }

  lemma TerminatorKept(text: Text, r: Range, c: Unit)
    requires r.start <= r.end <= |text| && IsTerminator(c)
    ensures c in WithNewHost(text, r) <==> c in text
  {
    hide WithNewHost, Count;
    CountSplice(text, r, c);
  }

  lemma RewrittenParts(url: Text)
    requires IndexOfText(url, SCHEME_END, 0) >= 0
    ensures var p := PartsOf(url);
      var text := p.authority[p.text..];
      Rewritten(url) ==
      url[..p.from] + (p.authority[..p.text] + WithNewHost(text, HostIn(text))) + url[p.from + |p.authority|..]
  {
    hide WithNewHost, HostIn, Locate, Rewritten, PartsOf;
    LocateParts(url);
    RewrittenSplice(url);
    var p := PartsOf(url);
    var text := p.authority[p.text..];
    var front, back := url[..p.from] + p.authority[..p.text], url[p.from + |p.authority|..];
    assert front + text + back == url;
    SpliceInside(front, text, back, HostIn(text));
    var moved := WithNewHost(text, HostIn(text));
    assert front + moved + back == url[..p.from] + (p.authority[..p.text] + moved) + back;
  }

  lemma RewrittenSplice(url: Text)
    requires Locate(url).Some?
    ensures Rewritten(url) == WithNewHost(url, Locate(url).value)
  {
  }

  lemma PartsEnd(url: Text)
    requires IndexOfText(url, SCHEME_END, 0) >= 0
    ensures var p := PartsOf(url);
      && p.from == IndexOfText(url, SCHEME_END, 0) + 3
      && p.from + |p.authority| == AuthorityEnd(url, p.from)
      && p.text == HostTextStart(p.authority)
  {
  }

  /**
   Only the host changes: what precedes it and what follows it in the URL is copied, and
   reading the result again finds the new host exactly there, for every URL except those whose
   host starts with its only colon and has a non-ASCII first label.
   */
  lemma {:induction false} OnlyHostChanges(url: Text)
    requires Locate(url).Some?
    ensures var r := Locate(url).value;
      var host := url[r.start..r.end];
      && Rewritten(url) == url[..r.start] + IdnDomain(host) + url[r.end..]
      && (Locate(Rewritten(url)) == Some(Range(r.start, r.start + |IdnDomain(host)|)) <==>
            HostStays(PartsOf(url).authority[PartsOf(url).text..]))
  {
    hide IdnDomain, WithNewHost, HostIn, Locate, Rewritten, PartsOf, HostStays;
    PartsKept(url);
    LocateParts(url);
    LocateParts(Rewritten(url));
    RewrittenIs(url);
    var p, q := PartsOf(url), PartsOf(Rewritten(url));
    var text := p.authority[p.text..];
    var h := HostIn(text);
    assert q.authority[q.text..] == WithNewHost(text, h);
    Nested(url, p, h.start, h.end);
    HostRelocates(text);
  }

  /**
   Scheme, userinfo and everything after the authority are read back as they were, for every URL.
   What follows the host in the authority is so exactly if no leading colon moves.
   */
  lemma RestReadBack(url: Text)
    requires Locate(url).Some?
    ensures IndexOfText(url, SCHEME_END, 0) >= 0 && IndexOfText(Rewritten(url), SCHEME_END, 0) >= 0
    ensures var p, q := PartsOf(url), PartsOf(Rewritten(url));
      var text := p.authority[p.text..];
      && Rewritten(url)[..q.from] == url[..p.from]
      && q.authority[..q.text] == p.authority[..p.text]
      && Rewritten(url)[q.from + |q.authority|..] == url[p.from + |p.authority|..]
      && (AfterHost(q.authority[q.text..]) == AfterHost(text) <==> HostStays(text))
  {
    hide WithNewHost, HostIn, AfterHost, Locate, Rewritten, PartsOf, HostStays;
    PartsKept(url);
    RewrittenParts(url);
    var p, q := PartsOf(url), PartsOf(Rewritten(url));
    var text := p.authority[p.text..];
    var front, back := url[..p.from], url[p.from + |p.authority|..];
    assert Rewritten(url) == front + q.authority + back;
    assert (front + q.authority + back)[..|front|] == front;
    assert (front + q.authority + back)[|front| + |q.authority|..] == back;
    assert q.authority[q.text..] == WithNewHost(text, HostIn(text));
    AfterHostReadBack(text);
  }

  /** A URL whose host is ASCII, or that has no host, comes back unchanged. */
  lemma AsciiUnchanged(url: Text)
    requires Locate(url).Some? ==> !NotAscii(url[Locate(url).value.start..Locate(url).value.end])
    ensures Rewritten(url) == url
  {
    hide Locate;
    if Locate(url).Some? {
      NothingToRewrite(url);
    } else {
      LocateIs(url);
    }
  }

  /** The host that is read from a rewritten URL is ASCII. */
  lemma {:induction false} NewHostAscii(url: Text)
    requires Locate(url).Some? && Locate(Rewritten(url)).Some?
    ensures var r := Locate(Rewritten(url)).value; !NotAscii(Rewritten(url)[r.start..r.end])
  {
    hide WithNewHost, HostIn, Locate, Rewritten, PartsOf;
    PartsKept(url);
    LocateParts(Rewritten(url));
    var p, q := PartsOf(url), PartsOf(Rewritten(url));
    var text := p.authority[p.text..];
    var h := HostIn(text);
    var renewed := q.authority[q.text..];
    assert renewed == WithNewHost(text, h);
    NewHostIn(text);
    var k := HostIn(renewed);
    Nested(Rewritten(url), q, k.start, k.end);
  }

  lemma NewHostIn(text: Text)
    ensures var renewed := WithNewHost(text, HostIn(text));
      !NotAscii(renewed[HostIn(renewed).start..HostIn(renewed).end])
  {
    hide IdnDomain, Count, HostIn, ColonMoves;
    var r := HostIn(text);
    var renewed := WithNewHost(text, r);
    var d := IdnDomain(text[r.start..r.end]);
    HostIsAscii(text[r.start..r.end]);
    if HostStays(text) {
      HostRelocates(text);
      assert renewed[r.start..r.start + |d|] == d;
    } else {
      HostInIs(text);
      if r.end < |text| {
        PortCase(text);
      }
      WholeCase(text);
      assert renewed == d by { assert text[0..|text|] == text; }
    }
  }

  /** Rewriting twice is rewriting once, for every string. */
  lemma {:induction false} Idempotent(url: Text)
    ensures Rewritten(Rewritten(url)) == Rewritten(url)
  {
    hide IdnDomain, Locate, Rewritten;
    if Locate(url).Some? {
      if Locate(Rewritten(url)).Some? {
        NewHostAscii(url);
      }
      AsciiUnchanged(Rewritten(url));
    } else {
      AsciiUnchanged(url);
    }
  }
}
