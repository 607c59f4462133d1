/**
 The rewriter on URLs put together from their parts, in the characters of the URL grammar and apart
 from the parser: the host alone changes, label by label.
 */
module IdnUrlWritten {
  import opened JsText
  import opened Unicode16
  import opened Punycode
  import opened IdnUrl
  import PunycodeSample

  // ---- URLs from parts

  function Before(user: Option<Text>): Text {
    if user.Some? then user.value + [0x40] else []
  }

  function After(port: Option<Text>): Text {
    if port.Some? then [0x3A] + port.value else []
  }

  /** scheme "://" [user "@"] host [":" port] rest */
  function Url(scheme: Text, user: Option<Text>, host: Text, port: Option<Text>, rest: Text): Text {
    scheme + [0x3A, 0x2F, 0x2F] + (Before(user) + host + After(port)) + rest
  }

  /** None of '/', '?', '#'. */
  predicate NoEnd(s: Text) { 0x2F !in s && 0x3F !in s && 0x23 !in s }

  /** Nor '@', ':'. */
  predicate Plain(s: Text) { NoEnd(s) && 0x40 !in s && 0x3A !in s }

  /** A rest is empty or starts with '/', '?' or '#'. */
  predicate IsRest(s: Text) { s == [] || s[0] == 0x2F || s[0] == 0x3F || s[0] == 0x23 }

  lemma SchemeFound(scheme: Text, after: Text)
    requires 0x3A !in scheme
    ensures IndexOfText(scheme + [0x3A, 0x2F, 0x2F] + after, SCHEME_END, 0) == |scheme|
  {
    var url := scheme + [0x3A, 0x2F, 0x2F] + after;
    assert OccursAt(url, SCHEME_END, |scheme|);
    forall j | 0 <= j < |scheme|
      ensures !OccursAt(url, SCHEME_END, j)
    {
      assert url[j] == scheme[j] && url[j] in scheme;
      assert url[j..j + 3][0] == url[j];
    }
  }

  lemma AuthorityFound(front: Text, authority: Text, rest: Text)
    requires NoEnd(authority) && IsRest(rest)
    ensures var url := front + authority + rest;
      AuthorityEnd(url, |front|) == |front| + |authority| && url[|front|..|front| + |authority|] == authority
  {
    var url := front + authority + rest;
    forall j | |front| <= j < |front| + |authority|
      ensures !IsTerminator(url[j])
    {
      assert url[j] == authority[j - |front|] && url[j] in authority;
    }
    FirstTerminator(url, |front|, |front| + |authority|);
  }

  lemma UserFound(user: Option<Text>, text: Text)
    requires 0x40 !in text
    ensures HostTextStart(Before(user) + text) == |Before(user)|
  {
    var s, b := Before(user) + text, |Before(user)|;
    assert forall j | b <= j < |s| :: s[j] == text[j - b] && s[j] in text;
    assert LastIndexOf(s, AT) < b;
    if user.Some? {
      assert s[b - 1] == 0x40;
    }
  }

  lemma HostFound(host: Text, port: Option<Text>)
    requires host != [] && host[0] != 0x5B && 0x3A !in host
    requires port.Some? ==> 0x3A !in port.value
    ensures HostIn(host + After(port)) == Range(0, |host|)
  {
    var s, h := host + After(port), |host|;
    assert s[0] == host[0];
    assert forall j | 0 <= j < h :: s[j] == host[j] && s[j] in host;
    if port.Some? {
      assert s[h] == 0x3A;
      assert forall j | h < j < |s| :: s[j] == port.value[j - h - 1] && s[j] in port.value;
      assert IndexOf(s, COLON, 0) == h == LastIndexOf(s, COLON);
    } else {
      assert s == host;
      assert IndexOf(s, COLON, 0) == -1;
    }
  }

  lemma RewrittenParts(url: Text, scheme: nat, end: nat, text: nat, r: Range, front: Text, host: Text, back: Text)
    requires IndexOfText(url, SCHEME_END, 0) == scheme && AuthorityEnd(url, scheme + 3) == end
    requires var authority := url[scheme + 3..end];
      HostTextStart(authority) == text && HostIn(authority[text..]) == r
    requires url == front + host + back
    requires |front| == scheme + 3 + text + r.start && |host| == r.end - r.start
    ensures Rewritten(url) == front + IdnDomain(host) + back
  {
    hide IdnDomain, HostIn, HostTextStart, AuthorityEnd, IndexOfText;
    assert url[..|front|] == front;
    assert url[|front|..|front| + |host|] == host;
    assert url[|front| + |host|..] == back;
  }

  lemma Associate(a: Text, b: Text, host: Text, c: Text, d: Text)
    ensures a + (b + host + c) + d == (a + b) + host + (c + d)
    ensures a + (b + host + c) + d == a + (b + (host + c)) + d
  {
  }

  lemma AssociateRest(scheme: Text, authority: Text, rest: Text)
    ensures scheme + [0x3A, 0x2F, 0x2F] + authority + rest == scheme + [0x3A, 0x2F, 0x2F] + (authority + rest)
  {
  }

  /** Of a URL with an ordinary host exactly the host is replaced. */
  lemma HostReplaced(scheme: Text, user: Option<Text>, host: Text, port: Option<Text>, rest: Text)
    requires 0x3A !in scheme && Plain(host) && host != [] && host[0] != 0x5B && IsRest(rest)
    requires user.Some? ==> NoEnd(user.value)
    requires port.Some? ==> Plain(port.value)
    ensures Rewritten(Url(scheme, user, host, port, rest)) == Url(scheme, user, IdnDomain(host), port, rest)
  {
    hide IdnDomain, HostIn, HostTextStart, AuthorityEnd, IndexOfText, Rewritten, Locate, Before, After;
    var front, before, after := scheme + [0x3A, 0x2F, 0x2F], Before(user), After(port);
    var text := host + after;
    var authority := before + text;
    var url := Url(scheme, user, host, port, rest);
    Associate(front, before, host, after, rest);
    Associate(front, before, IdnDomain(host), after, rest);
    AssociateRest(scheme, authority, rest);
    PlainAuthority(user, host, port);
    SchemeFound(scheme, authority + rest);
    AuthorityFound(front, authority, rest);
    UserFound(user, text);
    assert authority[|before|..] == text;
    HostFound(host, port);
    RewrittenParts(url, |scheme|, |front| + |authority|, |before|, Range(0, |host|), front + before, host, after + rest);
  }

  lemma PlainAuthority(user: Option<Text>, host: Text, port: Option<Text>)
    requires Plain(host)
    requires user.Some? ==> NoEnd(user.value)
    requires port.Some? ==> Plain(port.value)
    ensures NoEnd(Before(user) + (host + After(port))) && 0x40 !in host + After(port)
  {
  }

  /** Of a URL with a bracketed host exactly what the brackets hold is replaced. */
  lemma BracketsReplaced(scheme: Text, host: Text, rest: Text)
    requires 0x3A !in scheme && NoEnd(host) && 0x40 !in host && 0x5D !in host && IsRest(rest)
    ensures Rewritten(Url(scheme, None, [0x5B] + host + [0x5D], None, rest)) ==
            Url(scheme, None, [0x5B] + IdnDomain(host) + [0x5D], None, rest)
  {
    hide IdnDomain, HostIn, HostTextStart, AuthorityEnd, IndexOfText, Rewritten, Locate;
    var front, text := scheme + [0x3A, 0x2F, 0x2F], [0x5B] + host + [0x5D];
    var url := Url(scheme, None, text, None, rest);
    Unaccompanied(text);
    Unaccompanied([0x5B] + IdnDomain(host) + [0x5D]);
    Associate(front, [0x5B], host, [0x5D], rest);
    Associate(front, [0x5B], IdnDomain(host), [0x5D], rest);
    AssociateRest(scheme, text, rest);
    SchemeFound(scheme, text + rest);
    AuthorityFound(front, text, rest);
    UserFound(None, text);
    assert [] + text == text && text[0..] == text;
    BracketsFound(host);
    RewrittenParts(url, |scheme|, |front| + |text|, 0, Range(1, |host| + 1), front + [0x5B], host, [0x5D] + rest);
  }

  lemma Unaccompanied(text: Text)
    ensures Before(None) + text + After(None) == text
  {
  }

  lemma BracketsFound(host: Text)
    requires 0x5D !in host
    ensures HostIn([0x5B] + host + [0x5D]) == Range(1, |host| + 1)
  {
    var text := [0x5B] + host + [0x5D];
    assert text[0] == 0x5B && text[|host| + 1] == 0x5D;
    assert forall j | 1 <= j < |host| + 1 :: text[j] == host[j - 1] && text[j] in host;
    assert IndexOf(text, CLOSE_BRACKET, 1) == |host| + 1;
  }

  // ---- Hosts from labels

  /** The full stop and the three other dots of IDNA. */
  predicate IsDot(u: Unit) { u == 0x2E || u == 0x3002 || u == 0xFF0E || u == 0xFF61 }

  predicate IsLabel(s: Text) { forall u | u in s :: !IsDot(u) }

  function Dotted(labels: seq<Text>, dots: seq<Unit>): Text
    requires |labels| == |dots| + 1
  {
    if dots == [] then labels[0] else labels[0] + [dots[0]] + Dotted(labels[1..], dots[1..])
  }

  lemma {:induction false} DotsAppend(a: Text, b: Text)
    ensures NormalizedDots(a + b) == NormalizedDots(a) + NormalizedDots(b)
  {
  }

  /** Any of the four dots ends a label. */
  lemma {:induction false} LabelsOfDotted(labels: seq<Text>, dots: seq<Unit>)
    requires |labels| == |dots| + 1
    requires forall i | 0 <= i < |labels| :: IsLabel(labels[i])
    requires forall i | 0 <= i < |dots| :: IsDot(dots[i])
    ensures Labels(Dotted(labels, dots)) == labels
  {
    var first := labels[0];
    assert forall i | 0 <= i < |first| :: first[i] in first;
    assert NormalizedDots(first) == first;
    if dots == [] {
      SplitWhole(first, DOT);
    } else {
      var rest := Dotted(labels[1..], dots[1..]);
      LabelsOfDotted(labels[1..], dots[1..]);
      DotsAppend(first + [dots[0]], rest);
      DotsAppend(first, [dots[0]]);
      assert NormalizedDots([dots[0]]) == [0x2E];
      SplitFirst(first, DOT, NormalizedDots(rest));
    }
  }

  // ---- Known URLs

  /** `é` is `xn--9ca`. */
  lemma KnownLabel(s: Text)
    requires s == [0xE9]
    ensures AsciiLabel(s) == Units("xn--9ca")
  {
    hide Encoded;
    assert s[0] >= 0x80;
    assert s[1..] == [];
    assert CodePoints(s) == [0xE9];
    PunycodeSample.KnownSingle(CodePoints(s));
    assert [0x78, 0x6E, 0x2D, 0x2D, 0x39, 0x63, 0x61] == Units("xn--9ca");
  }

  lemma TwoLabels(first: Text, dot: Unit, second: Text)
    requires IsLabel(first) && IsLabel(second) && IsDot(dot)
    requires (exists i :: 0 <= i < |first| && first[i] >= 0x80) && forall i | 0 <= i < |second| :: second[i] < 0x80
    ensures IdnDomain(first + [dot] + second) == AsciiLabel(first) + [0x2E] + second
  {
    hide AsciiLabel, Labels;
    var domain, labels := first + [dot] + second, [first, second];
    var i :| 0 <= i < |first| && first[i] >= 0x80;
    assert domain[i] >= 0x80;
    assert labels[1..] == [second] && [dot][1..] == [];
    assert Dotted([second], []) == second;
    assert Dotted(labels, [dot]) == domain;
    LabelsOfDotted(labels, [dot]);
    SecondKept(second);
    var parts := AsciiLabels(labels);
    assert parts == [AsciiLabel(first), second];
    assert parts[1..] == [second];
    assert Join(parts[1..], DOT) == second;
  }

  lemma SecondKept(second: Text)
    requires forall i | 0 <= i < |second| :: second[i] < 0x80
    ensures AsciiLabel(second) == second
  {
  }

  lemma KnownHost(host: Text)
    requires host == [0xE9] + [0x2E] + Units("com")
    ensures Plain(host)
    ensures IdnDomain(host) == Units("xn--9ca.com")
  {
    hide IdnDomain, AsciiLabel;
    KnownLabel([0xE9]);
    assert [0xE9][0] >= 0x80;
    TwoLabels([0xE9], 0x2E, Units("com"));
  }

  /** `http://u@é.com:8/é` becomes `http://u@xn--9ca.com:8/é`. */
  lemma KnownUrl(url: Text)
    requires url == Units("http://u@") + [0xE9] + Units(".com:8/") + [0xE9]
    ensures Rewritten(url) == Units("http://u@xn--9ca.com:8/") + [0xE9]
  {
    hide Rewritten, IdnDomain;
    var scheme, user, host, port, rest :=
      Units("http"), Some(Units("u")), [0xE9] + [0x2E] + Units("com"), Some(Units("8")), Units("/") + [0xE9];
    KnownHost(host);
    FormerParts(scheme, user, host, port, rest);
    HostReplaced(scheme, user, host, port, rest);
    RenewedParts(scheme, user, port, rest);
  }

  lemma FormerParts(scheme: Text, user: Option<Text>, host: Text, port: Option<Text>, rest: Text)
    requires scheme == Units("http") && user == Some(Units("u")) && port == Some(Units("8"))
    requires host == [0xE9] + [0x2E] + Units("com") && rest == Units("/") + [0xE9]
    ensures Url(scheme, user, host, port, rest) == Units("http://u@") + [0xE9] + Units(".com:8/") + [0xE9]
  {
  }

  lemma RenewedParts(scheme: Text, user: Option<Text>, port: Option<Text>, rest: Text)
    requires scheme == Units("http") && user == Some(Units("u")) && port == Some(Units("8"))
    requires rest == Units("/") + [0xE9]
    ensures Url(scheme, user, Units("xn--9ca.com"), port, rest) == Units("http://u@xn--9ca.com:8/") + [0xE9]
  {
  }
}
