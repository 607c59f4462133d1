/**
 The URL rewriter of IdnUrl.ets: non-ASCII host labels become Punycode, everything else in the
 URL is copied.
 */
module IdnUrl {
  import opened JsText
  import opened Unicode16
  import opened Punycode

  const SCHEME_END: Text := [0x3A, 0x2F, 0x2F]
  const ACE_PREFIX: Text := [0x78, 0x6E, 0x2D, 0x2D]

  // ---- Domains

  predicate IsIdnDot(u: Unit) { u == 0x3002 || u == 0xFF0E || u == 0xFF61 }

  function NormalizedDots(s: Text): (r: Text)
    ensures |r| == |s|
    ensures forall i | 0 <= i < |s| :: r[i] == if IsIdnDot(s[i]) then DOT else s[i]
  {
    if s == [] then [] else [if IsIdnDot(s[0]) then DOT else s[0]] + NormalizedDots(s[1..])
  }

  function AsciiLabel(part: Text): Text {
    if NotAscii(part) then ACE_PREFIX + Encoded(CodePoints(part)) else part
  }

  function AsciiLabels(labels: seq<Text>): (r: seq<Text>)
    ensures |r| == |labels|
    ensures forall i | 0 <= i < |labels| :: r[i] == AsciiLabel(labels[i])
  {
    if labels == [] then [] else [AsciiLabel(labels[0])] + AsciiLabels(labels[1..])
  }

  function Labels(domain: Text): (r: seq<Text>)
    ensures |r| > 0
    ensures forall i | 0 <= i < |r| :: DOT !in r[i]
  {
    Split(NormalizedDots(domain), DOT)
  }

  function IdnDomain(domain: Text): Text {
    if NotAscii(domain) then Join(AsciiLabels(Labels(domain)), DOT) else domain
  }

  // ---- Hosts and URLs

  predicate IsTerminator(u: Unit) { u == SLASH || u == QUESTION || u == HASH }

  /** Where the authority ends: the first terminator, or the end of the URL. */
  function AuthorityEnd(url: Text, start: nat): (end: nat)
    requires start <= |url|
    ensures start <= end <= |url|
    ensures forall j | start <= j < end :: !IsTerminator(url[j])
    ensures end < |url| ==> IsTerminator(url[end])
    decreases |url| - start
  {
    if start == |url| || IsTerminator(url[start]) then start else AuthorityEnd(url, start + 1)
  }

  datatype Range = Range(start: nat, end: nat)

  /** The host inside the authority text that follows the last '@'. */
  function HostIn(text: Text): (r: Range)
    ensures r.start <= r.end <= |text|
  {
    if text != [] && text[0] == OPEN_BRACKET && IndexOf(text, CLOSE_BRACKET, 1) >= 0 then
      Range(1, IndexOf(text, CLOSE_BRACKET, 1))
    else
      var colon := IndexOf(text, COLON, 0);
      Range(0, if colon > 0 && LastIndexOf(text, COLON) == colon then colon else |text|)
  }

  function HostTextStart(authority: Text): (start: nat)
    ensures start <= |authority|
  {
    LastIndexOf(authority, AT) + 1
  }

  /** The position of the host in a URL, if the URL has a scheme. */
  function Locate(url: Text): (r: Option<Range>)
    ensures r.Some? ==> r.value.start <= r.value.end <= |url|
  {
    var scheme := IndexOfText(url, SCHEME_END, 0);
    if scheme < 0 then None
    else
      var from := scheme + 3;
      var end := AuthorityEnd(url, from);
      var authority := url[from..end];
      var text := HostTextStart(authority);
      var host := HostIn(authority[text..]);
      Some(Range(from + text + host.start, from + text + host.end))
  }

  function Rewritten(url: Text): Text {
    match Locate(url)
    case None => url
    case Some(r) => url[..r.start] + IdnDomain(url[r.start..r.end]) + url[r.end..]
  }

  // ---- The loops of the source

  method ContainsNonAscii(value: Text) returns (r: bool)
    ensures r <==> NotAscii(value)
  {
    for index := 0 to |value|
      invariant forall j | 0 <= j < index :: value[j] < 0x80
    {
      if value[index] >= 0x80 {
        return true;
      }
    }
    return false;
  }

  method NormalizeIdnDots(value: Text) returns (result: Text)
    ensures result == NormalizedDots(value)
  {
    result := [];
    for index := 0 to |value|
      invariant |result| == index
      invariant forall j | 0 <= j < index :: result[j] == if IsIdnDot(value[j]) then DOT else value[j]
    {
      var code := value[index];
      result := result + [if code == 0x3002 || code == 0xFF0E || code == 0xFF61 then DOT else code];
    }
  }

  method ToAsciiLabel(text: Text) returns (r: Text)
    ensures r == AsciiLabel(text)
  {
    var nonAscii := ContainsNonAscii(text);
    if |text| == 0 || !nonAscii {
      return text;
    }
    var encoded := PunycodeEncode(text);
    return ACE_PREFIX + encoded;
  }

  method ToIdnDomain(domain: Text) returns (r: Text)
    ensures r == IdnDomain(domain)
  {
    hide AsciiLabel;
    var nonAscii := ContainsNonAscii(domain);
    if !nonAscii {
      return domain;
    }
    var dotted := NormalizeIdnDots(domain);
    var labels := Split(dotted, DOT);
    var converted: seq<Text> := [];
    for index := 0 to |labels|
      invariant |converted| == index
      invariant forall j | 0 <= j < index :: converted[j] == AsciiLabel(labels[j])
    {
      var part := ToAsciiLabel(labels[index]);
      converted := converted + [part];
    }
    assert converted == AsciiLabels(labels);
    return Join(converted, DOT);
  }

  method FindAuthorityEnd(url: Text, start: nat) returns (end: nat)
    requires start <= |url|
    ensures end == AuthorityEnd(url, start)
  {
    end := |url|;
    var terminators := [SLASH, QUESTION, HASH];
    for index := 0 to 3
      invariant start <= end <= |url|
      invariant end < |url| ==> exists t :: 0 <= t < index && url[end] == terminators[t]
      invariant forall t, j | 0 <= t < index && start <= j < end :: url[j] != terminators[t]
    {
      var position := IndexOf(url, terminators[index], start);
      if position >= 0 && position < end {
        end := position;
      }
    }
    assert forall j | start <= j < end :: url[j] != terminators[0] && url[j] != terminators[1] && url[j] != terminators[2];
    FirstTerminator(url, start, end);
  }

  lemma {:induction false} FirstTerminator(url: Text, start: nat, end: nat)
    requires start <= end <= |url|
    requires forall j | start <= j < end :: !IsTerminator(url[j])
    requires end < |url| ==> IsTerminator(url[end])
    ensures AuthorityEnd(url, start) == end
    decreases end - start
  {
    if start < end {
      FirstTerminator(url, start + 1, end);
    }
  }

  /** The three cases of the source on the whole authority. */
  method ParseAuthorityHost(authority: Text) returns (host: Text, hostStart: nat, hostEnd: nat)
    ensures var text := HostTextStart(authority);
      var r := HostIn(authority[text..]);
      && hostStart == text + r.start && hostEnd == text + r.end
      && hostStart <= hostEnd <= |authority| && host == authority[hostStart..hostEnd]
  {
    hostStart := LastIndexOf(authority, AT) + 1;
    ghost var text := authority[hostStart..];
    if hostStart >= |authority| {
      return [], hostStart, hostStart;
    }
    if authority[hostStart] == OPEN_BRACKET {
      var bracketEnd := IndexOf(authority, CLOSE_BRACKET, hostStart + 1);
      IndexOfSuffix(authority, hostStart, CLOSE_BRACKET, 1);
      if bracketEnd > hostStart {
        return authority[hostStart + 1..bracketEnd], hostStart + 1, bracketEnd;
      }
    }
    hostEnd := |authority|;
    var colon := LastIndexOf(authority, COLON);
    IndexOfSuffix(authority, hostStart, COLON, 0);
    LastIndexOfSuffix(authority, hostStart, COLON);
    if colon > hostStart && IndexOf(authority, COLON, hostStart) == colon {
      hostEnd := colon;
    }
    host := authority[hostStart..hostEnd];
  }

  lemma IndexOfSuffix(s: Text, cut: nat, x: Unit, from: nat)
    requires cut + from <= |s|
    ensures var r := IndexOf(s[cut..], x, from);
      IndexOf(s, x, cut + from) == if r < 0 then -1 else cut + r
  {
    var tail := s[cut..];
    assert forall j | 0 <= j < |tail| :: tail[j] == s[cut + j];
    var r, q := IndexOf(tail, x, from), IndexOf(s, x, cut + from);
    if q >= 0 {
      assert tail[q - cut] == x;
    }
    if r >= 0 {
      assert s[cut + r] == x;
    }
  }

  lemma LastIndexOfSuffix(s: Text, cut: nat, x: Unit)
    requires cut <= |s|
    ensures var r := LastIndexOf(s[cut..], x);
      if r >= 0 then LastIndexOf(s, x) == cut + r else LastIndexOf(s, x) < cut
  {
    var tail := s[cut..];
    assert forall j | 0 <= j < |tail| :: tail[j] == s[cut + j];
    var r, q := LastIndexOf(tail, x), LastIndexOf(s, x);
    if q >= cut {
      assert tail[q - cut] == x;
    }
    if r >= 0 {
      assert s[cut + r] == x;
    }
  }

  method ToIdnUrl(url: Text) returns (r: Text)
    ensures r == Rewritten(url)
  {
    hide HostIn, HostTextStart, IdnDomain, Locate, Rewritten;
    var schemeEnd := IndexOfText(url, SCHEME_END, 0);
    if schemeEnd < 0 {
      LocateIs(url);
      return url;
    }
    var authorityStart := schemeEnd + 3;
    var authorityEnd := FindAuthorityEnd(url, authorityStart);
    var authority := url[authorityStart..authorityEnd];
    LocateIs(url);
    if |authority| == 0 {
      EmptyAuthority();
      assert authority == [];
      NothingToRewrite(url);
      return url;
    }
    var host, hostStart, hostEnd := ParseAuthorityHost(authority);
    assert Locate(url) == Some(Range(authorityStart + hostStart, authorityStart + hostEnd));
    assert host == url[authorityStart + hostStart..authorityStart + hostEnd];
    if |host| == 0 {
      NothingToRewrite(url);
      return url;
    }
    var asciiHost := ToIdnDomain(host);
    if asciiHost == host {
      NothingToRewrite(url);
      return url;
    }
    var nextAuthority := authority[..hostStart] + asciiHost + authority[hostEnd..];
    r := url[..authorityStart] + nextAuthority + url[authorityEnd..];
    Splice(url, authorityStart, authorityEnd, hostStart, hostEnd, asciiHost);
    RewrittenIs(url);
  }

  lemma LocateIs(url: Text)
    ensures var scheme := IndexOfText(url, SCHEME_END, 0);
      if scheme < 0 then Locate(url) == None && Rewritten(url) == url
      else
        var from := scheme + 3;
        var authority := url[from..AuthorityEnd(url, from)];
        var text := HostTextStart(authority);
        var r := HostIn(authority[text..]);
        Locate(url) == Some(Range(from + text + r.start, from + text + r.end))
  {
  }

  lemma EmptyAuthority()
    ensures HostTextStart([]) == 0 && HostIn([]) == Range(0, 0)
  {
  }

  lemma RewrittenIs(url: Text)
    requires Locate(url).Some?
    ensures var r := Locate(url).value;
      Rewritten(url) == url[..r.start] + IdnDomain(url[r.start..r.end]) + url[r.end..]
  {
  }

  /** A host that the conversion leaves alone leaves the URL alone. */
  lemma NothingToRewrite(url: Text)
    requires Locate(url).Some?
    requires var r := Locate(url).value; r.start == r.end || IdnDomain(url[r.start..r.end]) == url[r.start..r.end]
    ensures Rewritten(url) == url
  {
    hide Locate;
    var r := Locate(url).value;
    assert url[..r.start] + url[r.start..r.end] + url[r.end..] == url;
    if r.start == r.end {
      assert url[r.start..r.end] == [];
    }
  }

  lemma Splice(url: Text, from: nat, end: nat, hostStart: nat, hostEnd: nat, host: Text)
    requires from <= end <= |url| && hostStart <= hostEnd <= end - from
    ensures var authority := url[from..end];
      url[..from] + (authority[..hostStart] + host + authority[hostEnd..]) + url[end..] ==
      url[..from + hostStart] + host + url[from + hostEnd..]
  {
    var authority := url[from..end];
    assert url[..from] + authority[..hostStart] == url[..from + hostStart];
    assert authority[hostEnd..] + url[end..] == url[from + hostEnd..];
  }
}
