/**
 `host:port` texts: formatEndpoint of ManualOutboundBuilder.ets, and the two readers,
 parseEndpoint of ManualOutboundEditState.ets and endpointHost/endpointPort of SubscriptionSelection.ets.
 */
module Endpoint {
  import opened JsText
  import opened JsTrim

  datatype Parsed = Parsed(host: Text, port: Text)

  function FormatEndpoint(host: Text, port: Text): Text {
    if IndexOf(host, COLON, 0) >= 0 && !(host != [] && host[0] == OPEN_BRACKET) then
      [OPEN_BRACKET] + host + [CLOSE_BRACKET, COLON] + port
    else host + [COLON] + port
  }

  function ParseEndpoint(endpoint: Text): Parsed {
    var text := Trim(endpoint);
    if text == [] then Parsed([], [])
    else
      var close := IndexOf(text, CLOSE_BRACKET, 0);
      if text[0] == OPEN_BRACKET && close > 0 then
        var rest := text[close + 1..];
        Parsed(text[1..close], if rest != [] && rest[0] == COLON then rest[1..] else [])
      else
        var separator := LastIndexOf(text, COLON);
        if 0 < separator < |text| - 1 then Parsed(text[..separator], text[separator + 1..]) else Parsed(text, [])
  }

  function EndpointHost(endpoint: Text): Text {
    var close, separator := IndexOf(endpoint, CLOSE_BRACKET, 0), LastIndexOf(endpoint, COLON);
    if endpoint != [] && endpoint[0] == OPEN_BRACKET && close > 0 then endpoint[1..close]
    else if separator > 0 then endpoint[..separator]
    else endpoint
  }

  function EndpointPort(endpoint: Text): Text {
    if endpoint != [] && endpoint[0] == OPEN_BRACKET then
      var close := IndexOf(endpoint, CLOSE_BRACKET, 0);
      if close > 0 && close + 1 < |endpoint| && endpoint[close + 1] == COLON then endpoint[close + 2..] else []
    else
      var separator := LastIndexOf(endpoint, COLON);
      if separator > 0 then endpoint[separator + 1..] else []
  }

  // ---- What comes back

  /** A port as text: not empty, no spaces, colons or brackets. */
  predicate IsPlain(port: Text) {
    port != [] && forall u | u in port :: !IsSpace(u) && u != COLON && u != OPEN_BRACKET && u != CLOSE_BRACKET
  }

  predicate IsHost(host: Text) { host != [] && IsTrimmed(host) }

  /** No closing bracket, or neither a leading bracket nor a colon. */
  predicate Recovers(host: Text)
    requires host != []
  {
    CLOSE_BRACKET !in host || (host[0] != OPEN_BRACKET && COLON !in host)
  }

  /** `[inner]` without a further closing bracket. */
  predicate IsClosed(host: Text)
    requires host != []
  {
    |host| >= 2 && host[0] == OPEN_BRACKET && host[|host| - 1] == CLOSE_BRACKET && CLOSE_BRACKET !in host[1..|host| - 1]
  }

  predicate PortRecovers(host: Text)
    requires host != []
  {
    if host[0] == OPEN_BRACKET then IsClosed(host) else CLOSE_BRACKET !in host || COLON !in host
  }

  /** Hosts that format to the same endpoint again after they were read back. */
  predicate Survives(host: Text)
    requires host != []
  {
    || Recovers(host)
    || (IsClosed(host) && IsTrimmed(host[1..|host| - 1]) && COLON in host && host[1] != OPEN_BRACKET)
  }

  lemma FirstAt(s: Text, x: Unit, i: nat)
    requires i < |s| && s[i] == x && x !in s[..i]
    ensures IndexOf(s, x, 0) == i
  {
    forall j | 0 <= j < i ensures s[j] != x {
      assert s[..i][j] == s[j];
    }
    hide IndexOf;
  }

  lemma LastAt(s: Text, x: Unit, i: nat)
    requires i < |s| && s[i] == x && x !in s[i + 1..]
    ensures LastIndexOf(s, x) == i
  {
    forall j | i < j < |s| ensures s[j] != x {
      assert s[i + 1..][j - i - 1] == s[j];
    }
    hide LastIndexOf;
  }

  lemma FoundIff(s: Text, x: Unit)
    ensures IndexOf(s, x, 0) >= 0 <==> x in s
    ensures IndexOf(s, x, 0) >= 0 ==> x !in s[..IndexOf(s, x, 0)]
  {
    hide IndexOf;
    var r := IndexOf(s, x, 0);
    assert r >= 0 ==> s[r] in s;
  }

  /** The host as the formatter writes it: in brackets if it has a colon and none of its own. */
  function Written(host: Text): Text {
    if COLON in host && host[0] != OPEN_BRACKET then [OPEN_BRACKET] + host + [CLOSE_BRACKET] else host
  }

  lemma FormatIsWritten(host: Text, port: Text)
    requires host != []
    ensures FormatEndpoint(host, port) == Written(host) + [COLON] + port
  {
    FoundIff(host, COLON);
    hide IndexOf;
    assert [OPEN_BRACKET] + host + [CLOSE_BRACKET, COLON] + port == [OPEN_BRACKET] + host + [CLOSE_BRACKET] + [COLON] + port;
  }

  /** The formatted text is trimmed, and the separator is its last colon. */
  lemma Shape(w: Text, port: Text)
    requires w != [] && !IsSpace(w[0]) && IsPlain(port)
    ensures var e := w + [COLON] + port;
      && Trim(e) == e
      && LastIndexOf(e, COLON) == |w|
      && e[..|w|] == w && e[|w| + 1..] == port
  {
    hide Trim, LastIndexOf;
    var e := w + [COLON] + port;
    assert e[|w| + 1..] == port && e[..|w|] == w;
    assert port[|port| - 1] in port && e[|e| - 1] == port[|port| - 1] && e[0] == w[0];
    LastAt(e, COLON, |w|);
  }

  /** The first closing bracket of the formatted text is the written host's. */
  lemma CloseOfShape(w: Text, port: Text)
    requires IsPlain(port)
    ensures IndexOf(w + [COLON] + port, CLOSE_BRACKET, 0) == IndexOf(w, CLOSE_BRACKET, 0)
  {
    FoundIff(w, CLOSE_BRACKET);
    FoundIff(w + [COLON] + port, CLOSE_BRACKET);
    hide IndexOf;
    var e, i := w + [COLON] + port, IndexOf(w, CLOSE_BRACKET, 0);
    if i >= 0 {
      assert e[..i] == w[..i];
      FirstAt(e, CLOSE_BRACKET, i);
    }
  }

  lemma CloseOfBracketed(host: Text)
    ensures var i := IndexOf(host, CLOSE_BRACKET, 0);
      IndexOf([OPEN_BRACKET] + host + [CLOSE_BRACKET], CLOSE_BRACKET, 0) == 1 + (if i >= 0 then i else |host|)
  {
    FoundIff(host, CLOSE_BRACKET);
    hide IndexOf;
    var w, i := [OPEN_BRACKET] + host + [CLOSE_BRACKET], IndexOf(host, CLOSE_BRACKET, 0);
    var k := if i >= 0 then i else |host|;
    assert w[..1 + k] == [OPEN_BRACKET] + host[..k];
    assert host[..|host|] == host;
    FirstAt(w, CLOSE_BRACKET, 1 + k);
  }

  /** A text with a closing bracket that matters: the host ends there. */
  lemma ReadBracketed(w: Text, port: Text, i: nat)
    requires w != [] && w[0] == OPEN_BRACKET && IndexOf(w, CLOSE_BRACKET, 0) == i > 0 && IsPlain(port)
    ensures var e := w + [COLON] + port;
      && ParseEndpoint(e).host == EndpointHost(e) == w[1..i]
      && EndpointPort(e) == ParseEndpoint(e).port
      && ParseEndpoint(e).port == (if i == |w| - 1 then port else if w[i + 1] == COLON then w[i + 2..] + [COLON] + port else [])
  {
    hide Trim, IndexOf, LastIndexOf, IsPlain, ParseEndpoint, EndpointHost, EndpointPort;
    Shape(w, port);
    CloseOfShape(w, port);
    AfterClose(w, port, i);
    var e := w + [COLON] + port;
    assert e[0] == w[0] && e[1..i] == w[1..i] && |e| > i + 1;
    ReadAtClose(e, i);
  }

  lemma ReadAtClose(e: Text, i: nat)
    requires e != [] && e[0] == OPEN_BRACKET && IndexOf(e, CLOSE_BRACKET, 0) == i > 0 && Trim(e) == e
    ensures ParseEndpoint(e).host == EndpointHost(e) == e[1..i]
    ensures ParseEndpoint(e).port == EndpointPort(e) == (if i + 1 < |e| && e[i + 1] == COLON then e[i + 2..] else [])
  {
    hide Trim, IndexOf, LastIndexOf;
    assert i + 1 < |e| ==> e[i + 1..][0] == e[i + 1] && e[i + 1..][1..] == e[i + 2..];
  }

  lemma AfterClose(w: Text, port: Text, i: nat)
    requires i < |w|
    ensures var e := w + [COLON] + port;
      && e[i + 1..] != []
      && e[i + 1] == (if i == |w| - 1 then COLON else w[i + 1])
      && e[i + 1..][1..] == e[i + 2..] == (if i == |w| - 1 then port else w[i + 2..] + [COLON] + port)
  {
    var e := w + [COLON] + port;
    if i == |w| - 1 {
      assert e[i + 2..] == port;
    } else {
      assert e[i + 2..] == w[i + 2..] + [COLON] + port;
    }
  }

  /** Without one, the last colon separates, except that endpointPort gives up on a leading bracket. */
  lemma ReadPlain(w: Text, port: Text)
    requires w != [] && !IsSpace(w[0]) && IsPlain(port)
    requires w[0] == OPEN_BRACKET ==> CLOSE_BRACKET !in w
    ensures var e := w + [COLON] + port;
      ParseEndpoint(e) == Parsed(w, port) && EndpointHost(e) == w &&
      EndpointPort(e) == (if w[0] == OPEN_BRACKET then [] else port)
  {
    Shape(w, port);
    CloseOfShape(w, port);
    FoundIff(w, CLOSE_BRACKET);
    hide Trim, IndexOf, LastIndexOf;
    var e := w + [COLON] + port;
    assert e[0] == w[0] && |e| == |w| + 1 + |port|;
  }

  // ---- Exactly when host and port come back

  /** The two host readers agree, and give the host back exactly if it `Recovers`; the port exactly if `PortRecovers`. */
  lemma ReadersRecover(host: Text, port: Text)
    requires IsHost(host) && IsPlain(port)
    ensures var e := FormatEndpoint(host, port);
      && EndpointHost(e) == ParseEndpoint(e).host
      && (EndpointHost(e) == host <==> Recovers(host))
      && (ParseEndpoint(e) == Parsed(host, port) <==> Recovers(host))
      && (EndpointPort(e) == port <==> PortRecovers(host))
      && (IsClosed(host) ==> ParseEndpoint(e) == Parsed(host[1..|host| - 1], port))
  {
    FormatIsWritten(host, port);
    if COLON in host && host[0] != OPEN_BRACKET {
      RecoverBracketed(host, port);
    } else if host[0] == OPEN_BRACKET && CLOSE_BRACKET in host {
      RecoverOwnBrackets(host, port);
    } else {
      ReadPlain(host, port);
      ClosedHasBracket(host);
      hide FormatEndpoint, ParseEndpoint, EndpointHost, EndpointPort, IndexOf, Trim;
    }
  }

  lemma RecoverBracketed(host: Text, port: Text)
    requires IsHost(host) && IsPlain(port) && COLON in host && host[0] != OPEN_BRACKET
    ensures var e := Written(host) + [COLON] + port;
      && EndpointHost(e) == ParseEndpoint(e).host && EndpointPort(e) == ParseEndpoint(e).port
      && (if CLOSE_BRACKET in host then EndpointHost(e) != host && EndpointPort(e) != port
          else EndpointHost(e) == host && EndpointPort(e) == port)
  {
    var w, i := Written(host), IndexOf(host, CLOSE_BRACKET, 0);
    CloseOfBracketed(host);
    FoundIff(host, CLOSE_BRACKET);
    ReadBracketed(w, port, IndexOf(w, CLOSE_BRACKET, 0));
    hide ParseEndpoint, EndpointHost, EndpointPort, IndexOf, Trim;
    if i >= 0 {
      assert w[1..1 + i] == host[..i];
      if w[i + 2] == COLON {
        assert |w[i + 3..] + [COLON] + port| > |port|;
      }
    } else {
      assert w[1..1 + |host|] == host;
    }
  }

  lemma RecoverOwnBrackets(host: Text, port: Text)
    requires IsHost(host) && IsPlain(port) && host[0] == OPEN_BRACKET && CLOSE_BRACKET in host
    ensures var e := host + [COLON] + port;
      && EndpointHost(e) == ParseEndpoint(e).host != host && EndpointPort(e) == ParseEndpoint(e).port
      && (EndpointPort(e) == port <==> IsClosed(host))
      && (IsClosed(host) ==> ParseEndpoint(e).host == host[1..|host| - 1])
  {
    var i := IndexOf(host, CLOSE_BRACKET, 0);
    FoundIff(host, CLOSE_BRACKET);
    ReadBracketed(host, port, i);
    hide ParseEndpoint, EndpointHost, EndpointPort, IndexOf, Trim;
    ClosedIff(host, i);
    if i < |host| - 1 && host[i + 1] == COLON {
      assert |host[i + 2..] + [COLON] + port| > |port|;
    }
  }

  lemma ClosedHasBracket(host: Text)
    requires host != []
    ensures IsClosed(host) ==> CLOSE_BRACKET in host
  {
  }

  lemma ClosedThenLast(host: Text)
    requires host != [] && IsClosed(host)
    ensures IndexOf(host, CLOSE_BRACKET, 0) == |host| - 1
  {
    assert host[..|host| - 1] == [host[0]] + host[1..|host| - 1];
    FirstAt(host, CLOSE_BRACKET, |host| - 1);
  }

  lemma ClosedIff(host: Text, i: nat)
    requires host != [] && host[0] == OPEN_BRACKET && IndexOf(host, CLOSE_BRACKET, 0) == i
    ensures IsClosed(host) <==> i == |host| - 1
  {
    FoundIff(host, CLOSE_BRACKET);
    hide IndexOf;
    if i == |host| - 1 {
      assert forall u | u in host[1..|host| - 1] :: u in host[..i];
    }
    if IsClosed(host) {
      ClosedThenLast(host);
    }
  }

  // ---- Exactly when the endpoint itself comes back

  /** A host that survives formats to the same endpoint after it was read, trimmed, and given its port. */
  lemma SurvivorsReturn(host: Text, port: Text)
    requires IsHost(host) && IsPlain(port) && Survives(host)
    ensures var e := FormatEndpoint(host, port);
      && Trim(ParseEndpoint(e).host) != []
      && ParseEndpoint(e).port == port
      && FormatEndpoint(Trim(ParseEndpoint(e).host), port) == e
  {
    hide FormatEndpoint, ParseEndpoint, EndpointHost, EndpointPort, IndexOf, Trim, Recovers, PortRecovers;
    ReadersRecover(host, port);
    if !Recovers(host) {
      ClosedFormatsAlike(host, port);
    }
  }

  lemma ClosedFormatsAlike(host: Text, port: Text)
    requires host != [] && IsClosed(host) && COLON in host && host[1] != OPEN_BRACKET
    ensures var inner := host[1..|host| - 1];
      inner != [] && FormatEndpoint(inner, port) == FormatEndpoint(host, port)
  {
    hide FormatEndpoint;
    var inner := host[1..|host| - 1];
    assert host == [OPEN_BRACKET] + inner + [CLOSE_BRACKET];
    assert COLON in inner && inner[0] == host[1];
    FormatIsWritten(host, port);
    FormatIsWritten(inner, port);
  }

  /** And no other host does, whatever the port becomes. */
  lemma OnlySurvivorsReturn(host: Text, port: Text, newPort: Text)
    requires IsHost(host) && IsPlain(port) && IsPlain(newPort)
    requires var e := FormatEndpoint(host, port);
      Trim(ParseEndpoint(e).host) != [] && FormatEndpoint(Trim(ParseEndpoint(e).host), newPort) == e
    ensures Survives(host)
  {
    hide FormatEndpoint, ParseEndpoint, IndexOf, Trim;
    if !Recovers(host) {
      FormatIsWritten(host, port);
      FormatIsWritten(Trim(ParseEndpoint(FormatEndpoint(host, port)).host), newPort);
      if host[0] == OPEN_BRACKET {
        OwnBracketsReturn(host, port, newPort);
      } else {
        ColonAndBracketLost(host, port, newPort);
      }
    }
  }

  lemma SameClose(a: Text, port: Text, b: Text, newPort: Text)
    requires IsPlain(port) && IsPlain(newPort)
    requires a + [COLON] + port == b + [COLON] + newPort
    ensures a == b && port == newPort
  {
    hide LastIndexOf;
    var e, f := a + [COLON] + port, b + [COLON] + newPort;
    assert e[|a| + 1..] == port && f[|b| + 1..] == newPort;
    LastAt(e, COLON, |a|);
    LastAt(f, COLON, |b|);
    assert e[..|a|] == a && f[..|b|] == b;
  }

  /** With brackets of its own, the written host equals the rewritten one only if it is closed and its inside is rewritten as it was. */
  lemma OwnBracketsReturn(host: Text, port: Text, newPort: Text)
    requires IsHost(host) && IsPlain(port) && IsPlain(newPort) && host[0] == OPEN_BRACKET && CLOSE_BRACKET in host
    requires var h := Trim(ParseEndpoint(host + [COLON] + port).host);
      h != [] && Written(h) + [COLON] + newPort == host + [COLON] + port
    ensures Survives(host)
  {
    hide ParseEndpoint, IndexOf, Trim;
    var parsed := ParseEndpoint(host + [COLON] + port).host;
    var h := Trim(parsed);
    SameClose(Written(h), newPort, host, port);
    FoundIff(host, CLOSE_BRACKET);
    var i := IndexOf(host, CLOSE_BRACKET, 0);
    ReadBracketed(host, port, i);
    assert parsed == host[1..i];
    assert forall u | u in parsed :: u in host[..i];
    assert CLOSE_BRACKET !in h;
    assert host == [OPEN_BRACKET] + h + [CLOSE_BRACKET];
    assert host[1..|host| - 1] == h;
  }

  /** With a colon and a closing bracket, but no leading one, the host is cut at the bracket and cannot return. */
  lemma ColonAndBracketLost(host: Text, port: Text, newPort: Text)
    requires IsHost(host) && IsPlain(port) && IsPlain(newPort)
    requires host[0] != OPEN_BRACKET && COLON in host && CLOSE_BRACKET in host
    ensures var e := Written(host) + [COLON] + port; var h := Trim(ParseEndpoint(e).host);
      h == [] || Written(h) + [COLON] + newPort != e
  {
    hide ParseEndpoint, IndexOf, Trim;
    var w := Written(host);
    var parsed := ParseEndpoint(w + [COLON] + port).host;
    var h := Trim(parsed);
    CloseOfBracketed(host);
    FoundIff(host, CLOSE_BRACKET);
    var i := IndexOf(host, CLOSE_BRACKET, 0);
    ReadBracketed(w, port, 1 + i);
    assert parsed == w[1..1 + i] == host[..i];
    if h != [] {
      TrimIsShorter(parsed);
      assert CLOSE_BRACKET !in h;
      assert |Written(h)| <= i + 2 < |w|;
      if Written(h) + [COLON] + newPort == w + [COLON] + port {
        SameClose(Written(h), newPort, w, port);
      }
    }
  }

  lemma {:induction false} TrimIsShorter(s: Text)
    ensures |Trim(s)| <= |s|
  {
    StartIsShorter(TrimEnd(s));
    EndIsShorter(s);
  }

  lemma {:induction false} StartIsShorter(s: Text)
    ensures |TrimStart(s)| <= |s|
  {
    if s != [] && IsSpace(s[0]) {
      StartIsShorter(s[1..]);
    }
  }

  lemma {:induction false} EndIsShorter(s: Text)
    ensures |TrimEnd(s)| <= |s|
  {
    if s != [] && IsSpace(s[|s| - 1]) {
      EndIsShorter(s[..|s| - 1]);
    }
  }
}
