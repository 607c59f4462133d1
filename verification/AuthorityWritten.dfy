/** The host that PrivateNetwork.ets takes out of a URL put together from its parts, and when it is private. */
module AuthorityWritten {
  import opened JsText
  import opened JsTrim
  import opened Decimal
  import opened IdnUrl
  import opened IdnUrlWritten
  import opened AuthorityParsers
  import opened PrivateNetwork
  import PrivateUrl

  lemma SchemeCut(scheme: Text, authority: Text, rest: Text)
    requires 0x3A !in scheme && NoEnd(authority) && IsRest(rest)
    ensures var url := scheme + [0x3A, 0x2F, 0x2F] + authority + rest;
      ExtractedHost(url) == HostAfter(TextAfterAt(authority))
  {
    hide HostAfter, TextAfterAt, IndexOfText;
    var front := scheme + [0x3A, 0x2F, 0x2F];
    var url := front + authority + rest;
    AssociateRest(scheme, authority, rest);
    SchemeFound(scheme, authority + rest);
    assert url[|front|..] == authority + rest;
    assert [] + authority + rest == authority + rest;
    AuthorityFound([], authority, rest);
    assert AuthorityIn(authority + rest) == authority;
  }

  /** The host of a URL is what stands between '@' and ':', or in brackets. */
  lemma HostTaken(scheme: Text, user: Option<Text>, host: Text, port: Option<Text>, rest: Text)
    requires 0x3A !in scheme && Plain(host) && host != [] && host[0] != 0x5B && IsRest(rest)
    requires user.Some? ==> NoEnd(user.value)
    requires port.Some? ==> Plain(port.value)
    ensures ExtractedHost(Url(scheme, user, host, port, rest)) == host
  {
    hide ExtractedHost, HostAfter, Before, After;
    var text := host + After(port);
    PlainAuthority(user, host, port);
    Associate(scheme, Before(user), host, After(port), rest);
    assert Before(user) + host + After(port) == Before(user) + text;
    SchemeCut(scheme, Before(user) + text, rest);
    UserFound(user, text);
    assert (Before(user) + text)[|Before(user)|..] == text;
    ColonCut(host, port);
  }

  lemma ColonCut(host: Text, port: Option<Text>)
    requires host != [] && host[0] != 0x5B && 0x3A !in host
    ensures HostAfter(host + After(port)) == host
  {
    var s, h := host + After(port), |host|;
    assert s[0] == host[0];
    assert forall j | 0 <= j < h :: s[j] == host[j] && s[j] in host;
    if port.Some? {
      assert s[h] == 0x3A;
      assert IndexOf(s, COLON, 0) == h;
      assert s[..h] == host;
    } else {
      assert s == host && IndexOf(s, COLON, 0) == -1;
    }
  }

  lemma BracketsTaken(scheme: Text, host: Text, rest: Text)
    requires 0x3A !in scheme && NoEnd(host) && 0x40 !in host && 0x5D !in host && IsRest(rest)
    ensures ExtractedHost(Url(scheme, None, [0x5B] + host + [0x5D], None, rest)) == host
  {
    hide ExtractedHost, HostAfter;
    var text := [0x5B] + host + [0x5D];
    Unaccompanied(text);
    SchemeCut(scheme, text, rest);
    UserFound(None, text);
    assert [] + text == text && text[0..] == text;
    BracketsCut(host);
  }

  lemma BracketsCut(host: Text)
    requires 0x5D !in host
    ensures HostAfter([0x5B] + host + [0x5D]) == host
  {
    var text := [0x5B] + host + [0x5D];
    assert text[0] == 0x5B && text[|host| + 1] == 0x5D;
    assert forall j | 1 <= j < |host| + 1 :: text[j] == host[j - 1] && text[j] in host;
    assert IndexOf(text, CLOSE_BRACKET, 0) == |host| + 1;
    assert text[1..|host| + 1] == host;
  }

  // ---- Addresses

  /** The first two numbers of a private address: this network, 10, loopback, 172.16 to 31, 192.168, 169.254, multicast. */
  predicate IsPrivateStart(a: nat, b: nat) {
    || a == 0 || a == 10 || a == 127 || (a == 172 && 16 <= b <= 31) || (a == 192 && b == 168)
    || (a == 169 && b == 254) || 224 <= a <= 239
  }

  /** One to any number of digits '0' to '9', of value at most 255. */
  predicate IsOctet(piece: Text) {
    piece != [] && (forall i | 0 <= i < |piece| :: 0x30 <= piece[i] <= 0x39) && Value(piece) <= 255
  }

  lemma UnionOfStarts(a: nat, b: nat, c: nat, d: nat)
    requires a <= 255 && b <= 255 && c <= 255 && d <= 255
    ensures InUnion(((a * 256 + b) * 256 + c) * 256 + d) <==> IsPrivateStart(a, b)
  {
  }

  predicate AreOctets(pieces: seq<Text>) {
    |pieces| == 4 && IsOctet(pieces[0]) && IsOctet(pieces[1]) && IsOctet(pieces[2]) && IsOctet(pieces[3])
  }

  lemma QuadParses(pieces: seq<Text>)
    requires |pieces| > 0 && forall i | 0 <= i < |pieces| :: 0x2E !in pieces[i]
    ensures ParseIpv4(Join(pieces, 0x2E)) ==
      if AreOctets(pieces)
      then ((Value(pieces[0]) * 256 + Value(pieces[1])) * 256 + Value(pieces[2])) * 256 + Value(pieces[3]) else -1
  {
    hide Value, Join, Split, ReadOctets, IsOctet, AllDigits, IsDecimal;
    SplitOfJoin(pieces, 0x2E);
    if |pieces| == 4 {
      FourOctets(pieces);
    }
  }

  lemma FourOctets(pieces: seq<Text>)
    requires |pieces| == 4
    ensures ReadOctets(pieces, 0) ==
      if AreOctets(pieces)
      then ((Value(pieces[0]) * 256 + Value(pieces[1])) * 256 + Value(pieces[2])) * 256 + Value(pieces[3]) else -1
  {
    hide Value, ReadOctets, IsOctet, AllDigits, IsDecimal;
    ReadFour(pieces);
    OctetIs(pieces[0]);
    OctetIs(pieces[1]);
    OctetIs(pieces[2]);
    OctetIs(pieces[3]);
  }

  lemma OctetIs(piece: Text)
    ensures IsOctet(piece) <==> IsDecimal(piece) && Value(piece) <= 255
  {
    hide Value;
  }

  /** A host is private exactly if it is four octets between dots and the first two are those of a private network. */
  lemma PrivateExactly(pieces: seq<Text>)
    requires |pieces| > 0 && forall i | 0 <= i < |pieces| :: 0x2E !in pieces[i]
    ensures IsPrivateHost(Join(pieces, 0x2E)) <==>
            AreOctets(pieces) && IsPrivateStart(Value(pieces[0]), Value(pieces[1]))
  {
    hide IsPrivateHost, Value, Join, IsPrivateStart, InUnion, ParseIpv4;
    PrivateIsUnion(Join(pieces, 0x2E));
    QuadParses(pieces);
    NotInUnion();
    if AreOctets(pieces) {
      UnionOfStarts(Value(pieces[0]), Value(pieces[1]), Value(pieces[2]), Value(pieces[3]));
    }
  }

  lemma NotInUnion()
    ensures !InUnion(-1)
  {
  }

  /** The value of digits: ten times as much for every further one. */
  lemma ValueStep(text: Text, digit: Unit)
    requires AllDigits(text) && 0x30 <= digit <= 0x39
    ensures AllDigits(text + [digit]) && Value(text + [digit]) == 10 * Value(text) + (digit - 0x30)
    ensures Value([]) == 0
  {
    assert (text + [digit])[..|text|] == text;
  }

  lemma ThreeDigits(a: Unit, b: Unit, c: Unit)
    requires 0x30 <= a <= 0x39 && 0x30 <= b <= 0x39 && 0x30 <= c <= 0x39
    ensures AllDigits([a]) && Value([a]) == a - 0x30
    ensures AllDigits([a, b, c]) && Value([a, b, c]) == 100 * (a - 0x30) + 10 * (b - 0x30) + (c - 0x30)
  {
    hide Value;
    assert [] + [a] == [a] && [a] + [b] == [a, b] && [a, b] + [c] == [a, b, c];
    ValueStep([], a);
    ValueStep([a], b);
    ValueStep([a, b], c);
  }

  /** `192.168.0.1` is private, `192.169.0.1` is not. */
  lemma KnownAddresses(inside: seq<Text>, outside: seq<Text>)
    requires inside == [Units("192"), Units("168"), Units("0"), Units("1")]
    requires outside == [Units("192"), Units("169"), Units("0"), Units("1")]
    ensures IsPrivateHost(Join(inside, 0x2E)) && !IsPrivateHost(Join(outside, 0x2E))
  {
    hide Value, IsPrivateHost, Join;
    ThreeDigits(0x31, 0x39, 0x32);
    ThreeDigits(0x31, 0x36, 0x38);
    ThreeDigits(0x31, 0x36, 0x39);
    ThreeDigits(0x30, 0x30, 0x30);
    ThreeDigits(0x31, 0x30, 0x30);
    assert Units("192") == [0x31, 0x39, 0x32] && Units("168") == [0x31, 0x36, 0x38] && Units("169") == [0x31, 0x36, 0x39];
    assert Units("0") == [0x30] && Units("1") == [0x31];
    PrivateExactly(inside);
    PrivateExactly(outside);
  }

  /** What is searched for first is `127.0.0.1`. */
  lemma MentionExactly(url: Text)
    ensures PrivateUrl.MentionsLoopback(url) <==> exists i: nat :: OccursAt(Trim(url), Units("127.0.0.1"), i)
  {
    assert PrivateUrl.LOOPBACK == Units("127.0.0.1");
    hide Units, Trim, OccursAt, IndexOfText;
  }
}
