/**
 isLoopbackOrPrivateHttpUrl of PrivateNetwork.ets: an address is accepted for the host it names, or for
 the text `127.0.0.1` standing anywhere in it.
 */
module PrivateUrl {
  import opened JsText
  import opened JsTrim
  import opened IdnUrl
  import opened AuthorityParsers
  import PrivateNetwork

  /** `127.0.0.1` */
  const LOOPBACK: Text := [0x31, 0x32, 0x37, 0x2E, 0x30, 0x2E, 0x30, 0x2E, 0x31]

  predicate MentionsLoopback(url: Text) { IndexOfText(Trim(url), LOOPBACK, 0) >= 0 }

  predicate Accepted(url: Text) {
    MentionsLoopback(url) || PrivateNetwork.IsPrivateHost(ExtractedHost(Trim(url)))
  }

  method IsLoopbackOrPrivateHttpUrl(url: Text) returns (r: bool)
    ensures r <==> Accepted(url)
  {
    hide Trim, IndexOfText, ExtractedHost, PrivateNetwork.IsPrivateHost;
    var trimmed := Trim(url);
    if IndexOfText(trimmed, LOOPBACK, 0) >= 0 {
      return true;
    }
    var host := ExtractUrlHost(trimmed);
    r := PrivateNetwork.IsLoopbackOrPrivateIpv4Host(host);
  }

  /**
   A URL is accepted exactly if it mentions the loopback address or the host it names lies in the seven
   intervals. Accepting it means that this host is private exactly if it does not mention the loopback
   address, or the host lies in the intervals anyway.
   */
  lemma AcceptedMeansPrivate(url: Text)
    ensures var host := ExtractedHost(Trim(url)); var inside := PrivateNetwork.InUnion(PrivateNetwork.ParseIpv4(host));
      && (Accepted(url) <==> MentionsLoopback(url) || inside)
      && ((Accepted(url) ==> PrivateNetwork.IsPrivateHost(host)) <==> !MentionsLoopback(url) || inside)
  {
    hide Trim, MentionsLoopback, ExtractedHost, PrivateNetwork.IsPrivateHost, PrivateNetwork.InUnion, PrivateNetwork.ParseIpv4;
    PrivateNetwork.PrivateIsUnion(ExtractedHost(Trim(url)));
  }

  lemma MentionFound(text: Text, i: nat)
    requires OccursAt(text, LOOPBACK, i)
    ensures IndexOfText(text, LOOPBACK, 0) >= 0
  {
    hide OccursAt, IndexOfText;
  }

  /** `a://b/127.0.0.1` is accepted, and its host is `b`. */
  lemma LoopbackInThePath(url: Text)
    requires url == [0x61, 0x3A, 0x2F, 0x2F, 0x62, 0x2F] + LOOPBACK
    ensures Accepted(url) && ExtractedHost(Trim(url)) == [0x62] && !PrivateNetwork.IsPrivateHost([0x62])
  {
    assert IsTrimmed(url);
    assert url[6..15] == LOOPBACK;
    assert OccursAt(url, LOOPBACK, 6);
    hide Trim;
    MentionFound(url, 6);
    HostBeforeSlash(url);
    SingleLetterIsNoAddress([0x62]);
    hide IndexOfText, ExtractedHost, PrivateNetwork.IsPrivateHost;
  }

  lemma HostBeforeSlash(url: Text)
    requires url == [0x61, 0x3A, 0x2F, 0x2F, 0x62, 0x2F] + LOOPBACK
    ensures ExtractedHost(url) == [0x62]
  {
    assert url[..4] == [0x61, 0x3A, 0x2F, 0x2F];
    SchemeAtOne(url);
    var rest := url[4..];
    assert rest[0] == 0x62 && rest[1] == SLASH;
    HostIsOneLetter(rest);
    hide IndexOfText, AuthorityIn, TextAfterAt, HostAfter;
  }

  lemma SchemeAtOne(url: Text)
    requires |url| >= 4 && url[..4] == [0x61, 0x3A, 0x2F, 0x2F]
    ensures IndexOfText(url, SCHEME_END, 0) == 1
  {
    assert url[..4][0] == url[0] && url[0..3][0] == 0x61;
    assert url[1..4] == url[..4][1..];
    assert OccursAt(url, SCHEME_END, 1) && !OccursAt(url, SCHEME_END, 0);
    hide OccursAt, IndexOfText;
  }

  lemma HostIsOneLetter(rest: Text)
    requires |rest| >= 2 && rest[0] == 0x62 && rest[1] == SLASH
    ensures HostAfter(TextAfterAt(AuthorityIn(rest))) == [0x62]
  {
    assert AuthorityEnd(rest, 0) == 1 && AuthorityIn(rest) == [0x62];
    var host: Text := [0x62];
    assert LastIndexOf(host, AT) == -1 && TextAfterAt(host) == host;
    assert IndexOf(host, COLON, 0) == -1 && HostAfter(host) == host;
  }

  lemma SingleLetterIsNoAddress(host: Text)
    requires host == [0x62]
    ensures !PrivateNetwork.IsPrivateHost(host)
  {
    SplitWhole(host, DOT);
    assert PrivateNetwork.ParseIpv4(host) < 0;
    hide PrivateNetwork.ParseIpv4, PrivateNetwork.InCidr;
  }
}
