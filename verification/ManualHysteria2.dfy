/** Building a Hysteria2 outbound from a form, and filling the form from it: ManualOutboundBuilder.ets, ManualOutboundEditState.ets. */
module ManualHysteria2 {
  import opened JsText
  import opened JsTrim
  import opened ManualOutbound
  import WireguardRebuild

  /** `none`, `tls`, `h3`, `h2`, `http/1.1` */
  const NONE: Text := [0x6E, 0x6F, 0x6E, 0x65]
  const TLS: Text := [0x74, 0x6C, 0x73]
  const H3: Text := [0x68, 0x33]
  const H2: Text := [0x68, 0x32]
  const HTTP11: Text := [0x68, 0x74, 0x74, 0x70, 0x2F, 0x31, 0x2E, 0x31]

  const SECURITY_OPTIONS: seq<Text> := [NONE, TLS]

  const ALPN_OPTIONS: seq<Text> :=
    [[], H3, H2, HTTP11, H3 + [COMMA] + H2 + [COMMA] + HTTP11, H3 + [COMMA] + H2, H2 + [COMMA] + HTTP11]

  function NormalizeSecurity(value: Text): Text { if Trim(value) in SECURITY_OPTIONS then Trim(value) else TLS }

  function NormalizeAlpn(value: Text, fallback: Text): Text {
    if Trim(value) in ALPN_OPTIONS then Trim(value)
    else if fallback in ALPN_OPTIONS then fallback
    else []
  }

  function NormalizeAlpnWithFallback(value: Text, fallback: Text): Text {
    if Trim(value) == [] then (if fallback in ALPN_OPTIONS then fallback else [])
    else NormalizeAlpn(Trim(value), fallback)
  }

  datatype Hysteria2Form = Hysteria2Form(tag: Text, host: Text, port: Text, password: Text, security: Text, sni: Text,
                                         alpn: Text, allowInsecure: bool, obfsPassword: Text, portHopping: Text,
                                         portHoppingInterval: Text, pinSHA256: Text, bandwidthDown: Text, bandwidthUp: Text)

  datatype Hysteria2 = Hysteria2(tag: Text, address: Text, port: int, password: Text, insecure: bool,
                                 security: Option<Text>, sni: Option<Text>, alpn: Option<Text>,
                                 obfsPassword: Option<Text>, portHopping: Option<Text>, portHoppingInterval: Option<Text>,
                                 pinSHA256: Option<Text>, bandwidthDown: Option<Text>, bandwidthUp: Option<Text>)

  function Hysteria2Built(n: Numerals, form: Hysteria2Form): Built<Hysteria2> {
    var host, port := Trim(form.host), ParsePort(n, form.port);
    if host == [] || port == 0 then Failed(BadServer)
    else if Trim(form.password) == [] then Failed(NoPassword)
    else
      Success(Hysteria2(NormalizeTag(form.tag), host, port, Trim(form.password), form.allowInsecure,
                        Present(form.security), Present(form.sni), Present(NormalizeAlpnWithFallback(form.alpn, H3)),
                        Present(form.obfsPassword), Present(form.portHopping), Present(form.portHoppingInterval),
                        Present(form.pinSHA256), Present(form.bandwidthDown), Present(form.bandwidthUp)))
  }

  function Hysteria2Edited(n: Numerals, o: Hysteria2): Hysteria2Form {
    var security := NormalizeSecurity(if o.security.Some? then o.security.value else TLS);
    Hysteria2Form(NormalizeTag(o.tag), Trim(o.address), n.show(o.port), o.password,
                  NormalizeSecurity(security), OrEmpty(o.sni), NormalizeAlpn(if o.alpn.Some? then o.alpn.value else H3, H3),
                  o.insecure, OrEmpty(o.obfsPassword), OrEmpty(o.portHopping), OrEmpty(o.portHoppingInterval),
                  OrEmpty(o.pinSHA256), OrEmpty(o.bandwidthDown), OrEmpty(o.bandwidthUp))
  }

  datatype Field = Security | Sni | Alpn | ObfsPassword | PortHopping | PortHoppingInterval | PinSHA256 | BandwidthDown | BandwidthUp

  function FieldOf(server: Hysteria2, key: Field): Option<Text> {
    match key
    case Security => server.security
    case Sni => server.sni
    case Alpn => server.alpn
    case ObfsPassword => server.obfsPassword
    case PortHopping => server.portHopping
    case PortHoppingInterval => server.portHoppingInterval
    case PinSHA256 => server.pinSHA256
    case BandwidthDown => server.bandwidthDown
    case BandwidthUp => server.bandwidthUp
  }

  function WithField(server: Hysteria2, key: Field, value: Option<Text>): Hysteria2 {
    match key
    case Security => server.(security := value)
    case Sni => server.(sni := value)
    case Alpn => server.(alpn := value)
    case ObfsPassword => server.(obfsPassword := value)
    case PortHopping => server.(portHopping := value)
    case PortHoppingInterval => server.(portHoppingInterval := value)
    case PinSHA256 => server.(pinSHA256 := value)
    case BandwidthDown => server.(bandwidthDown := value)
    case BandwidthUp => server.(bandwidthUp := value)
  }

  method AssignIfPresent(server: Hysteria2, key: Field, value: Text) returns (filled: Hysteria2)
    ensures filled == WithField(server, key, if Present(value).Some? then Present(value) else FieldOf(server, key))
    ensures FieldOf(server, key).None? ==> filled == WithField(server, key, Present(value))
  {
    var trimmed := Trim(value);
    if |trimmed| == 0 {
      return server;
    }
    return WithField(server, key, Some(trimmed));
  }

  /** The fields are written one after the other; the order does not show. */
  method BuildManualHysteria2Outbound(n: Numerals, form: Hysteria2Form) returns (built: Built<Hysteria2>)
    ensures built == Hysteria2Built(n, form)
  {
    hide Trim, ParsePort, NormalizeTag, Present, NormalizeAlpnWithFallback;
    var host := Trim(form.host);
    var port := ParsePort(n, form.port);
    if |host| == 0 || port == 0 {
      return Failed(BadServer);
    }
    var password := Trim(form.password);
    if |password| == 0 {
      return Failed(NoPassword);
    }
    var server := Hysteria2(NormalizeTag(form.tag), host, port, password, form.allowInsecure,
                            None, None, None, None, None, None, None, None, None);
    server := AssignIfPresent(server, Security, form.security);
    server := AssignIfPresent(server, Sni, form.sni);
    server := AssignIfPresent(server, Alpn, NormalizeAlpnWithFallback(form.alpn, H3));
    server := AssignIfPresent(server, ObfsPassword, form.obfsPassword);
    server := AssignIfPresent(server, PortHopping, form.portHopping);
    server := AssignIfPresent(server, PortHoppingInterval, form.portHoppingInterval);
    server := AssignIfPresent(server, PinSHA256, form.pinSHA256);
    server := AssignIfPresent(server, BandwidthDown, form.bandwidthDown);
    server := AssignIfPresent(server, BandwidthUp, form.bandwidthUp);
    return Success(server);
  }

  predicate IsPresent(o: Option<Text>) { o.Some? ==> o.value != [] && IsTrimmed(o.value) }

  lemma PresentAgain(value: Text, o: Option<Text>)
    ensures IsPresent(Present(value))
    ensures IsPresent(o) ==> Present(OrEmpty(o)) == o
  {
    hide Trim;
    assert Trim([]) == [];
  }

  lemma AlpnIsOption(value: Text)
    ensures var a := NormalizeAlpnWithFallback(value, H3);
      a in ALPN_OPTIONS && a != [] && Trim(a) == a && NormalizeAlpn(a, H3) == a && NormalizeAlpnWithFallback(a, H3) == a
      && Present(a) == Some(a)
  {
    assert ALPN_OPTIONS[1] == H3;
    assert IsTrimmed(H3);
    hide Trim, IsTrimmed, ALPN_OPTIONS;
  }

  lemma SecurityIsOption(value: Text)
    ensures var s := NormalizeSecurity(value);
      s in SECURITY_OPTIONS && s != [] && Trim(s) == s && NormalizeSecurity(s) == s && Present(s) == Some(s)
  {
    assert SECURITY_OPTIONS[0] == NONE && SECURITY_OPTIONS[1] == TLS;
    assert IsTrimmed(TLS);
    hide Trim, IsTrimmed;
  }

  /** What every built outbound is. */
  predicate IsBuilt(o: Hysteria2) {
    && o.tag != [] && IsTrimmed(o.tag) && o.address != [] && IsTrimmed(o.address)
    && 1 <= o.port <= 65535 && o.password != [] && IsTrimmed(o.password)
    && o.alpn.Some? && o.alpn.value == NormalizeAlpnWithFallback(o.alpn.value, H3)
    && IsPresent(o.security) && IsPresent(o.sni) && IsPresent(o.obfsPassword) && IsPresent(o.portHopping)
    && IsPresent(o.portHoppingInterval) && IsPresent(o.pinSHA256) && IsPresent(o.bandwidthDown) && IsPresent(o.bandwidthUp)
  }

  lemma BuildIsBuilt(n: Numerals, form: Hysteria2Form, o: Hysteria2)
    requires Hysteria2Built(n, form) == Success(o)
    ensures IsBuilt(o)
  {
    hide Trim, IsTrimmed, Present, IsPresent, NormalizeAlpnWithFallback, NormalizeTag, ParsePort;
    AlpnIsOption(form.alpn);
    WireguardRebuild.TagAndPort(n, form.tag, form.port);
    PresentAgain(form.security, None);
    PresentAgain(form.sni, None);
    PresentAgain(form.obfsPassword, None);
    PresentAgain(form.portHopping, None);
    PresentAgain(form.portHoppingInterval, None);
    PresentAgain(form.pinSHA256, None);
    PresentAgain(form.bandwidthDown, None);
    PresentAgain(form.bandwidthUp, None);
  }

  function EditedSecurity(o: Hysteria2): Text { NormalizeSecurity(if o.security.Some? then o.security.value else TLS) }

  /** One round through the editor changes the security setting to a known one, and nothing else. */
  lemma RebuiltSecurityOnly(n: Numerals, o: Hysteria2)
    requires Faithful(n) && IsBuilt(o)
    ensures Hysteria2Built(n, Hysteria2Edited(n, o)) == Success(o.(security := Some(EditedSecurity(o))))
  {
    WireguardRebuild.PrintedPort(n, o.port);
    AlpnIsOption(o.alpn.value);
    SecurityIsOption(if o.security.Some? then o.security.value else TLS);
    PresentAgain([], o.sni);
    PresentAgain([], o.obfsPassword);
    PresentAgain([], o.portHopping);
    PresentAgain([], o.portHoppingInterval);
    PresentAgain([], o.pinSHA256);
    PresentAgain([], o.bandwidthDown);
    PresentAgain([], o.bandwidthUp);
    hide Faithful, Trim, IsTrimmed, Present, IsPresent, OrEmpty, NormalizeAlpnWithFallback, NormalizeAlpn,
      NormalizeSecurity, ParsePort;
  }

  /**
   A build comes back unchanged exactly if its security is `none` or `tls`; whatever it was,
   the outbound of the first edit is the outbound of every later one.
   */
  lemma StableAfterOneEdit(n: Numerals, form: Hysteria2Form, o: Hysteria2)
    requires Faithful(n) && Hysteria2Built(n, form) == Success(o)
    ensures var first := o.(security := Some(EditedSecurity(o)));
      && Hysteria2Built(n, Hysteria2Edited(n, o)) == Success(first)
      && Hysteria2Built(n, Hysteria2Edited(n, first)) == Success(first)
      && (first == o <==> o.security == Some(NONE) || o.security == Some(TLS))
  {
    BuildIsBuilt(n, form, o);
    RebuiltSecurityOnly(n, o);
    var first := o.(security := Some(EditedSecurity(o)));
    SecurityIsOption(if o.security.Some? then o.security.value else TLS);
    SecurityKept(o);
    hide Faithful, Trim, IsTrimmed, NormalizeAlpnWithFallback, NormalizeSecurity, Hysteria2Built, Hysteria2Edited;
    RebuiltSecurityOnly(n, first);
  }

  lemma SecurityKept(o: Hysteria2)
    requires IsPresent(o.security)
    ensures Some(EditedSecurity(o)) == o.security <==> o.security == Some(NONE) || o.security == Some(TLS)
    ensures IsPresent(Some(EditedSecurity(o)))
  {
    SecurityIsOption(if o.security.Some? then o.security.value else TLS);
    assert SECURITY_OPTIONS[0] == NONE && SECURITY_OPTIONS[1] == TLS;
    hide Trim, IsTrimmed;
  }

  /** `a` */
  const NAME: Text := [0x61]

  /** A security setting of `a` is built as it is and edited to `tls`. */
  lemma OtherSecurityChanges(n: Numerals, form: Hysteria2Form)
    requires Faithful(n)
    requires form == Hysteria2Form([], NAME, n.show(443), NAME, NAME, [], [], false, [], [], [], [], [], [])
    ensures var built := Hysteria2Built(n, form);
      built.Success? && Hysteria2Built(n, Hysteria2Edited(n, built.outbound)) != built
  {
    WireguardRebuild.PrintedPort(n, 443);
    assert IsTrimmed(NAME);
    assert Hysteria2Built(n, form).Success? && Hysteria2Built(n, form).outbound.security == Some(NAME) by {
      hide Faithful, IsTrimmed, ParsePort, NormalizeTag, NormalizeAlpnWithFallback;
    }
    assert NAME[0] != NONE[0] && NAME[0] != TLS[0];
    hide Faithful, Trim, IsTrimmed, Hysteria2Built, Hysteria2Edited, EditedSecurity;
    StableAfterOneEdit(n, form, Hysteria2Built(n, form).outbound);
  }
}
