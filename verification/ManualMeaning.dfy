/** What the two builders make of a form, field by field, with the defaults and options as they are typed. */
module ManualMeaning {
  import opened JsText
  import opened JsTrim
  import opened Endpoint
  import opened ManualOutbound
  import opened ManualHysteria2
  import WireguardRebuild

  // ---- Texts with defaults

  const PROXY_TEXT: Text := Units("proxy")
  const ADDRESS_TEXT: Text := Units("172.16.0.2/32")
  const ZEROS_TEXT: Text := Units("0,0,0")

  function TrimmedOr(value: Text, fallback: Text): Text { if HasInk(value) then Trim(value) else fallback }

  function TrimmedIfInk(value: Text): Option<Text> { if HasInk(value) then Some(Trim(value)) else None }

  /** The port that a text names: a number from 1 to 65535, rounded down. */
  function NamedPort(n: Numerals, value: Text): Option<int> {
    var typed := n.parse(Trim(value));
    if typed.Finite? && 1.0 <= typed.value <= 65535.0 then Some(typed.value.Floor) else None
  }

  lemma PortIsNamed(n: Numerals, value: Text)
    ensures NamedPort(n, value) == if ParsePort(n, value) == 0 then None else Some(ParsePort(n, value))
  {
    hide Trim;
  }

  lemma Defaults()
    ensures PROXY == PROXY_TEXT && DEFAULT_ADDRESS == ADDRESS_TEXT && ZEROS == ZEROS_TEXT
    ensures DEFAULT_RESERVED == [Int(0), Int(0), Int(0)]
  {
  }

  lemma TextIsTrimmed(value: Text)
    ensures NormalizeTag(value) == TrimmedOr(value, PROXY_TEXT)
    ensures Present(value) == TrimmedIfInk(value)
    ensures Trim(value) == [] <==> !HasInk(value)
  {
    TrimKeepsInk(value);
    Defaults();
    hide Trim, HasInk, Units;
  }

  /** A list of which nothing is left is the default address. */
  lemma NoAddress(value: Text)
    requires forall part | part in Split(value, 0x2C) :: !HasInk(part)
    ensures SplitCsvWithDefault(value, ADDRESS_TEXT) == [ADDRESS_TEXT]
  {
    hide Units, HasInk, Split;
    NothingLeft(Split(value, 0x2C));
  }

  lemma {:induction false} NothingLeft(parts: seq<Text>)
    requires forall part | part in parts :: !HasInk(part)
    ensures NonBlank(parts) == []
  {
    hide HasInk, Trim;
    if parts != [] {
      assert parts[0] in parts && forall part | part in parts[1..] :: part in parts;
      TrimKeepsInk(parts[0]);
      NothingLeft(parts[1..]);
    }
  }

  // ---- WireGuard

  /** A colon in a host that has no bracket of its own in front puts it in brackets. */
  function EndpointText(host: Text, port: Text): Text {
    if 0x3A in host && (host == [] || host[0] != 0x5B) then [0x5B] + host + [0x5D, 0x3A] + port else host + [0x3A] + port
  }

  lemma EndpointIsText(host: Text, port: Text)
    ensures FormatEndpoint(host, port) == EndpointText(host, port)
  {
    FoundIff(host, COLON);
    hide IndexOf;
  }

  /** The MTU typed, rounded down, or 1280 where that is no number or not positive; an infinite one is null. */
  function TypedMtu(n: Numerals, value: Text): JsonNumber {
    var typed := n.parse(Trim(value));
    if typed == Infinite(true) then Null
    else if typed.Finite? && typed.value > 0.0 then Int(typed.value.Floor)
    else Int(1280)
  }

  /** The checks in their order, and every field of the outbound. */
  lemma WireguardExactly(n: Numerals, form: WireguardForm)
    ensures WireguardBuilt(n, form) ==
      if !HasInk(form.host) || NamedPort(n, form.port).None? then Failed(BadServer)
      else if !HasInk(form.secretKey) then Failed(NoPrivateKey)
      else if !HasInk(form.publicKey) then Failed(NoPublicKey)
      else Success(Wireguard(
        TrimmedOr(form.tag, PROXY_TEXT), Trim(form.secretKey),
        SplitCsvWithDefault(form.localAddress, ADDRESS_TEXT), TypedMtu(n, form.mtu),
        NumberCsvWithDefault(n, form.reserved, [Int(0), Int(0), Int(0)]), Trim(form.publicKey),
        EndpointText(Trim(form.host), n.show(NamedPort(n, form.port).value)), TrimmedIfInk(form.preSharedKey)))
  {
    hide Trim, HasInk, Units, SplitCsvWithDefault, NumberCsvWithDefault, FormatEndpoint, EndpointText, NormalizeTag,
      TrimmedOr, TrimmedIfInk, Present, ParsePort, NamedPort;
    Defaults();
    PortIsNamed(n, form.port);
    TextIsTrimmed(form.tag);
    TextIsTrimmed(form.host);
    TextIsTrimmed(form.secretKey);
    TextIsTrimmed(form.publicKey);
    TextIsTrimmed(form.preSharedKey);
    if ParsePort(n, form.port) != 0 {
      EndpointIsText(Trim(form.host), n.show(ParsePort(n, form.port)));
    }
  }

  /** An endpoint without a colon is a host without a port, for every reader, and 51820 is shown. */
  lemma EndpointWithoutColon(n: Numerals, o: Wireguard)
    requires o.endpoint != [] && IsTrimmed(o.endpoint) && 0x3A !in o.endpoint && o.endpoint[0] != 0x5B
    ensures ParseEndpoint(o.endpoint) == Parsed(o.endpoint, [])
    ensures EndpointHost(o.endpoint) == o.endpoint && EndpointPort(o.endpoint) == []
    ensures WireguardEdited(n, o).host == o.endpoint && WireguardEdited(n, o).port == n.show(51820)
  {
    assert LastIndexOf(o.endpoint, COLON) == -1;
    hide Trim, IndexOf, LastIndexOf, NormalizeTag, Csv;
  }

  /** Nor has one that ends with its bracket a port. */
  lemma EndpointInBrackets(inner: Text)
    requires 0x5D !in inner
    ensures var e := [0x5B] + inner + [0x5D];
      ParseEndpoint(e) == Parsed(inner, []) && EndpointHost(e) == inner && EndpointPort(e) == []
  {
    var e := [0x5B] + inner + [0x5D];
    assert e[..|inner| + 1] == [0x5B] + inner;
    FirstAt(e, CLOSE_BRACKET, |inner| + 1);
    assert IsTrimmed(e) && Trim(e) == e;
    assert e[1..|inner| + 1] == inner && e[|inner| + 2..] == [];
    hide Trim, IndexOf, LastIndexOf;
  }

  /** What the editor shows of an outbound: its fields. */
  lemma EditedFields(n: Numerals, o: Wireguard)
    ensures var form := WireguardEdited(n, o);
      && form.tag == TrimmedOr(o.tag, PROXY_TEXT)
      && form.secretKey == o.secretKey && form.publicKey == o.publicKey
      && form.preSharedKey == (if o.preSharedKey.Some? then o.preSharedKey.value else [])
      && form.mtu == n.show(if o.mtu.Int? then o.mtu.value else 1280)
      && (o.address != [] ==> form.localAddress == Join(o.address, 0x2C))
  {
    hide Trim, HasInk, Units, ParseEndpoint, NormalizeTag, TrimmedOr, Join, NumberItems;
    TextIsTrimmed(o.tag);
    WireguardRebuild.TextParts(n, o.address);
  }

  /** And the defaults where a list holds nothing to show. */
  lemma EditedDefaults(n: Numerals, o: Wireguard)
    ensures o.address == [] ==> WireguardEdited(n, o).localAddress == ADDRESS_TEXT
    ensures (forall x | x in o.reserved :: x.Null?) ==> WireguardEdited(n, o).reserved == ZEROS_TEXT
  {
    hide Trim, Units, ParseEndpoint, NormalizeTag, Join, NumberItems, TextItems;
    Defaults();
    WireguardRebuild.TextParts(n, o.address);
    if forall x | x in o.reserved :: x.Null? {
      NoNumbers(n, o.reserved);
    }
  }

  lemma {:induction false} NoNumbers(n: Numerals, numbers: seq<JsonNumber>)
    requires forall x | x in numbers :: x.Null?
    ensures CsvParts(n, NumberItems(numbers)) == []
  {
    if numbers != [] {
      var k := |numbers| - 1;
      assert numbers[k] in numbers && NumberItems(numbers)[..k] == NumberItems(numbers[..k]);
      NoNumbers(n, numbers[..k]);
    }
  }

  /** One part of the reserved list: a number is rounded down, an infinite one is null, anything else is skipped. */
  function ReadPart(n: Numerals, part: Text): seq<JsonNumber> {
    var typed := n.parse(Trim(part));
    if !HasInk(part) || typed.NotANumber? then []
    else if typed.Infinite? then [Null]
    else [Int(typed.value.Floor)]
  }

  lemma ReservedParts(n: Numerals, parts: seq<Text>, last: Text)
    ensures NumbersOf(n, []) == []
    ensures NumbersOf(n, parts + [last]) == NumbersOf(n, parts) + ReadPart(n, last)
  {
    assert (parts + [last])[..|parts|] == parts;
    TrimKeepsInk(last);
    hide Trim, HasInk;
  }

  // ---- Hysteria2

  /** The seven settings of the list of protocols. */
  predicate IsAlpn(value: Text) {
    || value == [] || value == Units("h3") || value == Units("h2") || value == Units("http/1.1")
    || value == Units("h3,h2,http/1.1") || value == Units("h3,h2") || value == Units("h2,http/1.1")
  }

  lemma AlpnOptions(value: Text)
    ensures value in ALPN_OPTIONS <==> IsAlpn(value)
    ensures H3 == Units("h3")
  {
    AlpnTexts();
    assert ALPN_OPTIONS == [[], ALPN_OPTIONS[1], ALPN_OPTIONS[2], ALPN_OPTIONS[3], ALPN_OPTIONS[4], ALPN_OPTIONS[5], ALPN_OPTIONS[6]];
    hide Units, ALPN_OPTIONS;
  }

  lemma AlpnTexts()
    ensures ALPN_OPTIONS[1] == H3 == Units("h3") && ALPN_OPTIONS[2] == Units("h2") && ALPN_OPTIONS[3] == Units("http/1.1")
    ensures ALPN_OPTIONS[4] == Units("h3,h2,http/1.1")
    ensures ALPN_OPTIONS[5] == Units("h3,h2") && ALPN_OPTIONS[6] == Units("h2,http/1.1")
  {
  }

  lemma AlpnExactly(value: Text)
    ensures NormalizeAlpnWithFallback(value, H3) == if HasInk(value) && IsAlpn(Trim(value)) then Trim(value) else Units("h3")
  {
    TrimKeepsInk(value);
    AlpnOptions(Trim(value));
    AlpnOptions(H3);
    hide Trim, HasInk, Units, ALPN_OPTIONS;
    assert IsTrimmed(Trim(value));
  }

  /** The checks in their order, and every field of the outbound. */
  lemma Hysteria2Exactly(n: Numerals, form: Hysteria2Form)
    ensures Hysteria2Built(n, form) ==
      if !HasInk(form.host) || NamedPort(n, form.port).None? then Failed(BadServer)
      else if !HasInk(form.password) then Failed(NoPassword)
      else Success(Hysteria2(
        TrimmedOr(form.tag, PROXY_TEXT), Trim(form.host), NamedPort(n, form.port).value, Trim(form.password),
        form.allowInsecure, TrimmedIfInk(form.security), TrimmedIfInk(form.sni),
        Some(if HasInk(form.alpn) && IsAlpn(Trim(form.alpn)) then Trim(form.alpn) else Units("h3")),
        TrimmedIfInk(form.obfsPassword), TrimmedIfInk(form.portHopping), TrimmedIfInk(form.portHoppingInterval),
        TrimmedIfInk(form.pinSHA256), TrimmedIfInk(form.bandwidthDown), TrimmedIfInk(form.bandwidthUp)))
  {
    hide Trim, HasInk, Units, NormalizeTag, TrimmedOr, TrimmedIfInk, Present, ParsePort, NamedPort, IsAlpn, ALPN_OPTIONS,
      NormalizeAlpnWithFallback;
    PortIsNamed(n, form.port);
    AlpnExactly(form.alpn);
    AlpnIsOption(form.alpn);
    TextIsTrimmed(form.tag);
    TextIsTrimmed(form.host);
    TextIsTrimmed(form.password);
    TextIsTrimmed(form.security);
    TextIsTrimmed(form.sni);
    TextIsTrimmed(form.obfsPassword);
    TextIsTrimmed(form.portHopping);
    TextIsTrimmed(form.portHoppingInterval);
    TextIsTrimmed(form.pinSHA256);
    TextIsTrimmed(form.bandwidthDown);
    TextIsTrimmed(form.bandwidthUp);
  }

  /** The editor knows two security settings and takes any other for `tls`. */
  lemma SecurityExactly(o: Hysteria2)
    requires o.security.Some?
    ensures var typed := Trim(o.security.value);
      EditedSecurity(o) == if typed == Units("none") || typed == Units("tls") then typed else Units("tls")
  {
    assert NONE == Units("none") && TLS == Units("tls");
    assert SECURITY_OPTIONS == [NONE, TLS];
    hide Trim, Units, SECURITY_OPTIONS;
  }
}
