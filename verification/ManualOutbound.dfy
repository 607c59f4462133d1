/**
 Building a WireGuard outbound from a form (ManualOutboundBuilder.ets) and filling the form from
 an outbound (ManualOutboundEditState.ets, NodeEdit.ets).

 Reading a number from a text and printing an integer are given functions; `Faithful` says what is asked of them.
 */
module ManualOutbound {
  import opened JsText
  import opened JsTrim
  import opened Endpoint

  datatype Number = NotANumber | Infinite(positive: bool) | Finite(value: real)

  /** `Number(text)`, `String(n)` for an integer, and which integers a number can hold. */
  datatype Numerals = Numerals(parse: Text -> Number, show: int -> Text, exact: int -> bool)

  /**
   Reading a printed integer gives it back, and a printed integer holds no separator, as far as numbers hold
   integers exactly. They do so up to 65535 at least, and whenever a number that was read is rounded down.
   */
  ghost predicate Faithful(n: Numerals) {
    && (forall i: int | n.exact(i) ::
          n.parse(n.show(i)) == Finite(i as real) && IsPlain(n.show(i)) && COMMA !in n.show(i))
    && (forall i: int | 0 <= i <= 65535 :: n.exact(i))
    && (forall t: Text | n.parse(t).Finite? :: n.exact(n.parse(t).value.Floor))
    && n.show(0) == [0x30]
  }

  /** An integer as JSON holds it: an infinite number is written as null. */
  datatype JsonNumber = Null | Int(value: int)

  datatype Reason = BadServer | NoPrivateKey | NoPublicKey | NoPassword

  datatype Built<T> = Failed(reason: Reason) | Success(outbound: T)

  function ParsePort(n: Numerals, value: Text): int {
    match n.parse(Trim(value))
    case NotANumber => 0
    case Infinite(_) => 0
    case Finite(port) => if port < 1.0 || port > 65535.0 then 0 else port.Floor
  }

  function ParsePositiveInt(n: Numerals, value: Text, fallback: int): JsonNumber {
    match n.parse(Trim(value))
    case NotANumber => Int(fallback)
    case Infinite(positive) => if positive then Null else Int(fallback)
    case Finite(parsed) => if parsed <= 0.0 then Int(fallback) else Int(parsed.Floor)
  }

  /** `proxy` */
  const PROXY: Text := [0x70, 0x72, 0x6F, 0x78, 0x79]
  /** `172.16.0.2/32` */
  const DEFAULT_ADDRESS: Text := [0x31, 0x37, 0x32, 0x2E, 0x31, 0x36, 0x2E, 0x30, 0x2E, 0x32, 0x2F, 0x33, 0x32]

  function NormalizeTag(value: Text): Text { if Trim(value) != [] then Trim(value) else PROXY }

  /** A field that is only written when it is not blank. */
  function Present(value: Text): Option<Text> { if Trim(value) != [] then Some(Trim(value)) else None }

  function OrEmpty(value: Option<Text>): Text { if value.Some? then value.value else [] }

  // ---- Lists in one line

  function SplitCsvWithDefault(value: Text, fallback: Text): seq<Text> {
    var result := NonBlank(Split(value, COMMA));
    if result == [] then [fallback] else result
  }

  /** `Math.floor` as JSON holds it. */
  function Floored(x: Number): JsonNumber
    requires !x.NotANumber?
  {
    if x.Finite? then Int(x.value.Floor) else Null
  }

  /** The numbers among the parts, rounded down. */
  function NumbersOf(n: Numerals, parts: seq<Text>): seq<JsonNumber> {
    if parts == [] then []
    else
      var last := Trim(parts[|parts| - 1]);
      NumbersOf(n, parts[..|parts| - 1]) +
      if last == [] || n.parse(last).NotANumber? then [] else [Floored(n.parse(last))]
  }

  method ParseNumberCsvWithDefault(n: Numerals, value: Text, fallback: seq<JsonNumber>) returns (result: seq<JsonNumber>)
    ensures result == NumberCsvWithDefault(n, value, fallback)
  {
    result := [];
    var parts := Split(value, COMMA);
    for index := 0 to |parts|
      invariant result == NumbersOf(n, parts[..index])
    {
      assert parts[..index + 1][..index] == parts[..index];
      var item := Trim(parts[index]);
      if |item| == 0 {
        continue;
      }
      var parsed := n.parse(item);
      if !parsed.NotANumber? {
        result := result + [Floored(parsed)];
      }
    }
    assert parts[..|parts|] == parts;
    if |result| == 0 {
      result := fallback;
    }
  }

  function NumberCsvWithDefault(n: Numerals, value: Text, fallback: seq<JsonNumber>): seq<JsonNumber> {
    var result := NumbersOf(n, Split(value, COMMA));
    if result == [] then fallback else result
  }

  const DEFAULT_RESERVED: seq<JsonNumber> := [Int(0), Int(0), Int(0)]

  /** An element of a JSON array; null is one of the others. */
  datatype Item = TextItem(text: Text) | NumberItem(number: int) | OtherItem

  function CsvParts(n: Numerals, items: seq<Item>): seq<Text> {
    if items == [] then []
    else
      var last := items[|items| - 1];
      CsvParts(n, items[..|items| - 1]) +
      match last
      case TextItem(text) => [text]
      case NumberItem(number) => [n.show(number)]
      case OtherItem => []
  }

  function Csv(n: Numerals, items: seq<Item>, fallback: Text): Text {
    if CsvParts(n, items) == [] then fallback else Join(CsvParts(n, items), COMMA)
  }

  method CsvFromValue(n: Numerals, items: seq<Item>, fallback: Text) returns (text: Text)
    ensures text == Csv(n, items, fallback)
  {
    var parts := [];
    for index := 0 to |items|
      invariant parts == CsvParts(n, items[..index])
    {
      assert items[..index + 1][..index] == items[..index];
      var item := items[index];
      if item.TextItem? {
        parts := parts + [item.text];
      } else if item.NumberItem? {
        parts := parts + [n.show(item.number)];
      }
    }
    assert items[..|items|] == items;
    text := if |parts| > 0 then Join(parts, COMMA) else fallback;
  }

  // ---- WireGuard

  datatype WireguardForm = WireguardForm(tag: Text, host: Text, port: Text, secretKey: Text, publicKey: Text,
                                         preSharedKey: Text, localAddress: Text, reserved: Text, mtu: Text)

  datatype Wireguard = Wireguard(tag: Text, secretKey: Text, address: seq<Text>, mtu: JsonNumber, reserved: seq<JsonNumber>,
                                 publicKey: Text, endpoint: Text, preSharedKey: Option<Text>)

  function WireguardBuilt(n: Numerals, form: WireguardForm): Built<Wireguard> {
    var host, port := Trim(form.host), ParsePort(n, form.port);
    if host == [] || port == 0 then Failed(BadServer)
    else if Trim(form.secretKey) == [] then Failed(NoPrivateKey)
    else if Trim(form.publicKey) == [] then Failed(NoPublicKey)
    else
      Success(Wireguard(NormalizeTag(form.tag), Trim(form.secretKey),
                        SplitCsvWithDefault(form.localAddress, DEFAULT_ADDRESS), ParsePositiveInt(n, form.mtu, 1280),
                        NumberCsvWithDefault(n, form.reserved, DEFAULT_RESERVED), Trim(form.publicKey),
                        FormatEndpoint(host, n.show(port)), Present(form.preSharedKey)))
  }

  method BuildManualWireguardOutbound(n: Numerals, form: WireguardForm) returns (built: Built<Wireguard>)
    ensures built == WireguardBuilt(n, form)
  {
    hide NormalizeTag, SplitCsvWithDefault, NumberCsvWithDefault, ParsePort, ParsePositiveInt, Trim, FormatEndpoint;
    var host := Trim(form.host);
    var port := ParsePort(n, form.port);
    if |host| == 0 || port == 0 {
      return Failed(BadServer);
    }
    var secretKey := Trim(form.secretKey);
    if |secretKey| == 0 {
      return Failed(NoPrivateKey);
    }
    var publicKey := Trim(form.publicKey);
    if |publicKey| == 0 {
      return Failed(NoPublicKey);
    }
    var preSharedKey := None;
    if |Trim(form.preSharedKey)| > 0 {
      preSharedKey := Some(Trim(form.preSharedKey));
    }
    var address := SplitCsvWithDefault(form.localAddress, DEFAULT_ADDRESS);
    var mtu := ParsePositiveInt(n, form.mtu, 1280);
    var reserved := ParseNumberCsvWithDefault(n, form.reserved, DEFAULT_RESERVED);
    built := Success(Wireguard(NormalizeTag(form.tag), secretKey, address, mtu, reserved, publicKey,
                               FormatEndpoint(host, n.show(port)), preSharedKey));
  }

  // ---- Back into the form

  function TextItems(texts: seq<Text>): seq<Item> { seq(|texts|, i requires 0 <= i < |texts| => TextItem(texts[i])) }

  function NumberItems(numbers: seq<JsonNumber>): seq<Item> {
    seq(|numbers|, i requires 0 <= i < |numbers| => if numbers[i].Int? then NumberItem(numbers[i].value) else OtherItem)
  }

  /** `numberString`: null is no number, and so the fallback. */
  function NumberString(n: Numerals, x: JsonNumber, fallback: Text): Text { if x.Int? then n.show(x.value) else fallback }

  function WireguardEdited(n: Numerals, o: Wireguard): WireguardForm {
    var endpoint := ParseEndpoint(o.endpoint);
    WireguardForm(NormalizeTag(o.tag), Trim(endpoint.host),
                  if endpoint.port != [] then endpoint.port else n.show(51820),
                  o.secretKey, o.publicKey, OrEmpty(o.preSharedKey),
                  Csv(n, TextItems(o.address), DEFAULT_ADDRESS), Csv(n, NumberItems(o.reserved), ZEROS), NumberString(n, o.mtu, n.show(1280)))
  }

  /** `0,0,0` */
  const ZEROS: Text := [0x30, 0x2C, 0x30, 0x2C, 0x30]

  /** The WireGuard fields of the edit state. */
  class EditState {
    var nodeName: Text
    var serverHost: Text
    var serverPort: Text
    var userIdOrPassword: Text
    var publicKey: Text
    var preSharedKey: Text
    var reserved: Text
    var localAddress: Text
    var mtu: Text

    constructor (n: Numerals, tag: Text)
      ensures nodeName == tag && serverHost == [] && serverPort == n.show(51820)
    {
      nodeName, serverHost, serverPort := tag, [], n.show(51820);
      userIdOrPassword, publicKey, preSharedKey := [], [], [];
      reserved, localAddress, mtu := ZEROS, DEFAULT_ADDRESS, n.show(1280);
    }

    /** What the editor hands to the builder when saving. */
    function Form(): WireguardForm
      reads this
    {
      WireguardForm(NormalizeTag(nodeName), Trim(serverHost), serverPort, userIdOrPassword, publicKey, preSharedKey,
                    localAddress, reserved, mtu)
    }

    method ApplyWireguardState(n: Numerals, o: Wireguard)
      requires nodeName == o.tag && serverHost == [] && serverPort == n.show(51820)
      modifies this
      ensures Form() == WireguardEdited(n, o)
    {
      hide ParseEndpoint, Csv, NormalizeTag;
      userIdOrPassword := o.secretKey;
      localAddress := CsvFromValue(n, TextItems(o.address), DEFAULT_ADDRESS);
      reserved := CsvFromValue(n, NumberItems(o.reserved), ZEROS);
      mtu := NumberString(n, o.mtu, n.show(1280));
      publicKey := o.publicKey;
      preSharedKey := OrEmpty(o.preSharedKey);
      var endpoint := ParseEndpoint(o.endpoint);
      if |endpoint.host| > 0 {
        serverHost := endpoint.host;
      }
      if |endpoint.port| > 0 {
        serverPort := endpoint.port;
      }
    }
  }
}
