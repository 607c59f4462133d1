/**
 The request of a sing-box start: built by SingboxStart of napi_init.cpp out of two escaped strings,
 read by decodeRequest of libsingbox/main.go.
 */
module StartRequest {
  import opened JsText
  import opened Envelope
  import Base64
  import NativeBase64

  /** `{"basePath":"` and `,"config":"` */
  const HEAD: Bytes :=
    [0x7B, 0x22, 0x62, 0x61, 0x73, 0x65, 0x50, 0x61, 0x74, 0x68, 0x22, 0x3A, 0x22]
  const MIDDLE: Bytes := [0x2C, 0x22, 0x63, 0x6F, 0x6E, 0x66, 0x69, 0x67, 0x22, 0x3A, 0x22]

  function Requested(basePath: Bytes, config: Bytes): Bytes {
    HEAD + Escaped(basePath) + [QUOTE] + (MIDDLE + Escaped(config) + [QUOTE] + [CLOSE_BRACE])
  }

  method BuildRequest(basePath: Bytes, config: Bytes) returns (encoded: string)
    ensures encoded == Base64.Encode(Requested(basePath, config))
  {
    hide Escaped, Base64.Encode;
    var path := JsonEscape(basePath);
    var text := JsonEscape(config);
    encoded := NativeBase64.Base64Encode(HEAD + path + [QUOTE] + (MIDDLE + text + [QUOTE] + [CLOSE_BRACE]));
  }

  /** `{"basePath":"` and `,"config":"`, the keys of Go's startRequest. */
  const BASE_PATH_KEY: Bytes :=
    [0x7B, 0x22, 0x62, 0x61, 0x73, 0x65, 0x50, 0x61, 0x74, 0x68, 0x22, 0x3A, 0x22]
  const CONFIG_KEY: Bytes := [0x2C, 0x22, 0x63, 0x6F, 0x6E, 0x66, 0x69, 0x67, 0x22, 0x3A, 0x22]

  /** The two members of the JSON object, in the order the native side writes them. */
  function ReadObject(text: Bytes): Option<(Bytes, Bytes)> {
    match After(BASE_PATH_KEY, text)
    case None => None
    case Some(first) =>
      match ReadString(first)
      case None => None
      case Some(path) => ReadConfig(path.0, path.1)
  }

  function ReadConfig(basePath: Bytes, text: Bytes): Option<(Bytes, Bytes)> {
    match After(CONFIG_KEY, text)
    case None => None
    case Some(second) =>
      match ReadString(second)
      case None => None
      case Some(config) => if config.1 == [0x7D] then Some((basePath, config.0)) else None
  }

  /** `base64.StdEncoding.DecodeString`, then the JSON object. */
  function ReadRequest(encoded: string): Option<(Bytes, Bytes)> {
    match Base64.ReadAll(encoded)
    case None => None
    case Some(sextets) => ReadObject(Base64.Octets(sextets))
  }

  lemma ConfigArrives(basePath: Bytes, config: Bytes)
    ensures ReadConfig(basePath, MIDDLE + Escaped(config) + [QUOTE] + [CLOSE_BRACE]) ==
            if HasRawControl(config) then None else Some((basePath, config))
  {
    hide ReadString, Escaped, HasRawControl, After;
    assert MIDDLE + Escaped(config) + [QUOTE] + [CLOSE_BRACE] == MIDDLE + (Escaped(config) + [QUOTE] + [CLOSE_BRACE]);
    assert MIDDLE == CONFIG_KEY;
    AfterPrefix(CONFIG_KEY, Escaped(config) + [QUOTE] + [CLOSE_BRACE]);
    EscapeRoundTrip(config, [CLOSE_BRACE]);
  }

  /** A start request arrives as the two texts it was built from exactly if neither holds a raw control character. */
  lemma RequestArrives(basePath: Bytes, config: Bytes)
    ensures ReadRequest(Base64.Encode(Requested(basePath, config))) ==
            if HasRawControl(basePath) || HasRawControl(config) then None else Some((basePath, config))
  {
    hide ReadString, Escaped, HasRawControl, After, ReadConfig, Base64.Encode, Base64.Octets, Base64.ReadAll, Base64.Sextets;
    var text := Requested(basePath, config);
    Base64.ReadEncode(text);
    Base64.OctetsOfSextets(text);
    var rest := MIDDLE + Escaped(config) + [QUOTE] + [CLOSE_BRACE];
    assert text == HEAD + (Escaped(basePath) + [QUOTE] + rest);
    assert HEAD == BASE_PATH_KEY;
    AfterPrefix(BASE_PATH_KEY, Escaped(basePath) + [QUOTE] + rest);
    EscapeRoundTrip(basePath, rest);
    ConfigArrives(basePath, config);
  }
}
