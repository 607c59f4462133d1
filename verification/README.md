# Hey: proofs about the core algorithms and the native bridge

Hey is a proxy client for HarmonyOS. This project models the parts of it that are written out by hand
and have to be right for every input, and proves what they are for:

- **Internationalised hosts** (`Unicode16`, `Punycode`, `Rfc3492`, `PunycodeDecoder`, `PunycodeSample`, `IdnUrl`,
  `IdnUrlProperties`, `IdnUrlReparse`, `IdnUrlWritten`). The Punycode encoder of `IdnUrl.ets` against the decoder of
  RFC 3492 section 6.2, which has its own thresholds and bias adaptation (`Rfc3492`), and the URL rewriter around
  it, which must touch nothing but the host.
- **Base64 and UTF-8, twice** (`Base64`, `Base64Sample`, `Base64Stream`, `ArkBase64`, `NativeBase64`,
  `Base64Agreement`, `Base64Characters`, `Utf8`, `Rfc3629`, `Utf8Standard`). The block encoder of `Encoding.ets` and the
  streaming one of `napi_init.cpp` against RFC 4648, their decoders on wrapping 32-bit accumulators, the UTF-8 codec
  against strict readers of the standards (`Rfc3629`), and the exact strings that survive it.
- **The answer envelope and the start request** (`Envelope`, `GoJson`, `SingBoxReplies`, `StartRequest`): base64 of JSON
  between `libsingbox/main.go` and `napi_init.cpp`, read on the native side by a substring search, and by a JSON
  reader here.
- **The native bridge** (`Adapter`, `Loader`, `SingBox`, `Bridge`, `BridgeSafety`, `BridgeFlags`,
  `BridgeLifecycle`). The globals of `napi_init.cpp` as a class whose methods are the exported calls, each proved to be one step of
  a state machine; then safety over all runs. Foreign results (dlopen, dlsym, answers of the cores) are
  arbitrary and come with each event. The detached gvisor stop is a thread of its own: in `Adapter` it
  interleaves with a start at the atomic operations, and a start is proved to count as one step.
- **Addresses** (`JsBits`, `Decimal`, `PrivateNetwork`, `AuthorityParsers`, `PrivateUrl`, `AuthorityWritten`): IPv4
  ranges by shift and mask against plain division, and the second URL host parser against the first.
- **Lists and plans** (`JsTrim`, `Selection`, `Scheduler`, `PerApp`, `PerAppAlgebra`, `PerAppFile`,
  `PerAppMeaning`): matching a
  node after a refresh, update planning, the per-app package list.
- **Forms** (`Endpoint`, `ManualOutbound`, `WireguardRebuild`, `ManualHysteria2`, `ManualMeaning`): building an
  outbound from a form and filling the form from it again.

Loops and objects of the program are loops and classes here. Each is proved equal to a function of its
inputs or of the state before, and the properties are lemmas about that function. What such a function shares with
the program is stated once more in plain numbers and characters, apart from it: the readers `Rfc3492`
and `Rfc3629`, the modules whose names end in `Written`, `Meaning`, `Characters`, `Flags` and `Standard`, the lemmas
whose names end in `Exactly`, and known values. A JavaScript string is a
sequence of 16-bit code units (`JsText`); native text is a sequence of bytes.

What the proofs show to be false of the program, each with an input and the exact condition under which it holds:

- The text after a host is always copied, but not always read back: a host that starts with its only colon and has
  a non-ASCII first label is found at another place, and a port appears (`IdnUrlReparse.HostRelocates`,
  `IdnUrlReparse.AfterHostReadBack`; input `IdnUrlReparse.LeadingColonMoves`).
- `JsonEscape` copies control characters other than newline, return and tab, so a strict JSON reader refuses
  the string (`Envelope.EscapeRoundTrip`; input `Envelope.BackspaceIsLost`).
- Text with a high surrogate before a unit that is not a low one comes back changed (`Utf8.TextRoundTrip`; input
  `Utf8.BrokenPairChanges`).
- A gvisor start that reported success can lose its engine to a stop detached before it, waiting for its swap or past
  it; it is safe from every schedule exactly if there was neither, and the start started the engine or found it
  up (`BridgeSafety.GvisorStartSurvives`, `BridgeSafety.SafeFromEverySchedule`). The plane flag then stays up over an
  engine that was stopped (inputs `BridgeLifecycle.LateStopTakesPlaneDown`,
  `BridgeLifecycle.OwedStopTakesEngineDown`).
- The adapter's flag does not always tell whether its engine is up (`Adapter.FlagTellsEngine`; input
  `Adapter.OwedStopWins`).
- `StopXray` and `SingboxStop` clear the plane flag but not the plane, of either engine
  (`BridgeSafety.StopXrayKeepsThePlane`, `BridgeSafety.SingboxStopKeepsThePlane`). A later start then makes a second
  plane or waits for a hev thread nobody told to quit (`BridgeSafety.HevStartMakesTwo`,
  `BridgeSafety.NeverTwoExactly`; input `BridgeLifecycle.StopXrayBetweenStarts`).
- The comment above `PrepareXrayAssetDir` says the environment is written before the first dlopen only. The
  code tests the published handle: after a dlopen that succeeded with a symbol missing a write is
  still possible (`BridgeLifecycle.LateWriteExactly`), and if another call published the core first it never
  writes (`BridgeLifecycle.AssetSetWhenStarted`; inputs for both `BridgeLifecycle.AssetDirectoryCanFail`).
- A WireGuard MTU typed as a fraction below 1 or as infinite, an infinite reserved number, or a host with stray
  brackets does not come back from the editor (`WireguardRebuild.RebuildIsIdentity`,
  `WireguardRebuild.MtuOfBuild`, `WireguardRebuild.ReservedOfBuild`; inputs `WireguardRebuild.OddMtuIsLost`,
  `WireguardRebuild.InfiniteReservedIsLost`, `WireguardRebuild.BracketedNameIsLost`). A Hysteria2 security other than
  `none` or `tls` becomes `tls` at the first edit (`ManualHysteria2.StableAfterOneEdit`; input
  `ManualHysteria2.OtherSecurityChanges`); this is about the exported builder, the editor itself only passes these two.
- A plaintext URL that mentions `127.0.0.1` anywhere is accepted whatever its host is
  (`PrivateUrl.AcceptedMeansPrivate`; input `PrivateUrl.LoopbackInThePath`).
- Two groups can share a work id (`Scheduler.SameWorkId`; input `Scheduler.WorkIdsCollide`).

## Model

| member | source | states |
|---|---|---|
| Unicode16.CodePointsFromString | entry/src/main/ets/core/IdnUrl.ets:181-198 | the loop over code units returns the code points of the text, a surrogate that has no partner standing for itself |
| Unicode16.UnitsOfCodePoints | entry/src/main/ets/core/IdnUrl.ets:181-206 | mapping every code point back through fromCodePoint gives the original units, lone surrogates included |
| Unicode16.PairIsOne | entry/src/main/ets/core/IdnUrl.ets:181-198 | a unit from D800 to DBFF and one from DC00 to DFFF after it are the one code point of RFC 2781 section 2.2 |
| Unicode16.OtherIsItself | entry/src/main/ets/core/IdnUrl.ets:181-198 | any other unit at the front is its own code point |
| Punycode.AdaptBias | entry/src/main/ets/core/IdnUrl.ets:145-154 | the bias loop is the adaptation of RFC 3492 section 6.1 |
| Punycode.ThresholdIs | entry/src/main/ets/core/IdnUrl.ets:156-164 | for all k and bias the threshold is k - bias, but at least 1 and at most 26; it equals the one the decoder computes for itself |
| Punycode.AdaptIs | entry/src/main/ets/core/IdnUrl.ets:145-154 | for all deltas the adapted bias is the one the decoder computes for itself, in the numbers of RFC 3492 section 6.1 |
| Punycode.MinCodePointAtLeast | entry/src/main/ets/core/IdnUrl.ets:170-179 | the scan finds the least value not below the bound |
| Punycode.CopyBasic | entry/src/main/ets/core/IdnUrl.ets:98-110 | the basic code points are copied in order and counted |
| Punycode.VarIntInverse | entry/src/main/ets/core/IdnUrl.ets:124-133 | the reader of RFC 3492 section 3.3, with thresholds of its own, reads the digits written for any delta under any bias as that delta and leaves whatever follows untouched |
| Punycode.VarIntShape | entry/src/main/ets/core/IdnUrl.ets:124-133 | all digits are 0 to 35, every one but the last is at least its threshold, the last is below it |
| Punycode.EncodeDelta | entry/src/main/ets/core/IdnUrl.ets:124-133 | the digit loop ends and writes the integer that a reader with thresholds of its own reads back (VarIntInverse) |
| Punycode.NextPass | entry/src/main/ets/core/IdnUrl.ets:112-123 | the next pass is for a code point that occurs in the label, every smaller one is handled already, and the pass handles at least one more |
| Punycode.DeltaBound | entry/src/main/ets/core/IdnUrl.ets:112-142 | while the invariant on delta holds, delta is below 0x110000 times length plus one, so double arithmetic is exact without the overflow checks of RFC 3492 section 6.4 |
| Punycode.DeltaVisit | entry/src/main/ets/core/IdnUrl.ets:119-138 | one step of the inner scan keeps the invariant on delta |
| Punycode.EncodeRounds | entry/src/main/ets/core/IdnUrl.ets:112-142 | the outer loop ends, since every round handles more code points, and writes what the rounds prescribe |
| Punycode.PunycodeEncode | entry/src/main/ets/core/IdnUrl.ets:96-143 | the nested loops return the encoding that the decoder of RFC 3492 inverts (RoundTrip) and that the known encodings below fix |
| PunycodeDecoder.PassFollows | entry/src/main/ets/core/IdnUrl.ets:117-138 | delta is exactly the number of decoder states skipped since the last digit: a decoder that reads the output so far, and then makes the skipped steps, holds exactly the code points handled so far, in place |
| PunycodeDecoder.RoundTrip | entry/src/main/ets/core/IdnUrl.ets:96-143 | the decoder of RFC 3492 section 6.2, written apart from the encoder in the numbers of the RFC, returns every list of code points that is not all ASCII from its encoding |
| PunycodeDecoder.LabelRoundTrip | entry/src/main/ets/core/IdnUrl.ets:96-206 | for every label with a non-ASCII unit the decoder returns its code points, and these give the label back |
| PunycodeDecoder.EncodingInjective | entry/src/main/ets/core/IdnUrl.ets:89-143 | two different non-ASCII labels never get the same encoding |
| PunycodeDecoder.EncodedShape | entry/src/main/ets/core/IdnUrl.ets:98-111 | the encoding is the basic code points, a delimiter if there are any, and digits only |
| PunycodeSample.Known | entry/src/main/ets/core/IdnUrl.ets:96-168 | the code points E9 6F22 8A9E are encoded as 9ca8457cdir, which fixes the constants, both branches of the adaptation and its loop |
| PunycodeSample.KnownMiddle | entry/src/main/ets/core/IdnUrl.ets:96-168 | the code points 65E5 672C 8A9E are encoded as wgv71a119e, which needs thresholds between 1 and 26 |
| PunycodeSample.KnownSingle | entry/src/main/ets/core/IdnUrl.ets:96-168 | e with acute is encoded as 9ca |
| IdnUrl.ContainsNonAscii | entry/src/main/ets/core/IdnUrl.ets:221-228 | true exactly if some unit is 0x80 or above |
| IdnUrl.NormalizeIdnDots | entry/src/main/ets/core/IdnUrl.ets:208-219 | the three ideographic full stops become dots, everything else stays in place |
| IdnUrl.ToAsciiLabel | entry/src/main/ets/core/IdnUrl.ets:89-94 | an ASCII label unchanged, any other with the prefix and its encoding; that the prefix is xn-- and the encoding decodes is LabelConverted |
| IdnUrlProperties.LabelConverted | entry/src/main/ets/core/IdnUrl.ets:89-94 | a label with a unit of 80 or above becomes the units 78 6E 2D 2D, that is xn--, and an encoding that decodes to its code points; any other label stays as it is |
| IdnUrl.ToIdnDomain | entry/src/main/ets/core/IdnUrl.ets:32-42 | the domain is rewritten label by label |
| IdnUrl.FindAuthorityEnd | entry/src/main/ets/core/IdnUrl.ets:50-60 | the least index of a slash, question mark or hash, or the end of the text |
| IdnUrl.ParseAuthorityHost | entry/src/main/ets/core/IdnUrl.ets:62-87 | the host and its position in the authority, after the last at-sign, inside brackets or before the only colon |
| IdnUrl.ToIdnUrl | entry/src/main/ets/core/IdnUrl.ets:9-30 | the URL with the located host range replaced, and unchanged without a scheme |
| IdnUrlProperties.HostLabels | entry/src/main/ets/core/IdnUrl.ets:32-42 | the new host has the labels of the dot-normalised old one, as many and in order, each converted as LabelConverted says |
| IdnUrlProperties.HostIsAscii | entry/src/main/ets/core/IdnUrl.ets:32-42 | the new host is pure ASCII, for every string |
| IdnUrlProperties.CountDomain | entry/src/main/ets/core/IdnUrl.ets:32-42 | every ASCII unit other than lower-case letters, digits, hyphen and dot occurs in the new host as often as in the old one: no colon, bracket, slash or at-sign comes or goes |
| IdnUrlReparse.HostRelocates | entry/src/main/ets/core/IdnUrl.ets:62-87 | reading the authority text again finds the new host exactly where it was put, if and only if the host is bracketed or is not a text whose only colon comes first and whose first label is non-ASCII |
| IdnUrlReparse.AfterHostReadBack | entry/src/main/ets/core/IdnUrl.ets:62-87 | the text after the located host, a bracket or a port, is read back as it was if and only if that condition holds |
| IdnUrlReparse.LeadingColonMoves | entry/src/main/ets/core/IdnUrl.ets:62-87 | the authority text colon, e with acute has no port; rewritten, its host is found elsewhere and a port is read that was not there |
| IdnUrlReparse.PartsKept | entry/src/main/ets/core/IdnUrl.ets:9-30 | the result has the same scheme and userinfo and the same authority text but for the host, for every URL; the port is copied |
| IdnUrlReparse.RestReadBack | entry/src/main/ets/core/IdnUrl.ets:9-30 | scheme, userinfo, path, query and fragment are read back as they were for every URL, and what follows the host in the authority exactly under the relocation condition |
| IdnUrlReparse.OnlyHostChanges | entry/src/main/ets/core/IdnUrl.ets:9-30 | what precedes and follows the host is copied, and the new host is found again in place exactly under the same condition |
| IdnUrlReparse.AsciiUnchanged | entry/src/main/ets/core/IdnUrl.ets:9-48 | a URL with an ASCII host, or without a scheme, is returned unchanged |
| IdnUrlReparse.NewHostAscii | entry/src/main/ets/core/IdnUrl.ets:9-30 | the host that is read from a rewritten URL is pure ASCII, whatever brackets and colons it has |
| IdnUrlReparse.Idempotent | entry/src/main/ets/core/IdnUrl.ets:9-30 | rewriting twice is rewriting once, for every string |
| IdnUrlWritten.HostReplaced | entry/src/main/ets/core/IdnUrl.ets:9-30 | of every URL written as scheme, ://, user and @, host, : and port, and a rest that starts with /, ? or #, exactly the host is replaced |
| IdnUrlWritten.BracketsReplaced | entry/src/main/ets/core/IdnUrl.ets:62-79 | of a URL with a host in brackets exactly what the brackets hold is replaced |
| IdnUrlWritten.LabelsOfDotted | entry/src/main/ets/core/IdnUrl.ets:208-219 | each of the four dots 2E, 3002, FF0E and FF61 ends a label, and nothing else does |
| IdnUrlWritten.KnownUrl | entry/src/main/ets/core/IdnUrl.ets:9-30 | http://u@é.com:8/é becomes http://u@xn--9ca.com:8/é |
| Base64.OctetsOfSextets | entry/src/main/ets/core/Encoding.ets:29-53 | regrouping octets into sextets and back is the identity (RFC 4648 section 4) |
| Base64Sample.SameNumber | entry/src/main/ets/core/Encoding.ets:122-137 | the four indices of a group are the digits to base 64 of the number whose digits to base 256 are its octets |
| Base64Sample.OneOctet | entry/src/main/ets/core/Encoding.ets:122-137 | f is encoded as Zg== (RFC 4648 section 10) |
| Base64Sample.TwoOctets | entry/src/main/ets/core/Encoding.ets:122-137 | fo is encoded as Zm8= |
| Base64Sample.SixOctets | entry/src/main/ets/core/Encoding.ets:122-137 | foobar is encoded as Zm9vYmFy |
| Base64Sample.LastLetters | entry/src/main/ets/core/Encoding.ets:1 | the last two letters of the alphabet are + and / |
| Base64Stream.PushIndex | entry/src/main/ets/core/Encoding.ets:45-50 | after one more index the 32-bit accumulator still holds the pending bits, and the octet it emits is the right one, whatever the high bits are |
| Base64Stream.PushByte | entry/src/main/cpp/napi_init.cpp:244-253 | the same for the byte accumulator of the C++ encoder: its unmasked high bits never matter |
| Base64Stream.SextetsAreWhole | entry/src/main/cpp/napi_init.cpp:241-261 | streaming the octets gives the same sextets as grouping them by three |
| ArkBase64.EncodeBytes | entry/src/main/ets/core/Encoding.ets:122-137 | the three-byte block encoder writes the RFC 4648 section 4 text, padding included |
| ArkBase64.EncodeBytesNoPadding | entry/src/main/ets/core/Encoding.ets:139-145 | the no-padding form is that text without its equals signs |
| ArkBase64.NormalizeBase64 | entry/src/main/ets/core/Encoding.ets:3-23 | the loops return the normalised text, whose characters NormalizedExactly gives |
| Base64Characters.NormalizedExactly | entry/src/main/ets/core/Encoding.ets:3-23 | normalising drops exactly the four characters of white space, maps - to + and _ to /, keeps every other character in place, and fills up with two or one equals signs |
| ArkBase64.DecodeBase64ToBytes | entry/src/main/ets/core/Encoding.ets:29-53 | the decoder loop on its wrapping accumulator returns the whole octets of the characters, or the error of the first bad one |
| ArkBase64.DecodeEncode | entry/src/main/ets/core/Encoding.ets:29-53 | decoding inverts encoding on every byte string, with and without padding |
| ArkBase64.DecodeWithSpace | entry/src/main/ets/core/Encoding.ets:3-12 | a space, a tab, a line feed or a return may be inserted anywhere without changing the result |
| ArkBase64.DecodeUrlSafe | entry/src/main/ets/core/Encoding.ets:14-23 | the URL-safe alphabet of RFC 4648 section 5 decodes to the same bytes |
| NativeBase64.Base64Encode | entry/src/main/cpp/napi_init.cpp:241-261 | the C++ streaming encoder writes the RFC 4648 section 4 text for every byte string |
| NativeBase64.EncodersAgree | entry/src/main/cpp/napi_init.cpp:241-261 | the C++ encoder and the ArkTS encoder return the same text for every byte string |
| NativeBase64.BuildTable | entry/src/main/cpp/napi_init.cpp:265-269 | the 256-entry table holds each letter's index and -1 elsewhere |
| NativeBase64.Base64Decode | entry/src/main/cpp/napi_init.cpp:263-289 | the C++ decoder returns the whole octets of the alphabet characters before the first equals sign |
| NativeBase64.DecodeEncode | entry/src/main/cpp/napi_init.cpp:241-289 | the C++ decoder inverts the encoder on every byte string |
| NativeBase64.DecodersAgree | entry/src/main/cpp/napi_init.cpp:263-289 | both decoders return the same bytes on every text of alphabet letters, padding and white space |
| Base64Agreement.DecodersAgreeExactly | entry/src/main/cpp/napi_init.cpp:263-289 | on all texts: they return the same bytes exactly if the ArkTS one accepts the text and reads the same indices, or reads one more after whole groups the native one reads alike |
| Base64Agreement.SameIndices | entry/src/main/ets/core/Encoding.ets:14-23 | they read the same indices exactly if no URL-safe letter stands before the first equals sign |
| Base64Characters.ArkExactly | entry/src/main/ets/core/Encoding.ets:29-53 | the ArkTS decoder accepts a text exactly if up to the first equals sign it holds only A to Z, a to z, 0 to 9, + - / _, space, tab and line ends, and it reads the letters with the values of RFC 4648 |
| Base64Characters.OtherCharacterFails | entry/src/main/ets/core/Encoding.ets:42-44 | any other character before the first equals sign makes it fail, wherever it stands |
| Base64Characters.NativeExactly | entry/src/main/cpp/napi_init.cpp:263-289 | the C++ decoder reads the standard letters before the first equals sign with the values of RFC 4648 and skips every other character |
| Base64Agreement.ArkReads | entry/src/main/ets/core/Encoding.ets:29-53 | the ArkTS decoder accepts a text exactly if only letters of either alphabet and white space stand before the first equals sign |
| Base64Agreement.SextetsOfOctets | entry/src/main/ets/core/Encoding.ets:29-53 | whole groups of indices are determined by their octets |
| Utf8.EncodeUtf8ToBytes | entry/src/main/ets/core/Encoding.ets:84-108 | the loop writes the bytes of each character, taking a unit after a high surrogate as its partner whatever it is; that they are UTF-8 is EncodesStandard |
| Utf8.DecodeUtf8Bytes | entry/src/main/ets/core/Encoding.ets:55-82 | the loop reads the bytes back, or fails at the first bad lead byte or short sequence |
| Utf8.EncodeUtf8ToBase64 | entry/src/main/ets/core/Encoding.ets:122-137 | the Base64 text of those bytes |
| Utf8.EncodeUtf8ToBase64NoPadding | entry/src/main/ets/core/Encoding.ets:139-145 | the same without its equals signs |
| Utf8.DecodeBase64ToUtf8 | entry/src/main/ets/core/Encoding.ets:110-112 | the text of the decoded bytes, or the error of either step |
| Utf8.DecodeOfEncode | entry/src/main/ets/core/Encoding.ets:55-108 | decoding an encoding never fails; it returns the text with each unit after a high surrogate forced into a low one |
| Utf8.RepairedSame | entry/src/main/ets/core/Encoding.ets:84-108 | that repaired text is the original exactly if every high surrogate is last or followed by a low one |
| Utf8.TextRoundTrip | entry/src/main/ets/core/Encoding.ets:110-145 | decodeBase64ToUtf8 inverts both text encoders if and only if every high surrogate is last or followed by a low one |
| Utf8.BrokenPairChanges | entry/src/main/ets/core/Encoding.ets:84-108 | a high surrogate before the letter A is an input that comes back changed |
| Utf8Standard.EncodesStandard | entry/src/main/ets/core/Encoding.ets:84-108 | for every text, a strict reader of RFC 3629 (continuation bytes from 80 to BF, no overlong form, no surrogate, nothing past 10FFFF) accepts what the encoder writes exactly if the repaired text has no lone surrogate, and then reads the code points of that text |
| Utf8Standard.EncodesPoints | entry/src/main/ets/core/Encoding.ets:84-108 | a text whose surrogates all pair up is encoded as UTF-8 of its own code points |
| Utf8Standard.DecodesStandard | entry/src/main/ets/core/Encoding.ets:55-82 | on every byte string that strict reader accepts, the decoder returns the text with those code points |
| Utf8Standard.AcceptsExactly | entry/src/main/ets/core/Encoding.ets:55-82 | beyond that the decoder accepts exactly what has as many bytes as each first byte asks for, 00 to 7F, C0 to DF, E0 to EF and F0 to F7 for one to four |
| Utf8Standard.KnownText | entry/src/main/ets/core/Encoding.ets:122-137 | e with acute is the bytes C3 A9, in Base64 w6k= |
| Envelope.EnvelopeExact | entry/src/main/cpp/napi_init.cpp:340-361 | for every data and error text, ResponseOk accepts the encoded answer if and only if there is no error, and otherwise its message is the whole body |
| Envelope.FailureSafe | libsingbox/main.go:47-68 | in the JSON of a failed answer no quote, escaped text included, can start the success pattern or the error field |
| Envelope.SuccessSearched | entry/src/main/cpp/napi_init.cpp:347 | an answer is a success exactly if the fourteen bytes of its success member stand somewhere in it |
| Envelope.ErrorFieldRead | entry/src/main/cpp/napi_init.cpp:352-356 | where it is none but has an error member, the message is the text up to the next quote |
| GoJson.GoWrites | libsingbox/main.go:61-68 | the escapes json.Marshal writes for ASCII, byte by byte |
| GoJson.GoRoundTrip | libsingbox/main.go:61-68 | a JSON reader gets the text back from what Go writes for any string, each byte that is not UTF-8 as U+FFFD, and stops exactly at the closing quote |
| GoJson.ResponseReads | libsingbox/main.go:47-68 | a JSON reader gets success, data and err from the object Go writes, the empty ones being left out |
| Envelope.JsonEscape | entry/src/main/cpp/napi_init.cpp:291-317 | the switch loop writes the escaped text |
| Envelope.EscapeRoundTrip | entry/src/main/cpp/napi_init.cpp:291-317 | reading the escaped text as a JSON string (RFC 8259 section 7) returns the original and ends exactly at the closing quote, if and only if it holds no control character but newline, return and tab |
| Envelope.BackspaceIsLost | entry/src/main/cpp/napi_init.cpp:291-317 | a backspace is an input whose escaped text no JSON reader accepts |
| StartRequest.BuildRequest | entry/src/main/cpp/napi_init.cpp:1407-1413 | the request text is the base64 of the object with both strings escaped |
| StartRequest.RequestArrives | libsingbox/main.go:70-76 | the Go side reads the base path and the configuration back exactly as given, if and only if neither holds a raw control character |
| PrivateNetwork.ParseIpv4ToLong | entry/src/main/ets/core/PrivateNetwork.ets:22-40 | the loop returns the value of four decimal octets, -1 otherwise |
| PrivateNetwork.ParseRange | entry/src/main/ets/core/PrivateNetwork.ets:22-40 | the result is -1 or a value below 2 to the 32 |
| PrivateNetwork.ParseInvertsPrint | entry/src/main/ets/core/PrivateNetwork.ets:22-40 | parsing inverts dotted-quad printing |
| PrivateNetwork.MaskIsPrefix | entry/src/main/ets/core/PrivateNetwork.ets:64-65 | for all 32-bit addresses and prefixes 1 to 32, the int32 shift-and-mask test is equality after division by 2 to the 32 minus prefix |
| PrivateNetwork.CidrMeansPrefix | entry/src/main/ets/core/PrivateNetwork.ets:43-66 | the text test holds exactly if both sides parse, the prefix is 0 to 32 and the addresses agree on their first prefix bits |
| PrivateNetwork.IsLoopbackOrPrivateIpv4Host | entry/src/main/ets/core/PrivateNetwork.ets:69-79 | the scan accepts exactly if some listed range does |
| PrivateNetwork.PrivateIsUnion | entry/src/main/ets/core/PrivateNetwork.ets:12-20 | a host is private exactly if its address lies in the union of seven intervals |
| AuthorityWritten.PrivateExactly | entry/src/main/ets/core/PrivateNetwork.ets:12-40 | a host is private exactly if it is four pieces of digits of at most 255 between dots, and the first two are 0, 10, 127, 172.16 to 31, 192.168, 169.254 or 224 to 239 |
| AuthorityWritten.KnownAddresses | entry/src/main/ets/core/PrivateNetwork.ets:12-79 | 192.168.0.1 is private and 192.169.0.1 is not |
| AuthorityWritten.HostTaken | entry/src/main/ets/core/PrivateNetwork.ets:81-104 | from every URL written as scheme, ://, user and @, host, : and port, and a rest, exactly the host is taken |
| AuthorityWritten.BracketsTaken | entry/src/main/ets/core/PrivateNetwork.ets:99-102 | and from one with brackets what they hold |
| AuthorityParsers.CutsAreMinimum | entry/src/main/ets/core/PrivateNetwork.ets:87-93 | cutting at slash, question mark and hash one after the other is cutting at the first of them |
| AuthorityParsers.ExtractUrlHost | entry/src/main/ets/core/PrivateNetwork.ets:81-104 | the sequence of cuts returns the host of the second parser |
| AuthorityParsers.HostsAgree | entry/src/main/ets/core/PrivateNetwork.ets:94-103 | the two authority parsers extract the same host exactly from texts that are empty, a closed bracket form, or have neither a leading bracket nor a leading colon and at most one colon |
| AuthorityParsers.ParsersAgree | entry/src/main/ets/core/PrivateNetwork.ets:81-104 | on whole URLs the host that is rewritten is the host that is looked up in the private ranges, exactly under that condition |
| PrivateUrl.IsLoopbackOrPrivateHttpUrl | entry/src/main/ets/core/PrivateNetwork.ets:108-114 | the substring test first, then the host test; what is searched for is MentionExactly |
| PrivateUrl.AcceptedMeansPrivate | entry/src/main/ets/core/PrivateNetwork.ets:106-114 | a URL is accepted exactly if it mentions the loopback address or its host lies in the seven intervals; accepting it means that its host is private exactly if it does not mention that address, or lies in the intervals anyway |
| PrivateUrl.LoopbackInThePath | entry/src/main/ets/core/PrivateNetwork.ets:108-114 | an input for that: the address in the path of a URL whose host is a letter |
| AuthorityWritten.MentionExactly | entry/src/main/ets/core/PrivateNetwork.ets:7 | the text searched for is 127.0.0.1 |
| Adapter.Tun2Socks.Start | entry/src/main/cpp/tun2socks_adapter/main.go:64-86 | a start succeeds exactly if it was running or was given a descriptor, a host, a port and an MTU; it calls the engine exactly if it succeeds and was not running |
| Adapter.Tun2Socks.Stop | entry/src/main/cpp/tun2socks_adapter/main.go:88-92 | a stop takes the flag down and stops the engine exactly if it was up |
| Adapter.StopsMatchStarts | entry/src/main/cpp/tun2socks_adapter/main.go:64-92 | for every interleaving at the atomic operations, engine.Stop runs at most once per engine.Start; with nothing in flight the two counts differ by the flag |
| Adapter.FlagTellsEngine | entry/src/main/cpp/tun2socks_adapter/main.go:64-92 | with nothing in flight, flag and engine agree exactly if the flag is down or no engine.Stop was owed when the engine was last started; else that stop has taken the engine down under the flag |
| Adapter.Linearizable | entry/src/main/cpp/tun2socks_adapter/main.go:64-92 | every interleaved run of one starter and any number of stops ends in the state of a run whose starts are single steps; the state holds the engine calls in order, so they are the same calls in the same order |
| Adapter.StepsAreFunctions | entry/src/main/cpp/tun2socks_adapter/main.go:64-92 | without interference the atomic steps are the two functions |
| Adapter.SurvivesExactly | entry/src/main/cpp/tun2socks_adapter/main.go:88-92 | with the flag up, the engine survives a schedule of the stops detached before exactly if it was up, none already past its swap is made, and none waiting gets through both its steps |
| Adapter.FlagSurvives | entry/src/main/cpp/tun2socks_adapter/main.go:88-92 | the flag itself survives exactly if none was waiting or none reaches its swap |
| Adapter.WhenStopsAreDone | entry/src/main/cpp/tun2socks_adapter/main.go:88-92 | once all of them have run, the engine is up exactly if it was and there were none |
| Adapter.LateStopWins | entry/src/main/cpp/tun2socks_adapter/main.go:64-92 | an input for that: a stop detached before a start that returned success stops the engine after it |
| Adapter.OwedStopWins | entry/src/main/cpp/tun2socks_adapter/main.go:64-92 | another input: a stop past its swap takes the engine of a later start down, and leaves the flag up |
| Loader.Library.Load | entry/src/main/cpp/napi_init.cpp:396-429 | one load: nothing if ready; else dlopen by path and by name, symbols looked up, handle published only if none is missing; true exactly if ready |
| Loader.PublishedForever | entry/src/main/cpp/napi_init.cpp:396-490 | through any number of loads a published handle and its symbols never change, and none of the symbols is null |
| Loader.ReadyWhenFound | entry/src/main/cpp/napi_init.cpp:1281-1301 | after any number of attempts the library is ready exactly if it was or some attempt found it with every symbol |
| Loader.LoadExactly | entry/src/main/cpp/napi_init.cpp:398-425 | an unpublished library is opened by its full path before its plain name, keeps whatever symbols were found, and is published exactly if there are some and none is null |
| SingBox.Service.CGoStartSingBox | libsingbox/main.go:97-140 | the service is live afterwards exactly if it was or no step failed; the answer is the envelope of the first error, decoding before the running test |
| SingBox.Service.CGoStopSingBox | libsingbox/main.go:142-152 | the service is gone whatever Close returns; the answer carries the error |
| SingBox.RepliesTellTheOutcome | entry/src/main/cpp/napi_init.cpp:340-361 | the success the native side reads from either answer is what happened on the Go side |
| SingBoxReplies.StartAnswers | libsingbox/main.go:97-140 | the answer of a start is the error of its first failing step: decoding, then set-up, creation and start; a live service answers already running after decoding, a new one started |
| SingBoxReplies.StopAnswers | libsingbox/main.go:142-152 | the answer of a stop is not running without a service, and else stopped with the error of Close |
| Bridge.Globals.constructor | entry/src/main/cpp/napi_init.cpp:43-99 | the initial globals are the initial state |
| Bridge.Globals.PrepareXrayAssetDir | entry/src/main/cpp/napi_init.cpp:375-383 | the environment is written only if it was not and no handle is published |
| Bridge.Globals.InvokeXray | entry/src/main/cpp/napi_init.cpp:492-510 | every call into libXray loads the core first and changes nothing else |
| Bridge.Globals.StartXray | entry/src/main/cpp/napi_init.cpp:1026-1076 | the whole new state of the call, and success exactly if a configuration was given and Xray runs; when it runs is FlagStep |
| Bridge.Globals.StopXray | entry/src/main/cpp/napi_init.cpp:1078-1102 | the whole new state: both flags cleared on success, nothing but a load on failure |
| Bridge.Globals.StartTun2Socks | entry/src/main/cpp/napi_init.cpp:1140-1181 | the whole new state, and success exactly if the arguments are in range and the plane flag is up |
| Bridge.Globals.StartHevTun | entry/src/main/cpp/napi_init.cpp:1185-1230 | the whole new state: the old thread joined before the new one is assigned |
| Bridge.Globals.StopTun2Socks | entry/src/main/cpp/napi_init.cpp:1232-1258 | the whole new state: engine exchanged for none, hev quit and joined, gvisor stopped by a detached thread |
| Bridge.Globals.DetachedSwap | entry/src/main/cpp/tun2socks_adapter/main.go:88-89 | the first atomic step of a detached stop, on the flag |
| Bridge.Globals.DetachedStop | entry/src/main/cpp/tun2socks_adapter/main.go:89-91 | its second step, owed only after the flag was up |
| Bridge.Globals.HevReturns | entry/src/main/cpp/napi_init.cpp:1216-1226 | a hev thread may return on its own; no flag changes |
| Bridge.Globals.SingboxStart | entry/src/main/cpp/napi_init.cpp:1380-1430 | the whole new state, the Go side's service included |
| Bridge.Globals.SingboxStop | entry/src/main/cpp/napi_init.cpp:1432-1458 | the whole new state; the flag falls exactly on a success answer |
| BridgeSafety.DataPlaneSafety | entry/src/main/cpp/napi_init.cpp:1140-1258 | after every run: the plane flag comes with an engine, at most one hev thread is live and g_hevThread still holds it, g_hevThread was never assigned while joinable, and with no engine stop under way the gvisor engine is up exactly if its flag is and none was when it was started |
| BridgeSafety.StopNeverWaits | entry/src/main/cpp/napi_init.cpp:1232-1248 | after every run: a stop never joins a thread it did not tell to quit |
| BridgeSafety.RunSafe | entry/src/main/cpp/napi_init.cpp:372-487 | every call keeps the invariant: published handles with all symbols, running flags only with published cores, one environment write, thread and adapter accounts |
| BridgeSafety.HevStartMakesTwo | entry/src/main/cpp/napi_init.cpp:1185-1230 | a hev start that takes effect leaves two planes exactly if some engine start was not yet matched by a stop, and waits on a live thread exactly if there was one |
| BridgeSafety.GvisorStartMakesTwo | entry/src/main/cpp/napi_init.cpp:1140-1181 | a gvisor start that takes effect leaves two planes exactly if hev is live or an engine stop is still under way; the adapter accepted its arguments and its flag is up, its engine exactly if the flag was down before or the engine up |
| BridgeSafety.GvisorStartSurvives | entry/src/main/cpp/napi_init.cpp:1140-1258 | through any calls but StartTun2Socks and StopTun2Socks, and any thread steps, a gvisor start that took effect has its engine up exactly if it started it or found it up, no stop past its swap before has reached its engine.Stop, and no waiting one has gone through both its steps; the adapter's flag has its own exact condition |
| BridgeSafety.SafeFromEverySchedule | entry/src/main/cpp/napi_init.cpp:1140-1258 | no schedule takes such an engine down if and only if no detached stop was waiting or past its swap and the start started the engine or found it up |
| BridgeSafety.StopXrayKeepsThePlane | entry/src/main/cpp/napi_init.cpp:1078-1102 | StopXray and then StopTun2Socks end a live hev plane, and detach a stop for a gvisor plane, exactly if StopXray failed |
| BridgeSafety.SingboxStopKeepsThePlane | entry/src/main/cpp/napi_init.cpp:1432-1458 | the same of SingboxStop for both engines; it fails exactly on a null answer or a Close error of a live service |
| BridgeSafety.AtMostOnePlane | entry/src/main/cpp/napi_init.cpp:1140-1258 | in every run that stops planes only through StopTun2Socks and starts none while a detached stop is unfinished, at most one plane is up, a running gvisor plane has its engine up, a live hev plane does not, and no join waits on a thread not told to quit |
| BridgeSafety.NeverTwoExactly | entry/src/main/cpp/napi_init.cpp:1140-1258 | over every run from a safe state with at most one plane, two planes are never up if and only if each start whose arguments, flag, library and descriptor let it through finds no plane up and, for gvisor, no engine stop under way |
| BridgeFlags.FlagStep | entry/src/main/cpp/napi_init.cpp:1026-1458 | for each of the flags of Xray, of the tunnel and of sing-box, and for the service on the Go side: after any call it is up exactly if the call had its arguments, its library with all symbols, its descriptor and a success answer, or if it was up and the call was no stop that was answered with success |
| BridgeFlags.FlagExactly | entry/src/main/cpp/napi_init.cpp:1026-1458 | after any run of calls it is up exactly if some call raised it and no later one lowered it, or it was up at the beginning and none did |
| BridgeFlags.EngineExactly | entry/src/main/cpp/napi_init.cpp:1140-1258 | a start that takes effect chooses its own engine, a stop of a running plane none, and no other call changes the choice |
| BridgeLifecycle.PublishedForever | entry/src/main/cpp/napi_init.cpp:372-487 | over every run published libraries are never changed, the asset directory is written at most once, and never after the Xray handle is published |
| BridgeLifecycle.LateWriteExactly | entry/src/main/cpp/napi_init.cpp:363-383 | a start writes the environment after dlopen exactly if an earlier load opened the library but missed a symbol |
| BridgeLifecycle.NeverLateRun | entry/src/main/cpp/napi_init.cpp:363-383 | if whatever dlopen returns has its symbols, no run writes the environment after dlopen |
| BridgeLifecycle.AssetSetWhenStarted | entry/src/main/cpp/napi_init.cpp:1047-1053 | a successful start has its asset directory set exactly if it was set before or no other call had published the core |
| BridgeLifecycle.AssetDirectoryCanFail | entry/src/main/cpp/napi_init.cpp:363-383 | two calls that write the environment after dlopen, and two that start Xray without it |
| BridgeLifecycle.StopXrayBetweenStarts | entry/src/main/cpp/napi_init.cpp:1078-1230 | StopXray between two starts leaves two planes up, or a start waiting for a live hev thread |
| BridgeLifecycle.LateStopTakesPlaneDown | entry/src/main/cpp/napi_init.cpp:1140-1258 | start, stop, start, and then the stop's thread: the flag and the engine choice stay up over no plane at all |
| BridgeLifecycle.OwedStopTakesEngineDown | entry/src/main/cpp/napi_init.cpp:1140-1258 | the same with the stop's swap before the second start: plane flag, engine choice and adapter flag stay up over an engine that was stopped |
| BridgeLifecycle.ServiceKnownExactly | entry/src/main/cpp/napi_init.cpp:1380-1430 | of the native code alone: every call keeps a live service known to the flag, except a start that succeeded and was answered with null |
| BridgeLifecycle.ServiceKnownRun | libsingbox/main.go:61-152 | with the answers of main.go, which are never null, a live service implies the running flag after every run |
| BridgeLifecycle.StopOnce | entry/src/main/cpp/napi_init.cpp:1432-1458 | one stop removes the service whatever Close returns, and leaves the flag up exactly on a null answer or a Close error |
| BridgeLifecycle.TwoStopsClear | libsingbox/main.go:142-152 | two stops clear service and flag exactly if the first did or the second was answered, even when Close fails |
| BridgeLifecycle.LostService | entry/src/main/cpp/napi_init.cpp:1432-1438 | of the native code alone, should a library answer null: a service lost that way survives every stop, and the next answered start finds it again |
| BridgeLifecycle.NullAnswerLosesService | entry/src/main/cpp/napi_init.cpp:1416-1420 | one null answer from the initial state reaches such a lost service |
| Selection.FindByPredicate | entry/src/main/ets/core/SubscriptionSelection.ets:95-106 | the first node whose identity satisfies the predicate, or none |
| Selection.FindMatchedSubscriptionNode | entry/src/main/ets/core/SubscriptionSelection.ets:49-93 | the five searches return the one node that minimises match tier and then index, and none exactly if no tier matches |
| Selection.TierExactly | entry/src/main/ets/core/SubscriptionSelection.ets:56-92 | what the tiers mean on the four texts of two identities, two texts matching if both hold something besides white space and are equal in lower case once trimmed |
| Selection.ResolveRetainedSelectedNodeId | entry/src/main/ets/core/SubscriptionSelection.ets:32-47 | the id of a member of any non-empty next list: the selected one if it survived, else the best match of the old node, else the first |
| Selection.RenamedNodeIsBest | entry/src/main/ets/core/SubscriptionSelection.ets:66-80 | a renamed node is the best match exactly if no earlier one has its server, port and password |
| Selection.BestSurvivesAppending | entry/src/main/ets/core/SubscriptionSelection.ets:49-93 | appended nodes displace the best match exactly if one has a smaller tier |
| Scheduler.NormalizedInterval | entry/src/main/ets/core/SubscriptionGroups.ets:20-25 | the result is always a whole number of at least 15 minutes, and an interval is honoured exactly if it is one |
| Scheduler.IntervalExactly | entry/src/main/ets/core/SubscriptionGroups.ets:20-25 | whole minutes from 15 up are honoured, fewer are 15, and what is no whole positive number is 1440 |
| Scheduler.DueExactly | entry/src/main/ets/core/SubscriptionGroups.ets:27-38 | a group is due exactly if it is enabled, automatic and its address is not blank, and it was never updated or 60000 milliseconds a minute have passed since |
| Scheduler.PlanExactly | entry/src/main/ets/core/SubscriptionSchedulerPlan.ets:48-86 | its plan holds the interval, 60000 milliseconds a minute of it, and what is left of them since the last update |
| Scheduler.DueIsNoDelay | entry/src/main/ets/core/SubscriptionGroups.ets:27-38 | a group is due exactly if it is schedulable with delay 0, and at any later time exactly from now plus its delay on |
| Scheduler.WorkIdForGroup | entry/src/main/ets/core/SubscriptionSchedulerPlan.ets:72-78 | the incrementally reduced hash is the full base-31 polynomial modulo 900000, no intermediate value leaves 32 bits, and the id is never the legacy one |
| Scheduler.WorkIdStep | entry/src/main/ets/core/SubscriptionSchedulerPlan.ets:72-78 | without units the id is 261000; one more unit multiplies what is above that by 31, adds the unit and reduces modulo 900000 |
| Scheduler.KnownWorkId | entry/src/main/ets/core/SubscriptionSchedulerPlan.ets:72-78 | the group Aa has the id 263112 |
| Scheduler.SameWorkId | entry/src/main/ets/core/SubscriptionSchedulerPlan.ets:72-78 | two groups share a work id exactly if their polynomials differ by a multiple of 900000 |
| Scheduler.WorkIdsCollide | entry/src/main/ets/core/SubscriptionSchedulerPlan.ets:72-78 | an input for that: ids that start with Aa and BB and go on alike |
| Scheduler.BuildGroupPlans | entry/src/main/ets/core/SubscriptionSchedulerPlan.ets:48-66 | one plan for each schedulable group, in order |
| Scheduler.BuildSchedulePlan | entry/src/main/ets/core/SubscriptionSchedulerPlan.ets:26-46 | enabled exactly if some group is schedulable; the interval is the least of the plans and at least 15 |
| Scheduler.PlanWakesWhenDue | entry/src/main/ets/core/SubscriptionSchedulerPlan.ets:26-86 | at any later time some group is due exactly if some plan's delay is over |
| JsTrim.TrimCuts | entry/src/main/ets/core/PerAppProxy.ets:13 | trimming removes exactly the white space at the two ends, and of a blank text everything |
| JsTrim.SpacesExactly | entry/src/main/ets/core/PerAppProxy.ets:13 | what is trimmed are the twenty-five white space and line end units of ECMAScript |
| JsTrim.TrimKeepsInk | entry/src/main/ets/core/SubscriptionSelection.ets:217-221 | something is left exactly if some unit is none of them |
| PerApp.NormalizePerAppPackageList | entry/src/main/ets/core/PerAppProxy.ets:8-22 | the loop keeps the first spelling of each wanted name, in order |
| PerApp.NormalizedIsNormal | entry/src/main/ets/core/PerAppProxy.ets:8-22 | the result is valid, without the app itself, without duplicates up to case, and holds exactly the keys asked for |
| PerAppMeaning.ValidExactly | entry/src/main/ets/core/PerAppProxy.ets:128-133 | a valid name has at least five characters of A to Z, a to z, 0 to 9 and _ . $ -, and a dot that is neither first nor last |
| PerAppMeaning.SameKeyExactly | entry/src/main/ets/core/PerAppProxy.ets:15-16 | two names are the same exactly if they differ at most in the case of letters |
| PerApp.SelectAllPerAppPackages | entry/src/main/ets/core/PerAppProxy.ets:24-30 | select-all is the normal form of both lists |
| PerApp.ClearVisiblePerAppPackages | entry/src/main/ets/core/PerAppProxy.ets:32-50 | the loops return the selected names whose key is not visible, in order |
| PerApp.InvertVisiblePerAppPackages | entry/src/main/ets/core/PerAppProxy.ets:52-81 | the flag map and the two loops return what was selected and hidden, then what is visible and was not selected |
| PerAppAlgebra.KeyAlgebra | entry/src/main/ets/core/PerAppProxy.ets:24-81 | on keys select-all is union, clear is difference, invert is symmetric difference; every result is normal |
| PerAppAlgebra.InvertTwice | entry/src/main/ets/core/PerAppProxy.ets:52-81 | inverting twice gives the names that are not visible as they were, then the visible names whose key was selected, in the visible order and spelling; the same keys are selected |
| PerAppAlgebra.InvertTwiceReorders | entry/src/main/ets/core/PerAppProxy.ets:52-81 | so it is no identity on lists: of two names, the first of which is visible, it turns the order round |
| PerAppAlgebra.NormalizedAppend | entry/src/main/ets/core/PerAppProxy.ets:24-30 | the normal form of two lists is the first one's followed by what the second adds |
| PerAppAlgebra.ClearUndoesSelectAll | entry/src/main/ets/core/PerAppProxy.ets:24-50 | clearing after select-all is clearing alone, name by name |
| PerAppFile.ExportPerAppProxyList | entry/src/main/ets/core/PerAppProxy.ets:83-86 | flag and normalised names, one a line |
| PerAppFile.ImportPerAppProxyList | entry/src/main/ets/core/PerAppProxy.ets:88-126 | lines split, trimmed, the header read, the rest split into tokens and normalised |
| PerAppFile.ImportOfExport | entry/src/main/ets/core/PerAppProxy.ets:83-126 | importing an export returns the flag and exactly the normalised list in order |
| PerAppFile.ImportIsStable | entry/src/main/ets/core/PerAppProxy.ets:83-126 | whatever was imported is normal, and exporting and importing it again changes nothing |
| PerAppMeaning.LinesOfContent | entry/src/main/ets/core/PerAppProxy.ets:93 | a content is cut into its lines, whether they end with LF or CR LF |
| PerAppMeaning.TokensOfLine | entry/src/main/ets/core/PerAppProxy.ets:113 | a line is cut into its words at every run of commas and white space |
| PerAppMeaning.ImportOfLines | entry/src/main/ets/core/PerAppProxy.ets:88-126 | of a file of lines a first line true or false in any case is the flag, else the fallback is taken; the names are the words of the other lines |
| PerAppMeaning.ImportOfNothing | entry/src/main/ets/core/PerAppProxy.ets:94-101 | a file of white space alone is refused |
| Endpoint.ReadersRecover | entry/src/main/ets/core/SubscriptionSelection.ets:225-246 | on a formatted endpoint both host readers agree; the host comes back exactly if it has no closing bracket, or neither a leading bracket nor a colon; the port of endpointPort under its own exact condition |
| Endpoint.SurvivorsReturn | entry/src/main/ets/core/ManualOutboundBuilder.ets:225-230 | a host that survives is read, trimmed and formatted to the same endpoint, IPv6 in brackets included |
| Endpoint.OnlySurvivorsReturn | entry/src/main/ets/core/ManualOutboundEditState.ets:463-482 | no other host gives the same endpoint again, whatever port it is given |
| ManualMeaning.EndpointIsText | entry/src/main/ets/core/ManualOutboundBuilder.ets:225-230 | a host with a colon and no bracket in front is put into brackets, any other is written as it is |
| ManualMeaning.EndpointWithoutColon | entry/src/main/ets/core/ManualOutboundEditState.ets:463-482 | an endpoint without a colon is a host without a port, and the editor shows 51820 |
| ManualMeaning.EndpointInBrackets | entry/src/main/ets/core/SubscriptionSelection.ets:225-246 | an endpoint in brackets has no port for any reader |
| ManualOutbound.ParseNumberCsvWithDefault | entry/src/main/ets/core/ManualOutboundBuilder.ets:201-223 | the loop returns the numbers of the list, rounded down, or the default |
| ManualOutbound.CsvFromValue | entry/src/main/ets/core/ManualOutboundEditState.ets:446-461 | the loop joins texts and numbers with commas, or returns the default |
| ManualOutbound.BuildManualWireguardOutbound | entry/src/main/ets/core/ManualOutboundBuilder.ets:81-120 | the built outbound, or the reason of the first check that fails |
| ManualOutbound.EditState.ApplyWireguardState | entry/src/main/ets/core/ManualOutboundEditState.ets:233-251 | the form fields that an outbound fills, defaults kept where the endpoint has no host or port |
| ManualMeaning.WireguardExactly | entry/src/main/ets/core/ManualOutboundBuilder.ets:81-120 | the checks in order, for a host and a port from 1 to 65535, a private key and a public key, and every field of the outbound with its default: tag proxy, address 172.16.0.2/32, MTU 1280, reserved 0 0 0 |
| ManualMeaning.NoAddress | entry/src/main/ets/core/ManualOutboundBuilder.ets:193-199 | an address list of which nothing is left is the default address |
| ManualMeaning.ReservedParts | entry/src/main/ets/core/ManualOutboundBuilder.ets:201-215 | of the reserved list each part that is a number is rounded down, the others are skipped |
| ManualMeaning.EditedFields | entry/src/main/ets/core/ManualOutboundEditState.ets:233-251 | the editor shows the fields of an outbound, lists joined by commas |
| ManualMeaning.EditedDefaults | entry/src/main/ets/core/ManualOutboundEditState.ets:235-236 | and the defaults where a list holds nothing to show |
| WireguardRebuild.Rebuilt | entry/src/main/ets/core/ManualOutboundEditState.ets:233-251 | everything but endpoint, an MTU below 1 or null, and nulls among the reserved numbers comes back from the editor as it was |
| WireguardRebuild.RebuildIsIdentity | entry/src/main/ets/core/ManualOutboundBuilder.ets:81-120 | a successful build comes back unchanged from the editor exactly if its MTU is a number of at least 1, its reserved list holds no null, and its host survives its own endpoint text |
| WireguardRebuild.BracketedNameIsLost | entry/src/main/ets/core/ManualOutboundBuilder.ets:225-230 | a name in brackets is an input whose rebuilt endpoint is another |
| WireguardRebuild.OddMtuIsLost | entry/src/main/ets/core/ManualOutboundBuilder.ets:185-191 | an MTU typed as one half is an input that is built as 0, one typed as infinite is built as null; both are rebuilt as 1280 |
| WireguardRebuild.InfiniteReservedIsLost | entry/src/main/ets/core/ManualOutboundBuilder.ets:201-223 | one infinite reserved number is an input that is built as null and rebuilt as three zeros |
| WireguardRebuild.HalfAndInfiniteAreLost | entry/src/main/ets/core/ManualOutboundBuilder.ets:185-191 | both with numerals that read 0.5 and Infinity |
| WireguardRebuild.MtuOfBuild | entry/src/main/ets/core/ManualOutboundBuilder.ets:185-191 | the MTU is a number of at least 1 exactly if what was typed is neither infinite nor between 0 and 1 |
| WireguardRebuild.ReservedOfBuild | entry/src/main/ets/core/ManualOutboundBuilder.ets:201-223 | the reserved list holds no null exactly if no part of what was typed reads as infinite |
| WireguardRebuild.DecimalsAreFaithful | entry/src/main/ets/core/ManualOutboundBuilder.ets:177-191 | signed decimals with a half and infinity satisfy what is asked of number reading and printing |
| ManualHysteria2.AssignIfPresent | entry/src/main/ets/core/ManualOutboundBuilder.ets:237-261 | the field of the key is set exactly if the value is not blank, no other field changes |
| ManualHysteria2.BuildManualHysteria2Outbound | entry/src/main/ets/core/ManualOutboundBuilder.ets:122-157 | the field-by-field build is the outbound described at once, or the reason of the first check that fails |
| ManualMeaning.Hysteria2Exactly | entry/src/main/ets/core/ManualOutboundBuilder.ets:122-157 | the checks in order, for a host and a port and a password, and every field of the outbound: each taken from its own input, blank ones left out |
| ManualMeaning.AlpnExactly | entry/src/main/ets/core/ProtocolOptions.ets:120-173 | one of the seven ALPN settings is kept, anything else is h3 |
| ManualMeaning.SecurityExactly | entry/src/main/ets/core/ProtocolOptions.ets:132-151 | of the security settings the editor keeps none and tls and takes any other for tls |
| ManualHysteria2.RebuiltSecurityOnly | entry/src/main/ets/core/ManualOutboundEditState.ets:253-270 | one round through the editor changes the security setting to a known one and nothing else |
| ManualHysteria2.StableAfterOneEdit | entry/src/main/ets/core/ManualOutboundEditState.ets:253-270 | a build comes back unchanged exactly if its security is none or tls; after one edit every later one returns the same outbound |
| ManualHysteria2.OtherSecurityChanges | entry/src/main/ets/core/ManualOutboundBuilder.ets:140 | an input of the exported builder: a security of another name changes at the first edit |

## Left out

- JavaScript doubles are integers or reals here, with bounds proved where the loops add up. Negative zero is not modelled, nor an infinite update interval or time in Scheduler. The WireGuard and Hysteria2 forms ask exactness only of integers a number can hold.
- The C++ accumulators are 32-bit vectors that wrap; signed overflow being undefined in C++ is not modelled.
- Base64 text is a Dafny string; a character is compared by its code, as in the source.
- Punycode has no overflow checks (RFC 3492 section 6.4) and IDNA mapping and validity rules are not applied, as in the source.
- IdnUrlReparse.OnlyHostChanges: the parts around the host are always copied, but that the new host is found in its place again is stated under the exact condition, because it is false otherwise.
- Envelope.EscapeRoundTrip: the JSON reader does not read a `\uXXXX` that is half of a surrogate pair, which neither side writes; on the Go side json.Marshal is modelled with its HTML escaping and its replacement of invalid UTF-8, and json.Unmarshal only as far as one object with two string members in the order written.
- StartRequest.RequestArrives: the strings are taken as UTF-8; Go replaces invalid sequences.
- `BuildCallResult`, `InvokeSuccess` and the error text cut out of a libXray response: the same substring search without base64.
- N-API argument conversion, a missing argument counting as an empty or invalid one; result objects, logs, `g_lastMessage` and the byte counters.
- `SetTunFd` and `SingboxSetTunFd`, the two entries of the abandoned native-tunnel path, which set the plane flag without an engine; optional symbols of the libraries; `SingboxProbe` and `SingboxVersion`, which change no global.
- Exported calls are not interleaved with each other, only with the detached gvisor stop and with hev threads that return by themselves. A join that waits for a live thread is recorded and then returns.
- Bridge.Globals.StartTun2Socks: the contract is about the call alone; what detached stops do to its engine afterwards is BridgeSafety.GvisorStartSurvives.
- Null answers of libsingbox.so are kept as an input of the native code; main.go never gives one, since the allocation behind a C string does not fail.
- A hev thread that returns by itself leaves the plane flag up, as in the source; nothing more is said about it.
- Decoding of the start request is an arbitrary outcome in the bridge model; what decides it is StartRequest.RequestArrives.
- `toLowerCase` is exact on ASCII, which is all a package name or the header line can be; in node matching it is an arbitrary function. The app's own name is given trimmed and lower-cased.
- Node identities are given records: reading them out of an outbound needs XrayConfig.ets, which is not part of this model.
- `resolveGlobalSelectedNodeId`, moving and copying groups: settled by reading a few lines.
- WireguardRebuild.RebuildIsIdentity: reading and printing numbers are given functions that invert each other on the integers a number holds exactly, and the outbound travels as the record its JSON text holds, null for an infinite number. The node's own name, which replaces the tag when it is not blank, is not modelled.
- The other protocols of the editor, stream settings, KCP, deep links, routing rules and sing-box configuration: field copying and finite options.
- Storage, abilities, UI, network automation and the Go and C libraries themselves.
