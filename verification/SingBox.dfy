/**
 The Go side of the sing-box core, libsingbox/main.go: `boxService` changed under the mutex,
 every answer a base64 envelope.
 */
module SingBox {
  import opened JsText
  import Envelope

  type Bytes = Envelope.Bytes

  /** The error text of each step of a start, a recovered panic included; None where the step succeeded. */
  datatype Outcome = Outcome(decode: Option<Bytes>, setup: Option<Bytes>, create: Option<Bytes>, start: Option<Bytes>)

  /** `already running`, `started`, `not running`, `stopped` */
  const ALREADY_RUNNING: Bytes := [0x61, 0x6C, 0x72, 0x65, 0x61, 0x64, 0x79, 0x20, 0x72, 0x75, 0x6E, 0x6E, 0x69, 0x6E, 0x67]
  const STARTED: Bytes := [0x73, 0x74, 0x61, 0x72, 0x74, 0x65, 0x64]
  const NOT_RUNNING: Bytes := [0x6E, 0x6F, 0x74, 0x20, 0x72, 0x75, 0x6E, 0x6E, 0x69, 0x6E, 0x67]
  const STOPPED: Bytes := [0x73, 0x74, 0x6F, 0x70, 0x70, 0x65, 0x64]

  /** The first error a start meets; a live service is only noticed after the request was decoded. */
  function StartError(service: bool, o: Outcome): Option<Bytes> {
    if o.decode.Some? then o.decode
    else if service then None
    else if o.setup.Some? then o.setup
    else if o.create.Some? then o.create
    else o.start
  }

  function StartReply(service: bool, o: Outcome): string {
    var error := StartError(service, o);
    Envelope.Encoded(if error.Some? then [] else if service then ALREADY_RUNNING else STARTED, error)
  }

  function StopReply(service: bool, close: Option<Bytes>): string {
    if service then Envelope.Encoded(STOPPED, close) else Envelope.Encoded(NOT_RUNNING, None)
  }

  class Service {
    var boxService: bool

    constructor ()
      ensures !boxService
    {
      boxService := false;
    }

    method CGoStartSingBox(o: Outcome) returns (reply: string)
      modifies this
      ensures boxService == (old(boxService) || StartError(old(boxService), o).None?)
      ensures reply == StartReply(old(boxService), o)
    {
      hide Envelope.Encoded;
      if o.decode.Some? {
        return Envelope.Encoded([], o.decode);
      }
      if boxService {
        return Envelope.Encoded(ALREADY_RUNNING, None);
      }
      if o.setup.Some? {
        return Envelope.Encoded([], o.setup);
      }
      if o.create.Some? {
        return Envelope.Encoded([], o.create);
      }
      if o.start.Some? {
        return Envelope.Encoded([], o.start);
      }
      boxService := true;
      return Envelope.Encoded(STARTED, None);
    }

    method CGoStopSingBox(close: Option<Bytes>) returns (reply: string)
      modifies this
      ensures !boxService
      ensures reply == StopReply(old(boxService), close)
    {
      hide Envelope.Encoded;
      if !boxService {
        return Envelope.Encoded(NOT_RUNNING, None);
      }
      boxService := false;
      return Envelope.Encoded(STOPPED, close);
    }
  }

  predicate Succeeded(reply: string) { Envelope.ReadResponse(reply).Accepted? }

  /** What the native side reads from an answer is what happened to the service. */
  lemma RepliesTellTheOutcome(service: bool, o: Outcome, close: Option<Bytes>)
    ensures Succeeded(StartReply(service, o)) <==> StartError(service, o).None?
    ensures Succeeded(StopReply(service, close)) <==> !service || close.None?
  {
    hide Envelope.Encoded, Envelope.ReadResponse, Envelope.Marshalled;
    var error := StartError(service, o);
    Envelope.EnvelopeExact(if error.Some? then [] else if service then ALREADY_RUNNING else STARTED, error);
    Envelope.EnvelopeExact(STOPPED, close);
    Envelope.EnvelopeExact(NOT_RUNNING, None);
  }
}
