/** The answers of libsingbox/main.go as a JSON reader gets them. */
module SingBoxReplies {
  import opened JsText
  import opened GoJson
  import Base64
  import Envelope
  import SingBox

  type Bytes = Envelope.Bytes

  function ReadAnswer(text: string): Option<Reply> {
    match Base64.ReadAll(text)
    case None => None
    case Some(sextets) => ReadReply(Base64.Octets(sextets))
  }

  lemma AnswerReads(data: Bytes, err: Option<Bytes>)
    ensures ReadAnswer(Envelope.Encoded(data, err)) ==
            Some(Reply(err.None?, Repaired(data), Repaired(if err.Some? then err.value else [])))
  {
    hide Envelope.Marshalled, Base64.Encode, Base64.ReadAll, Base64.Octets, Base64.Sextets, ReadReply, Repaired;
    Base64.ReadEncode(Envelope.Marshalled(data, err));
    Base64.OctetsOfSextets(Envelope.Marshalled(data, err));
    ResponseReads(data, err);
  }

  /** Pure ASCII is UTF-8. */
  lemma {:induction false} AsciiStays(s: Bytes)
    requires forall i | 0 <= i < |s| :: s[i] < 0x80
    ensures Repaired(s) == s
  {
    if s != [] {
      AsciiStays(s[1..]);
      assert s[..1] + s[1..] == s;
    }
  }

  function Failed(error: Bytes): Reply { Reply(false, [], Repaired(error)) }

  /** The first step of a start that fails gives the message; a live service is an answer, too, but after the request was decoded. */
  lemma StartAnswers(service: bool, o: SingBox.Outcome)
    ensures ReadAnswer(SingBox.StartReply(service, o)) == Some(
      if o.decode.Some? then Failed(o.decode.value)
      else if service then Reply(true, ALREADY_TEXT, [])
      else if o.setup.Some? then Failed(o.setup.value)
      else if o.create.Some? then Failed(o.create.value)
      else if o.start.Some? then Failed(o.start.value)
      else Reply(true, STARTED_TEXT, []))
  {
    hide Envelope.Encoded, ReadAnswer, Repaired;
    Texts();
    var error := SingBox.StartError(service, o);
    AnswerReads(if error.Some? then [] else if service then SingBox.ALREADY_RUNNING else SingBox.STARTED, error);
  }

  /** A stop without a service succeeds; with one it answers `stopped` and the error of Close, if there was any. */
  lemma StopAnswers(service: bool, close: Option<Bytes>)
    ensures ReadAnswer(SingBox.StopReply(service, close)) == Some(
      if !service then Reply(true, NOT_RUNNING_TEXT, [])
      else Reply(close.None?, STOPPED_TEXT, Repaired(if close.Some? then close.value else [])))
  {
    hide Envelope.Encoded, ReadAnswer, Repaired;
    Texts();
    AnswerReads(SingBox.STOPPED, close);
    AnswerReads(SingBox.NOT_RUNNING, None);
  }

  /** `already running`, `started`, `not running`, `stopped` */
  const ALREADY_TEXT: Bytes := [0x61, 0x6C, 0x72, 0x65, 0x61, 0x64, 0x79, 0x20, 0x72, 0x75, 0x6E, 0x6E, 0x69, 0x6E, 0x67]
  const STARTED_TEXT: Bytes := [0x73, 0x74, 0x61, 0x72, 0x74, 0x65, 0x64]
  const NOT_RUNNING_TEXT: Bytes := [0x6E, 0x6F, 0x74, 0x20, 0x72, 0x75, 0x6E, 0x6E, 0x69, 0x6E, 0x67]
  const STOPPED_TEXT: Bytes := [0x73, 0x74, 0x6F, 0x70, 0x70, 0x65, 0x64]

  lemma Texts()
    ensures Repaired(SingBox.ALREADY_RUNNING) == ALREADY_TEXT && Repaired(SingBox.STARTED) == STARTED_TEXT
    ensures Repaired(SingBox.NOT_RUNNING) == NOT_RUNNING_TEXT && Repaired(SingBox.STOPPED) == STOPPED_TEXT
    ensures Repaired([]) == []
  {
    hide Repaired;
    AsciiStays(SingBox.ALREADY_RUNNING);
    AsciiStays(SingBox.STARTED);
    AsciiStays(SingBox.NOT_RUNNING);
    AsciiStays(SingBox.STOPPED);
    AsciiStays([]);
  }
}
