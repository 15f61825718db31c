/** Parsers for the modem's replies: the final result code, the status field
    of a stored message, and the `+CMGR:` reply to a read-message command
    (section 3.4.3 of 3GPP TS 27.005). The PDU inside a `+CMGR:` reply is
    read by a parser this model does not define; it is a parameter. */
module Responses {
  import opened Common

  /** The parse error of the modem layer. */
  datatype Error = ParseError

  /** The final result code. Only `OK`, numeric value 0, is recognised. */
  datatype ResponseCode = CodeOk

  /** The `<stat>` field of a stored message and its numeric value. */
  datatype MessageStatus = ReceivedUnread | ReceivedRead | StoredUnsent | StoredSent

  function StatusValue(s: MessageStatus): (n: nat)
    ensures n < 4
  {
    match s
    case ReceivedUnread => 0
    case ReceivedRead => 1
    case StoredUnsent => 2
    case StoredSent => 3
  }

  /** The ASCII digit `'0'`. */
  const Zero: byte := 48

  /** `b','`, which ends the status and alpha fields of a `+CMGR:` reply. */
  const Comma: byte := 44

  /** The one-byte numeric form of a result code. */
  function CodeText(c: ResponseCode): seq<byte> {
    match c
    case CodeOk => [Zero]
  }

  /** The one-byte numeric form of a status. */
  function StatusText(s: MessageStatus): seq<byte> {
    [Zero + StatusValue(s)]
  }

  /** A result code: exactly the byte `'0'`. Longer input is an error without
      looking at it; empty input is indexed, hence the precondition. */
  function ParseResponseCode(data: seq<byte>): (r: Result<ResponseCode, Error>)
    requires 0 < |data|
    ensures r.Ok? <==> data == [Zero]
    ensures 1 < |data| ==> r == Err(ParseError)
  {
    if |data| > 1 then Err(ParseError)
    else if data[0] == Zero then Ok(CodeOk)
    else Err(ParseError)
  }

  /** A status: a single digit `'0'` to `'3'`. Longer input is an error; empty
      input is indexed, hence the precondition. */
  function ParseMessageStatus(data: seq<byte>): (r: Result<MessageStatus, Error>)
    requires 0 < |data|
    ensures r.Ok? <==> |data| == 1 && Zero <= data[0] <= Zero + 3
    ensures 1 < |data| ==> r == Err(ParseError)
  {
    if |data| > 1 then Err(ParseError)
    else if data[0] == Zero then Ok(ReceivedUnread)
    else if data[0] == Zero + 1 then Ok(ReceivedRead)
    else if data[0] == Zero + 2 then Ok(StoredUnsent)
    else if data[0] == Zero + 3 then Ok(StoredSent)
    else Err(ParseError)
  }

  /** Reading a result code or a status back from its numeric form gives it
      back, and no other text reads as it. */
  lemma CodeRoundTrip(c: ResponseCode, data: seq<byte>)
    requires 0 < |data|
    ensures ParseResponseCode(CodeText(c)) == Ok(c)
    ensures ParseResponseCode(data) == Ok(c) ==> data == CodeText(c)
  {
  }

  lemma StatusRoundTrip(s: MessageStatus, data: seq<byte>)
    requires 0 < |data|
    ensures ParseMessageStatus(StatusText(s)) == Ok(s)
    ensures ParseMessageStatus(data) == Ok(s) ==> data == StatusText(s)
  {
  }

  // ---------------------------------------------------------------------
  // The +CMGR: reply

  /** `+CMGR: ` */
  const CmgrTag: seq<byte> := [0x2B, 0x43, 0x4D, 0x47, 0x52, 0x3A, 0x20]

  /** What a parser step leaves: the rest of the input and a value, or a
      failure. Running out of input and meeting the wrong input both fail. */
  datatype Parsed<+T> = Done(rest: seq<byte>, value: T) | Failed

  datatype Sms<+M> = Sms(status: MessageStatus, message: M)

  datatype ReadSmsResponse<+M> = ReadSmsResponse(sms: Sms<M>, code: ResponseCode)

  /** The reply to a list command; its parser is not part of this model. */
  datatype ListSmsResponse<+M> = ListSmsResponse(sms: seq<Sms<M>>, code: ResponseCode)

  /** The input before the first `d`, and the input after it; `None` when `d`
      does not occur. */
  function TakeUntil(s: seq<byte>, d: byte): (r: Option<(seq<byte>, seq<byte>)>)
    ensures r.None? <==> d !in s
    ensures r.Some? ==> s == r.value.0 + ([d] + r.value.1) && d !in r.value.0
  {
    if s == [] then None
    else if s[0] == d then Some(([], s[1..]))
    else match TakeUntil(s[1..], d)
      case None => None
      case Some(split) => Some(([s[0]] + split.0, split.1))
  }

  /** The split at the first delimiter is the only one whose front is free
      of the delimiter. */
  lemma {:induction false} TakeUntilFirst(a: seq<byte>, d: byte, b: seq<byte>)
    requires d !in a
    ensures TakeUntil(a + ([d] + b), d) == Some((a, b))
  {
    if a == [] {
      Unprefixed(d, b);
    } else {
      Uncons(a, [d] + b);
      TakeUntilFirst(a[1..], d, b);
    }
  }

  lemma Unprefixed(d: byte, b: seq<byte>)
    ensures [] + ([d] + b) == [d] + b && ([d] + b)[0] == d && ([d] + b)[1..] == b
  {
  }

  lemma Uncons(a: seq<byte>, b: seq<byte>)
    requires a != []
    ensures (a + b)[0] == a[0] && (a + b)[1..] == a[1..] + b && [a[0]] + a[1..] == a
  {
  }

  /** The outcome of the reply parser, with the places where the Rust code
      indexes an empty slice marked `Panics`. */
  datatype Outcome<+T> = Returns(parsed: Parsed<T>) | Panics

  /** The `+CMGR:` reply parser, step by step: the tag; the status up to the
      first comma; the alpha field up to the next comma; the length up to the
      line feed; the PDU; a line feed; and all the rest as the result code. */
  function ReadSmsOutcome<M>(input: seq<byte>, parsePdu: seq<byte> -> Parsed<M>)
    : Outcome<ReadSmsResponse<M>>
  {
    if |input| < |CmgrTag| || input[..|CmgrTag|] != CmgrTag then Returns(Failed)
    else AfterTag(input[|CmgrTag|..], parsePdu)
  }

  /** The status up to the first comma; an empty one is indexed. */
  function AfterTag<M>(s: seq<byte>, parsePdu: seq<byte> -> Parsed<M>): Outcome<ReadSmsResponse<M>> {
    match TakeUntil(s, Comma)
    case None => Returns(Failed)
    case Some(status) =>
      if status.0 == [] then Panics
      else match ParseMessageStatus(status.0)
        case Err(_) => Returns(Failed)
        case Ok(st) => AfterStatus(status.1, st, parsePdu)
  }

  /** The alpha field up to the next comma. */
  function AfterStatus<M>(s: seq<byte>, st: MessageStatus, parsePdu: seq<byte> -> Parsed<M>)
    : Outcome<ReadSmsResponse<M>>
  {
    match TakeUntil(s, Comma)
    case None => Returns(Failed)
    case Some(alpha) => AfterAlpha(alpha.1, st, parsePdu)
  }

  /** The length field up to the line feed. */
  function AfterAlpha<M>(s: seq<byte>, st: MessageStatus, parsePdu: seq<byte> -> Parsed<M>)
    : Outcome<ReadSmsResponse<M>>
  {
    match TakeUntil(s, LF)
    case None => Returns(Failed)
    case Some(length) => AfterLength(length.1, st, parsePdu)
  }

  /** The PDU, a line feed, and the rest as the result code; a line feed
      with nothing after it is indexed past its end. */
  function AfterLength<M>(s: seq<byte>, st: MessageStatus, parsePdu: seq<byte> -> Parsed<M>)
    : Outcome<ReadSmsResponse<M>>
  {
    match parsePdu(s)
    case Failed => Returns(Failed)
    case Done(afterPdu, pdu) =>
      if afterPdu == [] || afterPdu[0] != LF then Returns(Failed)
      else if |afterPdu| == 1 then Panics
      else match ParseResponseCode(afterPdu[1..])
        case Err(_) => Returns(Failed)
        case Ok(code) => Returns(Done([], ReadSmsResponse(Sms(st, pdu), code)))
  }

  /** `parse_read_sms_response`, on the inputs where it does not panic. */
  function ParseReadSmsResponse<M>(input: seq<byte>, parsePdu: seq<byte> -> Parsed<M>)
    : (r: Parsed<ReadSmsResponse<M>>)
    requires !ReadSmsOutcome(input, parsePdu).Panics?
    ensures !StartsWith(input, CmgrTag) ==> r.Failed?
    ensures r.Done? ==> r.rest == [] && r.value.code == CodeOk
  {
    ReadSmsOutcome(input, parsePdu).parsed
  }

  /** A well-formed `+CMGR:` reply: the tag, the status digit, a comma, the
      alpha field, a comma, the length field, a line feed, and then the text
      the PDU parser reads (which includes the closing line feed and code). */
  function Frame(status: MessageStatus, alpha: seq<byte>, length: seq<byte>, body: seq<byte>)
    : seq<byte>
  {
    CmgrTag + (StatusText(status) + ([Comma] + (alpha + ([Comma] + (length + ([LF] + body))))))
  }

  /** Every well-formed reply whose PDU parses and is followed by a line feed
      and `0` parses, to its status, its PDU and `OK`. */
  lemma ReadSmsComplete<M>(status: MessageStatus, alpha: seq<byte>, length: seq<byte>,
                           body: seq<byte>, parsePdu: seq<byte> -> Parsed<M>, pdu: M)
    requires Comma !in alpha && LF !in length
    requires parsePdu(body) == Done([LF, Zero], pdu)
    ensures !ReadSmsOutcome(Frame(status, alpha, length, body), parsePdu).Panics?
    ensures ParseReadSmsResponse(Frame(status, alpha, length, body), parsePdu)
      == Done([], ReadSmsResponse(Sms(status, pdu), CodeOk))
  {
    var afterAlpha := length + ([LF] + body);
    var afterStatus := alpha + ([Comma] + afterAlpha);
    var afterTag := StatusText(status) + ([Comma] + afterStatus);
    var done := Returns(Done([], ReadSmsResponse(Sms(status, pdu), CodeOk)));
    CompleteLength(body, status, parsePdu, pdu);
    TakeUntilFirst(length, LF, body);
    assert AfterAlpha(afterAlpha, status, parsePdu) == done;
    TakeUntilFirst(alpha, Comma, afterAlpha);
    assert AfterStatus(afterStatus, status, parsePdu) == done;
    CompleteTag(status, afterStatus, parsePdu);
    Cut(CmgrTag, afterTag);
  }

  lemma CompleteLength<M>(body: seq<byte>, st: MessageStatus, parsePdu: seq<byte> -> Parsed<M>, pdu: M)
    requires parsePdu(body) == Done([LF, Zero], pdu)
    ensures AfterLength(body, st, parsePdu) == Returns(Done([], ReadSmsResponse(Sms(st, pdu), CodeOk)))
  {
    assert [LF, Zero][1..] == [Zero];
  }

  lemma CompleteTag<M>(st: MessageStatus, afterStatus: seq<byte>, parsePdu: seq<byte> -> Parsed<M>)
    ensures AfterTag(StatusText(st) + ([Comma] + afterStatus), parsePdu) == AfterStatus(afterStatus, st, parsePdu)
  {
    TakeUntilFirst(StatusText(st), Comma, afterStatus);
    StatusRoundTrip(st, StatusText(st));
  }

  /** A reply the code accepts after the PDU: a line feed, then `0`. */
  lemma ClosingLine(afterPdu: seq<byte>)
    requires |afterPdu| > 1 && afterPdu[0] == LF && ParseResponseCode(afterPdu[1..]).Ok?
    ensures afterPdu == [LF, Zero]
  {
    assert afterPdu[1..] == [Zero];
    assert afterPdu == [afterPdu[0]] + afterPdu[1..];
  }

  /** The stages after the tag, read backwards: whatever they accept is a
      status, a comma, an alpha field, a comma, a length, a line feed and a
      PDU followed by a line feed and `0`. */
  lemma SoundTag<M>(s: seq<byte>, parsePdu: seq<byte> -> Parsed<M>)
    returns (alpha: seq<byte>, length: seq<byte>, body: seq<byte>)
    requires AfterTag(s, parsePdu).Returns? && AfterTag(s, parsePdu).parsed.Done?
    ensures var resp := AfterTag(s, parsePdu).parsed.value;
      s == StatusText(resp.sms.status) + ([Comma] + (alpha + ([Comma] + (length + ([LF] + body))))) &&
      Comma !in alpha && LF !in length && parsePdu(body) == Done([LF, Zero], resp.sms.message)
  {
    var resp := AfterTag(s, parsePdu).parsed.value;
    var status := TakeUntil(s, Comma).value;
    StatusRoundTrip(resp.sms.status, status.0);
    var alphaSplit := TakeUntil(status.1, Comma).value;
    var lengthSplit := TakeUntil(alphaSplit.1, LF).value;
    ClosingLine(parsePdu(lengthSplit.1).rest);
    alpha, length, body := alphaSplit.0, lengthSplit.0, lengthSplit.1;
  }

  /** Conversely, every reply that parses is such a frame. */
  lemma ReadSmsSound<M>(input: seq<byte>, parsePdu: seq<byte> -> Parsed<M>)
    requires !ReadSmsOutcome(input, parsePdu).Panics?
    requires ParseReadSmsResponse(input, parsePdu).Done?
    ensures var resp := ParseReadSmsResponse(input, parsePdu).value;
      exists alpha, length, body :: input == Frame(resp.sms.status, alpha, length, body) &&
        Comma !in alpha && LF !in length && parsePdu(body) == Done([LF, Zero], resp.sms.message)
  {
    var afterTag := input[|CmgrTag|..];
    Cut(input[..|CmgrTag|], afterTag);
    var alpha, length, body := SoundTag(afterTag, parsePdu);
    assert input == Frame(ParseReadSmsResponse(input, parsePdu).value.sms.status, alpha, length, body);
  }
}
