/** The modem command layer: the typed commands a `Pipeline` builds for each
    request of the phone (test, hang up, dial, signal quality, operator,
    network mode, read / list / send SMS, service centre), their wire form,
    and the FIFO channel that carries them to the serial thread.

    The partner of the builders is `Parse`, the modem's reading of a command
    line: every command a builder makes reads back as the request it was
    built for, with its parameter (number, index, store, length, PDU) intact. */
module Commands {
  import opened Common
  import Decimal
  import Utf8

  /** The kind of a command, returned to its callback with the response. */
  datatype CommandType =
    | Attention
    | Hangup
    | Dial
    | SignalQuality
    | OperatorSelect
    | NetworkSystemMode
    | ReadSMS
    | ListSMS
    | SendSMS
    | GetSMSC

  /** The sending half of a callback channel. Senders are compared only by
      identity, so the model keeps an identity and nothing else. */
  datatype Callback = Callback(id: nat)

  /** A command as the pipeline queues it: the line to write, whether a
      carriage return terminates it, who receives the answer, and its kind. */
  datatype RawCommand = RawCommand(
    bytes: seq<byte>,
    writeCr: bool,
    sender: Option<Callback>,
    commandType: CommandType)

  /** The message storage selector of `AT+CMGL`; `All` has the value 4. */
  datatype SmsStore = All

  function StoreCode(store: SmsStore): (n: nat)
    ensures n == 4
  {
    match store
    case All => 4
  }

  /** Ctrl-Z, which ends the PDU of `AT+CMGS` (section 3.5.1 of 3GPP TS 27.005). */
  const CtrlZ: byte := 0x1A

  /** A `u32`. */
  type u32 = n: nat | n < 0x1_0000_0000

  // ---------------------------------------------------------------------
  // Wire form

  /** The bytes written to the modem for `c`. */
  function Render(c: RawCommand): (r: seq<byte>)
    ensures c.writeCr <==> |r| == |c.bytes| + 1
    ensures !c.writeCr ==> |r| == |c.bytes|
    ensures r[..|c.bytes|] == c.bytes
    ensures c.writeCr ==> r[|c.bytes|] == CR
  {
    if c.writeCr then c.bytes + [CR] else c.bytes
  }

  /** The callback of `c` together with its kind, when it has one. */
  function GetCallback(c: RawCommand): (r: Option<(CommandType, Callback)>)
    ensures r.Some? <==> c.sender.Some?
    ensures r.Some? ==> r.value.0 == c.commandType && r.value.1 == c.sender.value
  {
    match c.sender
    case Some(s) => Some((c.commandType, s))
    case None => None
  }

  // ---------------------------------------------------------------------
  // The modem's reading of a command line

  /** What a command line asks the modem to do. */
  datatype Request =
    | Ping
    | EndCall
    | StartCall(number: seq<byte>)
    | QuerySignal
    | QueryOperator
    | QueryNetworkMode
    | ReadMessage(index: nat)
    | ListMessages(store: nat)
    | SubmitLength(octets: nat)
    | SubmitPdu(pdu: seq<byte>)
    | QueryServiceCentre

  predicate IsDigitByte(b: byte) { 48 <= b <= 57 }

  predicate AllDigitBytes(b: seq<byte>) {
    forall i :: 0 <= i < |b| ==> IsDigitByte(b[i])
  }

  /** The decimal numeral of `n`, as bytes. */
  function Numeral(n: nat): (r: seq<byte>)
    ensures 0 < |r| && AllDigitBytes(r)
  {
    AsciiBytes(Decimal.Render(n))
  }

  /** The value of a numeral written in bytes, most significant digit first. */
  function NumeralValue(b: seq<byte>): nat
    requires AllDigitBytes(b)
  {
    if b == [] then 0 else 10 * NumeralValue(b[..|b| - 1]) + (b[|b| - 1] - 48)
  }

  lemma {:induction false} NumeralValueOfText(t: string)
    requires Decimal.AllDigits(t)
    ensures IsAscii(t) && AllDigitBytes(AsciiBytes(t))
    ensures NumeralValue(AsciiBytes(t)) == Decimal.Value(t)
  {
    assert IsAscii(t);
    if t != [] {
      var front := t[..|t| - 1];
      assert AsciiBytes(t)[..|t| - 1] == AsciiBytes(front);
      NumeralValueOfText(front);
    }
  }

  lemma NumeralRoundTrip(n: nat)
    ensures NumeralValue(Numeral(n)) == n
  {
    NumeralValueOfText(Decimal.Render(n));
    Decimal.ValueOfRender(n);
  }

  /** `line` is `prefix` followed by a non-empty run of decimal digits. */
  predicate Numbered(line: seq<byte>, prefix: seq<byte>) {
    |prefix| < |line| && line[..|prefix|] == prefix && AllDigitBytes(line[|prefix|..])
  }

  // The fixed parts of the command lines, as ASCII bytes.
  const AT: seq<byte> := [0x41, 0x54]                                          // "AT"
  const ATH: seq<byte> := [0x41, 0x54, 0x48]                                   // "ATH"
  const ATD: seq<byte> := [0x41, 0x54, 0x44]                                   // "ATD"
  const Semicolon: byte := 0x3B                                                // ';'
  const CSQ: seq<byte> := [0x41, 0x54, 0x2B, 0x43, 0x53, 0x51, 0x3F]           // "AT+CSQ?"
  const COPS: seq<byte> := [0x41, 0x54, 0x2B, 0x43, 0x4F, 0x50, 0x53, 0x3F]    // "AT+COPS?"
  const CNSMOD: seq<byte> :=
    [0x41, 0x54, 0x2B, 0x43, 0x4E, 0x53, 0x4D, 0x4F, 0x44, 0x3F]               // "AT+CNSMOD?"
  const CSCA: seq<byte> := [0x41, 0x54, 0x2B, 0x43, 0x53, 0x43, 0x41, 0x3F]    // "AT+CSCA?"
  const CMGR: seq<byte> := [0x41, 0x54, 0x2B, 0x43, 0x4D, 0x47, 0x52, 0x3D]    // "AT+CMGR="
  const CMGL: seq<byte> := [0x41, 0x54, 0x2B, 0x43, 0x4D, 0x47, 0x4C, 0x3D]    // "AT+CMGL="
  const CMGS: seq<byte> := [0x41, 0x54, 0x2B, 0x43, 0x4D, 0x47, 0x53, 0x3D]    // "AT+CMGS="

  /** The request a command line (without its terminator) carries, following
      the syntax of 3GPP TS 27.007 and 27.005: the fixed query commands, `ATD`
      with a dial string ended by `;`, the three numbered SMS commands, and a
      PDU ended by Ctrl-Z. */
  function Parse(line: seq<byte>): Option<Request> {
    if line == AT then Some(Ping)
    else if line == ATH then Some(EndCall)
    else if line == CSQ then Some(QuerySignal)
    else if line == COPS then Some(QueryOperator)
    else if line == CNSMOD then Some(QueryNetworkMode)
    else if line == CSCA then Some(QueryServiceCentre)
    else if 0 < |line| && line[|line| - 1] == CtrlZ then Some(SubmitPdu(line[..|line| - 1]))
    else if 4 <= |line| && line[..3] == ATD && line[|line| - 1] == Semicolon then
      Some(StartCall(line[3..|line| - 1]))
    else if Numbered(line, CMGR) then Some(ReadMessage(NumeralValue(line[|CMGR|..])))
    else if Numbered(line, CMGL) then Some(ListMessages(NumeralValue(line[|CMGL|..])))
    else if Numbered(line, CMGS) then Some(SubmitLength(NumeralValue(line[|CMGS|..])))
    else None
  }

  /** A numbered command line reads back as its number. */
  lemma NumberedLine(prefix: seq<byte>, n: nat)
    ensures Numbered(prefix + Numeral(n), prefix)
    ensures (prefix + Numeral(n))[|prefix|..] == Numeral(n)
  {
    assert (prefix + Numeral(n))[..|prefix|] == prefix;
    assert (prefix + Numeral(n))[|prefix|..] == Numeral(n);
  }

  // ---------------------------------------------------------------------
  // The commands each pipeline operation builds. Each builder is followed by
  // a lemma stating what the command asks of the modem.

  function AttentionCommand(sender: Option<Callback>): RawCommand {
    RawCommand(AT, true, sender, Attention)
  }

  lemma AttentionReads(sender: Option<Callback>)
    ensures var c := AttentionCommand(sender);
      c.writeCr && c.sender == sender && c.commandType == Attention && Parse(c.bytes) == Some(Ping)
  {
  }

  function HangupCommand(sender: Option<Callback>): RawCommand {
    RawCommand(ATH, true, sender, Hangup)
  }

  lemma HangupReads(sender: Option<Callback>)
    ensures var c := HangupCommand(sender);
      c.writeCr && c.sender == sender && c.commandType == Hangup && Parse(c.bytes) == Some(EndCall)
  {
  }

  /** `number` is the UTF-8 encoding of the dial string. */
  function DialCommand(number: seq<byte>, sender: Option<Callback>): RawCommand {
    RawCommand(ATD + number + [Semicolon], true, sender, Dial)
  }

  lemma DialReads(number: seq<byte>, sender: Option<Callback>)
    ensures var c := DialCommand(number, sender);
      c.writeCr && c.sender == sender && c.commandType == Dial &&
      Parse(c.bytes) == Some(StartCall(number))
  {
    var line := ATD + number + [Semicolon];
    assert line[..3] == ATD;
    assert line[3..|line| - 1] == number;
    assert line != AT && line != ATH by { assert |line| >= 4; }
    assert line[2] != CSQ[2];
  }

  function SignalQualityCommand(sender: Option<Callback>): RawCommand {
    RawCommand(CSQ, true, sender, SignalQuality)
  }

  lemma SignalQualityReads(sender: Option<Callback>)
    ensures var c := SignalQualityCommand(sender);
      c.writeCr && c.sender == sender && c.commandType == SignalQuality &&
      Parse(c.bytes) == Some(QuerySignal)
  {
  }

  function OperatorSelectCommand(sender: Option<Callback>): RawCommand {
    RawCommand(COPS, true, sender, OperatorSelect)
  }

  lemma OperatorSelectReads(sender: Option<Callback>)
    ensures var c := OperatorSelectCommand(sender);
      c.writeCr && c.sender == sender && c.commandType == OperatorSelect &&
      Parse(c.bytes) == Some(QueryOperator)
  {
  }

  function NetworkSystemModeCommand(sender: Option<Callback>): RawCommand {
    RawCommand(CNSMOD, true, sender, NetworkSystemMode)
  }

  lemma NetworkSystemModeReads(sender: Option<Callback>)
    ensures var c := NetworkSystemModeCommand(sender);
      c.writeCr && c.sender == sender && c.commandType == NetworkSystemMode &&
      Parse(c.bytes) == Some(QueryNetworkMode)
  {
  }

  function ReadSmsCommand(index: u32, sender: Option<Callback>): RawCommand {
    RawCommand(CMGR + Numeral(index), true, sender, ReadSMS)
  }

  lemma ReadSmsReads(index: u32, sender: Option<Callback>)
    ensures var c := ReadSmsCommand(index, sender);
      c.writeCr && c.sender == sender && c.commandType == ReadSMS &&
      Parse(c.bytes) == Some(ReadMessage(index))
  {
    NumberedLine(CMGR, index);
    NumeralRoundTrip(index);
  }

  function ListSmsCommand(store: SmsStore, sender: Option<Callback>): RawCommand {
    RawCommand(CMGL + Numeral(StoreCode(store)), true, sender, ListSMS)
  }

  lemma ListSmsReads(store: SmsStore, sender: Option<Callback>)
    ensures var c := ListSmsCommand(store, sender);
      c.writeCr && c.sender == sender && c.commandType == ListSMS &&
      Parse(c.bytes) == Some(ListMessages(4))
  {
    NumberedLine(CMGL, StoreCode(store));
    NumeralRoundTrip(StoreCode(store));
  }

  /** The first half of `send_sms`: announces the PDU length in octets (two
      hex characters each), with no callback. */
  function SubmitLengthCommand(data: seq<byte>): RawCommand {
    RawCommand(CMGS + Numeral(|data| / 2), true, None, SendSMS)
  }

  lemma SubmitLengthReads(data: seq<byte>)
    ensures var c := SubmitLengthCommand(data);
      c.writeCr && c.sender == None && c.commandType == SendSMS &&
      Parse(c.bytes) == Some(SubmitLength(|data| / 2))
  {
    NumberedLine(CMGS, |data| / 2);
    NumeralRoundTrip(|data| / 2);
  }

  /** The second half of `send_sms`: the PDU itself, ended by Ctrl-Z and not
      by a carriage return, carrying the caller's callback. */
  function SubmitPduCommand(data: seq<byte>, sender: Option<Callback>): RawCommand {
    RawCommand(data + [CtrlZ], false, sender, SendSMS)
  }

  lemma SubmitPduReads(data: seq<byte>, sender: Option<Callback>)
    ensures var c := SubmitPduCommand(data, sender);
      !c.writeCr && c.sender == sender && c.commandType == SendSMS &&
      Parse(c.bytes) == Some(SubmitPdu(data))
  {
    var line := data + [CtrlZ];
    assert line[..|line| - 1] == data;
  }

  function GetSmscCommand(sender: Option<Callback>): RawCommand {
    RawCommand(CSCA, true, sender, GetSMSC)
  }

  lemma GetSmscReads(sender: Option<Callback>)
    ensures var c := GetSmscCommand(sender);
      c.writeCr && c.sender == sender && c.commandType == GetSMSC &&
      Parse(c.bytes) == Some(QueryServiceCentre)
  {
  }

  // ---------------------------------------------------------------------
  // The pipeline

  /** The sending end of the command channel: every command sent so far, in
      order, and whether the serial thread still holds the receiving end. */
  datatype Pipeline = Pipeline(queue: seq<RawCommand>, connected: bool)

  /** A send's outcome: the pipeline after it, and `Ok` or the command handed
      back because nobody receives any more. */
  datatype Issue = Issue(after: Pipeline, result: Result<(), RawCommand>)

  /** `Sender::send`: a connected channel takes the command at its tail; a
      disconnected one hands it back. */
  function SendCommand(p: Pipeline, cmd: RawCommand): (r: Issue)
    ensures r.after.connected == p.connected
    ensures r.result.Ok? <==> p.connected
    ensures p.connected ==> r.after.queue == p.queue + [cmd]
    ensures !p.connected ==> r.after == p && r.result == Err(cmd)
  {
    if p.connected then Issue(p.(queue := p.queue + [cmd]), Ok(())) else Issue(p, Err(cmd))
  }

  /** `send_sms`: the length announcement, then the PDU. The first send is
      unwrapped and so is the UTF-8 conversion of the PDU, hence both
      preconditions. */
  function SendSms(p: Pipeline, data: seq<byte>, sender: Option<Callback>): (r: Issue)
    requires p.connected
    requires Utf8.Valid(data)
    ensures r.result.Ok? && r.after.connected
    ensures r.after.queue == p.queue + [SubmitLengthCommand(data), SubmitPduCommand(data, sender)]
  {
    var announced := SendCommand(p, SubmitLengthCommand(data));
    SendCommand(announced.after, SubmitPduCommand(data, sender))
  }

  /** A call of one of the pipeline's operations, with its arguments. */
  datatype Call =
    | CallAttention(sender: Option<Callback>)
    | CallHangup(sender: Option<Callback>)
    | CallDial(number: seq<byte>, sender: Option<Callback>)
    | CallSignalQuality(sender: Option<Callback>)
    | CallOperatorSelect(sender: Option<Callback>)
    | CallNetworkSystemMode(sender: Option<Callback>)
    | CallReadSms(index: u32, sender: Option<Callback>)
    | CallListSms(store: SmsStore, sender: Option<Callback>)
    | CallSendSms(data: seq<byte>, sender: Option<Callback>)
    | CallGetSmsc(sender: Option<Callback>)

  /** The calls that do not panic on a pipeline whose channel is (or is not)
      connected: only `send_sms` can panic. */
  predicate Allowed(connected: bool, call: Call) {
    call.CallSendSms? ==> connected && Utf8.Valid(call.data)
  }

  /** What the modem is asked to do by one call, independently of how the
      command lines are spelled. */
  function Asks(call: Call): seq<Request> {
    match call
    case CallAttention(_) => [Ping]
    case CallHangup(_) => [EndCall]
    case CallDial(number, _) => [StartCall(number)]
    case CallSignalQuality(_) => [QuerySignal]
    case CallOperatorSelect(_) => [QueryOperator]
    case CallNetworkSystemMode(_) => [QueryNetworkMode]
    case CallReadSms(index, _) => [ReadMessage(index)]
    case CallListSms(_, _) => [ListMessages(4)]
    case CallSendSms(data, _) => [SubmitLength(|data| / 2), SubmitPdu(data)]
    case CallGetSmsc(_) => [QueryServiceCentre]
  }

  /** The requests of a sequence of calls, in call order. */
  function Asked(calls: seq<Call>): seq<Request> {
    if calls == [] then [] else Asks(calls[0]) + Asked(calls[1..])
  }

  /** The command lines of `cmds` read back as `reqs`, one for one. */
  predicate Carries(cmds: seq<RawCommand>, reqs: seq<Request>) {
    |cmds| == |reqs| && forall i :: 0 <= i < |cmds| ==> Parse(cmds[i].bytes) == Some(reqs[i])
  }

  /** The commands one call builds, in the order it sends them. Their lines
      read back as exactly the call's requests, and the last one carries the
      caller's callback. */
  function CommandsFor(call: Call): (cmds: seq<RawCommand>)
    ensures 0 < |cmds| && cmds[|cmds| - 1].sender == call.sender
  {
    match call
    case CallAttention(sender) => [AttentionCommand(sender)]
    case CallHangup(sender) => [HangupCommand(sender)]
    case CallDial(number, sender) => [DialCommand(number, sender)]
    case CallSignalQuality(sender) => [SignalQualityCommand(sender)]
    case CallOperatorSelect(sender) => [OperatorSelectCommand(sender)]
    case CallNetworkSystemMode(sender) => [NetworkSystemModeCommand(sender)]
    case CallReadSms(index, sender) => [ReadSmsCommand(index, sender)]
    case CallListSms(store, sender) => [ListSmsCommand(store, sender)]
    case CallSendSms(data, sender) => [SubmitLengthCommand(data), SubmitPduCommand(data, sender)]
    case CallGetSmsc(sender) => [GetSmscCommand(sender)]
  }

  /** The lines of a call's commands read back as the call's requests. */
  lemma CommandsForCarry(call: Call)
    ensures Carries(CommandsFor(call), Asks(call))
  {
    match call
    case CallAttention(sender) => AttentionReads(sender);
    case CallHangup(sender) => HangupReads(sender);
    case CallDial(number, sender) => DialReads(number, sender);
    case CallSignalQuality(sender) => SignalQualityReads(sender);
    case CallOperatorSelect(sender) => OperatorSelectReads(sender);
    case CallNetworkSystemMode(sender) => NetworkSystemModeReads(sender);
    case CallReadSms(index, sender) => ReadSmsReads(index, sender);
    case CallListSms(store, sender) => ListSmsReads(store, sender);
    case CallSendSms(data, sender) => SubmitLengthReads(data); SubmitPduReads(data, sender);
    case CallGetSmsc(sender) => GetSmscReads(sender);
  }

  /** One pipeline operation: on a connected channel it succeeds and appends
      the call's commands; on a disconnected one it fails and queues nothing. */
  function Perform(p: Pipeline, call: Call): (r: Issue)
    requires Allowed(p.connected, call)
    ensures r.after.connected == p.connected
    ensures p.connected ==> r.result.Ok? && r.after.queue == p.queue + CommandsFor(call)
    ensures !p.connected ==> r.after == p && r.result.Err?
  {
    match call
    case CallAttention(sender) => SendCommand(p, AttentionCommand(sender))
    case CallHangup(sender) => SendCommand(p, HangupCommand(sender))
    case CallDial(number, sender) => SendCommand(p, DialCommand(number, sender))
    case CallSignalQuality(sender) => SendCommand(p, SignalQualityCommand(sender))
    case CallOperatorSelect(sender) => SendCommand(p, OperatorSelectCommand(sender))
    case CallNetworkSystemMode(sender) => SendCommand(p, NetworkSystemModeCommand(sender))
    case CallReadSms(index, sender) => SendCommand(p, ReadSmsCommand(index, sender))
    case CallListSms(store, sender) => SendCommand(p, ListSmsCommand(store, sender))
    case CallSendSms(data, sender) => SendSms(p, data, sender)
    case CallGetSmsc(sender) => SendCommand(p, GetSmscCommand(sender))
  }

  /** A sequence of calls on one pipeline, each on the pipeline the previous
      left behind. */
  function Run(p: Pipeline, calls: seq<Call>): (q: Pipeline)
    requires forall i :: 0 <= i < |calls| ==> Allowed(p.connected, calls[i])
    ensures q.connected == p.connected
    ensures |p.queue| <= |q.queue| && q.queue[..|p.queue|] == p.queue
    decreases |calls|
  {
    if calls == [] then p else Run(Perform(p, calls[0]).after, calls[1..])
  }

  /** The commands of a sequence of calls, in call order. */
  function CommandsOf(calls: seq<Call>): seq<RawCommand> {
    if calls == [] then [] else CommandsFor(calls[0]) + CommandsOf(calls[1..])
  }

  lemma CarriesConcat(a: seq<RawCommand>, x: seq<Request>, b: seq<RawCommand>, y: seq<Request>)
    requires Carries(a, x) && Carries(b, y)
    ensures Carries(a + b, x + y)
  {
  }

  /** On a connected channel the queue grows by the calls' commands in call
      order and by nothing else. */
  lemma {:induction false} RunAppends(p: Pipeline, calls: seq<Call>)
    requires p.connected
    requires forall i :: 0 <= i < |calls| ==> Allowed(p.connected, calls[i])
    ensures Run(p, calls).queue == p.queue + CommandsOf(calls)
    decreases |calls|
  {
    if calls != [] {
      var mid := Perform(p, calls[0]).after;
      AllowedTail(p.connected, calls);
      RunAppends(mid, calls[1..]);
      Assoc(p.queue, CommandsFor(calls[0]), CommandsOf(calls[1..]));
    }
  }

  lemma AllowedTail(connected: bool, calls: seq<Call>)
    requires calls != [] && forall i :: 0 <= i < |calls| ==> Allowed(connected, calls[i])
    ensures forall i :: 0 <= i < |calls[1..]| ==> Allowed(connected, calls[1..][i])
  {
  }

  /** The lines a sequence of calls puts on a connected channel read back as
      the calls' requests, in call order. */
  lemma {:induction false} RunInOrder(p: Pipeline, calls: seq<Call>)
    requires p.connected
    requires forall i :: 0 <= i < |calls| ==> Allowed(p.connected, calls[i])
    ensures Carries(Run(p, calls).queue[|p.queue|..], Asked(calls))
  {
    RunAppends(p, calls);
    CommandsCarry(calls);
    assert Run(p, calls).queue[|p.queue|..] == CommandsOf(calls);
  }

  lemma {:induction false} CommandsCarry(calls: seq<Call>)
    ensures Carries(CommandsOf(calls), Asked(calls))
  {
    if calls != [] {
      CommandsCarry(calls[1..]);
      CommandsForCarry(calls[0]);
      CarriesConcat(CommandsFor(calls[0]), Asks(calls[0]), CommandsOf(calls[1..]), Asked(calls[1..]));
    }
  }

  /** A disconnected channel takes nothing, whatever is called. */
  lemma {:induction false} RunDisconnected(p: Pipeline, calls: seq<Call>)
    requires !p.connected
    requires forall i :: 0 <= i < |calls| ==> Allowed(p.connected, calls[i])
    ensures Run(p, calls) == p
    decreases |calls|
  {
    if calls != [] {
      RunDisconnected(Perform(p, calls[0]).after, calls[1..]);
    }
  }
}
