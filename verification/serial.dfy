/** The serial thread of the phone: the commands it writes to the modem, how
    it cuts what the modem sends into carriage-return terminated chunks, and
    one turn of its event loop, which keeps at most one command outstanding
    and gathers the modem's reply until the port times out.

    Opening and configuring the port, the thread, the 100 ms pause between
    turns and the channels' synchronisation are not modelled: one turn is a
    function of the loop's state, what the command channel offers, and what
    the port read returned. */
module Serial {
  import opened Common
  import Utf8
  import Commands

  /** A command for the serial thread: the line, whether a carriage return
      follows it, and who receives the reply. Only the identity of that
      receiver is modelled, so it has the pipeline's callback type, although
      this thread's receivers take the reply text alone. */
  datatype Command = Command(bytes: seq<byte>, writeCr: bool, sender: Option<Commands.Callback>)

  // ---------------------------------------------------------------------
  // Constructors

  function NewAt(): Command {
    Command(Commands.AT, true, None)
  }

  function NewHangup(): Command {
    Command(Commands.ATH, true, None)
  }

  /** `number` is the UTF-8 encoding of the dial string. */
  function NewDial(number: seq<byte>): Command {
    Command(Commands.ATD + number + [Commands.Semicolon], true, None)
  }

  function NewSignalQuality(): Command {
    Command(Commands.CSQ, true, None)
  }

  function NewOperatorSelect(): Command {
    Command(Commands.COPS, true, None)
  }

  function NewNetworkSystemMode(): Command {
    Command(Commands.CNSMOD, true, None)
  }

  /** Each constructor makes a carriage-return terminated line without a
      callback, which the modem reads as the request it is named after: the
      same line the command pipeline builds for that request. */
  lemma ConstructorsRead(number: seq<byte>)
    ensures var c := NewAt();
      c.writeCr && c.sender.None? && Commands.Parse(c.bytes) == Some(Commands.Ping)
    ensures var c := NewHangup();
      c.writeCr && c.sender.None? && Commands.Parse(c.bytes) == Some(Commands.EndCall)
    ensures var c := NewDial(number);
      c.writeCr && c.sender.None? && Commands.Parse(c.bytes) == Some(Commands.StartCall(number))
    ensures var c := NewSignalQuality();
      c.writeCr && c.sender.None? && Commands.Parse(c.bytes) == Some(Commands.QuerySignal)
    ensures var c := NewOperatorSelect();
      c.writeCr && c.sender.None? && Commands.Parse(c.bytes) == Some(Commands.QueryOperator)
    ensures var c := NewNetworkSystemMode();
      c.writeCr && c.sender.None? && Commands.Parse(c.bytes) == Some(Commands.QueryNetworkMode)
  {
    Commands.DialReads(number, None);
  }

  // ---------------------------------------------------------------------
  // Writing and reading the port

  /** `write_command_to_serial_port`: what the port has received after the
      command is written to it, when it had received `port` before. The line
      goes first, then, in a second write, a carriage return when the command
      asks for one. */
  function WriteCommand(port: seq<byte>, cmd: Command): (port': seq<byte>)
    ensures |port| + |cmd.bytes| <= |port'| && port'[..|port| + |cmd.bytes|] == port + cmd.bytes
    ensures cmd.writeCr <==> |port'| == |port| + |cmd.bytes| + 1
    ensures !cmd.writeCr ==> port' == port + cmd.bytes
    ensures cmd.writeCr ==> port'[|port| + |cmd.bytes|] == CR
  {
    var lineWritten := port + cmd.bytes;
    if cmd.writeCr then lineWritten + [CR] else lineWritten
  }

  /** The two writers of a command line agree. `Command` here and the
      pipeline's `RawCommand` are separate types whose callbacks carry
      different messages, and nothing in the source hands one to the other;
      but for the same bytes and the same `write_cr`, what this thread puts
      on the port after whatever it had received is exactly what
      `RawCommand::render` returns. */
  lemma WriteIsRender(port: seq<byte>, cmd: Command, c: Commands.RawCommand)
    requires cmd.bytes == c.bytes && cmd.writeCr == c.writeCr
    ensures WriteCommand(port, cmd) == port + Commands.Render(c)
  {
    if c.writeCr {
      Assoc(port, c.bytes, [CR]);
    }
  }

  /** `read_until(b'\r')` on the bytes the port delivers: everything up to
      and including the first carriage return, and what is left after it;
      without a carriage return, everything. */
  function ReadUntilCr(stream: seq<byte>): (r: (seq<byte>, seq<byte>))
    ensures r.0 + r.1 == stream
    ensures CR in stream ==>
      0 < |r.0| && r.0[|r.0| - 1] == CR && CR !in r.0[..|r.0| - 1]
    ensures CR !in stream ==> r.0 == stream && r.1 == []
  {
    if stream == [] then ([], [])
    else if stream[0] == CR then ([CR], stream[1..])
    else
      var split := ReadUntilCr(stream[1..]);
      assert [stream[0]] + split.0 + split.1 == stream;
      ([stream[0]] + split.0, split.1)
  }

  /** The trim of `try_read_from_serial_port`: one trailing carriage return
      goes, anything else stays. An empty chunk is indexed, hence the
      precondition. */
  function TrimRead(chunk: seq<byte>): (r: seq<byte>)
    requires 0 < |chunk|
    ensures |r| <= |chunk| && r == chunk[..|r|]
    ensures |r| + 1 == |chunk| <==> chunk[|chunk| - 1] == CR
    ensures |r| == |chunk| <==> chunk[|chunk| - 1] != CR
  {
    if chunk[|chunk| - 1] == CR then chunk[..|chunk| - 1] else chunk
  }

  /** What one read of the port gives the loop. */
  datatype Read = Line(data: seq<byte>) | TimedOut | OtherError

  /** `try_read_from_serial_port` when the port delivers `arrived` before its
      timeout: the first carriage-return terminated chunk, trimmed, and the
      bytes left for the next read. Without a carriage return the read times
      out and the bytes it consumed are dropped. End of file is not modelled:
      a serial port times out instead. */
  function TryRead(arrived: seq<byte>): (r: (Read, seq<byte>))
    ensures CR in arrived <==> r.0.Line?
    ensures r.0.Line? ==> arrived == r.0.data + [CR] + r.1 && CR !in r.0.data
    ensures CR !in arrived ==> r == (TimedOut, [])
  {
    if CR in arrived then
      var split := ReadUntilCr(arrived);
      (Line(TrimRead(split.0)), split.1)
    else (TimedOut, [])
  }

  /** A line written with its carriage return is read back as the line, and
      the read stops right after it. */
  lemma WriteReadBack(cmd: Command, rest: seq<byte>)
    requires cmd.writeCr && CR !in cmd.bytes
    ensures TryRead(WriteCommand([], cmd) + rest) == (Line(cmd.bytes), rest)
  {
    var arrived := WriteCommand([], cmd) + rest;
    assert arrived == cmd.bytes + [CR] + rest;
    assert arrived[|cmd.bytes|] == CR;
    ReadsFirstLine(cmd.bytes, rest);
  }

  /** The read stops at the first carriage return. */
  lemma {:induction false} ReadsFirstLine(line: seq<byte>, rest: seq<byte>)
    requires CR !in line
    ensures ReadUntilCr(line + [CR] + rest) == (line + [CR], rest)
  {
    if line != [] {
      var s := line + [CR] + rest;
      assert s[0] == line[0] && s[1..] == line[1..] + [CR] + rest;
      ReadsFirstLine(line[1..], rest);
      assert [line[0]] + (line[1..] + [CR]) == line + [CR];
    }
  }

  // ---------------------------------------------------------------------
  // One turn of the event loop

  /** The loop's state: the outstanding command, if any, and the reply
      gathered so far (a Rust `String`, kept as its UTF-8 bytes). */
  datatype Loop = Loop(cmd: Option<Command>, response: seq<byte>)

  /** What `try_recv` on the command channel gives. */
  datatype Channel = Received(next: Command) | Empty | Disconnected

  /** A reply handed to a command's callback. */
  datatype Delivery = Delivery(to: Commands.Callback, reply: seq<byte>)

  /** One turn: the loop goes on with a new state, having written some bytes
      and perhaps delivered a reply; or it has ended. */
  datatype Turn = Continue(next: Loop, written: seq<byte>, delivered: Option<Delivery>) | Finished

  /** The outcome of the first half of a turn. */
  datatype Polled = Polled(cmd: Option<Command>, written: seq<byte>) | Stopped

  /** The first half of a turn: the channel is asked for a command only when
      none is outstanding; a command received is written at once; a channel
      whose senders are all gone ends the loop. */
  function Poll(s: Loop, channel: Channel): (p: Polled)
    ensures p.Stopped? <==> s.cmd.None? && channel.Disconnected?
    ensures s.cmd.Some? ==> p == Polled(s.cmd, [])
    ensures s.cmd.None? && channel.Received? ==>
      p == Polled(Some(channel.next), WriteCommand([], channel.next))
    ensures s.cmd.None? && channel.Empty? ==> p == Polled(None, [])
  {
    if s.cmd.None? then
      match channel
      case Received(c) => Polled(Some(c), WriteCommand([], c))
      case Empty => Polled(None, [])
      case Disconnected => Stopped
    else Polled(s.cmd, [])
  }

  /** Whether a turn stops before it reads the port. */
  predicate Stops(s: Loop, channel: Channel) {
    s.cmd.None? && channel.Disconnected?
  }

  /** The chunks a turn can read without panicking: `data[0]` is indexed and
      the chunk must be UTF-8. */
  predicate Readable(read: Read) {
    read.Line? ==> 0 < |read.data| && Utf8.Valid(read.data)
  }

  /** Whether a chunk continues the reply gathered so far: it starts with a
      line feed. */
  predicate Continues(data: seq<byte>) {
    0 < |data| && data[0] == LF
  }

  /** The second half of a turn, with `cmd` the command outstanding after
      the first. A chunk that starts with a line feed is appended to the
      reply; any other chunk starts a new reply. A timeout with a reply
      gathered hands it to the outstanding command's callback (or drops it,
      after logging it, when there is none) and clears both; a timeout with
      nothing gathered, and any other read error, change nothing. */
  function Absorb(cmd: Option<Command>, response: seq<byte>, read: Read)
    : (r: (Loop, Option<Delivery>))
    requires read.Line? ==> 0 < |read.data|
  {
    match read
    case Line(data) =>
      var kept := if data[0] != LF then [] else response;
      (Loop(cmd, kept + data), None)
    case TimedOut =>
      if |response| > 0 then
        var delivered := if cmd.Some? && cmd.value.sender.Some?
          then Some(Delivery(cmd.value.sender.value, response)) else None;
        (Loop(None, []), delivered)
      else (Loop(cmd, response), None)
    case OtherError => (Loop(cmd, response), None)
  }

  /** One turn of the loop as written. */
  function Step(s: Loop, channel: Channel, read: Read): (t: Turn)
    requires !Stops(s, channel) ==> Readable(read)
    ensures t.Finished? <==> Stops(s, channel)
    // At most one command is in flight: an outstanding command blocks the
    // channel, and the outstanding command only changes by being cleared.
    ensures t.Continue? && s.cmd.Some? ==>
      t.written == [] && (t.next.cmd == s.cmd || t.next.cmd.None?)
    ensures t.Continue? && s.cmd.None? && channel.Received? ==>
      t.written == WriteCommand([], channel.next) &&
      (t.next.cmd == Some(channel.next) || t.next.cmd.None?)
    // An idle loop with nothing on the channel writes nothing and stays idle.
    ensures t.Continue? && s.cmd.None? && channel.Empty? ==>
      t.written == [] && t.next.cmd.None?
    // A line read keeps the command that is outstanding after the poll.
    ensures t.Continue? && read.Line? ==>
      t.next.cmd == Poll(s, channel).cmd && t.delivered.None? &&
      t.next.response == (if Continues(read.data) then s.response + read.data else read.data)
    ensures t.Continue? && read.TimedOut? && |s.response| > 0 ==>
      t.next == Loop(None, []) &&
      (t.delivered.Some? <==> Poll(s, channel).cmd.Some? && Poll(s, channel).cmd.value.sender.Some?) &&
      (t.delivered.Some? ==>
        t.delivered.value == Delivery(Poll(s, channel).cmd.value.sender.value, s.response))
    ensures t.Continue? && (read.OtherError? || (read.TimedOut? && s.response == [])) ==>
      t.next == Loop(Poll(s, channel).cmd, s.response) && t.delivered.None?
  {
    match Poll(s, channel)
    case Stopped => Finished
    case Polled(cmd, written) =>
      var absorbed := Absorb(cmd, s.response, read);
      Continue(absorbed.0, written, absorbed.1)
  }

  /** In the verbose response format of ITU-T V.250 every result code and
      information text is preceded by a carriage return and a line feed, so
      the first chunk read of any reply is empty: the turn that reads it
      indexes an empty chunk. */
  lemma ReplyStartsEmpty(rest: seq<byte>)
    ensures TryRead([CR, LF] + rest).0 == Line([])
    ensures !Readable(TryRead([CR, LF] + rest).0)
  {
    assert ([CR, LF] + rest)[0] == CR;
    ReadsFirstLine([], [LF] + rest);
    assert [CR] + ([LF] + rest) == [CR, LF] + rest;
  }

  // ---------------------------------------------------------------------
  // The turn with an empty chunk read as a chunk that does not continue

  /** The chunks a turn can take once an empty chunk is allowed. */
  predicate Decodable(read: Read) {
    read.Line? ==> Utf8.Valid(read.data)
  }

  /** An empty chunk does not start with a line feed, so it starts a new,
      empty reply; every other read is absorbed as before. */
  function AbsorbFixed(cmd: Option<Command>, response: seq<byte>, read: Read)
    : (r: (Loop, Option<Delivery>))
  {
    if read.Line? && read.data == [] then (Loop(cmd, []), None)
    else Absorb(cmd, response, read)
  }

  function StepFixed(s: Loop, channel: Channel, read: Read): (t: Turn)
    requires !Stops(s, channel) ==> Decodable(read)
    ensures t.Finished? <==> Stops(s, channel)
    ensures t.Continue? && s.cmd.Some? ==>
      t.written == [] && (t.next.cmd == s.cmd || t.next.cmd.None?)
    ensures t.Continue? && read.Line? ==>
      t.delivered.None? &&
      t.next.response == (if Continues(read.data) then s.response + read.data else read.data)
    ensures t.Continue? && Utf8.Valid(s.response) ==> Utf8.Valid(t.next.response)
  {
    match Poll(s, channel)
    case Stopped => Finished
    case Polled(cmd, written) =>
      var absorbed := AbsorbFixed(cmd, s.response, read);
      assert Utf8.Valid([]) by { Utf8.AsciiValid([]); }
      assert Utf8.Valid(s.response) && read.Line? && Continues(read.data) ==>
          Utf8.Valid(s.response + read.data) by {
        if Utf8.Valid(s.response) && read.Line? && Continues(read.data) {
          Utf8.ConcatValid(s.response, read.data);
        }
      }
      Continue(absorbed.0, written, absorbed.1)
  }

  /** Wherever the loop as written does not panic, the corrected turn does
      what it does. */
  lemma StepFixedAgrees(s: Loop, channel: Channel, read: Read)
    requires !Stops(s, channel) ==> Readable(read)
    ensures StepFixed(s, channel, read) == Step(s, channel, read)
  {
  }

  // ---------------------------------------------------------------------
  // A reply, line by line

  predicate AllDecodable(chunks: seq<seq<byte>>) {
    forall i :: 0 <= i < |chunks| ==> Utf8.Valid(chunks[i])
  }

  /** The chunks joined in order. */
  function Concat(chunks: seq<seq<byte>>): seq<byte> {
    if chunks == [] then [] else chunks[0] + Concat(chunks[1..])
  }

  /** The loop reading `chunks` one per turn while the command channel stays
      empty. */
  function ReadLines(s: Loop, chunks: seq<seq<byte>>): (r: Loop)
    requires AllDecodable(chunks)
    decreases |chunks|
  {
    if chunks == [] then s
    else
      var t := StepFixed(s, Empty, Line(chunks[0]));
      ReadLines(t.next, chunks[1..])
  }

  /** Chunks that each start with a line feed are appended to the reply, and
      the outstanding command stays. */
  lemma {:induction false} ContinuedLines(s: Loop, chunks: seq<seq<byte>>)
    requires AllDecodable(chunks)
    requires forall i :: 0 <= i < |chunks| ==> Continues(chunks[i])
    ensures ReadLines(s, chunks) == Loop(s.cmd, s.response + Concat(chunks))
    decreases |chunks|
  {
    if chunks != [] {
      var t := StepFixed(s, Empty, Line(chunks[0]));
      assert t.next == Loop(s.cmd, s.response + chunks[0]);
      ContinuedLines(t.next, chunks[1..]);
      Assoc(s.response, chunks[0], Concat(chunks[1..]));
    }
  }

  /** A reply made of a first line and line-feed continued lines is gathered
      whole, whatever was gathered before it, and the next timeout hands all
      of it to the outstanding command's callback and makes the loop idle. */
  lemma {:induction false} ReplyDelivered(s: Loop, chunks: seq<seq<byte>>)
    requires AllDecodable(chunks) && 0 < |chunks| && !Continues(chunks[0])
    requires forall i :: 1 <= i < |chunks| ==> Continues(chunks[i])
    requires 0 < |Concat(chunks)|
    ensures ReadLines(s, chunks) == Loop(s.cmd, Concat(chunks))
    ensures var t := StepFixed(ReadLines(s, chunks), Empty, TimedOut);
      t.Continue? && t.next == Loop(None, []) &&
      (s.cmd.Some? && s.cmd.value.sender.Some? ==>
        t.delivered == Some(Delivery(s.cmd.value.sender.value, Concat(chunks)))) &&
      (s.cmd.None? || s.cmd.value.sender.None? ==> t.delivered.None?)
  {
    var t := StepFixed(s, Empty, Line(chunks[0]));
    assert t.next == Loop(s.cmd, chunks[0]);
    var rest := chunks[1..];
    assert forall i :: 0 <= i < |rest| ==> Continues(rest[i]) by {
      forall i | 0 <= i < |rest| ensures Continues(rest[i]) {
        assert rest[i] == chunks[i + 1];
      }
    }
    ContinuedLines(t.next, rest);
  }
}
