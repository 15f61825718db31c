/** Reassembly of concatenated short messages (section 9.2.3.24.1 of 3GPP
    TS 23.040): parts that share a sender and a reference number are
    collected in a slot per part until as many parts have arrived as the
    message has, and then joined into one text.

    The received PDU type and its user-data header are not part of this
    model; a `Part` keeps the fields reassembly reads from them. */
module Sms {
  import opened Common
  import Decimal
  import Commands
  import Responses

  /** An instant (`DateTime<Utc>`): carried along, never inspected. */
  datatype TimeStamp = TimeStamp(instant: int)

  /** The concatenation information element of a part's user-data header. */
  datatype Concatenation = Concatenation(referenceNumber: byte, maximumNumber: byte, sequenceNumber: byte)

  datatype Header = Header(concatenatedMessage: Option<Concatenation>)

  /** One received part: its text, its sender's number, when it was sent, and
      its user-data header. */
  datatype Part = Part(data: string, senderNumber: string, timeStamp: TimeStamp, header: Option<Header>)

  /** A reassembled message. */
  datatype Message = Message(sender: string, timeStamp: TimeStamp, contents: string)

  /** The parts of one message received so far: one slot per part, and how
      many parts have been added. */
  datatype PartialMessage = PartialMessage(
    referenceNumber: byte,
    sender: string,
    timeStamp: TimeStamp,
    contents: seq<Option<string>>,
    totalParts: byte,
    foundParts: byte)

  datatype AdditionResult = Incomplete(partial: PartialMessage) | Complete(message: Message)

  // ---------------------------------------------------------------------
  // Reassembly keys

  /** The key under which the parts of one message are collected:
      the sender, a colon, and the reference number in decimal. */
  function GetHashForMessage(sender: string, referenceNumber: byte): string {
    sender + ":" + Decimal.Render(referenceNumber)
  }

  function GetHashString(pm: PartialMessage): string {
    GetHashForMessage(pm.sender, pm.referenceNumber)
  }

  /** A colon followed by digits splits a text in only one way, because no
      digit is a colon. */
  lemma SplitAtLastColon(s1: string, d1: string, s2: string, d2: string)
    requires Decimal.AllDigits(d1) && Decimal.AllDigits(d2)
    requires s1 + ":" + d1 == s2 + ":" + d2
    ensures s1 == s2 && d1 == d2
  {
    var x := s1 + ":" + d1;
    assert x[|s1|] == ':' && x[|s2|] == ':';
    if |d1| != |d2| {
      assert false;
    }
    assert s1 == x[..|s1|] && s2 == x[..|s2|];
    assert d1 == x[|s1| + 1..] && d2 == x[|s2| + 1..];
  }

  /** Different senders or reference numbers never share a key, so parts of
      different messages are never mixed. */
  lemma KeyInjective(s1: string, r1: byte, s2: string, r2: byte)
    requires GetHashForMessage(s1, r1) == GetHashForMessage(s2, r2)
    ensures s1 == s2 && r1 == r2
  {
    SplitAtLastColon(s1, Decimal.Render(r1), s2, Decimal.Render(r2));
    Decimal.RenderInjective(r1, r2);
  }

  // ---------------------------------------------------------------------
  // Slots

  /** The number of filled slots. */
  function Filled(slots: seq<Option<string>>): (n: nat)
    ensures n <= |slots|
  {
    if slots == [] then 0
    else Filled(slots[..|slots| - 1]) + (if slots[|slots| - 1].Some? then 1 else 0)
  }

  predicate AllFilled(slots: seq<Option<string>>) {
    forall k :: 0 <= k < |slots| ==> slots[k].Some?
  }

  lemma {:induction false} FillOne(slots: seq<Option<string>>, k: nat, text: string)
    requires k < |slots| && slots[k].None?
    ensures Filled(slots[k := Some(text)]) == Filled(slots) + 1
  {
    var last := |slots| - 1;
    var t := slots[k := Some(text)];
    assert t[..last] == if k == last then slots[..last] else slots[..last][k := Some(text)];
    if k < last {
      FillOne(slots[..last], k, text);
    }
  }

  /** All slots are filled exactly when the count of filled slots is the
      number of slots. */
  lemma {:induction false} FilledAll(slots: seq<Option<string>>)
    ensures Filled(slots) == |slots| <==> AllFilled(slots)
  {
    if slots != [] {
      var front := slots[..|slots| - 1];
      FilledAll(front);
      if AllFilled(slots) {
        assert AllFilled(front);
      }
      if AllFilled(front) && slots[|slots| - 1].Some? {
        assert forall k :: 0 <= k < |slots| ==> slots[k].Some? by {
          forall k | 0 <= k < |slots| ensures slots[k].Some? {
            if k < |slots| - 1 { assert slots[k] == front[k]; }
          }
        }
      }
    }
  }

  /** The slots' texts in slot order; the left fold of the Rust code, which
      unwraps every slot. */
  function Join(slots: seq<Option<string>>): string
    requires AllFilled(slots)
  {
    if slots == [] then "" else Join(slots[..|slots| - 1]) + slots[|slots| - 1].value
  }

  /** `get_or_insert`: a filled slot keeps its text. */
  function Insert(slots: seq<Option<string>>, k: nat, text: string): (r: seq<Option<string>>)
    requires k < |slots|
    ensures |r| == |slots|
    ensures r[k] == if slots[k].Some? then slots[k] else Some(text)
    ensures forall i :: 0 <= i < |slots| && i != k ==> r[i] == slots[i]
  {
    if slots[k].Some? then slots else slots[k := Some(text)]
  }

  // ---------------------------------------------------------------------
  // The accumulator

  /** `PartialMessage::new`: the first part to arrive, placed in slot
      `partIndex` of `totalParts` empty slots. */
  function New(referenceNumber: byte, totalParts: byte, partIndex: byte, firstPart: Part)
    : (pm: PartialMessage)
    requires partIndex < totalParts
    ensures |pm.contents| == totalParts == pm.totalParts && pm.foundParts == 1
    ensures pm.contents[partIndex] == Some(firstPart.data)
    ensures forall k :: 0 <= k < totalParts && k != partIndex ==> pm.contents[k].None?
    ensures pm.referenceNumber == referenceNumber
    ensures pm.sender == firstPart.senderNumber && pm.timeStamp == firstPart.timeStamp
    ensures Filled(pm.contents) == 1
  {
    var empty := seq(totalParts, _ => None);
    FillOne(empty, partIndex, firstPart.data);
    assert Filled(empty) == 0 by { EmptyUnfilled(empty); }
    PartialMessage(referenceNumber, firstPart.senderNumber, firstPart.timeStamp,
                   empty[partIndex := Some(firstPart.data)], totalParts, 1)
  }

  lemma {:induction false} EmptyUnfilled(slots: seq<Option<string>>)
    requires forall k :: 0 <= k < |slots| ==> slots[k].None?
    ensures Filled(slots) == 0
  {
    if slots != [] {
      EmptyUnfilled(slots[..|slots| - 1]);
    }
  }

  /** The sequence number a part's header carries, when it carries one. */
  predicate Numbered(msg: Part) {
    msg.header.Some? && msg.header.value.concatenatedMessage.Some?
  }

  function SequenceNumber(msg: Part): byte
    requires Numbered(msg)
  {
    msg.header.value.concatenatedMessage.value.sequenceNumber
  }

  function ReferenceNumber(msg: Part): byte
    requires Numbered(msg)
  {
    msg.header.value.concatenatedMessage.value.referenceNumber
  }

  /** When the addition at slot `k` can run to the end without a panic: the
      slot exists, the part count does not overflow a `u8`, and if this part
      completes the message every slot holds a text to unwrap. */
  predicate AddAtSafe(pm: PartialMessage, k: nat, text: string) {
    k < |pm.contents| && pm.foundParts < 255 &&
    (pm.foundParts + 1 == pm.totalParts ==> AllFilled(Insert(pm.contents, k, text)))
  }

  /** Adding the text of one part in slot `k`: the slot keeps a text it
      already has, the count goes up by one whatever happened to the slot,
      and the message is complete when the count reaches the total. */
  function AddAt(pm: PartialMessage, k: nat, text: string): (r: AdditionResult)
    requires AddAtSafe(pm, k, text)
    ensures r.Complete? <==> pm.foundParts + 1 == pm.totalParts
    ensures r.Incomplete? ==>
      r.partial == pm.(contents := Insert(pm.contents, k, text), foundParts := pm.foundParts + 1)
    ensures r.Complete? ==>
      r.message.sender == pm.sender && r.message.timeStamp == pm.timeStamp &&
      r.message.contents == Join(Insert(pm.contents, k, text))
  {
    var slots := Insert(pm.contents, k, text);
    var found := pm.foundParts + 1;
    if pm.totalParts == found then Complete(Message(pm.sender, pm.timeStamp, Join(slots)))
    else Incomplete(pm.(contents := slots, foundParts := found))
  }

  /** `add_part` as written: the slot is the part's sequence number itself. */
  function AddPart(pm: PartialMessage, msg: Part): (r: AdditionResult)
    requires Numbered(msg)
    requires AddAtSafe(pm, SequenceNumber(msg), msg.data)
    ensures r.Complete? <==> pm.foundParts + 1 == pm.totalParts
    ensures r.Incomplete? ==> |r.partial.contents| == |pm.contents|
    ensures r.Incomplete? ==>
      r.partial.foundParts == pm.foundParts + 1 &&
      r.partial.contents[SequenceNumber(msg)] ==
        (if pm.contents[SequenceNumber(msg)].Some? then pm.contents[SequenceNumber(msg)] else Some(msg.data)) &&
      (forall i :: 0 <= i < |pm.contents| && i != SequenceNumber(msg) ==> r.partial.contents[i] == pm.contents[i])
  {
    AddAt(pm, SequenceNumber(msg), msg.data)
  }

  /** The bookkeeping every accumulator keeps: one slot per part, and at
      least as many parts counted as slots filled. */
  predicate Tracked(pm: PartialMessage) {
    |pm.contents| == pm.totalParts && Filled(pm.contents) <= pm.foundParts
  }

  /** The count is exact while no slot is filled twice. */
  predicate Exact(pm: PartialMessage) {
    |pm.contents| == pm.totalParts && Filled(pm.contents) == pm.foundParts
  }

  lemma NewExact(referenceNumber: byte, totalParts: byte, partIndex: byte, firstPart: Part)
    requires partIndex < totalParts
    ensures Exact(New(referenceNumber, totalParts, partIndex, firstPart))
  {
  }

  /** Adding a part keeps the bookkeeping, duplicates included. */
  lemma AddAtTracked(pm: PartialMessage, k: nat, text: string)
    requires Tracked(pm) && AddAtSafe(pm, k, text)
    ensures AddAt(pm, k, text).Incomplete? ==> Tracked(AddAt(pm, k, text).partial)
  {
    if pm.contents[k].None? {
      FillOne(pm.contents, k, text);
    }
  }

  /** A part that lands in an empty slot keeps the count exact; and when it
      is the last one counted, every slot is filled, so the join cannot fail. */
  lemma AddAtFresh(pm: PartialMessage, k: nat, text: string)
    requires Exact(pm) && k < |pm.contents| && pm.contents[k].None? && pm.foundParts < 255
    ensures AddAtSafe(pm, k, text)
    ensures AddAt(pm, k, text).Incomplete? ==> Exact(AddAt(pm, k, text).partial)
  {
    FillOne(pm.contents, k, text);
    FilledAll(Insert(pm.contents, k, text));
  }

  // ---------------------------------------------------------------------
  // Sequence numbers count from 1

  /** The addition `add_part` performs can run to its end. */
  predicate AddPartSafe(pm: PartialMessage, msg: Part) {
    Numbered(msg) && AddAtSafe(pm, SequenceNumber(msg), msg.data)
  }

  /** Whether `p` is part `sequence` of a two-part message with reference
      `reference`. */
  predicate PartOfTwo(p: Part, reference: byte, sequence: byte) {
    p.header == Some(Header(Some(Concatenation(reference, 2, sequence))))
  }

  /** Sequence numbers run from 1 to the number of parts. Whatever the two
      parts' texts, senders and time stamps, and whether the caller of `new`
      passes the first part's sequence number or that number less one, no
      two-part message is ever reassembled: in each arrival order either
      `new`'s assertion fails or `add_part` indexes past the slots or
      unwraps an empty slot. */
  lemma TwoPartMessageFails(offset: nat, reference: byte, first: Part, second: Part)
    requires offset <= 1
    requires PartOfTwo(first, reference, 1) && PartOfTwo(second, reference, 2)
    ensures !(1 - offset < 2 && AddPartSafe(New(reference, 2, 1 - offset, first), second))
    ensures !(2 - offset < 2 && AddPartSafe(New(reference, 2, 2 - offset, second), first))
  {
    if offset == 1 {
      var pm := New(reference, 2, 1, second);
      assert Insert(pm.contents, 1, first.data)[0].None?;
    }
  }

  /** `add_part` with the sequence number counted from 1, as the
      concatenation element defines it. */
  function AddPartFixed(pm: PartialMessage, msg: Part): (r: AdditionResult)
    requires Numbered(msg) && 1 <= SequenceNumber(msg)
    requires AddAtSafe(pm, SequenceNumber(msg) - 1, msg.data)
    ensures r.Complete? <==> pm.foundParts + 1 == pm.totalParts
    ensures r.Incomplete? ==> r.partial.foundParts == pm.foundParts + 1
  {
    AddAt(pm, SequenceNumber(msg) - 1, msg.data)
  }

  /** The parts of one message, each numbered once from 1 to their count. */
  predicate WellNumbered(parts: seq<Part>) {
    2 <= |parts| <= 255 &&
    (forall j :: 0 <= j < |parts| ==> Numbered(parts[j]) && 1 <= SequenceNumber(parts[j]) <= |parts|) &&
    (forall i, j :: 0 <= i < j < |parts| ==> SequenceNumber(parts[i]) != SequenceNumber(parts[j]))
  }

  /** The text of the part numbered `s`. */
  function PartData(parts: seq<Part>, s: nat): string
    requires forall j :: 0 <= j < |parts| ==> Numbered(parts[j])
  {
    if parts == [] then ""
    else if SequenceNumber(parts[0]) == s then parts[0].data
    else PartData(parts[1..], s)
  }

  lemma {:induction false} PartDataOf(parts: seq<Part>, j: nat)
    requires j < |parts| && forall i :: 0 <= i < |parts| ==> Numbered(parts[i])
    requires forall i :: 0 <= i < |parts| && i != j ==> SequenceNumber(parts[i]) != SequenceNumber(parts[j])
    ensures PartData(parts, SequenceNumber(parts[j])) == parts[j].data
  {
    if j > 0 {
      PartDataOf(parts[1..], j - 1);
    }
  }

  /** The sequence numbers among `parts`. */
  function Fed(parts: seq<Part>): set<nat>
    requires forall j :: 0 <= j < |parts| ==> Numbered(parts[j])
  {
    if parts == [] then {} else Fed(parts[..|parts| - 1]) + {SequenceNumber(parts[|parts| - 1]) as nat}
  }

  lemma {:induction false} NotFed(parts: seq<Part>, n: nat)
    requires n < |parts| && forall j :: 0 <= j < |parts| ==> Numbered(parts[j])
    requires forall j :: 0 <= j < n ==> SequenceNumber(parts[j]) != SequenceNumber(parts[n])
    ensures SequenceNumber(parts[n]) as nat !in Fed(parts[..n])
    decreases n
  {
    if n > 0 {
      assert parts[..n][..n - 1] == parts[..n - 1];
      NotFed(parts[..n - 1] + [parts[n]], n - 1);
      assert (parts[..n - 1] + [parts[n]])[..n - 1] == parts[..n - 1];
    }
  }

  /** The texts of the parts numbered 1 to `s`, in that order. */
  function InSequence(parts: seq<Part>, s: nat): string
    requires forall j :: 0 <= j < |parts| ==> Numbered(parts[j])
  {
    if s == 0 then "" else InSequence(parts, s - 1) + PartData(parts, s)
  }

  /** What reassembly keeps after the first `n` parts of `parts` have been
      added: the count is `n` and exact, and each filled slot holds the text
      of a part already added, the part whose number is one past the slot. */
  predicate Collected(pm: PartialMessage, parts: seq<Part>, n: nat)
    requires WellNumbered(parts) && n <= |parts|
  {
    Exact(pm) && pm.totalParts as int == |parts| && pm.foundParts as int == n &&
    forall k :: 0 <= k < |parts| && pm.contents[k].Some? ==>
      k + 1 in Fed(parts[..n]) && pm.contents[k] == Some(PartData(parts, k + 1))
  }

  lemma {:induction false} JoinInSequence(slots: seq<Option<string>>, parts: seq<Part>)
    requires forall j :: 0 <= j < |parts| ==> Numbered(parts[j])
    requires forall k :: 0 <= k < |slots| ==> slots[k] == Some(PartData(parts, k + 1))
    ensures AllFilled(slots) && Join(slots) == InSequence(parts, |slots|)
  {
    if slots != [] {
      JoinInSequence(slots[..|slots| - 1], parts);
    }
  }

  /** The first part starts the collection. */
  lemma CollectFirst(parts: seq<Part>)
    requires WellNumbered(parts)
    ensures var pm := New(ReferenceNumber(parts[0]), |parts| as byte, SequenceNumber(parts[0]) - 1, parts[0]);
      Collected(pm, parts, 1)
  {
    var pm := New(ReferenceNumber(parts[0]), |parts| as byte, SequenceNumber(parts[0]) - 1, parts[0]);
    assert parts[..1][..0] == [];
    assert Fed(parts[..1]) == {SequenceNumber(parts[0]) as nat};
    PartDataOf(parts, 0);
  }

  /** Adding part `n` (not the last) keeps the collection. */
  lemma {:induction false} CollectNext(pm: PartialMessage, parts: seq<Part>, n: nat)
    requires WellNumbered(parts) && 1 <= n < |parts| && Collected(pm, parts, n)
    ensures var k := SequenceNumber(parts[n]) - 1;
      k < |pm.contents| && pm.contents[k].None? && AddAtSafe(pm, k, parts[n].data)
    ensures n + 1 < |parts| ==>
      AddPartFixed(pm, parts[n]).Incomplete? && Collected(AddPartFixed(pm, parts[n]).partial, parts, n + 1)
    ensures n + 1 == |parts| ==>
      AddPartFixed(pm, parts[n]) == Complete(Message(pm.sender, pm.timeStamp, InSequence(parts, |parts|)))
  {
    var k := SequenceNumber(parts[n]) - 1;
    FreshSlot(pm, parts, n);
    SlotsKept(pm, parts, n);
    if n + 1 == |parts| {
      var slots := Insert(pm.contents, k, parts[n].data);
      FillOne(pm.contents, k, parts[n].data);
      FilledAll(slots);
      JoinInSequence(slots, parts);
    }
  }

  /** The slot of part `n` is still empty: no part before it had its
      number. */
  lemma FreshSlot(pm: PartialMessage, parts: seq<Part>, n: nat)
    requires WellNumbered(parts) && 1 <= n < |parts| && Collected(pm, parts, n)
    ensures var k := SequenceNumber(parts[n]) - 1;
      k < |pm.contents| && pm.contents[k].None? && AddAtSafe(pm, k, parts[n].data) &&
      (AddAt(pm, k, parts[n].data).Incomplete? ==> Exact(AddAt(pm, k, parts[n].data).partial))
  {
    NotFed(parts, n);
    AddAtFresh(pm, SequenceNumber(parts[n]) - 1, parts[n].data);
  }

  /** The numbers among the first `n + 1` parts are those among the first
      `n` and that of part `n`. */
  lemma FedStep(parts: seq<Part>, n: nat)
    requires n < |parts| && forall j :: 0 <= j < |parts| ==> Numbered(parts[j])
    ensures Fed(parts[..n + 1]) == Fed(parts[..n]) + {SequenceNumber(parts[n]) as nat}
  {
    assert parts[..n + 1][..n] == parts[..n];
  }

  /** Once part `n` is in its slot, every filled slot holds the text of a
      part among the first `n + 1`, the one numbered one past the slot. */
  lemma {:induction false} SlotsKept(pm: PartialMessage, parts: seq<Part>, n: nat)
    requires WellNumbered(parts) && 1 <= n < |parts| && Collected(pm, parts, n)
    requires SequenceNumber(parts[n]) - 1 < |pm.contents| && pm.contents[SequenceNumber(parts[n]) - 1].None?
    ensures var slots := Insert(pm.contents, SequenceNumber(parts[n]) - 1, parts[n].data);
      forall i :: 0 <= i < |parts| && slots[i].Some? ==>
        i + 1 in Fed(parts[..n + 1]) && slots[i] == Some(PartData(parts, i + 1))
  {
    var k := SequenceNumber(parts[n]) - 1;
    var slots := Insert(pm.contents, k, parts[n].data);
    FedStep(parts, n);
    PartDataOf(parts, n);
    forall i | 0 <= i < |parts| && slots[i].Some?
      ensures i + 1 in Fed(parts[..n + 1]) && slots[i] == Some(PartData(parts, i + 1))
    {
      if i != k {
        assert slots[i] == pm.contents[i];
      }
    }
  }

  /** Feeding parts `n` onwards to a collection of the first `n`. */
  function Feed(pm: PartialMessage, parts: seq<Part>, n: nat): AdditionResult
    requires WellNumbered(parts) && 1 <= n < |parts| && Collected(pm, parts, n)
    decreases |parts| - n
  {
    CollectNext(pm, parts, n);
    var r := AddPartFixed(pm, parts[n]);
    if n + 1 == |parts| then r else Feed(r.partial, parts, n + 1)
  }

  /** Reassembling a message from all its parts in arrival order: the first
      starts the collection, the rest are added one by one. */
  function Reassemble(parts: seq<Part>): AdditionResult
    requires WellNumbered(parts)
  {
    CollectFirst(parts);
    Feed(New(ReferenceNumber(parts[0]), |parts| as byte, SequenceNumber(parts[0]) - 1, parts[0]), parts, 1)
  }

  lemma {:induction false} FeedCompletes(pm: PartialMessage, parts: seq<Part>, n: nat)
    requires WellNumbered(parts) && 1 <= n < |parts| && Collected(pm, parts, n)
    ensures Feed(pm, parts, n) == Complete(Message(pm.sender, pm.timeStamp, InSequence(parts, |parts|)))
    decreases |parts| - n
  {
    if n + 1 < |parts| {
      var next := FeedNext(pm, parts, n);
      FeedCompletes(next, parts, n + 1);
    } else {
      FeedLast(pm, parts, n);
    }
  }

  /** The last part completes the message. */
  lemma FeedLast(pm: PartialMessage, parts: seq<Part>, n: nat)
    requires WellNumbered(parts) && 1 <= n && n + 1 == |parts| && Collected(pm, parts, n)
    ensures Feed(pm, parts, n) == Complete(Message(pm.sender, pm.timeStamp, InSequence(parts, |parts|)))
  {
    CollectNext(pm, parts, n);
  }

  /** Feeding from part `n` on, when it is not the last, is feeding from
      part `n + 1` on to the collection part `n` joined, which keeps the
      sender and the time stamp. */
  lemma FeedNext(pm: PartialMessage, parts: seq<Part>, n: nat) returns (next: PartialMessage)
    requires WellNumbered(parts) && 1 <= n && n + 1 < |parts| && Collected(pm, parts, n)
    ensures Collected(next, parts, n + 1)
    ensures next.sender == pm.sender && next.timeStamp == pm.timeStamp
    ensures Feed(pm, parts, n) == Feed(next, parts, n + 1)
  {
    CollectNext(pm, parts, n);
    next := AddPartFixed(pm, parts[n]).partial;
  }

  /** With sequence numbers counted from 1, the parts of a message arriving
      in any order reassemble into their texts in sequence order, from the
      sender and at the time of the part that arrived first. */
  lemma ReassembleInAnyOrder(parts: seq<Part>)
    requires WellNumbered(parts)
    ensures Reassemble(parts) ==
      Complete(Message(parts[0].senderNumber, parts[0].timeStamp, InSequence(parts, |parts|)))
  {
    CollectFirst(parts);
    FeedCompletes(New(ReferenceNumber(parts[0]), |parts| as byte, SequenceNumber(parts[0]) - 1, parts[0]), parts, 1);
  }

  // ---------------------------------------------------------------------
  // Loading stored messages

  /** `load_text_messages`: ask for every stored message, wait for the reply
      the serial thread delivers (`reply`), and parse it with the list
      parser, which this model does not define. The reply must answer the
      list command, and the list command must reach the channel: both are
      asserted or unwrapped. */
  function LoadTextMessages<M>(
    p: Commands.Pipeline,
    callback: Commands.Callback,
    reply: (Commands.CommandType, seq<byte>),
    parseList: seq<byte> -> Responses.Parsed<Responses.ListSmsResponse<M>>)
    : (r: (Commands.Pipeline, Result<(), ()>))
    requires p.connected
    requires reply.0 == Commands.ListSMS
    ensures |r.0.queue| == |p.queue| + 1 && r.0.queue[..|p.queue|] == p.queue
    ensures var sent := r.0.queue[|p.queue|];
      Commands.Parse(sent.bytes) == Some(Commands.ListMessages(4)) && sent.sender == Some(callback)
    ensures r.1.Ok? <==> parseList(reply.1).Done?
  {
    var issued := Commands.Perform(p, Commands.CallListSms(Commands.All, Some(callback)));
    Commands.CommandsForCarry(Commands.CallListSms(Commands.All, Some(callback)));
    assert issued.after.queue[|p.queue|..] == Commands.CommandsFor(Commands.CallListSms(Commands.All, Some(callback)));
    match parseList(reply.1)
    case Done(_, listOutput) =>
      if listOutput.code != Responses.CodeOk then (issued.after, Err(())) else (issued.after, Ok(()))
    case Failed => (issued.after, Err(()))
  }
}
