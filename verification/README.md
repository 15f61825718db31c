# A verified model of the phone's GSM core and its view renderer

This project models, in Dafny, the core of a small Raspberry-Pi phone. It
covers two areas: the GSM modem layer and the display's view buffers.

**GSM modem layer.**
- `Message::from_string` decodes SMS-DELIVER PDUs written in hex text
  (module `Pdu`). It uses these readers:
  - the hex octet reader (`Hex`);
  - the swapped-nibble address and time-stamp digits (`SemiOctets`);
  - the unpacker for the 7-bit default alphabet (`GsmAlphabet`).
- The `Pipeline` builds the AT commands and queues them on its channel of
  `RawCommand`s (`Commands`). No code in the source receives from that
  channel; the serial thread below takes its own `Command` type.
- The serial thread writes commands, reads carriage-return terminated
  chunks, gathers them into replies and hands each reply to the command's
  callback (`Serial`).
- The parsers for result codes, message status and the `+CMGR:` reply
  (`Responses`).
- Reassembly of concatenated messages and `load_text_messages` (`Sms`).

**Display.**
- Colours, points and rectangles (`Base`).
- The row-major view buffer, its pixel-copying `render`, and the view tree
  whose `render` draws subviews on top of their parent (`Views`).

Shared definitions live in `Common`:
- `Option` and `Result`;
- bytes, CR and LF;
- ASCII text;
- two sequence lemmas.

`Decimal` renders numbers the way `format!("{}")` does. `Utf8` defines
which byte strings `String::from_utf8` accepts.

Modelling conventions:
- A panic of the source (`unwrap`, `expect`, `assert!`, an index out of
  range, `u8` overflow) becomes a precondition.
- Every other failure is modelled as the `Err` or `None` the source
  returns.
- Each decoder comes with an encoder it inverts. The round-trip lemmas
  (`Pdu.FromStringRoundTrip`, `SemiOctets.RoundTrip`,
  `GsmAlphabet.DecodePackText`, `Hex.OctetRoundTrip`,
  `Commands.NumeralRoundTrip`) relate the two for all inputs.
- Each command builder comes with the modem's reading of the line it
  builds (`Commands.Parse`).
- Each loop has a functional definition that it provably computes.

## Model

| member | source | states |
|---|---|---|
| Decimal.Render | src/gsm/command.rs:121-128 | The decimal text of a number. It is non-empty, all digits and ASCII, and has no leading zero. It is one digit exactly when the number is below 10. |
| Decimal.ValueOfRender | src/gsm/command.rs:121-128 | Reading the decimal text of `n` back gives `n`. |
| Decimal.RenderInjective | src/gsm/command.rs:121-128 | Distinct numbers have distinct decimal texts. |
| Utf8.ConcatValid | src/gsm/mod.rs:169 | Appending valid UTF-8 to valid UTF-8 stays valid, so the gathered reply is always a `String`. |
| Hex.GetHexOctet | src/gsm/pdu.rs:138-146 | `None` exactly when fewer than two characters remain. Otherwise exactly two characters are consumed, they spell the octet returned (two digits of either case, or '+' and one digit), and the rest is returned untouched. A lone non-ASCII character is a panic, because `len()` counts UTF-8 bytes, and is excluded by the precondition. |
| Hex.SpellingRoundTrip | src/gsm/pdu.rs:138-146 | Every spelling of an octet, in upper, lower or mixed case or as '+' and one digit, reads back as that octet, whatever follows. |
| Hex.OctetRoundTrip | src/gsm/pdu.rs:138-146 | Reading the two-digit text of any octet gives the octet back, whatever follows it. |
| Hex.OctetsRoundTrip | src/gsm/pdu.rs:107-108 | Reading `n` octets from the text of `n` octets gives them back, whatever follows. |
| SemiOctets.GetDecimalOctets | src/gsm/pdu.rs:148-183 | Zero octets give the empty string and the whole input. The result is `None` exactly when fewer than `2n` characters remain. Otherwise the text after `2n` characters is returned, with `2n` digits, or `2n-1` when the last pair starts with the filler 'F'. |
| SemiOctets.ReadDecimalOctets | src/gsm/pdu.rs:148-183 | The iterator loop, including its early `break` on a final 'F' and its two `None` exits, computes `GetDecimalOctets`. |
| SemiOctets.SwappedIsPairs | src/gsm/pdu.rs:157-180 | The digits the loop pushes pair by pair equal the swapped pairs, with the last pair read with its filler dropped. |
| SemiOctets.RoundTrip | src/gsm/pdu.rs:148-183 | Reading the semi-octet encoding of any representable digit string gives the digits back and consumes exactly the encoding. |
| GsmAlphabet.MaskedLow | src/gsm/pdu.rs:109 | The source's mask-and-shift at stage `r` gives the low `7 - r` bits of the octet, moved up by `r`. |
| GsmAlphabet.MaskedCarry | src/gsm/pdu.rs:112 | The source's inverted mask and right shift give the top `r + 1` bits of the octet, carried into the next septet. |
| GsmAlphabet.DecodeStage | src/gsm/pdu.rs:109-112 | One stage's table index is the new low bits plus the carry, and the new carry is the octet's top bits. |
| GsmAlphabet.CarryStep | src/gsm/pdu.rs:100-105 | At stage 7 the carry alone is the next septet, nothing is read, and the carry restarts at 0. |
| GsmAlphabet.ReadStep | src/gsm/pdu.rs:107-113 | At stages 0 to 6, one octet is read and the character pushed is the next packed septet's. |
| GsmAlphabet.DecodeCycle | src/gsm/pdu.rs:92-117 | The 8-stage loop outputs one character per septet: character `i` is the table entry of septet `i`. It consumes exactly `length - length / 8` octets. |
| GsmAlphabet.ParseGsmAlphabet | src/gsm/pdu.rs:92-117 | `parse_gsm_alphabet` yields exactly `length` characters, which decode the packed septets. Every index stays below 128. |
| GsmAlphabet.UnpackPack | src/gsm/pdu.rs:98-114 | Unpacking the packing of section 6.1.2.1.1 of 3GPP TS 23.038 gives back every septet. |
| GsmAlphabet.DecodePackText | src/gsm/pdu.rs:92-117 | Decoding the hex text of packed septets gives their characters, whatever follows the text. |
| GsmAlphabet.SeptetsOf | src/gsm/pdu.rs:79-90 | Every text drawn from the default alphabet has septets whose characters, by the table, are the text. |
| Pdu.DigitOctets | src/gsm/pdu.rs:119-136 | The digit octets an address reads. For a sender, the digit count is halved and rounded up, with at least one octet. For a service centre, the length octet less the type octet. |
| Pdu.ParseNumber | src/gsm/pdu.rs:119-136 | Fails exactly when the header or the digit octets run past the input. On success it consumes the header plus `DigitOctets` octets and returns their semi-octet digits. |
| Pdu.AddressRoundTrip | src/gsm/pdu.rs:119-136 | An address field with type 145 reads back as its digits and leaves what follows untouched. |
| Pdu.FromString | src/gsm/pdu.rs:14-65 | Fields are read in SMS-DELIVER order. Any input shorter than the shortest PDU is `Err`. |
| Pdu.Typed | src/gsm/pdu.rs:21-29 | After the service centre, the message type and the sender. The service centre read earlier is kept. |
| Pdu.Fields | src/gsm/pdu.rs:31-39 | Protocol identifier and coding scheme. The fields read earlier are kept. |
| Pdu.Stamped | src/gsm/pdu.rs:41-54 | The timestamp has 13 or 14 digits, then the length and the user data. No earlier field changes. |
| Pdu.StampedRoundTrip | src/gsm/pdu.rs:41-54 | Timestamp and user data read back from their encoding. |
| Pdu.FieldsRoundTrip | src/gsm/pdu.rs:31-39 | Protocol identifier and coding scheme read back. |
| Pdu.TypedRoundTrip | src/gsm/pdu.rs:21-29 | Message type and sender read back. |
| Pdu.FromStringRoundTrip | src/gsm/pdu.rs:14-65 | `from_string` inverts the encoder: any encodable message, followed by anything, decodes to itself. |
| Commands.StoreCode | src/gsm/command.rs:170-172 | The store `All` has the value 4. |
| Commands.Render | src/gsm/command.rs:39-47 | The written bytes are the command's bytes, followed by one carriage return exactly when `write_cr` is set. |
| Commands.GetCallback | src/gsm/command.rs:32-37 | A callback is returned exactly when the command has a sender, paired with the command's kind. |
| Commands.NumeralRoundTrip | src/gsm/command.rs:121-128 | The numeral a command line carries reads back as its number. |
| Commands.AttentionReads | src/gsm/command.rs:65-72 | `attention` builds a CR-terminated line the modem reads as `AT`, with the caller's sender and kind. |
| Commands.HangupReads | src/gsm/command.rs:74-82 | `hangup` builds a line read as `ATH`. |
| Commands.DialReads | src/gsm/command.rs:84-92 | `dial` builds a line read as a call to exactly the number given. |
| Commands.SignalQualityReads | src/gsm/command.rs:94-101 | `signal_quality` builds a line read as `AT+CSQ?`. |
| Commands.OperatorSelectReads | src/gsm/command.rs:103-110 | `operator_select` builds a line read as `AT+COPS?`. |
| Commands.NetworkSystemModeReads | src/gsm/command.rs:112-119 | `network_system_mode` builds a line read as `AT+CNSMOD?`. |
| Commands.ReadSmsReads | src/gsm/command.rs:121-128 | `read_sms` builds a line read as a read of exactly the index given. |
| Commands.ListSmsReads | src/gsm/command.rs:130-137 | `list_sms` builds a line read as a listing of store 4. |
| Commands.SubmitLengthReads | src/gsm/command.rs:143-148 | The first line of `send_sms` announces half the PDU's length and has no callback. |
| Commands.SubmitPduReads | src/gsm/command.rs:150-155 | The second line of `send_sms` is the PDU, ended by Ctrl-Z, with no carriage return, carrying the callback. |
| Commands.GetSmscReads | src/gsm/command.rs:158-165 | `get_smsc` builds a line read as `AT+CSCA?`. |
| Commands.SendCommand | src/gsm/command.rs:61-63 | A connected channel appends the command and succeeds. A disconnected one hands the command back and changes nothing. |
| Commands.SendSms | src/gsm/command.rs:139-156 | Queues exactly the length announcement, then the PDU, and succeeds. |
| Commands.CommandsForCarry | src/gsm/command.rs:65-165 | The lines of every pipeline operation read back as the operation's requests, one per line. |
| Commands.Perform | src/gsm/command.rs:61-165 | On a connected channel, an operation succeeds and appends its commands. On a disconnected one it fails and queues nothing. |
| Commands.Run | src/gsm/command.rs:61-63 | A sequence of operations only ever extends the queue. |
| Commands.RunAppends | src/gsm/command.rs:61-63 | The queue grows by the operations' commands in call order, and by nothing else. |
| Commands.RunInOrder | src/gsm/command.rs:61-165 | What a sequence of operations puts on the channel reads back as their requests, in call order. |
| Commands.RunDisconnected | src/gsm/command.rs:61-63 | A disconnected channel takes nothing, whatever is called. |
| Responses.ParseResponseCode | src/gsm/responses.rs:11-20 | `Ok` exactly on the single byte `'0'`. Longer input is an error. |
| Responses.ParseMessageStatus | src/gsm/responses.rs:29-41 | `Ok` exactly on one digit `'0'` to `'3'`. Longer input is an error. |
| Responses.CodeRoundTrip | src/gsm/responses.rs:11-20 | A code's numeric form parses to it, and only that form does. |
| Responses.StatusRoundTrip | src/gsm/responses.rs:29-41 | A status's digit parses to it, and only that digit does. |
| Responses.TakeUntil | src/gsm/responses.rs:55-57 | `take_until_and_consume!`: fails exactly when the delimiter is absent. Otherwise it splits at its first occurrence. |
| Responses.TakeUntilFirst | src/gsm/responses.rs:55-57 | A front free of the delimiter is exactly what the split returns. |
| Responses.ParseReadSmsResponse | src/gsm/responses.rs:53-68 | Input without the `+CMGR: ` tag fails. A parsed reply consumes everything and carries the code `0`. |
| Responses.ReadSmsComplete | src/gsm/responses.rs:53-68 | Every well-formed `+CMGR:` reply parses, without panicking, to its status, its PDU and `OK`. |
| Responses.ReadSmsSound | src/gsm/responses.rs:53-68 | Every reply that parses is such a well-formed reply. |
| Sms.KeyInjective | src/gsm/sms.rs:19-21 | Different senders or reference numbers never share a key. |
| Sms.Insert | src/gsm/sms.rs:56 | `get_or_insert` keeps a filled slot's text, fills an empty one, and changes no other slot. |
| Sms.New | src/gsm/sms.rs:33-47 | Creates one slot per part, only the first part's slot filled, and a count of 1. |
| Sms.AddAt | src/gsm/sms.rs:53-71 | The count goes up by one even for a duplicate. The result is complete exactly when the count reaches the total, and then holds the slots' texts in order. |
| Sms.AddPart | src/gsm/sms.rs:53-71 | `add_part` as written: the part goes into slot `sequence_number` itself. |
| Sms.FilledAll | src/gsm/sms.rs:59-61 | All slots are filled exactly when the number of filled slots equals the number of slots. |
| Sms.AddAtTracked | src/gsm/sms.rs:56-57 | Adding keeps the filled-slot count at or below the part count, duplicates included. |
| Sms.AddAtFresh | src/gsm/sms.rs:56-61 | A part landing in an empty slot keeps the count exact. When it completes the message, no `unwrap` fails. |
| Sms.TwoPartMessageFails | src/gsm/sms.rs:33-71 | As written, no two-part message is ever reassembled, whatever its texts, senders and time stamps, in either arrival order, whether the first part is placed at its number or that number less one. |
| Sms.AddPartFixed | src/gsm/sms.rs:53-71 | `add_part` with slot `sequence_number - 1`. It is complete exactly when the count reaches the total. |
| Sms.ReassembleInAnyOrder | src/gsm/sms.rs:53-71 | With slots counted from 1, the parts of a message, each numbered once and arriving in any order, reassemble into the texts in sequence order, with the first part's sender and time. |
| Sms.LoadTextMessages | src/gsm/sms.rs:91-110 | Queues one command, read as a listing of store 4 and carrying the callback. The result is `Ok` exactly when the list reply parses. |
| Serial.ConstructorsRead | src/gsm/mod.rs:44-92 | Each `Command::new_*` makes a CR-terminated line without a callback that the modem reads as the intended request. |
| Serial.WriteCommand | src/gsm/mod.rs:230-239 | The port receives the line after what it already had, then a carriage return exactly when `write_cr` is set. |
| Serial.WriteIsRender | src/gsm/mod.rs:230-239 | The two writers agree field by field: for the same bytes and `write_cr`, this thread appends to the port exactly the bytes `RawCommand::render` returns. |
| Serial.ReadUntilCr | src/gsm/mod.rs:217 | `read_until(b'\r')` consumes up to and including the first carriage return and leaves the rest. Without one it takes everything. |
| Serial.TrimRead | src/gsm/mod.rs:219-222 | Exactly one trailing carriage return is dropped, and only when present. |
| Serial.TryRead | src/gsm/mod.rs:214-228 | A line is read exactly when a carriage return arrives. The line is the bytes before the first carriage return. Without a carriage return the read times out and the consumed bytes are dropped. |
| Serial.WriteReadBack | src/gsm/mod.rs:214-239 | A line written with its carriage return reads back as the line, and the read stops right after it. |
| Serial.Poll | src/gsm/mod.rs:148-161 | The channel is asked only when no command is outstanding. A received command is written at once. A disconnected channel ends the loop. |
| Serial.Step | src/gsm/mod.rs:147-199 | At most one command is in flight. An idle loop with an empty channel writes nothing and stays idle. A line read keeps the command outstanding after the poll. A chunk starting with LF extends the reply, and any other chunk starts a new one. A timeout delivers a non-empty reply to the outstanding callback and clears both. |
| Serial.ReplyStartsEmpty | src/gsm/mod.rs:163-170 | A reply in the verbose format of ITU-T V.250 yields an empty first chunk, which the loop as written indexes. |
| Serial.StepFixed | src/gsm/mod.rs:163-170 | With an empty chunk read as one that does not continue, the same turn without the panic. The gathered reply stays valid UTF-8. |
| Serial.StepFixedAgrees | src/gsm/mod.rs:147-199 | Wherever the loop as written does not panic, the corrected turn does exactly what it does. |
| Serial.ContinuedLines | src/gsm/mod.rs:163-170 | Chunks that each start with a line feed are appended to the reply, and the command stays outstanding. |
| Serial.ReplyDelivered | src/gsm/mod.rs:163-191 | A first line plus continued lines is gathered whole. The next timeout delivers exactly that reply to the command's callback and leaves the loop idle. |
| Base.NewAlpha | src/display/base.rs:19-28 | Keeps the intensities and alpha as given, for alpha below 256. |
| Base.New | src/display/base.rs:15-17 | Gives an opaque colour of the given intensities. |
| Base.Transparent | src/display/base.rs:11-13 | Gives black with alpha 0. |
| Base.Gray | src/display/base.rs:36-38 | Gives an opaque colour with all three intensities equal. |
| Base.Overlay | src/display/base.rs:30-34 | No blending: the result has the top colour's intensities and alpha. |
| Base.ColorDetermined | src/display/base.rs:40-42 | A colour is determined by its intensities and its alpha. |
| Base.OverlayIgnoresBelow | src/display/base.rs:30-34 | What lies below never matters, and overlaying twice is overlaying once. |
| Base.Origin | src/display/base.rs:52-54 | The point (0, 0). |
| Base.FromOrigin | src/display/base.rs:81-83 | A rectangle of the given size at the origin. |
| Views.GridIndex | src/display/view.rs:32 | The row-major index of a cell lies inside the buffer. |
| Views.GridInjective | src/display/view.rs:32 | Distinct cells have distinct row-major indices. |
| Views.NewBuffer | src/display/view.rs:15-21 | One pixel per cell, every pixel transparent. |
| Views.WritePixel | src/display/view.rs:27-34 | The pixel written takes the colour, and every other pixel is unchanged. |
| Views.GuardAdmitsOverread | src/display/view.rs:59-62 | The guard as written lets a 3 by 1 rectangle be read from a 2 by 1 source, so a read falls past the source. |
| Views.GuardAdmitsWrap | src/display/view.rs:59-62 | The guard as written also lets a row of the bounds run past the end of a source row while every read stays in the source, so the drawn row wraps into the next source row. |
| Views.GuardReadsInside | src/display/view.rs:59-62 | With the far edges checked against the source, every read lies inside it. |
| Views.NextCell | src/display/view.rs:76-84 | At the end of a row, both indices move to the start of the next row, and the loop stays inside the frame. |
| Views.PaintAt | src/display/view.rs:86 | Overlaying at the two indices draws exactly the cell the loop stands at. |
| Views.RenderTurn | src/display/view.rs:72-93 | One turn draws the next cell in row-major order and steps both indices on. |
| Views.Render | src/display/view.rs:41-96 | Under the corrected guard of the view.rs:61-62 finding, the loop takes width × height turns. Afterwards the frame shows the bounds of the source pixel for pixel, and every pixel outside the frame is unchanged. |
| Views.RenderFull | src/display/view.rs:36-39 | The whole source appears at the frame's origin, and nothing else changes. |
| Views.NewView | src/display/view.rs:113-120 | No subviews, and a transparent buffer shown whole at the origin. |
| Views.AddSubview | src/display/view.rs:137-144 | The subview, placed at the given frame and bounds, goes last. Nothing else changes. |
| Views.AddFullSubview | src/display/view.rs:130-135 | The subview's whole buffer, placed at the given origin, goes last. The parent's own frame, bounds and buffer are unchanged. |
| Views.ViewWritePixel | src/display/view.rs:146-148 | Writes the view's own buffer and nothing else. |
| Views.RenderView | src/display/view.rs:150-173 | The canvas has the frame's size. Every pixel no subview's frame covers shows the view's own buffer through its bounds. |
| Views.ViewGuardForcesOrigin | src/display/view.rs:161-165 | In `View::render`, the guard as written holds only for bounds at the origin, and there the corrected guard implies it. |
| Views.OversizedViewRefused | src/display/view.rs:161-165 | A view at the origin whose bounds are wider than its buffer passes the guard as written, with every read inside the buffer as a wrapped row, but the model does not render it. |
| Views.ShiftedViewRenderable | src/display/view.rs:161-165 | A view with shifted bounds is rendered by the model, while the guard as written refuses it. |

## Left out

- Threads, channels' blocking receive, `thread::sleep`, port configuration
  and `println!` are not modelled. A channel is the sequence of commands sent
  on it plus a flag for whether the receiver is alive. The serial loop is
  modelled one turn at a time, with the channel's and the port's answers
  as parameters.
- End of file on the port is not modelled. A read that finds no carriage
  return times out and drops what it consumed.
- nom's `Incomplete` and `Error` results are merged into one failure.
- `parse_pdu` and `parse_list_sms_response` are parameters. The user-data
  header they read is modelled as the part's concatenation element.
- The time stamp of a received part (`chrono::DateTime`) is an opaque
  value that is carried along and never inspected.
- `MessagingManager::parse_messages` has an empty body, so there is no
  reassembly loop over a list reply to model. `Sms.Reassemble` is the
  reassembly of one message's parts with `new` and the corrected
  `add_part`. The key map is represented by `Sms.KeyInjective` alone.
  `add_part` uses slot `sequence_number`, while `PartialMessage::new` takes
  a 0-based `part_index` it asserts is below `total_parts`, and section
  9.2.3.24.1 of 3GPP TS 23.040 numbers the parts of a concatenated message
  from 1. Both slot choices are modelled: see Findings.
- Sorting of completed messages by time stamp is not modelled, because
  no code for it exists.
- Errors returned by `send` are modelled (`Commands.SendCommand`), but
  the send from the serial thread to a callback is modelled as always
  delivered, because its failure is ignored (`.ok()`).
- Failed writes to the port are not modelled: `Serial.Poll` and
  `Serial.WriteCommand` assume every byte is written. In the source a
  failed write ends the serial thread with `Err`, and the byte count a
  short write returns is ignored.
- The two command paths are not connected: the pipeline's `RawCommand`s
  and the serial thread's `Command`s are separate types, and only the
  identity of a reply's receiver is modelled, as a shared callback type.
- The `usize` and `u64` products in `ViewBuffer::new` and `render`
  (`width * height`, the row-major indices) are unbounded here. An
  overflow of those products is not modelled.
- Base.Color: the `u64` intensities are not limited to 255, matching
  `new` and `gray`, which do not check them.
- The display backends (framebuffer, X11), text rendering, the UI, the
  HTTP server and the binaries are outside this model.
- Commands.Run: states only that the queue is extended. The exact
  contents are stated by `Commands.RunAppends`.
- Views.Render: models `render` with the corrected guard. The overreading
  and wrapping calls the guard as written admits are shown by
  `Views.GuardAdmitsOverread` and `Views.GuardAdmitsWrap`, not rendered.
- Views.RenderView: renders with the corrected guard, so views with bounds
  away from the origin, which fail the assertion as written
  (`Views.ViewGuardForcesOrigin`), are rendered instead of panicking.
  Conversely, views at the origin whose bounds are larger than their
  buffer are refused by `Views.Renderable`, while the source draws them
  with wrapped rows or panics on a read past the buffer
  (`Views.OversizedViewRefused`). It
  states what the canvas shows only where no subview's frame covers it;
  the covered pixels (the subviews' own rendering, drawn on top in order)
  are not stated.
- Pdu.FromString: its own contract states only the too-short error. What
  it returns on the inputs an encoder produces is stated by
  `Pdu.FromStringRoundTrip`.

## Findings

| source | as written | input that shows it | evidently intended | confidence | as-written member | corrected member |
|---|---|---|---|---|---|---|
| src/display/view.rs:61-62 | The far edges of `bounds` are checked against the destination's size instead of the source's. Calls the corrected guard refuses either read past the source (a panic) or draw rows that wrap into the next source row (`Views.GuardAdmitsWrap`). In `View::render` the destination is frame-sized, so every view with bounds away from the origin fails the assertion (`Views.ViewGuardForcesOrigin`). The model renders those views with the corrected guard. | Source 2×1, destination 3×1, frame and bounds both 3×1 at the origin: every assertion passes and the third read is index 2 of a 2-pixel source. | `bounds.origin + bounds.size <= buffer.size`, so that every read lies in the source. | high, not executed | Views.GuardAdmitsOverread | Views.GuardReadsInside |
| src/gsm/sms.rs:54-56 | `add_part` uses the concatenation element's `sequence_number`, which counts from 1, directly as the slot index. | A two-part message with sequence numbers 1 and 2. The part numbered 2 indexes slot 2 of a 2-slot vector, or the completed join unwraps an empty slot 0. | Slot `sequence_number - 1`. | high, not executed | Sms.TwoPartMessageFails | Sms.ReassembleInAnyOrder |
| src/gsm/mod.rs:165 | `data[0]` is read from every chunk, including an empty one. | A chunk that is a lone carriage return, as the first line of any reply in the verbose format of ITU-T V.250 (`\r\nOK\r\n`). It is trimmed to an empty vector, and indexing it panics. | An empty chunk starts a new, empty reply instead of panicking. | medium (harmless if the modem is kept in numeric format), not executed | Serial.ReplyStartsEmpty | Serial.StepFixed |
