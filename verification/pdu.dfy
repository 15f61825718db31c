/** `Message::from_string`: the SMS-DELIVER layout of section 9.2.2.1 of
    3GPP TS 23.040 read strictly left to right from a string of hex digits,
    as the source reads it. The source panics on a character that is not a
    hex digit, on an address type other than 145 and on user data shorter
    than its length octet announces; those are preconditions here. Every
    other shortfall of input is an `Err`. */
module Pdu {
  import opened Common
  import Hex
  import SemiOctets
  import GsmAlphabet

  /** `Message`. The source widens the four one-octet fields to `u64`; they
      are kept as the octets read. */
  datatype Message = Message(
    serviceCenter: string,
    commandType: byte,
    sender: string,
    timeStamp: string,
    protocolId: byte,
    encodingScheme: byte,
    userData: string)

  /** Type of address 145 (0x91): international number, ISDN numbering
      plan (section 9.1.2.5 of 3GPP TS 23.040), the only one accepted. */
  const International: byte := 145

  /** Octets of timestamp (TP-SCTS, section 9.2.3.11 of 3GPP TS 23.040). */
  const TimeStampOctets: nat := 7

  // ---------------------------------------------------------------------
  // Addresses: `parse_number`.

  /** Characters of address header: the length octet alone when it is 0,
      the length and type-of-address octets otherwise. */
  function AddressHeader(n: byte): nat {
    if n == 0 then 2 else 4
  }

  /** Digit octets `parse_number` reads after an address header of length
      octet `n`: for a service centre `n` counts the type octet too, for a
      sender (`decimalLength`) it counts digits, halved and rounded up. A
      zero length is turned into one digit octet in decimal mode, as
      `(0 / 2) + 1`. */
  function DigitOctets(n: byte, decimalLength: bool): (k: nat)
    ensures decimalLength ==> 1 <= k <= 128
    ensures !decimalLength ==> k == if n == 0 then 0 else n - 1
    ensures decimalLength && n > 0 ==> k == (n + 1) / 2
  {
    var m := if n == 0 then 0 else n - 1;
    if decimalLength then m / 2 + 1 else m
  }

  /** `parse_number` does not panic on `s`: its octets are hex, and a
      nonzero length is followed by type 145 when a type octet is there. */
  predicate NumberSafe(s: string) {
    Hex.OctetSafe(s) &&
    (|s| >= 2 && Hex.OctetValue(s[0], s[1]) != 0 ==>
       Hex.OctetSafe(s[2..]) && (|s| >= 4 ==> Hex.OctetValue(s[2], s[3]) == International))
  }

  /** `parse_number`: the address digits and the text after them. It fails
      exactly when the header or the digit octets run past the end of the
      input; on success it has consumed the header and `DigitOctets` octets,
      and the digits are those octets read as semi-octets. */
  function ParseNumber(s: string, decimalLength: bool): (r: Option<(string, string)>)
    requires NumberSafe(s)
    ensures |s| < 2 ==> r.None?
    ensures |s| >= 2 ==>
      var n := Hex.OctetValue(s[0], s[1]);
      var h := AddressHeader(n);
      var used := h + 2 * DigitOctets(n, decimalLength);
      (r.Some? <==> used <= |s|) &&
      (r.Some? ==> r.value.1 == s[used..] &&
                   SemiOctets.GetDecimalOctets(s[h..], DigitOctets(n, decimalLength)) == r)
  {
    match Hex.GetHexOctet(s)
    case None => None
    case Some((n, rest)) =>
      if n == 0 then SemiOctets.GetDecimalOctets(rest, DigitOctets(0, decimalLength))
      else
        match Hex.GetHexOctet(rest)
        case None => None
        case Some((_, rest')) => SemiOctets.GetDecimalOctets(rest', DigitOctets(n, decimalLength))
  }

  /** The length octet an encoder writes for digits `d`. */
  function AddressLength(d: string, decimalLength: bool): nat {
    if decimalLength then |d| else if |d| == 0 then 0 else (|d| + 1) / 2 + 1
  }

  /** Digits an address field can carry and read back unchanged. A sender
      needs at least one digit: a zero length reads one digit octet. */
  predicate Addressable(d: string, decimalLength: bool) {
    SemiOctets.Representable(d) &&
    AddressLength(d, decimalLength) < 256 &&
    (decimalLength ==> |d| >= 1)
  }

  /** An address field for digits `d`: length, type 145, semi-octets; a
      service centre without digits is the single octet 0. */
  function EncodeAddress(d: string, decimalLength: bool): (t: string)
    requires Addressable(d, decimalLength)
  {
    var n := AddressLength(d, decimalLength);
    if n == 0 then Hex.OctetText(0)
    else Hex.OctetText(n) + (Hex.OctetText(International) + SemiOctets.Encode(d))
  }

  /** Reading an encoded address gives its digits back and leaves the text
      after it untouched. */
  lemma AddressRoundTrip(d: string, decimalLength: bool, rest: string)
    requires Addressable(d, decimalLength)
    ensures NumberSafe(EncodeAddress(d, decimalLength) + rest)
    ensures ParseNumber(EncodeAddress(d, decimalLength) + rest, decimalLength) == Some((d, rest))
  {
    if AddressLength(d, decimalLength) == 0 {
      Hex.OctetRoundTrip(0, rest);
      assert d == "";
    } else {
      NonzeroAddress(d, decimalLength, rest);
    }
  }

  lemma NonzeroAddress(d: string, decimalLength: bool, rest: string)
    requires Addressable(d, decimalLength) && AddressLength(d, decimalLength) != 0
    ensures NumberSafe(EncodeAddress(d, decimalLength) + rest)
    ensures ParseNumber(EncodeAddress(d, decimalLength) + rest, decimalLength) == Some((d, rest))
  {
    var n: byte := AddressLength(d, decimalLength);
    var digits := SemiOctets.Encode(d) + rest;
    var tail := Hex.OctetText(International) + digits;
    var s := Hex.OctetText(n) + tail;
    Assoc(Hex.OctetText(n), Hex.OctetText(International) + SemiOctets.Encode(d), rest);
    Assoc(Hex.OctetText(International), SemiOctets.Encode(d), rest);
    Hex.OctetRoundTrip(n, tail);
    Hex.OctetRoundTrip(International, digits);
    Cut(Hex.OctetText(n), tail);
    assert s[2] == tail[0] && s[3] == tail[1];
    assert NumberSafe(s);
    assert DigitOctets(n, decimalLength) == (|d| + 1) / 2;
    SemiOctets.RoundTrip(d, rest);
    assert ParseNumber(s, decimalLength) == SemiOctets.GetDecimalOctets(digits, DigitOctets(n, decimalLength));
  }

  // ---------------------------------------------------------------------
  // The whole message.

  /** `from_string` does not panic on `s`: each field it reaches satisfies
      the precondition of the reader applied to it. */
  predicate Decodable(s: string) {
    NumberSafe(s) &&
    match ParseNumber(s, false)
    case None => true
    case Some((_, r1)) => TypedDecodable(r1)
  }

  predicate TypedDecodable(r1: string) {
    Hex.OctetSafe(r1) &&
    match Hex.GetHexOctet(r1)
    case None => true
    case Some((_, r2)) =>
      NumberSafe(r2) &&
      match ParseNumber(r2, true)
      case None => true
      case Some((_, r3)) => FieldsDecodable(r3)
  }

  predicate FieldsDecodable(r3: string) {
    Hex.OctetSafe(r3) &&
    match Hex.GetHexOctet(r3)
    case None => true
    case Some((_, r4)) =>
      Hex.OctetSafe(r4) &&
      match Hex.GetHexOctet(r4)
      case None => true
      case Some((_, r5)) => StampedDecodable(r5)
  }

  predicate StampedDecodable(r5: string) {
    match SemiOctets.GetDecimalOctets(r5, TimeStampOctets)
    case None => true
    case Some((_, r6)) =>
      Hex.OctetSafe(r6) &&
      match Hex.GetHexOctet(r6)
      case None => true
      case Some((length, r7)) => Hex.OctetsSafe(r7, GsmAlphabet.OctetCount(length))
  }

  /** The shortest input `from_string` accepts: a service centre of length
      0, the type, a sender of length 0 (which reads one digit octet), pid,
      dcs, the timestamp and the user-data length, each two characters per
      octet. */
  const MinimumLength: nat := 2 + 2 + 4 + 2 + 2 + 2 * TimeStampOctets + 2

  /** `Message::from_string`: the fields in SMS-DELIVER order; `Err` as soon
      as one of them runs out of input, so any input shorter than
      `MinimumLength` is an `Err`. Characters after the user data are
      ignored. */
  function FromString(s: string): (r: Result<Message, ()>)
    requires Decodable(s)
    ensures |s| < MinimumLength ==> r.Err?
  {
    match ParseNumber(s, false)
    case None => Err(())
    case Some((serviceCenter, r1)) => Typed(serviceCenter, r1)
  }

  /** After the service centre: the message type and the sender. */
  function Typed(serviceCenter: string, r1: string): (r: Result<Message, ()>)
    requires TypedDecodable(r1)
    ensures |r1| < MinimumLength - 2 ==> r.Err?
    ensures r.Ok? ==> r.value.serviceCenter == serviceCenter
  {
    match Hex.GetHexOctet(r1)
    case None => Err(())
    case Some((messageType, r2)) =>
      match ParseNumber(r2, true)
      case None => Err(())
      case Some((sender, r3)) => Fields(serviceCenter, messageType, sender, r3)
  }

  /** After the sender: protocol identifier and data coding scheme. */
  function Fields(serviceCenter: string, messageType: byte, sender: string, r3: string): (r: Result<Message, ()>)
    requires FieldsDecodable(r3)
    ensures |r3| < 4 + 2 * TimeStampOctets + 2 ==> r.Err?
    ensures r.Ok? ==> r.value.serviceCenter == serviceCenter && r.value.commandType == messageType &&
                      r.value.sender == sender
  {
    match Hex.GetHexOctet(r3)
    case None => Err(())
    case Some((pid, r4)) =>
      match Hex.GetHexOctet(r4)
      case None => Err(())
      case Some((dcs, r5)) => Stamped(Message(serviceCenter, messageType, sender, "", pid, dcs, ""), r5)
  }

  /** After the data coding scheme: the timestamp, the user-data length and
      the user data, decoded by `parse_gsm_alphabet` (see
      `GsmAlphabet.ParseGsmAlphabet`), which returns `Some` on every path.
      The fields read so far are carried in `head`. */
  function Stamped(head: Message, r5: string): (r: Result<Message, ()>)
    requires StampedDecodable(r5)
    ensures |r5| < 2 * TimeStampOctets + 2 ==> r.Err?
    ensures r.Ok? ==> r == Ok(head.(timeStamp := r.value.timeStamp, userData := r.value.userData))
    ensures r.Ok? ==> |r.value.timeStamp| == 13 || |r.value.timeStamp| == 14
  {
    match SemiOctets.GetDecimalOctets(r5, TimeStampOctets)
    case None => Err(())
    case Some((timeStamp, r6)) =>
      match Hex.GetHexOctet(r6)
      case None => Err(())
      case Some((length, r7)) =>
        Ok(head.(timeStamp := timeStamp, userData := GsmAlphabet.Decode(r7, length)))
  }

  // ---------------------------------------------------------------------
  // The encoder `from_string` inverts.

  /** Messages an SMS-DELIVER PDU in the default alphabet can carry: the
      addresses and timestamp survive the semi-octet encoding, and the user
      data fits in 255 septets of the alphabet. */
  predicate Encodable(m: Message) {
    Addressable(m.serviceCenter, false) &&
    Addressable(m.sender, true) &&
    (|m.timeStamp| == 13 || |m.timeStamp| == 14) && SemiOctets.Representable(m.timeStamp) &&
    |m.userData| < 256 && GsmAlphabet.InAlphabet(m.userData)
  }

  function Encode(m: Message): (t: string)
    requires Encodable(m)
  {
    EncodeAddress(m.serviceCenter, false) + EncodeTyped(m)
  }

  function EncodeTyped(m: Message): (t: string)
    requires Encodable(m)
  {
    Hex.OctetText(m.commandType) + (EncodeAddress(m.sender, true) + EncodeFields(m))
  }

  function EncodeFields(m: Message): (t: string)
    requires Encodable(m)
  {
    Hex.OctetText(m.protocolId) + (Hex.OctetText(m.encodingScheme) + EncodeStamped(m))
  }

  function EncodeStamped(m: Message): (t: string)
    requires Encodable(m)
  {
    SemiOctets.Encode(m.timeStamp) +
    (Hex.OctetText(|m.userData|) + GsmAlphabet.PackText(GsmAlphabet.SeptetsOf(m.userData)))
  }

  /** The timestamp and user data read back from their encoding. */
  lemma StampedRoundTrip(m: Message, rest: string)
    requires Encodable(m)
    ensures StampedDecodable(EncodeStamped(m) + rest)
    ensures Stamped(m, EncodeStamped(m) + rest) == Ok(m)
  {
    var septets := GsmAlphabet.SeptetsOf(m.userData);
    var r7 := GsmAlphabet.PackText(septets) + rest;
    var r6 := Hex.OctetText(|m.userData|) + r7;
    Assoc(SemiOctets.Encode(m.timeStamp), Hex.OctetText(|m.userData|) + GsmAlphabet.PackText(septets), rest);
    Assoc(Hex.OctetText(|m.userData|), GsmAlphabet.PackText(septets), rest);
    assert (|m.timeStamp| + 1) / 2 == TimeStampOctets;
    SemiOctets.RoundTrip(m.timeStamp, r6);
    Hex.OctetRoundTrip(|m.userData|, r7);
    GsmAlphabet.DecodePackText(septets, rest);
  }

  /** Protocol identifier and data coding scheme read back. */
  lemma FieldsRoundTrip(m: Message, rest: string)
    requires Encodable(m)
    ensures FieldsDecodable(EncodeFields(m) + rest)
    ensures Fields(m.serviceCenter, m.commandType, m.sender, EncodeFields(m) + rest) == Ok(m)
  {
    var r5 := EncodeStamped(m) + rest;
    var r4 := Hex.OctetText(m.encodingScheme) + r5;
    Assoc(Hex.OctetText(m.protocolId), Hex.OctetText(m.encodingScheme) + EncodeStamped(m), rest);
    Assoc(Hex.OctetText(m.encodingScheme), EncodeStamped(m), rest);
    Hex.OctetRoundTrip(m.protocolId, r4);
    Hex.OctetRoundTrip(m.encodingScheme, r5);
    StampedRoundTrip(m, rest);
    var head := Message(m.serviceCenter, m.commandType, m.sender, "", m.protocolId, m.encodingScheme, "");
    assert head.(timeStamp := m.timeStamp, userData := m.userData) == m;
  }

  /** Message type and sender read back. */
  lemma TypedRoundTrip(m: Message, rest: string)
    requires Encodable(m)
    ensures TypedDecodable(EncodeTyped(m) + rest)
    ensures Typed(m.serviceCenter, EncodeTyped(m) + rest) == Ok(m)
  {
    var r3 := EncodeFields(m) + rest;
    var r2 := EncodeAddress(m.sender, true) + r3;
    Assoc(Hex.OctetText(m.commandType), EncodeAddress(m.sender, true) + EncodeFields(m), rest);
    Assoc(EncodeAddress(m.sender, true), EncodeFields(m), rest);
    Hex.OctetRoundTrip(m.commandType, r2);
    AddressRoundTrip(m.sender, true, r3);
    FieldsRoundTrip(m, rest);
  }

  /** `from_string` inverts `Encode`: whatever follows the encoding, the
      message read back is the one encoded. */
  lemma FromStringRoundTrip(m: Message, rest: string)
    requires Encodable(m)
    ensures Decodable(Encode(m) + rest)
    ensures FromString(Encode(m) + rest) == Ok(m)
  {
    var r1 := EncodeTyped(m) + rest;
    Assoc(EncodeAddress(m.serviceCenter, false), EncodeTyped(m), rest);
    AddressRoundTrip(m.serviceCenter, false, r1);
    TypedRoundTrip(m, rest);
  }
}
