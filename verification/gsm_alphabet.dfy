/** The GSM 7-bit default alphabet as `parse_gsm_alphabet` decodes it:
    septets packed least significant bit first into octets (section
    6.1.2.1.1 of 3GPP TS 23.038), looked up in the 128-entry character
    table of section 6.2.1 of the same standard as the source spells it. */
module GsmAlphabet {
  import opened Common
  import Hex

  /** `gsm_masks`: at stage r of the 8-step cycle, the low bits of the
      current octet that complete the septet. */
  const Masks: seq<bv8> := [0x7F, 0x3F, 0x1F, 0x0F, 0x07, 0x03, 0x01, 0xFF]

  /** `gsm_chars`, the default alphabet indexed by septet value. The source
      maps 0x1B (the escape code in the standard) to '?'. */
  const Chars: seq<char> := [
    '@', '\U{00A3}', '$', '\U{00A5}', '\U{00E8}', '\U{00E9}', '\U{00F9}', '\U{00EC}', '\U{00F2}', '\U{00C7}', '\n', '\U{00D8}', '\U{00F8}', '\r', '\U{00C5}', '\U{00E5}',
    '\U{0394}', '_', '\U{03A6}', '\U{0393}', '\U{039B}', '\U{03A9}', '\U{03A0}', '\U{03A8}', '\U{03A3}', '\U{0398}', '\U{039E}', '?', '\U{00C6}', '\U{00E6}', '\U{00DF}', '\U{00C9}',
    ' ', '!', '"', '#', '\U{00A4}', '%', '&', '\'', '(', ')', '*', '+', ',', '-', '.', '/',
    '0', '1', '2', '3', '4', '5', '6', '7', '8', '9', ':', ';', '<', '=', '>', '?',
    '\U{00A1}', 'A', 'B', 'C', 'D', 'E', 'F', 'G', 'H', 'I', 'J', 'K', 'L', 'M', 'N', 'O',
    'P', 'Q', 'R', 'S', 'T', 'U', 'V', 'W', 'X', 'Y', 'Z', '\U{00C4}', '\U{00D6}', '\U{00D1}', '\U{00DC}', '\U{00A7}',
    '\U{00BF}', 'a', 'b', 'c', 'd', 'e', 'f', 'g', 'h', 'i', 'j', 'k', 'l', 'm', 'n', 'o',
    'p', 'q', 'r', 's', 't', 'u', 'v', 'w', 'x', 'y', 'z', '\U{00E4}', '\U{00F6}', '\U{00F1}', '\U{00FC}', '\U{00E0}'
  ]

  /** Octets that hold `length` septets: every eighth septet is made of
      bits carried over from the octets before it. */
  function OctetCount(length: nat): nat {
    length - length / 8
  }

  // ---------------------------------------------------------------------
  // The packing, bit by bit. Shift amounts are spelled out per stage so
  // that each definition is a plain bit-vector expression.

  /** `x >> off` for the eight offsets a septet can start at. */
  function Shr(x: bv16, off: nat): bv16
    requires off < 8
  {
    if off == 0 then x else if off == 1 then x >> 1 else if off == 2 then x >> 2
    else if off == 3 then x >> 3 else if off == 4 then x >> 4 else if off == 5 then x >> 5
    else if off == 6 then x >> 6 else x >> 7
  }

  /** Seven bits of the little-endian 16-bit window `hi:lo`, starting at bit
      `off`. */
  function Window(lo: bv8, hi: bv8, off: nat): (w: bv8)
    requires off < 8
    ensures w as int < 128
  {
    (Shr(((hi as bv16) << 8) | lo as bv16, off) & 0x7F) as bv8
  }

  /** Septet `i` of a packed octet stream: the bits 7i to 7i+6 of the
      stream read least significant bit first (absent octets read as 0). */
  function SeptetAt(oct: seq<bv8>, i: nat): (v: bv8)
    requires 7 * i / 8 < |oct|
    ensures v as int < 128
  {
    var j := 7 * i / 8;
    Window(oct[j], if j + 1 < |oct| then oct[j + 1] else 0, 7 * i % 8)
  }

  /** The septet bits an octet read at stage `r` (0 to 6) contributes: its
      low 7 - r bits, moved up by r. */
  function Low(b: bv8, r: nat): bv8
    requires r < 7
  {
    if r == 0 then b & 0x7F else if r == 1 then (b & 0x3F) << 1
    else if r == 2 then (b & 0x1F) << 2 else if r == 3 then (b & 0x0F) << 3
    else if r == 4 then (b & 0x07) << 4 else if r == 5 then (b & 0x03) << 5
    else (b & 0x01) << 6
  }

  /** The bits carried into stage `r` (1 to 7) from the octet read at
      stage r - 1: its top r bits, moved down to bit 0. */
  function Carry(b: bv8, r: nat): bv8
    requires 1 <= r <= 7
  {
    if r == 1 then b >> 7 else if r == 2 then b >> 6 else if r == 3 then b >> 5
    else if r == 4 then b >> 4 else if r == 5 then b >> 3 else if r == 6 then b >> 2
    else b >> 1
  }

  /** The source's `character` at stage `r`, `(next & gsm_masks[r]) << r`,
      is `Low(next, r)`. */
  lemma MaskedLow(next: bv8, r: nat)
    requires r < 7
    ensures (next & Masks[r]) << r == Low(next, r)
  {
    if r == 0 { assert Masks[0] == 0x7F; }
    else if r == 1 { assert Masks[1] == 0x3F; }
    else if r == 2 { assert Masks[2] == 0x1F; }
    else if r == 3 { assert Masks[3] == 0x0F; }
    else if r == 4 { assert Masks[4] == 0x07; }
    else if r == 5 { assert Masks[5] == 0x03; }
    else { assert Masks[6] == 0x01; }
  }

  /** The source's new `saved_byte` at stage `r`,
      `(next & !gsm_masks[r]) >> (7 - r)`, is `Carry(next, r + 1)`. */
  lemma MaskedCarry(next: bv8, r: nat)
    requires r < 7
    ensures (next & !Masks[r]) >> (7 - r) == Carry(next, r + 1)
  {
    if r == 0 { assert Masks[0] == 0x7F; }
    else if r == 1 { assert Masks[1] == 0x3F; }
    else if r == 2 { assert Masks[2] == 0x1F; }
    else if r == 3 { assert Masks[3] == 0x0F; }
    else if r == 4 { assert Masks[4] == 0x07; }
    else if r == 5 { assert Masks[5] == 0x03; }
    else { assert Masks[6] == 0x01; }
  }

  /** Stage 0: the septet is the low seven bits of the octet just read. */
  lemma FirstWindow(b: bv8, hi: bv8)
    ensures Low(b, 0) == Window(b, hi, 0)
  {
  }

  /** Stages 1 to 6: the bits of the octet just read, above the carry from
      the one before, are the septet that straddles the two. */
  lemma MiddleWindow(prev: bv8, b: bv8, r: nat)
    requires 1 <= r <= 6
    ensures Low(b, r) as int + Carry(prev, r) as int == Window(prev, b, 8 - r) as int
  {
    if r <= 3 {
      MiddleWindowLow(prev, b, r);
    } else {
      MiddleWindowHigh(prev, b, r);
    }
  }

  lemma MiddleWindowLow(prev: bv8, b: bv8, r: nat)
    requires 1 <= r <= 3
    ensures Low(b, r) as int + Carry(prev, r) as int == Window(prev, b, 8 - r) as int
  {
    if r == 1 {} else if r == 2 {} else {}
  }

  lemma MiddleWindowHigh(prev: bv8, b: bv8, r: nat)
    requires 4 <= r <= 6
    ensures Low(b, r) as int + Carry(prev, r) as int == Window(prev, b, 8 - r) as int
  {
    if r == 4 {} else if r == 5 {} else {}
  }

  /** Stage 7: the carry alone is the septet. */
  lemma LastWindow(prev: bv8, hi: bv8)
    ensures Carry(prev, 7) == Window(prev, hi, 1)
  {
  }

  // ---------------------------------------------------------------------
  // Where each septet lies relative to the octets the cycle has read.

  /** Septet `i` starts octet `OctetCount(i)` at stage 0, and at bit
      8 - r of octet `OctetCount(i) - 1` at stages r = 1 to 7. */
  lemma SeptetPosition(i: nat)
    ensures i % 8 == 0 ==> 7 * i / 8 == OctetCount(i) && 7 * i % 8 == 0
    ensures i % 8 != 0 ==> 0 < OctetCount(i) && 7 * i / 8 == OctetCount(i) - 1 && 7 * i % 8 == 8 - i % 8
  {
    var q, r := i / 8, i % 8;
    assert i == 8 * q + r;
    assert 7 * i == 8 * (7 * q) + 7 * r;
    if r != 0 {
      assert 7 * r == 8 * (r - 1) + (8 - r);
    }
  }

  lemma SeptetInRange(i: nat, length: nat)
    requires i < length
    ensures 7 * i / 8 < OctetCount(length)
  {
  }

  /** How the cycle position and the octet count move from one septet to
      the next. */
  lemma Advance(p: nat)
    ensures p % 8 == 7 ==> (p + 1) % 8 == 0 && OctetCount(p + 1) == OctetCount(p)
    ensures p % 8 != 7 ==> (p + 1) % 8 == p % 8 + 1 && OctetCount(p + 1) == OctetCount(p) + 1
    ensures p % 8 != 0 ==> OctetCount(p) > 0
  {
  }

  // ---------------------------------------------------------------------
  // The decoder.

  /** The first `length` septets of a packed octet stream. */
  function Unpack(oct: seq<bv8>, length: nat): (septets: seq<bv8>)
    requires OctetCount(length) <= |oct|
    ensures |septets| == length
    ensures forall i :: 0 <= i < length ==> septets[i] as int < 128
  {
    seq(length, i requires 0 <= i < length => (SeptetInRange(i, length); SeptetAt(oct, i)))
  }

  function Bits(o: seq<byte>): (b: seq<bv8>)
    ensures |b| == |o|
  {
    seq(|o|, k requires 0 <= k < |o| => o[k] as bv8)
  }

  function Bytes(b: seq<bv8>): (o: seq<byte>)
    ensures |o| == |b| && forall k :: 0 <= k < |b| ==> o[k] == b[k] as int
  {
    seq(|b|, k requires 0 <= k < |b| => b[k] as int as byte)
  }

  /** The octets written in hex at the front of `s` that hold `length`
      packed septets. */
  function PackedOctets(s: string, length: nat): (oct: seq<bv8>)
    requires Hex.OctetsSafe(s, OctetCount(length))
    ensures |oct| == OctetCount(length)
  {
    Bits(Hex.Octets(s, OctetCount(length)))
  }

  /** The septets packed in those octets. */
  function PackedSeptets(s: string, length: nat): (septets: seq<bv8>)
    requires Hex.OctetsSafe(s, OctetCount(length))
    ensures |septets| == length
    ensures forall i :: 0 <= i < length ==> septets[i] as int < 128
  {
    Unpack(PackedOctets(s, length), length)
  }

  /** The characters of a sequence of septets. */
  function Text(septets: seq<bv8>): (t: string)
    requires forall i :: 0 <= i < |septets| ==> septets[i] as int < 128
    ensures |t| == |septets|
    ensures forall i :: 0 <= i < |septets| ==> t[i] == Chars[septets[i] as int]
  {
    seq(|septets|, i requires 0 <= i < |septets| => Chars[septets[i] as int])
  }

  /** The text of `length` septets whose packed octets are written in hex
      at the front of `s`. */
  function Decode(s: string, length: nat): (t: string)
    requires Hex.OctetsSafe(s, OctetCount(length))
    ensures |t| == length
  {
    Text(PackedSeptets(s, length))
  }

  /** The byte carried into position `p` of the cycle: nothing at stage 0,
      otherwise the top bits of the last octet read. */
  ghost predicate Carried(oct: seq<bv8>, p: nat, saved: bv8) {
    if p % 8 == 0 then saved == 0
    else 0 < OctetCount(p) <= |oct| && saved == Carry(oct[OctetCount(p) - 1], p % 8)
  }

  /** Reading octet `next` at stage `p % 8` leaves the right carry for
      position `p + 1`. */
  lemma CarryAdvance(oct: seq<bv8>, p: nat, next: bv8)
    requires p % 8 != 7 && OctetCount(p) < |oct| && next == oct[OctetCount(p)]
    ensures Carried(oct, p + 1, Carry(next, p % 8 + 1))
  {
    Advance(p);
  }

  /** At stages 0 to 6 the index joins the octet just read to the carry,
      which gives septet `p`. */
  lemma ReadIndex(oct: seq<bv8>, p: nat, saved: bv8, next: bv8)
    requires p % 8 != 7 && Carried(oct, p, saved)
    requires OctetCount(p) < |oct| && next == oct[OctetCount(p)]
    ensures 7 * p / 8 < |oct| && Low(next, p % 8) as int + saved as int == SeptetAt(oct, p) as int
  {
    SeptetPosition(p);
    var c := OctetCount(p);
    var r := p % 8;
    if r == 0 {
      var hi := if c + 1 < |oct| then oct[c + 1] else 0;
      assert SeptetAt(oct, p) == Window(next, hi, 0);
      FirstWindow(next, hi);
    } else {
      assert SeptetAt(oct, p) == Window(oct[c - 1], next, 8 - r);
      MiddleWindow(oct[c - 1], next, r);
    }
  }

  /** At stage 7 the carry is septet `p`, and the next cycle starts with
      nothing carried. */
  lemma CarryIndex(oct: seq<bv8>, p: nat, saved: bv8)
    requires p % 8 == 7 && Carried(oct, p, saved)
    ensures 7 * p / 8 < |oct| && saved == SeptetAt(oct, p)
    ensures Carried(oct, p + 1, 0)
  {
    SeptetPosition(p);
    Advance(p);
    var c := OctetCount(p);
    var hi := if c < |oct| then oct[c] else 0;
    assert SeptetAt(oct, p) == Window(oct[c - 1], hi, 1);
    LastWindow(oct[c - 1], hi);
  }

  /** `parse_gsm_alphabet`: `length` characters, those of the septets
      packed in the first `OctetCount(length)` octets of `s`. Every table
      index is below 128, so the `u8` addition never overflows and the
      lookup never leaves the table. The source wraps the result in `Some`
      on every path. */
  method ParseGsmAlphabet(s: string, length: byte) returns (output: string)
    requires Hex.OctetsSafe(s, OctetCount(length))
    ensures |output| == length
    ensures output == Decode(s, length)
  {
    var rest;
    output, rest := DecodeCycle(Chars, s, length);
  }

  /** The first `n` septets looked up in `table`, one at a time. */
  ghost function Looked(table: seq<char>, septets: seq<bv8>, n: nat): (t: seq<char>)
    requires |table| == 128 && n <= |septets|
    requires forall i :: 0 <= i < |septets| ==> septets[i] as int < 128
    ensures |t| == n
  {
    if n == 0 then [] else Looked(table, septets, n - 1) + [table[septets[n - 1] as int]]
  }

  lemma {:induction false} LookedAll(table: seq<char>, septets: seq<bv8>, n: nat)
    requires |table| == 128 && n <= |septets|
    requires forall i :: 0 <= i < |septets| ==> septets[i] as int < 128
    ensures forall i :: 0 <= i < n ==> Looked(table, septets, n)[i] == table[septets[i] as int]
  {
    if n > 0 {
      LookedAll(table, septets, n - 1);
    }
  }

  /** The loop of `parse_gsm_alphabet` over any 128-entry table: the 8-step
      cycle with a carried byte, reading one hex octet at stages 0 to 6 and
      none at stage 7, so that exactly `OctetCount(length)` octets are
      consumed. */
  method DecodeCycle(table: seq<char>, s: string, length: nat) returns (output: string, rest: string)
    requires |table| == 128 && Hex.OctetsSafe(s, OctetCount(length))
    ensures rest == s[2 * OctetCount(length)..]
    ensures |output| == length
    ensures forall i :: 0 <= i < length ==> output[i] == table[PackedSeptets(s, length)[i] as int]
  {
    var parsed := 0;
    output := "";
    rest := s;
    var saved: bv8 := 0;
    while parsed < length
      invariant 0 <= parsed <= length
      invariant OctetCount(parsed) <= OctetCount(length)
      invariant rest == s[2 * OctetCount(parsed)..]
      invariant output == Looked(table, PackedSeptets(s, length), parsed)
      invariant Carried(PackedOctets(s, length), parsed, saved)
    {
      if parsed % 8 == 7 {
        output, saved := CarryStep(table, s, length, parsed, output, saved);
      } else {
        output, rest, saved := ReadStep(table, s, length, parsed, output, rest, saved);
      }
      parsed := parsed + 1;
    }
    LookedAll(table, PackedSeptets(s, length), length);
  }

  /** Stage 7: the carry alone is the septet; nothing is read. */
  method CarryStep(table: seq<char>, s: string, length: nat, p: nat, output: string, saved: bv8)
    returns (output': string, saved': bv8)
    requires |table| == 128 && Hex.OctetsSafe(s, OctetCount(length))
    requires p % 8 == 7 && p < length && Carried(PackedOctets(s, length), p, saved)
    ensures output' == output + [table[PackedSeptets(s, length)[p] as int]]
    ensures OctetCount(p + 1) == OctetCount(p) && Carried(PackedOctets(s, length), p + 1, saved')
  {
    Advance(p);
    SeptetInRange(p, length);
    ghost var oct := PackedOctets(s, length);
    assert PackedSeptets(s, length)[p] == SeptetAt(oct, p);
    CarryIndex(oct, p, saved);
    output' := output + [table[saved as int]];
    saved' := 0;
  }

  /** Stages 0 to 6: read one octet and join its low bits to the carry. */
  method ReadStep(table: seq<char>, s: string, length: nat, p: nat, output: string, rest: string, saved: bv8)
    returns (output': string, rest': string, saved': bv8)
    requires |table| == 128 && Hex.OctetsSafe(s, OctetCount(length))
    requires p % 8 != 7 && p < length && rest == s[2 * OctetCount(p)..]
    requires Carried(PackedOctets(s, length), p, saved)
    ensures output' == output + [table[PackedSeptets(s, length)[p] as int]]
    ensures rest' == s[2 * OctetCount(p + 1)..] && Carried(PackedOctets(s, length), p + 1, saved')
  {
    StepOctet(p, length);
    var next;
    next, rest' := ReadOctet(s, length, OctetCount(p), rest);
    var index;
    index, saved' := DecodeStage(next, saved, p % 8);
    StepIndex(s, length, p, saved, next);
    output' := output + [table[index]];
  }

  /** Below stage 7 a step of the cycle reads one octet, which the packed
      data holds. */
  lemma StepOctet(p: nat, length: nat)
    requires p % 8 != 7 && p < length
    ensures OctetCount(p) < OctetCount(length) && OctetCount(p + 1) == OctetCount(p) + 1
  {
    Advance(p);
    SeptetInRange(p, length);
  }

  /** Below stage 7 the octet read joined to the carry is septet `p`, and
      its top bits are the carry for the next position. */
  lemma StepIndex(s: string, length: nat, p: nat, saved: bv8, next: bv8)
    requires Hex.OctetsSafe(s, OctetCount(length)) && p % 8 != 7 && p < length
    requires Carried(PackedOctets(s, length), p, saved)
    requires OctetCount(p) < OctetCount(length) && next == PackedOctets(s, length)[OctetCount(p)]
    ensures PackedSeptets(s, length)[p] as int == Low(next, p % 8) as int + saved as int
    ensures Carried(PackedOctets(s, length), p + 1, Carry(next, p % 8 + 1))
  {
    var oct := PackedOctets(s, length);
    SeptetInRange(p, length);
    assert PackedSeptets(s, length)[p] == SeptetAt(oct, p);
    ReadIndex(oct, p, saved, next);
    CarryAdvance(oct, p, next);
  }

  /** The stage arithmetic as the source writes it. */
  method DecodeStage(next: bv8, saved: bv8, stage: nat) returns (index: int, newSaved: bv8)
    requires stage < 7
    ensures index == Low(next, stage) as int + saved as int
    ensures newSaved == Carry(next, stage + 1)
  {
    MaskedLow(next, stage);
    MaskedCarry(next, stage);
    var character := (next & Masks[stage]) << stage;
    index := character as int + saved as int;
    newSaved := (next & !Masks[stage]) >> (7 - stage);
  }

  /** `get_hex_octet(rest).unwrap()` inside the loop, at octet `c` of the
      packed data. */
  method ReadOctet(ghost s: string, ghost length: nat, ghost c: nat, rest: string) returns (v: bv8, rest': string)
    requires Hex.OctetsSafe(s, OctetCount(length)) && c < OctetCount(length) && rest == s[2 * c..]
    ensures v == PackedOctets(s, length)[c] && rest' == s[2 * (c + 1)..]
  {
    assert Hex.IsOctetText(rest[0], rest[1]);
    var r := Hex.GetHexOctet(rest);
    v := r.value.0 as bv8;
    rest' := r.value.1;
  }

  // ---------------------------------------------------------------------
  // The packer the decoder undoes: section 6.1.2.1.1 of 3GPP TS 23.038.

  /** Octet `7q + r` of a packing: septet `8q + r` shifted down by r, and
      above it the low r + 1 bits of septet `8q + r + 1`. */
  function PackPair(cur: bv8, next: bv8, r: nat): bv8
    requires r < 7
  {
    if r == 0 then cur | (next << 7) else if r == 1 then (cur >> 1) | (next << 6)
    else if r == 2 then (cur >> 2) | (next << 5) else if r == 3 then (cur >> 3) | (next << 4)
    else if r == 4 then (cur >> 4) | (next << 3) else if r == 5 then (cur >> 5) | (next << 2)
    else (cur >> 6) | (next << 1)
  }

  /** Octet `j` of the packing takes its low bits from septet `j + j / 7`,
      which exists. */
  lemma PackSource(j: nat, n: nat)
    requires j < OctetCount(n)
    ensures j + j / 7 < n
  {
    var q, r := j / 7, j % 7;
    var a, b := n / 8, n % 8;
    assert j == 7 * q + r && n == 8 * a + b;
    assert OctetCount(n) == 7 * a + b;
  }

  predicate AllSeptets(septets: seq<bv8>) {
    forall i :: 0 <= i < |septets| ==> septets[i] < 128
  }

  /** Septets packed into `OctetCount(|septets|)` octets, least significant
      bit first. */
  function Pack(septets: seq<bv8>): (oct: seq<bv8>)
    ensures |oct| == OctetCount(|septets|)
  {
    var n := |septets|;
    seq(OctetCount(n), j requires 0 <= j < OctetCount(n) =>
      (PackSource(j, n);
       var k := j + j / 7;
       PackPair(septets[k], if k + 1 < n then septets[k + 1] else 0, j % 7)))
  }

  /** Octet `j` of a packing and the two septets it is built from. */
  lemma PackAt(septets: seq<bv8>, j: nat, k: nat, r: nat)
    requires j < OctetCount(|septets|) && k == j + j / 7 && r == j % 7
    ensures k < |septets|
    ensures Pack(septets)[j] == PackPair(septets[k], if k + 1 < |septets| then septets[k + 1] else 0, r)
  {
    PackSource(j, |septets|);
  }

  /** The middle case of `PackedSeptet` once the octets are known. */
  lemma MiddleChain(oct: seq<bv8>, i: nat, j: nat, t: nat, prev: bv8, cur: bv8, next: bv8)
    requires 1 <= t <= 6 && prev < 128 && cur < 128 && j == 7 * i / 8 && j + 1 < |oct|
    requires SeptetAt(oct, i) == Window(oct[j], oct[j + 1], 8 - t)
    requires oct[j] == PackPair(prev, cur, t - 1) && oct[j + 1] == PackPair(cur, next, t)
    ensures SeptetAt(oct, i) == cur
  {
    PackMiddle(prev, cur, next, t);
  }

  /** Septet `i` read from octet `j` at bit `off`, with the octet after it
      or 0 as the high half of the window. */
  lemma SeptetAtWindow(oct: seq<bv8>, i: nat, j: nat, off: nat)
    requires j == 7 * i / 8 && off == 7 * i % 8 && j < |oct|
    ensures SeptetAt(oct, i) == Window(oct[j], if j + 1 < |oct| then oct[j + 1] else 0, off)
  {
  }

  /** A septet that starts an octet reads back whole. */
  lemma PackFirst(cur: bv8, next: bv8, hi: bv8)
    requires cur < 128
    ensures Window(PackPair(cur, next, 0), hi, 0) == cur
  {
  }

  /** A septet split across two octets reads back whole. */
  lemma PackMiddle(prev: bv8, cur: bv8, next: bv8, t: nat)
    requires 1 <= t <= 6 && prev < 128 && cur < 128
    ensures Window(PackPair(prev, cur, t - 1), PackPair(cur, next, t), 8 - t) == cur
  {
    if t == 1 {} else if t == 2 {} else if t == 3 {} else if t == 4 {} else if t == 5 {} else {}
  }

  /** The eighth septet of a cycle, held in the top seven bits of an octet,
      reads back whole. */
  lemma PackLast(prev: bv8, cur: bv8, hi: bv8)
    requires prev < 128 && cur < 128
    ensures Window(PackPair(prev, cur, 6), hi, 1) == cur
  {
  }

  /** Which octets of the packing hold septet `i`: for stage t = i % 8, the
      octet `7 * i / 8` and its successor, and the septets they were built
      from. */
  lemma PackPosition(i: nat, n: nat)
    requires i < n
    ensures 7 * i / 8 < OctetCount(n)
    ensures var j := 7 * i / 8;
      i % 8 == 0 ==> j % 7 == 0 && j + j / 7 == i && 7 * i % 8 == 0
    ensures var j := 7 * i / 8;
      1 <= i % 8 <= 6 ==>
        (j % 7 == i % 8 - 1 && j + j / 7 == i - 1 &&
         j + 1 < OctetCount(n) && (j + 1) % 7 == i % 8 && (j + 1) + (j + 1) / 7 == i &&
         7 * i % 8 == 8 - i % 8)
    ensures var j := 7 * i / 8;
      i % 8 == 7 ==> j % 7 == 6 && j + j / 7 == i - 1 && 7 * i % 8 == 1
  {
    SeptetPosition(i);
    var q, t := i / 8, i % 8;
    assert i == 8 * q + t;
    var a, b := n / 8, n % 8;
    assert n == 8 * a + b && OctetCount(n) == 7 * a + b;
    if t == 0 {
      assert 7 * i / 8 == 7 * q;
    } else {
      assert 7 * i / 8 == 7 * q + t - 1;
      if t <= 6 {
        assert 7 * q + t < 7 * a + b;
      }
    }
  }

  /** Septet `i` of a packing is the `i`-th septet packed. */
  lemma PackedSeptet(septets: seq<bv8>, i: nat)
    requires AllSeptets(septets) && i < |septets|
    ensures 7 * i / 8 < |Pack(septets)| && SeptetAt(Pack(septets), i) == septets[i]
  {
    PackPosition(i, |septets|);
    var t := i % 8;
    if t == 0 {
      PackedFirst(septets, i);
    } else if t <= 6 {
      PackedMiddle(septets, i);
    } else {
      PackedLast(septets, i);
    }
  }

  lemma PackedFirst(septets: seq<bv8>, i: nat)
    requires AllSeptets(septets) && i < |septets| && i % 8 == 0
    ensures 7 * i / 8 < |Pack(septets)| && SeptetAt(Pack(septets), i) == septets[i]
  {
    var n, oct := |septets|, Pack(septets);
    PackPosition(i, n);
    var j := 7 * i / 8;
    var hi := if j + 1 < |oct| then oct[j + 1] else 0;
    var nxt := if i + 1 < n then septets[i + 1] else 0;
    PackAt(septets, j, i, 0);
    SeptetAtWindow(oct, i, j, 0);
    PackFirst(septets[i], nxt, hi);
  }

  lemma PackedMiddle(septets: seq<bv8>, i: nat)
    requires AllSeptets(septets) && i < |septets| && 1 <= i % 8 <= 6
    ensures 7 * i / 8 < |Pack(septets)| && SeptetAt(Pack(septets), i) == septets[i]
  {
    var n, oct := |septets|, Pack(septets);
    PackPosition(i, n);
    var j := 7 * i / 8;
    var t := i % 8;
    var nxt := if i + 1 < n then septets[i + 1] else 0;
    PackAt(septets, j, i - 1, t - 1);
    PackAt(septets, j + 1, i, t);
    SeptetAtWindow(oct, i, j, 8 - t);
    MiddleChain(oct, i, j, t, septets[i - 1], septets[i], nxt);
  }

  lemma PackedLast(septets: seq<bv8>, i: nat)
    requires AllSeptets(septets) && i < |septets| && i % 8 == 7
    ensures 7 * i / 8 < |Pack(septets)| && SeptetAt(Pack(septets), i) == septets[i]
  {
    var n, oct := |septets|, Pack(septets);
    PackPosition(i, n);
    var j := 7 * i / 8;
    var hi := if j + 1 < |oct| then oct[j + 1] else 0;
    PackAt(septets, j, i - 1, 6);
    SeptetAtWindow(oct, i, j, 1);
    PackLast(septets[i - 1], septets[i], hi);
  }

  /** Unpacking a packing gives the septets back. */
  lemma UnpackPack(septets: seq<bv8>)
    requires AllSeptets(septets)
    ensures Unpack(Pack(septets), |septets|) == septets
  {
    forall i | 0 <= i < |septets|
      ensures SeptetAt(Pack(septets), i) == septets[i]
    {
      PackedSeptet(septets, i);
    }
  }

  /** Bytes and bit-vectors of the same values. */
  lemma BitsBytes(b: seq<bv8>)
    ensures Bits(Bytes(b)) == b
  {
    forall k | 0 <= k < |b|
      ensures Bits(Bytes(b))[k] == b[k]
    {
      assert Bytes(b)[k] == b[k] as int;
    }
  }

  /** The hex text of a packing, as a PDU carries user data. */
  function PackText(septets: seq<bv8>): (t: string)
    ensures |t| == 2 * OctetCount(|septets|) && IsAscii(t)
  {
    Hex.OctetsText(Bytes(Pack(septets)))
  }

  /** Decoding the hex text of packed septets gives their characters,
      whatever follows the text. */
  lemma DecodePackText(septets: seq<bv8>, rest: string)
    requires AllSeptets(septets)
    ensures Hex.OctetsSafe(PackText(septets) + rest, OctetCount(|septets|))
    ensures Decode(PackText(septets) + rest, |septets|) == Text(septets)
  {
    var v := Bytes(Pack(septets));
    Hex.OctetsRoundTrip(v, rest);
    BitsBytes(Pack(septets));
    UnpackPack(septets);
  }

  // ---------------------------------------------------------------------
  // Characters back to septets.

  /** The first position of `c` in `t`. */
  function IndexIn(t: seq<char>, c: char): (k: nat)
    requires c in t
    ensures k < |t| && t[k] == c
  {
    if t[0] == c then 0 else 1 + IndexIn(t[1..], c)
  }

  /** Text every character of which the default alphabet has. */
  predicate InAlphabet(u: string) {
    forall i :: 0 <= i < |u| ==> u[i] in Chars
  }

  /** A septet for each character: where the table lists a character twice
      ('?' at 0x1B and 0x3F) the first position is taken. */
  function SeptetsOf(u: string): (septets: seq<bv8>)
    requires InAlphabet(u)
    ensures |septets| == |u| && AllSeptets(septets)
    ensures Text(septets) == u
  {
    seq(|u|, i requires 0 <= i < |u| => SeptetOf(u[i]))
  }

  function SeptetOf(c: char): (v: bv8)
    requires c in Chars
    ensures v < 128 && v as int < 128 && Chars[v as int] == c
  {
    ByteOf(IndexIn(Chars, c))
  }

  /** The byte holding a number below 256. */
  function ByteOf(k: nat): (v: bv8)
    requires k < 256
    ensures v as int == k
  {
    if k == 0 then 0 else ByteOf(k - 1) + 1
  }
}
