/** Reading one octet written as two hexadecimal characters, the primitive
    every PDU field is decoded with (`get_hex_octet`). */
module Hex {
  import opened Common

  predicate IsHexDigit(c: char) {
    '0' <= c <= '9' || 'a' <= c <= 'f' || 'A' <= c <= 'F'
  }

  function DigitValue(c: char): (v: nat)
    requires IsHexDigit(c)
    ensures v < 16
  {
    if '0' <= c <= '9' then c as int - '0' as int
    else if 'a' <= c <= 'f' then c as int - 'a' as int + 10
    else c as int - 'A' as int + 10
  }

  /** The upper-case hexadecimal digit of `v`. */
  function DigitOf(v: nat): (c: char)
    requires v < 16
    ensures IsHexDigit(c) && DigitValue(c) == v && c != '+'
  {
    if v < 10 then ('0' as int + v) as char else ('A' as int + v - 10) as char
  }

  /** The two-character texts `u8::from_str_radix(_, 16)` accepts: two
      digits of either case, or a '+' sign followed by one digit. */
  predicate IsOctetText(a: char, b: char) {
    IsHexDigit(b) && (IsHexDigit(a) || a == '+')
  }

  function OctetValue(a: char, b: char): (v: byte)
    requires IsOctetText(a, b)
  {
    if a == '+' then DigitValue(b) else 16 * DigitValue(a) + DigitValue(b)
  }

  /** The lower-case hexadecimal digit of `v`. */
  function LowerDigitOf(v: nat): (c: char)
    requires v < 16
    ensures IsHexDigit(c) && c != '+'
  {
    if v < 10 then DigitOf(v) else ('a' as int + v - 10) as char
  }

  /** `c` is the digit `d`, in either case. */
  predicate SpellsDigit(c: char, d: nat) {
    d < 16 && (c == DigitOf(d) || c == LowerDigitOf(d))
  }

  /** `a b` is a spelling of the octet `v` that `from_str_radix` accepts:
      its two digits, each in either case, or a '+' sign followed by the
      single digit of a `v` below 16. */
  predicate Spells(a: char, b: char, v: byte) {
    (SpellsDigit(a, v / 16) && SpellsDigit(b, v % 16)) || (a == '+' && v < 16 && SpellsDigit(b, v))
  }

  /** `get_hex_octet` does not panic on `s`. Its length test counts UTF-8
      bytes, so a lone character must be ASCII for the test to return None
      (a wider one passes it and the conversion or `split_at(2)` panics);
      and when two characters are there, they form an octet (the source
      `expect`s the conversion). Two ASCII characters are two bytes, so
      `split_at(2)` then splits after them. */
  predicate OctetSafe(s: string) {
    (|s| == 1 ==> s[0] < 128 as char) &&
    (|s| >= 2 ==> IsOctetText(s[0], s[1]))
  }

  /** The octet at the front of `s` and the text after it; None exactly
      when fewer than two characters remain. The two characters read are
      a spelling of the octet returned. */
  function GetHexOctet(s: string): (r: Option<(byte, string)>)
    requires OctetSafe(s)
    ensures r.None? <==> |s| < 2
    ensures r.Some? ==> |r.value.1| == |s| - 2 && s == s[..2] + r.value.1
    ensures r.Some? ==> Spells(s[0], s[1], r.value.0)
  {
    if |s| < 2 then None
    else
      OctetSpelled(s[0], s[1]);
      Some((OctetValue(s[0], s[1]), s[2..]))
  }

  /** The canonical two-digit text of an octet, most significant digit first. */
  function OctetText(v: byte): (t: string)
    ensures |t| == 2 && IsOctetText(t[0], t[1]) && IsAscii(t)
  {
    [DigitOf(v / 16), DigitOf(v % 16)]
  }

  /** Reading an octet back from its text gives the octet and leaves the
      rest of the input untouched. */
  lemma OctetRoundTrip(v: byte, rest: string)
    ensures OctetSafe(OctetText(v) + rest)
    ensures GetHexOctet(OctetText(v) + rest) == Some((v, rest))
  {
    var s := OctetText(v) + rest;
    assert s[2..] == rest;
    OctetTextValue(v);
  }

  /** Every spelling of `v` reads back as `v`, whatever follows it: upper
      case, lower case, mixed, and '+' with one digit. */
  lemma SpellingRoundTrip(a: char, b: char, v: byte, rest: string)
    requires Spells(a, b, v)
    ensures OctetSafe([a, b] + rest)
    ensures GetHexOctet([a, b] + rest) == Some((v, rest))
  {
    var s := [a, b] + rest;
    assert s[0] == a && s[1] == b && s[2..] == rest;
    DigitRead(b, if a == '+' then v else v % 16);
    if a != '+' { DigitRead(a, v / 16); }
  }

  lemma OctetSpelled(a: char, b: char)
    requires IsOctetText(a, b)
    ensures Spells(a, b, OctetValue(a, b))
  {
    DigitSpelled(b);
    if a != '+' { DigitSpelled(a); }
  }

  lemma DigitSpelled(c: char)
    requires IsHexDigit(c)
    ensures SpellsDigit(c, DigitValue(c))
  {
  }

  lemma DigitRead(c: char, d: nat)
    requires SpellsDigit(c, d)
    ensures IsHexDigit(c) && c != '+' && DigitValue(c) == d
  {
  }

  lemma OctetTextValue(v: byte)
    ensures OctetValue(OctetText(v)[0], OctetText(v)[1]) == v
  {
  }

  /** The octets of a text of `2 * n` characters or more, `n` octets read. */
  predicate OctetsSafe(s: string, n: nat) {
    |s| >= 2 * n && forall k :: 0 <= k < n ==> IsOctetText(s[2 * k], s[2 * k + 1])
  }

  function Octets(s: string, n: nat): (r: seq<byte>)
    requires OctetsSafe(s, n)
    ensures |r| == n
    ensures forall k :: 0 <= k < n ==> r[k] == OctetValue(s[2 * k], s[2 * k + 1])
  {
    seq(n, k requires 0 <= k < n => OctetValue(s[2 * k], s[2 * k + 1]))
  }

  /** The canonical text of a sequence of octets. */
  function OctetsText(v: seq<byte>): (t: string)
    ensures |t| == 2 * |v| && IsAscii(t)
    ensures forall k :: 0 <= k < |v| ==> t[2 * k..2 * k + 2] == OctetText(v[k])
  {
    if v == [] then [] else OctetText(v[0]) + OctetsText(v[1..])
  }

  /** Reading `|v|` octets from the text of `v` gives `v` back. */
  lemma OctetsRoundTrip(v: seq<byte>, rest: string)
    ensures OctetsSafe(OctetsText(v) + rest, |v|)
    ensures Octets(OctetsText(v) + rest, |v|) == v
  {
    var s := OctetsText(v) + rest;
    forall k | 0 <= k < |v|
      ensures IsOctetText(s[2 * k], s[2 * k + 1]) && OctetValue(s[2 * k], s[2 * k + 1]) == v[k]
    {
      var t := OctetsText(v);
      assert t[2 * k..2 * k + 2] == OctetText(v[k]);
      assert s[2 * k] == t[2 * k] == OctetText(v[k])[0];
      assert s[2 * k + 1] == t[2 * k + 1] == OctetText(v[k])[1];
      OctetTextValue(v[k]);
    }
  }
}
