/** Swapped-nibble decimal digits ("semi-octets", section 9.1.2.3 of
    3GPP TS 23.040) as `get_decimal_octets` reads them from the hex text of
    a PDU: each pair of characters is emitted second-then-first, and an 'F'
    in the first position of the last pair marks an odd digit count. */
module SemiOctets {
  import opened Common

  /** The digits of the first `n` character pairs of `s`, each pair
      swapped, with the filler of the last pair dropped. */
  function Swapped(s: string, n: nat): (r: string)
    requires 1 <= n && 2 * n <= |s|
    ensures |r| == if s[2 * n - 2] == 'F' then 2 * n - 1 else 2 * n
    decreases n
  {
    if n == 1 then Last(s, 0)
    else [s[1], s[0]] + Swapped(s[2..], n - 1)
  }

  /** Pair `k` of `s` read as the last one: its second character, then its
      first unless that is the filler 'F'. */
  function Last(s: string, k: nat): string
    requires 2 * k + 2 <= |s|
  {
    [s[2 * k + 1]] + (if s[2 * k] == 'F' then "" else [s[2 * k]])
  }

  /** The first `k` pairs of `s`, each swapped, none taken for the last. */
  function Pairs(s: string, k: nat): (r: string)
    requires 2 * k <= |s|
    ensures |r| == 2 * k
  {
    if k == 0 then "" else Pairs(s, k - 1) + [s[2 * k - 1], s[2 * k - 2]]
  }

  /** `get_decimal_octets(s, n)`: the digits of `n` octets and the text
      after them, or None when fewer than `2 * n` characters remain. */
  function GetDecimalOctets(s: string, n: nat): (r: Option<(string, string)>)
    ensures n == 0 ==> r == Some(("", s))
    ensures r.None? <==> |s| < 2 * n
    ensures r.Some? ==> r.value.1 == s[2 * n..]
    ensures r.Some? && n > 0 ==> |r.value.0| == if s[2 * n - 2] == 'F' then 2 * n - 1 else 2 * n
  {
    if n == 0 then Some(("", s))
    else if |s| < 2 * n then None
    else Some((Swapped(s, n), s[2 * n..]))
  }

  /** The loop of `get_decimal_octets`, over a character iterator whose
      position is `pos`; it computes `GetDecimalOctets`. */
  method ReadDecimalOctets(s: string, n: nat) returns (r: Option<(string, string)>)
    ensures r == GetDecimalOctets(s, n)
  {
    if n == 0 {
      return Some(("", s));
    }
    var pos := 0;
    var output := "";
    var parsed := 0;
    while parsed < n
      invariant 0 <= parsed <= n
      invariant pos == 2 * parsed <= |s|
      invariant parsed < n ==> output == Pairs(s, parsed)
      invariant parsed == n ==> output == Pairs(s, n - 1) + Last(s, n - 1)
    {
      var first: Option<char> := None;
      if pos < |s| {
        first := Some(s[pos]);
        pos := pos + 1;
      }
      var second: Option<char> := None;
      if pos < |s| {
        second := Some(s[pos]);
        pos := pos + 1;
      }
      if second.None? {
        return None;
      }
      output := output + [second.value];
      if first.None? {
        return None;
      }
      if parsed + 1 == n && first.value == 'F' {
        // A final 'F' shows an odd number of digits.
        assert Last(s, parsed) == [second.value];
        SwappedIsPairs(s, n);
        return Some((output, s[pos..]));
      }
      output := output + [first.value];
      parsed := parsed + 1;
    }
    SwappedIsPairs(s, n);
    r := Some((output, s[pos..]));
  }

  /** Swapping the first `k + 1` pairs swaps the first pair, then the
      following `k`. */
  lemma {:induction false} PairsCons(s: string, k: nat)
    requires 2 * k + 2 <= |s|
    ensures Pairs(s, k + 1) == [s[1], s[0]] + Pairs(s[2..], k)
  {
    if k > 0 {
      PairsCons(s, k - 1);
      assert s[2..][2 * k - 1] == s[2 * k + 1] && s[2..][2 * k - 2] == s[2 * k];
    }
  }

  /** What the loop collects, pair by pair from the front, is what
      `Swapped` describes. */
  lemma {:induction false} SwappedIsPairs(s: string, n: nat)
    requires 1 <= n && 2 * n <= |s|
    ensures Swapped(s, n) == Pairs(s, n - 1) + Last(s, n - 1)
    decreases n
  {
    if n > 1 {
      SwappedIsPairs(s[2..], n - 1);
      PairsCons(s, n - 2);
      SwappedCons(s, n);
      assert Last(s[2..], n - 2) == Last(s, n - 1);
      Assoc([s[1], s[0]], Pairs(s[2..], n - 2), Last(s, n - 1));
    }
  }

  /** Whether `n` is odd. */
  function Odd(n: nat): bool {
    if n < 2 then n == 1 else Odd(n - 2)
  }

  /** The semi-octet text of a digit string: pairs swapped, and an odd
      count padded with a leading 'F' in the last pair. */
  function Encode(d: string): (e: string)
    ensures |e| == if Odd(|d|) then |d| + 1 else |d|
    ensures |d| >= 2 ==> e[0] == d[1] && e[1] == d[0]
    ensures |d| == 1 ==> e[0] == 'F' && e[1] == d[0]
  {
    if |d| == 0 then ""
    else if |d| == 1 then ['F', d[0]]
    else [d[1], d[0]] + Encode(d[2..])
  }

  /** The digit strings `Encode` represents without loss: when the last
      pair is a whole pair, its second digit must not be 'F', which would
      read back as the filler. */
  predicate Representable(d: string) {
    if |d| <= 2 then |d| == 2 ==> d[1] != 'F' else Representable(d[2..])
  }

  /** A digit count rounds up to whole octets. */
  lemma {:induction false} EncodedLength(x: nat)
    ensures 2 * ((x + 1) / 2) == if Odd(x) then x + 1 else x
  {
    if x >= 2 {
      EncodedLength(x - 2);
      assert (x + 1) / 2 == (x - 1) / 2 + 1;
    }
  }

  /** Swapping depends only on the pairs swapped, not on what follows. */
  lemma {:induction false} SwappedPrefix(s: string, rest: string, n: nat)
    requires 1 <= n && 2 * n <= |s|
    ensures Swapped(s + rest, n) == Swapped(s, n)
    decreases n
  {
    if n > 1 {
      assert (s + rest)[2..] == s[2..] + rest;
      SwappedPrefix(s[2..], rest, n - 1);
    }
  }

  /** Past its first pair, an encoding is the encoding of the digits past
      the first two, and those are representable when all of them are. */
  lemma EncodeStep(d: string)
    requires Representable(d) && |d| >= 3
    ensures Encode(d)[2..] == Encode(d[2..]) && Representable(d[2..])
    ensures Encode(d)[0] == d[1] && Encode(d)[1] == d[0]
  {
  }

  /** Reading all the pairs of an encoding gives the digits back. */
  lemma SwappedEncoded(d: string, n: nat)
    requires Representable(d) && 1 <= n && 2 * n == |Encode(d)|
    ensures Swapped(Encode(d), n) == d
    decreases n
  {
    if |d| >= 3 {
      var e := Encode(d);
      var d' := d[2..];
      EncodeStep(d);
      SwappedEncoded(d', n - 1);
      SplitPair(d);
      SwappedCons(e, n);
    } else {
      SwappedEncodedPair(d);
    }
  }

  lemma SwappedCons(s: string, n: nat)
    requires 2 <= n && 2 * n <= |s|
    ensures Swapped(s, n) == [s[1], s[0]] + Swapped(s[2..], n - 1)
  {
  }

  lemma SplitPair(d: string)
    requires |d| >= 2
    ensures d == [d[0], d[1]] + d[2..]
  {
  }

  /** The last pair on its own: a lone digit after the filler, or two
      digits the second of which is not the filler. */
  lemma SwappedEncodedPair(d: string)
    requires Representable(d) && (|d| == 1 || |d| == 2)
    ensures |Encode(d)| == 2 && Swapped(Encode(d), 1) == d
  {
    if |d| == 1 {
      assert Encode(d) == ['F', d[0]];
    } else {
      assert d[1] != 'F' && Encode(d) == [d[1], d[0]];
      assert d == [d[0], d[1]];
    }
  }

  /** Decoding the encoding of a representable digit string gives it back
      and consumes exactly the encoded characters. */
  lemma {:induction false} RoundTrip(d: string, rest: string)
    requires Representable(d)
    ensures GetDecimalOctets(Encode(d) + rest, (|d| + 1) / 2) == Some((d, rest))
  {
    var n := (|d| + 1) / 2;
    var s := Encode(d) + rest;
    EncodedLength(|d|);
    if n > 0 {
      assert s[2 * n..] == rest;
      SwappedEncoded(d, n);
      SwappedPrefix(Encode(d), rest, n);
    }
  }
}
