/** Well-formed UTF-8 (Table 3-7 of the Unicode Standard), the condition
    under which `String::from_utf8` succeeds. The Rust code unwraps that
    conversion, so the model turns it into a precondition. */
module Utf8 {
  import opened Common

  predicate Continuation(b: byte) { 0x80 <= b <= 0xBF }

  /** Length of the well-formed code-unit sequence at the start of `s`, or 0
      when `s` does not start with one. */
  function LeadLength(s: seq<byte>): (n: nat)
    requires |s| > 0
    ensures n <= |s| && n <= 4
  {
    var b0 := s[0];
    if b0 <= 0x7F then 1
    else if 0xC2 <= b0 <= 0xDF then
      (if |s| >= 2 && Continuation(s[1]) then 2 else 0)
    else if 0xE0 <= b0 <= 0xEF then
      var lo := if b0 == 0xE0 then 0xA0 else 0x80;
      var hi := if b0 == 0xED then 0x9F else 0xBF;
      (if |s| >= 3 && lo <= s[1] <= hi && Continuation(s[2]) then 3 else 0)
    else if 0xF0 <= b0 <= 0xF4 then
      var lo := if b0 == 0xF0 then 0x90 else 0x80;
      var hi := if b0 == 0xF4 then 0x8F else 0xBF;
      (if |s| >= 4 && lo <= s[1] <= hi && Continuation(s[2]) && Continuation(s[3]) then 4 else 0)
    else 0
  }

  /** `s` splits into well-formed code-unit sequences. */
  predicate Valid(s: seq<byte>)
    decreases |s|
  {
    s == [] || (LeadLength(s) > 0 && Valid(s[LeadLength(s)..]))
  }

  /** Every ASCII byte string is well-formed UTF-8. */
  lemma {:induction false} AsciiValid(s: seq<byte>)
    requires forall i :: 0 <= i < |s| ==> s[i] < 128
    ensures Valid(s)
  {
    if s != [] {
      assert LeadLength(s) == 1;
      AsciiValid(s[1..]);
    }
  }

  /** Well-formedness is closed under concatenation. */
  lemma {:induction false} ConcatValid(a: seq<byte>, b: seq<byte>)
    requires Valid(a) && Valid(b)
    ensures Valid(a + b)
  {
    if a != [] {
      var n := LeadLength(a);
      LeadExtended(a, b);
      DropConcat(a, b, n);
      ConcatValid(a[n..], b);
    } else {
      assert a + b == b;
    }
  }

  /** A well-formed sequence at the front keeps its length whatever
      follows it. */
  lemma LeadExtended(a: seq<byte>, b: seq<byte>)
    requires a != [] && LeadLength(a) > 0
    ensures LeadLength(a + b) == LeadLength(a)
  {
    var n := LeadLength(a);
    assert forall k :: 0 <= k < n ==> (a + b)[k] == a[k];
  }

  lemma DropConcat(a: seq<byte>, b: seq<byte>, n: nat)
    requires n <= |a|
    ensures (a + b)[n..] == a[n..] + b
  {
  }
}
