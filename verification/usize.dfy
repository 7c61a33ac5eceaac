/**
 * Rust's `usize::from_str`, which the resolver uses to read an array
 * index from a reference token: an optional leading `+`, then one or
 * more ASCII decimal digits (leading zeros allowed), whose value must fit
 * in a 64-bit `usize`. Anything else is a parse failure.
 */
module Usize {
  import opened Wrappers

  /** The largest `usize` on a 64-bit target. */
  const USIZE_MAX: nat := 0xFFFF_FFFF_FFFF_FFFF

  predicate IsDigit(c: char) {
    '0' <= c <= '9'
  }

  predicate AllDigits(s: string) {
    forall i :: 0 <= i < |s| ==> IsDigit(s[i])
  }

  /** The value of a string of decimal digits, most significant first. */
  function DigitsValue(s: string): nat
    requires AllDigits(s)
  {
    if s == [] then 0
    else DigitsValue(s[..|s| - 1]) * 10 + (s[|s| - 1] as int - '0' as int)
  }

  /** Parse failures are a value (None), never a panic. */
  function ParseUsize(tok: string): (r: Option<nat>)
    ensures r.Some? ==> r.value <= USIZE_MAX
  {
    var digits := if |tok| >= 1 && tok[0] == '+' then tok[1..] else tok;
    if digits == [] || !AllDigits(digits) then None
    else if DigitsValue(digits) > USIZE_MAX then None
    else Some(DigitsValue(digits))
  }

  /** The canonical decimal rendering of a number (no sign, no leading zeros). */
  function Decimal(n: nat): (r: string)
    ensures r != [] && AllDigits(r)
    ensures r[0] == '0' ==> n == 0
  {
    var d := ['0' + (n % 10) as char];
    if n < 10 then d else Decimal(n / 10) + d
  }

  /** Parsing the decimal rendering of any `usize` gives it back. */
  lemma {:induction false} ParseDecimal(n: nat)
    requires n <= USIZE_MAX
    ensures ParseUsize(Decimal(n)) == Some(n)
  {
    DecimalValue(n);
  }

  lemma {:induction false} DecimalValue(n: nat)
    ensures DigitsValue(Decimal(n)) == n
  {
    if n >= 10 {
      DecimalValue(n / 10);
      var s := Decimal(n);
      assert s[..|s| - 1] == Decimal(n / 10);
    }
  }

  /** A leading zero does not change the value of a digit string. */
  lemma {:induction false} LeadingZeroValue(s: string)
    requires AllDigits(s)
    ensures AllDigits("0" + s) && DigitsValue("0" + s) == DigitsValue(s)
  {
    if s != [] {
      var z := "0" + s;
      assert z[..|z| - 1] == "0" + s[..|s| - 1];
      LeadingZeroValue(s[..|s| - 1]);
    }
  }

  /** Leading zeros are accepted: "01" reads as 1 (section 4 of RFC 6901 forbids this form). */
  lemma LeadingZeroAccepted(s: string)
    requires s != [] && s[0] != '+'
    ensures ParseUsize("0" + s) == ParseUsize(s)
  {
    var z := "0" + s;
    assert z[1..] == s;
    if AllDigits(s) {
      LeadingZeroValue(s);
    } else {
      var i :| 0 <= i < |s| && !IsDigit(s[i]);
      assert z[i + 1] == s[i];
    }
  }

  /** A single leading `+` is accepted and ignored. */
  lemma PlusAccepted(s: string)
    requires s == [] || s[0] != '+'
    ensures ParseUsize("+" + s) == ParseUsize(s)
  {
    assert ("+" + s)[1..] == s;
  }

  /** A number past `usize` fails to parse, so the resolver reports it as a missing key. */
  lemma Overflow(n: nat)
    requires n > USIZE_MAX
    ensures ParseUsize(Decimal(n)) == None
  {
    DecimalValue(n);
  }

  /** No sign but `+` is accepted, and the empty token is rejected. */
  lemma Rejections(s: string)
    ensures ParseUsize("-" + s) == None
    ensures ParseUsize("") == None
    ensures ParseUsize("+") == None
  {
    assert !IsDigit(("-" + s)[0]);
  }
}
