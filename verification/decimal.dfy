/** Decimal text of unsigned integers: Rust's `Display` for `usize`/`u64`
    (as used by `format!("{}", n)` and `n.to_string()`) and `str::parse`
    for the unsigned integer types. */
module Decimal {
  import opened Base

  predicate IsDigit(c: char) {
    '0' <= c <= '9'
  }

  predicate AllDigits(s: string) {
    forall i :: 0 <= i < |s| ==> IsDigit(s[i])
  }

  function DigitChar(d: nat): (c: char)
    requires d < 10
    ensures IsDigit(c)
  {
    ('0' as int + d) as char
  }

  function DigitValue(c: char): (d: nat)
    requires IsDigit(c)
    ensures d < 10 && DigitChar(d) == c
  {
    c as int - '0' as int
  }

  /** The value of a digit string, most significant digit first. */
  function Value(s: string): nat
    requires AllDigits(s)
  {
    if s == [] then 0 else 10 * Value(s[..|s| - 1]) + DigitValue(s[|s| - 1])
  }

  /** Rust's `Display` for an unsigned integer: shortest decimal text, no
      sign, no leading zeros. */
  function NatToString(n: nat): (s: string)
    ensures 1 <= |s| && AllDigits(s)
    ensures |s| > 1 ==> s[0] != '0'
  {
    if n < 10 then [DigitChar(n)] else NatToString(n / 10) + [DigitChar(n % 10)]
  }

  /** `str::parse::<uN>()` where `limit` is 2^N: an optional leading `+`,
      then at least one ASCII digit and nothing else, and the value must fit.
      A leading `-` is never accepted for an unsigned type. */
  function ParseUnsigned(s: string, limit: nat): (r: Option<nat>)
    ensures r.Some? ==> r.value < limit
    ensures r.Some? ==> 0 < |s| && (IsDigit(s[0]) || s[0] == '+')
  {
    var digits := if 0 < |s| && s[0] == '+' then s[1..] else s;
    if 0 < |digits| && AllDigits(digits) && Value(digits) < limit then Some(Value(digits)) else None
  }

  /** Reading back a rendered number gives the number. */
  lemma {:induction false} ValueOfNatToString(n: nat)
    ensures Value(NatToString(n)) == n
  {
    if n >= 10 {
      var s := NatToString(n);
      assert s[..|s| - 1] == NatToString(n / 10);
      ValueOfNatToString(n / 10);
    }
  }

  /** `parse` inverts `Display`: the rendered number parses back to itself
      exactly when it fits the target type. */
  lemma {:induction false} ParseNatToString(n: nat, limit: nat)
    ensures ParseUnsigned(NatToString(n), limit) == (if n < limit then Some(n) else None)
  {
    ValueOfNatToString(n);
  }

  /** The first digit of `NatToString(n)` is at most `n`: it is `n` itself
      below ten, and strictly less once `n` has two digits or more. */
  lemma {:induction false} FirstDigitBound(n: nat)
    ensures DigitValue(NatToString(n)[0]) <= n
    ensures n >= 10 ==> DigitValue(NatToString(n)[0]) < n
    ensures n < 10 ==> DigitValue(NatToString(n)[0]) == n
  {
    if n >= 10 {
      FirstDigitBound(n / 10);
      assert NatToString(n)[0] == NatToString(n / 10)[0];
    }
  }

  /** The decimal text of a number never contains a line feed, a carriage
      return, a space or a colon. */
  lemma {:induction false} NatToStringPlain(n: nat)
    ensures NoChar(NatToString(n), '\n') && NoChar(NatToString(n), '\r')
    ensures NoChar(NatToString(n), ' ') && NoChar(NatToString(n), ':')
  {
  }

  /** A lone digit parses as its value. */
  lemma {:induction false} ParseDigit(c: char, limit: nat)
    requires IsDigit(c) && 10 <= limit
    ensures ParseUnsigned([c], limit) == Some(DigitValue(c))
  {
    assert [c][0] == c && [c][..0] == [];
    assert AllDigits([c]);
    assert Value([c]) == DigitValue(c);
  }
}
