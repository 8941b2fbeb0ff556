/**
 * A restricted decimal reader for measurement texts of the form
 * `-?[0-9]+\.[0-9]` (one fractional digit), giving the value in tenths.
 * It stands in for the program's `parse::<f64>()` in concrete scenarios; it
 * accepts far fewer texts than Rust's float grammar.
 */
module Decimal {
  import opened Wrappers

  predicate IsDigit(c: char) {
    '0' <= c <= '9'
  }

  function DigitValue(c: char): nat
    requires IsDigit(c)
  {
    (c as int - '0' as int) as nat
  }

  function DigitChar(d: nat): (c: char)
    requires d < 10
    ensures IsDigit(c) && DigitValue(c) == d
  {
    ('0' as int + d) as char
  }

  predicate AllDigits(s: string) {
    forall i :: 0 <= i < |s| ==> IsDigit(s[i])
  }

  /** The number a string of digits denotes, most significant digit first. */
  function DigitsValue(s: string): nat
    requires AllDigits(s)
  {
    if s == [] then 0 else DigitsValue(s[..|s| - 1]) * 10 + DigitValue(s[|s| - 1])
  }

  /** The decimal digits of `n`, most significant first, without leading zeros. */
  function Digits(n: nat): (s: string)
    ensures |s| >= 1 && AllDigits(s)
  {
    if n < 10 then [DigitChar(n)] else Digits(n / 10) + [DigitChar(n % 10)]
  }

  lemma {:induction false} DigitsRoundTrip(n: nat)
    ensures DigitsValue(Digits(n)) == n
  {
    var s := Digits(n);
    if n >= 10 {
      DigitsRoundTrip(n / 10);
      assert s[..|s| - 1] == Digits(n / 10);
    } else {
      assert s[..0] == [];
    }
  }

  /** The value in tenths of a text `-?digits.digit`, or None. */
  function ParseTenths(s: string): Option<int> {
    var neg := |s| > 0 && s[0] == '-';
    var body := if neg then s[1..] else s;
    if |body| >= 3 && body[|body| - 2] == '.' && AllDigits(body[..|body| - 2]) && IsDigit(body[|body| - 1])
    then
      var magnitude := DigitsValue(body[..|body| - 2]) * 10 + DigitValue(body[|body| - 1]);
      Some(if neg then -magnitude else magnitude)
    else None
  }

  /** The text `-?digits.digit` of a value in tenths. */
  function ShowTenths(v: int): string {
    var m := if v < 0 then -v else v;
    (if v < 0 then "-" else "") + Digits(m / 10) + "." + [DigitChar(m % 10)]
  }

  /** Every value written by ShowTenths reads back as itself. */
  lemma ParseShowTenths(v: int)
    ensures ParseTenths(ShowTenths(v)) == Some(v)
  {
    var m := if v < 0 then -v else v;
    var body := Digits(m / 10) + "." + [DigitChar(m % 10)];
    BodyValue(m);
    if v < 0 {
      assert ShowTenths(v) == "-" + body;
      assert ("-" + body)[1..] == body;
    } else {
      assert ShowTenths(v) == body;
      assert IsDigit(body[0]);
    }
  }

  /** The unsigned part `digits.digit` of a value's text, and what it reads as. */
  lemma BodyValue(m: nat)
    ensures var body := Digits(m / 10) + "." + [DigitChar(m % 10)];
      && |body| >= 3 && body[|body| - 2] == '.'
      && AllDigits(body[..|body| - 2]) && IsDigit(body[|body| - 1])
      && DigitsValue(body[..|body| - 2]) * 10 + DigitValue(body[|body| - 1]) == m
  {
    var body := Digits(m / 10) + "." + [DigitChar(m % 10)];
    assert body[..|body| - 2] == Digits(m / 10);
    DigitsRoundTrip(m / 10);
  }

  /** A text that ParseTenths accepts ends in a point and one digit. */
  lemma ParseTenthsShape(s: string)
    requires ParseTenths(s).Some?
    ensures |s| >= 3 && s[|s| - 2] == '.' && IsDigit(s[|s| - 1])
    ensures ';' !in s
  {
    var neg := |s| > 0 && s[0] == '-';
    var body := if neg then s[1..] else s;
    assert forall i :: 0 <= i < |body| ==> IsDigit(body[i]) || body[i] == '.';
    forall i | 0 <= i < |s|
      ensures s[i] != ';'
    {
      if neg && i == 0 {
      } else {
        assert s[i] == body[if neg then i - 1 else i];
      }
    }
  }
}
