/**
 * `str::parse::<usize>` on a 64-bit target: an optional leading `+`, then one or
 * more ASCII decimal digits whose value fits in 64 bits. Anything else (the empty
 * string, a lone `+`, a `-` sign, whitespace, any other character, overflow) is an
 * error.
 */
module Usize {
  import opened Wrappers

  /** One more than the largest `usize`. */
  const Limit: nat := 0x1_0000_0000_0000_0000

  predicate IsDigit(c: char) {
    '0' <= c <= '9'
  }

  predicate AllDigits(s: string) {
    forall i :: 0 <= i < |s| ==> IsDigit(s[i])
  }

  function DigitValue(c: char): nat
    requires IsDigit(c)
  {
    c as int - '0' as int
  }

  /** The value of a string of decimal digits, most significant first. */
  function DigitsValue(s: string): nat
    requires AllDigits(s)
    decreases |s|
  {
    if s == [] then 0 else DigitsValue(s[..|s| - 1]) * 10 + DigitValue(s[|s| - 1])
  }

  /** The digits after the optional `+`; a lone `+` is kept, so that it is rejected. */
  function Unsigned(s: string): string {
    if |s| > 1 && s[0] == '+' then s[1..] else s
  }

  function ParseUsize(s: string): (r: Option<nat>)
    ensures r.Some? ==> r.value < Limit
  {
    var digits := Unsigned(s);
    if digits != [] && AllDigits(digits) && DigitsValue(digits) < Limit then Some(DigitsValue(digits)) else None
  }

  /** `usize::to_string`: the shortest decimal spelling. */
  function Decimal(n: nat): (s: string)
    ensures s != [] && AllDigits(s)
    decreases n
  {
    if n < 10 then [('0' as int + n) as char] else Decimal(n / 10) + [('0' as int + n % 10) as char]
  }

  lemma {:induction false} DecimalValue(n: nat)
    ensures DigitsValue(Decimal(n)) == n
    decreases n
  {
    var s := Decimal(n);
    if n >= 10 {
      DecimalValue(n / 10);
      assert s[..|s| - 1] == Decimal(n / 10);
    }
  }

  /** Every `usize` parses back from its decimal spelling, with or without a `+`. */
  lemma {:induction false} ParseDecimal(n: nat)
    requires n < Limit
    ensures ParseUsize(Decimal(n)) == Some(n)
    ensures ParseUsize("+" + Decimal(n)) == Some(n)
  {
    DecimalValue(n);
    var s := Decimal(n);
    assert s[0] != '+';
    assert Unsigned("+" + s) == s;
  }

  /** A string that starts with a character other than a digit or `+` never parses. */
  lemma {:induction false} NonDigitRejected(s: string)
    requires s != [] && !IsDigit(s[0]) && s[0] != '+'
    ensures ParseUsize(s) == None
  {
    assert Unsigned(s) == s;
  }

  /** A lone sign, the empty string and a minus sign are rejected. */
  lemma RejectedExamples()
    ensures ParseUsize("") == None
    ensures ParseUsize("+") == None
    ensures ParseUsize("-1") == None
    ensures ParseUsize("Heading" + "1") == None
  {
    NonDigitRejected("-1");
    NonDigitRejected("Heading" + "1");
  }

  /** `0` is a level like any other; a `+` sign and leading zeros are accepted. */
  lemma AcceptedExamples()
    ensures ParseUsize("0") == Some(0)
    ensures ParseUsize("+7") == Some(7)
    ensures ParseUsize("007") == Some(7)
  {
    assert Unsigned("+7") == "7";
    var s := "007";
    assert s[..2] == "00" && s[..2][..1] == "0" && s[..2][..1][..0] == [];
    assert DigitsValue("0") == 0;
    assert DigitsValue("00") == 0;
    assert DigitsValue(s) == 7;
  }

  /** The largest `usize` parses; one more overflows. */
  lemma {:induction false} Bounds()
    ensures ParseUsize(Decimal(Limit - 1)) == Some(Limit - 1)
    ensures ParseUsize(Decimal(Limit)) == None
  {
    ParseDecimal(Limit - 1);
    DecimalValue(Limit);
    assert Decimal(Limit)[0] != '+';
  }
}
