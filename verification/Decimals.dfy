/** Decimal numbers as `usize` parsing reads them and as any printer writes them. */
module Decimals {
  import opened Options
  import opened Words

  predicate IsDigit(c: char) { '0' <= c <= '9' }

  function DigitOf(c: char): nat
    requires IsDigit(c)
  {
    c as int - '0' as int
  }

  function CharOf(d: nat): (c: char)
    requires d < 10
    ensures IsDigit(c) && DigitOf(c) == d
  {
    ('0' as int + d) as char
  }

  predicate AllDigits(s: string) { forall i :: 0 <= i < |s| ==> IsDigit(s[i]) }

  function Value(s: string): nat
    requires AllDigits(s)
  {
    if s == "" then 0 else 10 * Value(s[..|s| - 1]) + DigitOf(s[|s| - 1])
  }

  /** One leading plus is allowed; anything but digits, or a value past the word, is no number. */
  function ParseUsize(s: string): Option<U64>
  {
    var digits := if s != "" && s[0] == '+' then s[1..] else s;
    if digits == "" || !AllDigits(digits) || Value(digits) > U64_MAX then None else Some(Value(digits))
  }

  function Decimal(n: nat): (s: string)
    ensures |s| > 0 && AllDigits(s)
  {
    if n < 10 then [CharOf(n)] else Decimal(n / 10) + [CharOf(n % 10)]
  }

  lemma {:induction false} ValueOfDecimal(n: nat)
    ensures Value(Decimal(n)) == n
  {
    if n < 10 {
      assert [CharOf(n)][..0] == "";
    } else {
      ValueOfDecimal(n / 10);
      assert (Decimal(n / 10) + [CharOf(n % 10)])[..|Decimal(n / 10)|] == Decimal(n / 10);
    }
  }

  /** A printed number reads back as itself exactly when it fits the word. */
  lemma ParsePrinted(n: nat)
    ensures ParseUsize(Decimal(n)) == if n <= U64_MAX then Some(n) else None
  {
    hide Decimal, Value;
    ValueOfDecimal(n);
    assert Decimal(n)[0] != '+';
  }
}
