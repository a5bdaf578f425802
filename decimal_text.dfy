// Decimal text of integers, standing in for Go's `strconv.Itoa`, and the
// suffix test of `strings.HasSuffix`, as the round-number check of
// humanround.go uses them.

module DecimalText {

  function DigitChar(d: nat): (c: char)
    requires d < 10
    ensures '0' <= c <= '9'
  {
    "0123456789"[d]
  }

  predicate IsDigits(s: string) {
    forall i :: 0 <= i < |s| ==> '0' <= s[i] <= '9'
  }

  /** The decimal digits of n, most significant first, without leading zeros. */
  function Digits(n: nat): (s: string)
    ensures |s| >= 1 && IsDigits(s)
    ensures s[|s| - 1] == DigitChar(n % 10)
  {
    if n < 10 then [DigitChar(n)] else Digits(n / 10) + [DigitChar(n % 10)]
  }

  /** The value of a string of decimal digits (the inverse of Digits). */
  function DigitsValue(s: string): nat
    requires IsDigits(s)
  {
    if s == [] then 0
    else DigitsValue(s[..|s| - 1]) * 10 + (s[|s| - 1] as int - '0' as int)
  }

  /** Digits is a faithful decimal rendering: reading it back gives n. */
  lemma {:induction false} DigitsRoundTrip(n: nat)
    ensures DigitsValue(Digits(n)) == n
  {
    DigitCharValue(n % 10);
    if n >= 10 {
      var t := Digits(n / 10);
      var s := t + [DigitChar(n % 10)];
      assert s[..|s| - 1] == t;
      DigitsRoundTrip(n / 10);
    }
  }

  /** The character of digit d stands for d. */
  lemma DigitCharValue(d: nat)
    requires d < 10
    ensures DigitChar(d) as int - '0' as int == d
  {
  }

  /** Go's strconv.Itoa: a minus sign for negative numbers, then the digits. */
  function Itoa(n: int): string {
    if n < 0 then "-" + Digits(-n) else Digits(n)
  }

  /** Go's strings.HasSuffix. */
  predicate HasSuffix(s: string, suffix: string) {
    |s| >= |suffix| && s[|s| - |suffix|..] == suffix
  }

  /** The text of n ends in the digit 0 exactly when n is a multiple of ten,
      for negative n as well. */
  lemma ItoaEndsInZero(n: int)
    ensures HasSuffix(Itoa(n), "0") <==> n % 10 == 0
  {
    var m: nat := if n < 0 then -n else n;
    DigitsEndInZero(m);
    var s := Itoa(n);
    assert s[|s| - 1..] == Digits(m)[|Digits(m)| - 1..];
    NegatedMultipleOfTen(n);
  }

  /** The digits of m end in "0" exactly when m is a multiple of ten. */
  lemma DigitsEndInZero(m: nat)
    ensures HasSuffix(Digits(m), "0") <==> m % 10 == 0
  {
    var s := Digits(m);
    assert s[|s| - 1..] == [DigitChar(m % 10)];
    DigitCharValue(m % 10);
  }

  lemma NegatedMultipleOfTen(n: int)
    ensures n % 10 == 0 <==> (-n) % 10 == 0
  {
    var q, r := n / 10, n % 10;
    if r == 0 {
      RemainderOfTen(-n, -q, 0);
    } else {
      RemainderOfTen(-n, -q - 1, 10 - r);
    }
  }

  /** The remainder by ten of 10q + r, for a digit r, is r. */
  lemma RemainderOfTen(m: int, q: int, r: int)
    requires 0 <= r < 10 && m == 10 * q + r
    ensures m % 10 == r
  {
  }
}
