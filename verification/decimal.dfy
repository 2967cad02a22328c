/** Decimal text of natural numbers, as Python's `str` writes a non-negative
    `int`: the event store names every event by the decimal text of its
    position (`str(len(db) + 1)`), so two positions give the same key only
    if they are the same number. */
module Decimal {

  predicate IsDigit(c: char) {
    '0' <= c <= '9'
  }

  predicate AllDigits(s: string) {
    forall i :: 0 <= i < |s| ==> IsDigit(s[i])
  }

  /** The text `str(n)` produces for some `n >= 0`: digits only, at least one,
      and no leading zero unless the whole text is "0". */
  predicate IsCanonical(s: string) {
    |s| >= 1 && AllDigits(s) && (|s| > 1 ==> s[0] != '0')
  }

  function DigitValue(c: char): (d: nat)
    requires IsDigit(c)
    ensures d < 10
  {
    c as int - '0' as int
  }

  function DigitChar(d: nat): (c: char)
    requires d < 10
    ensures IsDigit(c) && DigitValue(c) == d
  {
    ('0' as int + d) as char
  }

  /** `str(n)` for a non-negative integer. */
  function FromNat(n: nat): (s: string)
    ensures IsCanonical(s)
    ensures n > 0 ==> s[0] != '0'
    ensures n < 10 <==> |s| == 1
  {
    if n < 10 then [DigitChar(n)] else FromNat(n / 10) + [DigitChar(n % 10)]
  }

  /** The number a string of digits denotes (leading zeros allowed). */
  function ToNat(s: string): nat
    requires AllDigits(s)
  {
    if s == [] then 0 else 10 * ToNat(s[..|s| - 1]) + DigitValue(s[|s| - 1])
  }

  /** Reading back the text of `n` gives `n`. */
  lemma {:induction false} ToNatFromNat(n: nat)
    ensures ToNat(FromNat(n)) == n
  {
    if n >= 10 {
      var s := FromNat(n);
      assert s[..|s| - 1] == FromNat(n / 10);
      ToNatFromNat(n / 10);
    }
  }

  /** Distinct numbers have distinct texts. */
  lemma FromNatInjective(m: nat, n: nat)
    ensures FromNat(m) == FromNat(n) <==> m == n
  {
    if FromNat(m) == FromNat(n) {
      ToNatFromNat(m);
      ToNatFromNat(n);
    }
  }

  lemma {:induction false} ToNatPositive(s: string)
    requires |s| >= 1 && AllDigits(s) && s[0] != '0'
    ensures ToNat(s) > 0
  {
    if |s| > 1 {
      ToNatPositive(s[..|s| - 1]);
    }
  }

  /** A canonical text is the text of the number it denotes; so a text with a
      leading zero, a sign or a blank is the text of no number. */
  lemma {:induction false} FromNatToNat(s: string)
    requires IsCanonical(s)
    ensures FromNat(ToNat(s)) == s
  {
    var p, c := s[..|s| - 1], s[|s| - 1];
    var d := DigitValue(c);
    if |s| == 1 {
      assert ToNat(s) == d;
      assert DigitChar(d) == c;
    } else {
      assert p[0] == s[0];
      ToNatPositive(p);
      FromNatToNat(p);
      var n := ToNat(s);
      assert n == 10 * ToNat(p) + d;
      assert n / 10 == ToNat(p) && n % 10 == d;
      assert DigitChar(d) == c;
      assert s == p + [c];
    }
  }
}
