/** Decimal names of checkpoint files.

    The model manager writes a checkpoint to the file named `f"{step}"`; the
    online tester keeps the directory entries for which `str.isdigit()` holds
    and turns them back into steps with `int(...)`.  Only ASCII digits are
    modelled. */
module Decimal {

  predicate IsDigit(c: char) {
    '0' <= c <= '9'
  }

  predicate AllDigits(s: string) {
    forall i :: 0 <= i < |s| ==> IsDigit(s[i])
  }

  /** Python's `s.isdigit()` on ASCII text: non-empty and digits only. */
  predicate IsDigitName(s: string) {
    |s| > 0 && AllDigits(s)
  }

  /** A name as `f"{n}"` prints a natural number: no leading zero except "0" itself. */
  predicate Canonical(s: string) {
    IsDigitName(s) && (s[0] == '0' ==> |s| == 1)
  }

  function DigitValue(c: char): (d: nat)
    requires IsDigit(c)
    ensures d < 10
  {
    (c as int) - ('0' as int)
  }

  function DigitChar(d: nat): (c: char)
    requires d < 10
    ensures IsDigit(c) && DigitValue(c) == d
  {
    (('0' as int) + d) as char
  }

  /** `int(s)` for a string of digits (leading zeros allowed, as in Python). */
  function ParseNat(s: string): nat
    requires AllDigits(s)
  {
    if |s| == 0 then 0 else ParseNat(s[..|s| - 1]) * 10 + DigitValue(s[|s| - 1])
  }

  /** `f"{n}"` for a natural number. */
  function NatToString(n: nat): (s: string)
    ensures Canonical(s)
  {
    if n < 10 then [DigitChar(n)]
    else
      NatToString(n / 10) + [DigitChar(n % 10)]
  }

  /** `f"{n}"` for any integer: negative numbers get a leading minus sign. */
  function IntToString(n: int): (s: string)
    ensures n >= 0 ==> Canonical(s)
    ensures n < 0 ==> !IsDigitName(s)
  {
    if n < 0 then
      var s := "-" + NatToString(-n);
      assert !IsDigit(s[0]);
      s
    else NatToString(n)
  }

  /** Printing a step and parsing it back gives the step. */
  lemma {:induction false} ParseOfShow(n: nat)
    ensures ParseNat(NatToString(n)) == n
  {
    if n >= 10 {
      var prefix := NatToString(n / 10);
      var s := prefix + [DigitChar(n % 10)];
      assert s[..|s| - 1] == prefix;
      ParseOfShow(n / 10);
    }
  }

  /** A canonical decimal name with a non-zero first digit denotes a positive number. */
  lemma {:induction false} LeadingDigitPositive(s: string)
    requires IsDigitName(s) && s[0] != '0'
    ensures ParseNat(s) >= 1
  {
    if |s| > 1 {
      var prefix := s[..|s| - 1];
      assert prefix[0] == s[0];
      LeadingDigitPositive(prefix);
    } else {
      assert s[..0] == [];
    }
  }

  /** Parsing a canonical name and printing it back gives the name. */
  lemma {:induction false} ShowOfParse(s: string)
    requires Canonical(s)
    ensures NatToString(ParseNat(s)) == s
  {
    var prefix := s[..|s| - 1];
    var last := s[|s| - 1];
    assert s == prefix + [last];
    if |prefix| == 0 {
      assert ParseNat(s) == DigitValue(last);
    } else {
      assert prefix[0] == s[0];
      LeadingDigitPositive(prefix);
      ShowOfParse(prefix);
      var n := ParseNat(s);
      assert n == ParseNat(prefix) * 10 + DigitValue(last);
      assert n / 10 == ParseNat(prefix) && n % 10 == DigitValue(last);
      assert DigitChar(DigitValue(last)) == last;
    }
  }

  /** Distinct steps are written to distinct file names. */
  lemma NamesDistinct(a: int, b: int)
    requires a != b
    ensures IntToString(a) != IntToString(b)
  {
    if a >= 0 && b >= 0 {
      ParseOfShow(a);
      ParseOfShow(b);
    } else if a < 0 && b < 0 {
      var ta, tb := NatToString(-a), NatToString(-b);
      ParseOfShow(-a);
      ParseOfShow(-b);
      assert ta != tb;
      assert ("-" + ta)[1..] == ta && ("-" + tb)[1..] == tb;
    }
  }
}
