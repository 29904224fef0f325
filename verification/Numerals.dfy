/** Positional notation: how a C++ stream prints a number, and how to read it back. */
module Numerals {
  import opened Base

  const DIGITS: string := "0123456789abcdef"

  function Digit(d: nat): char
    requires d < 16
  {
    DIGITS[d]
  }

  function DigitValue(c: char): int {
    if '0' <= c <= '9' then c as int - '0' as int
    else if 'a' <= c <= 'f' then c as int - 'a' as int + 10
    else -1
  }

  /** isspace in the C locale. */
  predicate IsSpace(c: char) { c == ' ' || 9 <= c as int <= 13 }

  lemma DigitRoundTrip(d: nat)
    requires d < 16
    ensures DigitValue(Digit(d)) == d
  {
    assert d == 0 || d == 1 || d == 2 || d == 3 || d == 4 || d == 5 || d == 6 || d == 7 || d == 8
           || d == 9 || d == 10 || d == 11 || d == 12 || d == 13 || d == 14 || d == 15;
  }

  function Numeral(n: nat, base: nat): (s: string)
    requires base == 10 || base == 16
    ensures |s| > 0
  {
    if n < base then [Digit(n)] else Numeral(n / base, base) + [Digit(n % base)]
  }

  predicate Digital(s: string) {
    forall i :: 0 <= i < |s| ==> 0 <= DigitValue(s[i])
  }

  function Parse(s: string, base: nat): int {
    if s == [] then 0 else Parse(s[..|s| - 1], base) * base + DigitValue(s[|s| - 1])
  }

  lemma ParseSnoc(s: string, d: nat, base: nat)
    requires d < 16 && Digital(s)
    ensures Digital(s + [Digit(d)]) && Parse(s + [Digit(d)], base) == Parse(s, base) * base + d
  {
    DigitRoundTrip(d);
    assert (s + [Digit(d)])[..|s|] == s;
  }

  lemma {:induction false} NumeralRoundTrip(n: nat, base: nat)
    requires base == 10 || base == 16
    ensures Digital(Numeral(n, base)) && Parse(Numeral(n, base), base) == n
    decreases n
  {
    if n < base {
      ParseSnoc([], n, base);
    } else {
      NumeralRoundTrip(n / base, base);
      ParseSnoc(Numeral(n / base, base), n % base, base);
    }
  }

  lemma NumeralInjective(m: nat, n: nat, base: nat)
    requires base == 10 || base == 16
    requires Numeral(m, base) == Numeral(n, base)
    ensures m == n
  {
    NumeralRoundTrip(m, base);
    NumeralRoundTrip(n, base);
  }

  /** Decimal with a sign. */
  function Signed(n: int): string {
    if n < 0 then "-" + Numeral(-n, 10) else Numeral(n, 10)
  }

  // ---- reading numbers back ----------------------------------------------------

  /** One or more digits of the base, without superfluous zeros in front. */
  predicate IsNatural(s: string, base: nat) {
    && s != []
    && (forall i :: 0 <= i < |s| ==> 0 <= DigitValue(s[i]) < base)
    && (s[0] == '0' ==> |s| == 1)
  }

  lemma {:induction false} ParseNonNegative(s: string, base: nat)
    requires Digital(s)
    ensures Parse(s, base) >= 0
  {
    if s == [] {
    } else {
      ParseNonNegative(s[..|s| - 1], base);
    }
  }

  function ReadNatural(s: string, base: nat): Option<nat> {
    if IsNatural(s, base) then
      ParseNonNegative(s, base);
      Some(Parse(s, base))
    else None
  }

  lemma DigitOfValue(c: char)
    requires DigitValue(c) >= 0
    ensures DigitValue(c) < 16 && Digit(DigitValue(c)) == c
  {
    var d := DigitValue(c);
    assert d == 0 || d == 1 || d == 2 || d == 3 || d == 4 || d == 5 || d == 6 || d == 7 || d == 8
           || d == 9 || d == 10 || d == 11 || d == 12 || d == 13 || d == 14 || d == 15;
  }

  lemma {:induction false} NumeralIsNatural(n: nat, base: nat)
    requires base == 10 || base == 16
    ensures IsNatural(Numeral(n, base), base) && (Numeral(n, base)[0] == '0' <==> n == 0)
    decreases n
  {
    DigitRoundTrip(n % base);
    if n < base {
    } else {
      NumeralIsNatural(n / base, base);
    }
  }

  lemma {:induction false} NaturalIsNumeral(s: string, base: nat)
    requires (base == 10 || base == 16) && IsNatural(s, base)
    ensures Parse(s, base) >= 0 && s == Numeral(Parse(s, base), base)
    ensures s[0] != '0' ==> Parse(s, base) > 0
    decreases |s|
  {
    var front, c := s[..|s| - 1], s[|s| - 1];
    DigitOfValue(c);
    assert s == front + [c];
    if |s| == 1 {
      assert front == [] && Parse(s, base) == DigitValue(c);
    } else {
      NaturalIsNumeral(front, base);
      var n, m := Parse(s, base), Parse(front, base);
      assert n == m * base + DigitValue(c) && n / base == m && n % base == DigitValue(c);
    }
  }

  /** A number has exactly one text. */
  lemma NaturalExact(s: string, n: nat, base: nat)
    requires base == 10 || base == 16
    ensures ReadNatural(s, base) == Some(n) <==> s == Numeral(n, base)
  {
    if IsNatural(s, base) {
      NaturalIsNumeral(s, base);
    }
    NumeralIsNatural(n, base);
    NumeralRoundTrip(n, base);
  }

  /** An optional minus sign, and a decimal numeral. */
  function ReadSigned(s: string): Option<int> {
    if s != [] && s[0] == '-' then
      match ReadNatural(s[1..], 10)
      case None => None
      case Some(n) => var m: int := n; if m == 0 then None else Some(-m)
    else
      match ReadNatural(s, 10)
      case None => None
      case Some(n) => var m: int := n; Some(m)
  }

  lemma NumeralStarts(n: nat)
    ensures Numeral(n, 10)[0] != '-'
  {
    NumeralIsNatural(n, 10);
  }

  lemma SignedExact(s: string, n: int)
    ensures ReadSigned(s) == Some(n) <==> s == Signed(n)
  {
    var m := if n < 0 then -n else n;
    NumeralStarts(m);
    hide Numeral, ReadNatural;
    if s != [] && s[0] == '-' {
      assert s == "-" + s[1..] && ("-" + Numeral(m, 10))[1..] == Numeral(m, 10);
      NaturalExact(s[1..], m, 10);
    } else {
      NaturalExact(s, m, 10);
    }
  }

  lemma SignedInjective(m: int, n: int)
    requires Signed(m) == Signed(n)
    ensures m == n
  {
    SignedExact(Signed(m), m);
    SignedExact(Signed(m), n);
  }

  // ---- widths ---------------------------------------------------------------------

  /** Two's complement reading of the low `modulus` part of a register. */
  function AsSigned(value: nat, modulus: nat): int
    requires modulus > 0
  {
    var low := value % modulus;
    if low < modulus / 2 then low else low - modulus
  }
}
