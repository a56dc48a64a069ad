/** Numbers to digits and back: the conversions of `outnum` and `getnum`. */
module Numerals {

  const DIGITS := "0123456789ABCDEF"
  const OUTBUF := 32

  predicate IsDigit(c: char) { '0' <= c <= '9' }

  function DigitOf(d: nat): char
    requires d < 16
  {
    DIGITS[d]
  }

  function ValueOf(c: char): nat {
    if IsDigit(c) then (c as int) - ('0' as int)
    else if 'A' <= c <= 'F' then (c as int) - ('A' as int) + 10
    else 0
  }

  /** The number that a digit string denotes. */
  function Denotes(s: string, base: nat): nat {
    if s == [] then 0 else Denotes(s[..|s| - 1], base) * base + ValueOf(s[|s| - 1])
  }

  /** The digits of n, most significant first. */
  function Numeral(n: nat, base: nat): (s: string)
    requires 2 <= base <= 16
    ensures |s| > 0
    decreases n
  {
    if n < base then [DigitOf(n)] else Numeral(n / base, base) + [DigitOf(n % base)]
  }

  lemma DigitBack(d: nat)
    requires d < 16
    ensures ValueOf(DigitOf(d)) == d
    ensures d < 10 ==> IsDigit(DigitOf(d))
    ensures DigitOf(d) == '0' <==> d == 0
    ensures DigitOf(d) != '\0'
  {}

  lemma DenotesAppend(s: string, c: char, base: nat)
    ensures Denotes(s + [c], base) == Denotes(s, base) * base + ValueOf(c)
  {
    assert (s + [c])[..|s|] == s;
  }

  lemma Recompose(n: nat, base: nat)
    requires base > 0
    ensures n / base * base + n % base == n && n % base < base
  {}

  /** Numeral is a right inverse of Denotes, and has no leading zero. */
  lemma {:induction false} NumeralDenotes(n: nat, base: nat)
    requires 2 <= base <= 16
    ensures Denotes(Numeral(n, base), base) == n
    ensures |Numeral(n, base)| > 1 || n > 0 ==> Numeral(n, base)[0] != '0'
    ensures base == 10 ==> forall i :: 0 <= i < |Numeral(n, base)| ==> IsDigit(Numeral(n, base)[i])
    decreases n
  {
    hide DigitOf, ValueOf, IsDigit, Denotes;
    if n < base {
      DigitBack(n);
      DenotesNone(base);
      DenotesAppend([], DigitOf(n), base);
      assert [] + [DigitOf(n)] == [DigitOf(n)];
    } else {
      QuotientPositive(n, base);
      NumeralDenotes(n / base, base);
      DigitBack(n % base);
      Recompose(n, base);
      DenotesAppend(Numeral(n / base, base), DigitOf(n % base), base);
    }
  }

  lemma DenotesNone(base: nat)
    ensures Denotes([], base) == 0
  {}

  lemma QuotientPositive(n: nat, base: nat)
    requires 0 < base <= n
    ensures 0 < n / base
  {}

  function Pow10(k: nat): nat {
    if k == 0 then 1 else 10 * Pow10(k - 1)
  }

  /** At most k digits below 10^k. */
  lemma {:induction false} NumeralShort(n: nat, base: nat, k: nat)
    requires 10 <= base <= 16 && 0 < k && n < Pow10(k)
    ensures |Numeral(n, base)| <= k
    decreases k
  {
    if n >= base {
      QuotientSmaller(n, base, Pow10(k - 1));
      if k > 1 {
        NumeralShort(n / base, base, k - 1);
      }
    }
  }

  lemma QuotientSmaller(n: nat, base: nat, m: nat)
    requires 10 <= base && n < 10 * m
    ensures n / base < m
  {
    var q := n / base;
    assert 10 * q <= base * q <= n;
  }

  // ---------- getnum ----------

  /** The digits at the front of s. */
  function LeadingDigits(s: string): (d: string)
    ensures |d| <= |s| && d == s[..|d|]
    ensures forall i :: 0 <= i < |d| ==> IsDigit(d[i])
    ensures |d| < |s| ==> !IsDigit(s[|d|])
  {
    if s == [] || !IsDigit(s[0]) then [] else [s[0]] + LeadingDigits(s[1..])
  }

  /** `getnum`: the number written at position `at`, and the position after it. */
  method GetNum(line: string, at: nat) returns (n: nat, after: nat)
    requires at <= |line|
    ensures after == at + |LeadingDigits(line[at..])|
    ensures n == Denotes(LeadingDigits(line[at..]), 10)
  {
    n := 0;
    after := at;
    ghost var d := LeadingDigits(line[at..]);
    assert forall i :: 0 <= i < |d| ==> line[at + i] == d[i];
    assert |d| < |line| - at ==> line[at + |d|] == line[at..][|d|];
    while after < |line| && IsDigit(line[after])
      invariant at <= after <= at + |d| <= |line|
      invariant n == Denotes(d[..after - at], 10)
    {
      assert d[..after - at + 1][..after - at] == d[..after - at];
      n := n * 10 + ((line[after] as int) - ('0' as int));
      after := after + 1;
    }
    assert d[..after - at] == d;
  }

  lemma {:induction false} LeadingOfAppend(d: string, rest: string)
    requires forall i :: 0 <= i < |d| ==> IsDigit(d[i])
    requires rest != [] ==> !IsDigit(rest[0])
    ensures LeadingDigits(d + rest) == d
  {
    if d != [] {
      assert (d + rest)[1..] == d[1..] + rest;
      LeadingOfAppend(d[1..], rest);
    } else {
      assert d + rest == rest;
    }
  }

  /** `getnum` reads back every number that `outnum` writes in base 10. */
  lemma RoundTrip(n: nat, rest: string)
    requires rest != [] ==> !IsDigit(rest[0])
    ensures Denotes(LeadingDigits(Numeral(n, 10) + rest), 10) == n
    ensures |LeadingDigits(Numeral(n, 10) + rest)| == |Numeral(n, 10)|
  {
    NumeralDenotes(n, 10);
    LeadingOfAppend(Numeral(n, 10), rest);
  }
}
