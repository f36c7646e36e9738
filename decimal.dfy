/** Decimal text of integers, as Python's f-string formatting writes them:
    no leading zeros, and a '-' in front of a negative value. A reader for
    the same text is given beside each writer, so that every formatted
    number can be recovered from the string that holds it. */
module Decimal {

  predicate IsDigit(c: char) {
    '0' <= c <= '9'
  }

  predicate AllDigits(s: string) {
    forall i :: 0 <= i < |s| ==> IsDigit(s[i])
  }

  function DigitChar(d: nat): (c: char)
    requires d < 10
    ensures IsDigit(c)
  {
    (('0' as int) + d) as char
  }

  function DigitValue(c: char): (d: nat)
    requires IsDigit(c)
    ensures d < 10
  {
    (c as int) - ('0' as int)
  }

  /** The decimal digits of n, most significant first, without leading zeros. */
  function NatToString(n: nat): (s: string)
    ensures 1 <= |s| && AllDigits(s)
    ensures s[0] == '0' ==> n == 0
    decreases n
  {
    if n < 10 then [DigitChar(n)] else NatToString(n / 10) + [DigitChar(n % 10)]
  }

  /** The number a string of digits denotes. */
  function Value(s: string): nat
    requires AllDigits(s)
    decreases |s|
  {
    if s == [] then 0 else Value(s[..|s| - 1]) * 10 + DigitValue(s[|s| - 1])
  }

  lemma {:induction false} ValueOfNatToString(n: nat)
    ensures Value(NatToString(n)) == n
    decreases n
  {
    if n >= 10 {
      var s := NatToString(n);
      assert s[..|s| - 1] == NatToString(n / 10);
      ValueOfNatToString(n / 10);
    }
  }

  /** The length of the run of digits that starts s. */
  function LeadingDigits(s: string): (k: nat)
    ensures k <= |s| && AllDigits(s[..k])
    ensures k < |s| ==> !IsDigit(s[k])
    decreases |s|
  {
    if s == [] || !IsDigit(s[0]) then 0
    else
      var k := 1 + LeadingDigits(s[1..]);
      assert s[..k] == [s[0]] + s[1..][..k - 1];
      k
  }

  /** Reads the longest digit prefix of s; returns its value and the rest. */
  function ReadNat(s: string): (nat, string) {
    var k := LeadingDigits(s);
    (Value(s[..k]), s[k..])
  }

  lemma {:induction false} LeadingDigitsOfDigits(d: string, t: string)
    requires AllDigits(d)
    requires t == [] || !IsDigit(t[0])
    ensures LeadingDigits(d + t) == |d|
    decreases |d|
  {
    if d != [] {
      assert (d + t)[1..] == d[1..] + t;
      LeadingDigitsOfDigits(d[1..], t);
    }
  }

  /** Reading a formatted number back yields the number and leaves the text
      after it untouched, provided that text does not continue with a digit. */
  lemma ReadNatAfterNatToString(n: nat, t: string)
    requires t == [] || !IsDigit(t[0])
    ensures ReadNat(NatToString(n) + t) == (n, t)
  {
    var d := NatToString(n);
    LeadingDigitsOfDigits(d, t);
    assert (d + t)[..|d|] == d;
    assert (d + t)[|d|..] == t;
    ValueOfNatToString(n);
  }

  /** A number written in front of text that does not start with a digit
      can be split off again: equal lines have equal numbers and equal
      rests. */
  lemma NatToStringPrefixUnique(m: nat, t: string, n: nat, u: string)
    requires t == [] || !IsDigit(t[0])
    requires u == [] || !IsDigit(u[0])
    requires NatToString(m) + t == NatToString(n) + u
    ensures m == n && t == u
  {
    ReadNatAfterNatToString(m, t);
    ReadNatAfterNatToString(n, u);
  }

  lemma NatToStringInjective(m: nat, n: nat)
    ensures NatToString(m) == NatToString(n) <==> m == n
  {
    if NatToString(m) == NatToString(n) {
      ValueOfNatToString(m);
      ValueOfNatToString(n);
    }
  }

  /** Python's str() of an int. */
  function IntToString(i: int): (s: string)
    ensures 1 <= |s|
    ensures s[0] == '-' <==> i < 0
  {
    if i < 0 then "-" + NatToString(-i) else NatToString(i)
  }

  function ReadInt(s: string): int {
    if s != [] && s[0] == '-' then -(ReadNat(s[1..]).0 as int) else ReadNat(s).0
  }

  lemma ReadIntAfterIntToString(i: int)
    ensures ReadInt(IntToString(i)) == i
  {
    if i < 0 {
      assert IntToString(i)[1..] == NatToString(-i) + [];
      ReadNatAfterNatToString(-i, []);
    } else {
      assert IntToString(i) == NatToString(i) + [];
      ReadNatAfterNatToString(i, []);
    }
  }
}
