/**
 * Decimal text of non-negative integers, as a JavaScript template literal
 * `${n}` renders them, and the reading of a run of digits back into a number.
 */
module Decimal {

  predicate IsDigit(c: char)
  {
    '0' <= c <= '9'
  }

  predicate AllDigits(s: string)
  {
    forall i :: 0 <= i < |s| ==> IsDigit(s[i])
  }

  function DigitChar(d: nat): (c: char)
    requires d < 10
    ensures IsDigit(c) && DigitValue(c) == d
  {
    ('0' as int + d) as char
  }

  function DigitValue(c: char): nat
    requires IsDigit(c)
  {
    c as int - '0' as int
  }

  /** A non-empty run of digits that starts with '0' only when it is "0". */
  predicate Canonical(s: string)
  {
    |s| > 0 && AllDigits(s) && (s[0] == '0' ==> |s| == 1)
  }

  /** Shortest decimal text of n: no sign, no leading zero unless n is zero. */
  function NatToString(n: nat): (s: string)
    ensures Canonical(s)
    ensures s[0] == '0' ==> n == 0
    decreases n
  {
    if n < 10 then [DigitChar(n)] else NatToString(n / 10) + [DigitChar(n % 10)]
  }

  /** The number a string of digits denotes, most significant digit first. */
  function ValueOf(s: string): nat
    requires AllDigits(s)
  {
    if s == [] then 0 else ValueOf(s[..|s| - 1]) * 10 + DigitValue(s[|s| - 1])
  }

  lemma {:induction false} ValueOfNatToString(n: nat)
    ensures ValueOf(NatToString(n)) == n
    decreases n
  {
    if n >= 10 {
      var p := NatToString(n / 10);
      var s := p + [DigitChar(n % 10)];
      assert s[..|s| - 1] == p;
      ValueOfNatToString(n / 10);
    }
  }

  /** A canonical run of digits is the decimal text of the number it denotes. */
  lemma {:induction false} NatToStringOfValue(s: string)
    requires Canonical(s)
    ensures NatToString(ValueOf(s)) == s
    decreases |s|
  {
    var last := s[|s| - 1];
    var d := DigitValue(last);
    assert DigitChar(d) == last;
    if |s| > 1 {
      var p := s[..|s| - 1];
      assert p[0] == s[0];
      NatToStringOfValue(p);
      assert NatToString(0) == "0";
      var n := ValueOf(p) * 10 + d;
      assert ValueOf(s) == n;
      assert n / 10 == ValueOf(p) && n % 10 == d;
      assert NatToString(n) == NatToString(n / 10) + [DigitChar(n % 10)];
      assert s == p + [last];
    }
  }

  /** Length of the longest prefix of s made of digits. */
  function DigitRun(s: string): (k: nat)
    ensures k <= |s| && AllDigits(s[..k])
    ensures k < |s| ==> !IsDigit(s[k])
  {
    if s == [] || !IsDigit(s[0]) then 0 else 1 + DigitRun(s[1..])
  }

  /** A run of digits followed by a non-digit (or nothing) is read up to its end. */
  lemma {:induction false} DigitRunOfPrefix(d: string, t: string)
    requires AllDigits(d)
    requires t == [] || !IsDigit(t[0])
    ensures DigitRun(d + t) == |d|
    decreases |d|
  {
    if d != [] {
      assert (d + t)[1..] == d[1..] + t;
      DigitRunOfPrefix(d[1..], t);
    }
  }

  /** The decimal text of a number reads back as that number. */
  lemma NatToStringReadsBack(n: nat, t: string)
    requires t == [] || !IsDigit(t[0])
    ensures DigitRun(NatToString(n) + t) == |NatToString(n)|
    ensures (NatToString(n) + t)[..|NatToString(n)|] == NatToString(n)
    ensures ValueOf(NatToString(n)) == n
  {
    DigitRunOfPrefix(NatToString(n), t);
    ValueOfNatToString(n);
  }
}
