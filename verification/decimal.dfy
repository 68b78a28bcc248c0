/** Unsigned decimal rendering, as printf's `%` PRIu64 conversion produces
    it, and the matching parser. */
module Decimal {

  predicate IsDigit(c: char)
  {
    '0' <= c <= '9'
  }

  predicate AllDigits(s: string)
  {
    forall k :: 0 <= k < |s| ==> IsDigit(s[k])
  }

  /** A non-empty run of digits without a superfluous leading zero. */
  predicate Canonical(s: string)
  {
    |s| >= 1 && AllDigits(s) && (|s| > 1 ==> s[0] != '0')
  }

  function DigitChar(d: nat): (c: char)
    requires d < 10
    ensures IsDigit(c)
  {
    ('0' as int + d) as char
  }

  function DigitValue(c: char): (d: nat)
    requires IsDigit(c)
    ensures d < 10 && DigitChar(d) == c
  {
    c as int - '0' as int
  }

  /** The decimal text of `n`: most significant digit first, no leading
      zero, "0" for zero. */
  function Dec(n: nat): (s: string)
    ensures Canonical(s)
    ensures n > 0 ==> s[0] != '0'
    decreases n
  {
    if n < 10 then [DigitChar(n)] else Dec(n / 10) + [DigitChar(n % 10)]
  }

  /** The value of a run of decimal digits (zero for the empty run). */
  function ParseDec(s: string): nat
    requires AllDigits(s)
    decreases |s|
  {
    if |s| == 0 then 0 else 10 * ParseDec(s[..|s| - 1]) + DigitValue(s[|s| - 1])
  }

  /** Parsing undoes rendering. */
  lemma {:induction false} ParseDecOfDec(n: nat)
    ensures ParseDec(Dec(n)) == n
    decreases n
  {
    if n >= 10 {
      var s := Dec(n);
      assert s[..|s| - 1] == Dec(n / 10);
      ParseDecOfDec(n / 10);
    }
  }

  lemma {:induction false} ParseDecPositive(s: string)
    requires |s| >= 1 && AllDigits(s) && s[0] != '0'
    ensures ParseDec(s) >= 1
    decreases |s|
  {
    if |s| > 1 {
      ParseDecPositive(s[..|s| - 1]);
    }
  }

  /** Rendering undoes parsing on canonical text, so the two are inverse
      bijections between naturals and canonical digit runs. */
  lemma {:induction false} DecOfParseDec(s: string)
    requires Canonical(s)
    ensures Dec(ParseDec(s)) == s
    decreases |s|
  {
    var d := DigitValue(s[|s| - 1]);
    if |s| == 1 {
      assert ParseDec(s[..0]) == 0;
    } else {
      var p := s[..|s| - 1];
      assert Canonical(p);
      DecOfParseDec(p);
      ParseDecPositive(p);
      var n := ParseDec(s);
      assert n == 10 * ParseDec(p) + d;
      assert n / 10 == ParseDec(p) && n % 10 == d;
      assert s == p + [s[|s| - 1]];
    }
  }

  function Pow10(k: nat): (r: nat)
    ensures r >= 1
  {
    if k == 0 then 1 else 10 * Pow10(k - 1)
  }

  /** A number below 10^k has at most k digits. */
  lemma {:induction false} DecLengthAtMost(n: nat, k: nat)
    requires 1 <= k && n < Pow10(k)
    ensures |Dec(n)| <= k
    decreases k
  {
    if n >= 10 {
      assert k > 1;
      DecLengthAtMost(n / 10, k - 1);
    }
  }

  /** A number of at least 10^k has more than k digits. */
  lemma {:induction false} DecLengthAbove(n: nat, k: nat)
    requires Pow10(k) <= n
    ensures |Dec(n)| > k
    decreases k
  {
    if k > 0 {
      DecLengthAbove(n / 10, k - 1);
    }
  }

  /** Length of the longest all-digit prefix of `s`. */
  function DigitRun(s: string): (k: nat)
    ensures k <= |s| && AllDigits(s[..k])
    ensures k < |s| ==> !IsDigit(s[k])
  {
    if |s| == 0 || !IsDigit(s[0]) then 0 else 1 + DigitRun(s[1..])
  }

  /** A digit run followed by a non-digit (or by nothing) is found whole. */
  lemma {:induction false} DigitRunOf(d: string, t: string)
    requires AllDigits(d) && (|t| == 0 || !IsDigit(t[0]))
    ensures DigitRun(d + t) == |d|
    decreases |d|
  {
    if |d| > 0 {
      assert (d + t)[1..] == d[1..] + t;
      DigitRunOf(d[1..], t);
    } else {
      assert d + t == t;
    }
  }
}
