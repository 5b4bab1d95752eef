/** Decimal text: what std::to_string and QString::number print, and what std::stoul and
    QString::toInt read back.  A numeral is canonical when it has no leading zero. */
module Decimal {
  predicate IsDigit(c: char) {
    '0' <= c <= '9'
  }

  predicate AllDigits(s: string) {
    forall i :: 0 <= i < |s| ==> IsDigit(s[i])
  }

  function DigitValue(c: char): nat
    requires IsDigit(c)
  {
    c as int - '0' as int
  }

  function DigitChar(d: nat): (c: char)
    requires d < 10
    ensures IsDigit(c) && DigitValue(c) == d
  {
    ('0' as int + d) as char
  }

  function ToDecimal(n: nat): string {
    if n < 10 then [DigitChar(n)] else ToDecimal(n / 10) + [DigitChar(n % 10)]
  }

  function OfDecimal(s: string): nat
    requires AllDigits(s)
  {
    if s == "" then 0 else OfDecimal(s[..|s| - 1]) * 10 + DigitValue(s[|s| - 1])
  }

  predicate Canonical(s: string) {
    s != "" && AllDigits(s) && (s[0] == '0' ==> |s| == 1)
  }

  lemma {:induction false} ToDecimalIsCanonical(n: nat)
    ensures Canonical(ToDecimal(n))
    ensures n > 0 ==> ToDecimal(n)[0] != '0'
  {
    if n >= 10 {
      ToDecimalIsCanonical(n / 10);
    }
  }

  /** Reading what was printed gives the number back. */
  lemma {:induction false} OfToDecimal(n: nat)
    ensures AllDigits(ToDecimal(n)) && OfDecimal(ToDecimal(n)) == n
  {
    ToDecimalIsCanonical(n);
    if n >= 10 {
      OfToDecimal(n / 10);
      var s := ToDecimal(n);
      assert s[..|s| - 1] == ToDecimal(n / 10);
    }
  }

  /** Printing what was read gives the numeral back, when it had no leading zero. */
  lemma {:induction false} ToOfDecimal(s: string)
    requires Canonical(s)
    ensures ToDecimal(OfDecimal(s)) == s
  {
    var front, last := s[..|s| - 1], s[|s| - 1];
    if |s| == 1 {
      assert front == "";
    } else {
      assert front[0] == s[0];
      ToOfDecimal(front);
      LeadingDigit(front);
      assert s == front + [last];
    }
  }

  /** A canonical numeral other than "0" has a positive value. */
  lemma {:induction false} LeadingDigit(s: string)
    requires Canonical(s) && s[0] != '0'
    ensures OfDecimal(s) > 0
  {
    if |s| > 1 {
      LeadingDigit(s[..|s| - 1]);
    }
  }

  /** No two numbers print alike. */
  lemma ToDecimalInjective(m: nat, n: nat)
    requires ToDecimal(m) == ToDecimal(n)
    ensures m == n
  {
    OfToDecimal(m);
    OfToDecimal(n);
  }

  function Pow10(k: nat): (p: nat)
    ensures p >= 1
  {
    if k == 0 then 1 else 10 * Pow10(k - 1)
  }

  /** The value of a numeral, split at its leading digit. */
  lemma {:induction false} OfDecimalHead(s: string)
    requires s != "" && AllDigits(s)
    ensures OfDecimal(s) == DigitValue(s[0]) * Pow10(|s| - 1) + OfDecimal(s[1..])
  {
    if |s| == 1 {
      assert s[..0] == "" && s[1..] == "";
    } else {
      var front, tail := s[..|s| - 1], s[1..];
      OfDecimalHead(front);
      assert tail[..|tail| - 1] == front[1..];
      Regroup(DigitValue(s[0]), Pow10(|s| - 2), OfDecimal(front[1..]), DigitValue(s[|s| - 1]));
    }
  }

  lemma Regroup(d: nat, p: nat, a: nat, last: nat)
    ensures (d * p + a) * 10 + last == d * (10 * p) + (a * 10 + last)
  {
  }

  /** A greater leading digit outweighs everything behind it. */
  lemma LeadingDigitDecides(d: nat, e: nat, p: nat, r: nat, t: nat)
    requires d < e && r < p
    ensures d * p + r < e * p + t
  {
    assert (e - d - 1) * p >= 0;
    assert e * p == d * p + p + (e - d - 1) * p;
  }

  lemma {:induction false} OfDecimalBound(s: string)
    requires AllDigits(s)
    ensures OfDecimal(s) < Pow10(|s|)
  {
    if s == "" {
    } else {
      OfDecimalBound(s[..|s| - 1]);
    }
  }

  lemma {:induction false} Pow10Monotone(j: nat, k: nat)
    requires j <= k
    ensures Pow10(j) <= Pow10(k)
  {
    if j < k {
      Pow10Monotone(j, k - 1);
    }
  }
}
