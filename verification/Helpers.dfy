/** Byte sizes for people, and a file name that is still free. */
module Helpers {
  import opened Wrappers
  import opened Decimal

  // ------------------------------------------------------------- byte sizes

  const SIZES: seq<string> := ["B", "KB", "MB", "GB", "TB"]

  function Pow1000(i: nat): nat
    ensures Pow1000(i) > 0
  {
    if i == 0 then 1 else 1000 * Pow1000(i - 1)
  }

  /** The five powers the unit table needs, and the one it would need next. */
  lemma PowersOf1000()
    ensures Pow1000(0) == 1 && Pow1000(1) == 1000 && Pow1000(2) == 1_000_000 && Pow1000(3) == 1_000_000_000
    ensures Pow1000(4) == 1_000_000_000_000 && Pow1000(5) == 1_000_000_000_000_000
  {
    assert Pow1000(3) == 1000 * Pow1000(2);
    assert Pow1000(4) == 1000 * Pow1000(3);
    assert Pow1000(5) == 1000 * Pow1000(4);
  }

  lemma DivideOnceMore(b: nat, i: nat)
    requires i < 5
    ensures b / Pow1000(i) / 1000 == b / Pow1000(i + 1)
    ensures b / Pow1000(i) >= 1000 <==> b >= Pow1000(i + 1)
  {
    PowersOf1000();
    if i == 0 {
    } else if i == 1 {
    } else if i == 2 {
    } else if i == 3 {
    } else {
    }
  }

  /** How far the printed quotient of a truncated quotient falls short of the exact one. */
  lemma ShortfallOfTruncation(b: nat, p: nat)
    requires p > 0
    ensures 0.0 <= b as real / (1000 * p) as real - (b / p) as real / 1000.0 < 0.001
  {
    var q, r := b / p, b % p;
    assert b == p * q + r;
    var pr, qr, rr := p as real, q as real, r as real;
    assert b as real == pr * qr + rr;
    assert (1000 * p) as real == 1000.0 * pr;
    assert (pr * qr + rr) / (1000.0 * pr) == qr / 1000.0 + (rr / pr) / 1000.0;
    assert 0.0 <= rr / pr < 1.0;
  }

  /** The value to print and the index of its unit; there is no unit beyond the table. */
  method FormatBytes(b: int) returns (value: real, i: nat, unit: Option<string>)
    requires -0x8000_0000_0000_0000 <= b < 0x8000_0000_0000_0000
    ensures b < 1000 ==> i == 0 && value == b as real
    ensures b >= 1 ==> Pow1000(i) <= b && (i < 5 ==> b < Pow1000(i + 1))
    ensures i > 0 ==> value == (b / Pow1000(i - 1)) as real / 1000.0
    ensures b >= 0 ==> 0.0 <= b as real / Pow1000(i) as real - value < 0.001
    ensures i <= 5 && (i < 5 <==> b < 1_000_000_000_000_000)
    ensures i == 0 ==> unit == Some("B")
    ensures i == 1 ==> unit == Some("KB")
    ensures i == 2 ==> unit == Some("MB")
    ensures i == 3 ==> unit == Some("GB")
    ensures i == 4 ==> unit == Some("TB")
    ensures i == 5 ==> unit == None
  {
    PowersOf1000();
    var bytes := b;
    i := 0;
    value := bytes as real;
    while i < 5 && bytes >= 1000
      invariant i <= 5
      invariant b < 1000 ==> i == 0 && bytes == b
      invariant i == 0 ==> value == b as real
      invariant b >= 0 ==> bytes == b / Pow1000(i)
      invariant b >= 1 ==> Pow1000(i) <= b
      invariant i > 0 ==> b >= 0 && value == (b / Pow1000(i - 1)) as real / 1000.0
    {
      DivideOnceMore(b, i);
      value := bytes as real / 1000.0;
      i := i + 1;
      bytes := bytes / 1000;
    }
    if i > 0 {
      ShortfallOfTruncation(b, Pow1000(i - 1));
    }
    if b >= 0 && i < 5 {
      DivideOnceMore(b, i);
    }
    assert i < 5 <==> b < Pow1000(5) by { PowersMonotone(i); }
    unit := if i < 5 then Some(SIZES[i]) else None;
  }

  lemma PowersMonotone(i: nat)
    requires i <= 5
    ensures Pow1000(i) <= Pow1000(5) && (i < 5 ==> Pow1000(i + 1) <= Pow1000(5))
  {
    PowersOf1000();
  }

  // -------------------------------------------------- printed with two decimals

  /** A double between 1 and 1000 is a whole number of these parts; a double's fraction has 52 bits. */
  function Scale(t: nat): (s: nat)
    requires 1000 <= t < 1_000_000
    ensures s >= 0x800_0000_0000
  {
    if t < 2000 then 0x10000000000000
    else if t < 4000 then 0x8000000000000
    else if t < 8000 then 0x4000000000000
    else if t < 16000 then 0x2000000000000
    else if t < 32000 then 0x1000000000000
    else if t < 64000 then 0x800000000000
    else if t < 128000 then 0x400000000000
    else if t < 256000 then 0x200000000000
    else if t < 512000 then 0x100000000000
    else 0x800_0000_0000
  }

  /** The parts of the double nearest to t / 1000. */
  function Mantissa(t: nat): nat
    requires 1000 <= t < 1_000_000
  {
    (2 * t * Scale(t) + 1000) / 2000
  }

  /** It is a normal number of 53 bits, and none is nearer. */
  lemma MantissaIsNearest(t: nat)
    requires 1000 <= t < 1_000_000
    ensures 0x10_0000_0000_0000 <= Mantissa(t) <= 0x20_0000_0000_0000
    ensures 2 * t * Scale(t) - 1000 <= 2000 * Mantissa(t) <= 2 * t * Scale(t) + 1000
  {
  }

  /** So many hundredths are nearest to the double; of two as near, either may be printed. */
  predicate Prints(h: int, t: nat)
    requires 1000 <= t < 1_000_000
  {
    var twice := 200 * Mantissa(t) - 2 * h * Scale(t);
    twice <= Scale(t) && -twice <= Scale(t)
  }

  lemma Multiples(s: nat, d: int, e: int)
    ensures d >= e ==> s * d >= s * e
    ensures d <= e ==> s * d <= s * e
  {
  }

  lemma Apart(t: nat, h: int, s: nat)
    ensures 10 * (2 * h * s) == 2 * t * s - 2 * (s * (t - 10 * h))
  {
  }

  /** The detour over the double never matters but for a tie: what is printed is a nearest
      hundredth to the thousandths, and every nearest one but that is printed. */
  lemma PrintsNearest(h: int, t: nat)
    requires 1000 <= t < 1_000_000
    ensures Prints(h, t) ==> -5 <= 10 * h - t <= 5
    ensures -5 < 10 * h - t < 5 ==> Prints(h, t)
  {
    var s, d := Scale(t), t - 10 * h;
    MantissaIsNearest(t);
    Apart(t, h, s);
    Multiples(s, d, 6);
    Multiples(s, d, -6);
    Multiples(s, d, 4);
    Multiples(s, d, -4);
  }

  /** Whether the printed number reaches a thousand of its unit; the one tie is decided by the
      double next to 999.995, which lies above it. */
  lemma ThousandIsReached(h: int, t: nat)
    requires 1000 <= t < 1_000_000 && Prints(h, t)
    ensures h <= 100_000 && (h == 100_000 <==> t >= 999_995)
  {
    PrintsNearest(h, t);
    if t == 999_995 {
      assert Scale(t) == 0x800_0000_0000 && Mantissa(t) == 8796049041742889;
    }
  }

  /** A size of a unit above bytes is printed as 1000.00 exactly from 999995 thousandths on. */
  lemma SizeReadsThousand(b: nat, i: nat, h: int)
    requires 1 <= i <= 4 && Pow1000(i) <= b < Pow1000(i + 1)
    ensures 1000 <= b / Pow1000(i - 1) < 1_000_000
    ensures Prints(h, b / Pow1000(i - 1)) ==>
              h <= 100_000 && (h == 100_000 <==> b >= 999_995 * Pow1000(i - 1))
  {
    var p := Pow1000(i - 1);
    var t := b / p;
    assert Pow1000(i) == 1000 * p && Pow1000(i + 1) == 1000 * Pow1000(i);
    QuotientAtLeast(b, p, 1000);
    QuotientAtLeast(b, p, 1_000_000);
    QuotientAtLeast(b, p, 999_995);
    if Prints(h, t) {
      ThousandIsReached(h, t);
    }
  }

  lemma QuotientAtLeast(b: nat, p: nat, k: nat)
    requires p > 0
    ensures b / p >= k <==> b >= k * p
  {
    var q := b / p;
    assert b == q * p + b % p;
    Multiples(p, q, k);
    Multiples(p, q, k - 1);
  }

  /** 999999 bytes read 1000.00 KB. */
  lemma NotQuiteAMegabyte()
    ensures Pow1000(1) <= 999_999 < Pow1000(2) && Prints(100_000, 999_999)
  {
    PowersOf1000();
    PrintsNearest(100_000, 999_999);
  }

  // ------------------------------------------------------------- file names

  function Numbered(fileName: string, n: nat): string {
    fileName + "_" + ToDecimal(n)
  }

  function FullName(baseDir: string, fileName: string, n: nat, extension: string): string {
    baseDir + "/" + Numbered(fileName, n) + extension
  }

  /** Different numbers are different files. */
  lemma FullNameInjective(baseDir: string, fileName: string, m: nat, n: nat, extension: string)
    requires FullName(baseDir, fileName, m, extension) == FullName(baseDir, fileName, n, extension)
    ensures m == n
  {
    var front := baseDir + "/" + fileName + "_";
    var x, y := FullName(baseDir, fileName, m, extension), FullName(baseDir, fileName, n, extension);
    assert x == front + ToDecimal(m) + extension && y == front + ToDecimal(n) + extension;
    assert ToDecimal(m) == x[|front|..|x| - |extension|];
    assert ToDecimal(n) == y[|front|..|y| - |extension|];
    ToDecimalInjective(m, n);
  }

  lemma {:induction false} SubsetSize<T>(a: set<T>, b: set<T>)
    requires a <= b
    ensures |a| <= |b|
  {
    if a == {} {
    } else {
      var x :| x in a;
      SubsetSize(a - {x}, b - {x});
    }
  }

  /** The least suffix whose full name is free, found within one probe more than there are files. */
  method DeducePossibleFileName(existing: set<string>, baseDir: string, fileName: string, extension: string)
    returns (name: string, n: nat)
    ensures n >= 1 && name == fileName + "_" + ToDecimal(n)
    ensures baseDir + "/" + name + extension !in existing
    ensures forall m :: 1 <= m < n ==> baseDir + "/" + (fileName + "_" + ToDecimal(m)) + extension in existing
    ensures n <= |existing| + 1
  {
    var i: nat := 1;
    ghost var tried: set<string> := {};
    while FullName(baseDir, fileName, i, extension) in existing
      invariant i >= 1 && |tried| == i - 1 && tried <= existing
      invariant forall m :: 1 <= m < i ==> FullName(baseDir, fileName, m, extension) in existing
      invariant forall f :: f in tried ==> exists m :: 1 <= m < i && f == FullName(baseDir, fileName, m, extension)
      decreases |existing - tried|
    {
      ghost var full := FullName(baseDir, fileName, i, extension);
      if full in tried {
        ghost var m :| 1 <= m < i && full == FullName(baseDir, fileName, m, extension);
        FullNameInjective(baseDir, fileName, m, i, extension);
      }
      assert existing - (tried + {full}) == (existing - tried) - {full};
      tried := tried + {full};
      i := i + 1;
    }
    SubsetSize(tried, existing);
    n := i;
    name := Numbered(fileName, i);
    forall m | 1 <= m < n ensures baseDir + "/" + (fileName + "_" + ToDecimal(m)) + extension in existing {
      assert FullName(baseDir, fileName, m, extension) in existing;
    }
  }
}
