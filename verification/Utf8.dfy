/** How a QString, which is UTF-16, becomes bytes and comes back: toUtf8, and the conversion from a
    byte array, with the UTF-8 of RFC 3629. */
module Utf8 {
  import opened Wrappers

  type Byte = n: int | 0 <= n < 256

  /** A code unit of UTF-16. */
  type Unit = n: int | 0 <= n < 0x1_0000

  predicate IsHigh(n: int) {
    0xD800 <= n < 0xDC00
  }

  predicate IsLow(n: int) {
    0xDC00 <= n < 0xE000
  }

  /** A code point that is no surrogate. */
  type Point = n: int | 0 <= n < 0x11_0000 && !IsHigh(n) && !IsLow(n)

  const REPLACEMENT: Point := 0xFFFD
  const QUESTION_MARK: Point := 0x3F
  const BYTE_ORDER_MARK: Point := 0xFEFF

  // ----------------------------------------------------------------- UTF-8

  function PointBytes(c: Point): (bs: seq<Byte>)
    ensures 1 <= |bs| <= 4
  {
    if c < 0x80 then [c]
    else if c < 0x800 then [0xC0 + c / 64, 0x80 + c % 64]
    else if c < 0x1_0000 then [0xE0 + c / 64 / 64, 0x80 + c / 64 % 64, 0x80 + c % 64]
    else [0xF0 + c / 64 / 64 / 64, 0x80 + c / 64 / 64 % 64, 0x80 + c / 64 % 64, 0x80 + c % 64]
  }

  function PointsBytes(cs: seq<Point>): seq<Byte> {
    if cs == [] then [] else PointBytes(cs[0]) + PointsBytes(cs[1..])
  }

  predicate IsTail(b: Byte) {
    0x80 <= b < 0xC0
  }

  /** How many bytes the first one announces; zero if none begins with it. */
  function Announced(b: Byte): (n: nat)
    ensures n <= 4
  {
    if b < 0x80 then 1
    else if b < 0xC2 then 0
    else if b < 0xE0 then 2
    else if b < 0xF0 then 3
    else if b < 0xF5 then 4
    else 0
  }

  /** Six more bits from a tail byte. */
  function Six(high: int, tail: int): int {
    high * 64 + (tail - 0x80)
  }

  /** The payload bits of so many bytes, put together. */
  function Payload(bs: seq<Byte>): int
    requires 1 <= |bs| <= 4
  {
    var lead: int := bs[0];
    if |bs| == 1 then lead
    else if |bs| == 2 then Six(lead - 0xC0, bs[1])
    else if |bs| == 3 then Six(Six(lead - 0xE0, bs[1]), bs[2])
    else Six(Six(Six(lead - 0xF0, bs[1]), bs[2]), bs[3])
  }

  lemma SixSplits(high: int, tail: int)
    requires 0 <= high && 0x80 <= tail < 0xC0
    ensures Six(high, tail) / 64 == high && Six(high, tail) % 64 == tail - 0x80
  {
  }

  lemma SixJoins(c: int)
    requires 0 <= c
    ensures Six(c / 64, 0x80 + c % 64) == c
  {
  }

  /** The least code point that needs n bytes. */
  function Least(n: nat): int {
    if n <= 1 then 0 else if n == 2 then 0x80 else if n == 3 then 0x800 else 0x1_0000
  }

  predicate InRange(c: int, n: nat) {
    Least(n) <= c < 0x11_0000 && !IsHigh(c) && !IsLow(c)
  }

  /** The code point the bytes begin with: no overlong form, no surrogate, none beyond U+10FFFF. */
  function Head(bs: seq<Byte>): Option<Point>
    requires bs != []
  {
    var n := Announced(bs[0]);
    if n == 0 || |bs| < n || !(forall i :: 1 <= i < n ==> IsTail(bs[i])) then None
    else if InRange(Payload(bs[..n]), n) then Some(Payload(bs[..n]))
    else None
  }

  /** Decoding goes on behind a code point, and behind a single byte that begins none. */
  function Points(bs: seq<Byte>): seq<Point> {
    if bs == [] then []
    else if Head(bs).Some? then [Head(bs).value] + Points(bs[Announced(bs[0])..])
    else [REPLACEMENT] + Points(bs[1..])
  }

  /** Decoded and encoded again. */
  function Recoded(bs: seq<Byte>): seq<Byte> {
    PointsBytes(Points(bs))
  }

  /** One character in the syntax of section 4 of RFC 3629. */
  predicate IsCharacter(bs: seq<Byte>) {
    if |bs| == 1 then bs[0] <= 0x7F
    else if |bs| == 2 then 0xC2 <= bs[0] <= 0xDF && IsTail(bs[1])
    else if |bs| == 3 then
      && IsTail(bs[2])
      && (|| (bs[0] == 0xE0 && 0xA0 <= bs[1] <= 0xBF)
          || (0xE1 <= bs[0] <= 0xEC && IsTail(bs[1]))
          || (bs[0] == 0xED && 0x80 <= bs[1] <= 0x9F)
          || (0xEE <= bs[0] <= 0xEF && IsTail(bs[1])))
    else if |bs| == 4 then
      && IsTail(bs[2]) && IsTail(bs[3])
      && (|| (bs[0] == 0xF0 && 0x90 <= bs[1] <= 0xBF)
          || (0xF1 <= bs[0] <= 0xF3 && IsTail(bs[1]))
          || (bs[0] == 0xF4 && 0x80 <= bs[1] <= 0x8F))
    else false
  }

  ghost predicate WellFormed(bs: seq<Byte>)
    decreases |bs|
  {
    bs == [] || exists n :: 1 <= n <= |bs| && IsCharacter(bs[..n]) && WellFormed(bs[n..])
  }

  lemma PayloadInRange(bs: seq<Byte>)
    requires 1 <= |bs| <= 4 && Announced(bs[0]) == |bs| && forall i :: 1 <= i < |bs| ==> IsTail(bs[i])
    ensures InRange(Payload(bs), |bs|) <==> IsCharacter(bs)
  {
  }

  /** The checks of the decoder accept exactly the syntax of the standard. */
  lemma HeadIsCharacter(bs: seq<Byte>)
    requires bs != []
    ensures Head(bs).Some? ==> 1 <= Announced(bs[0]) <= |bs| && IsCharacter(bs[..Announced(bs[0])])
    ensures forall n :: 1 <= n <= |bs| && IsCharacter(bs[..n]) ==> Head(bs).Some? && n == Announced(bs[0])
  {
    if Head(bs).Some? {
      PayloadInRange(bs[..Announced(bs[0])]);
    }
    forall n | 1 <= n <= |bs| && IsCharacter(bs[..n]) ensures Head(bs).Some? && n == Announced(bs[0]) {
      var x := bs[..n];
      assert x[0] == bs[0] && forall i :: 1 <= i < n ==> x[i] == bs[i];
      PayloadInRange(x);
    }
  }

  lemma PointAnnounced(c: Point)
    ensures var bs := PointBytes(c);
            && Announced(bs[0]) == |bs| && Payload(bs) == c && Least(|bs|) <= c
            && forall i :: 1 <= i < |bs| ==> IsTail(bs[i])
  {
    SixJoins(c);
    SixJoins(c / 64);
    SixJoins(c / 64 / 64);
  }

  lemma HeadOfPoint(c: Point, rest: seq<Byte>)
    ensures Head(PointBytes(c) + rest) == Some(c) && Announced((PointBytes(c) + rest)[0]) == |PointBytes(c)|
  {
    var x := PointBytes(c);
    PointAnnounced(c);
    assert (x + rest)[..|x|] == x;
  }

  lemma PayloadSplits(bs: seq<Byte>)
    requires 1 <= |bs| <= 4 && Announced(bs[0]) == |bs| && forall i :: 1 <= i < |bs| ==> IsTail(bs[i])
    requires InRange(Payload(bs), |bs|)
    ensures PointBytes(Payload(bs)) == bs
  {
    var lead: int := bs[0];
    if |bs| == 2 {
      SixSplits(lead - 0xC0, bs[1]);
    } else if |bs| == 3 {
      SixSplits(lead - 0xE0, bs[1]);
      SixSplits(Six(lead - 0xE0, bs[1]), bs[2]);
    } else if |bs| == 4 {
      SixSplits(lead - 0xF0, bs[1]);
      SixSplits(Six(lead - 0xF0, bs[1]), bs[2]);
      SixSplits(Six(Six(lead - 0xF0, bs[1]), bs[2]), bs[3]);
    }
  }

  lemma PointOfHead(bs: seq<Byte>)
    requires bs != [] && Head(bs).Some?
    ensures var n := Announced(bs[0]); 1 <= n <= |bs| && PointBytes(Head(bs).value) == bs[..n]
  {
    PayloadSplits(bs[..Announced(bs[0])]);
  }

  /** Decoding what was encoded gives the code points back. */
  lemma {:induction false} PointsOfBytes(cs: seq<Point>)
    ensures Points(PointsBytes(cs)) == cs
  {
    if cs == [] {
    } else {
      var x, rest := PointBytes(cs[0]), PointsBytes(cs[1..]);
      HeadOfPoint(cs[0], rest);
      PointsOfBytes(cs[1..]);
      assert (x + rest)[|x|..] == rest;
    }
  }

  /** How many bytes the first step of decoding takes. */
  function Taken(bs: seq<Byte>): (n: nat)
    requires bs != []
    ensures 1 <= n <= |bs|
  {
    if Head(bs).Some? then Announced(bs[0]) else 1
  }

  /** The first step of decoding, and what it is encoded to: the bytes it took, or three for one. */
  lemma FirstPoint(bs: seq<Byte>)
    requires bs != []
    ensures var c := if Head(bs).Some? then Head(bs).value else REPLACEMENT;
            && Points(bs) == [c] + Points(bs[Taken(bs)..])
            && Recoded(bs) == PointBytes(c) + Recoded(bs[Taken(bs)..])
            && (if Head(bs).Some? then PointBytes(c) == bs[..Taken(bs)] else |PointBytes(c)| == 3)
  {
    if Head(bs).Some? {
      PointOfHead(bs);
    }
    assert Points(bs)[1..] == Points(bs[Taken(bs)..]);
  }

  /** Every step of decoding finds a code point. */
  predicate Clean(bs: seq<Byte>)
    decreases |bs|
  {
    bs == [] || (Head(bs).Some? && Clean(bs[Taken(bs)..]))
  }

  lemma {:induction false} CleanIsWellFormed(bs: seq<Byte>)
    ensures Clean(bs) <==> WellFormed(bs)
    decreases |bs|
  {
    if bs == [] {
    } else {
      HeadIsCharacter(bs);
      CleanIsWellFormed(bs[Taken(bs)..]);
    }
  }

  /** Encoding what was decoded never shortens, keeps the length only of clean bytes, and gives
      these back. */
  lemma {:induction false} BytesOfPoints(bs: seq<Byte>)
    ensures |Recoded(bs)| >= |bs|
    ensures |Recoded(bs)| == |bs| ==> Clean(bs)
    ensures Clean(bs) ==> Recoded(bs) == bs
    decreases |bs|
  {
    if bs == [] {
    } else {
      BytesOfPoints(bs[Taken(bs)..]);
      FirstPoint(bs);
      assert bs == bs[..Taken(bs)] + bs[Taken(bs)..];
    }
  }

  /** The first character of clean bytes does not depend on what follows. */
  lemma SameFirst(x: seq<Byte>, y: seq<Byte>)
    requires x != [] && Head(x).Some?
    ensures Head(x + y) == Head(x) && Taken(x + y) == Taken(x)
    ensures (x + y)[Taken(x)..] == x[Taken(x)..] + y
  {
    assert (x + y)[..Announced(x[0])] == x[..Announced(x[0])];
  }

  lemma Regrouped(c: Point, x: seq<Point>, y: seq<Point>)
    ensures ([c] + x) + y == [c] + (x + y)
  {
  }

  lemma {:induction false} PointsBehindClean(x: seq<Byte>, y: seq<Byte>)
    requires Clean(x)
    ensures Points(x + y) == Points(x) + Points(y)
    decreases |x|
  {
    if x == [] {
      assert x + y == y;
    } else {
      var rest := x[Taken(x)..];
      SameFirst(x, y);
      PointsBehindClean(rest, y);
      FirstPoint(x);
      FirstPoint(x + y);
      Regrouped(Head(x).value, Points(rest), Points(y));
    }
  }

  /** One byte that begins no character, after well-formed bytes: it alone becomes U+FFFD. */
  lemma BadByteIsReplaced(x: seq<Byte>, b: Byte, y: seq<Byte>)
    requires WellFormed(x) && (0x80 <= b <= 0xC1 || b >= 0xF5)
    ensures Points(x + ([b] + y)) == Points(x) + ([0xFFFD] + Points(y))
  {
    CleanIsWellFormed(x);
    PointsBehindClean(x, [b] + y);
    assert ([b] + y)[1..] == y;
  }

  lemma WellFormedExactly(bs: seq<Byte>)
    ensures Recoded(bs) == bs <==> WellFormed(bs)
  {
    BytesOfPoints(bs);
    CleanIsWellFormed(bs);
  }

  // ---------------------------------------------------------------- UTF-16

  function PointUnits(c: Point): (us: seq<Unit>)
    ensures 1 <= |us| <= 2
  {
    if c < 0x1_0000 then [c] else [0xD800 + (c - 0x1_0000) / 1024, 0xDC00 + (c - 0x1_0000) % 1024]
  }

  function Units(cs: seq<Point>): seq<Unit> {
    if cs == [] then [] else PointUnits(cs[0]) + Units(cs[1..])
  }

  predicate BeginsWithPair(us: seq<Unit>) {
    |us| >= 2 && IsHigh(us[0]) && IsLow(us[1])
  }

  /** A surrogate without its partner becomes a question mark. */
  function UnitPoints(us: seq<Unit>): seq<Point> {
    if us == [] then []
    else if BeginsWithPair(us) then
      [PairPoint(us[0], us[1])] + UnitPoints(us[2..])
    else [if IsHigh(us[0]) || IsLow(us[0]) then QUESTION_MARK else us[0]] + UnitPoints(us[1..])
  }

  /** Every high surrogate is followed by a low one, and every low one follows a high one. */
  predicate Paired(us: seq<Unit>) {
    && (forall i :: 0 <= i < |us| && IsHigh(us[i]) ==> i + 1 < |us| && IsLow(us[i + 1]))
    && (forall i :: 0 <= i < |us| && IsLow(us[i]) ==> i > 0 && IsHigh(us[i - 1]))
  }

  lemma {:induction false} PointsOfUnits(cs: seq<Point>)
    ensures UnitPoints(Units(cs)) == cs
  {
    if cs == [] {
    } else {
      var x, rest := PointUnits(cs[0]), Units(cs[1..]);
      PointsOfUnits(cs[1..]);
      assert (x + rest)[|x|..] == rest;
    }
  }

  lemma PairedTail(us: seq<Unit>)
    requires us != []
    ensures BeginsWithPair(us) ==> (Paired(us) <==> Paired(us[2..]))
    ensures !BeginsWithPair(us) && !IsHigh(us[0]) && !IsLow(us[0]) ==> (Paired(us) <==> Paired(us[1..]))
    ensures !BeginsWithPair(us) && (IsHigh(us[0]) || IsLow(us[0])) ==> !Paired(us)
  {
    var n := if BeginsWithPair(us) then 2 else 1;
    var rest := us[n..];
    assert forall i :: 0 <= i < |rest| ==> rest[i] == us[i + n];
    assert forall i :: n <= i < |us| ==> us[i] == rest[i - n];
  }

  function PairPoint(high: Unit, low: Unit): Point
    requires IsHigh(high) && IsLow(low)
  {
    0x1_0000 + (high - 0xD800) * 1024 + (low - 0xDC00)
  }

  lemma PairRoundTrip(high: Unit, low: Unit)
    requires IsHigh(high) && IsLow(low)
    ensures PointUnits(PairPoint(high, low)) == [high, low]
  {
  }

  /** How many units the first code point takes. */
  function UnitsTaken(us: seq<Unit>): (n: nat)
    requires us != []
    ensures 1 <= n <= |us|
  {
    if BeginsWithPair(us) then 2 else 1
  }

  /** The first code point and its units: those it was read from, unless a lone surrogate. */
  lemma FirstUnits(us: seq<Unit>)
    requires us != []
    ensures var n, x := UnitsTaken(us), PointUnits(UnitPoints(us)[0]);
            && UnitPoints(us) == [UnitPoints(us)[0]] + UnitPoints(us[n..])
            && Units(UnitPoints(us)) == x + Units(UnitPoints(us[n..]))
            && |x| == n && (x == us[..n] <==> BeginsWithPair(us) || !(IsHigh(us[0]) || IsLow(us[0])))
  {
    if BeginsWithPair(us) {
      PairRoundTrip(us[0], us[1]);
    } else {
      assert us[..1][0] == us[0];
    }
    assert UnitPoints(us)[1..] == UnitPoints(us[UnitsTaken(us)..]);
  }

  lemma SameSplit(a: seq<Unit>, b: seq<Unit>, x: seq<Unit>, y: seq<Unit>)
    requires |a| == |b|
    ensures a + x == b + y <==> a == b && x == y
  {
    if a + x == b + y {
      assert (a + x)[..|a|] == a && (b + y)[..|a|] == b && (a + x)[|a|..] == x && (b + y)[|a|..] == y;
    }
  }

  /** The way to code points and back keeps the length, and the units exactly when they are paired. */
  lemma {:induction false} UnitsOfPoints(us: seq<Unit>)
    ensures |Units(UnitPoints(us))| == |us|
    ensures Units(UnitPoints(us)) == us <==> Paired(us)
    decreases |us|
  {
    if us == [] {
    } else {
      var n := UnitsTaken(us);
      UnitsOfPoints(us[n..]);
      PairedTail(us);
      FirstUnits(us);
      assert us == us[..n] + us[n..];
      SameSplit(PointUnits(UnitPoints(us)[0]), us[..n], Units(UnitPoints(us[n..])), us[n..]);
    }
  }

  // --------------------------------------------------------------- QString

  function ToUtf8(us: seq<Unit>): seq<Byte> {
    PointsBytes(UnitPoints(us))
  }

  const MARK_BYTES: seq<Byte> := [0xEF, 0xBB, 0xBF]

  predicate BeginsWithMark(bs: seq<Byte>) {
    MARK_BYTES <= bs
  }

  /** fromUtf8 skips a byte order mark at the beginning. */
  function FromUtf8(bs: seq<Byte>): seq<Unit> {
    Units(Points(if BeginsWithMark(bs) then bs[3..] else bs))
  }

  function UpToNul(bs: seq<Byte>): seq<Byte> {
    if bs == [] || bs[0] == 0 then [] else [bs[0]] + UpToNul(bs[1..])
  }

  /** The conversion of a byte array; with Qt 5 it ends at the first NUL, with Qt 6 it does not. */
  function FromByteArray(bs: seq<Byte>, nulEnds: bool): seq<Unit> {
    FromUtf8(if nulEnds then UpToNul(bs) else bs)
  }

  lemma {:induction false} UpToNulExactly(bs: seq<Byte>)
    ensures 0 !in UpToNul(bs) && (0 !in bs ==> UpToNul(bs) == bs)
    ensures UpToNul(bs) <= bs && (0 in bs ==> |UpToNul(bs)| < |bs| && bs[|UpToNul(bs)|] == 0)
  {
    if bs == [] {
    } else {
      UpToNulExactly(bs[1..]);
      assert bs == [bs[0]] + bs[1..];
    }
  }

  /** NUL stands for itself only. */
  lemma {:induction false} NulOfPoints(cs: seq<Point>)
    ensures 0 in PointsBytes(cs) <==> 0 in cs
    ensures 0 in Units(cs) <==> 0 in cs
  {
    if cs == [] {
    } else {
      NulOfPoints(cs[1..]);
      assert cs == [cs[0]] + cs[1..];
    }
  }

  lemma HeadIsNul(bs: seq<Byte>)
    requires bs != [] && Head(bs) == Some(0)
    ensures bs[0] == 0
  {
    PointOfHead(bs);
    assert bs[..Announced(bs[0])][0] == bs[0];
  }

  lemma {:induction false} NulOfBytes(bs: seq<Byte>)
    requires 0 !in bs
    ensures 0 !in Points(bs)
    decreases |bs|
  {
    if bs == [] {
    } else {
      if Head(bs) == Some(0) {
        HeadIsNul(bs);
      }
      NulOfBytes(bs[Taken(bs)..]);
      FirstPoint(bs);
    }
  }

  lemma {:induction false} NulOfUnits(us: seq<Unit>)
    ensures 0 in UnitPoints(us) <==> 0 in us
    decreases |us|
  {
    if us == [] {
    } else {
      var n := UnitsTaken(us);
      NulOfUnits(us[n..]);
      FirstUnits(us);
      assert us == us[..n] + us[n..];
    }
  }

  lemma MarkIsPoint(rest: seq<Byte>)
    ensures PointBytes(BYTE_ORDER_MARK) == MARK_BYTES
    ensures Points(MARK_BYTES + rest) == [BYTE_ORDER_MARK] + Points(rest)
  {
    HeadOfPoint(BYTE_ORDER_MARK, rest);
    assert (MARK_BYTES + rest)[3..] == rest;
  }

  lemma PointBytesInjective(c: Point, d: Point, x: seq<Byte>, y: seq<Byte>)
    requires PointBytes(c) + x == PointBytes(d) + y
    ensures c == d && x == y
  {
    HeadOfPoint(c, x);
    HeadOfPoint(d, y);
    assert (PointBytes(c) + x)[|PointBytes(c)|..] == x && (PointBytes(d) + y)[|PointBytes(d)|..] == y;
  }

  /** A skipped mark does not grow back. */
  lemma {:induction false} MarkIsLost(rest: seq<Byte>)
    ensures Recoded(rest) != MARK_BYTES + rest
    decreases |rest|
  {
    if rest == [] {
    } else if Recoded(rest) == MARK_BYTES + rest {
      MarkIsPoint(rest);
      FirstPoint(rest);
      PointBytesInjective(Points(rest)[0], BYTE_ORDER_MARK, Recoded(rest[Taken(rest)..]), rest);
      assert rest == MARK_BYTES + rest[3..];
      MarkIsLost(rest[3..]);
    }
  }

  // ------------------------------------------------------- what survives

  /** Well-formed bytes that do not begin with a byte order mark, and with Qt 5 hold no NUL. */
  ghost predicate BytesSurvive(bs: seq<Byte>, nulEnds: bool) {
    WellFormed(bs) && !BeginsWithMark(bs) && (nulEnds ==> 0 !in bs)
  }

  lemma RecodedNul(bs: seq<Byte>)
    requires 0 !in bs
    ensures 0 !in Recoded(bs)
  {
    NulOfBytes(bs);
    NulOfPoints(Points(bs));
  }

  lemma ConvertedBytes(bs: seq<Byte>, nulEnds: bool)
    ensures var x := if nulEnds then UpToNul(bs) else bs;
            ToUtf8(FromByteArray(bs, nulEnds)) == Recoded(if BeginsWithMark(x) then x[3..] else x)
  {
    var x := if nulEnds then UpToNul(bs) else bs;
    PointsOfUnits(Points(if BeginsWithMark(x) then x[3..] else x));
  }

  /** Bytes made a QString and bytes again are the same exactly then. */
  lemma BytesSurviveExactly(bs: seq<Byte>, nulEnds: bool)
    ensures ToUtf8(FromByteArray(bs, nulEnds)) == bs <==> BytesSurvive(bs, nulEnds)
  {
    var x := if nulEnds then UpToNul(bs) else bs;
    var y := if BeginsWithMark(x) then x[3..] else x;
    ConvertedBytes(bs, nulEnds);
    UpToNulExactly(bs);
    if nulEnds && 0 in bs {
      RecodedNul(y);
    } else if BeginsWithMark(bs) {
      assert bs == MARK_BYTES + bs[3..];
      MarkIsLost(bs[3..]);
    } else {
      WellFormedExactly(bs);
    }
  }

  /** Paired units that do not begin with a byte order mark, and with Qt 5 hold no NUL. */
  predicate UnitsSurvive(us: seq<Unit>, nulEnds: bool) {
    Paired(us) && (us != [] ==> us[0] != BYTE_ORDER_MARK) && (nulEnds ==> 0 !in us)
  }

  /** A surrogate without its partner is written as a question mark. */
  lemma LoneSurrogateIsQuestionMark(u: Unit)
    requires IsHigh(u) || IsLow(u)
    ensures ToUtf8([u]) == [0x3F]
  {
    assert UnitPoints([u][1..]) == [] && [QUESTION_MARK][1..] == [] && PointsBytes([]) == [];
    assert UnitPoints([u]) == [QUESTION_MARK];
  }

  lemma MarkOfUnits(us: seq<Unit>)
    ensures BeginsWithMark(ToUtf8(us)) <==> us != [] && us[0] == BYTE_ORDER_MARK
    ensures BeginsWithMark(ToUtf8(us)) ==> Points(ToUtf8(us)[3..]) == UnitPoints(us[1..])
  {
    if us == [] {
    } else {
      var cs := UnitPoints(us);
      var rest := PointsBytes(cs[1..]);
      MarkIsPoint(rest);
      if BeginsWithMark(ToUtf8(us)) {
        assert ToUtf8(us) == MARK_BYTES + ToUtf8(us)[3..];
        PointBytesInjective(cs[0], BYTE_ORDER_MARK, rest, ToUtf8(us)[3..]);
        PointsOfBytes(cs[1..]);
        assert cs[1..] == UnitPoints(us[1..]);
      }
    }
  }

  /** A QString made bytes and a QString again is the same exactly then. */
  lemma UnitsSurviveExactly(us: seq<Unit>, nulEnds: bool)
    ensures FromByteArray(ToUtf8(us), nulEnds) == us <==> UnitsSurvive(us, nulEnds)
  {
    NulOfUnits(us);
    NulOfPoints(UnitPoints(us));
    UpToNulExactly(ToUtf8(us));
    if nulEnds && 0 in us {
      var x := UpToNul(ToUtf8(us));
      var y := if BeginsWithMark(x) then x[3..] else x;
      NulOfBytes(y);
      NulOfPoints(Points(y));
    } else {
      MarkOfUnits(us);
      PointsOfBytes(UnitPoints(us));
      UnitsOfPoints(us);
      if us != [] {
        UnitsOfPoints(us[1..]);
      }
    }
  }
}
