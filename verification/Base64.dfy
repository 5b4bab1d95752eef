/** URL-safe base64 with optional trimming, over bytes; Base64Texts puts the conversions around it.
    The codec underneath is that of sections 4 and 5 of RFC 4648; the decoder skips what is not in
    the alphabet and needs no padding. */
module Base64 {
  import opened Utf8

  type Sextet = n: int | 0 <= n < 64

  // -------------------------------------------------------------- the alphabet

  predicate InAlphabet(c: char) {
    'A' <= c <= 'Z' || 'a' <= c <= 'z' || '0' <= c <= '9' || c == '+' || c == '/'
  }

  function CharOf(i: Sextet): (c: char)
    ensures InAlphabet(c)
  {
    if i < 26 then ('A' as int + i) as char
    else if i < 52 then ('a' as int + (i - 26)) as char
    else if i < 62 then ('0' as int + (i - 52)) as char
    else if i == 62 then '+'
    else '/'
  }

  function Index(c: char): Sextet
    requires InAlphabet(c)
  {
    if 'A' <= c <= 'Z' then c as int - 'A' as int
    else if 'a' <= c <= 'z' then c as int - 'a' as int + 26
    else if '0' <= c <= '9' then c as int - '0' as int + 52
    else if c == '+' then 62
    else 63
  }

  function Text(xs: seq<Sextet>): (s: string)
    ensures |s| == |xs| && forall i :: 0 <= i < |xs| ==> s[i] == CharOf(xs[i])
  {
    seq(|xs|, i requires 0 <= i < |xs| => CharOf(xs[i]))
  }

  /** The characters of the alphabet in s, as their indices; the others are skipped. */
  function Kept(s: string): seq<Sextet> {
    if s == "" then []
    else if InAlphabet(s[0]) then [Index(s[0])] + Kept(s[1..])
    else Kept(s[1..])
  }

  lemma TextCons(x: Sextet, ys: seq<Sextet>)
    ensures Text([x] + ys) == [CharOf(x)] + Text(ys)
  {
  }

  lemma {:induction false} KeptOfText(xs: seq<Sextet>)
    ensures Kept(Text(xs)) == xs
  {
    if xs == [] {
    } else {
      KeptOfText(xs[1..]);
      TextCons(xs[0], xs[1..]);
      assert xs == [xs[0]] + xs[1..];
      assert ([CharOf(xs[0])] + Text(xs[1..]))[1..] == Text(xs[1..]);
    }
  }

  lemma {:induction false} KeptConcat(s: string, t: string)
    ensures Kept(s + t) == Kept(s) + Kept(t)
  {
    if s == "" {
      assert s + t == t;
    } else {
      KeptConcat(s[1..], t);
      assert (s + t)[1..] == s[1..] + t;
    }
  }

  /** Table 1 of RFC 4648, by character codes: A to Z, a to z, 0 to 9, plus and slash. */
  lemma AlphabetTable(i: Sextet)
    ensures CharOf(i) as int == if i < 26 then 65 + i
                                else if i < 52 then 97 + (i - 26)
                                else if i < 62 then 48 + (i - 52)
                                else if i == 62 then 43
                                else 47
    ensures Index(CharOf(i)) == i
  {
  }

  predicate OverAlphabet(s: string) {
    forall i :: 0 <= i < |s| ==> InAlphabet(s[i])
  }

  lemma {:induction false} TextOfKept(s: string)
    requires OverAlphabet(s)
    ensures Text(Kept(s)) == s
  {
    if s == "" {
    } else {
      TextOfKept(s[1..]);
      TextCons(Index(s[0]), Kept(s[1..]));
      assert CharOf(Index(s[0])) == s[0];
      assert s == [s[0]] + s[1..];
    }
  }

  lemma {:induction false} KeptIgnoresEnd(s: string, t: string)
    requires forall i :: 0 <= i < |t| ==> !InAlphabet(t[i])
    ensures Kept(s + t) == Kept(s)
    decreases |s| + |t|
  {
    if s != "" {
      KeptIgnoresEnd(s[1..], t);
      assert (s + t)[1..] == s[1..] + t;
    } else if t != "" {
      KeptIgnoresEnd("", t[1..]);
      assert s + t == t && "" + t[1..] == t[1..];
    } else {
      assert s + t == s;
    }
  }

  // ------------------------------------------------------- bytes and sextets

  function Four(a: Byte, b: Byte, c: Byte): seq<Sextet> {
    [a / 4, a % 4 * 16 + b / 16, b % 16 * 4 + c / 64, c % 64]
  }

  function Three(w: Sextet, x: Sextet, y: Sextet, z: Sextet): seq<Byte> {
    var w': int, x': int, y': int, z': int := w, x, y, z;
    [w' * 4 + x' / 16, x' % 16 * 16 + y' / 4, y' % 4 * 64 + z']
  }

  /** Three bytes are four sextets; one or two left over are two or three, filled with zeros. */
  function Sextets(bytes: seq<Byte>): (xs: seq<Sextet>)
    ensures |xs| == (4 * |bytes| + 2) / 3
  {
    if |bytes| == 0 then []
    else if |bytes| == 1 then Four(bytes[0], 0, 0)[..2]
    else if |bytes| == 2 then Four(bytes[0], bytes[1], 0)[..3]
    else Four(bytes[0], bytes[1], bytes[2]) + Sextets(bytes[3..])
  }

  function Pow2(bits: nat): nat
    requires bits in {0, 2, 4, 6}
  {
    if bits == 0 then 1 else if bits == 2 then 4 else if bits == 4 then 16 else 64
  }

  /** One sextet at a time into a buffer of bits, whole bytes out. */
  function Drained(xs: seq<Sextet>, buf: nat, bits: nat): seq<Byte>
    requires bits in {0, 2, 4, 6} && buf < Pow2(bits)
  {
    if xs == [] then []
    else
      var b := buf * 64 + xs[0];
      if bits == 0 then Drained(xs[1..], b, 6)
      else [b / Pow2(bits - 2)] + Drained(xs[1..], b % Pow2(bits - 2), bits - 2)
  }

  function Bytes(xs: seq<Sextet>): seq<Byte> {
    Drained(xs, 0, 0)
  }

  lemma Step2(y: int, z: int, rest: seq<Sextet>)
    requires 0 <= y < 4 && 0 <= z < 64
    ensures Drained([z] + rest, y, 2) == [y * 64 + z] + Drained(rest, 0, 0)
  {
    assert ([z] + rest)[1..] == rest;
  }

  lemma Step4(x: int, y: int, rest: seq<Sextet>)
    requires 0 <= x < 16 && 0 <= y < 64
    ensures Drained([y] + rest, x, 4) == [x * 16 + y / 4] + Drained(rest, y % 4, 2)
  {
    assert ([y] + rest)[1..] == rest;
    assert (x * 64 + y) / 4 == x * 16 + y / 4 && (x * 64 + y) % 4 == y % 4;
  }

  lemma Step6(w: int, x: int, rest: seq<Sextet>)
    requires 0 <= w < 64 && 0 <= x < 64
    ensures Drained([w, x] + rest, 0, 0) == [w * 4 + x / 16] + Drained(rest, x % 16, 4)
  {
    assert ([w, x] + rest)[1..] == [x] + rest && ([x] + rest)[1..] == rest;
    assert Drained([w, x] + rest, 0, 0) == Drained([x] + rest, w, 6);
    assert (w * 64 + x) / 16 == w * 4 + x / 16 && (w * 64 + x) % 16 == x % 16;
  }

  /** Four sextets are three bytes. */
  lemma BytesOfFour(w: Sextet, x: Sextet, y: Sextet, z: Sextet, rest: seq<Sextet>)
    ensures Bytes([w, x, y, z] + rest) == Three(w, x, y, z) + Bytes(rest)
  {
    Step2(y % 4, z, rest);
    Step4(x % 16, y, [z] + rest);
    Step6(w, x, [y] + ([z] + rest));
    assert [w, x] + ([y] + ([z] + rest)) == [w, x, y, z] + rest;
  }

  lemma BytesOfTwo(w: Sextet, x: Sextet)
    ensures Bytes([w, x]) == Three(w, x, 0, 0)[..1]
  {
    Step6(w, x, []);
    assert [w, x] + [] == [w, x];
  }

  lemma BytesOfThree(w: Sextet, x: Sextet, y: Sextet)
    ensures Bytes([w, x, y]) == Three(w, x, y, 0)[..2]
  {
    Step6(w, x, [y]);
    Step4(x % 16, y, []);
    assert [w, x] + [y] == [w, x, y] && [y] + [] == [y];
  }

  lemma PackUnpack(a: Byte, b: Byte, c: Byte)
    ensures var q := Four(a, b, c); Three(q[0], q[1], q[2], q[3]) == [a, b, c]
  {
  }

  lemma UnpackPack(w: Sextet, x: Sextet, y: Sextet, z: Sextet)
    ensures var t := Three(w, x, y, z); Four(t[0], t[1], t[2]) == [w, x, y, z]
  {
    Digits4(w, x / 16);
    Digits16(x % 16, y / 4);
    Digits64(y % 4, z);
  }

  lemma Digits4(q: int, r: int)
    requires 0 <= r < 4
    ensures (q * 4 + r) / 4 == q && (q * 4 + r) % 4 == r
  {
  }

  lemma Digits16(q: int, r: int)
    requires 0 <= r < 16
    ensures (q * 16 + r) / 16 == q && (q * 16 + r) % 16 == r
  {
  }

  lemma Digits64(q: int, r: int)
    requires 0 <= r < 64
    ensures (q * 64 + r) / 64 == q && (q * 64 + r) % 64 == r
  {
  }

  /** Splitting bytes into sextets loses nothing. */
  lemma {:induction false} BytesOfSextets(bytes: seq<Byte>)
    ensures Bytes(Sextets(bytes)) == bytes
  {
    if |bytes| == 1 {
      var q := Four(bytes[0], 0, 0);
      PackUnpack(bytes[0], 0, 0);
      BytesOfTwo(q[0], q[1]);
      assert q[..2] == [q[0], q[1]];
      assert Three(q[0], q[1], 0, 0)[..1] == Three(q[0], q[1], q[2], q[3])[..1];
    } else if |bytes| == 2 {
      var q := Four(bytes[0], bytes[1], 0);
      PackUnpack(bytes[0], bytes[1], 0);
      BytesOfThree(q[0], q[1], q[2]);
      assert q[..3] == [q[0], q[1], q[2]];
      assert Three(q[0], q[1], q[2], 0)[..2] == Three(q[0], q[1], q[2], q[3])[..2];
    } else if |bytes| >= 3 {
      GroupRoundTrip(bytes[0], bytes[1], bytes[2], Sextets(bytes[3..]));
      BytesOfSextets(bytes[3..]);
      assert bytes == [bytes[0], bytes[1], bytes[2]] + bytes[3..];
    }
  }

  lemma GroupRoundTrip(a: Byte, b: Byte, c: Byte, rest: seq<Sextet>)
    ensures Bytes(Four(a, b, c) + rest) == [a, b, c] + Bytes(rest)
  {
    var q := Four(a, b, c);
    PackUnpack(a, b, c);
    BytesOfFour(q[0], q[1], q[2], q[3], rest);
    assert q == [q[0], q[1], q[2], q[3]];
  }

  /** A number of sextets an encoding can have, and no stray bits behind the last byte. */
  predicate Canonical(xs: seq<Sextet>) {
    && |xs| % 4 != 1
    && (|xs| % 4 == 2 ==> xs[|xs| - 1] % 16 == 0)
    && (|xs| % 4 == 3 ==> xs[|xs| - 1] % 4 == 0)
  }

  lemma {:induction false} SextetsAreCanonical(bytes: seq<Byte>)
    ensures Canonical(Sextets(bytes))
  {
    if |bytes| >= 3 {
      SextetsAreCanonical(bytes[3..]);
      CanonicalBehindFour(Four(bytes[0], bytes[1], bytes[2]), Sextets(bytes[3..]));
    }
  }

  lemma CanonicalBehindFour(q: seq<Sextet>, xs: seq<Sextet>)
    requires |q| == 4 && Canonical(xs)
    ensures Canonical(q + xs)
  {
    assert |q + xs| % 4 == |xs| % 4;
  }

  /** Without stray bits, the sextets are those of the bytes they make. */
  lemma {:induction false} SextetsOfBytes(xs: seq<Sextet>)
    requires Canonical(xs)
    ensures Sextets(Bytes(xs)) == xs
  {
    if |xs| == 2 {
      SextetsOfTwo(xs[0], xs[1]);
      assert xs == [xs[0], xs[1]];
    } else if |xs| == 3 {
      SextetsOfThree(xs[0], xs[1], xs[2]);
      assert xs == [xs[0], xs[1], xs[2]];
    } else if |xs| >= 4 {
      SextetsOfBytes(xs[4..]);
      SextetsOfFour(xs[0], xs[1], xs[2], xs[3], xs[4..]);
      assert xs == [xs[0], xs[1], xs[2], xs[3]] + xs[4..];
    }
  }

  lemma SextetsOfTwo(w: Sextet, x: Sextet)
    requires x % 16 == 0
    ensures Sextets(Bytes([w, x])) == [w, x]
  {
    BytesOfTwo(w, x);
    UnpackPack(w, x, 0, 0);
    var t := Three(w, x, 0, 0);
    assert t[1] == 0 && t[2] == 0;
    assert Four(t[0], t[1], t[2])[..2] == [w, x];
  }

  lemma SextetsOfThree(w: Sextet, x: Sextet, y: Sextet)
    requires y % 4 == 0
    ensures Sextets(Bytes([w, x, y])) == [w, x, y]
  {
    BytesOfThree(w, x, y);
    UnpackPack(w, x, y, 0);
    var t := Three(w, x, y, 0);
    assert t[2] == 0;
    assert Four(t[0], t[1], t[2])[..3] == [w, x, y];
  }

  lemma SextetsOfFour(w: Sextet, x: Sextet, y: Sextet, z: Sextet, rest: seq<Sextet>)
    ensures Sextets(Bytes([w, x, y, z] + rest)) == [w, x, y, z] + Sextets(Bytes(rest))
  {
    BytesOfFour(w, x, y, z, rest);
    UnpackPack(w, x, y, z);
    var t := Three(w, x, y, z);
    assert (t + Bytes(rest))[3..] == Bytes(rest);
  }

  // --------------------------------------------------------------- the helpers

  function Padding(n: nat): string {
    if n % 3 == 0 then "" else if n % 3 == 1 then "==" else "="
  }

  function ToBase64(bytes: seq<Byte>): string {
    Text(Sextets(bytes)) + Padding(|bytes|)
  }

  function FromBase64(s: string): seq<Byte> {
    Bytes(Kept(s))
  }

  function Replaced(s: string, from: char, to: char): (r: string)
    ensures |r| == |s| && forall i :: 0 <= i < |s| ==> r[i] == if s[i] == from then to else s[i]
  {
    seq(|s|, i requires 0 <= i < |s| => if s[i] == from then to else s[i])
  }

  /** What is left when the equals signs at the end are cut off. */
  function Trimmed(s: string): string {
    if s != "" && s[|s| - 1] == '=' then Trimmed(s[..|s| - 1]) else s
  }

  function UrlSafe(s: string): string {
    Replaced(Replaced(s, '+', '-'), '/', '_')
  }

  function Standard(s: string): string {
    Replaced(Replaced(s, '-', '+'), '_', '/')
  }

  function Encode(bytes: seq<Byte>, trim: bool): string {
    if trim then Trimmed(UrlSafe(ToBase64(bytes))) else UrlSafe(ToBase64(bytes))
  }

  function Decode(s: string): seq<Byte> {
    FromBase64(Standard(s))
  }

  // --------------------------------------------------------------- round trips

  lemma TrimOne(s: string)
    ensures Trimmed(s + "=") == Trimmed(s)
  {
    assert (s + "=")[..|s|] == s;
  }

  lemma TrimmedPadding(s: string, n: nat)
    requires '=' !in s
    ensures Trimmed(s + Padding(n)) == s
  {
    TrimOne(s);
    TrimOne(s + "=");
    assert s + "" == s && s + "==" == (s + "=") + "=";
  }

  lemma UrlSafeConcat(s: string, t: string)
    requires forall i :: 0 <= i < |t| ==> t[i] == '='
    ensures UrlSafe(s + t) == UrlSafe(s) + t && Standard(s + t) == Standard(s) + t
  {
  }

  lemma StandardOfUrlSafe(s: string)
    requires OverAlphabet(s)
    ensures Standard(UrlSafe(s)) == s && '=' !in UrlSafe(s)
  {
  }

  /** The encoding is the text of the sextets made URL-safe; trimming removes just the padding. */
  lemma EncodedForm(bytes: seq<Byte>)
    ensures OverAlphabet(Text(Sextets(bytes)))
    ensures Encode(bytes, true) == UrlSafe(Text(Sextets(bytes)))
    ensures Encode(bytes, false) == UrlSafe(Text(Sextets(bytes))) + Padding(|bytes|)
  {
    PaddedForm(Text(Sextets(bytes)), |bytes|);
  }

  lemma PaddedForm(core: string, n: nat)
    requires OverAlphabet(core)
    ensures UrlSafe(core + Padding(n)) == UrlSafe(core) + Padding(n)
    ensures Trimmed(UrlSafe(core + Padding(n))) == UrlSafe(core)
  {
    StandardOfUrlSafe(core);
    UrlSafeConcat(core, Padding(n));
    TrimmedPadding(UrlSafe(core), n);
  }

  /** Decoding what was encoded gives the bytes back, trimmed or not. */
  lemma DecodeEncode(bytes: seq<Byte>, trim: bool)
    ensures Decode(Encode(bytes, trim)) == bytes
  {
    var core, p := Text(Sextets(bytes)), Padding(|bytes|);
    EncodedForm(bytes);
    StandardOfUrlSafe(core);
    KeptOfText(Sextets(bytes));
    BytesOfSextets(bytes);
    if !trim {
      UrlSafeConcat(UrlSafe(core), p);
      KeptIgnoresEnd(core, p);
    }
  }

  /** A character of neither alphabet, such as a line break, is skipped wherever it stands. */
  lemma ForeignIsSkipped(s: string, c: char, t: string)
    requires !UrlChar(c) && c != '+' && c != '/'
    ensures Decode(s + [c] + t) == Decode(s + t)
  {
    assert Standard(s + [c] + t) == Standard(s) + Standard([c]) + Standard(t) && Standard([c]) == [c];
    assert Standard(s + t) == Standard(s) + Standard(t);
    KeptConcat(Standard(s) + [c], Standard(t));
    KeptConcat(Standard(s), [c]);
    KeptConcat(Standard(s), Standard(t));
    assert [c][1..] == "" && Kept([c]) == [];
    assert Kept(Standard(s)) + [] == Kept(Standard(s));
  }

  predicate UrlChar(c: char) {
    'A' <= c <= 'Z' || 'a' <= c <= 'z' || '0' <= c <= '9' || c == '-' || c == '_'
  }

  predicate OverUrlAlphabet(s: string) {
    forall i :: 0 <= i < |s| ==> UrlChar(s[i])
  }

  /** The trimmed form: only URL-safe characters, no padding, and four characters for three bytes
      rounded up. */
  lemma TrimmedForm(bytes: seq<Byte>)
    ensures var s := Encode(bytes, true);
            |s| == (4 * |bytes| + 2) / 3 && '=' !in s && OverUrlAlphabet(s)
  {
    EncodedForm(bytes);
    StandardOfUrlSafe(Text(Sextets(bytes)));
  }

  lemma UrlSafeOfStandard(s: string)
    requires OverUrlAlphabet(s)
    ensures UrlSafe(Standard(s)) == s && OverAlphabet(Standard(s))
  {
  }

  /** Encoding what was decoded gives the text back exactly when it is over the URL-safe alphabet,
      has a length an encoding can have, and has no stray bits at its end. */
  lemma EncodeDecode(s: string)
    ensures Encode(Decode(s), true) == s <==> OverUrlAlphabet(s) && Canonical(Kept(Standard(s)))
  {
    var xs := Kept(Standard(s));
    EncodedForm(Bytes(xs));
    if Encode(Decode(s), true) == s {
      TrimmedForm(Bytes(xs));
      StandardOfUrlSafe(Text(Sextets(Bytes(xs))));
      KeptOfText(Sextets(Bytes(xs)));
      SextetsAreCanonical(Bytes(xs));
    }
    if OverUrlAlphabet(s) && Canonical(xs) {
      UrlSafeOfStandard(s);
      SextetsOfBytes(xs);
      TextOfKept(Standard(s));
    }
  }

  /** Where the padding begins. */
  lemma {:induction false} TrimmedIsPrefix(s: string)
    ensures Trimmed(s) <= s && forall i :: |Trimmed(s)| <= i < |s| ==> s[i] == '='
  {
    if s == "" || s[|s| - 1] != '=' {
    } else {
      TrimmedIsPrefix(s[..|s| - 1]);
    }
  }

  lemma DecodeIgnoresPadding(s: string)
    ensures Decode(s) == Decode(Trimmed(s))
  {
    var t := Trimmed(s);
    TrimmedIsPrefix(s);
    var tail := s[|t|..];
    assert s == t + tail;
    UrlSafeConcat(t, tail);
    KeptIgnoresEnd(Standard(t), tail);
  }

  lemma TextLength(n: nat)
    ensures (4 * n + 2) / 3 == 4 * (n / 3) + (if n % 3 == 0 then 0 else n % 3 + 1)
  {
    assert n == 3 * (n / 3) + n % 3;
  }

  lemma Multiple(m: nat, d: nat)
    ensures (4 * m + d) % 4 == d % 4
  {
  }

  /** Fewer than four equals signs make the length a multiple of four exactly if they are the
      padding. */
  lemma PaddedLength(n: nat, d: nat)
    requires d < 4
    ensures ((4 * n + 2) / 3 + d) % 4 == 0 <==> d == |Padding(n)|
  {
    TextLength(n);
    Multiple(n / 3, (if n % 3 == 0 then 0 else n % 3 + 1) + d);
  }

  lemma PaddedIfTrimmed(s: string, core: string, n: nat)
    requires '=' !in core && |core| == (4 * n + 2) / 3
    ensures s == core + Padding(n) <==> Trimmed(s) == core && |s| % 4 == 0 && |s| < |core| + 4
  {
    TrimmedIsPrefix(s);
    if s == core + Padding(n) {
      TrimmedPadding(core, n);
      PaddedLength(n, |Padding(n)|);
    }
    if Trimmed(s) == core && |s| % 4 == 0 && |s| < |core| + 4 {
      PaddedLength(n, |s| - |core|);
      assert s == core + s[|core|..] && s[|core|..] == Padding(n);
    }
  }

  /** The untrimmed encoding gives the text back exactly when its part before the equals signs at
      its end is one the trimmed encoding gives back, and these make its length a multiple of four
      and are fewer than four. */
  lemma EncodeDecodePadded(s: string)
    ensures Encode(Decode(s), false) == s <==>
            && OverUrlAlphabet(Trimmed(s)) && Canonical(Kept(Standard(Trimmed(s))))
            && |s| % 4 == 0 && |s| < |Trimmed(s)| + 4
  {
    var core := Encode(Decode(s), true);
    DecodeIgnoresPadding(s);
    EncodedForm(Decode(s));
    TrimmedForm(Decode(s));
    PaddedIfTrimmed(s, core, |Decode(s)|);
    EncodeDecode(Trimmed(s));
  }

  /** A text with stray bits: Zh holds the byte 102 and four bits more, and comes back as Zg. */
  lemma StrayBitsAreLost()
    ensures Decode("Zh") == [102] && Encode(Decode("Zh"), true) == "Zg"
  {
    assert Standard("Zh") == "Zh";
    assert "Zh"[1..] == "h" && "h"[1..] == "" && Kept("h") == [33];
    assert Kept("Zh") == [25, 33];
    BytesOfTwo(25, 33);
    assert Bytes([25, 33]) == [102];
    EncodedForm([102]);
    assert Sextets([102]) == [25, 32];
    assert Text([25, 32]) == "Zg";
  }

  /** Two texts in full: the vector "foo" of section 10 of RFC 4648, and one with both of the
      URL-safe characters. */
  lemma Vectors()
    ensures Encode([0x66, 0x6F, 0x6F], true) == "Zm9v"
    ensures Encode([0xFB, 0xFF], true) == "-_8"
  {
    VectorFoo();
    VectorUrlSafe();
    EncodedForm([0x66, 0x6F, 0x6F]);
    EncodedForm([0xFB, 0xFF]);
  }

  lemma VectorFoo()
    ensures UrlSafe(Text(Sextets([0x66, 0x6F, 0x6F]))) == "Zm9v"
  {
    assert [0x66, 0x6F, 0x6F][3..] == [];
    assert Sextets([0x66, 0x6F, 0x6F]) == [25, 38, 61, 47];
    assert UrlSafe(Text([25, 38, 61, 47])) == "Zm9v";
  }

  lemma VectorUrlSafe()
    ensures UrlSafe(Text(Sextets([0xFB, 0xFF]))) == "-_8"
  {
    assert Sextets([0xFB, 0xFF]) == [62, 63, 60];
    assert UrlSafe(Text([62, 63, 60])) == "-_8";
  }
}
