/** SafeBase64Encode and SafeBase64Decode as the callers see them: from QString to QString, with the
    UTF-8 conversions before encoding and behind decoding.  nulEnds is true of Qt 5 and false of
    Qt 6, both of which the build allows. */
module Base64Texts {
  import opened Utf8
  import opened Base64

  function SafeEncode(text: seq<Unit>, trim: bool): string {
    Encode(ToUtf8(text), trim)
  }

  /** The decoded byte array is returned as a QString. */
  function SafeDecode(s: string, nulEnds: bool): seq<Unit> {
    FromByteArray(Decode(s), nulEnds)
  }

  /** The loop that counts the equals signs at the end, and their removal. */
  method TrimEquals(base64: string) returns (r: string)
    ensures r == Trimmed(base64)
  {
    var idx := |base64|;
    assert base64[..idx] == base64;
    while idx > 0 && base64[idx - 1] == '='
      invariant 0 <= idx <= |base64|
      invariant Trimmed(base64) == Trimmed(base64[..idx])
    {
      assert base64[..idx][..idx - 1] == base64[..idx - 1];
      idx := idx - 1;
    }
    r := if idx != |base64| then base64[..idx] else base64;
  }

  method SafeBase64Encode(text: seq<Unit>, trim: bool) returns (r: string)
    ensures r == SafeEncode(text, trim)
  {
    var base64 := Replaced(Replaced(ToBase64(ToUtf8(text)), '+', '-'), '/', '_');
    if !trim {
      return base64;
    }
    r := TrimEquals(base64);
  }

  // --------------------------------------------------------------- round trips

  /** A text survives encoding and decoding, trimmed or not, exactly when its surrogates are paired,
      it does not begin with a byte order mark and, with Qt 5, it holds no NUL. */
  lemma TextDecodesBack(text: seq<Unit>, trim: bool, nulEnds: bool)
    ensures SafeDecode(SafeEncode(text, trim), nulEnds) == text <==> UnitsSurvive(text, nulEnds)
  {
    DecodeEncode(ToUtf8(text), trim);
    UnitsSurviveExactly(text, nulEnds);
  }

  lemma ThroughTheText(s: string, trim: bool, nulEnds: bool)
    ensures SafeEncode(SafeDecode(s, nulEnds), trim) == s <==>
            Encode(Decode(s), trim) == s && BytesSurvive(Decode(s), nulEnds)
  {
    DecodeEncode(ToUtf8(SafeDecode(s, nulEnds)), trim);
    BytesSurviveExactly(Decode(s), nulEnds);
  }

  /** Decoding and encoding, trimmed, give a text back exactly when it is over the URL-safe alphabet,
      has a length an encoding can have and no stray bits, and what it encodes is well-formed UTF-8
      that does not begin with a byte order mark and, with Qt 5, holds no NUL. */
  lemma EncodesBack(s: string, nulEnds: bool)
    ensures SafeEncode(SafeDecode(s, nulEnds), true) == s <==>
            && OverUrlAlphabet(s) && Canonical(Kept(Standard(s)))
            && BytesSurvive(Decode(s), nulEnds)
  {
    ThroughTheText(s, true, nulEnds);
    EncodeDecode(s);
  }

  /** The same with padding, which must complete the length to a multiple of four. */
  lemma EncodesBackPadded(s: string, nulEnds: bool)
    ensures SafeEncode(SafeDecode(s, nulEnds), false) == s <==>
            && OverUrlAlphabet(Trimmed(s)) && Canonical(Kept(Standard(Trimmed(s))))
            && |s| % 4 == 0 && |s| < |Trimmed(s)| + 4
            && BytesSurvive(Decode(s), nulEnds)
  {
    ThroughTheText(s, false, nulEnds);
    EncodeDecodePadded(s);
  }

  // ------------------------------------------------------------- failing texts

  /** Zh holds the byte 102, the letter f, and four bits more: it comes back as Zg. */
  lemma StrayBitsAreDropped(s: string, nulEnds: bool)
    requires s == "Zh"
    ensures SafeEncode(SafeDecode(s, nulEnds), true) == "Zg"
  {
    var bs: seq<Byte> := [102];
    StrayBitsAreLost();
    assert IsCharacter(bs[..1]) && WellFormed(bs[1..]);
    BytesSurviveExactly(bs, nulEnds);
  }

  lemma DecodedTwo(s: string, w: Sextet, x: Sextet, b: Byte)
    requires |s| == 2 && OverAlphabet(Standard(s)) && Index(Standard(s)[0]) == w && Index(Standard(s)[1]) == x
    requires b == w * 4 + x / 16
    ensures Kept(Standard(s)) == [w, x] && Decode(s) == [b]
  {
    var t := Standard(s);
    assert Kept(t[1..][1..]) == [] && Kept(t[1..]) == [Index(t[1])];
    BytesOfTwo(w, x);
  }

  lemma ReplacementBytes()
    ensures Points([0xFF]) == [REPLACEMENT] && ToUtf8(Units([REPLACEMENT])) == [0xEF, 0xBF, 0xBD]
  {
    var bs: seq<Byte> := [0xFF];
    assert Head(bs).None? && bs[1..] == [] && Points([]) == [];
    PointsOfUnits([REPLACEMENT]);
    assert [REPLACEMENT][1..] == [] && PointsBytes([]) == [];
  }

  lemma ReplacementSextets(bs: seq<Byte>)
    requires bs == [0xEF, 0xBF, 0xBD]
    ensures Sextets(bs) == [59, 59, 62, 61]
  {
    assert bs[3..] == [] && Sextets(bs[3..]) == [];
    assert Four(bs[0], bs[1], bs[2]) == [59, 59, 62, 61];
  }

  lemma ReplacementText(xs: seq<Sextet>)
    requires xs == [59, 59, 62, 61]
    ensures UrlSafe(Text(xs)) == "77-9"
  {
    assert Text(xs) == "77+9";
  }

  lemma ReplacementEncoded(bs: seq<Byte>)
    requires bs == [0xEF, 0xBF, 0xBD]
    ensures Encode(bs, true) == "77-9"
  {
    EncodedForm(bs);
    ReplacementSextets(bs);
    ReplacementText(Sextets(bs));
  }

  /** _w is a canonical encoding, of the one byte 255, which is no UTF-8: it comes back as 77-9. */
  lemma NotUtf8IsReplaced(s: string, nulEnds: bool)
    requires s == "_w"
    ensures OverUrlAlphabet(s) && Canonical(Kept(Standard(s))) && Decode(s) == [0xFF]
    ensures SafeEncode(SafeDecode(s, nulEnds), true) == "77-9"
  {
    assert Standard(s) == "/w";
    DecodedTwo(s, 63, 48, 0xFF);
    var bs: seq<Byte> := [0xFF];
    assert UpToNul(bs) == bs by {
      UpToNulExactly(bs);
    }
    ReplacementBytes();
    ReplacementEncoded([0xEF, 0xBF, 0xBD]);
  }

  lemma NulByte(bs: seq<Byte>)
    requires bs == [0]
    ensures BytesSurvive(bs, false) && FromByteArray(bs, true) == []
  {
    assert IsCharacter(bs[..1]) && WellFormed(bs[1..]);
    assert UpToNul(bs) == [] && Points([]) == [];
  }

  /** With Qt 5 no text that holds a NUL comes back. */
  lemma NulTextIsCut(text: seq<Unit>, trim: bool)
    requires 0 in text
    ensures SafeDecode(SafeEncode(text, trim), true) != text
  {
    TextDecodesBack(text, trim, true);
  }

  lemma NoughtDecodes(s: string)
    requires s == "AA"
    ensures Standard(s) == s && Kept(s) == [0, 0] && Decode(s) == [0] && OverUrlAlphabet(s)
  {
    assert Standard(s) == s;
    DecodedTwo(s, 0, 0, 0);
  }

  /** AA is the encoding of the one byte 0, at which Qt 5 ends the text. */
  lemma NulIsCut(s: string)
    requires s == "AA"
    ensures Decode(s) == [0] && SafeDecode(s, true) == [] && SafeEncode(SafeDecode(s, true), true) == ""
  {
    NoughtDecodes(s);
    NulByte(Decode(s));
    EncodedForm([]);
  }

  /** Qt 6 keeps it. */
  lemma NulIsKept(s: string)
    requires s == "AA"
    ensures SafeEncode(SafeDecode(s, false), true) == s
  {
    NoughtDecodes(s);
    NulByte(Decode(s));
    EncodesBack(s, false);
  }
}
