/** The version grammar of libsemver, as the regular expressions of the source, and a
    deterministic recogniser that finds the capture groups. */
module Grammar {
  import opened Wrappers
  import opened Decimal
  import opened Dotted
  import opened Regex

  const DIGIT := Class([('0', '9')])
  const NUMBER := Alt(Literal('0'), Cat(Class([('1', '9')]), Star(DIGIT)))
  const VERSION := Cat(NUMBER, Plus(Dot(NUMBER)))
  const LEGAL := Class([('0', '9'), ('A', 'Z'), ('a', 'z'), ('-', '-')])
  const IDENTIFIER := Plus(LEGAL)
  const PRERELEASE := Cat(IDENTIFIER, Star(Dot(IDENTIFIER)))
  const METADATA := Cat(IDENTIFIER, Star(Dot(IDENTIFIER)))
  const PRERELEASE_PART := Optional(Cat(Literal('-'), PRERELEASE))
  const METADATA_PART := Optional(Cat(Literal('+'), METADATA))
  const GRAMMAR := Cat(Cat(VERSION, PRERELEASE_PART), METADATA_PART)

  predicate LegalChar(c: char) {
    '0' <= c <= '9' || 'A' <= c <= 'Z' || 'a' <= c <= 'z' || c == '-'
  }

  predicate Identifier(p: string) {
    p != "" && forall i :: 0 <= i < |p| ==> LegalChar(p[i])
  }

  /** A dotted list of non-empty identifiers. */
  predicate IdentifierList(s: string) {
    forall i :: 0 <= i < |Split(s)| ==> Identifier(Split(s)[i])
  }

  /** Two or more dot-joined numbers without leading zeros. */
  predicate ReleaseText(s: string) {
    |Split(s)| >= 2 && forall i :: 0 <= i < |Split(s)| ==> Canonical(Split(s)[i])
  }

  lemma InLegal(c: char)
    ensures InClass(LEGAL.ranges, c) <==> LegalChar(c)
  {
    var rs := LEGAL.ranges;
    assert rs[0] == ('0', '9') && rs[1] == ('A', 'Z') && rs[2] == ('a', 'z') && rs[3] == ('-', '-');
  }

  lemma InDigits(c: char, low: char)
    requires low == '0' || low == '1'
    ensures InClass([(low, '9')], c) <==> low <= c <= '9'
  {
    assert [(low, '9')][0] == (low, '9');
  }

  lemma IdentifierRegex(p: string)
    ensures Matches(IDENTIFIER, p) <==> Identifier(p)
  {
    var ranges := LEGAL.ranges;
    forall c ensures InClass(ranges, c) <==> LegalChar(c) { InLegal(c); }
    if Matches(IDENTIFIER, p) {
      var x, y := CatSplit(LEGAL, Star(LEGAL), p);
      StarClass(ranges, y);
    }
    if Identifier(p) {
      StarClass(ranges, p[1..]);
      CatIntro(LEGAL, Star(LEGAL), [p[0]], p[1..]);
      assert p == [p[0]] + p[1..];
    }
  }

  lemma StarDigits(y: string)
    ensures Matches(Star(DIGIT), y) <==> AllDigits(y)
  {
    forall c ensures InClass(DIGIT.ranges, c) <==> IsDigit(c) { InDigits(c, '0'); }
    StarClass(DIGIT.ranges, y);
  }

  lemma NumberRegex(p: string)
    ensures Matches(NUMBER, p) <==> Canonical(p)
  {
    var head := Class([('1', '9')]);
    LiteralMatches('0', p);
    if Matches(Cat(head, Star(DIGIT)), p) {
      var x, y := CatSplit(head, Star(DIGIT), p);
      InDigits(x[0], '1');
      StarDigits(y);
    }
    if Canonical(p) && p[0] != '0' {
      InDigits(p[0], '1');
      StarDigits(p[1..]);
      CatIntro(head, Star(DIGIT), [p[0]], p[1..]);
      assert p == [p[0]] + p[1..];
    }
  }

  /** What match_prerelease and match_metadata accept. */
  lemma IdentifierListRegex(s: string)
    ensures Matches(PRERELEASE, s) <==> IdentifierList(s)
    ensures Matches(METADATA, s) <==> IdentifierList(s)
  {
    forall p ensures Matches(IDENTIFIER, p) <==> Identifier(p) { IdentifierRegex(p); }
    DottedList(IDENTIFIER, s);
  }

  lemma ReleaseRegex(s: string)
    ensures Matches(VERSION, s) <==> ReleaseText(s)
  {
    forall p ensures Matches(NUMBER, p) <==> Canonical(p) { NumberRegex(p); }
    DottedListOfTwo(NUMBER, s);
  }

  /** The three capture groups; a group that took no part in the match is empty. */
  datatype Fragments = Fragments(release: string, prerelease: string, metadata: string)

  function Part(mark: char, text: string): string {
    if text == "" then "" else [mark] + text
  }

  function Assemble(f: Fragments): string {
    f.release + Part('-', f.prerelease) + Part('+', f.metadata)
  }

  /** s is read by the grammar with these capture groups. */
  ghost predicate Captures(s: string, f: Fragments) {
    && s == Assemble(f)
    && Matches(VERSION, f.release)
    && (f.prerelease != "" ==> Matches(PRERELEASE, f.prerelease))
    && (f.metadata != "" ==> Matches(METADATA, f.metadata))
  }

  predicate WellFormed(f: Fragments) {
    && ReleaseText(f.release)
    && (f.prerelease != "" ==> IdentifierList(f.prerelease))
    && (f.metadata != "" ==> IdentifierList(f.metadata))
  }

  /** The position of the first c, or the length of s. */
  function Find(s: string, c: char): (k: nat)
    ensures k <= |s| && (k < |s| ==> s[k] == c)
    ensures forall i :: 0 <= i < k ==> s[i] != c
  {
    if s == "" || s[0] == c then 0
    else
      var k := Find(s[1..], c);
      assert forall i :: 1 <= i < k + 1 ==> s[i] == s[1..][i - 1];
      1 + k
  }

  /** The text before the first c, and the text after it when there is one. */
  function Cut(s: string, c: char): (string, Option<string>) {
    var k := Find(s, c);
    if k == |s| then (s, None) else (s[..k], Some(s[k + 1..]))
  }

  lemma CutNowhere(x: string, c: char)
    requires c !in x
    ensures Cut(x, c) == (x, None)
  {
  }

  lemma CutAt(x: string, c: char, y: string)
    requires c !in x
    ensures Cut(x + [c] + y, c) == (x, Some(y))
  {
    var s := x + [c] + y;
    assert s[|x|] == c && forall i :: 0 <= i < |x| ==> s[i] == x[i];
    assert s[..|x|] == x && s[|x| + 1..] == y;
  }

  function GroupOf(o: Option<string>): string {
    if o.Some? then o.value else ""
  }

  /** regex_match of the source: metadata starts at the first plus sign, and the prerelease
      at the first hyphen before it. */
  function Recognise(s: string): Option<Fragments> {
    var (body, metadata) := Cut(s, '+');
    var (release, prerelease) := Cut(body, '-');
    var f := Fragments(release, GroupOf(prerelease), GroupOf(metadata));
    if WellFormed(f) && prerelease != Some("") && metadata != Some("") then Some(f) else None
  }

  /** Every character of s is a dot or comes from an element. */
  lemma {:induction false} CharOfSplit(s: string, c: char)
    requires c in s && c != '.'
    ensures exists i :: 0 <= i < |Split(s)| && c in Split(s)[i]
  {
    var rest := Split(s[1..]);
    if s[0] == c {
      assert c in Split(s)[0];
    } else {
      assert s == [s[0]] + s[1..];
      CharOfSplit(s[1..], c);
      var i :| 0 <= i < |rest| && c in rest[i];
      if s[0] == '.' {
        assert c in Split(s)[i + 1];
      } else {
        assert c in Split(s)[i];
      }
    }
  }

  lemma NoMarks(s: string)
    ensures ReleaseText(s) ==> '-' !in s && '+' !in s
    ensures IdentifierList(s) ==> '+' !in s
  {
    if '-' in s { CharOfSplit(s, '-'); }
    if '+' in s { CharOfSplit(s, '+'); }
  }

  /** Well-formed groups, assembled, are found again. */
  lemma RecogniseAssembled(f: Fragments)
    requires WellFormed(f)
    ensures Recognise(Assemble(f)) == Some(f)
  {
    NoMarks(f.release);
    NoMarks(f.prerelease);
    CutPart(f.release + Part('-', f.prerelease), '+', f.metadata);
    CutPart(f.release, '-', f.prerelease);
  }

  lemma CutPart(x: string, mark: char, text: string)
    requires mark !in x
    ensures Cut(x + Part(mark, text), mark) == (x, if text == "" then None else Some(text))
  {
    if text == "" {
      CutNowhere(x, mark);
      assert x + "" == x;
    } else {
      CutAt(x, mark, text);
      assert x + ([mark] + text) == x + [mark] + text;
    }
  }

  /** What a cut separates, put together again. */
  lemma CutJoins(s: string, c: char)
    requires Cut(s, c).1 != Some("")
    ensures s == Cut(s, c).0 + Part(c, GroupOf(Cut(s, c).1))
  {
    var k := Find(s, c);
    if k < |s| {
      assert s == s[..k] + ([s[k]] + s[k + 1..]);
    }
  }

  /** The recogniser finds exactly the groups the regular expression captures. */
  lemma RecogniseIsCapture(s: string, f: Fragments)
    ensures Recognise(s) == Some(f) <==> Captures(s, f)
  {
    ReleaseRegex(f.release);
    IdentifierListRegex(f.prerelease);
    IdentifierListRegex(f.metadata);
    if Recognise(s) == Some(f) {
      CutJoins(s, '+');
      CutJoins(Cut(s, '+').0, '-');
    }
    if WellFormed(f) && s == Assemble(f) {
      RecogniseAssembled(f);
    }
  }

  /** Capture groups are unambiguous. */
  lemma CapturesUnique(s: string, f: Fragments, g: Fragments)
    requires Captures(s, f) && Captures(s, g)
    ensures f == g
  {
    RecogniseIsCapture(s, f);
    RecogniseIsCapture(s, g);
  }

  lemma PartRegex(mark: char, list: Regex, g: string)
    requires !Matches(list, "")
    ensures Matches(Optional(Cat(Literal(mark), list)), g) <==>
            g == "" || (g[0] == mark && Matches(list, g[1..]))
  {
    if Matches(Cat(Literal(mark), list), g) {
      var m, x := CatSplit(Literal(mark), list, g);
      LiteralMatches(mark, m);
      assert g[1..] == x;
    }
    if g != "" && g[0] == mark && Matches(list, g[1..]) {
      LiteralMatches(mark, [mark]);
      CatIntro(Literal(mark), list, [mark], g[1..]);
      assert g == [mark] + g[1..];
    }
  }

  /** The recogniser accepts exactly the language of the regular expression. */
  lemma RecogniseIsGrammar(s: string)
    ensures Recognise(s).Some? <==> Matches(GRAMMAR, s)
  {
    assert !IdentifierList("") by { assert !Identifier(Split("")[0]); }
    IdentifierListRegex("");
    var body := Cat(VERSION, PRERELEASE_PART);
    if Matches(GRAMMAR, s) {
      var x, m := CatSplit(body, METADATA_PART, s);
      var v, p := CatSplit(VERSION, PRERELEASE_PART, x);
      PartRegex('-', PRERELEASE, p);
      PartRegex('+', METADATA, m);
      var f := Fragments(v, if p == "" then "" else p[1..], if m == "" then "" else m[1..]);
      assert p == Part('-', f.prerelease) && m == Part('+', f.metadata);
      RecogniseIsCapture(s, f);
    }
    if Recognise(s).Some? {
      var f := Recognise(s).value;
      RecogniseIsCapture(s, f);
      var p, m := Part('-', f.prerelease), Part('+', f.metadata);
      PartRegex('-', PRERELEASE, p);
      PartRegex('+', METADATA, m);
      CatIntro(VERSION, PRERELEASE_PART, f.release, p);
      CatIntro(body, METADATA_PART, f.release + p, m);
    }
  }
}
