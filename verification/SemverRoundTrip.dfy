/** Which texts parse, what they parse to, and how parsing and printing undo each other. */
module SemverRoundTrip {
  import opened Wrappers
  import opened Decimal
  import opened Dotted
  import opened Regex
  import opened Grammar
  import opened Semver

  // -------------------------------------------------------- closed forms

  /** A legal identifier the constructor accepts. */
  predicate GoodIdentifier(p: string) {
    && Identifier(p)
    && !(p[0] == '0' && AllDigits(p))
    && (AllDigits(p) ==> OfDecimal(p) < 18446744073709551616)
  }

  function ComponentOf(p: string): Component {
    Component(p, AllDigits(p), if AllDigits(p) then OfDecimal(p) else 0)
  }

  predicate AllGood(tokens: seq<string>) {
    forall i :: 0 <= i < |tokens| ==> GoodIdentifier(tokens[i])
  }

  function ComponentsOf(tokens: seq<string>): (cs: seq<Component>)
    ensures |cs| == |tokens|
  {
    seq(|tokens|, i requires 0 <= i < |tokens| => ComponentOf(tokens[i]))
  }

  lemma {:induction false} ComponentsExact(tokens: seq<string>)
    requires forall i :: 0 <= i < |tokens| ==> Identifier(tokens[i])
    ensures Components(tokens).Ok? <==> AllGood(tokens)
    ensures AllGood(tokens) ==> Components(tokens) == Ok(ComponentsOf(tokens))
  {
    if tokens == [] {
    } else {
      ComponentsExact(tokens[1..]);
      assert tokens == [tokens[0]] + tokens[1..];
      if AllGood(tokens) {
        assert ComponentsOf(tokens) == [ComponentOf(tokens[0])] + ComponentsOf(tokens[1..]);
      }
    }
  }

  lemma TokensAreElements(s: string)
    requires IdentifierList(s)
    ensures Tokens(s) == Split(s)
  {
    assert Identifier(Split(s)[|Split(s)| - 1]);
  }

  function ComponentsOfText(prerelease: string): seq<Component> {
    if prerelease == "" then [] else ComponentsOf(Split(prerelease))
  }

  /** The constructor accepts exactly these arguments, and this is what it builds. */
  lemma ConstructedExact(versions: seq<U32>, prerelease: string, metadata: string)
    ensures Constructed(versions, prerelease, metadata).Ok? <==>
            && |versions| >= 2
            && (prerelease != "" ==> AllGood(Split(prerelease)))
            && (metadata != "" ==> IdentifierList(metadata))
    ensures Constructed(versions, prerelease, metadata).Ok? ==>
              Constructed(versions, prerelease, metadata).value ==
              Version(versions, prerelease, ComponentsOfText(prerelease), metadata)
  {
    if prerelease != "" && IdentifierList(prerelease) {
      TokensAreElements(prerelease);
      ComponentsExact(Split(prerelease));
    }
    if AllGood(Split(prerelease)) {
      assert IdentifierList(prerelease);
    }
  }

  lemma {:induction false} RunOfDigits(x: string, y: string)
    requires AllDigits(x) && (y == "" || !IsDigit(y[0]))
    ensures RunLength(x + y) == |x|
  {
    if x == "" {
      assert x + y == y;
    } else {
      RunOfDigits(x[1..], y);
      assert (x + y)[1..] == x[1..] + y;
    }
  }

  lemma RunsOfElement(x: string, t: string)
    requires x != "" && AllDigits(x) && (t == "" || !IsDigit(t[0]))
    ensures DigitRuns(x + t) == [x] + DigitRuns(t)
  {
    RunOfDigits(x, t);
    assert (x + t)[..|x|] == x && (x + t)[|x|..] == t;
  }

  /** Taking the digit runs of a release is splitting it at its dots. */
  lemma {:induction false} DigitRunsAreElements(s: string)
    requires forall i :: 0 <= i < |Split(s)| ==> Split(s)[i] != "" && AllDigits(Split(s)[i])
    ensures DigitRuns(s) == Split(s)
    decreases |s|
  {
    var parts := Split(s);
    var x, t := SplitFirst(s);
    RunsOfElement(x, t);
    if t == "" {
    } else {
      assert Split(t[1..]) == parts[1..];
      DigitRunsAreElements(t[1..]);
      assert RunLength(t) == 0;
    }
  }

  function NarrowAll(runs: seq<string>): (ns: seq<U32>)
    requires forall r :: r in runs ==> AllDigits(r)
    ensures |ns| == |runs|
  {
    seq(|runs|, i requires 0 <= i < |runs| => Narrow(OfDecimal(runs[i])))
  }

  predicate AllFit(runs: seq<string>, bound: nat)
    requires forall r :: r in runs ==> AllDigits(r)
  {
    forall i :: 0 <= i < |runs| ==> OfDecimal(runs[i]) <= bound
  }

  lemma {:induction false} NumbersExact(runs: seq<string>)
    requires forall r :: r in runs ==> AllDigits(r)
    ensures Numbers(runs).Ok? <==> AllFit(runs, ULONG_MAX)
    ensures AllFit(runs, ULONG_MAX) ==> Numbers(runs) == Ok(NarrowAll(runs))
  {
    if runs == [] {
    } else {
      NumbersExact(runs[1..]);
      assert runs == [runs[0]] + runs[1..];
      if AllFit(runs, ULONG_MAX) {
        assert NarrowAll(runs) == [Narrow(OfDecimal(runs[0]))] + NarrowAll(runs[1..]);
      }
    }
  }

  lemma ReleaseNumbers(release: string)
    requires ReleaseText(release)
    ensures forall r :: r in Split(release) ==> AllDigits(r)
    ensures DigitRuns(release) == Split(release)
    ensures Numbers(DigitRuns(release)).Ok? <==> AllFit(Split(release), ULONG_MAX)
    ensures AllFit(Split(release), ULONG_MAX) ==> Numbers(DigitRuns(release)) == Ok(NarrowAll(Split(release)))
  {
    DigitRunsAreElements(release);
    NumbersExact(Split(release));
  }

  /** What the groups of a recognised text are parsed to, and when. */
  lemma ParsedForm(s: string, f: Fragments)
    requires Recognise(s) == Some(f)
    ensures WellFormed(f) && s == Assemble(f)
    ensures forall r :: r in Split(f.release) ==> AllDigits(r)
    ensures Parsed(s).Ok? <==>
            && AllFit(Split(f.release), ULONG_MAX)
            && (f.prerelease != "" ==> AllGood(Split(f.prerelease)))
    ensures Parsed(s).Ok? ==>
              Parsed(s).value ==
              Version(NarrowAll(Split(f.release)), f.prerelease, ComponentsOfText(f.prerelease), f.metadata)
  {
    RecogniseIsCapture(s, f);
    ReleaseNumbers(f.release);
    if AllFit(Split(f.release), ULONG_MAX) {
      ConstructedExact(NarrowAll(Split(f.release)), f.prerelease, f.metadata);
    }
  }

  // -------------------------------------------------- acceptance is exact

  function ListText(mark: char, parts: seq<string>): string {
    if parts == [] then "" else [mark] + Join(parts)
  }

  /** s is spelled out by these lists of numbers, prerelease and metadata identifiers. */
  predicate Spells(s: string, numbers: seq<string>, prerelease: seq<string>, metadata: seq<string>) {
    && |numbers| >= 2
    && (forall i :: 0 <= i < |numbers| ==> Canonical(numbers[i]) && OfDecimal(numbers[i]) < 18446744073709551616)
    && AllGood(prerelease)
    && (forall i :: 0 <= i < |metadata| ==> Identifier(metadata[i]))
    && s == Join(numbers) + ListText('-', prerelease) + ListText('+', metadata)
  }

  /** A spelled text parses, to the version its lists say. */
  lemma SpelledParses(s: string, numbers: seq<string>, prerelease: seq<string>, metadata: seq<string>)
    requires Spells(s, numbers, prerelease, metadata)
    ensures Parsed(s) == Ok(Version(
                              NarrowAll(numbers),
                              if prerelease == [] then "" else Join(prerelease),
                              ComponentsOf(prerelease),
                              if metadata == [] then "" else Join(metadata)))
  {
    var f := Fragments(Join(numbers),
                       if prerelease == [] then "" else Join(prerelease),
                       if metadata == [] then "" else Join(metadata));
    SplitJoin(numbers);
    SplitList('-', prerelease);
    SplitList('+', metadata);
    assert s == Assemble(f);
    RecogniseAssembled(f);
    ParsedForm(s, f);
    if prerelease == [] {
      assert ComponentsOf(prerelease) == [];
    }
  }

  lemma SplitList(mark: char, parts: seq<string>)
    requires forall i :: 0 <= i < |parts| ==> Identifier(parts[i])
    ensures parts != [] ==> Split(Join(parts)) == parts && Join(parts) != ""
    ensures ListText(mark, parts) == Part(mark, if parts == [] then "" else Join(parts))
  {
    if parts != [] {
      forall p | p in parts ensures NoDot(p) { }
      SplitJoin(parts);
      JoinNotEmpty(parts);
    }
  }

  lemma JoinNotEmpty(parts: seq<string>)
    requires |parts| >= 1 && parts[0] != ""
    ensures Join(parts) != ""
  {
  }

  lemma ParsedIsSpelled(s: string) returns (numbers: seq<string>, prerelease: seq<string>, metadata: seq<string>)
    requires Parsed(s).Ok?
    ensures Spells(s, numbers, prerelease, metadata)
  {
    var f := Recognise(s).value;
    ParsedForm(s, f);
    JoinSplit(f.release);
    JoinSplit(f.prerelease);
    JoinSplit(f.metadata);
    numbers := Split(f.release);
    prerelease := if f.prerelease == "" then [] else Split(f.prerelease);
    metadata := if f.metadata == "" then [] else Split(f.metadata);
  }

  /** Exactly the spelled texts are accepted. */
  lemma AcceptanceIsExact(s: string)
    ensures Parsed(s).Ok? <==>
            exists numbers, prerelease, metadata :: Spells(s, numbers, prerelease, metadata)
  {
    if Parsed(s).Ok? {
      var numbers, prerelease, metadata := ParsedIsSpelled(s);
    }
    if exists numbers, prerelease, metadata :: Spells(s, numbers, prerelease, metadata) {
      var numbers, prerelease, metadata :| Spells(s, numbers, prerelease, metadata);
      SpelledParses(s, numbers, prerelease, metadata);
    }
  }

  /** Section 9 of Semantic Versioning 2.0.0: a numeric identifier has no leading zero. */
  predicate SectionNine(p: string) {
    Identifier(p) && (AllDigits(p) ==> Canonical(p))
  }

  predicate UnlessLoneZero(p: string) {
    p != "0" && (AllDigits(p) ==> OfDecimal(p) < 18446744073709551616)
  }

  /** Where the source and section 9 part: a text of the standard's form, extended to two or
      more numbers, is refused exactly when a number is too large for unsigned long or an
      identifier is the lone "0". */
  lemma GapToStandard(s: string, f: Fragments)
    requires WellFormed(f) && s == Assemble(f)
    requires forall i :: f.prerelease != "" && 0 <= i < |Split(f.prerelease)| ==> SectionNine(Split(f.prerelease)[i])
    ensures Parsed(s).Ok? <==>
            && (forall i :: 0 <= i < |Split(f.release)| ==> OfDecimal(Split(f.release)[i]) < 18446744073709551616)
            && (forall i :: f.prerelease != "" && 0 <= i < |Split(f.prerelease)| ==>
                              UnlessLoneZero(Split(f.prerelease)[i]))
  {
    RecogniseAssembled(f);
    ParsedForm(s, f);
    var parts := Split(f.prerelease);
    forall i | f.prerelease != "" && 0 <= i < |parts|
      ensures GoodIdentifier(parts[i]) <==> UnlessLoneZero(parts[i])
    {
      GoodUnlessLoneZero(parts[i]);
    }
  }

  lemma GoodUnlessLoneZero(p: string)
    requires SectionNine(p)
    ensures GoodIdentifier(p) <==> UnlessLoneZero(p)
  {
    assert AllDigits("0");
  }

  const LONE_ZERO := Fragments("1.0", "0", "")

  lemma LoneZeroIsWellFormed()
    ensures Split("1.0") == ["1", "0"] && Split("0") == ["0"]
    ensures WellFormed(LONE_ZERO) && SectionNine("0")
  {
    SplitNoDot("0");
    SplitAtDot("1", "0");
    assert "1" + "." + "0" == "1.0";
  }

  /** The refusal of the lone "0" on a text the standard allows. */
  lemma LoneZeroIsRefused()
    ensures Matches(GRAMMAR, Assemble(LONE_ZERO)) && SectionNine("0") && Assemble(LONE_ZERO) == "1.0-0"
    ensures Parsed(Assemble(LONE_ZERO)).Err?
  {
    LoneZeroIsWellFormed();
    RecogniseAssembled(LONE_ZERO);
    RecogniseIsGrammar(Assemble(LONE_ZERO));
    assert !UnlessLoneZero(Split(LONE_ZERO.prerelease)[0]);
    GapToStandard(Assemble(LONE_ZERO), LONE_ZERO);
  }

  // ------------------------------------------------------- errors are exact

  /** What the constructor throws for this identifier, if anything. */
  function FaultOf(p: string): Option<Error> {
    if p == "" then Some(EmptyIdentifier)
    else if p[0] == '0' && AllDigits(p) then Some(LeadingZeroes)
    else if AllDigits(p) && OfDecimal(p) >= 18446744073709551616 then Some(OutOfRange)
    else None
  }

  /** Identifier k is the first faulty one, and e is its fault. */
  predicate FirstFault(tokens: seq<string>, k: nat, e: Error) {
    && k < |tokens| && FaultOf(tokens[k]) == Some(e)
    && forall i :: 0 <= i < k ==> FaultOf(tokens[i]) == None
  }

  /** The first faulty identifier decides which exception is thrown. */
  lemma {:induction false} ComponentsFault(tokens: seq<string>, e: Error)
    ensures Components(tokens) == Err(e) <==> exists k: nat :: FirstFault(tokens, k, e)
  {
    if tokens == [] {
    } else {
      var rest := tokens[1..];
      ComponentsFault(rest, e);
      if FaultOf(tokens[0]).Some? {
        assert FaultOf(tokens[0]) == Some(e) ==> FirstFault(tokens, 0, e);
      } else {
        if exists k: nat :: FirstFault(rest, k, e) {
          var k: nat :| FirstFault(rest, k, e);
          assert FirstFault(tokens, k + 1, e);
        }
        if exists k: nat :: FirstFault(tokens, k, e) {
          var k: nat :| FirstFault(tokens, k, e);
          assert FirstFault(rest, k - 1, e);
        }
      }
    }
  }

  lemma {:induction false} NumbersFault(runs: seq<string>)
    requires forall r :: r in runs ==> AllDigits(r)
    ensures Numbers(runs) == if AllFit(runs, ULONG_MAX) then Ok(NarrowAll(runs)) else Err(OutOfRange)
  {
    NumbersExact(runs);
    if runs == [] {
    } else {
      NumbersFault(runs[1..]);
      assert runs == [runs[0]] + runs[1..];
    }
  }

  /** Every exception of from_string: the grammar's outside the regular expression, out_of_range
      for a release number beyond unsigned long, and else that of the first faulty identifier. */
  lemma ErrorsAreExact(s: string, e: Error)
    ensures Recognise(s).Some? <==> Matches(GRAMMAR, s)
    ensures Parsed(s) == Err(e) <==>
            if Recognise(s).None? then e == InvalidVersion
            else
              var f := Recognise(s).value;
              var parts := Split(f.release);
              if exists i :: 0 <= i < |parts| && !FitsUnsignedLong(parts[i]) then e == OutOfRange
              else f.prerelease != "" && exists k: nat :: FirstFault(Split(f.prerelease), k, e)
  {
    RecogniseIsGrammar(s);
    if Recognise(s).Some? {
      var f := Recognise(s).value;
      ParsedForm(s, f);
      ReleaseNumbers(f.release);
      NumbersFault(Split(f.release));
      if f.prerelease != "" {
        TokensAreElements(f.prerelease);
        ComponentsFault(Split(f.prerelease), e);
      }
    }
  }

  predicate FitsUnsignedLong(p: string) {
    AllDigits(p) && OfDecimal(p) < 18446744073709551616
  }

  // ------------------------------------------------------------ round trips

  lemma NumeralsSplit(versions: seq<U32>)
    requires |versions| >= 1
    ensures forall i :: 0 <= i < |versions| ==> Canonical(ToDecimal(versions[i]))
    ensures Split(Join(Numerals(versions))) == Numerals(versions)
  {
    forall i | 0 <= i < |versions| ensures Canonical(ToDecimal(versions[i])) {
      ToDecimalIsCanonical(versions[i]);
    }
    SplitJoin(Numerals(versions));
  }

  lemma NarrowNumerals(versions: seq<U32>)
    ensures forall r :: r in Numerals(versions) ==> AllDigits(r)
    ensures NarrowAll(Numerals(versions)) == versions && AllFit(Numerals(versions), ULONG_MAX)
  {
    forall i | 0 <= i < |versions|
      ensures AllDigits(ToDecimal(versions[i])) && OfDecimal(ToDecimal(versions[i])) == versions[i]
    {
      OfToDecimal(versions[i]);
    }
  }

  /** Printing then parsing is the identity on every version the constructor accepts. */
  lemma PrintThenParse(v: Version)
    requires Valid(v)
    ensures Parsed(Printed(v)) == Ok(v)
  {
    ConstructedExact(v.versions, v.prerelease, v.metadata);
    NumeralsSplit(v.versions);
    var f := FragmentsOf(v);
    RecogniseAssembled(f);
    ParsedForm(Printed(v), f);
    NarrowNumerals(v.versions);
  }

  /** Whatever parses is a version the constructor accepts. */
  lemma ParsedIsValid(s: string)
    requires Parsed(s).Ok?
    ensures Valid(Parsed(s).value)
  {
  }

  /** Parsing then printing is the identity exactly on the texts whose numbers fit 32 bits. */
  lemma ParseThenPrint(s: string)
    requires Parsed(s).Ok?
    ensures Printed(Parsed(s).value) == s <==>
            forall p :: p in Split(Recognise(s).value.release) ==> AllDigits(p) && OfDecimal(p) < 4294967296
  {
    var f := Recognise(s).value;
    ParsedForm(s, f);
    var v := Parsed(s).value;
    var parts := Split(f.release);
    SameSuffix(Join(Numerals(v.versions)), f.release, Part('-', f.prerelease), Part('+', f.metadata));
    NumeralsSplit(v.versions);
    JoinSplit(f.release);
    NarrowIsLossless(parts);
  }

  /** Narrowing then printing gives the numerals back exactly when they fit 32 bits. */
  lemma NarrowIsLossless(parts: seq<string>)
    requires forall p :: p in parts ==> AllDigits(p)
    requires forall p :: p in parts ==> Canonical(p)
    ensures Numerals(NarrowAll(parts)) == parts <==> forall p :: p in parts ==> OfDecimal(p) < UINT_RANGE
  {
    var ns := Numerals(NarrowAll(parts));
    if ns == parts {
      forall p | p in parts ensures OfDecimal(p) < UINT_RANGE {
        var i :| 0 <= i < |parts| && parts[i] == p;
        assert ns[i] == p;
        NumeralIsLossless(p);
      }
    }
    if forall p :: p in parts ==> OfDecimal(p) < UINT_RANGE {
      forall i | 0 <= i < |parts| ensures ns[i] == parts[i] {
        assert parts[i] in parts;
        NumeralIsLossless(parts[i]);
      }
    }
  }

  lemma NumeralIsLossless(p: string)
    requires Canonical(p)
    ensures ToDecimal(Narrow(OfDecimal(p))) == p <==> OfDecimal(p) < UINT_RANGE
  {
    var n := OfDecimal(p);
    ToOfDecimal(p);
    if ToDecimal(Narrow(n)) == ToDecimal(n) {
      ToDecimalInjective(Narrow(n), n);
    }
  }

  lemma SameSuffix(a: string, b: string, x: string, y: string)
    ensures a + x + y == b + x + y <==> a == b
  {
    if a + x + y == b + x + y {
      assert a == (a + x + y)[..|a|] && b == (b + x + y)[..|b|];
    }
  }

  lemma TwoNumbers(n: nat)
    ensures ReleaseText(ToDecimal(n) + ".0") && Split(ToDecimal(n) + ".0") == [ToDecimal(n), "0"]
    ensures AllDigits(ToDecimal(n)) && OfDecimal(ToDecimal(n)) == n
    ensures AllDigits("0") && OfDecimal("0") == 0
    ensures Recognise(ToDecimal(n) + ".0") == Some(Fragments(ToDecimal(n) + ".0", "", ""))
  {
    var text := ToDecimal(n) + ".0";
    ToDecimalIsCanonical(n);
    OfToDecimal(n);
    assert "0"[..0] == "" && Canonical("0");
    SplitNoDot("0");
    SplitAtDot(ToDecimal(n), "0");
    assert ToDecimal(n) + "." + "0" == text;
    RecogniseAssembled(Fragments(text, "", ""));
    assert Assemble(Fragments(text, "", "")) == text;
  }

  lemma PrintedTwo(v: Version)
    requires |v.versions| == 2 && v.versions[1] == 0 && v.prerelease == "" && v.metadata == ""
    ensures Printed(v) == ToDecimal(v.versions[0]) + ".0"
  {
    var ns := Numerals(v.versions);
    assert ns == [ToDecimal(v.versions[0]), "0"] && Join(ns[1..]) == "0";
    assert Join(ns) == ToDecimal(v.versions[0]) + "." + "0";
    assert Printed(v) == Join(ns) + "" + "";
  }

  /** A first number beyond unsigned int but not beyond unsigned long is accepted and printed as
      another one. */
  lemma WideNumberIsNarrowed(n: nat)
    requires 4294967296 <= n < 18446744073709551616
    ensures var text := ToDecimal(n) + ".0";
            Parsed(text).Ok? && Printed(Parsed(text).value) == ToDecimal(n % 4294967296) + ".0" != text
  {
    var text := ToDecimal(n) + ".0";
    TwoNumbers(n);
    ParsedForm(text, Fragments(text, "", ""));
    PrintedTwo(Parsed(text).value);
    assert ToDecimal(n) in Split(text);
    ParseThenPrint(text);
  }

  lemma TwoToThe32()
    ensures ToDecimal(4294967296) == "4294967296"
  {
    assert ToDecimal(42949) == "42949";
  }

  lemma NarrowedToZero(text: string)
    requires text == "4294967296.0"
    ensures Parsed(text).Ok? && Printed(Parsed(text).value) == "0.0"
  {
    TwoToThe32();
    assert text == ToDecimal(UINT_RANGE) + ".0";
    WideNumberIsNarrowed(UINT_RANGE);
    assert ToDecimal(0) == "0";
  }

  /** A release number beyond unsigned long is grammatical, and throws out_of_range. */
  lemma HugeNumberIsOutOfRange(n: nat)
    requires n >= 18446744073709551616
    ensures var text := ToDecimal(n) + ".0"; Matches(GRAMMAR, text) && Parsed(text) == Err(OutOfRange)
  {
    var text := ToDecimal(n) + ".0";
    TwoNumbers(n);
    assert !FitsUnsignedLong(Split(text)[0]);
    ErrorsAreExact(text, OutOfRange);
  }

  /** Release numbers of 64 bits are read, and 32 bits of them kept. */
  lemma ReleaseNumberRange(n: nat)
    ensures var text := ToDecimal(n) + ".0";
            && (Parsed(text).Ok? <==> n < 18446744073709551616)
            && (Parsed(text).Ok? ==> Parsed(text) == Ok(Version([n % 4294967296, 0], "", [], "")))
  {
    var text := ToDecimal(n) + ".0";
    TwoNumbers(n);
    ParsedForm(text, Fragments(text, "", ""));
    assert Split(text)[0] == ToDecimal(n) && Split(text)[1] == "0";
    assert NarrowAll(Split(text)) == [Narrow(n), Narrow(0)];
  }

  lemma OnePointZero(release: string)
    requires release == "1.0"
    ensures ReleaseText(release) && Split(release) == ["1", "0"] && AllFit(Split(release), ULONG_MAX)
  {
    LoneZeroIsWellFormed();
    forall r | r in Split(release) ensures OfDecimal(r) <= 9 {
      OfDecimalBound(r);
      assert Pow10(1) == 10 * Pow10(0);
    }
  }

  lemma NumberIsIdentifier(n: nat)
    requires n > 0
    ensures var text := ToDecimal(n);
            && IdentifierList(text) && Split(text) == [text]
            && AllDigits(text) && text[0] != '0' && OfDecimal(text) == n
  {
    ToDecimalIsCanonical(n);
    OfToDecimal(n);
    SplitNoDot(ToDecimal(n));
  }

  lemma OneIdentifier(p: string)
    requires Split(p) == [p] && p != ""
    ensures AllGood(Split(p)) <==> GoodIdentifier(p)
    ensures ComponentsOfText(p) == [ComponentOf(p)]
  {
    assert Split(p)[0] == p;
  }

  lemma PrereleaseNumberForm(release: string, n: nat)
    requires release == "1.0" && n > 0
    ensures var f := Fragments(release, ToDecimal(n), "");
            && Assemble(f) == release + "-" + ToDecimal(n) && Recognise(Assemble(f)) == Some(f)
  {
    OnePointZero(release);
    NumberIsIdentifier(n);
    RecogniseAssembled(Fragments(release, ToDecimal(n), ""));
  }

  /** Numeric identifiers of 64 bits are read, and kept whole. */
  lemma PrereleaseNumberRange(release: string, n: nat)
    requires release == "1.0" && n > 0
    ensures var text := release + "-" + ToDecimal(n);
            && (Parsed(text).Ok? <==> n < 18446744073709551616)
            && (Parsed(text).Ok? ==> Parsed(text).value.components == [Component(ToDecimal(n), true, n)])
  {
    var f := Fragments(release, ToDecimal(n), "");
    OnePointZero(release);
    PrereleaseNumberForm(release, n);
    NumberIsIdentifier(n);
    OneIdentifier(ToDecimal(n));
    ParsedForm(Assemble(f), f);
  }

  /** Which exception the constructor throws: the checks in their order. */
  lemma ConstructorErrors(versions: seq<U32>, prerelease: string, metadata: string, e: Error)
    ensures Constructed(versions, prerelease, metadata) == Err(e) <==>
            if |versions| < 2 then e == TooFewNumbers
            else if prerelease != "" && !IdentifierList(prerelease) then e == InvalidPrerelease
            else if prerelease != "" && exists k: nat :: k < |Split(prerelease)| && FaultOf(Split(prerelease)[k]).Some?
            then exists k: nat :: FirstFault(Split(prerelease), k, e)
            else e == InvalidMetadata && metadata != "" && !IdentifierList(metadata)
  {
    if |versions| >= 2 && prerelease != "" && IdentifierList(prerelease) {
      var tokens := Split(prerelease);
      TokensAreElements(prerelease);
      ComponentsFault(tokens, e);
      ComponentsExact(tokens);
      forall k | 0 <= k < |tokens| ensures GoodIdentifier(tokens[k]) <==> FaultOf(tokens[k]).None? {
        assert Identifier(tokens[k]);
      }
    }
  }

  /** Printing reaches a normal form: parsing the print of an accepted text changes nothing. */
  lemma PrintIsNormalForm(s: string)
    requires Parsed(s).Ok?
    ensures Parsed(Printed(Parsed(s).value)) == Parsed(s)
  {
    ParsedIsValid(s);
    PrintThenParse(Parsed(s).value);
  }
}
