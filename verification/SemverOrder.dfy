/** libsemver's comparison, its laws, and section 11 of Semantic Versioning 2.0.0. */
module SemverOrder {
  import opened Decimal
  import opened Dotted
  import opened Grammar
  import opened Lexicographic
  import opened Semver
  import opened SemverRoundTrip

  predicate NumberLess(x: U32, y: U32) {
    x < y
  }

  predicate CharLess(x: char, y: char) {
    x < y
  }

  predicate ComponentLess(x: Component, y: Component) {
    if x.isNumber && y.isNumber then x.value < y.value
    else if !x.isNumber && !y.isNumber then LexLess(CharLess, x.identifier, y.identifier)
    else x.isNumber
  }

  predicate IsRelease(v: Version) {
    v.prerelease == ""
  }

  predicate Less(a: Version, b: Version) {
    if LexLess(NumberLess, a.versions, b.versions) then true
    else if LexLess(NumberLess, b.versions, a.versions) then false
    else if a.prerelease == b.prerelease then false
    else if IsRelease(a) != IsRelease(b) then !IsRelease(a)
    else LexLess(ComponentLess, a.components, b.components)
  }

  predicate Equal(a: Version, b: Version) {
    a.versions == b.versions && a.prerelease == b.prerelease
  }

  // ---------------------------------------------------------- element orders

  predicate AnyNumber(x: U32) {
    true
  }

  predicate AnyChar(c: char) {
    true
  }

  predicate GoodComponent(c: Component) {
    GoodIdentifier(c.identifier) && c == ComponentOf(c.identifier)
  }

  /** Any two texts compare, one way or are the same. */
  lemma TextOrder(x: string, y: string)
    ensures StrictTotal(CharLess, AnyChar)
    ensures !LexLess(CharLess, x, x)
    ensures LexLess(CharLess, x, y) || LexLess(CharLess, y, x) || x == y
    ensures !(LexLess(CharLess, x, y) && LexLess(CharLess, y, x))
  {
    LexIrreflexive(CharLess, AnyChar, x);
    LexTrichotomy(CharLess, AnyChar, x, y);
  }

  /** Equal numbers have equal texts: this is what the ban on leading zeros is for. */
  lemma GoodNumeral(x: string, y: string)
    requires GoodIdentifier(x) && GoodIdentifier(y) && AllDigits(x) && AllDigits(y)
    ensures Canonical(x) && Canonical(y)
    ensures OfDecimal(x) == OfDecimal(y) <==> x == y
  {
    ToOfDecimal(x);
    ToOfDecimal(y);
  }

  /** Two components tie exactly when they are the same text or numbers of the same value. */
  lemma ComponentTies(x: string, y: string)
    ensures var a, b := ComponentOf(x), ComponentOf(y);
            !ComponentLess(a, b) && !ComponentLess(b, a) <==>
            x == y || (AllDigits(x) && AllDigits(y) && OfDecimal(x) == OfDecimal(y))
  {
    TextOrder(x, y);
  }

  /** Without the ban the order would not be total: these differ, and neither is less. */
  lemma LeadingZeroWouldTie()
    ensures ComponentOf("01") != ComponentOf("1")
    ensures !ComponentLess(ComponentOf("01"), ComponentOf("1")) && !ComponentLess(ComponentOf("1"), ComponentOf("01"))
    ensures !GoodIdentifier("01")
  {
    assert "01"[..1] == "0" && "0"[..0] == "" && "1"[..0] == "";
    ComponentTies("01", "1");
  }

  lemma ComponentOrder()
    ensures StrictTotal(ComponentLess, GoodComponent)
  {
    forall x, y | GoodComponent(x) && GoodComponent(y)
      ensures !ComponentLess(x, x)
      ensures ComponentLess(x, y) || ComponentLess(y, x) || x == y
    {
      TextOrder(x.identifier, y.identifier);
      if x.isNumber && y.isNumber {
        GoodNumeral(x.identifier, y.identifier);
      }
    }
    forall x, y, z | ComponentLess(x, y) && ComponentLess(y, z)
      ensures ComponentLess(x, z)
    {
      if !x.isNumber && !y.isNumber && !z.isNumber {
        LexTransitive(CharLess, AnyChar, x.identifier, y.identifier, z.identifier);
      }
    }
  }

  lemma ValidComponents(v: Version)
    requires Valid(v)
    ensures v.components == ComponentsOfText(v.prerelease)
    ensures v.prerelease != "" ==> AllGood(Split(v.prerelease))
    ensures Within(GoodComponent, v.components)
  {
    ConstructedExact(v.versions, v.prerelease, v.metadata);
  }

  /** The component list determines the prerelease text, because dot-splitting is injective. */
  lemma ComponentsDetermineText(p: string, q: string)
    requires p != "" && q != "" && ComponentsOfText(p) == ComponentsOfText(q)
    ensures p == q
  {
    var ps, qs := Split(p), Split(q);
    assert |ps| == |ComponentsOf(ps)| && |qs| == |ComponentsOf(qs)|;
    forall i | 0 <= i < |ps| ensures ps[i] == qs[i] {
      assert ComponentsOf(ps)[i].identifier == ps[i] && ComponentsOf(qs)[i].identifier == qs[i];
    }
    SplitInjective(p, q);
  }

  // --------------------------------------------------------- the order's laws

  lemma LessIrreflexive(a: Version)
    ensures !Less(a, a)
  {
    LexIrreflexive(NumberLess, AnyNumber, a.versions);
  }

  /** Exactly one of a < b, a == b and b < a. */
  lemma LessTrichotomy(a: Version, b: Version)
    requires Valid(a) && Valid(b)
    ensures Less(a, b) || Equal(a, b) || Less(b, a)
    ensures !(Less(a, b) && Less(b, a)) && !(Less(a, b) && Equal(a, b)) && !(Less(b, a) && Equal(a, b))
  {
    LexTrichotomy(NumberLess, AnyNumber, a.versions, b.versions);
    LexIrreflexive(NumberLess, AnyNumber, a.versions);
    ValidComponents(a);
    ValidComponents(b);
    ComponentOrder();
    LexTrichotomy(ComponentLess, GoodComponent, a.components, b.components);
    if a.components == b.components && !IsRelease(a) && !IsRelease(b) {
      ComponentsDetermineText(a.prerelease, b.prerelease);
    }
  }

  /** Among versions with the same numbers, the order of the prereleases is transitive. */
  lemma PrereleaseTransitive(a: Version, b: Version, c: Version)
    requires Valid(a) && Valid(b) && Valid(c)
    requires a.versions == b.versions == c.versions
    requires Less(a, b) && Less(b, c)
    ensures Less(a, c)
  {
    LexIrreflexive(NumberLess, AnyNumber, a.versions);
    if !IsRelease(b) && !IsRelease(c) {
      ValidComponents(a);
      ValidComponents(b);
      ValidComponents(c);
      ComponentOrder();
      LexTransitive(ComponentLess, GoodComponent, a.components, b.components, c.components);
      LexIrreflexive(ComponentLess, GoodComponent, a.components);
    }
  }

  lemma LessTransitive(a: Version, b: Version, c: Version)
    requires Valid(a) && Valid(b) && Valid(c)
    requires Less(a, b) && Less(b, c)
    ensures Less(a, c)
  {
    LexTrichotomy(NumberLess, AnyNumber, a.versions, b.versions);
    LexTrichotomy(NumberLess, AnyNumber, b.versions, c.versions);
    if a.versions == b.versions == c.versions {
      PrereleaseTransitive(a, b, c);
    } else if a.versions != b.versions && b.versions != c.versions {
      LexTransitive(NumberLess, AnyNumber, a.versions, b.versions, c.versions);
    }
  }

  /** The documentation says equal means equal in every part; equality ignores the metadata,
      so it means that exactly when the metadata agree. */
  lemma EqualUpToMetadata(a: Version, b: Version)
    requires Valid(a) && Valid(b)
    ensures Equal(a, b) <==> a.(metadata := b.metadata) == b
    ensures Equal(a, b) ==> (a == b <==> a.metadata == b.metadata)
  {
    ValidComponents(a);
    ValidComponents(b);
  }

  lemma EqualVersionsThatDiffer()
    ensures var a, b := Version([1, 0], "", [], "x"), Version([1, 0], "", [], "y");
            Valid(a) && Valid(b) && Equal(a, b) && a != b
  {
    assert IdentifierList("x") by { SplitNoDot("x"); }
    assert IdentifierList("y") by { SplitNoDot("y"); }
  }

  // ------------------------------------- section 11 of Semantic Versioning 2.0.0

  /** By the codes of the characters: up to k the same, and there x ends or has the lesser one. */
  predicate TextPrecedesAt(x: string, y: string, k: nat) {
    k <= |x| && k < |y| && x[..k] == y[..k] && (k == |x| || x[k] as int < y[k] as int)
  }

  ghost predicate TextPrecedes(x: string, y: string) {
    exists k: nat :: TextPrecedesAt(x, y, k)
  }

  /** Numerals without leading zeros by their texts alone: the longer is the greater. */
  ghost predicate NumeralPrecedes(x: string, y: string) {
    |x| < |y| || (|x| == |y| && TextPrecedes(x, y))
  }

  ghost predicate IdentifierPrecedes(x: string, y: string) {
    if AllDigits(x) && AllDigits(y) then NumeralPrecedes(x, y)
    else if !AllDigits(x) && !AllDigits(y) then TextPrecedes(x, y)
    else AllDigits(x)
  }

  /** The identifiers agree up to k; there xs ends, or has the one that precedes. */
  ghost predicate IdentifiersPrecedeAt(xs: seq<string>, ys: seq<string>, k: nat) {
    k <= |xs| && k < |ys| && xs[..k] == ys[..k] && (k == |xs| || IdentifierPrecedes(xs[k], ys[k]))
  }

  ghost predicate PrereleasePrecedes(p: string, q: string) {
    p != "" && (q == "" || exists k: nat :: IdentifiersPrecedeAt(Split(p), Split(q), k))
  }

  /** The numbers agree up to k; there a ends, or has the lesser one. */
  predicate NumbersPrecedeAt(a: seq<U32>, b: seq<U32>, k: nat) {
    k <= |a| && k < |b| && a[..k] == b[..k] && (k == |a| || a[k] < b[k])
  }

  /** Precedence as section 11 words it, over two or more numbers; metadata plays no part. */
  ghost predicate Precedes(a: Version, b: Version) {
    || (exists k: nat :: NumbersPrecedeAt(a.versions, b.versions, k))
    || (a.versions == b.versions && PrereleasePrecedes(a.prerelease, b.prerelease))
  }

  /** Comparing texts is comparing character codes at the first difference. */
  lemma TextLessIsByCode(x: string, y: string)
    ensures LexLess(CharLess, x, y) <==> TextPrecedes(x, y)
  {
    LexIsFirstDifference(CharLess, AnyChar, x, y);
    forall k: nat ensures DiffersAt(CharLess, x, y, k) <==> TextPrecedesAt(x, y, k) { }
  }

  lemma NumbersLessIsByValue(a: seq<U32>, b: seq<U32>)
    ensures LexLess(NumberLess, a, b) <==> exists k: nat :: NumbersPrecedeAt(a, b, k)
  {
    LexIsFirstDifference(NumberLess, AnyNumber, a, b);
    forall k: nat ensures DiffersAt(NumberLess, a, b, k) <==> NumbersPrecedeAt(a, b, k) { }
  }

  /** Identifiers that are not numeric, in full: the character codes decide. */
  lemma TextualOrder(x: string, y: string)
    requires !AllDigits(x) && !AllDigits(y)
    ensures ComponentLess(ComponentOf(x), ComponentOf(y)) <==>
            exists k: nat :: && k <= |x| && k < |y| && x[..k] == y[..k]
                             && (k == |x| || x[k] as int < y[k] as int)
  {
    TextLessIsByCode(x, y);
    forall k: nat ensures TextPrecedesAt(x, y, k) <==>
                          && k <= |x| && k < |y| && x[..k] == y[..k]
                          && (k == |x| || x[k] as int < y[k] as int) { }
  }

  /** Numeric identifiers in full: the values decide; and they come before the others. */
  lemma NumericOrder(x: string, y: string)
    ensures AllDigits(x) && x != "" && AllDigits(y) && y != "" ==>
              (ComponentLess(ComponentOf(x), ComponentOf(y)) <==> OfDecimal(x) < OfDecimal(y))
    ensures AllDigits(x) != AllDigits(y) ==> (ComponentLess(ComponentOf(x), ComponentOf(y)) <==> AllDigits(x))
  {
  }

  lemma LesserHead(x: string, y: string)
    requires AllDigits(x) && AllDigits(y) && |x| == |y| && x != "" && x[0] < y[0]
    ensures OfDecimal(x) < OfDecimal(y)
  {
    OfDecimalHead(x);
    OfDecimalHead(y);
    OfDecimalBound(x[1..]);
    LeadingDigitDecides(DigitValue(x[0]), DigitValue(y[0]), Pow10(|x| - 1), OfDecimal(x[1..]), OfDecimal(y[1..]));
  }

  lemma SameHead(x: string, y: string)
    requires AllDigits(x) && AllDigits(y) && |x| == |y| && x != "" && x[0] == y[0]
    ensures OfDecimal(x) < OfDecimal(y) <==> OfDecimal(x[1..]) < OfDecimal(y[1..])
  {
    OfDecimalHead(x);
    OfDecimalHead(y);
  }

  lemma {:induction false} SameLengthNumerals(x: string, y: string)
    requires AllDigits(x) && AllDigits(y) && |x| == |y|
    ensures OfDecimal(x) < OfDecimal(y) <==> LexLess(CharLess, x, y)
  {
    if x == "" {
    } else {
      if x[0] < y[0] {
        LesserHead(x, y);
      } else if y[0] < x[0] {
        LesserHead(y, x);
      } else {
        SameHead(x, y);
        SameLengthNumerals(x[1..], y[1..]);
      }
    }
  }

  lemma ShorterNumeral(x: string, y: string)
    requires Canonical(x) && Canonical(y) && |x| < |y|
    ensures OfDecimal(x) < OfDecimal(y)
  {
    var d, p, t := DigitValue(y[0]), Pow10(|y| - 1), OfDecimal(y[1..]);
    assert OfDecimal(x) < p by {
      OfDecimalBound(x);
      Pow10Monotone(|x|, |y| - 1);
    }
    OfDecimalHead(y);
    LeadingDigitDecides(0, d, p, OfDecimal(x), t);
  }

  /** Comparing values is comparing texts, for numerals without leading zeros. */
  lemma NumeralsCompareAsText(x: string, y: string)
    requires Canonical(x) && Canonical(y)
    ensures OfDecimal(x) < OfDecimal(y) <==> NumeralPrecedes(x, y)
  {
    if |x| < |y| {
      ShorterNumeral(x, y);
    } else if |y| < |x| {
      ShorterNumeral(y, x);
    } else {
      SameLengthNumerals(x, y);
      TextLessIsByCode(x, y);
    }
  }

  lemma ComponentLessIsPrecedence(x: string, y: string)
    requires GoodIdentifier(x) && GoodIdentifier(y)
    ensures ComponentLess(ComponentOf(x), ComponentOf(y)) <==> IdentifierPrecedes(x, y)
  {
    if AllDigits(x) && AllDigits(y) {
      NumeralsCompareAsText(x, y);
    } else {
      TextLessIsByCode(x, y);
    }
  }

  /** A first difference of component lists is one of the identifier lists, at the same place. */
  lemma SameDifference(xs: seq<string>, ys: seq<string>, k: nat)
    requires AllGood(xs) && AllGood(ys)
    ensures DiffersAt(ComponentLess, ComponentsOf(xs), ComponentsOf(ys), k) <==>
            IdentifiersPrecedeAt(xs, ys, k)
  {
    if k <= |xs| && k < |ys| {
      if k < |xs| {
        ComponentLessIsPrecedence(xs[k], ys[k]);
      }
      var cs, ds := ComponentsOf(xs)[..k], ComponentsOf(ys)[..k];
      forall i | 0 <= i < k ensures cs[i].identifier == xs[..k][i] && ds[i].identifier == ys[..k][i] { }
      if cs == ds {
        assert forall i :: 0 <= i < k ==> xs[..k][i] == ys[..k][i];
      }
      if xs[..k] == ys[..k] {
        assert forall i :: 0 <= i < k ==> xs[i] == xs[..k][i] && ys[i] == ys[..k][i];
        assert cs == ds;
      }
    }
  }

  lemma ComponentsCompareAsText(p: string, q: string)
    requires AllGood(Split(p)) && AllGood(Split(q))
    ensures LexLess(ComponentLess, ComponentsOf(Split(p)), ComponentsOf(Split(q))) <==>
            exists k: nat :: IdentifiersPrecedeAt(Split(p), Split(q), k)
  {
    var xs, ys := Split(p), Split(q);
    ComponentOrder();
    LexIsFirstDifference(ComponentLess, GoodComponent, ComponentsOf(xs), ComponentsOf(ys));
    forall k: nat
      ensures DiffersAt(ComponentLess, ComponentsOf(xs), ComponentsOf(ys), k) <==>
              IdentifiersPrecedeAt(xs, ys, k)
    {
      SameDifference(xs, ys, k);
    }
  }

  /** The staged comparison of the source is section 11's precedence. */
  lemma LessIsPrecedence(a: Version, b: Version)
    requires Valid(a) && Valid(b)
    ensures Less(a, b) <==> Precedes(a, b)
  {
    NumbersLessIsByValue(a.versions, b.versions);
    LexTrichotomy(NumberLess, AnyNumber, a.versions, b.versions);
    LexIrreflexive(NumberLess, AnyNumber, a.versions);
    ValidComponents(a);
    ValidComponents(b);
    if !IsRelease(a) && !IsRelease(b) {
      ComponentsCompareAsText(a.prerelease, b.prerelease);
      ComponentOrder();
      LexIrreflexive(ComponentLess, GoodComponent, a.components);
    }
  }
}
