/** libsemver's version: parsing, validation and printing.  The functions say what is computed;
    the methods are the loops of the source and are proved to compute it. */
module Semver {
  import opened Wrappers
  import opened Decimal
  import opened Dotted
  import opened Grammar

  const UINT_RANGE := 0x1_0000_0000
  const ULONG_MAX := 0xFFFF_FFFF_FFFF_FFFF

  /** unsigned int */
  type U32 = n: int | 0 <= n < UINT_RANGE

  /** Every reason for which the source throws; the last is std::out_of_range. */
  datatype Error =
    | InvalidVersion
    | TooFewNumbers
    | InvalidPrerelease
    | EmptyIdentifier
    | LeadingZeroes
    | InvalidMetadata
    | OutOfRange

  datatype Component = Component(identifier: string, isNumber: bool, value: nat)

  /** Instances are immutable in the source: every public method is const. */
  datatype Version = Version(
    versions: seq<U32>,
    prerelease: string,
    components: seq<Component>,
    metadata: string)

  // ---------------------------------------------------------------- numbers

  /** std::stoul on a run of digits, with a 64-bit unsigned long. */
  function Stoul(s: string): Result<nat, Error>
    requires AllDigits(s)
  {
    if OfDecimal(s) <= ULONG_MAX then Ok(OfDecimal(s)) else Err(OutOfRange)
  }

  function Narrow(n: nat): U32 {
    n % UINT_RANGE
  }

  /** The length of the run of digits at the head of s. */
  function RunLength(s: string): (n: nat)
    ensures n <= |s| && AllDigits(s[..n])
    ensures n < |s| ==> !IsDigit(s[n])
  {
    if s == "" || !IsDigit(s[0]) then 0 else 1 + RunLength(s[1..])
  }

  /** The matches of the regular expression \d+, from left to right. */
  function DigitRuns(s: string): (runs: seq<string>)
    ensures forall r :: r in runs ==> r != "" && AllDigits(r)
    decreases |s|
  {
    var n := RunLength(s);
    if s == "" then []
    else if n > 0 then [s[..n]] + DigitRuns(s[n..])
    else DigitRuns(s[1..])
  }

  function Numbers(runs: seq<string>): Result<seq<U32>, Error>
    requires forall r :: r in runs ==> AllDigits(r)
  {
    if runs == [] then Ok([])
    else
      var n :- Stoul(runs[0]);
      var rest :- Numbers(runs[1..]);
      Ok([Narrow(n)] + rest)
  }

  /** How far the token iterator has come: what is read, and what is left to read. */
  lemma NextRun(v: string, i: nat)
    requires i < |v|
    ensures var n := RunLength(v[i..]);
            i + n <= |v| &&
            if n == 0 then DigitRuns(v[i..]) == DigitRuns(v[i + 1..])
            else AllDigits(v[i..i + n]) && DigitRuns(v[i..]) == [v[i..i + n]] + DigitRuns(v[i + n..])
  {
    var w := v[i..];
    var n := RunLength(w);
    if n == 0 {
      assert w[1..] == v[i + 1..];
    } else {
      assert w[..n] == v[i..i + n] && w[n..] == v[i + n..];
    }
  }

  lemma NumbersStep(token: string, rest: seq<string>)
    requires AllDigits(token) && forall r :: r in rest ==> AllDigits(r)
    ensures Numbers([token] + rest) ==
            if Stoul(token).Err? then Err(Stoul(token).error) else After([Narrow(Stoul(token).value)], Numbers(rest))
  {
    assert ([token] + rest)[1..] == rest;
  }

  /** The result, when results holds the numbers before position i. */
  function ReadFrom(v: string, i: nat, results: seq<U32>): Result<seq<U32>, Error>
    requires i <= |v|
  {
    After(results, Numbers(DigitRuns(v[i..])))
  }

  lemma ReadAtStart(v: string)
    ensures ReadFrom(v, 0, []) == Numbers(DigitRuns(v))
  {
    assert v[0..] == v;
    AfterNothing(Numbers(DigitRuns(v)));
  }

  lemma ReadAtEnd(v: string, results: seq<U32>)
    ensures ReadFrom(v, |v|, results) == Ok(results)
  {
    assert results + [] == results;
  }

  lemma ReadNoDigit(v: string, i: nat, results: seq<U32>)
    requires i < |v| && RunLength(v[i..]) == 0
    ensures ReadFrom(v, i, results) == ReadFrom(v, i + 1, results)
  {
    NextRun(v, i);
  }

  lemma ReadNumber(v: string, i: nat, n: nat, results: seq<U32>)
    requires i < |v| && n == RunLength(v[i..]) > 0
    ensures i + n <= |v| && AllDigits(v[i..i + n])
    ensures var number := Stoul(v[i..i + n]);
            ReadFrom(v, i, results) ==
            if number.Err? then Err(number.error) else ReadFrom(v, i + n, results + [Narrow(number.value)])
  {
    NextRun(v, i);
    var token, rest := v[i..i + n], DigitRuns(v[i + n..]);
    NumbersStep(token, rest);
    if Stoul(token).Ok? {
      AfterPush(results, Narrow(Stoul(token).value), Numbers(rest));
    }
  }

  method ParseVersion(v: string) returns (r: Result<seq<U32>, Error>)
    ensures r == Numbers(DigitRuns(v))
  {
    var results: seq<U32> := [];
    var i := 0;
    ReadAtStart(v);
    while i < |v|
      invariant 0 <= i <= |v|
      invariant ReadFrom(v, i, results) == Numbers(DigitRuns(v))
    {
      var n := RunLength(v[i..]);
      if n == 0 {
        ReadNoDigit(v, i, results);
        i := i + 1;
      } else {
        ReadNumber(v, i, n, results);
        var number := Stoul(v[i..i + n]);
        if number.Err? {
          return Err(number.error);
        }
        results := results + [Narrow(number.value)];
        i := i + n;
      }
    }
    ReadAtEnd(v, results);
    r := Ok(results);
  }

  // ------------------------------------------------------------- prerelease

  function IdentifierFault(s: string): Option<Error> {
    if s == "" then Some(EmptyIdentifier)
    else if s[0] == '0' && AllDigits(s) then Some(LeadingZeroes)
    else None
  }

  method CheckIdentifier(s: string) returns (r: Option<Error>)
    ensures r == IdentifierFault(s)
    ensures r == Some(EmptyIdentifier) <==> s == ""
    ensures r == Some(LeadingZeroes) <==> s != "" && s[0] == '0' && AllDigits(s)
    ensures r == None <==> s != "" && (s[0] != '0' || !AllDigits(s))
  {
    if s == "" {
      return Some(EmptyIdentifier);
    }
    if s[0] != '0' {
      return None;
    }
    for i := 1 to |s|
      invariant AllDigits(s[..i])
    {
      if !IsDigit(s[i]) {
        return None;
      }
    }
    assert s[..|s|] == s;
    r := Some(LeadingZeroes);
  }

  function NewComponent(s: string): Result<Component, Error> {
    var isNumber := s != "" && AllDigits(s);
    if isNumber then
      var value :- Stoul(s);
      Ok(Component(s, true, value))
    else
      Ok(Component(s, false, 0))
  }

  /** A token iterator over the text between separators: an empty suffix is not a token. */
  function Tokens(s: string): seq<string> {
    var parts := Split(s);
    if |parts| > 1 && parts[|parts| - 1] == "" then parts[..|parts| - 1] else parts
  }

  function Components(tokens: seq<string>): Result<seq<Component>, Error> {
    if tokens == [] then Ok([])
    else if IdentifierFault(tokens[0]).Some? then Err(IdentifierFault(tokens[0]).value)
    else
      var c :- NewComponent(tokens[0]);
      var rest :- Components(tokens[1..]);
      Ok([c] + rest)
  }

  method ParsePrerelease(prerelease: string) returns (r: Result<seq<Component>, Error>)
    ensures r == Components(Tokens(prerelease))
  {
    var tokens := Tokens(prerelease);
    var components := [];
    assert tokens[0..] == tokens;
    AfterNothing(Components(tokens));
    for i := 0 to |tokens|
      invariant Components(tokens) == After(components, Components(tokens[i..]))
    {
      assert tokens[i..][0] == tokens[i] && tokens[i..][1..] == tokens[i + 1..];
      var fault := CheckIdentifier(tokens[i]);
      if fault.Some? {
        return Err(fault.value);
      }
      var c := NewComponent(tokens[i]);
      if c.Err? {
        return Err(c.error);
      }
      AfterPush(components, c.value, Components(tokens[i + 1..]));
      components := components + [c.value];
    }
    assert components + [] == components;
    r := Ok(components);
  }

  // ------------------------------------------------ construction and parsing

  function Constructed(versions: seq<U32>, prerelease: string, metadata: string): Result<Version, Error> {
    if |versions| < 2 then Err(TooFewNumbers)
    else if prerelease != "" && !IdentifierList(prerelease) then Err(InvalidPrerelease)
    else
      var components :- if prerelease == "" then Ok([]) else Components(Tokens(prerelease));
      if metadata != "" && !IdentifierList(metadata) then Err(InvalidMetadata)
      else Ok(Version(versions, prerelease, components, metadata))
  }

  method NewVersion(versions: seq<U32>, prerelease: string, metadata: string) returns (r: Result<Version, Error>)
    ensures r == Constructed(versions, prerelease, metadata)
  {
    if |versions| < 2 {
      return Err(TooFewNumbers);
    }
    var components := [];
    if prerelease != "" {
      if !IdentifierList(prerelease) {
        return Err(InvalidPrerelease);
      }
      var parsed := ParsePrerelease(prerelease);
      if parsed.Err? {
        return Err(parsed.error);
      }
      components := parsed.value;
    }
    if metadata != "" && !IdentifierList(metadata) {
      return Err(InvalidMetadata);
    }
    r := Ok(Version(versions, prerelease, components, metadata));
  }

  function Parsed(s: string): Result<Version, Error> {
    match Recognise(s)
    case None => Err(InvalidVersion)
    case Some(f) =>
      var versions :- Numbers(DigitRuns(f.release));
      Constructed(versions, f.prerelease, f.metadata)
  }

  method FromString(s: string) returns (r: Result<Version, Error>)
    ensures r == Parsed(s)
  {
    var fragments := Recognise(s);
    if fragments.None? {
      return Err(InvalidVersion);
    }
    var versions := ParseVersion(fragments.value.release);
    if versions.Err? {
      return Err(versions.error);
    }
    r := NewVersion(versions.value, fragments.value.prerelease, fragments.value.metadata);
  }

  /** The versions the constructor can produce. */
  predicate Valid(v: Version) {
    Constructed(v.versions, v.prerelease, v.metadata) == Ok(v)
  }

  // ---------------------------------------------------------------- printing

  function Numerals(versions: seq<U32>): (ns: seq<string>)
    ensures |ns| == |versions|
  {
    seq(|versions|, i requires 0 <= i < |versions| => ToDecimal(versions[i]))
  }

  function FragmentsOf(v: Version): Fragments
    requires |v.versions| >= 1
  {
    Fragments(Join(Numerals(v.versions)), v.prerelease, v.metadata)
  }

  function Printed(v: Version): string
    requires |v.versions| >= 1
  {
    Assemble(FragmentsOf(v))
  }

  lemma {:induction false} JoinAppend(parts: seq<string>, x: string)
    requires |parts| >= 1
    ensures Join(parts + [x]) == Join(parts) + ("." + x)
  {
    if |parts| > 1 {
      JoinAppend(parts[1..], x);
      assert (parts + [x])[1..] == parts[1..] + [x];
      var a, b, d := parts[0] + ".", Join(parts[1..]), "." + x;
      assert a + (b + d) == (a + b) + d;
    } else {
      assert (parts + [x])[1..] == [x];
      assert Join([x]) == x;
      assert parts[0] + "." + x == parts[0] + ("." + x);
    }
  }

  lemma NumeralsAppend(versions: seq<U32>, i: nat)
    requires 1 <= i < |versions|
    ensures Join(Numerals(versions[..i + 1])) == Join(Numerals(versions[..i])) + ("." + ToDecimal(versions[i]))
  {
    JoinAppend(Numerals(versions[..i]), ToDecimal(versions[i]));
    assert Numerals(versions[..i + 1]) == Numerals(versions[..i]) + [ToDecimal(versions[i])];
  }

  lemma AppendTwice(a: string, b: string, c: string)
    ensures (a + b) + c == a + (b + c)
  {
  }

  method Str(v: Version) returns (out: string)
    requires |v.versions| >= 1
    ensures out == Printed(v)
  {
    out := ToDecimal(v.versions[0]);
    assert Numerals(v.versions[..1]) == [ToDecimal(v.versions[0])];
    for i := 1 to |v.versions|
      invariant out == Join(Numerals(v.versions[..i]))
    {
      NumeralsAppend(v.versions, i);
      AppendTwice(out, ".", ToDecimal(v.versions[i]));
      out := out + ".";
      out := out + ToDecimal(v.versions[i]);
    }
    assert v.versions[..|v.versions|] == v.versions;
    ghost var release := out;
    if v.prerelease != "" {
      AppendTwice(out, "-", v.prerelease);
      out := out + "-";
      out := out + v.prerelease;
    }
    assert out == release + Part('-', v.prerelease);
    ghost var body := out;
    if v.metadata != "" {
      AppendTwice(out, "+", v.metadata);
      out := out + "+";
      out := out + v.metadata;
    }
    assert out == body + Part('+', v.metadata);
  }
}
