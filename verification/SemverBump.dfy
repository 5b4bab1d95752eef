/** bump: the least greater version of its kind. */
module SemverBump {
  import opened Wrappers
  import opened Lexicographic
  import opened Semver
  import opened SemverRoundTrip
  import opened SemverOrder

  /** get_version(index): numbers that do not exist read as zero. */
  function GetVersion(versions: seq<U32>, index: nat): U32 {
    if index >= |versions| then 0 else versions[index]
  }

  function Zeros(n: nat): (zs: seq<U32>)
    ensures |zs| == n && forall i :: 0 <= i < n ==> zs[i] == 0
  {
    seq(n, i => 0)
  }

  /** The bumped number is incremented as an unsigned int; the numbers behind it are reset. */
  function BumpedNumbers(versions: seq<U32>, index: nat): seq<U32> {
    if index >= |versions| then versions + Zeros(index - |versions|) + [1]
    else versions[..index] + [(versions[index] + 1) % UINT_RANGE] + Zeros(|versions| - index - 1)
  }

  function Bumped(v: Version, index: U32): Result<Version, Error> {
    Constructed(BumpedNumbers(v.versions, index), v.prerelease, v.metadata)
  }

  method Bump(v: Version, index: U32) returns (r: Result<Version, Error>)
    ensures r == Bumped(v, index)
  {
    var bumped := v.versions;
    if index >= |bumped| {
      var fill := index - |bumped| + 1;
      for k := 0 to fill
        invariant bumped == v.versions + Zeros(k)
      {
        bumped := bumped + [0];
      }
      bumped := bumped[index := 1];
    } else {
      bumped := bumped[index := (bumped[index] + 1) % UINT_RANGE];
      for i := index + 1 to |bumped|
        invariant |bumped| == |v.versions|
        invariant bumped[..index] == v.versions[..index]
        invariant bumped[index] == (v.versions[index] + 1) % UINT_RANGE
        invariant forall k :: index < k < i ==> bumped[k] == 0
      {
        bumped := bumped[i := 0];
      }
    }
    assert bumped == BumpedNumbers(v.versions, index);
    r := NewVersion(bumped, v.prerelease, v.metadata);
  }

  /** Bumping a version never throws, and keeps its prerelease, components and metadata. */
  lemma BumpSucceeds(v: Version, index: U32)
    requires Valid(v)
    ensures Bumped(v, index) == Ok(v.(versions := BumpedNumbers(v.versions, index)))
    ensures Valid(Bumped(v, index).value)
  {
    ConstructedExact(v.versions, v.prerelease, v.metadata);
    ConstructedExact(BumpedNumbers(v.versions, index), v.prerelease, v.metadata);
  }

  /** The increment does not wrap. */
  predicate NoOverflow(versions: seq<U32>, index: nat) {
    index < |versions| ==> versions[index] < 4294967295
  }

  /** Every number of a bumped version: kept before, incremented at, and zero after the index. */
  lemma BumpedNumberAt(versions: seq<U32>, index: nat, k: nat)
    ensures GetVersion(BumpedNumbers(versions, index), k) ==
            if k < index then GetVersion(versions, k)
            else if k == index then (GetVersion(versions, index) + 1) % 4294967296
            else 0
  {
  }

  /** No number is added or lost, but for those up to an index beyond the end. */
  lemma BumpedLength(versions: seq<U32>, index: nat)
    ensures |BumpedNumbers(versions, index)| == if index < |versions| then |versions| else index + 1
  {
  }

  /** A later, more significant bump makes an earlier, less significant one invisible. */
  lemma BumpAbsorbs(versions: seq<U32>, i: nat, j: nat, k: nat)
    requires j < i
    ensures GetVersion(BumpedNumbers(BumpedNumbers(versions, i), j), k) == GetVersion(BumpedNumbers(versions, j), k)
  {
    BumpedNumberAt(BumpedNumbers(versions, i), j, k);
    BumpedNumberAt(versions, j, k);
    BumpedNumberAt(versions, i, k);
    BumpedNumberAt(versions, i, j);
  }

  /** The first n numbers, padded with zeros. */
  function Padded(versions: seq<U32>, n: nat): (p: seq<U32>)
    ensures |p| == n && forall k :: 0 <= k < n ==> p[k] == GetVersion(versions, k)
  {
    seq(n, k requires 0 <= k < n => GetVersion(versions, k))
  }

  /** The first index+1 numbers of w exceed those of versions. */
  predicate ExceedsUpTo(w: seq<U32>, versions: seq<U32>, index: nat)
    requires |w| > index
  {
    LexLess(NumberLess, Padded(versions, index + 1), w[..index + 1])
  }

  lemma DiffersHere(a: seq<U32>, b: seq<U32>, k: nat)
    requires DiffersAt(NumberLess, a, b, k)
    ensures LexLess(NumberLess, a, b)
  {
    LexIsFirstDifference(NumberLess, AnyNumber, a, b);
  }

  lemma FirstDiffers(a: seq<U32>, b: seq<U32>) returns (k: nat)
    requires LexLess(NumberLess, a, b)
    ensures k <= |a| && k < |b| && (k < |a| ==> a[k] < b[k])
    ensures forall i :: 0 <= i < k ==> a[i] == b[i]
  {
    LexIsFirstDifference(NumberLess, AnyNumber, a, b);
    k :| DiffersAt(NumberLess, a, b, k);
    forall i | 0 <= i < k ensures a[i] == b[i] {
      assert a[..k][i] == b[..k][i];
    }
  }

  /** The bumped numbers are greater exactly when the increment does not wrap; when it does,
      they are less. */
  lemma BumpIsGreater(versions: seq<U32>, index: nat)
    ensures LexLess(NumberLess, versions, BumpedNumbers(versions, index)) <==> NoOverflow(versions, index)
    ensures LexLess(NumberLess, BumpedNumbers(versions, index), versions) <==> !NoOverflow(versions, index)
  {
    var b := BumpedNumbers(versions, index);
    LexTrichotomy(NumberLess, AnyNumber, versions, b);
    if index >= |versions| {
      assert b[..|versions|] == versions[..|versions|] == versions;
      DiffersHere(versions, b, |versions|);
    } else {
      assert b[..index] == versions[..index];
      if NoOverflow(versions, index) {
        DiffersHere(versions, b, index);
      } else {
        DiffersHere(b, versions, index);
      }
    }
  }

  /** A concrete wrap: 4294967295.0 bumped at its first number is 0.0. */
  lemma WrappedBumpIsLess()
    ensures var versions: seq<U32> := [4294967295, 0];
            BumpedNumbers(versions, 0) == [0, 0] && LexLess(NumberLess, BumpedNumbers(versions, 0), versions)
  {
    var versions: seq<U32> := [4294967295, 0];
    assert BumpedNumbers(versions, 0) == [0, 0];
    BumpIsGreater(versions, 0);
  }

  lemma BumpExceeds(versions: seq<U32>, index: nat)
    ensures |BumpedNumbers(versions, index)| > index
    ensures NoOverflow(versions, index) ==> ExceedsUpTo(BumpedNumbers(versions, index), versions, index)
  {
    var b := BumpedNumbers(versions, index);
    var p := Padded(versions, index + 1);
    if NoOverflow(versions, index) {
      forall k | 0 <= k < index ensures b[..index + 1][k] == p[k] {
        BumpedNumberAt(versions, index, k);
      }
      BumpedNumberAt(versions, index, index);
      assert b[..index + 1][..index] == p[..index];
      DiffersHere(p, b[..index + 1], index);
    }
  }

  /** No vector of the same length that exceeds the original up to the index is less. */
  lemma NothingBetween(versions: seq<U32>, index: nat, w: seq<U32>)
    requires NoOverflow(versions, index)
    requires |w| == |BumpedNumbers(versions, index)| && |w| > index && ExceedsUpTo(w, versions, index)
    ensures !LexLess(NumberLess, w, BumpedNumbers(versions, index))
  {
    var b := BumpedNumbers(versions, index);
    if LexLess(NumberLess, w, b) {
      var k := FirstDiffers(w, b);
      var m := FirstDiffers(Padded(versions, index + 1), w[..index + 1]);
      BumpedNumberAt(versions, index, k);
      BumpedNumberAt(versions, index, m);
    }
  }

  /** bump(index) is the least vector of its length whose first index+1 numbers exceed the
      original, exactly when the increment does not wrap. */
  lemma BumpIsLeast(versions: seq<U32>, index: nat)
    ensures |BumpedNumbers(versions, index)| > index
    ensures NoOverflow(versions, index) <==>
            && ExceedsUpTo(BumpedNumbers(versions, index), versions, index)
            && forall w: seq<U32> ::
                 |w| == |BumpedNumbers(versions, index)| && |w| > index && ExceedsUpTo(w, versions, index) ==>
                   !LexLess(NumberLess, w, BumpedNumbers(versions, index))
  {
    BumpExceeds(versions, index);
    if NoOverflow(versions, index) {
      forall w: seq<U32> | |w| == |BumpedNumbers(versions, index)| && |w| > index && ExceedsUpTo(w, versions, index)
        ensures !LexLess(NumberLess, w, BumpedNumbers(versions, index))
      {
        NothingBetween(versions, index, w);
      }
    } else {
      WrapDoesNotExceed(versions, index);
    }
  }

  lemma WrapDoesNotExceed(versions: seq<U32>, index: nat)
    requires !NoOverflow(versions, index)
    ensures |BumpedNumbers(versions, index)| > index && !ExceedsUpTo(BumpedNumbers(versions, index), versions, index)
  {
    var b := BumpedNumbers(versions, index);
    var p := Padded(versions, index + 1);
    assert b[..index + 1][..index] == p[..index];
    DiffersHere(b[..index + 1], p, index);
    LexTrichotomy(NumberLess, AnyNumber, p, b[..index + 1]);
  }

  /** Over whole versions: the bumped version is the greater one, whatever the prerelease,
      exactly when the increment does not wrap. */
  lemma BumpedVersionIsGreater(v: Version, index: U32)
    requires Valid(v)
    ensures Bumped(v, index).Ok? && (Less(v, Bumped(v, index).value) <==> NoOverflow(v.versions, index))
  {
    BumpSucceeds(v, index);
    BumpIsGreater(v.versions, index);
    LexTrichotomy(NumberLess, AnyNumber, v.versions, BumpedNumbers(v.versions, index));
  }
}
