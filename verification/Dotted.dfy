/** Dot-separated lists: splitting at every dot and joining with dots are inverse. */
module Dotted {
  predicate NoDot(s: string) {
    forall i :: 0 <= i < |s| ==> s[i] != '.'
  }

  function Split(s: string): (parts: seq<string>)
    ensures |parts| >= 1
  {
    if s == "" then [""]
    else
      var rest := Split(s[1..]);
      if s[0] == '.' then [""] + rest else [[s[0]] + rest[0]] + rest[1..]
  }

  function Join(parts: seq<string>): string
    requires |parts| >= 1
  {
    if |parts| == 1 then parts[0] else parts[0] + "." + Join(parts[1..])
  }

  lemma {:induction false} JoinSplit(s: string)
    ensures Join(Split(s)) == s
  {
    if s == "" {
    } else {
      JoinSplit(s[1..]);
      var rest := Split(s[1..]);
      if s[0] == '.' {
        assert Split(s)[1..] == rest;
        assert s == "" + "." + s[1..];
      } else {
        assert s == [s[0]] + s[1..];
        if |rest| > 1 {
          assert Split(s)[1..] == rest[1..];
          assert [s[0]] + (rest[0] + "." + Join(rest[1..])) == ([s[0]] + rest[0]) + "." + Join(rest[1..]);
        }
      }
    }
  }

  lemma {:induction false} SplitHasNoDots(s: string)
    ensures forall p :: p in Split(s) ==> NoDot(p)
  {
    if s == "" {
    } else {
      SplitHasNoDots(s[1..]);
      var rest := Split(s[1..]);
      assert rest[0] in rest;
    }
  }

  lemma {:induction false} SplitNoDot(x: string)
    requires NoDot(x)
    ensures Split(x) == [x]
  {
    if x == "" {
    } else {
      SplitNoDot(x[1..]);
      assert x == [x[0]] + x[1..];
    }
  }

  /** A dot ends the first element, and nothing else does. */
  lemma {:induction false} SplitAtDot(x: string, y: string)
    requires NoDot(x)
    ensures Split(x + "." + y) == [x] + Split(y)
  {
    var s := x + "." + y;
    if x == "" {
      assert s[1..] == y;
    } else {
      SplitAtDot(x[1..], y);
      assert s[1..] == x[1..] + "." + y;
      assert x == [x[0]] + x[1..];
    }
  }

  lemma {:induction false} SplitJoin(parts: seq<string>)
    requires |parts| >= 1
    requires forall p :: p in parts ==> NoDot(p)
    ensures Split(Join(parts)) == parts
  {
    if |parts| == 1 {
      SplitNoDot(parts[0]);
    } else {
      SplitJoin(parts[1..]);
      SplitAtDot(parts[0], Join(parts[1..]));
    }
  }

  /** Splitting never mixes up two lists: it is injective. */
  lemma SplitInjective(s: string, t: string)
    requires Split(s) == Split(t)
    ensures s == t
  {
    JoinSplit(s);
    JoinSplit(t);
  }

  /** The first element, and the rest with its leading dot. */
  lemma SplitFirst(s: string) returns (x: string, t: string)
    ensures s == x + t && NoDot(x) && Split(s)[0] == x
    ensures if t == "" then Split(s) == [x] else t[0] == '.' && Split(s) == [x] + Split(t[1..])
  {
    var parts := Split(s);
    x := parts[0];
    JoinSplit(s);
    SplitHasNoDots(s);
    if |parts| == 1 {
      t := "";
    } else {
      var y := Join(parts[1..]);
      t := "." + y;
      assert t[1..] == y && x + "." + y == x + t;
      assert Split(y) == parts[1..] by { SplitJoin(parts[1..]); }
    }
  }
}
