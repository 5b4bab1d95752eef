/** The fragment of regular expressions libsemver uses, with the usual meaning of a full match. */
module Regex {
  import opened Dotted

  datatype Regex =
    | Empty
    | Class(ranges: seq<(char, char)>)
    | Cat(first: Regex, second: Regex)
    | Alt(left: Regex, right: Regex)
    | Star(body: Regex)

  function Literal(c: char): Regex {
    Class([(c, c)])
  }

  function Optional(r: Regex): Regex {
    Alt(r, Empty)
  }

  function Plus(r: Regex): Regex {
    Cat(r, Star(r))
  }

  predicate InClass(ranges: seq<(char, char)>, c: char) {
    exists i :: 0 <= i < |ranges| && ranges[i].0 <= c <= ranges[i].1
  }

  /** r matches the whole of s. */
  ghost predicate Matches(r: Regex, s: string)
    decreases r, |s|
  {
    match r
    case Empty => s == ""
    case Class(ranges) => |s| == 1 && InClass(ranges, s[0])
    case Cat(a, b) => exists i :: 0 <= i <= |s| && Matches(a, s[..i]) && Matches(b, s[i..])
    case Alt(a, b) => Matches(a, s) || Matches(b, s)
    case Star(a) => s == "" || exists i :: 0 < i <= |s| && Matches(a, s[..i]) && Matches(r, s[i..])
  }

  lemma CatIntro(a: Regex, b: Regex, x: string, y: string)
    requires Matches(a, x) && Matches(b, y)
    ensures Matches(Cat(a, b), x + y)
  {
    var s := x + y;
    assert s[..|x|] == x && s[|x|..] == y;
  }

  lemma CatSplit(a: Regex, b: Regex, s: string) returns (x: string, y: string)
    requires Matches(Cat(a, b), s)
    ensures s == x + y && Matches(a, x) && Matches(b, y)
  {
    var i :| 0 <= i <= |s| && Matches(a, s[..i]) && Matches(b, s[i..]);
    x, y := s[..i], s[i..];
  }

  lemma LiteralMatches(c: char, s: string)
    ensures Matches(Literal(c), s) <==> s == [c]
  {
    assert InClass([(c, c)], c) by { assert [(c, c)][0].0 <= c; }
  }

  /** A starred class matches exactly the strings over that class. */
  lemma {:induction false} StarClass(ranges: seq<(char, char)>, s: string)
    ensures Matches(Star(Class(ranges)), s) <==> forall i :: 0 <= i < |s| ==> InClass(ranges, s[i])
    decreases |s|
  {
    var r := Star(Class(ranges));
    if s == "" {
    } else {
      StarClass(ranges, s[1..]);
      assert s[..1] == [s[0]];
      if Matches(r, s) {
        var i :| 0 < i <= |s| && Matches(Class(ranges), s[..i]) && Matches(r, s[i..]);
        assert forall k :: 1 <= k < |s| ==> s[k] == s[1..][k - 1];
      }
      if forall i :: 0 <= i < |s| ==> InClass(ranges, s[i]) {
        assert Matches(Class(ranges), s[..1]);
      }
    }
  }

  ghost predicate AllMatch(e: Regex, parts: seq<string>) {
    forall k :: 0 <= k < |parts| ==> Matches(e, parts[k])
  }

  /** No string e matches contains a dot. */
  ghost predicate DotFree(e: Regex) {
    forall s :: Matches(e, s) ==> NoDot(s)
  }

  lemma StarIntro(a: Regex, x: string, y: string)
    requires x != "" && Matches(a, x) && Matches(Star(a), y)
    ensures Matches(Star(a), x + y)
  {
    var s := x + y;
    assert s[..|x|] == x && s[|x|..] == y;
  }

  lemma StarSplit(a: Regex, s: string) returns (x: string, y: string)
    requires s != "" && Matches(Star(a), s)
    ensures s == x + y && x != "" && Matches(a, x) && Matches(Star(a), y)
  {
    var i :| 0 < i <= |s| && Matches(a, s[..i]) && Matches(Star(a), s[i..]);
    x, y := s[..i], s[i..];
  }

  function Dot(e: Regex): Regex {
    Cat(Literal('.'), e)
  }

  lemma DotIntro(e: Regex, x: string)
    requires Matches(e, x)
    ensures Matches(Dot(e), "." + x)
  {
    LiteralMatches('.', ".");
    CatIntro(Literal('.'), e, ".", x);
  }

  lemma DotSplit(e: Regex, s: string) returns (x: string)
    requires Matches(Dot(e), s)
    ensures s == "." + x && Matches(e, x)
  {
    var dot, y := CatSplit(Literal('.'), e, s);
    LiteralMatches('.', dot);
    x := y;
  }

  /** Nothing, or a dot and then elements of e split at dots. */
  ghost predicate GoodTail(e: Regex, t: string) {
    t == "" || (t[0] == '.' && AllMatch(e, Split(t[1..])))
  }

  /** An element followed by a good tail splits into that element and the tail's. */
  lemma ElementAndTail(e: Regex, x: string, t: string)
    requires NoDot(x) && Matches(e, x) && GoodTail(e, t)
    ensures AllMatch(e, Split(x + t))
    ensures |Split(x + t)| >= 2 <==> t != ""
  {
    if t == "" {
      SplitNoDot(x);
      assert x + t == x;
    } else {
      SplitAtDot(x, t[1..]);
      assert x + t == x + "." + t[1..];
    }
  }

  /** The converse: peel the first element off. */
  lemma PeelElement(e: Regex, s: string) returns (x: string, t: string)
    requires AllMatch(e, Split(s))
    ensures s == x + t && Matches(e, x) && GoodTail(e, t)
    ensures |Split(s)| >= 2 <==> t != ""
  {
    x, t := SplitFirst(s);
    if t != "" {
      assert Split(t[1..]) == Split(s)[1..];
    }
  }

  lemma {:induction false} StarIsGoodTail(e: Regex, t: string)
    requires DotFree(e) && Matches(Star(Dot(e)), t)
    ensures GoodTail(e, t)
    decreases |t|
  {
    if t == "" {
    } else {
      var y, rest := StarSplit(Dot(e), t);
      var x := DotSplit(e, y);
      StarIsGoodTail(e, rest);
      ElementAndTail(e, x, rest);
      assert t[1..] == x + rest;
    }
  }

  lemma {:induction false} GoodTailIsStar(e: Regex, t: string)
    requires GoodTail(e, t)
    ensures Matches(Star(Dot(e)), t)
    decreases |t|
  {
    if t == "" {
    } else {
      var x, rest := PeelElement(e, t[1..]);
      GoodTailIsStar(e, rest);
      DotIntro(e, x);
      StarIntro(Dot(e), "." + x, rest);
      assert t == ("." + x) + rest;
    }
  }

  /** e(\.e)* matches s exactly when e matches every element of s split at its dots. */
  lemma DottedList(e: Regex, s: string)
    requires DotFree(e)
    ensures Matches(Cat(e, Star(Dot(e))), s) <==> AllMatch(e, Split(s))
  {
    if Matches(Cat(e, Star(Dot(e))), s) {
      var x, t := CatSplit(e, Star(Dot(e)), s);
      StarIsGoodTail(e, t);
      ElementAndTail(e, x, t);
    }
    if AllMatch(e, Split(s)) {
      var x, t := PeelElement(e, s);
      GoodTailIsStar(e, t);
      CatIntro(e, Star(Dot(e)), x, t);
    }
  }

  /** e(\.e)+ asks for two elements or more. */
  lemma DottedListOfTwo(e: Regex, s: string)
    requires DotFree(e)
    ensures Matches(Cat(e, Plus(Dot(e))), s) <==> AllMatch(e, Split(s)) && |Split(s)| >= 2
  {
    var step := Dot(e);
    if Matches(Cat(e, Plus(step)), s) {
      var x, t := CatSplit(e, Plus(step), s);
      var y, z := CatSplit(step, Star(step), t);
      var w := DotSplit(e, y);
      StarIntro(step, y, z);
      StarIsGoodTail(e, t);
      ElementAndTail(e, x, t);
    }
    if AllMatch(e, Split(s)) && |Split(s)| >= 2 {
      var x, t := PeelElement(e, s);
      GoodTailIsStar(e, t);
      var y, z := StarSplit(step, t);
      CatIntro(step, Star(step), y, z);
      CatIntro(e, Plus(step), x, t);
    }
  }
}
