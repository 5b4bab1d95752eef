/** std::lexicographical_compare over any element order, and the order's laws. */
module Lexicographic {
  predicate LexLess<T>(lt: (T, T) -> bool, a: seq<T>, b: seq<T>) {
    if |b| == 0 then false
    else if |a| == 0 then true
    else if lt(a[0], b[0]) then true
    else if lt(b[0], a[0]) then false
    else LexLess(lt, a[1..], b[1..])
  }

  /** lt is a strict total order on the elements of dom. */
  ghost predicate StrictTotal<T(!new)>(lt: (T, T) -> bool, dom: T -> bool) {
    && (forall x :: dom(x) ==> !lt(x, x))
    && (forall x, y :: dom(x) && dom(y) ==> lt(x, y) || lt(y, x) || x == y)
    && (forall x, y, z :: dom(x) && dom(y) && dom(z) && lt(x, y) && lt(y, z) ==> lt(x, z))
  }

  ghost predicate Within<T(!new)>(dom: T -> bool, a: seq<T>) {
    forall i :: 0 <= i < |a| ==> dom(a[i])
  }

  lemma {:induction false} LexIrreflexive<T(!new)>(lt: (T, T) -> bool, dom: T -> bool, a: seq<T>)
    requires StrictTotal(lt, dom) && Within(dom, a)
    ensures !LexLess(lt, a, a)
  {
    if |a| > 0 {
      LexIrreflexive(lt, dom, a[1..]);
    }
  }

  lemma {:induction false} LexTrichotomy<T(!new)>(lt: (T, T) -> bool, dom: T -> bool, a: seq<T>, b: seq<T>)
    requires StrictTotal(lt, dom) && Within(dom, a) && Within(dom, b)
    ensures LexLess(lt, a, b) || LexLess(lt, b, a) || a == b
    ensures !(LexLess(lt, a, b) && LexLess(lt, b, a))
  {
    if |a| > 0 && |b| > 0 {
      LexTrichotomy(lt, dom, a[1..], b[1..]);
      if a[1..] == b[1..] {
        assert a == [a[0]] + a[1..] && b == [b[0]] + b[1..];
      }
      assert dom(a[0]) && dom(b[0]);
    }
  }

  lemma {:induction false} LexTransitive<T(!new)>(lt: (T, T) -> bool, dom: T -> bool, a: seq<T>, b: seq<T>, c: seq<T>)
    requires StrictTotal(lt, dom) && Within(dom, a) && Within(dom, b) && Within(dom, c)
    requires LexLess(lt, a, b) && LexLess(lt, b, c)
    ensures LexLess(lt, a, c)
  {
    if |a| > 0 {
      var x, y, z := a[0], b[0], c[0];
      assert dom(x) && dom(y) && dom(z);
      if !lt(x, y) && !lt(y, z) {
        LexTransitive(lt, dom, a[1..], b[1..], c[1..]);
      }
    }
  }

  /** The sequences agree up to k; there a ends and b goes on, or a's element is the lesser. */
  ghost predicate DiffersAt<T>(lt: (T, T) -> bool, a: seq<T>, b: seq<T>, k: nat) {
    k <= |a| && k < |b| && a[..k] == b[..k] && (k == |a| || lt(a[k], b[k]))
  }

  /** The first difference decides for a. */
  ghost predicate FirstDifference<T>(lt: (T, T) -> bool, a: seq<T>, b: seq<T>) {
    exists k: nat :: DiffersAt(lt, a, b, k)
  }

  /** A later difference is one of the tails, behind equal heads. */
  lemma DiffersLater<T>(lt: (T, T) -> bool, a: seq<T>, b: seq<T>, k: nat)
    requires |a| > 0 && |b| > 0
    ensures DiffersAt(lt, a, b, k + 1) <==> a[0] == b[0] && DiffersAt(lt, a[1..], b[1..], k)
  {
    if k + 1 <= |a| && k + 1 < |b| {
      assert a[..k + 1] == [a[0]] + a[1..][..k] && b[..k + 1] == [b[0]] + b[1..][..k];
      if a[..k + 1] == b[..k + 1] {
        assert a[..k + 1][0] == b[..k + 1][0] && a[..k + 1][1..] == b[..k + 1][1..];
      }
    }
  }

  lemma FirstDifferenceSteps<T>(lt: (T, T) -> bool, a: seq<T>, b: seq<T>)
    requires |a| > 0 && |b| > 0
    ensures FirstDifference(lt, a, b) <==> lt(a[0], b[0]) || (a[0] == b[0] && FirstDifference(lt, a[1..], b[1..]))
  {
    if lt(a[0], b[0]) {
      assert DiffersAt(lt, a, b, 0);
    }
    if a[0] == b[0] && FirstDifference(lt, a[1..], b[1..]) {
      var k: nat :| DiffersAt(lt, a[1..], b[1..], k);
      DiffersLater(lt, a, b, k);
    }
    if FirstDifference(lt, a, b) {
      var k: nat :| DiffersAt(lt, a, b, k);
      if k > 0 {
        DiffersLater(lt, a, b, k - 1);
      }
    }
  }

  /** Comparing from left to right finds the first difference. */
  lemma {:induction false} LexIsFirstDifference<T(!new)>(lt: (T, T) -> bool, dom: T -> bool, a: seq<T>, b: seq<T>)
    requires StrictTotal(lt, dom) && Within(dom, a) && Within(dom, b)
    ensures LexLess(lt, a, b) <==> FirstDifference(lt, a, b)
  {
    if |a| == 0 {
      assert |b| > 0 ==> DiffersAt(lt, a, b, 0);
    } else if |b| > 0 {
      assert dom(a[0]) && dom(b[0]);
      FirstDifferenceSteps(lt, a, b);
      LexIsFirstDifference(lt, dom, a[1..], b[1..]);
    }
  }
}
