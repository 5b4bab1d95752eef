/** What became of each probe of a latency test, and the statistics of that. */
module Probes {
  import opened Wrappers

  datatype ProbeEvent = Failed(message: string) | Connected(ms: int)

  /** One entry per launched probe: None while it is open, then the event that ended it. */
  type Outcomes = seq<Option<ProbeEvent>>

  predicate IsOpen(o: Option<ProbeEvent>) {
    o.None?
  }

  predicate IsFailure(o: Option<ProbeEvent>) {
    o.Some? && o.value.Failed?
  }

  predicate IsSuccess(o: Option<ProbeEvent>) {
    o.Some? && o.value.Connected?
  }

  function Count(p: Option<ProbeEvent> -> bool, probes: Outcomes): (n: nat)
    ensures n <= |probes|
  {
    if probes == [] then 0 else Count(p, probes[..|probes| - 1]) + if p(probes[|probes| - 1]) then 1 else 0
  }

  function Open(probes: Outcomes): nat {
    Count(IsOpen, probes)
  }

  function Failures(probes: Outcomes): nat {
    Count(IsFailure, probes)
  }

  function Successes(probes: Outcomes): nat {
    Count(IsSuccess, probes)
  }

  function Min(x: int, y: int): int {
    if y < x then y else x
  }

  function Max(x: int, y: int): int {
    if x < y then y else x
  }

  /** The sum of the times of the successful probes. */
  function Total(probes: Outcomes): int {
    if probes == [] then 0
    else
      var o := probes[|probes| - 1];
      Total(probes[..|probes| - 1]) + if IsSuccess(o) then o.value.ms else 0
  }

  /** The least of start and the times of the successful probes. */
  function Best(start: int, probes: Outcomes): int {
    if probes == [] then start
    else
      var o := probes[|probes| - 1];
      var b := Best(start, probes[..|probes| - 1]);
      if IsSuccess(o) then Min(b, o.value.ms) else b
  }

  /** The greatest of start and the times of the successful probes. */
  function Worst(start: int, probes: Outcomes): int {
    if probes == [] then start
    else
      var o := probes[|probes| - 1];
      var w := Worst(start, probes[..|probes| - 1]);
      if IsSuccess(o) then Max(w, o.value.ms) else w
  }

  /** Integer division as in C++: the quotient is truncated towards zero. */
  function Truncated(a: int, b: int): int
    requires b > 0
  {
    if a >= 0 then a / b else -((-a) / b)
  }

  // --------------------------------------------------------------- counting

  lemma {:induction false} EveryProbeCounts(probes: Outcomes)
    ensures Failures(probes) + Successes(probes) + Open(probes) == |probes|
  {
    if probes == [] {
    } else {
      EveryProbeCounts(probes[..|probes| - 1]);
    }
  }

  lemma LaunchCounts(probes: Outcomes)
    ensures var more := probes + [None];
            && Failures(more) == Failures(probes) && Successes(more) == Successes(probes)
            && Open(more) == Open(probes) + 1 && Total(more) == Total(probes)
            && (forall s :: Best(s, more) == Best(s, probes) && Worst(s, more) == Worst(s, probes))
  {
    assert (probes + [None])[..|probes|] == probes;
  }

  lemma {:induction false} UpdateCount(p: Option<ProbeEvent> -> bool, probes: Outcomes, k: nat, o: Option<ProbeEvent>)
    requires k < |probes|
    ensures Count(p, probes[k := o]) ==
            Count(p, probes) - (if p(probes[k]) then 1 else 0) + if p(o) then 1 else 0
  {
    var n := |probes| - 1;
    if k < n {
      UpdateCount(p, probes[..n], k, o);
      assert probes[k := o][..n] == probes[..n][k := o];
    } else {
      assert probes[k := o][..n] == probes[..n];
    }
  }

  /** Ending an open probe moves it from the open ones to the ones of its kind. */
  lemma EndCounts(probes: Outcomes, k: nat, e: ProbeEvent)
    requires k < |probes| && probes[k].None?
    ensures var after := probes[k := Some(e)];
            && Open(probes) > 0 && Open(after) == Open(probes) - 1
            && Failures(after) == Failures(probes) + (if e.Failed? then 1 else 0)
            && Successes(after) == Successes(probes) + if e.Connected? then 1 else 0
  {
    UpdateCount(IsOpen, probes, k, Some(e));
    UpdateCount(IsFailure, probes, k, Some(e));
    UpdateCount(IsSuccess, probes, k, Some(e));
  }

  /** The running sum, minimum and maximum take in the time of the probe that ended. */
  lemma {:induction false} EndTimes(start: int, probes: Outcomes, k: nat, e: ProbeEvent)
    requires k < |probes| && probes[k].None?
    ensures var after := probes[k := Some(e)];
            && Total(after) == Total(probes) + (if e.Connected? then e.ms else 0)
            && Best(start, after) == (if e.Connected? then Min(Best(start, probes), e.ms) else Best(start, probes))
            && Worst(start, after) == if e.Connected? then Max(Worst(start, probes), e.ms) else Worst(start, probes)
  {
    var n := |probes| - 1;
    var after := probes[k := Some(e)];
    if k < n {
      EndTimes(start, probes[..n], k, e);
      assert after[..n] == probes[..n][k := Some(e)];
    } else {
      assert after[..n] == probes[..n];
    }
  }

  lemma {:induction false} NoneOpen(probes: Outcomes)
    ensures Open(probes) == 0 <==> forall k :: 0 <= k < |probes| ==> probes[k].Some?
  {
    if probes == [] {
    } else {
      var n := |probes| - 1;
      NoneOpen(probes[..n]);
      assert forall k :: 0 <= k < n ==> probes[..n][k] == probes[k];
    }
  }

  // ------------------------------------------------------------- statistics

  /** Best and worst bound every successful time, and one of each is reached or the start. */
  lemma {:induction false} BestAndWorst(start: int, probes: Outcomes)
    ensures forall k :: 0 <= k < |probes| && IsSuccess(probes[k]) ==>
              Best(start, probes) <= probes[k].value.ms <= Worst(start, probes)
    ensures Best(start, probes) == start ||
            exists k :: 0 <= k < |probes| && IsSuccess(probes[k]) && probes[k].value.ms == Best(start, probes)
    ensures Worst(start, probes) == start ||
            exists k :: 0 <= k < |probes| && IsSuccess(probes[k]) && probes[k].value.ms == Worst(start, probes)
    ensures Best(start, probes) <= start <= Worst(start, probes)
  {
    if probes == [] {
    } else {
      var n := |probes| - 1;
      var front := probes[..n];
      BestAndWorst(start, front);
      assert forall k :: 0 <= k < n ==> front[k] == probes[k];
      if Best(start, front) != start {
        var k :| 0 <= k < n && IsSuccess(front[k]) && front[k].value.ms == Best(start, front);
        assert IsSuccess(probes[k]) && probes[k].value.ms == Best(start, front);
      }
      if Worst(start, front) != start {
        var k :| 0 <= k < n && IsSuccess(front[k]) && front[k].value.ms == Worst(start, front);
        assert IsSuccess(probes[k]) && probes[k].value.ms == Worst(start, front);
      }
    }
  }

  lemma Distribute(c: nat, x: int)
    ensures (c + 1) * x == c * x + x
  {
  }

  lemma {:induction false} TotalBounds(probes: Outcomes, lo: int, hi: int)
    requires forall k :: 0 <= k < |probes| && IsSuccess(probes[k]) ==> lo <= probes[k].value.ms <= hi
    ensures Successes(probes) * lo <= Total(probes) <= Successes(probes) * hi
  {
    if probes == [] {
    } else {
      var n := |probes| - 1;
      assert forall k :: 0 <= k < n ==> probes[..n][k] == probes[k];
      TotalBounds(probes[..n], lo, hi);
      Distribute(Successes(probes[..n]), lo);
      Distribute(Successes(probes[..n]), hi);
    }
  }

  /** The quotient the language defines: its remainder has the sign of the total, and is less than
      the count. */
  predicate IsQuotient(q: int, total: int, count: int) {
    && (total >= 0 ==> count * q <= total < count * q + count)
    && (total < 0 ==> count * q - count < total <= count * q)
  }

  /** The truncated quotient is off by less than one, either way. */
  lemma TruncatedIsClose(total: int, count: int)
    requires count > 0
    ensures IsQuotient(Truncated(total, count), total, count)
    ensures count * Truncated(total, count) - count < total < count * Truncated(total, count) + count
  {
    if total < 0 {
      var p := (-total) / count;
      assert -total == count * p + (-total) % count;
      assert count * (-p) == -(count * p);
    } else {
      assert total == count * (total / count) + total % count;
    }
  }

  lemma Scaled(c: nat, x: int, y: int)
    requires x <= y
    ensures c * x <= c * y
  {
  }

  lemma Cancel(c: nat, x: int, y: int)
    requires c > 0 && c * x < c * y + c
    ensures x <= y
  {
    if x > y {
      Scaled(c, y + 1, x);
    }
  }

  lemma QuotientBounds(total: int, count: int, lo: int, hi: int)
    requires count > 0 && count * lo <= total <= count * hi
    ensures lo <= Truncated(total, count) <= hi
  {
    TruncatedIsClose(total, count);
    Cancel(count, lo, Truncated(total, count));
    Cancel(count, Truncated(total, count), hi);
  }

  /** The mean lies between the best and the worst, whatever the times and the starting values. */
  lemma MeanBetween(best: int, worst: int, probes: Outcomes)
    requires Successes(probes) > 0
    ensures Best(best, probes) <= Truncated(Total(probes), Successes(probes)) <= Worst(worst, probes)
  {
    var lo, hi := Best(best, probes), Worst(worst, probes);
    BestAndWorst(best, probes);
    BestAndWorst(worst, probes);
    TotalBounds(probes, lo, hi);
    QuotientBounds(Total(probes), Successes(probes), lo, hi);
  }
}
