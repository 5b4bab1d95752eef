/** LatencyTestThread: the object that owns the queue and whose timer callback drains it. */
module LatencyThreads {
  import opened Probes
  import opened Latency
  import opened LatencyQueue
  import opened RealPings
  import opened TCPings

  ghost function Views(testers: seq<TCPing>): seq<Ping>
    reads testers
  {
    if testers == [] then []
    else Views(testers[..|testers| - 1]) + [testers[|testers| - 1].View()]
  }

  lemma {:induction false} ViewsConcat(xs: seq<TCPing>, ys: seq<TCPing>)
    ensures Views(xs + ys) == Views(xs) + Views(ys)
  {
    if ys == [] {
      assert xs + ys == xs;
    } else {
      var n := |ys| - 1;
      ViewsConcat(xs, ys[..n]);
      assert (xs + ys)[..|xs + ys| - 1] == xs + ys[..n];
    }
  }

  ghost function RealViews(realTesters: seq<RealPing>): seq<Real>
    reads realTesters
  {
    if realTesters == [] then []
    else RealViews(realTesters[..|realTesters| - 1]) + [realTesters[|realTesters| - 1].View()]
  }

  lemma {:induction false} RealViewsConcat(xs: seq<RealPing>, ys: seq<RealPing>)
    ensures RealViews(xs + ys) == RealViews(xs) + RealViews(ys)
  {
    if ys == [] {
      assert xs + ys == xs;
    } else {
      var n := |ys| - 1;
      RealViewsConcat(xs, ys[..n]);
      assert (xs + ys)[..|xs + ys| - 1] == xs + ys[..n];
    }
  }

  lemma ViewsMore(xs: seq<TCPing>, x: TCPing)
    ensures Views(xs + [x]) == Views(xs) + [x.View()]
  {
    assert (xs + [x])[..|xs|] == xs;
  }

  lemma RealViewsMore(xs: seq<RealPing>, x: RealPing)
    ensures RealViews(xs + [x]) == RealViews(xs) + [x.View()]
  {
    assert (xs + [x])[..|xs|] == xs;
  }

  class LatencyThread {
    const errorValue: int
    var isStop: bool
    var closed: bool
    var restarts: nat
    var requests: seq<Request>
    var testers: seq<TCPing>
    var realTesters: seq<RealPing>
    var foreign: nat
    ghost var accepted: seq<seq<Request>>
    ghost var dispatched: seq<Request>
    ghost var discarded: seq<Request>

    /** The state of the machine, seen while no push is in flight. */
    ghost function View(): State
      reads this, testers, realTesters
    {
      State(errorValue, isStop, closed, restarts, [], accepted, requests, dispatched, discarded,
            Views(testers), RealViews(realTesters), foreign)
    }

    constructor (errorValue: int)
      ensures View() == Initial(errorValue)
    {
      this.errorValue := errorValue;
      isStop, closed := false, false;
      requests, testers, realTesters := [], [], [];
      restarts, foreign := 0, 0;
      accepted, dispatched, discarded := [], [], [];
    }

    method StopLatencyTest()
      modifies this
      ensures View() == Acted(old(View()), Stop) && testers == old(testers) && realTesters == old(realTesters)
    {
      isStop := true;
    }

    /** start of a thread whose loop has closed: a new loop, and isStop as it is. */
    method StartAgain()
      requires closed
      modifies this
      ensures View() == Acted(old(View()), Restart) && testers == old(testers) && realTesters == old(realTesters)
    {
      closed := false;
      restarts := restarts + 1;
    }

    /** A push that is not interrupted: the check of isStop, then the locked append. */
    method PushRequest(id: string, info: string -> (string, int), totalTestCount: int, kind: Method)
      modifies this
      ensures testers == old(testers) && realTesters == old(realTesters)
      ensures View() == Acted(Acted(old(View()), Check([NewRequest(id, info, totalTestCount, kind)])), Append(0))
      ensures old(isStop) ==> requests == old(requests)
      ensures !old(isStop) ==>
                && |requests| == |old(requests)| + 1 && requests[..|old(requests)|] == old(requests)
                && var last := requests[|old(requests)|];
                   && last.id == id && last.host == info(id).0 && last.port == info(id).1
                   && last.totalCount == totalTestCount && last.kind == kind
    {
      PushedAtOnce(View(), [NewRequest(id, info, totalTestCount, kind)]);
      if isStop {
        return;
      }
      var request := NewRequest(id, info, totalTestCount, kind);
      requests := requests + [request];
      accepted := accepted + [[request]];
    }

    method PushRequests(ids: seq<string>, info: string -> (string, int), totalTestCount: int, kind: Method)
      modifies this
      ensures testers == old(testers) && realTesters == old(realTesters)
      ensures View() == Acted(Acted(old(View()), Check(NewRequests(ids, info, totalTestCount, kind))), Append(0))
      ensures old(isStop) ==> requests == old(requests)
      ensures !old(isStop) ==> Queued(old(requests), requests, ids, info, totalTestCount, kind)
    {
      PushedAtOnce(View(), NewRequests(ids, info, totalTestCount, kind));
      RequestsBehind(requests, ids, info, totalTestCount, kind);
      if isStop {
        return;
      }
      AppendAll(ids, info, totalTestCount, kind);
    }

    /** The loop under the lock. */
    method AppendAll(ids: seq<string>, info: string -> (string, int), totalTestCount: int, kind: Method)
      modifies `requests, `accepted
      ensures requests == old(requests) + NewRequests(ids, info, totalTestCount, kind)
      ensures View() == old(View()).(queue := requests,
                                     accepted := old(accepted) + [NewRequests(ids, info, totalTestCount, kind)])
    {
      for i := 0 to |ids|
        modifies `requests
        invariant requests == old(requests) + NewRequests(ids[..i], info, totalTestCount, kind)
      {
        assert ids[..i + 1][..i] == ids[..i];
        requests := requests + [NewRequest(ids[i], info, totalTestCount, kind)];
      }
      assert ids[..|ids|] == ids;
      accepted := accepted + [NewRequests(ids, info, totalTestCount, kind)];
    }

    /** uv_walk with a callback that counts the handles that are not closing. */
    method CountHandles() returns (count: nat)
      ensures count == OpenHandles(View())
    {
      var probes := CountProbes();
      var others := CountRealHandles();
      count := 1 + foreign + probes + others;
    }

    method CountProbes() returns (count: nat)
      ensures count == OpenProbes(Views(testers))
    {
      count := 0;
      for i := 0 to |testers|
        invariant count == OpenProbes(Views(testers[..i]))
      {
        var probes := testers[i].probes;
        for k := 0 to |probes|
          invariant count == OpenProbes(Views(testers[..i])) + Open(probes[..k])
        {
          assert probes[..k + 1][..k] == probes[..k];
          if IsOpen(probes[k]) {
            count := count + 1;
          }
        }
        assert probes[..|probes|] == probes;
        assert testers[..i + 1][..i] == testers[..i];
      }
      assert testers[..|testers|] == testers;
    }

    method CountRealHandles() returns (count: nat)
      ensures count == RealHandles(RealViews(realTesters))
    {
      count := 0;
      for i := 0 to |realTesters|
        invariant count == RealHandles(RealViews(realTesters[..i]))
      {
        assert realTesters[..i + 1][..i] == realTesters[..i];
        count := count + (if realTesters[i].timer then 1 else 0) + realTesters[i].sockets;
      }
      assert realTesters[..|realTesters|] == realTesters;
    }

    method NewTester(request: Request, o: Oracle) returns (ptr: TCPing)
      ensures fresh(ptr) && ptr.View() == NewTest(errorValue, request, o)
    {
      ptr := new TCPing(request, errorValue, o.garbage);
      ptr.Start(o.literal, o.failsAtOnce, o.sync);
    }

    method NewRealTester(request: Request, o: Oracle) returns (ptr: RealPing)
      ensures fresh(ptr) && ptr.View() == NewRealTest(errorValue, request, o)
    {
      ptr := new RealPing(request, errorValue, o.garbage);
      ptr.Start(o.proxied);
    }

    /** One turn of the loop over the queue. */
    method StartTester(request: Request, o: Oracle, started: seq<TCPing>, realStarted: seq<RealPing>)
      returns (more: seq<TCPing>, realMore: seq<RealPing>)
      ensures forall t :: t in more ==> t in started || fresh(t)
      ensures forall t :: t in realMore ==> t in realStarted || fresh(t)
      ensures Views(more) == Views(started) + if request.kind == TCPING then [NewTest(errorValue, request, o)] else []
      ensures RealViews(realMore) ==
              RealViews(realStarted) + if request.kind == REALPING then [NewRealTest(errorValue, request, o)] else []
    {
      more, realMore := started, realStarted;
      if request.kind == TCPING {
        var ptr := NewTester(request, o);
        ViewsMore(started, ptr);
        more := more + [ptr];
      } else if request.kind == REALPING {
        var ptr := NewRealTester(request, o);
        RealViewsMore(realStarted, ptr);
        realMore := realMore + [ptr];
      }
    }

    /** One new tester for every queued TCP and proxy request, started in turn. */
    method StartTesters(oracles: seq<Oracle>) returns (started: seq<TCPing>, realStarted: seq<RealPing>)
      ensures forall t :: t in started ==> fresh(t)
      ensures Views(started) == Tests(errorValue, requests, oracles)
      ensures forall t :: t in realStarted ==> fresh(t)
      ensures RealViews(realStarted) == RealTests(errorValue, requests, oracles)
    {
      started, realStarted := [], [];
      for i := 0 to |requests|
        invariant (forall t :: t in started ==> fresh(t)) && (forall t :: t in realStarted ==> fresh(t))
        invariant Views(started) == Tests(errorValue, requests[..i], oracles)
        invariant RealViews(realStarted) == RealTests(errorValue, requests[..i], oracles)
      {
        OneMoreTest(errorValue, requests, oracles, i);
        started, realStarted := StartTester(requests[i], OracleAt(oracles, i), started, realStarted);
      }
      assert requests[..|requests|] == requests;
    }

    method DropQueue()
      modifies `requests, `discarded
      ensures View() == old(View()).(queue := [], discarded := old(discarded + requests))
    {
      discarded := discarded + requests;
      requests := [];
    }

    method CloseIfAlone()
      modifies `closed
      ensures View() == old(View()).(closed := OpenHandles(old(View())) == 1)
    {
      var count := CountHandles();
      SetClosed(count == 1);
    }

    method SetClosed(alone: bool)
      modifies `closed
      ensures View() == old(View()).(closed := alone)
    {
      closed := alone;
    }

    /** The timer callback once stopped: drop the queue, and close when the timer is alone. */
    method Discard()
      requires isStop
      modifies this
      ensures View() == Ticked(old(View()), [])
      ensures testers == old(testers) && realTesters == old(realTesters)
    {
      DropQueue();
      CloseIfAlone();
    }

    /** The loop now runs these testers; the queue is done with. */
    method Adopt(started: seq<TCPing>, realStarted: seq<RealPing>)
      modifies `testers, `realTesters, `dispatched, `requests
      ensures testers == old(testers) + started && realTesters == old(realTesters) + realStarted
      ensures View() == old(View()).(queue := [],
                                     dispatched := old(dispatched + requests),
                                     pings := old(Views(testers)) + old(Views(started)),
                                     reals := old(RealViews(realTesters)) + old(RealViews(realStarted)))
    {
      ViewsConcat(testers, started);
      RealViewsConcat(realTesters, realStarted);
      testers, realTesters := testers + started, realTesters + realStarted;
      dispatched := dispatched + requests;
      requests := [];
    }

    /** The timer callback before that: start every queued request and empty the queue. */
    method Dispatch(oracles: seq<Oracle>)
      requires !isStop
      modifies this
      ensures View() == Ticked(old(View()), oracles)
      ensures old(testers) <= testers && old(realTesters) <= realTesters
    {
      if requests == [] {
        return;
      }
      var started, realStarted := StartTesters(oracles);
      Adopt(started, realStarted);
    }

    /** The body of the timer callback; a closed loop calls it no more. */
    method OnTimer(oracles: seq<Oracle>)
      requires !closed
      modifies this
      ensures View() == Acted(old(View()), Tick(oracles))
      ensures old(testers) <= testers && old(realTesters) <= realTesters
    {
      if isStop {
        Discard();
      } else {
        Dispatch(oracles);
      }
    }
  }

  function NewRequest(id: string, info: string -> (string, int), totalTestCount: int, kind: Method): Request {
    var (host, port) := info(id);
    Request(id, host, port, totalTestCount, kind)
  }

  function NewRequests(ids: seq<string>, info: string -> (string, int), totalTestCount: int, kind: Method): seq<Request>
  {
    if ids == [] then []
    else NewRequests(ids[..|ids| - 1], info, totalTestCount, kind) +
         [NewRequest(ids[|ids| - 1], info, totalTestCount, kind)]
  }

  lemma {:induction false} NewRequestsAt(
    ids: seq<string>, info: string -> (string, int), totalTestCount: int, kind: Method)
    ensures |NewRequests(ids, info, totalTestCount, kind)| == |ids|
    ensures forall k :: 0 <= k < |ids| ==>
              NewRequests(ids, info, totalTestCount, kind)[k] ==
              Request(ids[k], info(ids[k]).0, info(ids[k]).1, totalTestCount, kind)
  {
    if ids == [] {
    } else {
      NewRequestsAt(ids[..|ids| - 1], info, totalTestCount, kind);
    }
  }

  /** The queue has grown by one request for each id, in order and with what was asked for. */
  predicate Queued(before: seq<Request>, after: seq<Request>,
                   ids: seq<string>, info: string -> (string, int), totalTestCount: int, kind: Method) {
    && |after| == |before| + |ids| && after[..|before|] == before
    && forall k :: 0 <= k < |ids| ==>
         var added := after[|before| + k];
         && added.id == ids[k] && added.host == info(ids[k]).0 && added.port == info(ids[k]).1
         && added.totalCount == totalTestCount && added.kind == kind
  }

  lemma RequestsBehind(
    before: seq<Request>, ids: seq<string>, info: string -> (string, int), totalTestCount: int, kind: Method)
    ensures Queued(before, before + NewRequests(ids, info, totalTestCount, kind), ids, info, totalTestCount, kind)
  {
    NewRequestsAt(ids, info, totalTestCount, kind);
  }
}
