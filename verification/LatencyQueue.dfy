/** The request queue, the timer tick that drains it, and the tests it has started, as a state
    machine over the steps of the pushing threads, the loop thread and the environment. */
module LatencyQueue {
  import opened Wrappers
  import opened Probes
  import opened Latency
  import opened PingRuns
  import opened RealPings

  /** What the environment does to one test while it starts. */
  datatype Oracle = Oracle(literal: Option<Address>, failsAtOnce: bool, sync: Outcomes, garbage: int, proxied: bool)

  /** The shared state, with its history: what was appended, batch by batch, and what a tick has
      dispatched or discarded.  A batch in flight belongs to a push that has seen isStop unset
      and has not yet appended.  foreign counts the open handles of the ICMP tests; restarts, how
      often the thread was started again after its loop had closed. */
  datatype State = State(
    errorValue: int,
    isStop: bool,
    closed: bool,
    restarts: nat,
    inflight: seq<seq<Request>>,
    accepted: seq<seq<Request>>,
    queue: seq<Request>,
    dispatched: seq<Request>,
    discarded: seq<Request>,
    pings: seq<Ping>,
    reals: seq<Real>,
    foreign: nat)

  datatype Action =
    | Check(batch: seq<Request>)
    | Append(i: nat)
    | Stop
    | Tick(oracles: seq<Oracle>)
    | Event(i: nat, step: Step)
    | Callback(i: nat, call: Call)
    | Foreign(n: nat)
    | Restart

  function Initial(errorValue: int): State {
    State(errorValue, false, false, 0, [], [], [], [], [], [], [], 0)
  }

  function OracleAt(oracles: seq<Oracle>, i: nat): Oracle {
    if i < |oracles| then oracles[i] else Oracle(None, false, [], 0, false)
  }

  function NewTest(errorValue: int, request: Request, o: Oracle): Ping {
    Started(NewPing(request, errorValue, o.garbage), o.literal, o.failsAtOnce, o.sync)
  }

  function NewRealTest(errorValue: int, request: Request, o: Oracle): Real {
    RealStarted(NewReal(request, errorValue, o.garbage), o.proxied)
  }

  /** The TCP tests a tick starts for these requests. */
  function Tests(errorValue: int, requests: seq<Request>, oracles: seq<Oracle>): seq<Ping> {
    if requests == [] then []
    else
      var n := |requests| - 1;
      Tests(errorValue, requests[..n], oracles) +
      if requests[n].kind == TCPING then [NewTest(errorValue, requests[n], OracleAt(oracles, n))] else []
  }

  /** The proxy tests a tick starts for these requests. */
  function RealTests(errorValue: int, requests: seq<Request>, oracles: seq<Oracle>): seq<Real> {
    if requests == [] then []
    else
      var n := |requests| - 1;
      RealTests(errorValue, requests[..n], oracles) +
      if requests[n].kind == REALPING then [NewRealTest(errorValue, requests[n], OracleAt(oracles, n))] else []
  }

  lemma OneMoreTest(errorValue: int, requests: seq<Request>, oracles: seq<Oracle>, i: nat)
    requires i < |requests|
    ensures var q, o := requests[i], OracleAt(oracles, i);
            && Tests(errorValue, requests[..i + 1], oracles) ==
               Tests(errorValue, requests[..i], oracles) +
               (if q.kind == TCPING then [NewTest(errorValue, q, o)] else [])
            && RealTests(errorValue, requests[..i + 1], oracles) ==
               RealTests(errorValue, requests[..i], oracles) +
               if q.kind == REALPING then [NewRealTest(errorValue, q, o)] else []
  {
    assert requests[..i + 1][..i] == requests[..i];
  }

  function OpenProbes(pings: seq<Ping>): nat {
    if pings == [] then 0 else OpenProbes(pings[..|pings| - 1]) + Open(pings[|pings| - 1].probes)
  }

  function RealHandles(reals: seq<Real>): nat {
    if reals == [] then 0 else RealHandles(reals[..|reals| - 1]) + Handles(reals[|reals| - 1])
  }

  /** The handles uv_walk finds that are not closing; the tick's own timer is one. */
  function OpenHandles(s: State): nat {
    1 + s.foreign + OpenProbes(s.pings) + RealHandles(s.reals)
  }

  function Ticked(s: State, oracles: seq<Oracle>): State {
    if s.isStop then
      s.(discarded := s.discarded + s.queue, queue := [], closed := OpenHandles(s) == 1)
    else
      s.(dispatched := s.dispatched + s.queue,
         pings := s.pings + Tests(s.errorValue, s.queue, oracles),
         reals := s.reals + RealTests(s.errorValue, s.queue, oracles),
         queue := [])
  }

  function Checked(s: State, batch: seq<Request>): State {
    if s.isStop then s else s.(inflight := s.inflight + [batch])
  }

  function Appended(s: State, i: nat): State {
    if i >= |s.inflight| then s
    else
      var batch := s.inflight[i];
      s.(inflight := s.inflight[..i] + s.inflight[i + 1..],
         accepted := s.accepted + [batch],
         queue := s.queue + batch)
  }

  /** The tests live in the first loop: a later one starts stopped, and dispatches none. */
  predicate Live(s: State) {
    !s.closed && s.restarts == 0
  }

  /** The loop delivers events until it is closed; a push may come at any time.  The thread is
      started again only once its loop has closed, with isStop as it is. */
  function Acted(s: State, a: Action): State {
    match a
    case Check(batch) => Checked(s, batch)
    case Append(i) => Appended(s, i)
    case Stop => s.(isStop := true)
    case Tick(oracles) => if s.closed then s else Ticked(s, oracles)
    case Event(i, step) =>
      if Live(s) && i < |s.pings| then s.(pings := s.pings[i := Next(s.pings[i], step)]) else s
    case Callback(i, call) =>
      if Live(s) && i < |s.reals| then s.(reals := s.reals[i := Answered(s.reals[i], call)]) else s
    case Foreign(n) => if Live(s) then s.(foreign := n) else s
    case Restart => if s.closed then s.(closed := false, restarts := s.restarts + 1) else s
  }

  /** A push that is not interrupted. */
  lemma PushedAtOnce(s: State, batch: seq<Request>)
    requires s.inflight == []
    ensures Acted(Acted(s, Check(batch)), Append(0)) ==
            if s.isStop then s else s.(accepted := s.accepted + [batch], queue := s.queue + batch)
  {
    assert Checked(s, batch) == if s.isStop then s else s.(inflight := [batch]);
  }

  function Execution(s: State, actions: seq<Action>): State {
    if actions == [] then s
    else Acted(Execution(s, actions[..|actions| - 1]), actions[|actions| - 1])
  }

  // -------------------------------------------------------------- conservation

  function Flat(batches: seq<seq<Request>>): seq<Request> {
    if batches == [] then [] else Flat(batches[..|batches| - 1]) + batches[|batches| - 1]
  }

  lemma {:induction false} FlatConcat(xs: seq<seq<Request>>, ys: seq<seq<Request>>)
    ensures Flat(xs + ys) == Flat(xs) + Flat(ys)
  {
    if ys == [] {
      assert xs + ys == xs;
      assert Flat(xs) + [] == Flat(xs);
    } else {
      var n := |ys| - 1;
      FlatConcat(xs, ys[..n]);
      assert (xs + ys)[..|xs + ys| - 1] == xs + ys[..n];
      assert (Flat(xs) + Flat(ys[..n])) + ys[n] == Flat(xs) + (Flat(ys[..n]) + ys[n]);
    }
  }

  /** The first i batches are dispatched, the next up to j discarded, the others queued: no batch
      is split, and nothing is lost, doubled or reordered. */
  predicate ConservedAt(s: State, i: nat, j: nat) {
    && i <= j <= |s.accepted|
    && s.dispatched == Flat(s.accepted[..i])
    && s.discarded == Flat(s.accepted[i..j])
    && s.queue == Flat(s.accepted[j..])
    && (i < j ==> s.isStop)
    && (s.discarded != [] ==> s.isStop)
  }

  function OfKind(requests: seq<Request>, kind: Method): seq<Request> {
    if requests == [] then []
    else
      var n := |requests| - 1;
      OfKind(requests[..n], kind) + if requests[n].kind == kind then [requests[n]] else []
  }

  predicate GoodTest(p: Ping, errorValue: int) {
    Settled(p) && p.phase != Created && p.errorValue == errorValue
  }

  predicate GoodReal(r: Real, errorValue: int) {
    RealSettled(r) && r.ping.errorValue == errorValue
  }

  predicate PingsAreGood(s: State) {
    var requests := OfKind(s.dispatched, TCPING);
    && |s.pings| == |requests|
    && forall i :: 0 <= i < |s.pings| ==> GoodTest(s.pings[i], s.errorValue) && s.pings[i].request == requests[i]
  }

  predicate RealsAreGood(s: State) {
    var requests := OfKind(s.dispatched, REALPING);
    && |s.reals| == |requests|
    && forall i :: 0 <= i < |s.reals| ==> GoodReal(s.reals[i], s.errorValue) && s.reals[i].ping.request == requests[i]
  }

  /** One settled test for every dispatched request, in order; once the first loop has closed, the
      thread is stopped and no test has a handle left. */
  predicate TestsAreGood(s: State) {
    PingsAreGood(s) && RealsAreGood(s) && (!Live(s) ==> s.isStop && OpenHandles(s) == 1)
  }

  lemma {:induction false} OfKindConcat(xs: seq<Request>, ys: seq<Request>, kind: Method)
    ensures OfKind(xs + ys, kind) == OfKind(xs, kind) + OfKind(ys, kind)
  {
    if ys == [] {
      assert xs + ys == xs;
    } else {
      var n := |ys| - 1;
      OfKindConcat(xs, ys[..n], kind);
      assert (xs + ys)[..|xs + ys| - 1] == xs + ys[..n];
    }
  }

  lemma NewTestIsGood(errorValue: int, request: Request, o: Oracle)
    ensures GoodTest(NewTest(errorValue, request, o), errorValue) && NewTest(errorValue, request, o).request == request
  {
    var p := NewPing(request, errorValue, o.garbage);
    NextSettles(p, Start(o.literal, o.failsAtOnce, o.sync));
    StartLeaves(p, o);
  }

  lemma StartLeaves(p: Ping, o: Oracle)
    ensures Started(p, o.literal, o.failsAtOnce, o.sync).phase != Created
  {
    LaunchedPhase(Reset(p, o.literal).(phase := Probing), o.sync);
  }

  lemma {:induction false} LaunchedPhase(p: Ping, sync: Outcomes)
    ensures Launched(p, sync).phase == p.phase
    decreases p.request.totalCount - p.data.totalCount
  {
    if p.data.totalCount < p.request.totalCount {
      LaunchedPhase(LaunchedOne(p, sync), sync);
    }
  }

  lemma NextStaysGood(p: Ping, errorValue: int, step: Step)
    requires GoodTest(p, errorValue)
    ensures GoodTest(Next(p, step), errorValue) && Next(p, step).request == p.request
  {
    NextSettles(p, step);
    if step.Dns? && step.event.Addresses? {
      LaunchedPhase(Aimed(p, step.event.list), step.event.sync);
    }
  }

  lemma {:induction false} TestsAreNew(errorValue: int, requests: seq<Request>, oracles: seq<Oracle>)
    ensures var ts, rs := Tests(errorValue, requests, oracles), OfKind(requests, TCPING);
            |ts| == |rs| && forall i :: 0 <= i < |ts| ==> GoodTest(ts[i], errorValue) && ts[i].request == rs[i]
  {
    if requests == [] {
    } else {
      var n := |requests| - 1;
      TestsAreNew(errorValue, requests[..n], oracles);
      NewTestIsGood(errorValue, requests[n], OracleAt(oracles, n));
    }
  }

  lemma {:induction false} RealTestsAreNew(errorValue: int, requests: seq<Request>, oracles: seq<Oracle>)
    ensures var ts, rs := RealTests(errorValue, requests, oracles), OfKind(requests, REALPING);
            |ts| == |rs| && forall i :: 0 <= i < |ts| ==> GoodReal(ts[i], errorValue) && ts[i].ping.request == rs[i]
  {
    if requests == [] {
    } else {
      var n := |requests| - 1;
      var o := OracleAt(oracles, n);
      RealTestsAreNew(errorValue, requests[..n], oracles);
      StartSettles(requests[n], errorValue, o.garbage, o.proxied);
    }
  }

  lemma ActedKeepsPings(s: State, a: Action)
    requires PingsAreGood(s)
    ensures PingsAreGood(Acted(s, a))
  {
    match a
    case Tick(oracles) =>
      OfKindConcat(s.dispatched, s.queue, TCPING);
      TestsAreNew(s.errorValue, s.queue, oracles);
    case Event(i, step) =>
      if Live(s) && i < |s.pings| {
        NextStaysGood(s.pings[i], s.errorValue, step);
      }
    case _ =>
  }

  lemma ActedKeepsReals(s: State, a: Action)
    requires RealsAreGood(s)
    ensures RealsAreGood(Acted(s, a))
  {
    match a
    case Tick(oracles) =>
      OfKindConcat(s.dispatched, s.queue, REALPING);
      RealTestsAreNew(s.errorValue, s.queue, oracles);
    case Callback(i, call) =>
      if Live(s) && i < |s.reals| {
        AnsweredKeeps(s.reals[i], call);
      }
    case _ =>
  }

  lemma ActedStaysGood(s: State, a: Action)
    requires TestsAreGood(s)
    ensures TestsAreGood(Acted(s, a))
  {
    ActedKeepsPings(s, a);
    ActedKeepsReals(s, a);
  }

  lemma AppendedConserves(s: State, i: nat, j: nat, k: nat)
    requires ConservedAt(s, i, j) && k < |s.inflight|
    ensures ConservedAt(Appended(s, k), i, j)
  {
    var batch := s.inflight[k];
    var more := s.accepted + [batch];
    assert more[..i] == s.accepted[..i] && more[i..j] == s.accepted[i..j];
    assert more[j..] == s.accepted[j..] + [batch];
    FlatConcat(s.accepted[j..], [batch]);
    FlatOne(batch);
  }

  lemma FlatOne(batch: seq<Request>)
    ensures Flat([batch]) == batch
  {
    assert [batch][..0] == [];
  }

  lemma TickedConserves(s: State, i: nat, j: nat, oracles: seq<Oracle>)
    requires ConservedAt(s, i, j)
    ensures ConservedAt(Ticked(s, oracles), if s.isStop then i else |s.accepted|, |s.accepted|)
  {
    var n := |s.accepted|;
    assert s.accepted[n..] == [];
    if s.isStop {
      FlatConcat(s.accepted[i..j], s.accepted[j..]);
      assert s.accepted[i..j] + s.accepted[j..] == s.accepted[i..n];
    } else {
      FlatConcat(s.accepted[..i], s.accepted[j..]);
      assert s.accepted[..i] + s.accepted[j..] == s.accepted[..n];
      assert s.accepted[n..n] == [];
    }
  }

  lemma ActedConserves(s: State, i: nat, j: nat, a: Action) returns (i': nat, j': nat)
    requires ConservedAt(s, i, j)
    ensures ConservedAt(Acted(s, a), i', j')
    ensures i <= i' && j <= j' && (s.isStop ==> i' == i)
  {
    i', j' := i, j;
    match a
    case Append(k) =>
      if k < |s.inflight| {
        AppendedConserves(s, i, j, k);
      }
    case Tick(oracles) =>
      if !s.closed {
        TickedConserves(s, i, j, oracles);
        i', j' := if s.isStop then i else |s.accepted|, |s.accepted|;
      }
    case _ =>
  }

  // ----------------------------------------------------------------- all runs

  lemma {:induction false} AlwaysGood(errorValue: int, actions: seq<Action>)
    ensures TestsAreGood(Execution(Initial(errorValue), actions))
  {
    if actions == [] {
    } else {
      var n := |actions| - 1;
      AlwaysGood(errorValue, actions[..n]);
      ActedStaysGood(Execution(Initial(errorValue), actions[..n]), actions[n]);
    }
  }

  lemma {:induction false} AlwaysConserved(errorValue: int, actions: seq<Action>) returns (i: nat, j: nat)
    ensures ConservedAt(Execution(Initial(errorValue), actions), i, j)
  {
    if actions == [] {
      i, j := 0, 0;
    } else {
      var n := |actions| - 1;
      i, j := AlwaysConserved(errorValue, actions[..n]);
      i, j := ActedConserves(Execution(Initial(errorValue), actions[..n]), i, j, actions[n]);
    }
  }

  /** In every run the appended requests are the dispatched ones, the discarded ones and the
      queued ones, in this order and with every batch in one piece; a request is discarded only
      after a stop. */
  lemma RequestsAreConserved(errorValue: int, actions: seq<Action>)
    ensures var s := Execution(Initial(errorValue), actions);
            && Flat(s.accepted) == s.dispatched + s.discarded + s.queue
            && (exists i: nat, j: nat :: ConservedAt(s, i, j))
            && (s.discarded != [] ==> s.isStop)
  {
    var i, j := AlwaysConserved(errorValue, actions);
    ConservedTotals(Execution(Initial(errorValue), actions), i, j);
  }

  lemma ConservedTotals(s: State, i: nat, j: nat)
    requires ConservedAt(s, i, j)
    ensures Flat(s.accepted) == s.dispatched + s.discarded + s.queue
  {
    FlatConcat(s.accepted[..i], s.accepted[i..j]);
    FlatConcat(s.accepted[..j], s.accepted[j..]);
    assert s.accepted[..i] + s.accepted[i..j] == s.accepted[..j];
    assert s.accepted[..j] + s.accepted[j..] == s.accepted;
  }

  /** A stop is for ever, and from then on nothing more is dispatched. */
  lemma {:induction false} StopIsPermanent(s: State, actions: seq<Action>)
    requires s.isStop
    ensures var t := Execution(s, actions);
            && t.isStop && t.dispatched == s.dispatched && |t.pings| == |s.pings| && |t.reals| == |s.reals|
            && (!Live(s) ==> !Live(t) && t.pings == s.pings && t.reals == s.reals && t.foreign == s.foreign)
  {
    if actions == [] {
    } else {
      StopIsPermanent(s, actions[..|actions| - 1]);
    }
  }

  lemma {:induction false} NoOpenProbes(pings: seq<Ping>)
    requires OpenProbes(pings) == 0
    ensures forall i :: 0 <= i < |pings| ==> Open(pings[i].probes) == 0
  {
    if pings == [] {
    } else {
      var n := |pings| - 1;
      NoOpenProbes(pings[..n]);
      assert forall i :: 0 <= i < n ==> pings[..n][i] == pings[i];
    }
  }

  lemma {:induction false} NoRealHandles(reals: seq<Real>)
    requires RealHandles(reals) == 0
    ensures forall i :: 0 <= i < |reals| ==> Handles(reals[i]) == 0
  {
    if reals == [] {
    } else {
      var n := |reals| - 1;
      NoRealHandles(reals[..n]);
      assert forall i :: 0 <= i < n ==> reals[..n][i] == reals[i];
    }
  }

  lemma {:induction false} OpenProbesExactly(pings: seq<Ping>)
    ensures OpenProbes(pings) == 0 <==>
            forall i, k :: 0 <= i < |pings| && 0 <= k < |pings[i].probes| ==> pings[i].probes[k].Some?
  {
    if pings == [] {
    } else {
      var n := |pings| - 1;
      OpenProbesExactly(pings[..n]);
      NoneOpen(pings[n].probes);
      assert forall i :: 0 <= i < n ==> pings[..n][i] == pings[i];
    }
  }

  lemma {:induction false} RealHandlesExactly(reals: seq<Real>)
    ensures RealHandles(reals) == 0 <==> forall i :: 0 <= i < |reals| ==> !reals[i].timer && reals[i].sockets == 0
  {
    if reals == [] {
    } else {
      var n := |reals| - 1;
      RealHandlesExactly(reals[..n]);
      assert forall i :: 0 <= i < n ==> reals[..n][i] == reals[i];
    }
  }

  /** A tick of a stopped loop closes it exactly when no ICMP handle, no probe, and no timer and no
      socket of a proxy test is open. */
  lemma TickClosesExactly(s: State, oracles: seq<Oracle>)
    requires s.isStop && !s.closed
    ensures Acted(s, Tick(oracles)).closed <==>
            && s.foreign == 0
            && (forall i, k :: 0 <= i < |s.pings| && 0 <= k < |s.pings[i].probes| ==> s.pings[i].probes[k].Some?)
            && (forall i :: 0 <= i < |s.reals| ==> !s.reals[i].timer && s.reals[i].sockets == 0)
  {
    OpenProbesExactly(s.pings);
    RealHandlesExactly(s.reals);
  }

  /** So the loop stays open while curl watches a socket after a callback. */
  lemma SocketKeepsOpen(s: State, i: nat, call: Call, oracles: seq<Oracle>)
    requires Live(s) && s.isStop && i < |s.reals| && Allowed(s.reals[i], call) && call.sockets > 0
    ensures !Acted(Acted(s, Callback(i, call)), Tick(oracles)).closed
  {
    var t := Acted(s, Callback(i, call));
    assert t.reals[i].sockets == call.sockets;
    TickClosesExactly(t, oracles);
  }

  /** How often a dispatched TCP request has reported when the loop is closed. */
  function ReportsAtClose(p: Ping): nat {
    if p.phase == Resolving || (p.phase == Probing && p.request.totalCount <= 0) then 0 else 1
  }

  lemma TcpAtClose(s: State)
    requires PingsAreGood(s) && OpenProbes(s.pings) == 0
    ensures forall i :: 0 <= i < |s.pings| ==>
              Open(s.pings[i].probes) == 0 && |s.pings[i].reports| == ReportsAtClose(s.pings[i])
  {
    NoOpenProbes(s.pings);
    forall i | 0 <= i < |s.pings| ensures |s.pings[i].reports| == ReportsAtClose(s.pings[i]) {
      EveryProbeCounts(s.pings[i].probes);
    }
  }

  predicate ProxyReported(p: Ping) {
    p.phase == Probing && Open(p.probes) == 0 && p.reports != [] && p.request.totalCount > 0
  }

  lemma ProxiesAtClose(s: State)
    requires RealsAreGood(s) && RealHandles(s.reals) == 0
    ensures forall i :: 0 <= i < |s.reals| ==> ProxyReported(s.reals[i].ping)
  {
    NoRealHandles(s.reals);
    forall i | 0 <= i < |s.reals| ensures ProxyReported(s.reals[i].ping) {
      EveryProbeCounts(s.reals[i].ping.probes);
    }
  }

  /** Once the loop has closed no probe is open; a dispatched TCP request has reported, once,
      exactly unless its lookup is still running or it wanted no probe; and every dispatched proxy
      request has reported. */
  lemma ClosedHasReported(errorValue: int, actions: seq<Action>)
    ensures var s := Execution(Initial(errorValue), actions);
            !Live(s) ==>
              && s.isStop && PingsAreGood(s) && RealsAreGood(s)
              && (forall i :: 0 <= i < |s.pings| ==>
                    Open(s.pings[i].probes) == 0 && |s.pings[i].reports| == ReportsAtClose(s.pings[i]))
              && (forall i :: 0 <= i < |s.reals| ==> ProxyReported(s.reals[i].ping))
  {
    AlwaysGood(errorValue, actions);
    var s := Execution(Initial(errorValue), actions);
    if !Live(s) {
      TcpAtClose(s);
      ProxiesAtClose(s);
    }
  }

  // ------------------------------------------------------- single runs, step by step

  lemma OneMore(s: State, actions: seq<Action>, a: Action)
    ensures Execution(s, actions + [a]) == Acted(Execution(s, actions), a)
  {
    assert (actions + [a])[..|actions|] == actions;
  }

  lemma {:induction false} ExecutionFromFirst(s: State, a: Action, actions: seq<Action>)
    ensures Execution(s, [a] + actions) == Execution(Acted(s, a), actions)
  {
    var all := [a] + actions;
    if actions == [] {
      assert all == [] + [a];
      OneMore(s, [], a);
    } else {
      var n := |actions| - 1;
      ExecutionFromFirst(s, a, actions[..n]);
      assert all[..|all| - 1] == [a] + actions[..n];
    }
  }

  lemma TwoSteps(s: State, a: Action, b: Action)
    ensures Execution(s, [a, b]) == Acted(Acted(s, a), b)
  {
    assert [a, b] == [a] + [b];
    ExecutionFromFirst(s, a, [b]);
    OneMore(Acted(s, a), [], b);
    assert [] + [b] == [b];
  }

  lemma {:induction false} ExecutionConcat(s: State, xs: seq<Action>, ys: seq<Action>)
    ensures Execution(s, xs + ys) == Execution(Execution(s, xs), ys)
  {
    if ys == [] {
      assert xs + ys == xs;
    } else {
      var n := |ys| - 1;
      ExecutionConcat(s, xs, ys[..n]);
      assert (xs + ys)[..|xs + ys| - 1] == xs + ys[..n];
    }
  }

  lemma OneRequest(errorValue: int, request: Request, o: Oracle)
    ensures Tests(errorValue, [request], [o]) ==
            if request.kind == TCPING then [NewTest(errorValue, request, o)] else []
    ensures RealTests(errorValue, [request], [o]) ==
            if request.kind == REALPING then [NewRealTest(errorValue, request, o)] else []
  {
    assert [request][..0] == [] && Tests(errorValue, [], [o]) == [] && RealTests(errorValue, [], [o]) == [];
  }

  /** A request pushed, appended and dispatched. */
  function Dispatched(errorValue: int, request: Request, o: Oracle): State {
    Acted(Acted(Acted(Initial(errorValue), Check([request])), Append(0)), Tick([o]))
  }

  lemma DispatchedTests(errorValue: int, request: Request, o: Oracle)
    ensures var s := Dispatched(errorValue, request, o);
            && Live(s) && !s.isStop && s.foreign == 0
            && s.pings == (if request.kind == TCPING then [NewTest(errorValue, request, o)] else [])
            && s.reals == (if request.kind == REALPING then [NewRealTest(errorValue, request, o)] else [])
  {
    var s := Acted(Acted(Initial(errorValue), Check([request])), Append(0));
    assert s.queue == [request] && s.pings == [] && s.reals == [];
    OneRequest(errorValue, request, o);
  }

  /** So a dispatched request can be dropped without a report: a lookup is no handle, and the loop
      closes under it. */
  lemma LookupCanBeDropped(errorValue: int, request: Request)
    requires request.kind == TCPING
    ensures var o := Oracle(None, false, [], 0, false);
            var s := Execution(Dispatched(errorValue, request, o), [Stop, Tick([])]);
            s.closed && |s.pings| == 1 && s.pings[0].phase == Resolving && s.pings[0].reports == []
  {
    var o := Oracle(None, false, [], 0, false);
    var s := Dispatched(errorValue, request, o);
    DispatchedTests(errorValue, request, o);
    TwoSteps(s, Stop, Tick([]));
    assert s.pings[..0] == [] && s.pings[0].probes == [];
    assert OpenProbes(s.pings) == 0;
  }

  // ----------------------------------------------------------- stranded requests

  predicate NothingInFlight(s: State) {
    forall i :: 0 <= i < |s.inflight| ==> s.inflight[i] == []
  }

  lemma StepStaysEmpty(s: State, a: Action)
    requires s.isStop && s.queue == [] && NothingInFlight(s)
    ensures Acted(s, a).queue == [] && NothingInFlight(Acted(s, a))
  {
  }

  lemma {:induction false} StaysEmpty(s: State, actions: seq<Action>)
    requires s.isStop && s.queue == [] && NothingInFlight(s)
    ensures Execution(s, actions).queue == [] && NothingInFlight(Execution(s, actions))
  {
    if actions == [] {
    } else {
      var n := |actions| - 1;
      StopIsPermanent(s, actions[..n]);
      StaysEmpty(s, actions[..n]);
      StepStaysEmpty(Execution(s, actions[..n]), actions[n]);
    }
  }

  lemma LateAppend(s: State, i: nat)
    requires i < |s.inflight|
    ensures Execution(s, [Append(i)]).queue == s.queue + s.inflight[i]
  {
    OneMore(s, [], Append(i));
    assert [] + [Append(i)] == [Append(i)];
  }

  /** Nothing is ever in the queue of a thread whose loop has closed, exactly when no push that was
      in flight then has a request to append. */
  lemma NothingStranded(s: State)
    requires s.closed && s.isStop && s.queue == []
    ensures (forall actions :: Execution(s, actions).queue == []) <==> NothingInFlight(s)
  {
    if NothingInFlight(s) {
      forall actions ensures Execution(s, actions).queue == [] {
        StaysEmpty(s, actions);
      }
    } else {
      var i :| 0 <= i < |s.inflight| && s.inflight[i] != [];
      LateAppend(s, i);
    }
  }

  lemma {:induction false} QueueKept(s: State, actions: seq<Action>)
    requires s.closed && s.isStop
    requires forall a :: a in actions ==> !a.Append? && !a.Restart?
    ensures Execution(s, actions).queue == s.queue && Execution(s, actions).closed
  {
    if actions == [] {
    } else {
      var n := |actions| - 1;
      StopIsPermanent(s, actions[..n]);
      QueueKept(s, actions[..n]);
      assert actions[n] in actions;
    }
  }

  /** A thread that is started again discards what it finds in the queue. */
  lemma RestartDiscards(s: State)
    requires s.closed && s.isStop
    ensures var t := Execution(s, [Restart, Tick([])]);
            t.queue == [] && t.discarded == s.discarded + s.queue && t.dispatched == s.dispatched
  {
    TwoSteps(s, Restart, Tick([]));
  }

  /** isStop is read outside the lock, so a push that looks before the stop can append after the
      closing tick.  It is accepted, stays in the queue as long as the thread is not started
      again, and is then discarded; it is never dispatched. */
  lemma LatePushIsStranded(errorValue: int, batch: seq<Request>, actions: seq<Action>)
    requires batch != [] && forall a :: a in actions ==> !a.Append? && !a.Restart?
    ensures var s := Execution(Initial(errorValue), [Check(batch), Stop, Tick([]), Append(0)]);
            var t := Execution(s, actions);
            && s.closed && s.accepted == [batch]
            && t.closed && t.queue == batch && t.dispatched == []
            && Execution(t, [Restart, Tick([])]).discarded == t.discarded + batch
            && Execution(t, [Restart, Tick([])]).dispatched == []
  {
    var o := Initial(errorValue);
    TwoSteps(o, Check(batch), Stop);
    var half := Execution(o, [Check(batch), Stop]);
    assert half == o.(isStop := true, inflight := [batch]);
    TwoSteps(half, Tick([]), Append(0));
    ExecutionConcat(o, [Check(batch), Stop], [Tick([]), Append(0)]);
    assert [Check(batch), Stop] + [Tick([]), Append(0)] == [Check(batch), Stop, Tick([]), Append(0)];
    var s := Execution(o, [Check(batch), Stop, Tick([]), Append(0)]);
    QueueKept(s, actions);
    StopIsPermanent(s, actions);
    RestartDiscards(Execution(s, actions));
  }

  // ------------------------------------------------------- when the loop can close

  /** No ICMP handle is open, and no proxy test waits for callbacks that cannot come. */
  predicate CanFinish(s: State) {
    s.foreign == 0 && forall i :: 0 <= i < |s.reals| ==> !Stuck(s.reals[i])
  }

  predicate NoForeign(actions: seq<Action>) {
    forall a :: a in actions ==> !a.Foreign?
  }

  lemma {:induction false} StuckIsCounted(reals: seq<Real>, i: nat)
    requires i < |reals| && Stuck(reals[i])
    ensures RealHandles(reals) > 0
  {
    var n := |reals| - 1;
    if i == n {
    } else {
      StuckIsCounted(reals[..n], i);
    }
  }

  /** One proxy test without a proxy, or without a probe, keeps the loop open for ever, whatever
      happens: stopping the thread then waits for ever. */
  lemma {:induction false} StuckNeverCloses(s: State, i: nat, actions: seq<Action>)
    requires Live(s) && i < |s.reals| && Stuck(s.reals[i])
    ensures var t := Execution(s, actions); Live(t) && i < |t.reals| && Stuck(t.reals[i])
  {
    if actions == [] {
    } else {
      var n := |actions| - 1;
      StuckNeverCloses(s, i, actions[..n]);
      StuckIsCounted(Execution(s, actions[..n]).reals, i);
    }
  }

  /** The reachable case: a request dispatched while no inbound proxy is configured, or for no
      probes. */
  lemma UnproxiedNeverCloses(errorValue: int, request: Request, o: Oracle, actions: seq<Action>)
    requires request.kind == REALPING && (!o.proxied || request.totalCount <= 0)
    ensures !Execution(Dispatched(errorValue, request, o), actions).closed
  {
    var s := Dispatched(errorValue, request, o);
    DispatchedTests(errorValue, request, o);
    StuckExactly(request, errorValue, o.garbage, o.proxied, []);
    StuckNeverCloses(s, 0, actions);
  }

  lemma {:induction false} ForeignNeverCloses(s: State, actions: seq<Action>)
    requires Live(s) && s.foreign > 0 && NoForeign(actions)
    ensures Live(Execution(s, actions)) && Execution(s, actions).foreign > 0
  {
    if actions == [] {
    } else {
      var n := |actions| - 1;
      ForeignNeverCloses(s, actions[..n]);
      assert actions[n] in actions;
    }
  }

  lemma {:induction false} SomeTestIsOpen(pings: seq<Ping>) returns (i: nat, k: nat)
    requires OpenProbes(pings) > 0
    ensures i < |pings| && k < |pings[i].probes| && pings[i].probes[k].None?
  {
    var n := |pings| - 1;
    if Open(pings[n].probes) > 0 {
      i := n;
      NoneOpen(pings[n].probes);
      k :| k < |pings[n].probes| && pings[n].probes[k].None?;
    } else {
      i, k := SomeTestIsOpen(pings[..n]);
    }
  }

  lemma {:induction false} OneTestChanges(pings: seq<Ping>, i: nat, p: Ping)
    requires i < |pings|
    ensures OpenProbes(pings[i := p]) == OpenProbes(pings) - Open(pings[i].probes) + Open(p.probes)
  {
    var n := |pings| - 1;
    if i == n {
      assert pings[i := p][..n] == pings[..n];
    } else {
      OneTestChanges(pings[..n], i, p);
      assert pings[i := p][..n] == pings[..n][i := p];
    }
  }

  /** The easy handles still active. */
  function ActiveHandles(reals: seq<Real>): nat {
    if reals == [] then 0 else ActiveHandles(reals[..|reals| - 1]) + Open(reals[|reals| - 1].ping.probes)
  }

  lemma {:induction false} SomeRealIsActive(reals: seq<Real>) returns (i: nat)
    requires ActiveHandles(reals) > 0
    ensures i < |reals| && Open(reals[i].ping.probes) > 0
  {
    var n := |reals| - 1;
    if Open(reals[n].ping.probes) > 0 {
      i := n;
    } else {
      i := SomeRealIsActive(reals[..n]);
    }
  }

  lemma {:induction false} OneRealChanges(reals: seq<Real>, i: nat, r: Real)
    requires i < |reals|
    ensures ActiveHandles(reals[i := r]) == ActiveHandles(reals) - Open(reals[i].ping.probes) + Open(r.ping.probes)
  {
    var n := |reals| - 1;
    if i == n {
      assert reals[i := r][..n] == reals[..n];
    } else {
      OneRealChanges(reals[..n], i, r);
      assert reals[i := r][..n] == reals[..n][i := r];
    }
  }

  lemma {:induction false} InactiveHoldNothing(reals: seq<Real>, errorValue: int)
    requires forall i :: 0 <= i < |reals| ==> GoodReal(reals[i], errorValue) && !Stuck(reals[i])
    requires ActiveHandles(reals) == 0
    ensures RealHandles(reals) == 0
  {
    if reals == [] {
    } else {
      var n := |reals| - 1;
      InactiveHoldNothing(reals[..n], errorValue);
      FinishedHoldsNothing(reals[n]);
    }
  }

  function Work(s: State): nat {
    OpenProbes(s.pings) + ActiveHandles(s.reals)
  }

  /** One event for an open probe leaves one open probe less. */
  lemma EventEndsProbe(s: State) returns (a: Action)
    requires TestsAreGood(s) && Live(s) && CanFinish(s) && OpenProbes(s.pings) > 0
    ensures !a.Foreign? && CanFinish(Acted(s, a)) && Work(Acted(s, a)) == Work(s) - 1
    ensures Live(Acted(s, a)) && Acted(s, a).isStop == s.isStop
  {
    var i, k := SomeTestIsOpen(s.pings);
    var p := s.pings[i];
    a := Event(i, Probe(k, Failed("")));
    EndCounts(p.probes, k, Failed(""));
    OneTestChanges(s.pings, i, Next(p, Probe(k, Failed(""))));
  }

  /** One callback with a DONE message leaves one active easy handle less. */
  lemma CallbackEndsHandle(s: State) returns (a: Action)
    requires TestsAreGood(s) && Live(s) && CanFinish(s) && ActiveHandles(s.reals) > 0
    ensures !a.Foreign? && CanFinish(Acted(s, a)) && Work(Acted(s, a)) == Work(s) - 1
    ensures Live(Acted(s, a)) && Acted(s, a).isStop == s.isStop
  {
    var i := SomeRealIsActive(s.reals);
    var c := NextDone(s.reals[i]);
    a := Callback(i, c);
    OneRealChanges(s.reals, i, Answered(s.reals[i], c));
  }

  lemma LastTick(s: State)
    requires TestsAreGood(s) && s.isStop && !s.closed && CanFinish(s) && (Live(s) ==> Work(s) == 0)
    ensures Execution(s, [Tick([])]).closed
  {
    if Live(s) {
      InactiveHoldNothing(s.reals, s.errorValue);
    }
    OneMore(s, [], Tick([]));
    assert [] + [Tick([])] == [Tick([])];
  }

  /** An event for every open probe, a message for every active easy handle and one tick close it. */
  lemma {:induction false} ClosingRun(s: State) returns (actions: seq<Action>)
    requires TestsAreGood(s) && s.isStop && !s.closed && CanFinish(s)
    ensures NoForeign(actions) && Execution(s, actions).closed
    ensures |actions| <= Work(s) + 1
    decreases Work(s)
  {
    if !Live(s) || Work(s) == 0 {
      LastTick(s);
      actions := [Tick([])];
    } else {
      var a;
      if OpenProbes(s.pings) > 0 {
        a := EventEndsProbe(s);
      } else {
        a := CallbackEndsHandle(s);
      }
      ActedStaysGood(s, a);
      var rest := ClosingRun(Acted(s, a));
      actions := [a] + rest;
      ExecutionFromFirst(s, a, rest);
    }
  }

  /** A stopped loop can be closed by events of its own tests and ticks exactly when no ICMP handle
      is open and no proxy test is stuck. */
  lemma StoppedLoopCanClose(s: State)
    requires TestsAreGood(s) && s.isStop && !s.closed
    ensures (exists actions :: NoForeign(actions) && Execution(s, actions).closed) <==> CanFinish(s)
  {
    if !Live(s) {
      NoRealHandles(s.reals);
    }
    if CanFinish(s) {
      var actions := ClosingRun(s);
    } else if exists actions :: NoForeign(actions) && Execution(s, actions).closed {
      var actions :| NoForeign(actions) && Execution(s, actions).closed;
      if s.foreign > 0 {
        ForeignNeverCloses(s, actions);
      } else {
        var i :| 0 <= i < |s.reals| && Stuck(s.reals[i]);
        StuckNeverCloses(s, i, actions);
      }
    }
  }
}
