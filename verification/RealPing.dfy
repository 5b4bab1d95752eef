/** RealPing: a test through the proxy, whose results arrive in groups of curl messages. */
module RealPings {
  import opened Wrappers
  import opened Probes
  import opened Latency
  import opened PingRuns

  /** The counters of a test and the handles it holds in the loop: its timer, taken by the
      constructor, and the sockets curl has asked it to watch. */
  datatype Real = Real(ping: Ping, timer: bool, sockets: nat)

  /** A message of curl_multi_info_read; only those about a finished easy handle matter. */
  datatype Message =
    | Done(handle: nat, ok: bool, ms: int)
    | OtherMessage

  function EventOf(m: Message): ProbeEvent
    requires m.Done?
  {
    if m.ok then Connected(m.ms) else Failed("")
  }

  /** The counters take in every DONE message; its easy handle is removed. */
  function Handled(p: Ping, m: Message): Ping {
    if !m.Done? then p
    else
      var q :=
        if m.ok then
          p.(successCount := p.successCount + 1,
             data := p.data.(avg := p.data.avg + m.ms, best := Min(p.data.best, m.ms),
                            worst := Max(p.data.worst, m.ms)))
        else
          p.(data := p.data.(failedCount := p.data.failedCount + 1));
      if m.handle < |p.probes| then q.(probes := p.probes[m.handle := Some(EventOf(m))]) else q
  }

  function Drained(p: Ping, messages: seq<Message>): Ping {
    if messages == [] then p else Handled(Drained(p, messages[..|messages| - 1]), messages[|messages| - 1])
  }

  /** A notification also closes the timer. */
  function HostNotified(r: Real): Real {
    var p := r.ping;
    if p.data.failedCount + p.successCount == p.request.totalCount then r.(ping := Notified(p), timer := false) else r
  }

  datatype Source = Timer | Poll

  /** A callback: who calls, the messages there are to drain, and the sockets watched afterwards. */
  datatype Call = Call(source: Source, messages: seq<Message>, sockets: nat)

  /** A poll, error or timer callback: drain what there is, then look whether the test is over. */
  function CalledBack(r: Real, c: Call): Real {
    HostNotified(r.(ping := Drained(r.ping, c.messages), sockets := c.sockets))
  }

  /** The contract of curl: DONE comes at most once for each easy handle that was added. */
  predicate Honest(p: Ping, messages: seq<Message>) {
    messages == [] ||
    var n := |messages| - 1;
    && Honest(p, messages[..n])
    && (messages[n].Done? ==>
          var q := Drained(p, messages[..n]);
          messages[n].handle < |q.probes| && q.probes[messages[n].handle].None?)
  }

  /** The contract of the environment: a closed timer does not fire, without an easy handle there
      is nothing to call back for, and with none active curl watches no socket.  Poll callbacks
      may outlive the socket, as one poll event can run several listeners. */
  predicate Allowed(r: Real, c: Call) {
    && r.ping.phase == Probing && r.ping.probes != []
    && (c.source.Timer? ==> r.timer)
    && Honest(r.ping, c.messages)
    && (Open(Drained(r.ping, c.messages).probes) == 0 ==> c.sockets == 0)
  }

  function Answered(r: Real, c: Call): Real {
    if Allowed(r, c) then CalledBack(r, c) else r
  }

  function AllAnswered(r: Real, calls: seq<Call>): Real {
    if calls == [] then r else Answered(AllAnswered(r, calls[..|calls| - 1]), calls[|calls| - 1])
  }

  function NewReal(request: Request, errorValue: int, garbage: int): Real {
    Real(NewPing(request, errorValue, garbage), true, 0)
  }

  /** start: without an inbound proxy the test fails at once, and its timer is left as it is;
      otherwise every easy handle is added. */
  function RealStarted(r: Real, proxied: bool): Real {
    var p := r.ping;
    if !proxied then
      var data := p.data.(avg := p.errorValue);
      r.(ping := p.(phase := Unresolved, data := data, reports := p.reports + [Report(p.request.id, data)]))
    else
      r.(ping := p.(phase := Probing, data := p.data.(totalCount := 0, failedCount := 0, worst := 0, avg := 0),
                    probes := seq(Wanted(p), i => None)))
  }

  // ------------------------------------------------------------------ the object

  class RealPing {
    const request: Request
    const errorValue: int
    var phase: Phase
    var data: TestResult
    var successCount: nat
    var easyHandles: Outcomes
    var reports: seq<Report>
    var timer: bool
    var sockets: nat

    ghost function View(): Real
      reads this
    {
      var ping := Ping(request, errorValue, phase, data, successCount, Some((Inet, 0)), easyHandles, [], reports);
      Real(ping, timer, sockets)
    }

    constructor (request: Request, errorValue: int, garbage: int)
      ensures View() == NewReal(request, errorValue, garbage)
    {
      this.request := request;
      this.errorValue := errorValue;
      phase := Created;
      data := TestResult("", garbage, garbage, errorValue, errorValue, errorValue);
      successCount := 0;
      easyHandles := [];
      reports := [];
      timer := true;
      sockets := 0;
    }

    method CheckMultiInfo(messages: seq<Message>)
      modifies this
      ensures View() == old(View()).(ping := Drained(old(View()).ping, messages))
    {
      var i := 0;
      while i < |messages|
        invariant 0 <= i <= |messages|
        invariant View() == old(View()).(ping := Drained(old(View()).ping, messages[..i]))
      {
        assert messages[..i + 1][..i] == messages[..i];
        var message := messages[i];
        if message.Done? {
          if message.ok {
            successCount := successCount + 1;
            data := data.(avg := data.avg + message.ms);
            data := data.(best := Min(data.best, message.ms));
            data := data.(worst := Max(data.worst, message.ms));
          } else {
            data := data.(failedCount := data.failedCount + 1);
          }
          if message.handle < |easyHandles| {
            easyHandles := easyHandles[message.handle := Some(EventOf(message))];
          }
        }
        i := i + 1;
      }
      assert messages[..|messages|] == messages;
    }

    method NotifyTestHost()
      modifies this
      ensures View() == HostNotified(old(View()))
    {
      if data.failedCount + successCount == request.totalCount {
        if data.failedCount == request.totalCount {
          data := data.(avg := errorValue);
        } else {
          data := data.(errorMessage := "");
          data := data.(avg := Truncated(data.avg, successCount));
        }
        reports := reports + [Report(request.id, data)];
        timer := false;
      }
    }

    /** What curl does with its sockets is up to curl. */
    method Callback(c: Call)
      modifies this
      ensures View() == CalledBack(old(View()), c)
    {
      sockets := c.sockets;
      CheckMultiInfo(c.messages);
      NotifyTestHost();
    }

    method Start(proxied: bool)
      requires easyHandles == []
      modifies this
      ensures View() == RealStarted(old(View()), proxied)
    {
      if !proxied {
        data := data.(avg := errorValue);
        reports := reports + [Report(request.id, data)];
        phase := Unresolved;
        return;
      }
      data := data.(totalCount := 0);
      data := data.(failedCount := 0);
      data := data.(worst := 0);
      data := data.(avg := 0);
      phase := Probing;
      var i := 0;
      while i < request.totalCount
        invariant 0 <= i && (request.totalCount >= 0 ==> i <= request.totalCount)
        invariant request.totalCount < 0 ==> i == 0
        invariant easyHandles == seq(i, k => None)
        invariant View() == Restarted(old(View()), easyHandles)
      {
        easyHandles := easyHandles + [None];
        i := i + 1;
      }
    }
  }

  /** A proxied start with these easy handles added so far. */
  ghost function Restarted(r: Real, handles: Outcomes): Real {
    var s := RealStarted(r, true);
    s.(ping := s.ping.(probes := handles))
  }

  // --------------------------------------------------------------- conservation

  /** The counters agree with the handles, whether or not the host has been notified. */
  predicate RealCounted(p: Ping) {
    Counted(p) && |p.probes| == Wanted(p) && p.data.totalCount == 0 && p.data.errorMessage == ""
  }

  predicate RealComplete(p: Ping) {
    Failures(p.probes) + Successes(p.probes) == p.request.totalCount
  }

  /** Nothing is reported before the test is complete; the first report has the right figures. */
  predicate RealReporting(p: Ping) {
    if p.reports == [] then
      p.data.avg == Total(p.probes) && (p.probes != [] ==> !RealComplete(p))
    else
      && RealComplete(p) && p.probes != []
      && Figures(p.reports[0].data, p.errorValue, p.probes) && p.reports[0].data.totalCount == 0
      && p.reports[|p.reports| - 1].data == p.data
      && (forall i :: 0 <= i < |p.reports| ==> p.reports[i].id == p.request.id)
      && (Successes(p.probes) == 0 ==> p.data.avg == p.errorValue)
  }

  /** The timer is open until the first report of a proxied test, and for ever in an unproxied one. */
  predicate RealSettled(r: Real) {
    match r.ping.phase
    case Unresolved =>
      && r.ping.probes == [] && r.timer && r.sockets == 0
      && |r.ping.reports| == 1 && r.ping.reports[0].id == r.ping.request.id
      && r.ping.reports[0].data.avg == r.ping.errorValue
    case Probing =>
      && RealCounted(r.ping) && RealReporting(r.ping)
      && (r.timer <==> r.ping.reports == [])
      && (Open(r.ping.probes) == 0 ==> r.sockets == 0)
    case _ => false
  }

  lemma HandledKeeps(p: Ping, m: Message)
    requires RealCounted(p)
    requires m.Done? ==> m.handle < |p.probes| && p.probes[m.handle].None?
    ensures RealCounted(Handled(p, m)) && Handled(p, m).reports == p.reports
    ensures p.data.avg == Total(p.probes) ==> Handled(p, m).data.avg == Total(Handled(p, m).probes)
    ensures Open(p.probes) == 0 ==> Handled(p, m) == p
  {
    if m.Done? {
      EndCounts(p.probes, m.handle, EventOf(m));
      EndTimes(p.errorValue, p.probes, m.handle, EventOf(m));
      EndTimes(0, p.probes, m.handle, EventOf(m));
    }
  }

  lemma {:induction false} DrainedKeeps(p: Ping, messages: seq<Message>)
    requires RealCounted(p) && Honest(p, messages)
    ensures var q := Drained(p, messages);
            && RealCounted(q) && q.phase == p.phase && q.reports == p.reports
            && q.request == p.request && q.errorValue == p.errorValue
            && (p.data.avg == Total(p.probes) ==> q.data.avg == Total(q.probes))
            && (Open(p.probes) == 0 ==> q == p)
  {
    if messages == [] {
    } else {
      var n := |messages| - 1;
      DrainedKeeps(p, messages[..n]);
      HandledKeeps(Drained(p, messages[..n]), messages[n]);
    }
  }

  /** Every callback keeps the invariant, and reports exactly when it finds the test complete. */
  lemma CalledBackKeeps(r: Real, c: Call)
    requires RealSettled(r) && Allowed(r, c)
    ensures var q := CalledBack(r, c);
            && RealSettled(q) && q.ping.phase == Probing
            && q.ping.request == r.ping.request && q.ping.errorValue == r.ping.errorValue
            && q.ping.probes == Drained(r.ping, c.messages).probes
            && |q.ping.reports| == |r.ping.reports| + (if RealComplete(q.ping) then 1 else 0)
  {
    DrainedKeeps(r.ping, c.messages);
    EveryProbeCounts(r.ping.probes);
  }

  lemma AnsweredKeeps(r: Real, c: Call)
    requires RealSettled(r)
    ensures var q := Answered(r, c);
            && RealSettled(q) && q.ping.phase == r.ping.phase
            && q.ping.request == r.ping.request && q.ping.errorValue == r.ping.errorValue
  {
    if Allowed(r, c) {
      CalledBackKeeps(r, c);
    }
  }

  lemma {:induction false} NothingEnded(n: nat, probes: Outcomes)
    requires |probes| == n && forall i :: 0 <= i < n ==> probes[i].None?
    ensures Failures(probes) == 0 && Successes(probes) == 0 && Total(probes) == 0 && Open(probes) == n
    ensures forall s :: Best(s, probes) == s && Worst(s, probes) == s
  {
    if n == 0 {
    } else {
      NothingEnded(n - 1, probes[..n - 1]);
    }
  }

  lemma StartSettles(request: Request, errorValue: int, garbage: int, proxied: bool)
    ensures var r := RealStarted(NewReal(request, errorValue, garbage), proxied);
            RealSettled(r) && r.ping.request == request && r.ping.errorValue == errorValue
  {
    if proxied {
      var r := RealStarted(NewReal(request, errorValue, garbage), true);
      NothingEnded(Wanted(r.ping), r.ping.probes);
    }
  }

  /** The invariant after every sequence of callbacks, however they group the messages. */
  lemma {:induction false} CallsSettle(r: Real, calls: seq<Call>)
    requires RealSettled(r)
    ensures var q := AllAnswered(r, calls);
            && RealSettled(q) && q.ping.phase == r.ping.phase
            && q.ping.request == r.ping.request && q.ping.errorValue == r.ping.errorValue
  {
    if calls == [] {
    } else {
      var n := |calls| - 1;
      CallsSettle(r, calls[..n]);
      AnsweredKeeps(AllAnswered(r, calls[..n]), calls[n]);
    }
  }

  /** However the messages are grouped, successes, failures and active handles add up to the
      handles added; the timer is closed with the first report, when no handle is active, and
      that report's average is the mean of the successes, between best and worst, or the error
      value if there were none. */
  lemma BatchesAreConserved(request: Request, errorValue: int, garbage: int, calls: seq<Call>)
    ensures var r := AllAnswered(RealStarted(NewReal(request, errorValue, garbage), true), calls);
            var p := r.ping;
            && p.data.failedCount + p.successCount + Open(p.probes) == |p.probes| == Wanted(p)
            && (r.timer <==> p.reports == [])
            && (p.reports == [] <==> Open(p.probes) > 0 || Wanted(p) == 0)
            && (p.reports != [] ==>
                  var first := p.reports[0].data;
                  && (forall i :: 0 <= i < |p.reports| ==> p.reports[i].id == request.id)
                  && first.failedCount == Failures(p.probes)
                  && first.totalCount == 0
                  && (Successes(p.probes) == 0 ==> first.avg == errorValue)
                  && (Successes(p.probes) > 0 ==>
                        && var n, t, q := Successes(p.probes), Total(p.probes), first.avg;
                           && (t >= 0 ==> n * q <= t < n * q + n)
                           && (t < 0 ==> n * q - n < t <= n * q)
                           && first.best <= q <= first.worst))
  {
    var start := RealStarted(NewReal(request, errorValue, garbage), true);
    StartSettles(request, errorValue, garbage, true);
    CallsSettle(start, calls);
    var p := AllAnswered(start, calls).ping;
    EveryProbeCounts(p.probes);
    if Successes(p.probes) > 0 {
      MeanBetween(errorValue, 0, p.probes);
      TruncatedIsClose(Total(p.probes), Successes(p.probes));
    }
  }

  /** How a DONE message is counted. */
  predicate Ends(o: Option<ProbeEvent>, m: Message)
    requires m.Done?
  {
    o.Some? && if m.ok then o.value == Connected(m.ms) else o.value.Failed?
  }

  /** Every DONE message ends its easy handle as it says, and no other handle changes. */
  lemma {:induction false} MessagesDecide(p: Ping, messages: seq<Message>, k: nat)
    requires Honest(p, messages) && k < |p.probes|
    ensures var q := Drained(p, messages);
            && |q.probes| == |p.probes|
            && (forall i :: 0 <= i < |messages| && messages[i].Done? && messages[i].handle == k ==>
                              Ends(q.probes[k], messages[i]))
            && ((forall i :: 0 <= i < |messages| && messages[i].Done? ==> messages[i].handle != k) ==>
                  q.probes[k] == p.probes[k])
            && (p.probes[k].Some? ==> q.probes[k] == p.probes[k])
  {
    if messages == [] {
    } else {
      var n := |messages| - 1;
      MessagesDecide(p, messages[..n], k);
      assert forall i :: 0 <= i < n ==> messages[..n][i] == messages[i];
    }
  }

  lemma {:induction false} EndedStaysEnded(r: Real, calls: seq<Call>, k: nat)
    requires k < |r.ping.probes| && r.ping.probes[k].Some?
    ensures var q := AllAnswered(r, calls).ping;
            |q.probes| == |r.ping.probes| && q.probes[k] == r.ping.probes[k]
  {
    if calls == [] {
    } else {
      var n := |calls| - 1;
      EndedStaysEnded(r, calls[..n], k);
      var q := AllAnswered(r, calls[..n]);
      if Allowed(q, calls[n]) {
        MessagesDecide(q.ping, calls[n].messages, k);
      }
    }
  }

  /** A DONE message drained by any callback decides its handle for good. */
  lemma EveryMessageCounts(r: Real, c: Call, i: nat, calls: seq<Call>)
    requires Allowed(r, c) && i < |c.messages| && c.messages[i].Done?
    ensures var q, m := AllAnswered(Answered(r, c), calls).ping, c.messages[i];
            m.handle < |q.probes| && Ends(q.probes[m.handle], m)
  {
    var k := c.messages[i].handle;
    HonestHandle(r.ping, c.messages, i);
    MessagesDecide(r.ping, c.messages, k);
    EndedStaysEnded(Answered(r, c), calls, k);
  }

  lemma {:induction false} HonestHandle(p: Ping, messages: seq<Message>, i: nat)
    requires Honest(p, messages) && i < |messages| && messages[i].Done?
    ensures messages[i].handle < |p.probes|
  {
    var n := |messages| - 1;
    if i == n {
      HandlesKept(p, messages[..n]);
    } else {
      HonestHandle(p, messages[..n], i);
    }
  }

  lemma {:induction false} HandlesKept(p: Ping, messages: seq<Message>)
    ensures |Drained(p, messages).probes| == |p.probes|
  {
    if messages == [] {
    } else {
      HandlesKept(p, messages[..|messages| - 1]);
    }
  }

  lemma {:induction false} UnresolvedKept(r: Real, calls: seq<Call>)
    requires r.ping.phase == Unresolved
    ensures AllAnswered(r, calls) == r
  {
    if calls == [] {
    } else {
      UnresolvedKept(r, calls[..|calls| - 1]);
    }
  }

  /** Without a proxy there is one completion, and it stays the only one: the error value in all
      three times, no message, and the two counts as they were found. */
  lemma UnproxiedReport(request: Request, errorValue: int, garbage: int, calls: seq<Call>)
    ensures var p := AllAnswered(RealStarted(NewReal(request, errorValue, garbage), false), calls).ping;
            && |p.reports| == 1 && p.reports[0].id == request.id
            && var data := p.reports[0].data;
               && data.avg == errorValue && data.best == errorValue && data.worst == errorValue
               && data.errorMessage == "" && data.totalCount == garbage && data.failedCount == garbage
  {
    UnresolvedKept(RealStarted(NewReal(request, errorValue, garbage), false), calls);
  }

  /** No completion of a proxied test names the number of probes it wanted: the count stays zero.
      Without a proxy it was never set. */
  lemma ProxyNamesNone(request: Request, errorValue: int, garbage: int, proxied: bool, calls: seq<Call>)
    ensures var p := AllAnswered(RealStarted(NewReal(request, errorValue, garbage), proxied), calls).ping;
            p.reports != [] ==>
              && p.reports[0].data.totalCount == (if proxied then 0 else garbage)
              && (proxied ==> p.reports[0].data.totalCount != request.totalCount)
  {
    var start := RealStarted(NewReal(request, errorValue, garbage), proxied);
    if proxied {
      StartSettles(request, errorValue, garbage, true);
      CallsSettle(start, calls);
    } else {
      UnresolvedKept(start, calls);
    }
  }

  /** After the first report no timer callback comes, but every poll callback that does reports
      once more; nothing in the source guards the second time. */
  lemma EveryLaterCallbackReports(r: Real, c: Call)
    requires RealSettled(r) && r.ping.phase == Probing && r.ping.reports != [] && Allowed(r, c)
    ensures var q := CalledBack(r, c);
            && c.source.Poll? && !q.timer && q.sockets == 0
            && |q.ping.reports| == |r.ping.reports| + 1 && q.ping.probes == r.ping.probes
  {
    CalledBackKeeps(r, c);
    DrainedKeeps(r.ping, c.messages);
    EveryProbeCounts(r.ping.probes);
  }

  lemma SmallerQuotient(size: nat, n: nat)
    requires size > 0 && n > 1
    ensures size / n < size
  {
    var q := size / n;
    assert size == q * n + size % n;
    Scaled(q, 2, n);
  }

  lemma TruncatedFixpoint(a: int, n: nat)
    requires n > 0
    ensures Truncated(a, n) == a <==> n == 1 || a == 0
  {
    if n == 1 {
      assert Truncated(a, 1) == a;
    } else if a != 0 {
      SmallerQuotient(if a < 0 then -a else a, n);
    } else {
      assert 0 / n == 0;
    }
  }

  /** A report after another divides the average once more: it repeats the one before exactly when
      at most one handle succeeded or the average is zero. */
  lemma RepeatedReport(r: Real, c: Call)
    requires RealSettled(r) && r.ping.phase == Probing && r.ping.reports != [] && Allowed(r, c)
    ensures var p, q := r.ping, CalledBack(r, c).ping;
            && |q.reports| == |p.reports| + 1
            && var before, after := p.reports[|p.reports| - 1].data, q.reports[|q.reports| - 1].data;
               (after == before <==> Successes(p.probes) <= 1 || before.avg == 0)
  {
    var p := r.ping;
    EveryLaterCallbackReports(r, c);
    DrainedKeeps(p, c.messages);
    EveryProbeCounts(p.probes);
    if Successes(p.probes) > 0 {
      TruncatedFixpoint(p.data.avg, Successes(p.probes));
    }
  }

  /** Two handles that took 10 and 20 milliseconds: first 15 is reported, then 7. */
  lemma SecondReportIsWrong(request: Request, errorValue: int, garbage: int)
    requires request.totalCount == 2
    ensures var start := RealStarted(NewReal(request, errorValue, garbage), true);
            var first, second := Call(Poll, [Done(0, true, 10), Done(1, true, 20)], 0), Call(Poll, [], 0);
            var p := Answered(start, first);
            var q := Answered(p, second);
            && |p.ping.reports| == 1 && p.ping.reports[0].data.avg == 15
            && |q.ping.reports| == 2 && q.ping.reports[1].data.avg == 7
  {
    var start := RealStarted(NewReal(request, errorValue, garbage), true);
    var one, two := Done(0, true, 10), Done(1, true, 20);
    var p := start.ping;
    assert [one, two][..1] == [one] && [one][..0] == [];
    assert Drained(p, []) == p;
    assert Drained(p, [one]) == Handled(p, one);
    assert Drained(p, [one, two]) == Handled(Handled(p, one), two);
    assert Honest(p, []) && Honest(p, [one]) && Honest(p, [one, two]);
    assert Allowed(start, Call(Poll, [one, two], 0));
  }

  // ------------------------------------------------------------------ the handles

  /** The handles of this test that uv_walk counts. */
  function Handles(r: Real): nat {
    (if r.timer then 1 else 0) + r.sockets
  }

  /** No callback can ever come, and the timer is open. */
  predicate Stuck(r: Real) {
    r.timer && r.ping.probes == []
  }

  /** That is the case exactly without a proxy, or when no probe was wanted. */
  lemma StuckExactly(request: Request, errorValue: int, garbage: int, proxied: bool, calls: seq<Call>)
    ensures Stuck(AllAnswered(RealStarted(NewReal(request, errorValue, garbage), proxied), calls)) <==>
            !proxied || request.totalCount <= 0
  {
    StartSettles(request, errorValue, garbage, proxied);
    CallsSettle(RealStarted(NewReal(request, errorValue, garbage), proxied), calls);
  }

  /** Otherwise a test holds a handle only while some easy handle is active. */
  lemma FinishedHoldsNothing(r: Real)
    requires RealSettled(r) && !Stuck(r) && Open(r.ping.probes) == 0
    ensures Handles(r) == 0
  {
    EveryProbeCounts(r.ping.probes);
  }

  /** The next DONE message is always possible, and leaves one active easy handle less. */
  lemma NextDone(r: Real) returns (c: Call)
    requires RealSettled(r) && Open(r.ping.probes) > 0
    ensures Allowed(r, c) && RealSettled(Answered(r, c))
    ensures Open(Answered(r, c).ping.probes) == Open(r.ping.probes) - 1
    ensures Answered(r, c).ping.request == r.ping.request && Answered(r, c).ping.errorValue == r.ping.errorValue
    ensures Answered(r, c).ping.phase == Probing && Answered(r, c).ping.probes != []
  {
    NoneOpen(r.ping.probes);
    var k: nat :| k < |r.ping.probes| && r.ping.probes[k].None?;
    var m := Done(k, false, 0);
    c := Call(Poll, [m], 0);
    assert [m][..0] == [] && Drained(r.ping, []) == r.ping && Honest(r.ping, []);
    assert Drained(r.ping, [m]) == Handled(r.ping, m);
    EndCounts(r.ping.probes, k, Failed(""));
    CalledBackKeeps(r, c);
  }
}
