/** One TCP test over all its runs: what is counted, reported, and how often. */
module PingRuns {
  import opened Wrappers
  import opened Probes
  import opened Latency

  datatype Step =
    | Start(literal: Option<Address>, failsAtOnce: bool, sync: Outcomes)
    | Dns(event: DnsEvent)
    | Probe(k: nat, e: ProbeEvent)

  /** The environment may offer any step at any time; start is called once. */
  function Next(p: Ping, step: Step): Ping {
    match step
    case Start(literal, failsAtOnce, sync) => if p.phase == Created then Started(p, literal, failsAtOnce, sync) else p
    case Dns(event) => Resolved(p, event)
    case Probe(k, e) => Delivered(p, k, e)
  }

  function Run(p: Ping, steps: seq<Step>): Ping {
    if steps == [] then p else Next(Run(p, steps[..|steps| - 1]), steps[|steps| - 1])
  }

  // -------------------------------------------------------------- invariant

  function Wanted(p: Ping): nat {
    if p.request.totalCount < 0 then 0 else p.request.totalCount
  }

  /** Every wanted probe has ended. */
  predicate Complete(p: Ping) {
    p.request.totalCount > 0 && Failures(p.probes) + Successes(p.probes) == p.request.totalCount
  }

  function FinalAverage(errorValue: int, probes: Outcomes): int {
    if Successes(probes) == 0 then errorValue else Truncated(Total(probes), Successes(probes))
  }

  /** The message is that of the last probe that failed: all that ended after it connected. */
  predicate Blames(message: string, log: seq<(nat, ProbeEvent)>) {
    exists i :: 0 <= i < |log| && log[i].1 == Failed(message) && forall j :: i < j < |log| ==> log[j].1.Connected?
  }

  /** The history names every ended probe once, with the event that ended it. */
  predicate Logged(log: seq<(nat, ProbeEvent)>, probes: Outcomes) {
    && (forall i :: 0 <= i < |log| ==> log[i].0 < |probes| && probes[log[i].0] == Some(log[i].1))
    && (forall i, j :: 0 <= i < j < |log| ==> log[i].0 != log[j].0)
    && (forall k :: 0 <= k < |probes| && probes[k].Some? ==> Names(log, k))
  }

  predicate Names(log: seq<(nat, ProbeEvent)>, k: int) {
    exists i :: 0 <= i < |log| && log[i].0 == k
  }

  /** The counters, as functions of what became of the probes. */
  predicate Counted(p: Ping) {
    && p.data.failedCount == Failures(p.probes)
    && p.successCount == Successes(p.probes)
    && p.data.best == Best(p.errorValue, p.probes)
    && p.data.worst == Worst(0, p.probes)
    && |p.probes| <= Wanted(p)
  }

  /** The figures of a completion, as functions of what became of the probes. */
  predicate Figures(r: TestResult, errorValue: int, probes: Outcomes) {
    && r.failedCount == Failures(probes)
    && r.best == Best(errorValue, probes)
    && r.worst == Worst(0, probes)
    && r.avg == FinalAverage(errorValue, probes)
  }

  /** What a completion says about the probes. */
  predicate Verdict(r: TestResult, errorValue: int, probes: Outcomes, log: seq<(nat, ProbeEvent)>) {
    && Figures(r, errorValue, probes)
    && (Successes(probes) > 0 ==> r.errorMessage == "")
    && (Successes(probes) == 0 ==> Blames(r.errorMessage, log))
  }

  /** Reported once complete, and only then; until then avg is the running sum. */
  predicate Reporting(p: Ping) {
    if Complete(p) then
      && |p.reports| == 1 && p.reports[0].id == p.request.id
      && Verdict(p.reports[0].data, p.errorValue, p.probes, p.log)
    else
      && p.reports == [] && p.data.avg == Total(p.probes)
      && (Failures(p.probes) > 0 ==> Blames(p.data.errorMessage, p.log))
  }

  predicate Settled(p: Ping) {
    match p.phase
    case Created =>
      && p.probes == [] && p.log == [] && p.reports == []
      && p.successCount == 0 && p.data.best == p.errorValue
    case Resolving => p.target.None? && Fresh(p)
    case Unresolved =>
      && p.probes == [] && |p.reports| == 1 && p.reports[0].id == p.request.id
      && p.reports[0].data.avg == p.errorValue && p.reports[0].data.errorMessage == "DNS not resolved"
      && p.reports[0].data.totalCount == 0
    case Probing =>
      && Counted(p) && Reporting(p) && Logged(p.log, p.probes)
      && p.data.totalCount == |p.probes| == Wanted(p)
  }

  /** Nothing launched, counted or reported yet. */
  predicate Fresh(p: Ping) {
    && p.probes == [] && p.log == [] && p.reports == []
    && p.successCount == 0 && p.data.failedCount == 0 && p.data.totalCount == 0
    && p.data.avg == 0 && p.data.worst == 0 && p.data.best == p.errorValue
  }

  /** The counters after a probe has ended, before the host is notified. */
  lemma EndedCounts(p: Ping, k: nat, e: ProbeEvent)
    requires Counted(p) && k < |p.probes| && p.probes[k].None?
    ensures Counted(Ended(p, k, e)) && !Complete(p)
    ensures Ended(p, k, e).probes == p.probes[k := Some(e)]
    ensures Ended(p, k, e).data.totalCount == p.data.totalCount
  {
    EndCounts(p.probes, k, e);
    EndTimes(p.errorValue, p.probes, k, e);
    EndTimes(0, p.probes, k, e);
    EveryProbeCounts(p.probes);
  }

  lemma StillBlamed(message: string, log: seq<(nat, ProbeEvent)>, k: nat, ms: int)
    requires Blames(message, log)
    ensures Blames(message, log + [(k, Connected(ms))])
  {
    var i :| 0 <= i < |log| && log[i].1 == Failed(message) && forall j :: i < j < |log| ==> log[j].1.Connected?;
    assert (log + [(k, Connected(ms))])[i].1 == Failed(message);
  }

  lemma EndedLogs(p: Ping, k: nat, e: ProbeEvent)
    requires Logged(p.log, p.probes) && k < |p.probes| && p.probes[k].None?
    ensures Logged(Ended(p, k, e).log, Ended(p, k, e).probes)
  {
    var log, probes := Ended(p, k, e).log, Ended(p, k, e).probes;
    assert probes == p.probes[k := Some(e)];
    forall j | 0 <= j < |probes| && probes[j].Some? ensures Names(log, j) {
      if j == k {
        assert log[|p.log|].0 == k;
      } else {
        var i :| 0 <= i < |p.log| && p.log[i].0 == j;
        assert log[i].0 == j;
      }
    }
  }

  /** Ending a probe reports exactly when it was the last one. */
  lemma EndedReports(p: Ping, k: nat, e: ProbeEvent)
    requires Counted(p) && Reporting(p) && k < |p.probes| && p.probes[k].None?
    ensures Reporting(Ended(p, k, e))
    ensures Ended(p, k, e).reports != [] ==> Ended(p, k, e).reports[0].data.totalCount == p.data.totalCount
  {
    EndedCounts(p, k, e);
    EndTimes(0, p.probes, k, e);
    EndCounts(p.probes, k, e);
    if e.Failed? {
      assert (p.log + [(k, e)])[|p.log|].1 == Failed(e.message);
    } else if Failures(p.probes) > 0 {
      StillBlamed(p.data.errorMessage, p.log, k, e.ms);
    }
  }

  /** The launch loop's invariant. */
  predicate Launching(p: Ping) {
    p.phase == Probing && Counted(p) && Reporting(p) && Logged(p.log, p.probes) && p.data.totalCount == |p.probes|
  }

  /** A newly launched probe is open, and nothing else changes. */
  lemma OpenedKeeps(p: Ping)
    requires Launching(p) && p.data.totalCount < p.request.totalCount
    ensures var q := p.(probes := p.probes + [None]);
            Counted(q) && Reporting(q) && Logged(q.log, q.probes) && q.reports == [] && |q.probes| <= Wanted(p)
  {
    LaunchCounts(p.probes);
    EveryProbeCounts(p.probes);
  }

  lemma LaunchedOneKeeps(p: Ping, sync: Outcomes)
    requires Launching(p) && p.data.totalCount < p.request.totalCount
    ensures Launching(LaunchedOne(p, sync))
    ensures LaunchedOne(p, sync).probes == p.probes + [SyncEvent(sync, |p.probes|)]
    ensures LaunchedOne(p, sync).reports != [] ==>
              LaunchedOne(p, sync).reports[0].data.totalCount == |p.probes| == Wanted(p) - 1
  {
    OpenedKeeps(p);
    var q := p.(probes := p.probes + [None]);
    var e := SyncEvent(sync, p.data.totalCount);
    if e.Some? {
      EndedCounts(q, |p.probes|, e.value);
      EndedReports(q, |p.probes|, e.value);
      EndedLogs(q, |p.probes|, e.value);
      EveryProbeCounts(Ended(q, |p.probes|, e.value).probes);
    }
  }

  /** The launch loop launches every wanted probe, in a settled state. */
  lemma {:induction false} LaunchedSettles(p: Ping, sync: Outcomes)
    requires Launching(p)
    ensures Settled(Launched(p, sync)) && Launched(p, sync).phase == Probing
    decreases p.request.totalCount - p.data.totalCount
  {
    if p.data.totalCount < p.request.totalCount {
      LaunchedOneKeeps(p, sync);
      LaunchedSettles(LaunchedOne(p, sync), sync);
    }
  }

  lemma LaunchedFromFresh(p: Ping, sync: Outcomes)
    requires p.phase == Probing && Fresh(p)
    ensures Launching(p)
    ensures Settled(Launched(p, sync)) && Launched(p, sync).phase == Probing
  {
    LaunchedSettles(p, sync);
  }

  /** No step leaves the settled states. */
  lemma NextSettles(p: Ping, step: Step)
    requires Settled(p)
    ensures Settled(Next(p, step))
    ensures Next(p, step).request == p.request && Next(p, step).errorValue == p.errorValue
  {
    NextKeepsRequest(p, step);
    match step
    case Start(literal, failsAtOnce, sync) =>
      if p.phase == Created && literal.Some? {
        LaunchedFromFresh(Reset(p, literal).(phase := Probing), sync);
      }
    case Dns(event) =>
      if p.phase == Resolving && event.Addresses? && event.list.Entry? {
        LaunchedFromFresh(Aimed(p, event.list), event.sync);
      }
    case Probe(k, e) =>
      if p.phase == Probing && k < |p.probes| && p.probes[k].None? {
        EndedCounts(p, k, e);
        EndedReports(p, k, e);
        EndedLogs(p, k, e);
      }
  }

  lemma {:induction false} LaunchedKeepsRequest(p: Ping, sync: Outcomes)
    ensures Launched(p, sync).request == p.request && Launched(p, sync).errorValue == p.errorValue
    ensures Launched(p, sync).target == p.target
    decreases p.request.totalCount - p.data.totalCount
  {
    if p.data.totalCount < p.request.totalCount {
      LaunchedKeepsRequest(LaunchedOne(p, sync), sync);
    }
  }

  lemma NextKeepsRequest(p: Ping, step: Step)
    ensures Next(p, step).request == p.request && Next(p, step).errorValue == p.errorValue
  {
    match step
    case Start(literal, failsAtOnce, sync) =>
      LaunchedKeepsRequest(Reset(p, literal).(phase := Probing), sync);
    case Dns(event) =>
      if event.Addresses? {
        LaunchedKeepsRequest(Aimed(p, event.list), event.sync);
      }
    case Probe(k, e) =>
  }

  /** A lookup fails exactly on an error or an empty list; any entry at all starts the probes. */
  lemma LookupDecides(p: Ping, e: DnsEvent)
    requires p.phase == Resolving && Settled(p)
    ensures Resolved(p, e).phase == (if e.DnsFailed? || e.list.End? then Unresolved else Probing)
  {
    if e.Addresses? && e.list.Entry? {
      LaunchedFromFresh(Aimed(p, e.list), e.sync);
    }
  }

  /** Only names are looked up; the probes of a literal address go there. */
  lemma StartDecides(p: Ping, literal: Option<Address>, failsAtOnce: bool, sync: Outcomes)
    requires p.phase == Created && Settled(p)
    ensures Started(p, literal, failsAtOnce, sync).phase ==
            if literal.Some? then Probing else if failsAtOnce then Unresolved else Resolving
    ensures Started(p, literal, failsAtOnce, sync).target == literal
  {
    if literal.Some? {
      LaunchedKeepsRequest(Reset(p, literal).(phase := Probing), sync);
      LaunchedFromFresh(Reset(p, literal).(phase := Probing), sync);
    }
  }

  // --------------------------------------------------------------- all runs

  lemma {:induction false} RunSettles(request: Request, errorValue: int, garbage: int, steps: seq<Step>)
    ensures var p := Run(NewPing(request, errorValue, garbage), steps);
            Settled(p) && p.request == request && p.errorValue == errorValue
  {
    if steps == [] {
    } else {
      var n := |steps| - 1;
      RunSettles(request, errorValue, garbage, steps[..n]);
      NextSettles(Run(NewPing(request, errorValue, garbage), steps[..n]), steps[n]);
    }
  }

  /** In every run failures, successes and open probes add up to the probes launched. */
  lemma ProbesAreConserved(request: Request, errorValue: int, garbage: int, steps: seq<Step>)
    ensures var p := Run(NewPing(request, errorValue, garbage), steps);
            p.phase == Probing ==>
              && p.data.failedCount + p.successCount + Open(p.probes) == |p.probes| == p.data.totalCount
              && |p.probes| == Wanted(p)
  {
    RunSettles(request, errorValue, garbage, steps);
    EveryProbeCounts(Run(NewPing(request, errorValue, garbage), steps).probes);
  }

  /** In every run at most one completion is emitted, and one is emitted exactly when the lookup
      has failed, or some probe was wanted, all are launched and none is open. */
  lemma ReportedExactlyOnce(request: Request, errorValue: int, garbage: int, steps: seq<Step>)
    ensures var p := Run(NewPing(request, errorValue, garbage), steps);
            && |p.reports| <= 1
            && (|p.reports| == 1 <==>
                p.phase == Unresolved || (p.phase == Probing && request.totalCount > 0 && Open(p.probes) == 0))
            && forall r :: r in p.reports ==> r.id == request.id
  {
    RunSettles(request, errorValue, garbage, steps);
    EveryProbeCounts(Run(NewPing(request, errorValue, garbage), steps).probes);
  }

  /** What a completion contains, in every run that reached its probes: the integer mean between
      best and worst, or the error value when none succeeded. */
  lemma ReportIsTheMean(request: Request, errorValue: int, garbage: int, steps: seq<Step>)
    ensures var p := Run(NewPing(request, errorValue, garbage), steps);
            p.phase == Probing && p.reports != [] ==>
              var r := p.reports[0].data;
              && Verdict(r, errorValue, p.probes, p.log) && Logged(p.log, p.probes)
              && r.failedCount + Successes(p.probes) == request.totalCount
              && (Successes(p.probes) > 0 ==>
                    && var n, t, q := Successes(p.probes), Total(p.probes), r.avg;
                       && (t >= 0 ==> n * q <= t < n * q + n)
                       && (t < 0 ==> n * q - n < t <= n * q)
                       && r.best <= q <= r.worst)
              && (Successes(p.probes) == 0 ==> r.avg == errorValue)
  {
    RunSettles(request, errorValue, garbage, steps);
    var p := Run(NewPing(request, errorValue, garbage), steps);
    if Successes(p.probes) > 0 {
      MeanBetween(errorValue, 0, p.probes);
      TruncatedIsClose(Total(p.probes), Successes(p.probes));
    }
  }

  /** What a completion contains, in every run whose lookup failed. */
  lemma ReportOfFailedLookup(request: Request, errorValue: int, garbage: int, steps: seq<Step>)
    ensures var p := Run(NewPing(request, errorValue, garbage), steps);
            p.phase == Unresolved ==>
              && |p.reports| == 1 && p.reports[0].id == request.id
              && p.reports[0].data.avg == errorValue && p.reports[0].data.errorMessage == "DNS not resolved"
  {
    RunSettles(request, errorValue, garbage, steps);
  }

  // ----------------------------------------------- interleavings do not matter

  function DeliveredAll(p: Ping, events: seq<(nat, ProbeEvent)>): Ping {
    if events == [] then p
    else
      var (k, e) := events[|events| - 1];
      Delivered(DeliveredAll(p, events[..|events| - 1]), k, e)
  }

  /** The first event offered to probe k, if any. */
  function FirstFor(events: seq<(nat, ProbeEvent)>, k: nat): Option<ProbeEvent> {
    if events == [] then None
    else
      var earlier := FirstFor(events[..|events| - 1], k);
      if earlier.Some? then earlier
      else if events[|events| - 1].0 == k then Some(events[|events| - 1].1)
      else None
  }

  /** A probe ends with its own first event, whatever is offered to the others in between. */
  lemma {:induction false} EndsWithFirstEvent(p: Ping, events: seq<(nat, ProbeEvent)>, k: nat)
    requires Settled(p) && p.phase == Probing && k < |p.probes|
    ensures var q := DeliveredAll(p, events);
            && Settled(q) && q.phase == Probing && |q.probes| == |p.probes|
            && q.request == p.request && q.errorValue == p.errorValue
            && q.probes[k] == if p.probes[k].Some? then p.probes[k] else FirstFor(events, k)
  {
    if events == [] {
    } else {
      var n := |events| - 1;
      EndsWithFirstEvent(p, events[..n], k);
      var q := DeliveredAll(p, events[..n]);
      NextSettles(q, Probe(events[n].0, events[n].1));
    }
  }

  // -------------------------------------------------- the reported total count

  lemma {:induction false} LaunchedProbes(p: Ping, sync: Outcomes)
    requires Launching(p)
    ensures var q := Launched(p, sync);
            && |q.probes| == Wanted(p)
            && (forall k :: 0 <= k < |p.probes| ==> q.probes[k] == p.probes[k])
            && (forall k :: |p.probes| <= k < |q.probes| ==> q.probes[k] == SyncEvent(sync, k))
            && (p.reports == [] && q.reports != [] ==> q.reports[0].data.totalCount == Wanted(p) - 1)
    decreases p.request.totalCount - p.data.totalCount
  {
    if p.data.totalCount < p.request.totalCount {
      LaunchedOneKeeps(p, sync);
      var r := LaunchedOne(p, sync);
      LaunchedProbes(r, sync);
      if r.reports != [] {
        assert r.data.totalCount == p.request.totalCount;
      }
    }
  }

  /** The launch loop reports exactly when every probe ended before its own connect returned. */
  lemma LaunchReports(p: Ping, sync: Outcomes)
    requires p.phase == Probing && Fresh(p)
    ensures var q := Launched(p, sync);
            && (q.reports != [] <==> Wanted(p) > 0 && forall k :: 0 <= k < Wanted(p) ==> SyncEvent(sync, k).Some?)
            && (q.reports != [] ==> q.reports[0].data.totalCount == Wanted(p) - 1)
  {
    LaunchedFromFresh(p, sync);
    LaunchedProbes(p, sync);
    var q := Launched(p, sync);
    LaunchedKeepsRequest(p, sync);
    EveryProbeCounts(q.probes);
    NoneOpen(q.probes);
  }

  lemma ReportedOnce(p: Ping, k: nat, e: ProbeEvent)
    requires Settled(p) && p.phase == Probing
    ensures p.reports != [] ==> Delivered(p, k, e) == p
    ensures p.reports == [] && Delivered(p, k, e).reports != [] ==>
              Delivered(p, k, e).reports[0].data.totalCount == Wanted(p)
  {
    if p.reports != [] {
      EveryProbeCounts(p.probes);
      NoneOpen(p.probes);
    } else if k < |p.probes| && p.probes[k].None? {
      EndedReports(p, k, e);
    }
  }

  /** The connect of probe k raised nothing. */
  predicate Waited(sync: Outcomes, k: nat) {
    k < |sync| ==> sync[k].None?
  }

  /** Some probe was still open when its connect returned. */
  predicate SomeWaited(p: Ping, sync: Outcomes) {
    exists k: nat :: k < Wanted(p) && Waited(sync, k)
  }

  /** The total count of the completion, once the probes are launched with these events. */
  predicate Naming(p: Ping, sync: Outcomes) {
    p.phase == Probing ==>
      && (p.reports == [] && Wanted(p) > 0 ==> SomeWaited(p, sync))
      && (p.reports != [] ==>
            p.reports[0].data.totalCount == if SomeWaited(p, sync) then Wanted(p) else Wanted(p) - 1)
  }

  lemma LaunchNames(p: Ping, sync: Outcomes)
    requires p.phase == Probing && Fresh(p)
    ensures Naming(Launched(p, sync), sync)
  {
    LaunchReports(p, sync);
    LaunchedKeepsRequest(p, sync);
    assert forall k: nat :: SyncEvent(sync, k).None? <==> Waited(sync, k);
  }

  lemma DeliveryNames(p: Ping, sync: Outcomes, k: nat, e: ProbeEvent)
    requires Settled(p) && p.phase == Probing && Naming(p, sync)
    ensures Naming(Delivered(p, k, e), sync)
  {
    ReportedOnce(p, k, e);
  }

  /** The events raised inside the launch loop of the run, if it has come that far. */
  function SyncOf(p: Ping, steps: seq<Step>): Outcomes {
    if steps == [] then []
    else
      var n := |steps| - 1;
      var q := Run(p, steps[..n]);
      match steps[n]
      case Start(literal, _, sync) => if q.phase == Created && literal.Some? then sync else SyncOf(p, steps[..n])
      case Dns(Addresses(list, sync)) =>
        if q.phase == Resolving && list.Entry? then sync else SyncOf(p, steps[..n])
      case _ => SyncOf(p, steps[..n])
  }

  lemma StepNames(p: Ping, step: Step, sync: Outcomes)
    requires Settled(p) && Naming(p, sync)
    ensures match step
      case Start(literal, _, sync') =>
        Naming(Next(p, step), if p.phase == Created && literal.Some? then sync' else sync)
      case Dns(Addresses(list, sync')) =>
        Naming(Next(p, step), if p.phase == Resolving && list.Entry? then sync' else sync)
      case _ => Naming(Next(p, step), sync)
  {
    match step
    case Start(literal, failsAtOnce, sync') =>
      if p.phase == Created && literal.Some? {
        LaunchNames(Reset(p, literal).(phase := Probing), sync');
      }
    case Dns(event) =>
      if p.phase == Resolving && event.Addresses? && event.list.Entry? {
        LaunchNames(Aimed(p, event.list), event.sync);
      }
    case Probe(k, e) =>
      if p.phase == Probing {
        DeliveryNames(p, sync, k, e);
      }
  }

  lemma {:induction false} RunNames(p: Ping, steps: seq<Step>)
    requires Settled(p) && p.phase == Created
    ensures Settled(Run(p, steps)) && Naming(Run(p, steps), SyncOf(p, steps))
  {
    if steps == [] {
    } else {
      var n := |steps| - 1;
      RunNames(p, steps[..n]);
      NextSettles(Run(p, steps[..n]), steps[n]);
      StepNames(Run(p, steps[..n]), steps[n], SyncOf(p, steps[..n]));
    }
  }

  /** In every run, the completion names the number of probes wanted exactly when some probe was
      still open when its connect returned, or the lookup failed and none was wanted.  With all
      probes ended inside their connects it names one too few, because the last is not counted
      yet; with a failed lookup, none. */
  lemma ReportedTotalCount(request: Request, errorValue: int, garbage: int, steps: seq<Step>)
    ensures var o := NewPing(request, errorValue, garbage);
            var p, sync := Run(o, steps), SyncOf(o, steps);
            p.reports != [] ==>
              var named := p.reports[0].data.totalCount;
              && (p.phase == Unresolved || p.phase == Probing)
              && (named == Wanted(p) <==> if p.phase == Probing then SomeWaited(p, sync) else Wanted(p) == 0)
              && named == (if p.phase == Unresolved then 0
                           else if SomeWaited(p, sync) then Wanted(p)
                           else Wanted(p) - 1)
  {
    RunNames(NewPing(request, errorValue, garbage), steps);
  }

  /** A failed lookup for any number of probes: the completion names none. */
  lemma FailedLookupNamesNone(request: Request, errorValue: int, garbage: int)
    requires request.totalCount > 0
    ensures var p := Run(NewPing(request, errorValue, garbage), [Start(None, false, []), Dns(DnsFailed)]);
            |p.reports| == 1 && p.reports[0].data.totalCount == 0 != Wanted(p)
  {
    var o := NewPing(request, errorValue, garbage);
    var steps := [Start(None, false, []), Dns(DnsFailed)];
    assert steps[..1] == [steps[0]] && steps[..1][..0] == [] && Run(o, []) == o;
    assert Run(o, steps[..1]) == Started(o, None, false, []);
  }

  /** One probe that fails inside its connect: the completion names none. */
  lemma OneProbeReportsNone(request: Request, errorValue: int, garbage: int, address: Address)
    requires request.totalCount == 1
    ensures var p := Run(NewPing(request, errorValue, garbage), [Start(Some(address), false, [Some(Failed(""))])]);
            |p.reports| == 1 && p.reports[0].data.totalCount == 0 && p.reports[0].data.failedCount == 1
  {
    var o := NewPing(request, errorValue, garbage);
    var sync := [Some(Failed(""))];
    var step := Start(Some(address), false, sync);
    assert [step][..0] == [] && Run(o, []) == o;
    var p := Reset(o, Some(address)).(phase := Probing);
    LaunchReports(p, sync);
    LaunchedFromFresh(p, sync);
    LaunchedKeepsRequest(p, sync);
    LaunchedProbes(p, sync);
    var q := Launched(p, sync);
    assert q.probes == [Some(Failed(""))] && q.probes[..0] == [];
  }

  // ------------------------------------------------------- where probes go

  /** The probes of a name go to the chosen address; with a list in which none is chosen they are
      launched all the same, with the family still -1, and that misses a usable address exactly
      when an IPv6 entry hides behind a head of another family. */
  lemma LookupTarget(p: Ping, list: AddrInfo, sync: Outcomes)
    requires Settled(p) && p.phase == Resolving && list.Entry?
    ensures var q := Resolved(p, Addresses(list, sync));
            && q.phase == Probing && |q.probes| == Wanted(p) && q.target == Chosen(list)
            && (q.target.None? && HasUsable(Entries(list)) <==>
                var entries := Entries(list);
                && NoInet(entries) && entries[0].0 == Other
                && exists i :: 0 < i < |entries| && entries[i].0 == Inet6)
  {
    LaunchedFromFresh(Aimed(p, list), sync);
    LaunchedKeepsRequest(Aimed(p, list), sync);
    MissedExactly(list);
  }

  /** From then on the address does not change. */
  lemma TargetIsKept(p: Ping, step: Step)
    requires p.phase == Probing
    ensures Next(p, step).target == p.target && Next(p, step).phase == Probing
  {
  }

  /** A run whose lookup offers an IPv6 address and whose probe has no address. */
  lemma ProbesWithoutAddress(request: Request, errorValue: int, garbage: int)
    requires request.totalCount == 1
    ensures var list := Entry(Other, 0, Entry(Inet6, 1, End));
            var p := Run(NewPing(request, errorValue, garbage), [Start(None, false, []), Dns(Addresses(list, []))]);
            HasUsable(Entries(list)) && p.phase == Probing && |p.probes| == 1 && p.target.None?
  {
    var o := NewPing(request, errorValue, garbage);
    var list := Entry(Other, 0, Entry(Inet6, 1, End));
    var steps := [Start(None, false, []), Dns(Addresses(list, []))];
    assert steps[..1] == [steps[0]] && steps[..1][..0] == [] && Run(o, []) == o;
    assert Run(o, steps[..1]) == Started(o, None, false, []);
    assert Entries(list) == [(Other, 0)] + ([(Inet6, 1)] + []);
    assert Entries(list)[1].0 == Inet6;
    LookupTarget(Started(o, None, false, []), list, []);
  }

  // ----------------------------------------------- schedules do not matter

  /** What a schedule makes of probe k: an event raised inside its launch comes first. */
  function OutcomeOf(sync: Outcomes, events: seq<(nat, ProbeEvent)>, k: nat): Option<ProbeEvent> {
    if k < |sync| && sync[k].Some? then sync[k] else FirstFor(events, k)
  }

  lemma ScheduleDecides(p: Ping, sync: Outcomes, events: seq<(nat, ProbeEvent)>)
    requires p.phase == Probing && Fresh(p) && Wanted(p) > 0
    ensures var q := DeliveredAll(Launched(p, sync), events);
            && Settled(q) && q.phase == Probing && q.request == p.request && q.errorValue == p.errorValue
            && |q.probes| == Wanted(p)
            && forall k :: 0 <= k < |q.probes| ==> q.probes[k] == OutcomeOf(sync, events, k)
  {
    LaunchedFromFresh(p, sync);
    LaunchedProbes(p, sync);
    LaunchedKeepsRequest(p, sync);
    var l := Launched(p, sync);
    EndsWithFirstEvent(l, events, 0);
    forall k | 0 <= k < |l.probes| ensures DeliveredAll(l, events).probes[k] == OutcomeOf(sync, events, k) {
      EndsWithFirstEvent(l, events, k);
    }
  }

  /** Two schedules that end every probe alike report alike: the same counts, best, worst and
      average, and equally often, whichever events were raised inside the launch loop and in
      whatever order the others came. */
  lemma ScheduleIrrelevant(
    p: Ping, sync: Outcomes, events: seq<(nat, ProbeEvent)>, sync': Outcomes, events': seq<(nat, ProbeEvent)>)
    requires p.phase == Probing && Fresh(p) && Wanted(p) > 0
    requires forall k :: 0 <= k < Wanted(p) ==> OutcomeOf(sync, events, k) == OutcomeOf(sync', events', k)
    ensures var q, r := DeliveredAll(Launched(p, sync), events), DeliveredAll(Launched(p, sync'), events');
            && q.probes == r.probes && |q.reports| == |r.reports|
            && (q.reports != [] ==>
                  var x, y := q.reports[0].data, r.reports[0].data;
                  x.failedCount == y.failedCount && x.avg == y.avg && x.best == y.best && x.worst == y.worst)
  {
    ScheduleDecides(p, sync, events);
    ScheduleDecides(p, sync', events');
    var q, r := DeliveredAll(Launched(p, sync), events), DeliveredAll(Launched(p, sync'), events');
    assert q.probes == r.probes;
  }
}
