/** TCPing and its lookup base class: the objects whose callbacks the event loop runs. */
module TCPings {
  import opened Wrappers
  import opened Probes
  import opened Latency

  class TCPing {
    const request: Request
    const errorValue: int
    var phase: Phase
    var data: TestResult
    var successCount: nat
    var probes: Outcomes
    var reports: seq<Report>
    var af: Option<Family>
    var storage: nat
    ghost var log: seq<(nat, ProbeEvent)>

    ghost function Target(): Option<Address>
      reads this
    {
      if af.Some? then Some((af.value, storage)) else None
    }

    ghost function View(): Ping
      reads this
    {
      Ping(request, errorValue, phase, data, successCount, Target(), probes, log, reports)
    }

    constructor (request: Request, errorValue: int, garbage: int)
      ensures View() == NewPing(request, errorValue, garbage)
    {
      this.request := request;
      this.errorValue := errorValue;
      phase := Created;
      data := TestResult("", garbage, garbage, errorValue, errorValue, errorValue);
      successCount := 0;
      probes := [];
      reports := [];
      af := Some(Inet);
      storage := 0;
      log := [];
    }

    method NotifyTestHost()
      modifies this
      ensures View() == Notified(old(View()))
    {
      if data.failedCount + successCount == request.totalCount {
        if data.failedCount == request.totalCount {
          data := data.(avg := errorValue);
        } else {
          data := data.(errorMessage := "");
          data := data.(avg := Truncated(data.avg, successCount));
        }
        reports := reports + [Report(request.id, data)];
      }
    }

    method OnError(k: nat, what: string)
      requires k < |probes|
      modifies this
      ensures View() == Ended(old(View()), k, Failed(what))
    {
      data := data.(failedCount := data.failedCount + 1);
      data := data.(errorMessage := what);
      NotifyTestHost();
      probes := probes[k := Some(Failed(what))];
      log := log + [(k, Failed(what))];
    }

    method OnConnect(k: nat, ms: int)
      requires k < |probes|
      modifies this
      ensures View() == Ended(old(View()), k, Connected(ms))
    {
      successCount := successCount + 1;
      data := data.(avg := data.avg + ms);
      data := data.(worst := Max(data.worst, ms));
      data := data.(best := Min(data.best, ms));
      NotifyTestHost();
      probes := probes[k := Some(Connected(ms))];
      log := log + [(k, Connected(ms))];
    }

    /** The loop delivers an event on handle k; without a listener nothing happens. */
    method OnEvent(k: nat, e: ProbeEvent)
      modifies this
      ensures View() == Delivered(old(View()), k, e)
    {
      if phase == Probing && k < |probes| && probes[k].None? {
        match e
        case Failed(what) => OnError(k, what);
        case Connected(ms) => OnConnect(k, ms);
      }
    }

    /** One turn of the loop; connect may raise the event before it returns. */
    method LaunchProbe(sync: Outcomes)
      modifies this
      ensures View() == LaunchedOne(old(View()), sync)
    {
      probes := probes + [None];
      var e := SyncEvent(sync, data.totalCount);
      if e.Some? {
        match e.value
        case Failed(what) => OnError(|probes| - 1, what);
        case Connected(ms) => OnConnect(|probes| - 1, ms);
      }
      data := data.(totalCount := data.totalCount + 1);
    }

    method LaunchProbes(sync: Outcomes)
      modifies this
      ensures View() == Launched(old(View()), sync)
    {
      while data.totalCount < request.totalCount
        invariant Launched(View(), sync) == Launched(old(View()), sync)
      {
        LaunchProbe(sync);
      }
    }

    /** Zero when the list has an entry; af and storage take the chosen address, if any. */
    method GetAddrInfoRes(list: AddrInfo) returns (r: int)
      modifies `af, `storage
      ensures r == (if list.Entry? then 0 else -1)
      ensures Target() == if Chosen(list).Some? then Chosen(list) else old(Target())
    {
      var rp := list;
      while rp.Entry? && rp.family != Inet
        invariant FirstInet(rp) == FirstInet(list)
        decreases rp
      {
        rp := rp.next;
      }
      if rp.Entry? {
        af, storage := Some(Inet), rp.address;
      } else {
        rp := list;
        if rp.Entry? {
          // the source tests for IPv4 once more here; the first loop has excluded it
          if rp.family == Inet6 {
            af, storage := Some(Inet6), rp.address;
          }
        }
      }
      r := if rp.Entry? then 0 else -1;
    }

    method ReportUnresolved()
      modifies this
      ensures View() == LookupFailed(old(View()))
    {
      data := data.(errorMessage := "DNS not resolved");
      data := data.(avg := errorValue);
      reports := reports + [Report(request.id, data)];
      phase := Unresolved;
    }

    /** The lookup coroutine, resumed by an event of the lookup. */
    method ResumeLookup(e: DnsEvent)
      modifies this
      ensures View() == Resolved(old(View()), e)
    {
      if phase == Resolving {
        match e
        case DnsFailed =>
          ReportUnresolved();
        case Addresses(list, sync) =>
          var r := GetAddrInfoRes(list);
          if r != 0 {
            ReportUnresolved();
          } else {
            phase := Probing;
            LaunchProbes(sync);
          }
      }
    }

    /** literal is the address the host text denotes, if it is one; None in af is the -1 of the
        source, kept until a lookup chooses an address. */
    method Start(literal: Option<Address>, failsAtOnce: bool, sync: Outcomes)
      modifies this
      ensures View() == Started(old(View()), literal, failsAtOnce, sync)
    {
      data := data.(totalCount := 0);
      data := data.(failedCount := 0);
      data := data.(worst := 0);
      data := data.(avg := 0);
      if literal.Some? {
        af, storage := Some(literal.value.0), literal.value.1;
        phase := Probing;
        LaunchProbes(sync);
      } else {
        af := None;
        phase := Resolving;
        if failsAtOnce {
          ResumeLookup(DnsFailed);
        }
      }
    }
  }
}
