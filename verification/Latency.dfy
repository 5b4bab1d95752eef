/** The data of a latency test, and the values of one TCP test as it runs. */
module Latency {
  import opened Wrappers
  import opened Probes

  datatype Method = ICMPING | TCPING | REALPING

  datatype Request = Request(id: string, host: string, port: int, totalCount: int, kind: Method)

  datatype TestResult = TestResult(
    errorMessage: string,
    totalCount: int,
    failedCount: int,
    worst: int,
    best: int,
    avg: int)

  /** The completion the host is notified of. */
  datatype Report = Report(id: string, data: TestResult)

  // ------------------------------------------------------- name resolution

  datatype Family = Inet | Inet6 | Other

  type Address = (Family, nat)

  /** The linked list of getaddrinfo. */
  datatype AddrInfo = End | Entry(family: Family, address: nat, next: AddrInfo)

  function FirstInet(list: AddrInfo): Option<nat> {
    match list
    case End => None
    case Entry(family, address, next) => if family == Inet then Some(address) else FirstInet(next)
  }

  /** The address getAddrInfoRes stores: the first IPv4 one, or else the head if it is IPv6. */
  function Chosen(list: AddrInfo): Option<Address> {
    if FirstInet(list).Some? then Some((Inet, FirstInet(list).value))
    else if list.Entry? && list.family == Inet6 then Some((Inet6, list.address))
    else None
  }

  /** The entries in their order. */
  function Entries(list: AddrInfo): seq<Address> {
    match list
    case End => []
    case Entry(family, address, next) => [(family, address)] + Entries(next)
  }

  predicate NoInet(entries: seq<Address>) {
    forall i :: 0 <= i < |entries| ==> entries[i].0 != Inet
  }

  /** Entry i is the first IPv4 one. */
  predicate FirstInetAt(entries: seq<Address>, i: nat) {
    i < |entries| && entries[i].0 == Inet && NoInet(entries[..i])
  }

  predicate HasUsable(entries: seq<Address>) {
    exists i :: 0 <= i < |entries| && entries[i].0 != Other
  }

  /** The walk stops at the first IPv4 entry, and at none if there is none. */
  lemma {:induction false} FirstInetExactly(list: AddrInfo)
    ensures FirstInet(list).None? <==> NoInet(Entries(list))
    ensures forall a :: FirstInet(list) == Some(a) <==>
                        exists i: nat :: FirstInetAt(Entries(list), i) && Entries(list)[i].1 == a
  {
    var entries := Entries(list);
    if list.End? {
    } else if list.family == Inet {
      assert FirstInetAt(entries, 0);
    } else {
      FirstInetExactly(list.next);
      var rest := Entries(list.next);
      assert forall i :: 0 <= i < |rest| ==> entries[i + 1] == rest[i];
      assert forall i :: 0 < i < |entries| ==> entries[i] == rest[i - 1];
      forall i: nat ensures FirstInetAt(rest, i) <==> FirstInetAt(entries, i + 1) {
        FirstInetShifts((list.family, list.address), rest, i);
      }
      assert !FirstInetAt(entries, 0);
      assert forall i: nat :: FirstInetAt(entries, i) ==> i > 0 && FirstInetAt(rest, i - 1);
    }
  }

  lemma FirstInetShifts(x: Address, rest: seq<Address>, i: nat)
    requires x.0 != Inet
    ensures FirstInetAt(rest, i) <==> FirstInetAt([x] + rest, i + 1)
  {
    if i < |rest| {
      assert ([x] + rest)[..i + 1] == [x] + rest[..i];
      assert forall j :: 0 <= j < i ==> ([x] + rest[..i])[j + 1] == rest[..i][j];
    }
  }

  /** The stored address is that of the first IPv4 entry; without one, that of an IPv6 head. */
  lemma ChosenExactly(list: AddrInfo, x: Address)
    ensures Chosen(list) == Some(x) <==>
            var entries := Entries(list);
            || (exists i: nat :: FirstInetAt(entries, i) && entries[i] == x)
            || (NoInet(entries) && entries != [] && entries[0] == x && x.0 == Inet6)
  {
    FirstInetExactly(list);
  }

  /** A usable address is missed exactly when no entry is IPv4, the head is of another family, and
      an IPv6 entry comes behind it. */
  lemma MissedExactly(list: AddrInfo)
    ensures var entries := Entries(list);
            HasUsable(entries) && Chosen(list).None? <==>
            && NoInet(entries) && entries != [] && entries[0].0 == Other
            && exists i :: 0 < i < |entries| && entries[i].0 == Inet6
  {
    FirstInetExactly(list);
  }

  /** With IPv4 and IPv6 entries only, as resolvers return them without hints, one is always chosen. */
  lemma InetFamiliesSuffice(list: AddrInfo)
    requires forall i :: 0 <= i < |Entries(list)| ==> Entries(list)[i].0 != Other
    ensures Chosen(list).Some? <==> list.Entry?
  {
    FirstInetExactly(list);
    if list.Entry? {
      assert Entries(list)[0] == (list.family, list.address);
    }
  }

  datatype DnsEvent =
    | DnsFailed
    | Addresses(list: AddrInfo, sync: Outcomes)

  // ------------------------------------------------------------ one TCP test

  /** Where the lookup coroutine stands, and how it ended. */
  datatype Phase = Created | Resolving | Unresolved | Probing

  /** target is what af and storage say, None for the family -1; log is the history of the probes
      that have ended, in the order in which they did. */
  datatype Ping = Ping(
    request: Request,
    errorValue: int,
    phase: Phase,
    data: TestResult,
    successCount: nat,
    target: Option<Address>,
    probes: Outcomes,
    log: seq<(nat, ProbeEvent)>,
    reports: seq<Report>)

  /** Before start the counts are not initialised; garbage stands for what they hold. */
  function NewPing(request: Request, errorValue: int, garbage: int): Ping {
    var data := TestResult("", garbage, garbage, errorValue, errorValue, errorValue);
    Ping(request, errorValue, Created, data, 0, Some((Inet, 0)), [], [], [])
  }

  function Notified(p: Ping): Ping {
    if p.data.failedCount + p.successCount == p.request.totalCount then
      var data :=
        if p.data.failedCount == p.request.totalCount then p.data.(avg := p.errorValue)
        else p.data.(errorMessage := "", avg := Truncated(p.data.avg, p.successCount));
      p.(data := data, reports := p.reports + [Report(p.request.id, data)])
    else p
  }

  /** The callback of probe k: the counters, the notification, and the listeners cleared. */
  function Ended(p: Ping, k: nat, e: ProbeEvent): Ping
    requires k < |p.probes|
  {
    var q := match e
      case Failed(message) =>
        p.(data := p.data.(failedCount := p.data.failedCount + 1, errorMessage := message))
      case Connected(ms) =>
        p.(successCount := p.successCount + 1,
           data := p.data.(avg := p.data.avg + ms, worst := Max(p.data.worst, ms), best := Min(p.data.best, ms)));
    Notified(q).(probes := p.probes[k := Some(e)], log := p.log + [(k, e)])
  }

  /** An event on a handle reaches the callback only while its listeners are registered. */
  function Delivered(p: Ping, k: nat, e: ProbeEvent): Ping {
    if p.phase == Probing && k < |p.probes| && p.probes[k].None? then Ended(p, k, e) else p
  }

  /** What connect of probe k raises before it returns, if anything. */
  function SyncEvent(sync: Outcomes, k: int): Option<ProbeEvent> {
    if 0 <= k < |sync| then sync[k] else None
  }

  /** One turn of the launch loop. */
  function LaunchedOne(p: Ping, sync: Outcomes): (q: Ping)
    ensures q.data.totalCount == p.data.totalCount + 1 && q.request == p.request
  {
    var q := p.(probes := p.probes + [None]);
    var e := SyncEvent(sync, p.data.totalCount);
    var r := if e.Some? then Ended(q, |p.probes|, e.value) else q;
    r.(data := r.data.(totalCount := r.data.totalCount + 1))
  }

  function Launched(p: Ping, sync: Outcomes): Ping
    decreases p.request.totalCount - p.data.totalCount
  {
    if p.data.totalCount < p.request.totalCount then Launched(LaunchedOne(p, sync), sync) else p
  }

  function LookupFailed(p: Ping): Ping {
    var data := p.data.(errorMessage := "DNS not resolved", avg := p.errorValue);
    p.(phase := Unresolved, data := data, reports := p.reports + [Report(p.request.id, data)])
  }

  /** The chosen address is stored, if there is one; the probes are launched in any case. */
  function Aimed(p: Ping, list: AddrInfo): Ping {
    p.(phase := Probing, target := if Chosen(list).Some? then Chosen(list) else p.target)
  }

  /** The coroutine resumed: only while it waits for the lookup. */
  function Resolved(p: Ping, e: DnsEvent): Ping {
    if p.phase != Resolving then p
    else match e
      case DnsFailed => LookupFailed(p)
      case Addresses(list, sync) =>
        if list.End? then LookupFailed(p) else Launched(Aimed(p, list), sync)
  }

  function Reset(p: Ping, literal: Option<Address>): Ping {
    p.(data := p.data.(totalCount := 0, failedCount := 0, worst := 0, avg := 0), target := literal)
  }

  /** start: a literal address is probed at once; a name is looked up first, and the lookup may
      fail before addrInfo returns. */
  function Started(p: Ping, literal: Option<Address>, failsAtOnce: bool, sync: Outcomes): Ping {
    var q := Reset(p, literal);
    if literal.Some? then Launched(q.(phase := Probing), sync)
    else if failsAtOnce then Resolved(q.(phase := Resolving), DnsFailed)
    else q.(phase := Resolving)
  }
}
