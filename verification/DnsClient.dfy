/**
 The DNS client and its cache: starting a lookup, retrying it, and taking an answer out of a
 response. Every lookup in progress has a UDP port on which the client is called back.
 */
module DnsClient {
  import opened Bytes
  import opened SystemTime
  import opened DnsNames

  const SERVER_LIST_SIZE: int := 2
  const MAX_RETRIES: uint32 := 3
  const INIT_TIMEOUT: uint32 := 1000
  const MAX_TIMEOUT: uint32 := 5000
  const MIN_LIFETIME: uint32 := 1000
  const MAX_LIFETIME: uint32 := 3600000
  const MESSAGE_MAX: int := 512
  const HEADER_SIZE: int := 12
  const QUESTION_SIZE: int := 4
  const RECORD_SIZE: int := 10

  datatype State = Unused | InProgress | Resolved | Permanent

  datatype HostType = AnyHost | Host4 | Host6

  datatype Entry = Entry(state: State, host: HostType, interface: nat, name: seq<byte>, addr: seq<byte>, serverNum: uint32,
                         port: uint16, id: uint16, timestamp: uint32, timeout: uint32, maxTimeout: uint32,
                         retransmitCount: uint32)

  const EMPTY: Entry := Entry(Unused, AnyHost, 0, [], [], 0, 0, 0, 0, 0, 0, 0)

  /** A UDP callback of the DNS client. */
  datatype Registration = Registration(interface: nat, port: uint16)

  datatype Query = Query(registration: Registration, id: uint16, name: seq<byte>, serverNum: uint32)

  /** The cache, the callbacks that are registered, and the queries sent. */
  datatype Cache = Cache(entries: seq<Entry>, callbacks: set<Registration>, queries: seq<Query>)

  /** Which servers are configured, and whether a datagram can be sent. */
  datatype Network = Network(servers4: seq<bool>, servers6: seq<bool>, sendOk: bool) {
    predicate Valid() {
      |servers4| == |servers6| == SERVER_LIST_SIZE
    }
  }

  function Callback(e: Entry): Registration {
    Registration(e.interface, e.port)
  }

  // ----- the cache -----

  predicate Matches(e: Entry, interface: nat, name: seq<byte>, host: HostType) {
    && e.state != Unused && e.interface == interface
    && (e.host == host || host == AnyHost)
    && FoldAll(e.name) == FoldAll(name)
  }

  function Find(es: seq<Entry>, interface: nat, name: seq<byte>, host: HostType): (k: nat)
    ensures k <= |es| && (k < |es| ==> Matches(es[k], interface, name, host))
    ensures forall j :: 0 <= j < k ==> !Matches(es[j], interface, name, host)
  {
    if es == [] then 0
    else if Matches(es[0], interface, name, host) then 0
    else 1 + Find(es[1..], interface, name, host)
  }

  function FirstUnused(es: seq<Entry>): (k: nat)
    ensures k <= |es| && (k < |es| ==> es[k].state == Unused)
    ensures forall j :: 0 <= j < k ==> es[j].state != Unused
  {
    if es == [] then 0 else if es[0].state == Unused then 0 else 1 + FirstUnused(es[1..])
  }

  function Stamps(es: seq<Entry>): (ts: seq<uint32>)
    ensures |ts| == |es| && forall i :: 0 <= i < |es| ==> ts[i] == es[i].timestamp
  {
    seq(|es|, i requires 0 <= i < |es| => es[i].timestamp)
  }

  function SetEntry(c: Cache, k: nat, e: Entry): Cache
    requires k < |c.entries|
  {
    c.(entries := c.entries[k := e])
  }

  /** dnsDeleteEntry. */
  function Deleted(c: Cache, k: nat): Cache
    requires k < |c.entries|
  {
    var e := c.entries[k];
    SetEntry(c, k, e.(state := Unused))
    .(callbacks := if e.state == InProgress then c.callbacks - {Callback(e)} else c.callbacks)
  }

  datatype Created = Created(cache: Cache, index: nat)

  /** dnsCreateEntry: an unused entry, or else the oldest one. */
  function Create(c: Cache, time: uint32): (r: Created)
    requires c.entries != []
    ensures r.index < |c.entries| == |r.cache.entries|
  {
    var f := FirstUnused(c.entries);
    var k := if f < |c.entries| then f else Oldest(Stamps(c.entries), time, |c.entries|);
    Created(SetEntry(if f < |c.entries| then c else Deleted(c, k), k, EMPTY), k)
  }

  // ----- lookups -----

  /** dnsSendQuery succeeds: there is a server with the number, and it can be sent to. */
  predicate CanSend(e: Entry, net: Network)
    requires net.Valid()
  {
    && e.host != AnyHost && e.serverNum < SERVER_LIST_SIZE && net.sendOk
    && if e.host == Host4 then net.servers4[e.serverNum] else net.servers6[e.serverNum]
  }

  function QueryOf(e: Entry): Query {
    Query(Callback(e), e.id, e.name, e.serverNum)
  }

  datatype Outcome = Found(addr: seq<byte>) | Waiting | Failed

  datatype Resolution = Resolution(cache: Cache, outcome: Outcome)

  /** A new lookup, before its query is sent. */
  function Fresh(interface: nat, name: seq<byte>, host: HostType, port: uint16, id: uint16): Entry {
    EMPTY.(host := host, interface := interface, name := name, port := port, id := id)
  }

  /** The callback of a new lookup is registered and its first query sent; a failure takes the callback back. */
  function Launched(c: Cache, k: nat, e: Entry, later: uint32, attachOk: bool, net: Network): Resolution
    requires k < |c.entries| && net.Valid()
  {
    if !attachOk then Resolution(SetEntry(c, k, e), Failed)
    else if !CanSend(e, net) then
      Resolution(SetEntry(c, k, e.(retransmitCount := MAX_RETRIES))
                 .(callbacks := c.callbacks + {Callback(e)} - {Callback(e)}), Failed)
    else
      var f := e.(timestamp := later, timeout := INIT_TIMEOUT, maxTimeout := MAX_TIMEOUT,
                  retransmitCount := MAX_RETRIES - 1, state := InProgress);
      Resolution(SetEntry(c, k, f).(callbacks := c.callbacks + {Callback(e)}, queries := c.queries + [QueryOf(e)]), Waiting)
  }

  /** dnsResolve, up to the point where it waits. */
  function Resolve(c: Cache, interface: nat, name: seq<byte>, host: HostType, port: uint16, id: uint16, time: uint32,
                   later: uint32, attachOk: bool, net: Network): Resolution
    requires c.entries != [] && net.Valid()
  {
    var k := Find(c.entries, interface, name, host);
    if k < |c.entries| then
      var e := c.entries[k];
      Resolution(c, if e.state == InProgress then Waiting else Found(e.addr))
    else
      var r := Create(c, time);
      Launched(r.cache, r.index, Fresh(interface, name, host, port, id), later, attachOk, net)
  }

  predicate Due(e: Entry, time: uint32) {
    TimeCompare(time, Add(e.timestamp, e.timeout)) >= 0
  }

  /** The entry as the next query finds it: another try, or the first one with the next server. */
  function Retried(e: Entry): Entry {
    if e.retransmitCount > 0 then e else e.(serverNum := Wrap(e.serverNum + 1), retransmitCount := MAX_RETRIES)
  }

  /** What a tick does to one entry. */
  function TickOne(c: Cache, k: nat, time: uint32, net: Network): Cache
    requires k < |c.entries| && net.Valid()
  {
    var e := c.entries[k];
    if e.state == InProgress && Due(e, time) then
      var r := Retried(e);
      if CanSend(r, net) then
        var doubled := Wrap(2 * e.timeout);
        var timeout := if e.retransmitCount == 0 then INIT_TIMEOUT else if doubled < e.maxTimeout then doubled else e.maxTimeout;
        SetEntry(c, k, r.(timestamp := time, timeout := timeout, retransmitCount := r.retransmitCount - 1))
        .(queries := c.queries + [QueryOf(r)])
      else Deleted(SetEntry(c, k, r), k)
    else if e.state == Resolved && Due(e, time) then Deleted(c, k)
    else c
  }

  predicate ValidNetworks(nets: seq<Network>) {
    forall i :: 0 <= i < |nets| ==> nets[i].Valid()
  }

  /** The first `n` entries have been visited; `nets` is the state of the network at each of them. */
  function TickFirst(c: Cache, n: nat, time: uint32, nets: seq<Network>): (d: Cache)
    requires n <= |c.entries| <= |nets| && ValidNetworks(nets)
    ensures |d.entries| == |c.entries|
  {
    if n == 0 then c else TickOne(TickFirst(c, n - 1, time, nets), n - 1, time, nets[n - 1])
  }

  /** dnsFlushCache: the first `n` entries have been visited. */
  function FlushFirst(c: Cache, n: nat, interface: nat): (d: Cache)
    requires n <= |c.entries|
    ensures |d.entries| == |c.entries|
  {
    if n == 0 then c
    else
      var d := FlushFirst(c, n - 1, interface);
      if d.entries[n - 1].state != Unused && d.entries[n - 1].interface == interface then Deleted(d, n - 1) else d
  }

  // ----- responses -----

  datatype Verdict = Ignore | Refused | Answer(addr: seq<byte>, ttl: uint32)

  function Be32(s: seq<byte>, p: nat): uint32
    requires p + 4 <= |s|
  {
    Be16(s, p) * 0x1_0000 + Be16(s, p + 2)
  }

  /** The address in a resource record, if it is of the kind that is looked for. */
  predicate IsAddress(message: seq<byte>, pos: nat, host: HostType)
    requires pos + RECORD_SIZE <= |message|
  {
    || (host == Host4 && Be16(message, pos) == 1 && Be16(message, pos + 8) == 4)
    || (host == Host6 && Be16(message, pos) == 28 && Be16(message, pos + 8) == 16)
  }

  /** The first address among the answers. */
  function FirstAnswer(message: seq<byte>, pos: nat, count: nat, host: HostType): Verdict
    decreases count
  {
    if count == 0 then Ignore
    else
      var r := Parse(message, pos, 0);
      if r.None? then Ignore
      else
        var record := r.value.next;
        var data := record + RECORD_SIZE;
        if data > |message| then Ignore
        else
          var end := data + Be16(message, record + 8);
          if end > |message| then Ignore
          else if IsAddress(message, record, host) then Answer(message[data..end], Be32(message, record + 4))
          else FirstAnswer(message, end, count - 1, host)
  }

  predicate WellFormed(message: seq<byte>) {
    HEADER_SIZE <= |message| <= MESSAGE_MAX && message[2] >= 0x80 && Be16(message, 4) == 1
  }

  /** The question is the one that the entry asks. */
  predicate Asks(message: seq<byte>, e: Entry)
    requires WellFormed(message)
  {
    && Be16(message, 0) == e.id
    && Parse(message, HEADER_SIZE, 0).Some?
    && Parse(message, HEADER_SIZE, 0).value.next + QUESTION_SIZE <= |message|
    && Compare(message, HEADER_SIZE, e.name, 0) == Some(0)
    && var pos := Parse(message, HEADER_SIZE, 0).value.next;
       && Be16(message, pos + 2) == 1
       && (e.host == Host4 ==> Be16(message, pos) == 1) && (e.host == Host6 ==> Be16(message, pos) == 28)
  }

  /** What a response means for a lookup. */
  function Examine(message: seq<byte>, e: Entry): Verdict
    requires WellFormed(message)
  {
    if !Asks(message, e) then Ignore
    else if message[3] % 16 != 0 then Refused
    else FirstAnswer(message, Parse(message, HEADER_SIZE, 0).value.next + QUESTION_SIZE, Be16(message, 6), e.host)
  }

  /** How long an answer is kept: its time to live in 32-bit milliseconds, within limits. */
  function Lifetime(ttl: uint32): (ms: uint32)
    ensures MIN_LIFETIME <= ms <= MAX_LIFETIME
  {
    var ms := Wrap(ttl * 1000);
    if ms >= MAX_LIFETIME then MAX_LIFETIME else if ms <= MIN_LIFETIME then MIN_LIFETIME else ms
  }

  function FindPort(es: seq<Entry>, port: uint16): (k: nat)
    ensures k <= |es| && (k < |es| ==> es[k].state == InProgress && es[k].port == port)
    ensures forall j :: 0 <= j < k ==> !(es[j].state == InProgress && es[j].port == port)
  {
    if es == [] then 0 else if es[0].state == InProgress && es[0].port == port then 0 else 1 + FindPort(es[1..], port)
  }

  /** dnsProcessResponse, for a message that came to `port` on `interface`. */
  function Response(c: Cache, interface: nat, port: uint16, message: seq<byte>, time: uint32): Cache {
    var k := FindPort(c.entries, port);
    if !WellFormed(message) || k == |c.entries| then c
    else
      var e := c.entries[k];
      match Examine(message, e)
      case Ignore => c
      case Refused => Deleted(c, k)
      case Answer(addr, ttl) =>
        SetEntry(c, k, e.(addr := addr, timestamp := time, timeout := Lifetime(ttl), state := Resolved))
        .(callbacks := c.callbacks - {Registration(interface, e.port)})
  }

  // ----- the cache in memory -----

  class DnsCache {
    const entries: array<Entry>
    var callbacks: set<Registration>
    var queries: seq<Query>

    /** dnsInit. */
    constructor (size: nat)
      requires size > 0
      ensures fresh(entries) && Abs() == Cache(seq(size, _ => EMPTY), {}, [])
    {
      entries := new Entry[size](_ => EMPTY);
      callbacks, queries := {}, [];
      new;
      assert entries[..] == seq(size, _ => EMPTY);
    }

    ghost function Abs(): Cache
      reads this, entries
    {
      Cache(entries[..], callbacks, queries)
    }

    method FindEntry(interface: nat, name: seq<byte>, host: HostType) returns (k: nat)
      ensures k == Find(entries[..], interface, name, host)
    {
      hide Matches;
      k := 0;
      while k < entries.Length && !Matches(entries[k], interface, name, host)
        invariant 0 <= k <= entries.Length
        invariant forall j :: 0 <= j < k ==> !Matches(entries[j], interface, name, host)
      {
        k := k + 1;
      }
    }

    method DeleteEntry(k: nat)
      requires k < entries.Length
      modifies `callbacks, entries
      ensures Abs() == Deleted(old(Abs()), k)
    {
      if entries[k].state == InProgress {
        callbacks := callbacks - {Callback(entries[k])};
      }
      entries[k] := entries[k].(state := Unused);
    }

    method CreateEntry(time: uint32) returns (k: nat)
      requires entries.Length > 0
      modifies `callbacks, entries
      ensures Created(Abs(), k) == Create(old(Abs()), time) && entries[k] == EMPTY
    {
      hide Age, Deleted, Stamps, Oldest, FirstUnused;
      ghost var es := entries[..];
      var oldest := 0;
      k := 0;
      while k < entries.Length
        invariant 0 <= k <= entries.Length && oldest < entries.Length && entries[..] == es && callbacks == old(callbacks)
        invariant forall j :: 0 <= j < k ==> es[j].state != Unused
        invariant oldest == if k == 0 then 0 else Oldest(Stamps(es), time, k)
      {
        if entries[k].state == Unused {
          assert FirstUnused(es) == k;
          entries[k] := EMPTY;
          return;
        }
        OldestStep(Stamps(es), time, k);
        if Age(entries[k].timestamp, time) > Age(entries[oldest].timestamp, time) {
          oldest := k;
        }
        k := k + 1;
      }
      assert FirstUnused(es) == entries.Length;
      k := oldest;
      DeleteEntry(k);
      entries[k] := EMPTY;
    }

    method SendQuery(k: nat, net: Network) returns (ok: bool)
      requires k < entries.Length && net.Valid()
      modifies `queries
      ensures ok == CanSend(entries[k], net)
      ensures queries == if ok then old(queries) + [QueryOf(entries[k])] else old(queries)
    {
      ok := false;
      if entries[k].host == Host4 {
        if entries[k].serverNum >= SERVER_LIST_SIZE || !net.servers4[entries[k].serverNum] {
          return;
        }
      } else if entries[k].host == Host6 {
        if entries[k].serverNum >= SERVER_LIST_SIZE || !net.servers6[entries[k].serverNum] {
          return;
        }
      } else {
        return;
      }
      if net.sendOk {
        queries := queries + [QueryOf(entries[k])];
        ok := true;
      }
    }

    method StartResolve(interface: nat, name: seq<byte>, host: HostType, port: uint16, id: uint16, time: uint32, later: uint32,
                        attachOk: bool, net: Network) returns (outcome: Outcome)
      requires entries.Length > 0 && net.Valid()
      modifies `callbacks, `queries, entries
      ensures Resolution(Abs(), outcome)
           == Resolve(old(Abs()), interface, name, host, port, id, time, later, attachOk, net)
    {
      hide Create, Matches, Launched;
      var k := FindEntry(interface, name, host);
      if k < entries.Length {
        return if entries[k].state == InProgress then Waiting else Found(entries[k].addr);
      }
      k := CreateEntry(time);
      outcome := Launch(k, interface, name, host, port, id, later, attachOk, net);
    }

    method Launch(k: nat, interface: nat, name: seq<byte>, host: HostType, port: uint16, id: uint16, later: uint32,
                  attachOk: bool, net: Network) returns (outcome: Outcome)
      requires k < entries.Length && entries[k] == EMPTY && net.Valid()
      modifies `callbacks, `queries, entries
      ensures Resolution(Abs(), outcome)
           == Launched(old(Abs()), k, Fresh(interface, name, host, port, id), later, attachOk, net)
    {
      hide CanSend;
      entries[k] := entries[k].(host := host, interface := interface, name := name, port := port, id := id);
      if !attachOk {
        return Failed;
      }
      callbacks := callbacks + {Registration(interface, port)};
      RetriesDoNotMatter(entries[k], net);
      entries[k] := entries[k].(retransmitCount := MAX_RETRIES);
      var ok := SendQuery(k, net);
      if ok {
        entries[k] := entries[k].(timestamp := later, timeout := INIT_TIMEOUT, maxTimeout := MAX_TIMEOUT,
                                  retransmitCount := entries[k].retransmitCount - 1, state := InProgress);
        return Waiting;
      }
      callbacks := callbacks - {Registration(interface, port)};
      return Failed;
    }

    /** The body of the loop of dnsTick. */
    method TickEntry(k: nat, time: uint32, net: Network)
      requires k < entries.Length && net.Valid()
      modifies `callbacks, `queries, entries
      ensures Abs() == TickOne(old(Abs()), k, time, net)
    {
      hide Wrap, Due, CanSend, Deleted;
      var e := entries[k];
      if e.state == InProgress {
        if Due(e, time) {
          if e.retransmitCount > 0 {
            var ok := SendQuery(k, net);
            assert e == Retried(e) && entries[..] == entries[..][k := e];
            if ok {
              var doubled := Wrap(2 * e.timeout);
              entries[k] := e.(timestamp := time, timeout := if doubled < e.maxTimeout then doubled else e.maxTimeout,
                               retransmitCount := e.retransmitCount - 1);
            } else {
              DeleteEntry(k);
            }
          } else {
            entries[k] := e.(serverNum := Wrap(e.serverNum + 1), retransmitCount := MAX_RETRIES);
            var ok := SendQuery(k, net);
            if ok {
              entries[k] := entries[k].(timestamp := time, timeout := INIT_TIMEOUT,
                                        retransmitCount := entries[k].retransmitCount - 1);
            } else {
              DeleteEntry(k);
            }
          }
        }
      } else if e.state == Resolved {
        if Due(e, time) {
          DeleteEntry(k);
        }
      }
    }

    method DoTick(time: uint32, nets: seq<Network>)
      requires entries.Length <= |nets| && ValidNetworks(nets)
      modifies `callbacks, `queries, entries
      ensures Abs() == TickFirst(old(Abs()), entries.Length, time, nets)
    {
      hide TickOne;
      var k := 0;
      while k < entries.Length
        invariant 0 <= k <= entries.Length && Abs() == TickFirst(old(Abs()), k, time, nets)
      {
        TickEntry(k, time, nets[k]);
        k := k + 1;
      }
    }

    method FlushCache(interface: nat)
      modifies `callbacks, entries
      ensures Abs() == FlushFirst(old(Abs()), entries.Length, interface)
    {
      hide Deleted;
      var k := 0;
      while k < entries.Length
        invariant 0 <= k <= entries.Length && queries == old(queries)
        invariant Abs() == FlushFirst(old(Abs()), k, interface)
      {
        if entries[k].state != Unused && entries[k].interface == interface {
          DeleteEntry(k);
        }
        k := k + 1;
      }
    }

    /** The loop over the answers. */
    static method FindAnswer(message: seq<byte>, start: nat, count: nat, host: HostType) returns (verdict: Verdict)
      ensures verdict == FirstAnswer(message, start, count, host)
    {
      hide Parse, IsAddress, Be32;
      var pos: nat, j: nat := start, 0;
      while j < count
        invariant 0 <= j <= count
        invariant FirstAnswer(message, start, count, host) == FirstAnswer(message, pos, count - j, host)
      {
        var record, dest := ParseName(message, pos, 0);
        if record == 0 {
          return Ignore;
        }
        pos := record + RECORD_SIZE;
        if pos > |message| || pos + Be16(message, record + 8) > |message| {
          return Ignore;
        }
        if IsAddress(message, record, host) {
          return Answer(message[pos..pos + Be16(message, record + 8)], Be32(message, record + 4));
        }
        pos := pos + Be16(message, record + 8);
        j := j + 1;
      }
      return Ignore;
    }

    /** The checks on the question, and the search for an answer. */
    static method Judge(message: seq<byte>, e: Entry) returns (verdict: Verdict)
      requires WellFormed(message)
      ensures verdict == Examine(message, e)
    {
      hide Parse, Compare, FirstAnswer;
      if Be16(message, 0) != e.id {
        return Ignore;
      }
      var pos, dest := ParseName(message, HEADER_SIZE, 0);
      if pos == 0 || pos + QUESTION_SIZE > |message| {
        return Ignore;
      }
      var res := CompareName(message, HEADER_SIZE, e.name, 0);
      if res != Some(0) {
        return Ignore;
      }
      if Be16(message, pos + 2) != 1 {
        return Ignore;
      }
      if e.host == Host4 && Be16(message, pos) != 1 {
        return Ignore;
      }
      if e.host == Host6 && Be16(message, pos) != 28 {
        return Ignore;
      }
      if message[3] % 16 != 0 {
        return Refused;
      }
      verdict := FindAnswer(message, pos + QUESTION_SIZE, Be16(message, 6), e.host);
    }

    method ProcessResponse(interface: nat, port: uint16, message: seq<byte>, time: uint32)
      modifies `callbacks, entries
      ensures Abs() == Response(old(Abs()), interface, port, message, time)
    {
      hide Examine, Lifetime, Deleted;
      if !WellFormed(message) {
        return;
      }
      var k := 0;
      while k < entries.Length && !(entries[k].state == InProgress && entries[k].port == port)
        invariant 0 <= k <= entries.Length
        invariant forall j :: 0 <= j < k ==> !(entries[j].state == InProgress && entries[j].port == port)
      {
        k := k + 1;
      }
      assert k == FindPort(entries[..], port);
      if k == entries.Length {
        return;
      }
      var verdict := Judge(message, entries[k]);
      match verdict
      case Ignore =>
      case Refused => DeleteEntry(k);
      case Answer(addr, ttl) =>
        callbacks := callbacks - {Registration(interface, entries[k].port)};
        entries[k] := entries[k].(addr := addr, timestamp := time, timeout := Lifetime(ttl), state := Resolved);
    }
  }

  lemma RetriesDoNotMatter(e: Entry, net: Network)
    requires net.Valid()
    ensures CanSend(e.(retransmitCount := MAX_RETRIES), net) == CanSend(e, net)
    ensures QueryOf(e.(retransmitCount := MAX_RETRIES)) == QueryOf(e)
  {
  }
}
