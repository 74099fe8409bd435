/** What every sequence of lookups, ticks and responses keeps, and how long an unanswered lookup lives. */
module DnsRuns {
  import opened Bytes
  import opened SystemTime
  import opened DnsNames
  import opened DnsClient

  /** The callbacks that the lookups in progress need. */
  ghost function Pending(es: seq<Entry>): set<Registration> {
    set k | 0 <= k < |es| && es[k].state == InProgress :: Callback(es[k])
  }

  /** No two lookups in progress share a port. */
  ghost predicate OwnPorts(es: seq<Entry>) {
    forall i, j :: 0 <= i < j < |es| && es[i].state == InProgress && es[j].state == InProgress ==> es[i].port != es[j].port
  }

  /** A lookup in progress has a server to wait for, and counts its tries. */
  predicate GoodEntry(e: Entry) {
    e.state == InProgress ==> e.host != AnyHost && e.serverNum < SERVER_LIST_SIZE && e.retransmitCount < MAX_RETRIES
  }

  ghost predicate Safe(c: Cache) {
    && c.entries != [] && c.callbacks == Pending(c.entries) && OwnPorts(c.entries)
    && forall k :: 0 <= k < |c.entries| ==> GoodEntry(c.entries[k])
  }

  // ----- one entry changes -----

  /** An entry that is not, or no longer, in progress. */
  lemma Finished(c: Cache, d: Cache, k: nat, e: Entry)
    requires Safe(c) && k < |c.entries| && d.entries == c.entries[k := e] && e.state != InProgress
    requires d.callbacks == if c.entries[k].state == InProgress then c.callbacks - {Callback(c.entries[k])} else c.callbacks
    ensures Safe(d)
  {
    var es, fs := c.entries, d.entries;
    forall r ensures r in Pending(fs) <==> r in d.callbacks {
      if r in Pending(fs) {
        var j :| 0 <= j < |fs| && fs[j].state == InProgress && r == Callback(fs[j]);
        assert es[j] == fs[j];
      }
      if r in d.callbacks {
        var j :| 0 <= j < |es| && es[j].state == InProgress && r == Callback(es[j]);
        assert fs[j] == es[j];
      }
    }
  }

  /** A lookup in progress that keeps its callback. */
  lemma Continued(c: Cache, d: Cache, k: nat, e: Entry)
    requires Safe(c) && k < |c.entries| && c.entries[k].state == InProgress
    requires d.entries == c.entries[k := e] && d.callbacks == c.callbacks
    requires e.state == InProgress && Callback(e) == Callback(c.entries[k]) && GoodEntry(e)
    ensures Safe(d)
  {
    var es, fs := c.entries, d.entries;
    forall r ensures r in Pending(fs) <==> r in Pending(es) {
      if j :| 0 <= j < |fs| && fs[j].state == InProgress && r == Callback(fs[j]) {
        assert es[j].state == InProgress && r == Callback(es[j]);
      }
      if j :| 0 <= j < |es| && es[j].state == InProgress && r == Callback(es[j]) {
        assert fs[j].state == InProgress && r == Callback(fs[j]);
      }
    }
  }

  /** The port is not used by a lookup in progress. */
  ghost predicate FreePort(es: seq<Entry>, port: uint16) {
    forall k :: 0 <= k < |es| && es[k].state == InProgress ==> es[k].port != port
  }

  /** A new lookup. */
  lemma Launching(c: Cache, d: Cache, k: nat, e: Entry)
    requires Safe(c) && k < |c.entries| && c.entries[k].state == Unused && FreePort(c.entries, e.port)
    requires d.entries == c.entries[k := e] && d.callbacks == c.callbacks + {Callback(e)} && e.state == InProgress && GoodEntry(e)
    ensures Safe(d)
  {
    var es, fs := c.entries, d.entries;
    forall r ensures r in Pending(fs) <==> r in d.callbacks {
      if r in Pending(fs) {
        var j :| 0 <= j < |fs| && fs[j].state == InProgress && r == Callback(fs[j]);
        assert j != k ==> es[j] == fs[j];
      }
      if r in c.callbacks {
        var j :| 0 <= j < |es| && es[j].state == InProgress && r == Callback(es[j]);
        assert fs[j] == es[j];
      }
      if r == Callback(e) {
        assert fs[k] == e;
      }
    }
  }

  /** A port that is free has no callback. */
  lemma NoCallback(c: Cache, interface: nat, port: uint16)
    requires Safe(c) && FreePort(c.entries, port)
    ensures Registration(interface, port) !in c.callbacks
  {
  }

  // ----- each operation -----

  lemma DeletedSafe(c: Cache, k: nat)
    requires Safe(c) && k < |c.entries|
    ensures Safe(Deleted(c, k))
  {
    Finished(c, Deleted(c, k), k, Deleted(c, k).entries[k]);
  }

  lemma CreateSafe(c: Cache, time: uint32, port: uint16)
    requires Safe(c) && FreePort(c.entries, port)
    ensures var r := Create(c, time); Safe(r.cache) && r.cache.entries[r.index] == EMPTY && FreePort(r.cache.entries, port)
  {
    hide Age, Safe;
    NotEmpty(c);
    var r := Create(c, time);
    if FirstUnused(c.entries) < |c.entries| {
      Finished(c, r.cache, r.index, EMPTY);
    } else {
      DeletedSafe(c, r.index);
      Finished(Deleted(c, r.index), r.cache, r.index, EMPTY);
    }
  }

  lemma NotEmpty(c: Cache)
    requires Safe(c)
    ensures c.entries != []
  {
  }

  lemma ResolveSafe(c: Cache, interface: nat, name: seq<byte>, host: HostType, port: uint16, id: uint16, time: uint32,
                    later: uint32, attachOk: bool, net: Network)
    requires Safe(c) && net.Valid() && FreePort(c.entries, port)
    ensures Safe(Resolve(c, interface, name, host, port, id, time, later, attachOk, net).cache)
  {
    hide OwnPorts, Pending, Matches, Create;
    if Find(c.entries, interface, name, host) == |c.entries| {
      CreateSafe(c, time, port);
      var r := Create(c, time);
      var d := Resolve(c, interface, name, host, port, id, time, later, attachOk, net).cache;
      var e := d.entries[r.index];
      if e.state == InProgress {
        Launching(r.cache, d, r.index, e);
      } else {
        NoCallback(r.cache, interface, port);
        assert r.cache.callbacks + {Registration(interface, port)} - {Registration(interface, port)} == r.cache.callbacks;
        Finished(r.cache, d, r.index, e);
      }
    }
  }

  lemma TickOneSafe(c: Cache, k: nat, time: uint32, net: Network)
    requires Safe(c) && k < |c.entries| && net.Valid()
    ensures Safe(TickOne(c, k, time, net))
  {
    hide OwnPorts, Pending, Due;
    var d := TickOne(c, k, time, net);
    if d != c {
      assert GoodEntry(c.entries[k]);
      if d.entries[k].state == InProgress {
        Continued(c, d, k, d.entries[k]);
      } else {
        Finished(c, d, k, d.entries[k]);
      }
    }
  }

  lemma {:induction false} TickSafe(c: Cache, n: nat, time: uint32, nets: seq<Network>)
    requires Safe(c) && n <= |c.entries| <= |nets| && ValidNetworks(nets)
    ensures Safe(TickFirst(c, n, time, nets))
  {
    hide Safe, TickOne;
    if n > 0 {
      TickSafe(c, n - 1, time, nets);
      TickOneSafe(TickFirst(c, n - 1, time, nets), n - 1, time, nets[n - 1]);
    }
  }

  lemma {:induction false} FlushSafe(c: Cache, n: nat, interface: nat)
    requires Safe(c) && n <= |c.entries|
    ensures Safe(FlushFirst(c, n, interface))
  {
    hide Safe, Deleted;
    if n > 0 {
      FlushSafe(c, n - 1, interface);
      DeletedSafe(FlushFirst(c, n - 1, interface), n - 1);
    }
  }

  /** A response comes through a callback that is registered. */
  lemma ResponseSafe(c: Cache, interface: nat, port: uint16, message: seq<byte>, time: uint32)
    requires Safe(c) && Registration(interface, port) in c.callbacks
    ensures Safe(Response(c, interface, port, message, time))
  {
    hide Examine, Lifetime;
    var k, d := FindPort(c.entries, port), Response(c, interface, port, message, time);
    if d != c {
      var j :| 0 <= j < |c.entries| && c.entries[j].state == InProgress && Callback(c.entries[j]) == Registration(interface, port);
      assert j == k;
      Finished(c, d, k, d.entries[k]);
    }
  }

  // ----- runs -----

  datatype Event =
    | DoResolve(interface: nat, name: seq<byte>, host: HostType, port: uint16, id: uint16, time: uint32, later: uint32,
                attachOk: bool, net: Network)
    | DoTick(time: uint32, nets: seq<Network>)
    | DoResponse(interface: nat, port: uint16, message: seq<byte>, time: uint32)
    | DoFlush(interface: nat)

  /** New lookups get a port of their own, and responses come through callbacks that are registered. */
  ghost predicate Possible(c: Cache, ev: Event) {
    match ev
    case DoResolve(_, _, _, port, _, _, _, _, net) => c.entries != [] && net.Valid() && FreePort(c.entries, port)
    case DoTick(_, nets) => |c.entries| <= |nets| && ValidNetworks(nets)
    case DoResponse(interface, port, _, _) => Registration(interface, port) in c.callbacks
    case DoFlush(_) => true
  }

  function Step(c: Cache, ev: Event): Cache
    requires ev.DoResolve? ==> c.entries != [] && ev.net.Valid()
    requires ev.DoTick? ==> |c.entries| <= |ev.nets| && ValidNetworks(ev.nets)
  {
    match ev
    case DoResolve(interface, name, host, port, id, time, later, attachOk, net) =>
      Resolve(c, interface, name, host, port, id, time, later, attachOk, net).cache
    case DoTick(time, nets) => TickFirst(c, |c.entries|, time, nets)
    case DoResponse(interface, port, message, time) => Response(c, interface, port, message, time)
    case DoFlush(interface) => FlushFirst(c, |c.entries|, interface)
  }

  lemma StepSafe(c: Cache, ev: Event)
    requires Safe(c) && Possible(c, ev)
    ensures Safe(Step(c, ev))
  {
    hide OwnPorts, Pending, GoodEntry, FreePort;
    match ev
    case DoResolve(interface, name, host, port, id, time, later, attachOk, net) =>
      ResolveSafe(c, interface, name, host, port, id, time, later, attachOk, net);
    case DoTick(time, nets) => TickSafe(c, |c.entries|, time, nets);
    case DoResponse(interface, port, message, time) => ResponseSafe(c, interface, port, message, time);
    case DoFlush(interface) => FlushSafe(c, |c.entries|, interface);
  }

  /** The state after the events, or nothing when one of them cannot happen. */
  ghost function Run(c: Cache, events: seq<Event>): Option<Cache> {
    if events == [] then Some(c)
    else
      var d := Run(c, events[..|events| - 1]);
      var ev := events[|events| - 1];
      if d.None? || !Possible(d.value, ev) then None else Some(Step(d.value, ev))
  }

  lemma {:induction false} RunSafe(c: Cache, events: seq<Event>)
    requires Safe(c)
    ensures Run(c, events).Some? ==> Safe(Run(c, events).value)
  {
    hide Safe, Possible, Step;
    if events != [] {
      var d := Run(c, events[..|events| - 1]);
      RunSafe(c, events[..|events| - 1]);
      if d.Some? && Possible(d.value, events[|events| - 1]) {
        StepSafe(d.value, events[|events| - 1]);
      }
    }
  }

  function Empty(size: nat): Cache {
    Cache(seq(size, _ => EMPTY), {}, [])
  }

  /**
   Over every run the callbacks that are registered are exactly those of the lookups in
   progress: none is left behind by an eviction, a failure, a timeout, an answer or a flush,
   and none is missing.
   */
  lemma {:induction false} NoLeaks(size: nat, events: seq<Event>)
    requires size > 0
    ensures var d := Run(Empty(size), events);
            d.Some? ==> forall r :: r in d.value.callbacks <==>
              exists k :: 0 <= k < |d.value.entries| && d.value.entries[k].state == InProgress && r == Callback(d.value.entries[k])
  {
    hide Run;
    assert Pending(Empty(size).entries) == {};
    RunSafe(Empty(size), events);
  }

  // ----- a lookup that nobody answers -----

  /** Ticks on one lookup, at the given times and with the given networks. */
  function TickOften(c: Cache, k: nat, times: seq<uint32>, nets: seq<Network>): (d: Cache)
    requires k < |c.entries| && |times| == |nets| && ValidNetworks(nets)
    ensures |d.entries| == |c.entries|
  {
    if times == [] then c
    else
      var n := |times| - 1;
      TickOne(TickOften(c, k, times[..n], nets[..n]), k, times[n], nets[n])
  }

  predicate EachDue(c: Cache, k: nat, times: seq<uint32>, nets: seq<Network>)
    requires k < |c.entries| && |times| == |nets| && ValidNetworks(nets)
  {
    times == [] ||
    (var n := |times| - 1;
     EachDue(c, k, times[..n], nets[..n]) && Due(TickOften(c, k, times[..n], nets[..n]).entries[k], times[n]))
  }

  /** How many more queries the lookup can send: its tries left, and all of those with the servers left. */
  function QueriesLeft(e: Entry): nat
    requires GoodEntry(e)
  {
    if e.state != InProgress then 0 else (SERVER_LIST_SIZE - 1 - e.serverNum) * MAX_RETRIES + e.retransmitCount
  }

  /** One expired timeout: a query is sent and one fewer is left, or the lookup is given up. */
  lemma TickSpends(c: Cache, k: nat, time: uint32, net: Network)
    requires k < |c.entries| && c.entries[k].state == InProgress && GoodEntry(c.entries[k]) && net.Valid()
    requires Due(c.entries[k], time)
    ensures var d := TickOne(c, k, time, net);
            var e, f := c.entries[k], d.entries[k];
            && GoodEntry(f)
            && (f.state == InProgress ==>
                  && |d.queries| == |c.queries| + 1 && QueriesLeft(f) == QueriesLeft(e) - 1
                  && d.queries[|c.queries|].serverNum == f.serverNum
                  && (f.serverNum == e.serverNum || (e.retransmitCount == 0 && f.serverNum == e.serverNum + 1)))
            && (f.state != InProgress ==> f.state == Unused && d.queries == c.queries && Callback(e) !in d.callbacks)
  {
    hide Due;
  }

  lemma {:induction false} SpentAll(c: Cache, k: nat, times: seq<uint32>, nets: seq<Network>)
    requires k < |c.entries| && c.entries[k].state == InProgress && GoodEntry(c.entries[k])
    requires |times| == |nets| && ValidNetworks(nets) && EachDue(c, k, times, nets)
    ensures var d := TickOften(c, k, times, nets);
            var e, f := c.entries[k], d.entries[k];
            && GoodEntry(f) && (f.state == InProgress || f.state == Unused)
            && |d.queries| - |c.queries| + QueriesLeft(f) <= QueriesLeft(e)
            && (f.state == InProgress ==> |d.queries| - |c.queries| == |times|)
  {
    hide Due, TickOne, QueriesLeft, GoodEntry;
    if times != [] {
      var n := |times| - 1;
      SpentAll(c, k, times[..n], nets[..n]);
      var b := TickOften(c, k, times[..n], nets[..n]);
      if b.entries[k].state == InProgress {
        TickSpends(b, k, times[n], nets[n]);
        NothingLeft(TickOften(c, k, times, nets).entries[k]);
      } else {
        UnusedStays(b, k, times[n], nets[n]);
      }
    }
  }

  lemma NothingLeft(e: Entry)
    requires GoodEntry(e)
    ensures e.state != InProgress ==> QueriesLeft(e) == 0
  {
  }

  lemma UnusedStays(c: Cache, k: nat, time: uint32, net: Network)
    requires k < |c.entries| && net.Valid() && c.entries[k].state == Unused
    ensures TickOne(c, k, time, net) == c
  {
  }

  /**
   A lookup without an answer sends at most three queries to each of the two servers, the
   first one included; when as many timeouts have expired, it is gone.
   */
  lemma {:induction false} Unanswered(c: Cache, k: nat, times: seq<uint32>, nets: seq<Network>)
    requires k < |c.entries| && c.entries[k].state == InProgress
    requires c.entries[k].host != AnyHost && c.entries[k].serverNum == 0 && c.entries[k].retransmitCount == MAX_RETRIES - 1
    requires |times| == |nets| && ValidNetworks(nets) && EachDue(c, k, times, nets)
    ensures var d := TickOften(c, k, times, nets);
            && 1 + |d.queries| - |c.queries| <= SERVER_LIST_SIZE * MAX_RETRIES
            && (|times| >= SERVER_LIST_SIZE * MAX_RETRIES ==> d.entries[k].state == Unused)
  {
    SpentAll(c, k, times, nets);
  }

  // ----- what is taken for an answer -----

  /**
   A response ends a lookup only if it has its identifier and its port, and its one question
   has the class and the type of the lookup and the same name, but for case and a dot at its
   end; and an address is then kept for a second to an hour.
   */
  lemma {:induction false} AnswerMatches(c: Cache, interface: nat, port: uint16, message: seq<byte>, time: uint32, k: nat)
    requires k < |c.entries| && c.entries[k].state == InProgress
    requires Response(c, interface, port, message, time).entries[k].state != InProgress
    requires 0 !in c.entries[k].name
    ensures var e, f := c.entries[k], Response(c, interface, port, message, time).entries[k];
            && HEADER_SIZE <= |message| <= 512 && Be16(message, 0) == e.id && e.port == port
            && message[2] >= 0x80 && Be16(message, 4) == 1
            && Parse(message, HEADER_SIZE, 0).Some?
            && (var pos := Parse(message, HEADER_SIZE, 0).value.next;
                && pos + 4 <= |message| && Be16(message, pos + 2) == 1
                && (e.host == Host4 ==> Be16(message, pos) == 1) && (e.host == Host6 ==> Be16(message, pos) == 28))
            && IsName(e.name, Parse(message, HEADER_SIZE, 0).value.labels)
            && (f.state == Resolved ==> MIN_LIFETIME <= f.timeout <= MAX_LIFETIME && f.timestamp == time)
  {
    hide Parse, Compare, IsName, FirstAnswer, Lifetime;
    var e := c.entries[k];
    assert k == FindPort(c.entries, port);
    CompareExactly(message, HEADER_SIZE, e.name);
    ParsedLabels(message, HEADER_SIZE, 0);
  }
}
