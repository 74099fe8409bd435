/**
 The ARP cache: resolving addresses, queueing packets until the answer comes, and giving
 entries up. Buffers are named by numbers in the order of their allocation, and the cache
 records what becomes of them.
 */
module ArpCache {
  import opened Bytes
  import opened SystemTime

  const MAX_PENDING: int := 2
  const MAX_REQUESTS: int := 3
  const REQUEST_TIMEOUT: uint32 := 1000
  const MAX_PROBES: int := 2
  const PROBE_TIMEOUT: uint32 := 60000
  const REACHABLE_TIME: uint32 := 60000
  const DELAY_FIRST_PROBE: uint32 := 5000

  type Mac = seq<byte>

  datatype State = Unused | Incomplete | Reachable | Stale | Delay | Probe | Permanent

  /** A copy of an IPv4 packet in a buffer of its own. */
  datatype Packet = Packet(buffer: nat, bytes: seq<byte>, offset: nat)

  datatype Entry = Entry(state: State, ip: uint32, mac: Mac, timestamp: uint32, timeout: uint32, retransmitCount: uint32,
                         queue: seq<Packet>)

  const EMPTY: Entry := Entry(Unused, 0, [0, 0, 0, 0, 0, 0], 0, 0, 0, [])

  datatype Frame = Frame(dest: Mac, packet: Packet)

  /** An ARP request, to everybody or to the host that is being probed. */
  datatype Question = Broadcast(ip: uint32) | Unicast(ip: uint32, to: Mac)

  /**
   The entries, and everything that happened: how many buffers were allocated, which ones
   were freed, what was sent, and for each entry the buffers stored in it since it was made.
   */
  datatype Cache = Cache(entries: seq<Entry>, stored: seq<seq<nat>>, made: nat, freed: seq<nat>, sent: seq<Frame>,
                         questions: seq<Question>)

  function Buffers(q: seq<Packet>): (bs: seq<nat>)
    ensures |bs| == |q| && forall i :: 0 <= i < |q| ==> bs[i] == q[i].buffer
  {
    seq(|q|, i requires 0 <= i < |q| => q[i].buffer)
  }

  function Frames(to: Mac, q: seq<Packet>): (fs: seq<Frame>)
    ensures |fs| == |q| && forall i :: 0 <= i < |q| ==> fs[i] == Frame(to, q[i])
  {
    seq(|q|, i requires 0 <= i < |q| => Frame(to, q[i]))
  }

  // ----- searching -----

  /** First entry in use for the address, or the size of the cache. */
  function Find(es: seq<Entry>, ip: uint32): (k: nat)
    ensures k <= |es| && (k < |es| ==> es[k].state != Unused && es[k].ip == ip)
    ensures forall j :: 0 <= j < k ==> !(es[j].state != Unused && es[j].ip == ip)
  {
    if es == [] then 0 else if es[0].state != Unused && es[0].ip == ip then 0 else 1 + Find(es[1..], ip)
  }

  function FirstUnused(es: seq<Entry>): (k: nat)
    ensures k <= |es| && (k < |es| ==> es[k].state == Unused)
    ensures forall j :: 0 <= j < k ==> es[j].state != Unused
  {
    if es == [] then 0 else if es[0].state == Unused then 0 else 1 + FirstUnused(es[1..])
  }

  function Stamps(es: seq<Entry>): (ts: seq<uint32>)
    ensures |ts| == |es| && forall i :: 0 <= i < |es| ==> ts[i] == es[i].timestamp
  {
    seq(|es|, i requires 0 <= i < |es| => es[i].timestamp)
  }

  // ----- what each operation does -----

  predicate Sized(c: Cache) {
    0 < |c.entries| == |c.stored|
  }

  function SetEntry(c: Cache, k: nat, e: Entry): Cache
    requires k < |c.entries|
  {
    c.(entries := c.entries[k := e])
  }

  /** arpFlushQueuedPackets. */
  function Flushed(c: Cache, k: nat): Cache
    requires k < |c.entries|
  {
    var e := c.entries[k];
    SetEntry(c, k, e.(queue := [])).(freed := c.freed + if e.state == Incomplete then Buffers(e.queue) else [])
  }

  /** arpSendQueuedPackets. */
  function Delivered(c: Cache, k: nat): Cache
    requires k < |c.entries|
  {
    var e := c.entries[k];
    if e.state != Incomplete then SetEntry(c, k, e.(queue := []))
    else SetEntry(c, k, e.(queue := [])).(freed := c.freed + Buffers(e.queue), sent := c.sent + Frames(e.mac, e.queue))
  }

  datatype Created = Created(cache: Cache, index: nat)

  /** arpCreateEntry: an unused entry, or else the oldest one, whose packets are dropped. */
  function Create(c: Cache, time: uint32): (r: Created)
    requires Sized(c)
    ensures r.index < |c.entries| && Sized(r.cache) && |r.cache.entries| == |c.entries|
  {
    var f := FirstUnused(c.entries);
    var k := if f < |c.entries| then f else Oldest(Stamps(c.entries), time, |c.entries|);
    var d := if f < |c.entries| then c else Flushed(c, k);
    Created(SetEntry(d, k, EMPTY).(stored := c.stored[k := []]), k)
  }

  datatype Resolution = Resolution(cache: Cache, mac: Option<Mac>)

  /** arpResolve: no address while the resolution is in progress. */
  function Resolve(c: Cache, ip: uint32, time: uint32, later: uint32): Resolution
    requires Sized(c)
  {
    var k := Find(c.entries, ip);
    if k == |c.entries| then
      var r := Create(c, time);
      var e := EMPTY.(ip := ip, timestamp := later, timeout := REQUEST_TIMEOUT, state := Incomplete);
      Resolution(SetEntry(r.cache, r.index, e).(questions := c.questions + [Broadcast(ip)]), None)
    else
      var e := c.entries[k];
      if e.state == Incomplete then Resolution(c, None)
      else if e.state == Stale then
        Resolution(SetEntry(c, k, e.(timestamp := later, timeout := DELAY_FIRST_PROBE, state := Delay)), Some(e.mac))
      else Resolution(c, Some(e.mac))
  }

  datatype Status = Done | OutOfMemory | UnexpectedState | NotFound

  datatype Enqueued = Enqueued(cache: Cache, status: Status)

  /** The oldest packet makes room for a new one. */
  function Displaced(c: Cache, k: nat): Cache
    requires k < |c.entries|
  {
    var e := c.entries[k];
    if |e.queue| >= MAX_PENDING then SetEntry(c, k, e.(queue := e.queue[1..])).(freed := c.freed + [e.queue[0].buffer]) else c
  }

  /** arpEnqueuePacket. */
  function Enqueue(c: Cache, ip: uint32, bytes: seq<byte>, offset: nat, memoryOk: bool): Enqueued
    requires Sized(c)
  {
    var k := Find(c.entries, ip);
    if k == |c.entries| then Enqueued(c, NotFound)
    else if c.entries[k].state != Incomplete then Enqueued(c, UnexpectedState)
    else
      var d := Displaced(c, k);
      if !memoryOk then Enqueued(d, OutOfMemory)
      else
        var e := d.entries[k];
        Enqueued(SetEntry(d, k, e.(queue := e.queue + [Packet(c.made, bytes, offset)]))
                 .(made := c.made + 1, stored := c.stored[k := c.stored[k] + [c.made]]), Done)
  }

  predicate Due(e: Entry, time: uint32) {
    TimeCompare(time, Add(e.timestamp, e.timeout)) >= 0
  }

  /** What a tick does to one entry. */
  function TickOne(c: Cache, k: nat, time: uint32, later: uint32): Cache
    requires k < |c.entries|
  {
    var e := c.entries[k];
    var more := e.(retransmitCount := Wrap(e.retransmitCount + 1));
    if e.state == Incomplete && Due(e, time) then
      if more.retransmitCount < MAX_REQUESTS then
        SetEntry(c, k, more.(timestamp := time, timeout := REQUEST_TIMEOUT)).(questions := c.questions + [Broadcast(e.ip)])
      else SetEntry(Flushed(c, k), k, more.(queue := [], state := Unused))
    else if e.state == Reachable && Due(e, time) then SetEntry(c, k, e.(timestamp := later, state := Stale))
    else if e.state == Delay && Due(e, time) then
      SetEntry(c, k, e.(timestamp := time, timeout := PROBE_TIMEOUT, state := Probe))
      .(questions := c.questions + [Unicast(e.ip, e.mac)])
    else if e.state == Probe && Due(e, time) then
      if more.retransmitCount < MAX_PROBES then
        SetEntry(c, k, more.(timestamp := time, timeout := PROBE_TIMEOUT)).(questions := c.questions + [Unicast(e.ip, e.mac)])
      else SetEntry(c, k, more.(state := Unused))
    else c
  }

  /** The first `n` entries have been visited; `later` are the readings of the clock on the way. */
  function TickFirst(c: Cache, n: nat, time: uint32, later: seq<uint32>): (d: Cache)
    requires n <= |c.entries| <= |later|
    ensures |d.entries| == |c.entries| && d.stored == c.stored && d.made == c.made
  {
    if n == 0 then c else TickOne(TickFirst(c, n - 1, time, later), n - 1, time, later[n - 1])
  }

  function FlushFirst(c: Cache, n: nat): (d: Cache)
    requires n <= |c.entries|
    ensures |d.entries| == |c.entries| && d.stored == c.stored && d.made == c.made
  {
    if n == 0 then c
    else
      var d := Flushed(FlushFirst(c, n - 1), n - 1);
      SetEntry(d, n - 1, d.entries[n - 1].(state := Unused))
  }

  // ----- replies -----

  const IP_NONE: uint32 := 0
  const IP_BROADCAST: uint32 := 0xFFFF_FFFF
  const MAC_NONE: Mac := [0, 0, 0, 0, 0, 0]
  const MAC_BROADCAST: Mac := [0xFF, 0xFF, 0xFF, 0xFF, 0xFF, 0xFF]

  /** The IPv4 address of the interface, and whether it is still being probed. */
  datatype Own = Own(addr: uint32, mask: uint32, tentative: bool)

  /** A reply: the sender's two addresses, and the IPv4 address that it is meant for. */
  datatype Reply = Reply(spa: uint32, sha: Mac, tpa: uint32)

  function Bits(x: uint32): bv32 {
    x as bv32
  }

  /** The address is on the local network, and all ones in the part of the host. */
  predicate LastHost(ip: bv32, addr: bv32, mask: bv32) {
    ip & mask == addr & mask && ip | mask == 0xFFFF_FFFF
  }

  /** ipv4IsBroadcastAddr: the limited broadcast address, or the one of the local network. */
  predicate IsBroadcast(o: Own, ip: uint32) {
    ip == IP_BROADCAST || (o.mask != IP_BROADCAST && LastHost(Bits(ip), Bits(o.addr), Bits(o.mask)))
  }

  predicate IsMulticast(ip: uint32) {
    ip / 0x1000_0000 == 14
  }

  /** The address of one host: not zero, and without the group bit, which the broadcast address has as well. */
  predicate IsUnicast(mac: Mac) {
    |mac| == 6 && mac != MAC_NONE && mac[0] % 2 == 0
  }

  /** The checks at the start of arpProcessReply. */
  predicate Acceptable(o: Own, r: Reply) {
    && r.spa != IP_NONE && !IsBroadcast(o, r.spa) && !IsMulticast(r.spa) && IsUnicast(r.sha)
    && !(o.tentative && o.addr == r.tpa)
  }

  /** What an acceptable reply does to the entry of its sender. */
  function Answer(c: Cache, ip: uint32, mac: Mac, time: uint32): Cache {
    var k := Find(c.entries, ip);
    if k == |c.entries| then c
    else
      var e := c.entries[k];
      var reached := e.(mac := mac, queue := [], timestamp := time, timeout := REACHABLE_TIME, state := Reachable);
      if e.state == Incomplete then SetEntry(Delivered(SetEntry(c, k, e.(mac := mac)), k), k, reached)
      else if e.state == Reachable && mac != e.mac then SetEntry(c, k, e.(state := Stale))
      else if e.state == Probe then SetEntry(c, k, reached.(ip := ip, queue := e.queue))
      else c
  }

  /** arpProcessReply. */
  function Replied(c: Cache, o: Own, r: Reply, time: uint32): Cache {
    if Acceptable(o, r) then Answer(c, r.spa, r.sha, time) else c
  }

  // ----- the cache in memory -----

  class Interface {
    const entries: array<Entry>
    var made: nat
    var freed: seq<nat>
    var sent: seq<Frame>
    var questions: seq<Question>
    ghost var stored: seq<seq<nat>>

    /** arpInit. */
    constructor (size: nat)
      requires size > 0
      ensures fresh(entries) && entries.Length == size
      ensures Abs() == Cache(seq(size, _ => EMPTY), seq(size, _ => []), 0, [], [], [])
    {
      entries := new Entry[size](_ => EMPTY);
      made, freed, sent, questions := 0, [], [], [];
      stored := seq(size, _ => []);
      new;
      assert entries[..] == seq(size, _ => EMPTY);
    }

    ghost function Abs(): Cache
      reads this, entries
    {
      Cache(entries[..], stored, made, freed, sent, questions)
    }

    method FindEntry(ip: uint32) returns (k: nat)
      ensures k == Find(entries[..], ip)
    {
      k := 0;
      while k < entries.Length && !(entries[k].state != Unused && entries[k].ip == ip)
        invariant 0 <= k <= entries.Length
        invariant forall j :: 0 <= j < k ==> !(entries[j].state != Unused && entries[j].ip == ip)
      {
        k := k + 1;
      }
    }

    method FlushQueuedPackets(k: nat)
      requires k < entries.Length
      modifies `freed, entries
      ensures Abs() == Flushed(old(Abs()), k)
    {
      if entries[k].state == Incomplete {
        var i := 0;
        ghost var bs := Buffers(entries[k].queue);
        assert freed + bs[..0] == freed;
        while i < |entries[k].queue|
          invariant 0 <= i <= |bs| == |entries[k].queue| && entries[..] == old(entries[..])
          invariant freed == old(freed) + bs[..i]
        {
          freed := freed + [entries[k].queue[i].buffer];
          assert bs[..i + 1] == bs[..i] + [bs[i]];
          i := i + 1;
        }
        assert bs[..i] == bs;
      } else {
        assert freed + [] == freed;
      }
      entries[k] := entries[k].(queue := []);
    }

    method SendQueuedPackets(k: nat)
      requires k < entries.Length
      modifies `freed, `sent, entries
      ensures Abs() == Delivered(old(Abs()), k)
    {
      if entries[k].state == Incomplete {
        var i := 0;
        ghost var bs, fs := Buffers(entries[k].queue), Frames(entries[k].mac, entries[k].queue);
        assert freed + bs[..0] == freed && sent + fs[..0] == sent;
        while i < |entries[k].queue|
          invariant 0 <= i <= |bs| == |fs| == |entries[k].queue| && entries[..] == old(entries[..])
          invariant freed == old(freed) + bs[..i] && sent == old(sent) + fs[..i]
        {
          sent := sent + [Frame(entries[k].mac, entries[k].queue[i])];
          freed := freed + [entries[k].queue[i].buffer];
          assert bs[..i + 1] == bs[..i] + [bs[i]] && fs[..i + 1] == fs[..i] + [fs[i]];
          i := i + 1;
        }
        assert bs[..i] == bs && fs[..i] == fs;
      }
      entries[k] := entries[k].(queue := []);
    }

    method CreateEntry(time: uint32) returns (k: nat)
      requires Sized(Abs())
      modifies `freed, `stored, entries
      ensures Created(Abs(), k) == Create(old(Abs()), time)
    {
      hide Wrap, Age, Flushed, Stamps, Oldest, FirstUnused;
      ghost var es := entries[..];
      var oldest := 0;
      k := 0;
      while k < entries.Length
        invariant 0 <= k <= entries.Length && oldest < entries.Length && entries[..] == es
        invariant freed == old(freed) && stored == old(stored)
        invariant forall j :: 0 <= j < k ==> es[j].state != Unused
        invariant oldest == if k == 0 then 0 else Oldest(Stamps(es), time, k)
      {
        if entries[k].state == Unused {
          assert FirstUnused(es) == k;
          entries[k] := EMPTY;
          stored := stored[k := []];
          return;
        }
        OldestStep(Stamps(es), time, k);
        if Age(entries[k].timestamp, time) > Age(entries[oldest].timestamp, time) {
          oldest := k;
        }
        k := k + 1;
      }
      assert FirstUnused(es) == entries.Length;
      k := oldest;
      FlushQueuedPackets(k);
      entries[k] := EMPTY;
      stored := stored[k := []];
    }

    method DoResolve(ip: uint32, time: uint32, later: uint32) returns (mac: Option<Mac>)
      requires Sized(Abs())
      modifies `freed, `stored, `questions, entries
      ensures Resolution(Abs(), mac) == Resolve(old(Abs()), ip, time, later)
    {
      hide Create;
      var k := FindEntry(ip);
      if k < entries.Length {
        if entries[k].state == Incomplete {
          return None;
        }
        mac := Some(entries[k].mac);
        if entries[k].state == Stale {
          entries[k] := entries[k].(timestamp := later, timeout := DELAY_FIRST_PROBE, state := Delay);
        }
      } else {
        k := CreateEntry(time);
        questions := questions + [Broadcast(ip)];
        entries[k] := EMPTY.(ip := ip, timestamp := later, timeout := REQUEST_TIMEOUT, state := Incomplete);
        return None;
      }
    }

    method EnqueuePacket(ip: uint32, bytes: seq<byte>, offset: nat, memoryOk: bool) returns (status: Status)
      requires Sized(Abs())
      modifies `freed, `stored, `made, entries
      ensures Enqueued(Abs(), status) == Enqueue(old(Abs()), ip, bytes, offset, memoryOk)
    {
      var k := FindEntry(ip);
      if k == entries.Length {
        return NotFound;
      }
      if entries[k].state != Incomplete {
        return UnexpectedState;
      }
      if |entries[k].queue| >= MAX_PENDING {
        freed := freed + [entries[k].queue[0].buffer];
        entries[k] := entries[k].(queue := entries[k].queue[1..]);
      }
      assert Abs() == Displaced(old(Abs()), k);
      if !memoryOk {
        return OutOfMemory;
      }
      entries[k] := entries[k].(queue := entries[k].queue + [Packet(made, bytes, offset)]);
      stored := stored[k := stored[k] + [made]];
      made := made + 1;
      return Done;
    }

    /** The body of the loop of arpTick. */
    method TickEntry(k: nat, time: uint32, later: uint32)
      requires k < entries.Length
      modifies `freed, `questions, entries
      ensures Abs() == TickOne(old(Abs()), k, time, later)
    {
      hide Wrap, Due, Flushed;
      var e := entries[k];
      if e.state == Incomplete {
        if Due(e, time) {
          entries[k] := e.(retransmitCount := Wrap(e.retransmitCount + 1));
          if entries[k].retransmitCount < MAX_REQUESTS {
            questions := questions + [Broadcast(e.ip)];
            entries[k] := entries[k].(timestamp := time, timeout := REQUEST_TIMEOUT);
          } else {
            ghost var more := entries[k];
            FlushedLater(old(Abs()), k, more);
            FlushQueuedPackets(k);
            entries[k] := entries[k].(state := Unused);
          }
        }
      } else if e.state == Reachable {
        if Due(e, time) {
          entries[k] := e.(timestamp := later, state := Stale);
        }
      } else if e.state == Delay {
        if Due(e, time) {
          questions := questions + [Unicast(e.ip, e.mac)];
          entries[k] := e.(timestamp := time, timeout := PROBE_TIMEOUT, state := Probe);
        }
      } else if e.state == Probe {
        if Due(e, time) {
          entries[k] := e.(retransmitCount := Wrap(e.retransmitCount + 1));
          if entries[k].retransmitCount < MAX_PROBES {
            questions := questions + [Unicast(e.ip, e.mac)];
            entries[k] := entries[k].(timestamp := time, timeout := PROBE_TIMEOUT);
          } else {
            entries[k] := entries[k].(state := Unused);
          }
        }
      }
    }

    method DoTick(time: uint32, later: seq<uint32>)
      requires entries.Length <= |later|
      modifies `freed, `questions, entries
      ensures Abs() == TickFirst(old(Abs()), entries.Length, time, later)
    {
      hide TickOne;
      var k := 0;
      while k < entries.Length
        invariant 0 <= k <= entries.Length && stored == old(stored)
        invariant Abs() == TickFirst(old(Abs()), k, time, later)
      {
        TickEntry(k, time, later[k]);
        k := k + 1;
      }
    }

    method FlushCache()
      modifies `freed, entries
      ensures Abs() == FlushFirst(old(Abs()), entries.Length)
    {
      hide Flushed;
      var k := 0;
      while k < entries.Length
        invariant 0 <= k <= entries.Length && stored == old(stored)
        invariant Abs() == FlushFirst(old(Abs()), k)
      {
        FlushQueuedPackets(k);
        entries[k] := entries[k].(state := Unused);
        k := k + 1;
      }
    }

    method ProcessReply(o: Own, r: Reply, time: uint32)
      requires |r.sha| == 6
      modifies `freed, `sent, entries
      ensures Abs() == Replied(old(Abs()), o, r, time)
    {
      hide IsBroadcast, IsMulticast;
      if r.spa == IP_NONE || IsBroadcast(o, r.spa) || IsMulticast(r.spa) {
        return;
      }
      if r.sha == MAC_NONE || r.sha == MAC_BROADCAST || r.sha[0] % 2 == 1 {
        return;
      }
      if o.tentative && o.addr == r.tpa {
        return;
      }
      Learn(r.spa, r.sha, time);
    }

    /** The rest of arpProcessReply. */
    method Learn(ip: uint32, mac: Mac, time: uint32)
      modifies `freed, `sent, entries
      ensures Abs() == Answer(old(Abs()), ip, mac, time)
    {
      var k := FindEntry(ip);
      if k < entries.Length {
        if entries[k].state == Incomplete {
          entries[k] := entries[k].(mac := mac);
          SendQueuedPackets(k);
          entries[k] := entries[k].(timestamp := time, timeout := REACHABLE_TIME, state := Reachable);
        } else if entries[k].state == Reachable {
          if mac != entries[k].mac {
            entries[k] := entries[k].(state := Stale);
          }
        } else if entries[k].state == Probe {
          entries[k] := entries[k].(ip := ip, mac := mac, timestamp := time, timeout := REACHABLE_TIME, state := Reachable);
        }
      }
    }
  }

  lemma FlushedLater(c: Cache, k: nat, more: Entry)
    requires k < |c.entries| && more.state == c.entries[k].state && more.queue == c.entries[k].queue
    ensures SetEntry(Flushed(SetEntry(c, k, more), k), k, more.(queue := [], state := Unused))
            == SetEntry(Flushed(c, k), k, more.(queue := [], state := Unused))
    ensures Flushed(SetEntry(c, k, more), k).entries[k] == more.(queue := [])
  {
  }
}
