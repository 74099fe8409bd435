/**
 What becomes of the packets that wait for an address: an acceptable reply sends them all,
 and otherwise each of them waits on, until it is displaced, evicted, given up or flushed.
 */
module ArpDelivery {
  import opened Bytes
  import opened SystemTime
  import opened Sums
  import opened ArpCache
  import opened ArpRuns

  // ----- replies -----

  /** The broadcast address of a network: the part of the network as in an address of it, the rest all ones. */
  predicate BroadcastOf(ip: bv32, addr: bv32, mask: bv32) {
    ip == (addr & mask) | !mask
  }

  lemma BroadcastBits(ip: bv32, addr: bv32, mask: bv32)
    ensures LastHost(ip, addr, mask) <==> BroadcastOf(ip, addr, mask)
  {
    hide LastHost, BroadcastOf;
    if LastHost(ip, addr, mask) {
      LastIsBroadcast(ip, addr, mask);
    }
    if BroadcastOf(ip, addr, mask) {
      BroadcastIsLast(ip, addr, mask);
    }
  }

  lemma LastIsBroadcast(ip: bv32, addr: bv32, mask: bv32)
    requires LastHost(ip, addr, mask)
    ensures BroadcastOf(ip, addr, mask)
  {
    SplitBits(ip, mask);
    HighBits(ip, mask);
  }

  lemma BroadcastIsLast(ip: bv32, addr: bv32, mask: bv32)
    requires BroadcastOf(ip, addr, mask)
    ensures LastHost(ip, addr, mask)
  {
    NetworkBits(addr, mask);
  }

  lemma SplitBits(ip: bv32, mask: bv32)
    ensures ip == (ip & mask) | (ip & !mask)
  {
  }

  lemma HighBits(ip: bv32, mask: bv32)
    requires ip | mask == 0xFFFF_FFFF
    ensures ip & !mask == !mask
  {
  }

  lemma NetworkBits(addr: bv32, mask: bv32)
    ensures ((addr & mask) | !mask) & mask == addr & mask && ((addr & mask) | !mask) | mask == 0xFFFF_FFFF
  {
  }

  /** The first live entry for an address is the only one. */
  lemma FindsIt(c: Cache, k: nat)
    requires Safe(c) && k < |c.entries| && c.entries[k].state != Unused
    ensures Find(c.entries, c.entries[k].ip) == k
  {
    hide GoodEntry, Conserved, SentFreed;
    var f := Find(c.entries, c.entries[k].ip);
    assert f <= k;
  }

  lemma AnswerSends(c: Cache, ip: uint32, mac: Mac, time: uint32, k: nat)
    requires Safe(c) && k < |c.entries| && c.entries[k].state == Incomplete && c.entries[k].ip == ip
    ensures var d, q := Answer(c, ip, mac, time), c.entries[k].queue;
            d.sent == c.sent + Frames(mac, q) && d.freed == c.freed + Buffers(q)
  {
    hide Safe;
    FindsIt(c, k);
  }

  /**
   An acceptable reply to an incomplete entry sends every packet that waits there, in order,
   to the hardware address of the reply, and frees it. The entry is reachable at that address
   from then on, and no other entry changes.
   */
  lemma ReplyDelivers(c: Cache, o: Own, r: Reply, time: uint32, k: nat)
    requires Safe(c) && Acceptable(o, r)
    requires k < |c.entries| && c.entries[k].state == Incomplete && c.entries[k].ip == r.spa
    ensures var d, e := Step(c, DoReply(o, r, time)), c.entries[k];
            && |d.sent| == |c.sent| + |e.queue| && d.sent[..|c.sent|] == c.sent
            && (forall i :: 0 <= i < |e.queue| ==> d.sent[|c.sent| + i] == Frame(r.sha, e.queue[i]))
            && |d.freed| == |c.freed| + |e.queue| && d.freed[..|c.freed|] == c.freed
            && (forall i :: 0 <= i < |e.queue| ==> d.freed[|c.freed| + i] == e.queue[i].buffer)
            && |d.entries| == |c.entries| && (forall j :: 0 <= j < |c.entries| && j != k ==> d.entries[j] == c.entries[j])
            && d.entries[k] == Entry(Reachable, r.spa, r.sha, time, REACHABLE_TIME, e.retransmitCount, [])
            && d.made == c.made && d.stored == c.stored && d.questions == c.questions
  {
    hide Acceptable, GoodEntry, Conserved, SentFreed;
    FindsIt(c, k);
  }

  /**
   Any other reply sends nothing: it confirms an entry that is being probed, makes a reachable
   entry stale when it brings another hardware address, and changes nothing else.
   */
  lemma ReplyUpdates(c: Cache, o: Own, r: Reply, time: uint32)
    requires Safe(c)
    requires forall k :: 0 <= k < |c.entries| ==> !(c.entries[k].state == Incomplete && c.entries[k].ip == r.spa)
    ensures var d := Step(c, DoReply(o, r, time));
            && d.sent == c.sent && d.freed == c.freed && d.questions == c.questions && |d.entries| == |c.entries|
            && forall k :: 0 <= k < |c.entries| ==>
                 var e := c.entries[k];
                 d.entries[k] == if Acceptable(o, r) && e.ip == r.spa && e.state == Probe then
                                   e.(mac := r.sha, timestamp := time, timeout := REACHABLE_TIME, state := Reachable)
                                 else if Acceptable(o, r) && e.ip == r.spa && e.state == Reachable && e.mac != r.sha then
                                   e.(state := Stale)
                                 else e
  {
    hide Acceptable, GoodEntry, Conserved, SentFreed;
    forall k | 0 <= k < |c.entries| && c.entries[k].state != Unused
      ensures Find(c.entries, c.entries[k].ip) == k
    {
      FindsIt(c, k);
    }
    SafeEmpty(c);
  }

  lemma SafeEmpty(c: Cache)
    requires Safe(c)
    ensures forall k :: 0 <= k < |c.entries| && c.entries[k].state != Incomplete ==> c.entries[k].queue == []
  {
    hide Conserved, SentFreed, NewestOf;
  }

  /**
   Which replies are acceptable: from an address that is neither unspecified nor a broadcast
   or multicast one, with the hardware address of one host, and not for the address that the
   interface is probing. Any other reply changes nothing.
   */
  lemma AcceptableExactly(c: Cache, o: Own, r: Reply, time: uint32)
    requires Sized(c) && |r.sha| == 6
    ensures Acceptable(o, r) <==>
              && r.spa != 0 && r.spa != 0xFFFF_FFFF && !(0xE000_0000 <= r.spa <= 0xEFFF_FFFF)
              && (o.mask != 0xFFFF_FFFF ==> !BroadcastOf(Bits(r.spa), Bits(o.addr), Bits(o.mask)))
              && r.sha != [0, 0, 0, 0, 0, 0] && r.sha[0] % 2 == 0 && !(o.tentative && r.tpa == o.addr)
    ensures !Acceptable(o, r) ==> Step(c, DoReply(o, r, time)) == c
  {
    hide Bits, LastHost, BroadcastOf;
    BroadcastBits(Bits(r.spa), Bits(o.addr), Bits(o.mask));
  }

  // ----- asking and waiting -----

  predicate IsOldest(es: seq<Entry>, k: nat, time: uint32) {
    && k < |es|
    && (forall j :: 0 <= j < |es| ==> Age(es[j].timestamp, time) <= Age(es[k].timestamp, time))
    && (forall j :: 0 <= j < k ==> Age(es[j].timestamp, time) < Age(es[k].timestamp, time))
  }

  /** The entry that a new address gets: the first unused one, or else the oldest one. */
  predicate Replaced(es: seq<Entry>, k: nat, time: uint32) {
    && k < |es| && (forall j :: 0 <= j < k && es[k].state == Unused ==> es[j].state != Unused)
    && (es[k].state != Unused ==> IsOldest(es, k, time) && forall j :: 0 <= j < |es| ==> es[j].state != Unused)
  }

  /** An address that is known is given at once; a stale one is used too, and will be probed. */
  lemma ResolvesKnown(c: Cache, ip: uint32, time: uint32, later: uint32, k: nat)
    requires Safe(c) && k < |c.entries| && c.entries[k].state != Unused && c.entries[k].ip == ip
    ensures var e, r := c.entries[k], Resolve(c, ip, time, later);
            && r.mac == (if e.state == Incomplete then None else Some(e.mac))
            && (e.state != Stale ==> r.cache == c)
            && (e.state == Stale ==>
                  r.cache == c.(entries := c.entries[k := e.(state := Delay, timestamp := later, timeout := 5000)]))
  {
    hide GoodEntry, Conserved, SentFreed;
    FindsIt(c, k);
  }

  /**
   For an address without an entry everybody is asked, and an entry is made for it, for
   packets to wait in: the first unused one, or else the oldest one, whose packets are freed.
   */
  lemma ResolvesUnknown(c: Cache, ip: uint32, time: uint32, later: uint32, k: nat)
    requires Safe(c) && forall j :: 0 <= j < |c.entries| && c.entries[j].state != Unused ==> c.entries[j].ip != ip
    requires Replaced(c.entries, k, time)
    ensures var r := Resolve(c, ip, time, later);
            && r.mac == None && r.cache.questions == c.questions + [Broadcast(ip)] && r.cache.sent == c.sent
            && r.cache.entries == c.entries[k := Entry(Incomplete, ip, [0, 0, 0, 0, 0, 0], later, 1000, 0, [])]
            && r.cache.stored == c.stored[k := []] && r.cache.made == c.made
            && r.cache.freed == c.freed + Buffers(c.entries[k].queue)
  {
    hide GoodEntry, Conserved, SentFreed, Unique, Wrap;
    SafeEmpty(c);
    var f := FirstUnused(c.entries);
    if c.entries[k].state == Unused {
      assert f == k;
      assert c.freed + Buffers(c.entries[k].queue) == c.freed;
    } else {
      assert f == |c.entries|;
      assert Oldest(Stamps(c.entries), time, |c.entries|) == k;
      assert c.entries[k].state != Incomplete ==> c.freed + Buffers(c.entries[k].queue) == c.freed;
    }
  }

  /** A packet for an address that is being resolved waits, as the last one; the first of two makes room for it. */
  lemma Waits(c: Cache, k: nat, bytes: seq<byte>, offset: nat)
    requires Safe(c) && k < |c.entries| && c.entries[k].state == Incomplete
    ensures var e, r := c.entries[k], Enqueue(c, c.entries[k].ip, bytes, offset, true);
            var full := |e.queue| == 2;
            && r.status == Done && r.cache.made == c.made + 1 && r.cache.sent == c.sent && r.cache.questions == c.questions
            && r.cache.entries == c.entries[k := e.(queue := (if full then e.queue[1..] else e.queue)
                                                             + [Packet(c.made, bytes, offset)])]
            && r.cache.freed == c.freed + if full then [e.queue[0].buffer] else []
  {
    hide Conserved, SentFreed;
    FindsIt(c, k);
    SafeEntry(c, k);
    assert c.freed + [] == c.freed;
  }

  // ----- packets that are lost -----

  /** The buffers of entry `k` that an event frees although they were not sent. */
  ghost function GivenUp(c: Cache, ev: Event, k: nat): multiset<nat>
    requires k < |c.entries|
  {
    var e := c.entries[k];
    match ev
    case DoResolve(ip, time, _) =>
      // eviction: the oldest entry makes room for a new address
      if Replaced(c.entries, k, time) && (forall j :: 0 <= j < |c.entries| && c.entries[j].state != Unused ==> c.entries[j].ip != ip)
      then Queued(e) else multiset{}
    case DoEnqueue(ip, _, _, _) =>
      // displacement: the oldest packet makes room for a new one
      if e.state == Incomplete && e.ip == ip && |e.queue| == 2 then multiset{e.queue[0].buffer} else multiset{}
    case DoTick(time, _) =>
      // the third timeout
      if e.state == Incomplete && e.retransmitCount == 2 && Due(e, time) then Queued(e) else multiset{}
    case DoReply(_, _, _) => multiset{}
    case DoFlush => Queued(e)
  }

  ghost function AllGivenUp(c: Cache, ev: Event): (ms: seq<multiset<nat>>)
    ensures |ms| == |c.entries| && forall k :: 0 <= k < |ms| ==> ms[k] == GivenUp(c, ev, k)
  {
    seq(|c.entries|, k requires 0 <= k < |c.entries| => GivenUp(c, ev, k))
  }

  ghost function Lost(c: Cache, ev: Event): multiset<nat> {
    Total(AllGivenUp(c, ev))
  }

  /** The buffers freed between `c` and `d` are those that were sent, and those in `lost`. */
  ghost predicate Accounts(c: Cache, d: Cache, lost: multiset<nat>) {
    && |c.sent| <= |d.sent| && d.sent[..|c.sent|] == c.sent
    && multiset(d.freed) + multiset(SentBuffers(c.sent)) == multiset(c.freed) + multiset(SentBuffers(d.sent)) + lost
  }

  lemma SameSentAccounts(c: Cache, d: Cache, lost: multiset<nat>)
    requires d.sent == c.sent && multiset(d.freed) == multiset(c.freed) + lost
    ensures Accounts(c, d, lost)
  {
    assert d.sent[..|c.sent|] == c.sent;
  }

  lemma {:induction false} OneLoses(ms: seq<multiset<nat>>, k: nat)
    requires k < |ms| && forall j :: 0 <= j < |ms| && j != k ==> ms[j] == multiset{}
    ensures Total(ms) == ms[k]
  {
    var none := ms[k := multiset{}];
    TotalUpdate(ms, k, multiset{});
    TotalNothing(none);
    assert Total(none) + ms[k] == ms[k] && Total(ms) + multiset{} == Total(ms);
  }

  /** The one entry that a new address gets. */
  function Victim(es: seq<Entry>, time: uint32): (k: nat)
    requires es != []
    ensures k < |es|
  {
    if FirstUnused(es) < |es| then FirstUnused(es) else Oldest(Stamps(es), time, |es|)
  }

  lemma ReplacedOne(es: seq<Entry>, time: uint32)
    requires es != []
    ensures Replaced(es, Victim(es, time), time) && forall j :: Replaced(es, j, time) ==> j == Victim(es, time)
  {
    hide Wrap;
  }

  lemma ResolveAccounts(c: Cache, ev: Event)
    requires Safe(c) && ev.DoResolve?
    ensures Accounts(c, Step(c, ev), Lost(c, ev))
  {
    hide Unique, GoodEntry, Conserved, SentFreed, Replaced, Accounts, Victim, Create, GivenUp;
    var d, ms, k := Step(c, ev), AllGivenUp(c, ev), Find(c.entries, ev.ip);
    if k < |c.entries| {
      forall j | 0 <= j < |c.entries| ensures ms[j] == multiset{} {
        EvictsOne(c, ev, j);
      }
      TotalNothing(ms);
      SameSentAccounts(c, d, multiset{});
    } else {
      ReplacedOne(c.entries, ev.time);
      var v := Victim(c.entries, ev.time);
      forall j | 0 <= j < |c.entries| ensures ms[j] == if j == v then Queued(c.entries[v]) else multiset{} {
        EvictsOne(c, ev, j);
      }
      OneLoses(ms, v);
      ResolvesUnknown(c, ev.ip, ev.time, ev.later, v);
      SameSentAccounts(c, d, ms[v]);
    }
  }

  lemma EvictsOne(c: Cache, ev: Event, j: nat)
    requires j < |c.entries| && ev.DoResolve?
    ensures GivenUp(c, ev, j) == if Find(c.entries, ev.ip) == |c.entries| && Replaced(c.entries, j, ev.time)
                                 then Queued(c.entries[j]) else multiset{}
  {
    hide Replaced, Queued;
  }

  lemma EnqueueAccounts(c: Cache, ev: Event)
    requires Safe(c) && ev.DoEnqueue?
    ensures Accounts(c, Step(c, ev), Lost(c, ev))
  {
    hide Unique, GoodEntry, Conserved, SentFreed, Accounts;
    var d, ms := Step(c, ev), AllGivenUp(c, ev);
    var k := Find(c.entries, ev.ip);
    forall j | 0 <= j < |c.entries| && j != k ensures ms[j] == multiset{} {
      if c.entries[j].state == Incomplete && c.entries[j].ip == ev.ip {
        FindsIt(c, j);
      }
    }
    if k < |c.entries| {
      OneLoses(ms, k);
      SafeQueue(c, k);
      EnqueueLoses(c, ev, k);
      SameSentAccounts(c, d, ms[k]);
    } else {
      TotalNothing(ms);
      SameSentAccounts(c, d, multiset{});
    }
  }

  lemma SafeQueue(c: Cache, k: nat)
    requires Safe(c) && k < |c.entries|
    ensures |c.entries[k].queue| <= 2
  {
    hide Conserved, SentFreed;
    SafeEntry(c, k);
  }

  lemma EnqueueLoses(c: Cache, ev: Event, k: nat)
    requires Sized(c) && ev.DoEnqueue? && k < |c.entries| && Find(c.entries, ev.ip) == k && |c.entries[k].queue| <= 2
    ensures var d := Step(c, ev);
            d.sent == c.sent && multiset(d.freed) == multiset(c.freed) + GivenUp(c, ev, k)
  {
    hide Find;
    assert |c.entries[k].queue| == 2 ==>
        multiset(c.freed + [c.entries[k].queue[0].buffer]) == multiset(c.freed) + multiset{c.entries[k].queue[0].buffer};
  }

  /** A tick treats each entry by itself. */
  lemma {:induction false} TickEach(c: Cache, n: nat, time: uint32, later: seq<uint32>)
    requires n <= |c.entries| <= |later|
    ensures var d := TickFirst(c, n, time, later);
            forall k :: 0 <= k < |c.entries| ==>
              d.entries[k] == if k < n then TickOne(c, k, time, later[k]).entries[k] else c.entries[k]
  {
    hide TickOne;
    if n > 0 {
      TickEach(c, n - 1, time, later);
      TickAlone(c, TickFirst(c, n - 1, time, later), n - 1, time, later[n - 1]);
    }
  }

  lemma TickAlone(c: Cache, b: Cache, k: nat, time: uint32, later: uint32)
    requires k < |c.entries| == |b.entries| && b.entries[k] == c.entries[k]
    ensures TickOne(b, k, time, later).entries == b.entries[k := TickOne(c, k, time, later).entries[k]]
  {
    hide Due, Wrap, Flushed;
    FlushedEntry(b, k);
    FlushedEntry(c, k);
    FlushedOnly(b, k);
    FlushedOnly(c, k);
  }

  lemma FlushedOnly(c: Cache, k: nat)
    requires k < |c.entries|
    ensures Flushed(c, k).entries == c.entries[k := c.entries[k].(queue := [])]
  {
  }

  lemma {:induction false} TickAccounts(c: Cache, n: nat, time: uint32, later: seq<uint32>)
    requires Safe(c) && n <= |c.entries| <= |later|
    ensures var d, ms := TickFirst(c, n, time, later), AllGivenUp(c, DoTick(time, later));
            d.sent == c.sent && multiset(d.freed) == multiset(c.freed) + Total(ms[..n])
  {
    hide Unique, Conserved, SentFreed, GivenUp, TickOne, GoodEntry;
    var ms := AllGivenUp(c, DoTick(time, later));
    if n > 0 {
      TickAccounts(c, n - 1, time, later);
      TickEach(c, n - 1, time, later);
      var b := TickFirst(c, n - 1, time, later);
      SafeEntry(c, n - 1);
      assert ms[..n][..n - 1] == ms[..n - 1];
      TickOneLoses(c, b, n - 1, time, later);
    } else {
      assert multiset(c.freed) + Total(ms[..0]) == multiset(c.freed);
    }
  }

  lemma TickOneLoses(c: Cache, b: Cache, k: nat, time: uint32, later: seq<uint32>)
    requires k < |c.entries| == |b.entries| == |c.stored| && b.entries[k] == c.entries[k] && k < |later|
    requires GoodEntry(c.entries[k], c.stored[k])
    ensures var d := TickOne(b, k, time, later[k]);
            d.sent == b.sent && multiset(d.freed) == multiset(b.freed) + GivenUp(c, DoTick(time, later), k)
  {
    hide Due, NewestOf;
    var e := c.entries[k];
    assert multiset(b.freed + Buffers(e.queue)) == multiset(b.freed) + Queued(e);
  }

  lemma {:induction false} FlushAccounts(c: Cache, n: nat)
    requires Safe(c) && n <= |c.entries|
    ensures var d, ms := FlushFirst(c, n), AllGivenUp(c, DoFlush);
            && d.sent == c.sent && multiset(d.freed) == multiset(c.freed) + Total(ms[..n])
            && forall k :: n <= k < |c.entries| ==> d.entries[k] == c.entries[k]
  {
    hide Unique, Conserved, SentFreed, GoodEntry, Flushed, GivenUp;
    var ms := AllGivenUp(c, DoFlush);
    if n > 0 {
      FlushAccounts(c, n - 1);
      var b := FlushFirst(c, n - 1);
      SafeEntry(c, n - 1);
      assert ms[..n][..n - 1] == ms[..n - 1];
      FlushedLoses(c, b, n - 1);
    } else {
      assert multiset(c.freed) + Total(ms[..0]) == multiset(c.freed);
    }
  }

  lemma FlushedLoses(c: Cache, b: Cache, k: nat)
    requires k < |c.entries| == |b.entries| == |c.stored| && b.entries[k] == c.entries[k]
    requires GoodEntry(c.entries[k], c.stored[k])
    ensures var d := Flushed(b, k);
            && d.sent == b.sent && multiset(d.freed) == multiset(b.freed) + GivenUp(c, DoFlush, k)
            && d.entries == b.entries[k := b.entries[k].(queue := [])]
  {
    hide NewestOf;
    QueueBuffers(c.entries[k]);
    assert multiset(b.freed + Buffers(c.entries[k].queue)) == multiset(b.freed) + Queued(c.entries[k]);
  }

  lemma SentAccounts(c: Cache, d: Cache, to: Mac, q: seq<Packet>)
    requires d.sent == c.sent + Frames(to, q) && d.freed == c.freed + Buffers(q)
    ensures Accounts(c, d, multiset{})
  {
    assert SentBuffers(d.sent) == SentBuffers(c.sent) + Buffers(q);
  }

  lemma ReplyAccounts(c: Cache, ev: Event)
    requires Safe(c) && ev.DoReply?
    ensures Accounts(c, Step(c, ev), Lost(c, ev))
  {
    hide Unique, GoodEntry, Conserved, SentFreed, Acceptable, Accounts, Answer;
    var d := Step(c, ev);
    TotalNothing(AllGivenUp(c, ev));
    if !Acceptable(ev.own, ev.reply) {
      SameSentAccounts(c, d, multiset{});
    } else if k :| 0 <= k < |c.entries| && c.entries[k].state == Incomplete && c.entries[k].ip == ev.reply.spa {
      AnswerSends(c, ev.reply.spa, ev.reply.sha, ev.time, k);
      SentAccounts(c, d, ev.reply.sha, c.entries[k].queue);
    } else {
      ReplyUpdates(c, ev.own, ev.reply, ev.time);
      SameSentAccounts(c, d, multiset{});
    }
  }

  /** Every event frees exactly what it sends and what it loses, and takes back nothing that was sent. */
  lemma StepAccounts(c: Cache, ev: Event)
    requires Safe(c) && Possible(|c.entries|, ev)
    ensures Accounts(c, Step(c, ev), Lost(c, ev))
  {
    hide Unique, GoodEntry, Conserved, SentFreed, GivenUp, Accounts, Resolve, Enqueue, Replied;
    var ms := AllGivenUp(c, ev);
    match ev
    case DoResolve(_, _, _) => ResolveAccounts(c, ev);
    case DoEnqueue(_, _, _, _) => EnqueueAccounts(c, ev);
    case DoTick(time, readings) =>
      TickAccounts(c, |c.entries|, time, readings);
      assert ms[..|ms|] == ms && DoTick(time, readings) == ev;
      SameSentAccounts(c, Step(c, ev), Lost(c, ev));
    case DoReply(_, _, _) => ReplyAccounts(c, ev);
    case DoFlush =>
      FlushAccounts(c, |c.entries|);
      assert ms[..|ms|] == ms;
      SameSentAccounts(c, Step(c, ev), Lost(c, ev));
  }

  /** What is lost over a run: by eviction, by displacement, at a third timeout, or by a flush. */
  ghost function LostOver(c: Cache, events: seq<Event>): multiset<nat>
    requires Safe(c) && forall k :: 0 <= k < |events| ==> Possible(|c.entries|, events[k])
  {
    if events == [] then multiset{}
    else LostOver(c, events[..|events| - 1]) + Lost(Run(c, events[..|events| - 1]), events[|events| - 1])
  }

  lemma {:induction false} RunAccounts(c: Cache, events: seq<Event>)
    requires Safe(c) && forall k :: 0 <= k < |events| ==> Possible(|c.entries|, events[k])
    ensures Accounts(c, Run(c, events), LostOver(c, events))
  {
    hide Unique, GoodEntry, Conserved, SentFreed, Lost, Step, Accounts;
    if events == [] {
      SameSentAccounts(c, c, multiset{});
      assert c.sent[..|c.sent|] == c.sent;
    } else {
      var before := events[..|events| - 1];
      RunAccounts(c, before);
      var b, ev := Run(c, before), events[|events| - 1];
      StepAccounts(b, ev);
      Together(c, b, Step(b, ev), LostOver(c, before), Lost(b, ev));
    }
  }

  lemma Regroup(fb: multiset<nat>, fc: multiset<nat>, fd: multiset<nat>, sb: multiset<nat>, sc: multiset<nat>, sd: multiset<nat>,
                x: multiset<nat>, y: multiset<nat>)
    requires fd + sc == fc + sd + y && fc + sb == fb + sc + x
    ensures fd + sb == fb + sd + (x + y)
  {
    forall b ensures (fd + sb)[b] == (fb + sd + (x + y))[b] {
      assert (fd + sc)[b] == (fc + sd + y)[b] && (fc + sb)[b] == (fb + sc + x)[b];
    }
  }

  lemma Together(b: Cache, c: Cache, d: Cache, x: multiset<nat>, y: multiset<nat>)
    requires Accounts(b, c, x) && Accounts(c, d, y)
    ensures Accounts(b, d, x + y)
  {
    assert d.sent[..|b.sent|] == d.sent[..|c.sent|][..|b.sent|];
    var fb, fc, fd := multiset(b.freed), multiset(c.freed), multiset(d.freed);
    var sb, sc, sd := multiset(SentBuffers(b.sent)), multiset(SentBuffers(c.sent)), multiset(SentBuffers(d.sent));
    assert fd + sc == fc + sd + y && fc + sb == fb + sc + x;
    Regroup(fb, fc, fd, sb, sc, sd, x, y);
  }

  /**
   Over any run of a new cache, a buffer that was allocated is in exactly one of three places:
   it waits in one queue, it has been sent, once, or it is among those lost by eviction,
   displacement, a third timeout or a flush.
   */
  lemma {:induction false} WaitsSentOrLost(size: nat, events: seq<Event>, b: nat)
    requires size > 0 && forall k :: 0 <= k < |events| ==> Possible(size, events[k])
    ensures Safe(Empty(size))
    ensures var c := Run(Empty(size), events);
            && multiset(c.freed) == multiset(SentBuffers(c.sent)) + LostOver(Empty(size), events)
            && Total(Queues(c.entries))[b] + multiset(SentBuffers(c.sent))[b] + LostOver(Empty(size), events)[b]
               == if b < c.made then 1 else 0
  {
    hide Safe, Run, LostOver;
    EmptySafe(size);
    RunAccounts(Empty(size), events);
    var c, lost := Run(Empty(size), events), LostOver(Empty(size), events);
    assert SentBuffers(Empty(size).sent) == [] && Empty(size).freed == [];
    assert multiset(c.freed) + multiset(SentBuffers([])) == multiset(c.freed);
    assert multiset(c.freed) == multiset(SentBuffers(c.sent)) + lost;
    BufferOnce(c, b);
    assert multiset(c.freed)[b] == multiset(SentBuffers(c.sent))[b] + lost[b];
  }

  // ----- one packet -----

  /** The packet waits for the address. */
  ghost predicate Waiting(c: Cache, ip: uint32, p: Packet) {
    exists k :: 0 <= k < |c.entries| && c.entries[k].state == Incomplete && c.entries[k].ip == ip && p in c.entries[k].queue
  }

  /** An acceptable reply from the address. */
  predicate Answers(ev: Event, ip: uint32) {
    ev.DoReply? && Acceptable(ev.own, ev.reply) && ev.reply.spa == ip
  }

  /** The packet has been sent to the hardware address of this reply. */
  predicate SentBy(d: Cache, ev: Event, ip: uint32, p: Packet) {
    Answers(ev, ip) && Frame(ev.reply.sha, p) in d.sent
  }

  lemma InQueue(e: Entry, p: Packet)
    requires p in e.queue
    ensures p.buffer in Queued(e)
  {
    var i :| 0 <= i < |e.queue| && e.queue[i] == p;
    assert Buffers(e.queue)[i] == p.buffer;
  }

  lemma LostThere(c: Cache, ev: Event, k: nat, b: nat)
    requires k < |c.entries| && b in GivenUp(c, ev, k)
    ensures b in Lost(c, ev)
  {
    hide GivenUp;
    InTotal(AllGivenUp(c, ev), b);
    assert b in AllGivenUp(c, ev)[k];
  }

  /** A packet that waits is sent by the first acceptable reply, and before that waits on or is lost. */
  lemma Fate(c: Cache, ev: Event, ip: uint32, p: Packet)
    requires Safe(c) && Possible(|c.entries|, ev) && Waiting(c, ip, p)
    ensures if Answers(ev, ip) then Frame(ev.reply.sha, p) in Step(c, ev).sent
            else Waiting(Step(c, ev), ip, p) || p.buffer in Lost(c, ev)
  {
    hide Unique, GoodEntry, Conserved, SentFreed, Lost, Acceptable, Step;
    var k: nat :| k < |c.entries| && c.entries[k].state == Incomplete && c.entries[k].ip == ip && p in c.entries[k].queue;
    match ev
    case DoResolve(_, _, _) => ResolveFate(c, ev, k, p);
    case DoEnqueue(_, _, _, _) => EnqueueFate(c, ev, k, p);
    case DoTick(_, _) => TickFate(c, ev, k, p);
    case DoReply(_, _, _) => ReplyFate(c, ev, k, p);
    case DoFlush =>
      InQueue(c.entries[k], p);
      LostThere(c, ev, k, p.buffer);
  }

  lemma ReplyFate(c: Cache, ev: Event, k: nat, p: Packet)
    requires Safe(c) && ev.DoReply? && k < |c.entries| && c.entries[k].state == Incomplete && p in c.entries[k].queue
    ensures if Answers(ev, c.entries[k].ip) then Frame(ev.reply.sha, p) in Step(c, ev).sent
            else Waiting(Step(c, ev), c.entries[k].ip, p)
  {
    hide Unique, GoodEntry, Conserved, SentFreed, Acceptable;
    var e, d := c.entries[k], Step(c, ev);
    if Answers(ev, e.ip) {
      AnswerSends(c, e.ip, ev.reply.sha, ev.time, k);
      var i :| 0 <= i < |e.queue| && e.queue[i] == p;
      assert Frames(ev.reply.sha, e.queue)[i] == Frame(ev.reply.sha, p);
    } else {
      assert d.entries[k] == e;
    }
  }

  lemma TickFate(c: Cache, ev: Event, k: nat, p: Packet)
    requires Safe(c) && ev.DoTick? && Possible(|c.entries|, ev)
    requires k < |c.entries| && c.entries[k].state == Incomplete && p in c.entries[k].queue
    ensures Waiting(Step(c, ev), c.entries[k].ip, p) || p.buffer in Lost(c, ev)
  {
    hide Unique, GoodEntry, Conserved, SentFreed, Lost, TickOne, GivenUp;
    TickEach(c, |c.entries|, ev.time, ev.readings);
    SafeEntry(c, k);
    InQueue(c.entries[k], p);
    TickOneFate(c, ev, k);
    if p.buffer in GivenUp(c, ev, k) {
      LostThere(c, ev, k, p.buffer);
    } else {
      assert Step(c, ev).entries[k].ip == c.entries[k].ip && p in Step(c, ev).entries[k].queue;
    }
  }

  lemma TickOneFate(c: Cache, ev: Event, k: nat)
    requires ev.DoTick? && k < |c.entries| == |c.stored| && k < |ev.readings|
    requires c.entries[k].state == Incomplete && GoodEntry(c.entries[k], c.stored[k])
    ensures var e, f := c.entries[k], TickOne(c, k, ev.time, ev.readings[k]).entries[k];
            (f.state == Incomplete && f.ip == e.ip && f.queue == e.queue) || GivenUp(c, ev, k) == Queued(e)
  {
    hide Due, NewestOf, Flushed, Queued;
  }

  lemma ResolveFate(c: Cache, ev: Event, k: nat, p: Packet)
    requires Safe(c) && ev.DoResolve? && k < |c.entries| && c.entries[k].state == Incomplete && p in c.entries[k].queue
    ensures Waiting(Step(c, ev), c.entries[k].ip, p) || p.buffer in Lost(c, ev)
  {
    hide Unique, GoodEntry, Conserved, SentFreed, Lost, Replaced, Victim, Create;
    var d, f := Step(c, ev), Find(c.entries, ev.ip);
    if f < |c.entries| {
      assert d.entries[k] == c.entries[k];
    } else {
      ReplacedOne(c.entries, ev.time);
      var v := Victim(c.entries, ev.time);
      ResolvesUnknown(c, ev.ip, ev.time, ev.later, v);
      if v == k {
        InQueue(c.entries[k], p);
        LostThere(c, ev, k, p.buffer);
      } else {
        assert d.entries[k] == c.entries[k];
      }
    }
  }

  lemma EnqueueFate(c: Cache, ev: Event, k: nat, p: Packet)
    requires Safe(c) && ev.DoEnqueue? && k < |c.entries| && c.entries[k].state == Incomplete && p in c.entries[k].queue
    ensures Waiting(Step(c, ev), c.entries[k].ip, p) || p.buffer in Lost(c, ev)
  {
    hide Unique, Conserved, SentFreed, Lost;
    var d, e := Step(c, ev), c.entries[k];
    SafeEntry(c, k);
    if e.ip == ev.ip {
      FindsIt(c, k);
      if p !in d.entries[k].queue {
        var i :| 0 <= i < |e.queue| && e.queue[i] == p;
        assert i > 0 ==> e.queue[1..][i - 1] == p;
        LostThere(c, ev, k, p.buffer);
      }
    } else {
      assert d.entries[k] == e;
    }
  }

  /**
   Whatever happens to the cache, a packet that waits for an address goes on waiting, or is
   lost, or has been sent to the hardware address of a reply from that address.
   */
  lemma {:induction false} Fates(c: Cache, events: seq<Event>, ip: uint32, p: Packet)
    requires Safe(c) && forall k :: 0 <= k < |events| ==> Possible(|c.entries|, events[k])
    requires Waiting(c, ip, p)
    ensures var d := Run(c, events);
            || Waiting(d, ip, p) || p.buffer in LostOver(c, events)
            || exists i :: 0 <= i < |events| && SentBy(d, events[i], ip, p)
  {
    hide Safe, Waiting, Answers, Lost, Step;
    if events != [] {
      var n := |events| - 1;
      var before, ev := events[..n], events[n];
      var b := Run(c, before);
      Fates(c, before, ip, p);
      StepAccounts(b, ev);
      if Waiting(b, ip, p) {
        Fate(b, ev, ip, p);
        if Answers(ev, ip) {
          assert SentBy(Run(c, events), events[n], ip, p);
        }
      } else if i :| 0 <= i < |before| && SentBy(b, before[i], ip, p) {
        assert SentBy(Run(c, events), events[i], ip, p);
      }
    }
  }

  lemma WaitsAtOnce(c: Cache, ip: uint32, time: uint32, later: uint32, bytes: seq<byte>, offset: nat)
    requires Safe(c) && forall j :: 0 <= j < |c.entries| && c.entries[j].state != Unused ==> c.entries[j].ip != ip
    ensures var asked := Resolve(c, ip, time, later).cache;
            && Safe(asked)
            && var b := Enqueue(asked, ip, bytes, offset, true);
            && asked.questions == c.questions + [Broadcast(ip)] && b.status == Done
            && |b.cache.entries| == |c.entries| && Waiting(b.cache, ip, Packet(c.made, bytes, offset))
  {
    hide Unique, GoodEntry, Conserved, SentFreed, Replaced, Resolve, Enqueue;
    var asked := Resolve(c, ip, time, later).cache;
    ResolveSafe(c, ip, time, later);
    ReplacedOne(c.entries, time);
    var v := Victim(c.entries, time);
    ResolvesUnknown(c, ip, time, later, v);
    Waits(asked, v, bytes, offset);
    assert Enqueue(asked, ip, bytes, offset, true).cache.entries[v].queue == [Packet(c.made, bytes, offset)];
  }

  /**
   From the question to the delivery: a packet for an address without an entry is sent to the
   hardware address of the first acceptable reply from there, whatever happens before that
   reply, unless the packet is lost before it.
   */
  lemma {:induction false} SentToTheReply(c: Cache, ip: uint32, time: uint32, later: uint32, bytes: seq<byte>, offset: nat,
                       events: seq<Event>, reply: Event)
    requires Safe(c) && forall j :: 0 <= j < |c.entries| && c.entries[j].state != Unused ==> c.entries[j].ip != ip
    requires forall k :: 0 <= k < |events| ==> Possible(|c.entries|, events[k]) && !Answers(events[k], ip)
    requires Answers(reply, ip)
    ensures Safe(Resolve(c, ip, time, later).cache)
    ensures var asked := Resolve(c, ip, time, later).cache;
            var p, b := Packet(c.made, bytes, offset), Enqueue(asked, ip, bytes, offset, true);
            && asked.questions == c.questions + [Broadcast(ip)] && b.status == Done
            && Safe(b.cache) && |b.cache.entries| == |c.entries|
            && (c.made !in LostOver(b.cache, events) ==>
                  var d := Run(b.cache, events);
                  Waiting(d, ip, p) && Frame(reply.reply.sha, p) in Step(d, reply).sent)
  {
    hide Unique, GoodEntry, Conserved, SentFreed, Replaced, Acceptable, Run, LostOver, Resolve, Enqueue, Waiting, Step;
    ResolveSafe(c, ip, time, later);
    var asked := Resolve(c, ip, time, later).cache;
    var b, p := Enqueue(asked, ip, bytes, offset, true).cache, Packet(c.made, bytes, offset);
    EnqueueSafe(asked, ip, bytes, offset, true);
    WaitsAtOnce(c, ip, time, later, bytes, offset);
    Fates(b, events, ip, p);
    if c.made !in LostOver(b, events) {
      Fate(Run(b, events), reply, ip, p);
    }
  }

  // ----- the life of an entry -----

  /** A reachable entry becomes stale after its time, without being asked about. */
  lemma GetsStale(c: Cache, k: nat, time: uint32, later: uint32)
    requires k < |c.entries| && c.entries[k].state == Reachable && Due(c.entries[k], time)
    ensures var d := TickOne(c, k, time, later);
            d == c.(entries := c.entries[k := c.entries[k].(state := Stale, timestamp := later)])
  {
  }

  /**
   An entry that was used while stale is probed when its delay is over: its own host is asked,
   and once more a minute later, unless the counter shows that the entry itself took more than
   one request to resolve, or was probed before; then it is given up.
   */
  lemma {:induction false} Probed(c: Cache, k: nat, times: seq<uint32>)
    requires k < |c.entries| && c.entries[k].state == Delay && EachDue(c, k, times)
    requires 0 < |times| <= if c.entries[k].retransmitCount == 0 then 3 else 2
    requires c.entries[k].retransmitCount < WRAP - 2
    ensures var e, d := c.entries[k], TickOften(c, k, times);
            var last := |times| == if e.retransmitCount == 0 then 3 else 2;
            && d.entries[k].state == (if last then Unused else Probe)
            && d.entries[k].ip == e.ip && d.entries[k].mac == e.mac && d.sent == c.sent
            && (!last ==> d.entries[k].retransmitCount == e.retransmitCount + |times| - 1)
            && d.questions == c.questions + seq(if last then |times| - 1 else |times|, _ => Unicast(e.ip, e.mac))
  {
    hide Due;
    var e, q, n := c.entries[k], Unicast(c.entries[k].ip, c.entries[k].mac), |times| - 1;
    if n > 0 {
      Probed(c, k, times[..n]);
      assert seq(n, _ => q) + [q] == seq(n + 1, _ => q);
    } else {
      assert TickOften(c, k, times[..0]) == c;
      assert [q] == seq(1, _ => q);
    }
  }

  /** An entry whose time is not over, or that has no time, is left alone by a tick. */
  lemma LeftAlone(c: Cache, k: nat, time: uint32, later: uint32)
    requires k < |c.entries|
    requires !Due(c.entries[k], time) || c.entries[k].state in {Unused, Stale, Permanent}
    ensures TickOne(c, k, time, later) == c
  {
    hide Due;
  }

  /** After a flush no entry is in use, so that every address is asked for again. */
  lemma {:induction false} FlushesAll(c: Cache, n: nat)
    requires n <= |c.entries|
    ensures var d := FlushFirst(c, n);
            forall k :: 0 <= k < |c.entries| ==>
              if k < n then d.entries[k].state == Unused && d.entries[k].queue == [] else d.entries[k] == c.entries[k]
  {
    hide Flushed;
    if n > 0 {
      FlushesAll(c, n - 1);
      FlushedOnly(FlushFirst(c, n - 1), n - 1);
    }
  }
}
