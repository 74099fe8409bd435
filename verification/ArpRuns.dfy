/** What every sequence of operations on the ARP cache keeps, and how long an unanswered entry lives. */
module ArpRuns {
  import opened Bytes
  import opened SystemTime
  import opened Sums
  import opened ArpCache

  // ----- buffers -----

  /** The buffers 0, 1, ..., n - 1, each once. */
  ghost function Numbers(n: nat): multiset<nat> {
    if n == 0 then multiset{} else Numbers(n - 1) + multiset{n - 1}
  }

  lemma {:induction false} NumbersOnce(n: nat, b: nat)
    ensures Numbers(n)[b] == if b < n then 1 else 0
  {
    if n > 0 {
      NumbersOnce(n - 1, b);
    }
  }

  ghost function Queued(e: Entry): multiset<nat> {
    multiset(Buffers(e.queue))
  }

  ghost function Queues(es: seq<Entry>): (ms: seq<multiset<nat>>)
    ensures |ms| == |es| && forall k :: 0 <= k < |es| ==> ms[k] == Queued(es[k])
  {
    seq(|es|, k requires 0 <= k < |es| => Queued(es[k]))
  }

  function SentBuffers(fs: seq<Frame>): (bs: seq<nat>)
    ensures |bs| == |fs| && forall i :: 0 <= i < |fs| ==> bs[i] == fs[i].packet.buffer
  {
    seq(|fs|, i requires 0 <= i < |fs| => fs[i].packet.buffer)
  }

  /** Every buffer ever allocated is in one queue or has been freed once, never both. */
  ghost predicate Conserved(c: Cache) {
    multiset(c.freed) + Total(Queues(c.entries)) == Numbers(c.made)
  }

  /** What was sent has been freed. */
  ghost predicate SentFreed(c: Cache) {
    multiset(SentBuffers(c.sent)) <= multiset(c.freed)
  }

  // ----- entries -----

  /** The packets waiting are the last ones stored in the entry, in the order in which they came. */
  ghost predicate NewestOf(q: seq<Packet>, stored: seq<nat>) {
    |q| <= |stored| && |q| <= MAX_PENDING && Buffers(q) == stored[|stored| - |q|..]
  }

  ghost predicate GoodEntry(e: Entry, stored: seq<nat>) {
    && (e.state != Incomplete ==> e.queue == [])
    && (e.state == Incomplete ==> NewestOf(e.queue, stored) && e.retransmitCount < MAX_REQUESTS)
  }

  ghost predicate Unique(es: seq<Entry>) {
    forall i, j :: 0 <= i < j < |es| && es[i].state != Unused && es[j].state != Unused ==> es[i].ip != es[j].ip
  }

  ghost predicate Safe(c: Cache) {
    && Sized(c) && Unique(c.entries)
    && (forall k :: 0 <= k < |c.entries| ==> GoodEntry(c.entries[k], c.stored[k]))
    && Conserved(c) && SentFreed(c)
  }

  // ----- one entry changes -----

  /** `d` differs from `c` in entry `k` only. */
  ghost predicate Differs(c: Cache, d: Cache, k: nat, e: Entry) {
    && k < |c.entries| == |c.stored| == |d.stored|
    && d.entries == c.entries[k := e]
    && forall j :: 0 <= j < |c.stored| && j != k ==> d.stored[j] == c.stored[j]
  }

  /** The address of a live entry is not used by another one. */
  ghost predicate Distinct(es: seq<Entry>, k: nat, e: Entry) {
    e.state != Unused ==> forall j :: 0 <= j < |es| && j != k && es[j].state != Unused ==> es[j].ip != e.ip
  }

  lemma OneEntry(c: Cache, d: Cache, k: nat, e: Entry)
    requires Safe(c) && Differs(c, d, k, e) && GoodEntry(e, d.stored[k]) && Distinct(c.entries, k, e)
    requires Conserved(d) && SentFreed(d)
    ensures Safe(d)
  {
    hide GoodEntry, Conserved, SentFreed;
  }

  /** Buffers go from a queue to the freed ones. */
  lemma Released(c: Cache, d: Cache, k: nat, e: Entry, bs: seq<nat>)
    requires Conserved(c) && Differs(c, d, k, e) && d.freed == c.freed + bs && d.made == c.made
    requires Queued(c.entries[k]) == Queued(e) + multiset(bs)
    ensures Conserved(d)
  {
    hide Total, Numbers, Queued;
    TotalUpdate(Queues(c.entries), k, Queued(e));
    assert Queues(d.entries) == Queues(c.entries)[k := Queued(e)];
    Keep(Total(Queues(d.entries)) + multiset(bs), Total(Queues(c.entries)), Queued(e));
    assert multiset(d.freed) == multiset(c.freed) + multiset(bs);
  }

  /** The entry keeps its queue. */
  lemma Quiet(c: Cache, d: Cache, k: nat, e: Entry)
    requires Safe(c) && Differs(c, d, k, e) && d.freed == c.freed && d.made == c.made && d.sent == c.sent
    requires e.queue == c.entries[k].queue
    requires GoodEntry(e, d.stored[k]) && Distinct(c.entries, k, e)
    ensures Safe(d)
  {
    hide GoodEntry, Distinct, SentFreed, Conserved;
    assert d.freed == c.freed + [];
    assert Buffers(c.entries[k].queue) == Buffers(e.queue);
    Released(c, d, k, e, []);
    SameSent(c, d);
    OneEntry(c, d, k, e);
  }

  lemma SameSent(c: Cache, d: Cache)
    requires SentFreed(c) && d.sent == c.sent && multiset(c.freed) <= multiset(d.freed)
    ensures SentFreed(d)
  {
  }

  lemma LiveDistinct(c: Cache, k: nat, e: Entry)
    requires Unique(c.entries) && k < |c.entries| && c.entries[k].state != Unused && e.ip == c.entries[k].ip
    ensures Distinct(c.entries, k, e)
  {
  }

  lemma EmptyQueue(e: Entry, stored: seq<nat>)
    requires e.queue == [] && (e.state == Incomplete ==> e.retransmitCount < MAX_REQUESTS)
    ensures GoodEntry(e, stored) && Queued(e) == multiset{}
  {
    assert Buffers(e.queue) == [];
  }

  lemma FlushedSafe(c: Cache, k: nat)
    requires Safe(c) && k < |c.entries|
    ensures Safe(Flushed(c, k))
  {
    hide Conserved, SentFreed, NewestOf, Queued;
    var e, d := c.entries[k], Flushed(c, k);
    var bs := if e.state == Incomplete then Buffers(e.queue) else [];
    EmptyQueue(d.entries[k], c.stored[k]);
    QueueBuffers(e);
    Released(c, d, k, d.entries[k], bs);
    FreedMore(c, d, bs);
    OneEntry(c, d, k, d.entries[k]);
  }

  lemma QueueBuffers(e: Entry)
    ensures Queued(e) == multiset(Buffers(e.queue))
    ensures e.queue == [] ==> Queued(e) == multiset{}
  {
    if e.queue == [] {
      assert Buffers(e.queue) == [];
    }
  }

  lemma FreedMore(c: Cache, d: Cache, bs: seq<nat>)
    requires SentFreed(c) && d.sent == c.sent && d.freed == c.freed + bs
    ensures SentFreed(d)
  {
    assert multiset(d.freed) == multiset(c.freed) + multiset(bs);
  }

  lemma DeliveredSafe(c: Cache, k: nat)
    requires Safe(c) && k < |c.entries|
    ensures Safe(Delivered(c, k))
  {
    hide Conserved, SentFreed, NewestOf, Queued;
    var e, d := c.entries[k], Delivered(c, k);
    EmptyQueue(d.entries[k], c.stored[k]);
    if e.state == Incomplete {
      QueueBuffers(e);
      Released(c, d, k, d.entries[k], Buffers(e.queue));
      SentMore(c, d, e.mac, e.queue);
      OneEntry(c, d, k, d.entries[k]);
    } else {
      Quiet(c, d, k, d.entries[k]);
    }
  }

  lemma SentMore(c: Cache, d: Cache, mac: Mac, q: seq<Packet>)
    requires SentFreed(c) && d.sent == c.sent + Frames(mac, q) && d.freed == c.freed + Buffers(q)
    ensures SentFreed(d)
  {
    assert SentBuffers(d.sent) == SentBuffers(c.sent) + Buffers(q);
    assert multiset(d.freed) == multiset(c.freed) + multiset(Buffers(q));
  }

  // ----- each operation -----

  lemma CreateSafe(c: Cache, time: uint32)
    requires Safe(c)
    ensures var r := Create(c, time); Safe(r.cache) && r.cache.entries[r.index] == EMPTY
  {
    hide GoodEntry, Conserved, SentFreed, Unique, Wrap, Flushed;
    var r, f := Create(c, time), FirstUnused(c.entries);
    if f < |c.entries| {
      SafeEntry(c, f);
      Vacate(c, r.cache, f);
    } else {
      FlushedSafe(c, r.index);
      FlushedEntry(c, r.index);
      SafeEntry(Flushed(c, r.index), r.index);
      Vacate(Flushed(c, r.index), r.cache, r.index);
    }
  }

  lemma FlushedEntry(c: Cache, k: nat)
    requires k < |c.entries|
    ensures var d := Flushed(c, k);
            |d.entries| == |c.entries| && d.entries[k] == c.entries[k].(queue := []) && d.stored == c.stored
  {
  }

  lemma SafeEntry(c: Cache, k: nat)
    requires Safe(c) && k < |c.entries|
    ensures k < |c.stored| && GoodEntry(c.entries[k], c.stored[k])
  {
  }

  /** Entry `k`, which holds no packets, is cleared. */
  lemma Vacate(c: Cache, d: Cache, k: nat)
    requires Safe(c) && k < |c.entries| && c.entries[k].queue == []
    requires d == SetEntry(c, k, EMPTY).(stored := c.stored[k := []])
    ensures Safe(d)
  {
    hide Conserved, SentFreed;
    Quiet(c, d, k, EMPTY);
  }

  lemma ResolveSafe(c: Cache, ip: uint32, time: uint32, later: uint32)
    requires Safe(c)
    ensures Safe(Resolve(c, ip, time, later).cache)
  {
    hide Conserved, SentFreed, NewestOf;
    var k, d := Find(c.entries, ip), Resolve(c, ip, time, later).cache;
    if k < |c.entries| {
      if c.entries[k].state == Stale {
        LiveDistinct(c, k, d.entries[k]);
        Quiet(c, d, k, d.entries[k]);
      }
    } else {
      CreateSafe(c, time);
      CreateElsewhere(c, time, ip);
      var r := Create(c, time);
      EmptyQueue(d.entries[r.index], r.cache.stored[r.index]);
      Quiet(r.cache, d, r.index, d.entries[r.index]);
    }
  }

  /** A new entry can take an address that no entry had. */
  lemma {:induction false} CreateElsewhere(c: Cache, time: uint32, ip: uint32)
    requires Sized(c) && Find(c.entries, ip) == |c.entries|
    ensures var r := Create(c, time);
            forall j :: 0 <= j < |c.entries| && j != r.index && r.cache.entries[j].state != Unused ==> r.cache.entries[j].ip != ip
  {
    hide Wrap;
  }

  lemma DisplacedSafe(c: Cache, k: nat)
    requires Safe(c) && k < |c.entries| && c.entries[k].state == Incomplete
    ensures Safe(Displaced(c, k)) && |Displaced(c, k).entries[k].queue| < MAX_PENDING
    ensures Displaced(c, k).entries[k].state == Incomplete
  {
    hide Conserved, SentFreed, Queued;
    var e, d := c.entries[k], Displaced(c, k);
    SafeEntry(c, k);
    if |e.queue| >= MAX_PENDING {
      var b := e.queue[0].buffer;
      QueueBuffers(e);
      QueueBuffers(d.entries[k]);
      assert Buffers(e.queue) == [b] + Buffers(e.queue[1..]);
      assert Queued(e) == Queued(d.entries[k]) + multiset([b]);
      Released(c, d, k, d.entries[k], [b]);
      FreedMore(c, d, [b]);
      LiveDistinct(c, k, d.entries[k]);
      OneEntry(c, d, k, d.entries[k]);
    }
  }

  lemma EnqueueSafe(c: Cache, ip: uint32, bytes: seq<byte>, offset: nat, memoryOk: bool)
    requires Safe(c)
    ensures Safe(Enqueue(c, ip, bytes, offset, memoryOk).cache)
  {
    hide Conserved, SentFreed, Displaced;
    var k := Find(c.entries, ip);
    if k < |c.entries| && c.entries[k].state == Incomplete {
      DisplacedSafe(c, k);
      if memoryOk {
        var d, r := Displaced(c, k), Enqueue(c, ip, bytes, offset, memoryOk).cache;
        DisplacedKeeps(c, k);
        Added(d, r, k, Packet(c.made, bytes, offset));
      }
    }
  }

  lemma DisplacedKeeps(c: Cache, k: nat)
    requires k < |c.entries|
    ensures var d := Displaced(c, k); |d.entries| == |c.entries| && d.stored == c.stored && d.made == c.made
  {
  }

  lemma Added(c: Cache, d: Cache, k: nat, p: Packet)
    requires Safe(c) && k < |c.entries| && c.entries[k].state == Incomplete && |c.entries[k].queue| < MAX_PENDING
    requires p.buffer == c.made
    requires var e := c.entries[k];
             d == SetEntry(c, k, e.(queue := e.queue + [p])).(made := c.made + 1, stored := c.stored[k := c.stored[k] + [c.made]])
    ensures Safe(d)
  {
    hide Conserved, SentFreed, Queued;
    var e, f := c.entries[k], d.entries[k];
    SafeEntry(c, k);
    assert Buffers(f.queue) == Buffers(e.queue) + [c.made];
    AddedConserved(c, d, k);
    SameSent(c, d);
    LiveDistinct(c, k, f);
    OneEntry(c, d, k, f);
  }

  lemma AddedConserved(c: Cache, d: Cache, k: nat)
    requires Conserved(c) && k < |c.entries| == |d.entries| && d.made == c.made + 1 && d.freed == c.freed
    requires d.entries == c.entries[k := d.entries[k]]
    requires Buffers(d.entries[k].queue) == Buffers(c.entries[k].queue) + [c.made]
    ensures Conserved(d)
  {
    hide Total;
    var q := Queued(c.entries[k]);
    assert Queued(d.entries[k]) == q + multiset{c.made};
    TotalUpdate(Queues(c.entries), k, q + multiset{c.made});
    assert Queues(d.entries) == Queues(c.entries)[k := q + multiset{c.made}];
    Cancel(Total(Queues(d.entries)), Total(Queues(c.entries)), q, c.made);
  }

  lemma TickOneSafe(c: Cache, k: nat, time: uint32, later: uint32)
    requires Safe(c) && k < |c.entries|
    ensures Safe(TickOne(c, k, time, later))
  {
    hide Conserved, SentFreed, NewestOf, Due, Flushed;
    var e, d := c.entries[k], TickOne(c, k, time, later);
    SafeEntry(c, k);
    if e.state == Incomplete && Due(e, time) && Wrap(e.retransmitCount + 1) >= MAX_REQUESTS {
      FlushedSafe(c, k);
      FlushedEntry(c, k);
      Quiet(Flushed(c, k), d, k, d.entries[k]);
    } else if d != c {
      LiveDistinct(c, k, d.entries[k]);
      Quiet(c, d, k, d.entries[k]);
    }
  }

  lemma {:induction false} TickSafe(c: Cache, n: nat, time: uint32, later: seq<uint32>)
    requires Safe(c) && n <= |c.entries| <= |later|
    ensures Safe(TickFirst(c, n, time, later))
  {
    hide Safe, TickOne;
    if n > 0 {
      TickSafe(c, n - 1, time, later);
      TickOneSafe(TickFirst(c, n - 1, time, later), n - 1, time, later[n - 1]);
    }
  }

  lemma {:induction false} FlushSafe(c: Cache, n: nat)
    requires Safe(c) && n <= |c.entries|
    ensures Safe(FlushFirst(c, n))
  {
    hide Flushed, Conserved, SentFreed, NewestOf;
    if n > 0 {
      FlushSafe(c, n - 1);
      var b := FlushFirst(c, n - 1);
      FlushedSafe(b, n - 1);
      FlushedEntry(b, n - 1);
      var d := FlushFirst(c, n);
      Quiet(Flushed(b, n - 1), d, n - 1, d.entries[n - 1]);
    }
  }

  lemma AnswerSafe(c: Cache, ip: uint32, mac: Mac, time: uint32)
    requires Safe(c)
    ensures Safe(Answer(c, ip, mac, time))
  {
    hide Conserved, SentFreed, NewestOf, Delivered;
    var k, d := Find(c.entries, ip), Answer(c, ip, mac, time);
    if k < |c.entries| && d != c {
      SafeEntry(c, k);
      var b := SetEntry(c, k, c.entries[k].(mac := mac));
      DeliveredEntry(b, k);
      LiveDistinct(c, k, d.entries[k]);
      if c.entries[k].state == Incomplete {
        LiveDistinct(c, k, b.entries[k]);
        Quiet(c, b, k, b.entries[k]);
        DeliveredSafe(b, k);
        LiveDistinct(Delivered(b, k), k, d.entries[k]);
        Quiet(Delivered(b, k), d, k, d.entries[k]);
      } else {
        Quiet(c, d, k, d.entries[k]);
      }
    }
  }

  lemma DeliveredEntry(c: Cache, k: nat)
    requires k < |c.entries|
    ensures var d := Delivered(c, k);
            |d.entries| == |c.entries| && d.entries[k] == c.entries[k].(queue := []) && d.stored == c.stored
  {
  }

  // ----- runs -----

  datatype Event =
    | DoResolve(ip: uint32, time: uint32, later: uint32)
    | DoEnqueue(ip: uint32, bytes: seq<byte>, offset: nat, memoryOk: bool)
    | DoTick(time: uint32, readings: seq<uint32>)
    | DoReply(own: Own, reply: Reply, time: uint32)
    | DoFlush

  predicate Possible(n: nat, ev: Event) {
    ev.DoTick? ==> n <= |ev.readings|
  }

  function Step(c: Cache, ev: Event): Cache
    requires Sized(c) && Possible(|c.entries|, ev)
  {
    match ev
    case DoResolve(ip, time, later) => Resolve(c, ip, time, later).cache
    case DoEnqueue(ip, bytes, offset, memoryOk) => Enqueue(c, ip, bytes, offset, memoryOk).cache
    case DoTick(time, readings) => TickFirst(c, |c.entries|, time, readings)
    case DoReply(own, reply, time) => Replied(c, own, reply, time)
    case DoFlush => FlushFirst(c, |c.entries|)
  }

  lemma StepSafe(c: Cache, ev: Event)
    requires Safe(c) && Possible(|c.entries|, ev)
    ensures Safe(Step(c, ev)) && |Step(c, ev).entries| == |c.entries|
  {
    hide Unique, GoodEntry, Conserved, SentFreed, Acceptable;
    match ev
    case DoResolve(ip, time, later) => ResolveSafe(c, ip, time, later);
    case DoEnqueue(ip, bytes, offset, memoryOk) => EnqueueSafe(c, ip, bytes, offset, memoryOk);
    case DoTick(time, readings) => TickSafe(c, |c.entries|, time, readings);
    case DoReply(own, reply, time) => AnswerSafe(c, reply.spa, reply.sha, time);
    case DoFlush => FlushSafe(c, |c.entries|);
  }

  ghost function Run(c: Cache, events: seq<Event>): (d: Cache)
    requires Safe(c) && forall k :: 0 <= k < |events| ==> Possible(|c.entries|, events[k])
    ensures Safe(d) && |d.entries| == |c.entries|
  {
    if events == [] then c
    else
      var d := Run(c, events[..|events| - 1]);
      var ev := events[|events| - 1];
      StepSafe(d, ev);
      Step(d, ev)
  }

  function Empty(size: nat): Cache {
    Cache(seq(size, _ => EMPTY), seq(size, _ => []), 0, [], [], [])
  }

  lemma EmptySafe(size: nat)
    requires size > 0
    ensures Safe(Empty(size))
  {
    TotalNothing(Queues(Empty(size).entries));
  }

  /** Where a buffer is: how often it is freed, and how often it is queued. */
  lemma BufferOnce(c: Cache, b: nat)
    requires Safe(c)
    ensures multiset(c.freed)[b] + Total(Queues(c.entries))[b] == if b < c.made then 1 else 0
    ensures multiset(SentBuffers(c.sent))[b] <= multiset(c.freed)[b]
  {
    NumbersOnce(c.made, b);
    var freed, queued := multiset(c.freed), Total(Queues(c.entries));
    assert Conserved(c);
    assert freed + queued == Numbers(c.made);
    assert (freed + queued)[b] == freed[b] + queued[b];
  }

  /**
   In every state that the cache can reach there is at most one live entry for an address,
   only incomplete entries hold packets, each holds the newest ones, at most two, in order
   of arrival; and every buffer that was allocated is either waiting in one queue or has
   been freed, exactly once, whether it was sent, displaced, evicted or dropped. No packet
   is sent twice.
   */
  lemma {:induction false} Conservation(size: nat, events: seq<Event>, b: nat)
    requires size > 0 && forall k :: 0 <= k < |events| ==> Possible(size, events[k])
    ensures Safe(Empty(size))
    ensures var c := Run(Empty(size), events);
            && (forall i, j :: 0 <= i < j < size && c.entries[i].state != Unused && c.entries[j].state != Unused ==>
                  c.entries[i].ip != c.entries[j].ip)
            && (forall k :: 0 <= k < size && c.entries[k].queue != [] ==>
                  c.entries[k].state == Incomplete && NewestOf(c.entries[k].queue, c.stored[k]))
            && multiset(c.freed)[b] + Total(Queues(c.entries))[b] == (if b < c.made then 1 else 0)
            && multiset(SentBuffers(c.sent))[b] <= multiset(c.freed)[b] <= 1
  {
    hide Conserved, SentFreed, Run;
    EmptySafe(size);
    BufferOnce(Run(Empty(size), events), b);
  }

  // ----- where packets are sent -----

  /** The entry has an address of one host, if it has one. */
  predicate Directed(e: Entry) {
    e.state != Permanent && (e.state == Unused || e.state == Incomplete || IsUnicast(e.mac))
  }

  /** All entries are directed, and so is every frame that was sent. */
  ghost predicate AllDirected(c: Cache) {
    && (forall k :: 0 <= k < |c.entries| ==> Directed(c.entries[k]))
    && (forall f :: f in c.sent ==> IsUnicast(f.dest))
  }

  lemma StepDirected(c: Cache, ev: Event)
    requires Sized(c) && AllDirected(c) && Possible(|c.entries|, ev)
    ensures AllDirected(Step(c, ev))
  {
    hide IsUnicast, IsBroadcast, IsMulticast, Due;
    match ev
    case DoResolve(ip, time, later) =>
    case DoEnqueue(ip, bytes, offset, memoryOk) =>
    case DoTick(time, readings) => TickDirected(c, |c.entries|, time, readings);
    case DoReply(own, reply, time) => AnswerDirected(c, own, reply, time);
    case DoFlush => FlushDirected(c, |c.entries|);
  }

  lemma AnswerDirected(c: Cache, own: Own, r: Reply, time: uint32)
    requires AllDirected(c)
    ensures AllDirected(Replied(c, own, r, time))
  {
    hide IsUnicast, IsBroadcast, IsMulticast;
    var k := Find(c.entries, r.spa);
    if k < |c.entries| {
      assert forall f :: f in Frames(r.sha, c.entries[k].queue) ==> f.dest == r.sha;
    }
  }

  lemma {:induction false} TickDirected(c: Cache, n: nat, time: uint32, later: seq<uint32>)
    requires AllDirected(c) && n <= |c.entries| <= |later|
    ensures AllDirected(TickFirst(c, n, time, later))
  {
    hide TickOne, AllDirected;
    if n > 0 {
      TickDirected(c, n - 1, time, later);
      TickOneDirected(TickFirst(c, n - 1, time, later), n - 1, time, later[n - 1]);
    }
  }

  lemma TickOneDirected(c: Cache, k: nat, time: uint32, later: uint32)
    requires AllDirected(c) && k < |c.entries|
    ensures AllDirected(TickOne(c, k, time, later))
  {
    hide IsUnicast, Due, Wrap;
  }

  lemma {:induction false} FlushDirected(c: Cache, n: nat)
    requires AllDirected(c) && n <= |c.entries|
    ensures AllDirected(FlushFirst(c, n))
  {
    hide IsUnicast;
    if n > 0 {
      FlushDirected(c, n - 1);
    }
  }

  lemma {:induction false} RunDirected(c: Cache, events: seq<Event>)
    requires Safe(c) && AllDirected(c) && forall k :: 0 <= k < |events| ==> Possible(|c.entries|, events[k])
    ensures AllDirected(Run(c, events))
  {
    hide AllDirected, Step, Unique, GoodEntry, Conserved, SentFreed;
    if events != [] {
      RunDirected(c, events[..|events| - 1]);
      StepDirected(Run(c, events[..|events| - 1]), events[|events| - 1]);
    }
  }

  /**
   Whatever replies arrive, every packet that waited for an address is sent to the address of
   one host, and so is every packet whose address is resolved at once.
   */
  lemma {:induction false} UnicastOnly(size: nat, events: seq<Event>, ip: uint32, time: uint32, later: uint32)
    requires size > 0 && forall k :: 0 <= k < |events| ==> Possible(size, events[k])
    ensures Safe(Empty(size))
    ensures var c := Run(Empty(size), events);
            && (forall f :: f in c.sent ==> IsUnicast(f.dest))
            && (Resolve(c, ip, time, later).mac.Some? ==> IsUnicast(Resolve(c, ip, time, later).mac.value))
  {
    hide IsUnicast, Unique, GoodEntry, Conserved, SentFreed, Run, Create;
    EmptySafe(size);
    RunDirected(Empty(size), events);
  }

  // ----- an address that nobody answers for -----

  /** Ticks, seen by one entry. */
  function TickOften(c: Cache, k: nat, times: seq<uint32>): (d: Cache)
    requires k < |c.entries|
    ensures |d.entries| == |c.entries|
  {
    if times == [] then c else TickOne(TickOften(c, k, times[..|times| - 1]), k, times[|times| - 1], times[|times| - 1])
  }

  /** Each tick comes when the timeout of the entry has expired. */
  predicate EachDue(c: Cache, k: nat, times: seq<uint32>)
    requires k < |c.entries|
  {
    times == [] || (EachDue(c, k, times[..|times| - 1])
                    && Due(TickOften(c, k, times[..|times| - 1]).entries[k], times[|times| - 1]))
  }

  /** An incomplete entry asks again at each timeout; at the third one it is given up, and its packets are freed unsent. */
  lemma {:induction false} Unanswered(c: Cache, k: nat, times: seq<uint32>)
    requires k < |c.entries| && c.entries[k].state == Incomplete && EachDue(c, k, times)
    requires c.entries[k].retransmitCount + |times| <= MAX_REQUESTS && c.entries[k].retransmitCount < MAX_REQUESTS
    ensures var e, f := c.entries[k], TickOften(c, k, times).entries[k];
            && TickOften(c, k, times).sent == c.sent
            && (e.retransmitCount + |times| < MAX_REQUESTS ==>
                  && f.state == Incomplete && f.ip == e.ip && f.queue == e.queue
                  && f.retransmitCount == e.retransmitCount + |times|
                  && TickOften(c, k, times).questions == c.questions + seq(|times|, _ => Broadcast(e.ip))
                  && TickOften(c, k, times).freed == c.freed)
            && (e.retransmitCount + |times| == MAX_REQUESTS ==>
                  && f.state == Unused && f.queue == []
                  && TickOften(c, k, times).questions == c.questions + seq(|times| - 1, _ => Broadcast(e.ip))
                  && TickOften(c, k, times).freed == c.freed + Buffers(e.queue))
  {
    hide Due;
    if times != [] {
      var n := |times| - 1;
      Unanswered(c, k, times[..n]);
      assert seq(n, _ => Broadcast(c.entries[k].ip)) + [Broadcast(c.entries[k].ip)] == seq(n + 1, _ => Broadcast(c.entries[k].ip));
    }
  }
}
