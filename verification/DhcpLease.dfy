/**
 Lease timing, section 4.4.5 of RFC 2131: what happens to an acknowledged lease when the
 server stays silent. Times are unbounded here; the client sees them modulo 2^32. It takes
 the times of the server as they come, in any order, and cuts each of them at 2^31 - 1 ms.
 */
module DhcpLease {
  import opened Bytes
  import opened SystemTime
  import opened DhcpClient

  /** A tick at time `t`; the clock reads `u` when the handler changes the state. */
  datatype TickAt = TickAt(t: nat, u: nat, input: Input) {
    predicate Valid() {
      t <= u && input.time == Wrap(t) && input.later == Wrap(u)
    }
  }

  /** From this number of seconds on, 24.85 days, a time is cut. */
  const LONGEST: int := MAX_DELAY / 1000

  /** When each phase ends, counted from the start of the lease. */
  function PhaseEnd(c: Client): int {
    if c.state == Rebinding then Millis(c.lease.duration) else Millis(c.lease.t2)
  }

  function Max(a: int, b: int): int {
    if a < b then b else a
  }

  /** When the client gives the address up, if it ever leaves BOUND: at the last of its three times. */
  function End(l: Lease): int {
    Max(Millis(l.t1), Max(Millis(l.t2), Millis(l.duration)))
  }

  predicate Extending(s: State) {
    s == Renewing || s == Rebinding
  }

  /**
   The client has a lease that started at `start`. While it is being extended, T1 is over and
   `d` is the next deadline: not before T1, and not past the end of the phase unless that is
   over. In REBINDING, T2 is over too.
   */
  predicate Timed(c: Client, start: nat, d: int, now: int) {
    && c.lease.start == Wrap(start) && start <= now
    && (Extending(c.state) ==>
          && c.lease.t1 != INFINITE_TIME
          && Add(c.timing.timestamp, c.timing.timeout) == Wrap(d)
          && start + Millis(c.lease.t1) <= d && start + Millis(c.lease.t1) <= now
          && (d <= now || d <= start + PhaseEnd(c)))
    && (c.state == Rebinding ==> start + Millis(c.lease.t2) <= now)
  }

  /** The clock has not gone half way round since the times that a tick in this state looks at. */
  predicate InTime(c: Client, start: nat, now: int) {
    && (c.state == Bound && c.lease.t1 != INFINITE_TIME ==> now < start + Millis(c.lease.t1) + HALF)
    && (Extending(c.state) ==> now < start + Millis(c.lease.t1) + HALF && now < start + PhaseEnd(c) + HALF)
  }

  /** How the times are cut: the exact number of milliseconds up to 24.85 days, and too few beyond. */
  lemma MillisExactly(seconds: uint32)
    ensures seconds < LONGEST ==> Millis(seconds) == 1000 * seconds
    ensures seconds >= LONGEST ==> Millis(seconds) == MAX_DELAY
    ensures 1000 * seconds <= Millis(seconds) <==> seconds <= LONGEST
  {
  }

  /** Whether the end of a stretch of the lease has been reached. */
  lemma Reached(start: nat, m: uint32, time: int)
    requires start <= time < start + m + HALF && m <= MAX_DELAY
    ensures TimeCompare(Wrap(time), Add(Wrap(start), m)) >= 0 <==> time >= start + m
  {
    hide Wrap, Add, TimeCompare;
    WrapAdd(start, m);
    Compares(time, start + m);
  }

  lemma Remaining(start: nat, m: uint32, time: int)
    requires time <= start + m < time + WRAP
    ensures Wrap(Add(Wrap(start), m) - Wrap(time)) == start + m - time
  {
    hide Add;
    WrapAdd(start, m);
    WrapDiff(start + m, time);
  }

  lemma DueExactly(c: Client, start: nat, d: int, now: int, time: int)
    requires Timed(c, start, d, now) && Extending(c.state) && now <= time && InTime(c, start, time)
    ensures Due(c, Wrap(time)) <==> time >= d
  {
    hide Wrap, Add, TimeCompare;
    Compares(time, d);
  }

  // ----- one tick -----

  /** A tick that sends a request to extend the lease. */
  predicate Renews(c: Client, i: Input) {
    Extending(c.state) && |Tick(c, i).sent| > |c.sent|
  }

  /** What a tick does to a client that extends its lease, in terms of time as it is. */
  lemma ExtendingTick(c: Client, start: nat, d: int, now: int, k: TickAt)
    requires Timed(c, start, d, now) && Extending(c.state) && k.Valid() && now <= k.t && InTime(c, start, k.t)
    ensures var e, end := Tick(c, k.input), start + PhaseEnd(c);
            && e.lease == c.lease
            && (k.t < d ==> e == c && !Renews(c, k.input))
            && (d <= k.t < end ==>
                  e.state == c.state && Renews(c, k.input) && e.iface == c.iface
                  && Timed(e, start, k.t + Patience(end - k.t), k.u))
            && (k.t >= d && k.t >= end ==>
                  && !Renews(c, k.input)
                  && (c.state == Renewing ==> e.state == Rebinding && e.iface == c.iface && Timed(e, start, k.u, k.u))
                  && (c.state == Rebinding ==>
                        e.state == Init && e.iface.addr == UNSPECIFIED && e.iface.addrState == Invalid))
  {
    hide Wrap, Add, TimeCompare, Millis;
    var m := PhaseEnd(c);
    DueExactly(c, start, d, now, k.t);
    if k.t >= d {
      Reached(start, m, k.t);
      if k.t < start + m {
        Remaining(start, m, k.t);
        WrapAdd(k.t, Patience(start + m - k.t));
      } else {
        WrapAdd(k.u, 0);
      }
    }
  }

  /**
   What a request to extend the lease says: the address in use is its client address, and it
   goes to the server of the lease in RENEWING and to everybody in REBINDING. The requests of
   one phase have one identifier.
   */
  lemma RenewalRequest(c: Client, i: Input)
    requires Renews(c, i)
    ensures var d := Tick(c, i);
            && d.xid == (if c.timing.retransmitCount == 0 then i.id else c.xid)
            && d.sent == c.sent + [Request(c.state, d.xid, c.iface.addr, None, None,
                                           if c.state == Renewing then c.lease.serverIp else 0xFFFF_FFFF)]
  {
    hide Due, Wrap, Millis, TimeCompare;
  }

  lemma BoundTick(c: Client, start: nat, d: int, now: int, k: TickAt)
    requires Timed(c, start, d, now) && c.state == Bound && k.Valid() && now <= k.t && InTime(c, start, k.t)
    ensures var e := Tick(c, k.input);
            && e.lease == c.lease && e.iface == c.iface && |e.sent| == |c.sent|
            && (c.lease.t1 == INFINITE_TIME || k.t < start + Millis(c.lease.t1) ==> e == c)
            && (c.lease.t1 != INFINITE_TIME && k.t >= start + Millis(c.lease.t1) ==>
                  e.state == Renewing && Timed(e, start, k.u, k.u))
  {
    hide Wrap, Add, TimeCompare, Millis;
    if c.lease.t1 != INFINITE_TIME {
      Reached(start, Millis(c.lease.t1), k.t);
    }
    WrapAdd(k.u, 0);
  }

  // ----- how many requests -----

  /** How many requests fit in the time left: the wait is half of it until two minutes are left. */
  function Budget(r: int): (n: nat)
    decreases r
  {
    if r <= 0 then 0 else if r <= 2 * REQUEST_MIN_DELAY then 1 else 1 + Budget(r - r / 2)
  }

  lemma {:induction false} BudgetMonotone(r: int, s: int)
    requires r <= s
    ensures Budget(r) <= Budget(s)
    decreases s
  {
    if s > 2 * REQUEST_MIN_DELAY && r > 2 * REQUEST_MIN_DELAY {
      BudgetMonotone(r - r / 2, s - s / 2);
    }
  }

  function Pow2(k: nat): nat {
    if k == 0 then 1 else 2 * Pow2(k - 1)
  }

  lemma {:induction false} BudgetBound(r: int, k: nat)
    requires r <= 0x1_0000 * Pow2(k)
    ensures Budget(r) <= k + 1
    decreases k
  {
    if k > 0 {
      BudgetBound(r - r / 2, k - 1);
    }
  }

  const MAX_REQUESTS: nat := 16

  lemma {:induction false} BudgetAtMost(r: int)
    requires r <= MAX_DELAY
    ensures Budget(r) <= MAX_REQUESTS
  {
    assert Pow2(15) == 0x8000;
    BudgetBound(r, 15);
  }

  /** Bound on the requests still to come. */
  function Left(c: Client, start: nat, d: int): nat {
    if c.state == Probing || c.state == Bound then 2 * MAX_REQUESTS
    else if c.state == Renewing then Budget(start + PhaseEnd(c) - d) + MAX_REQUESTS
    else if c.state == Rebinding then Budget(start + PhaseEnd(c) - d)
    else 0
  }

  lemma Spends(end: int, t: int, d: int)
    requires d <= t < end
    ensures Budget(end - (t + Patience(end - t))) + 1 <= Budget(end - d)
    requires end - t <= MAX_DELAY
  {
    BudgetMonotone(end - t, end - d);
  }

  // ----- runs of ticks -----

  /** The ticks are in order, none before `from`. */
  predicate InOrder(from: int, ks: seq<TickAt>) {
    ks == [] ||
    (InOrder(from, ks[..|ks| - 1]) && ks[|ks| - 1].Valid() && Last(from, ks[..|ks| - 1]) <= ks[|ks| - 1].t)
  }

  function Last(from: int, ks: seq<TickAt>): int {
    if ks == [] then from else ks[|ks| - 1].u
  }

  function Ticks(c: Client, ks: seq<TickAt>): Client {
    if ks == [] then c else Tick(Ticks(c, ks[..|ks| - 1]), ks[|ks| - 1].input)
  }

  /** Ticks come often enough for the clock not to go half way round between a time and a tick that looks at it. */
  predicate KeptInTime(c: Client, start: nat, ks: seq<TickAt>) {
    ks == [] ||
    (KeptInTime(c, start, ks[..|ks| - 1]) && InTime(Ticks(c, ks[..|ks| - 1]), start, ks[|ks| - 1].t))
  }

  /** How many of the ticks send a request to extend the lease. */
  function Renewals(c: Client, ks: seq<TickAt>): nat {
    if ks == [] then 0
    else Renewals(c, ks[..|ks| - 1]) + if Renews(Ticks(c, ks[..|ks| - 1]), ks[|ks| - 1].input) then 1 else 0
  }

  /** Without a server, a client that gives up its lease does not get one again. */
  predicate Over(c: Client) {
    (c.state == Init || c.state == Selecting) && c.iface.addrState != Valid
  }

  /** One tick, whatever the state: the deadline moves, and the requests sent are taken from the budget. */
  lemma AnyTick(c: Client, start: nat, d: int, now: int, k: TickAt) returns (d': int)
    requires Timed(c, start, d, now) && (Holding(c.state) || Over(c)) && k.Valid() && now <= k.t
    requires InTime(c, start, k.t)
    requires Safe(c, c.lease.requestedIp) && c.running
    ensures var e := Tick(c, k.input);
            && e.running && e.lease == c.lease && (Holding(e.state) || Over(e)) && Timed(e, start, d', k.u)
            && Left(e, start, d') + (if Renews(c, k.input) then 1 else 0) <= Left(c, start, d)
  {
    hide Wrap, Add, TimeCompare, Millis, Budget;
    d' := d;
    if Extending(c.state) {
      ExtendingTick(c, start, d, now, k);
      var end := start + PhaseEnd(c);
      if d <= k.t < end {
        d' := k.t + Patience(end - k.t);
        Spends(end, k.t, d);
      } else if k.t >= d {
        d' := k.u;
        if c.state == Renewing {
          BudgetAtMost(start + Millis(c.lease.duration) - k.u);
        }
      }
    } else if c.state == Bound {
      BoundTick(c, start, d, now, k);
      d' := k.u;
      BudgetAtMost(start + Millis(c.lease.t2) - k.u);
    }
  }

  lemma {:induction false} RunTimed(c: Client, start: nat, ks: seq<TickAt>) returns (d: int)
    requires Acknowledged(c, start) && InOrder(start, ks) && KeptInTime(c, start, ks)
    ensures var e := Ticks(c, ks);
            && e.running && e.lease == c.lease && Safe(e, c.lease.requestedIp) && (Holding(e.state) || Over(e))
            && Timed(e, start, d, Last(start, ks))
            && Renewals(c, ks) + Left(e, start, d) <= 2 * MAX_REQUESTS
  {
    hide Wrap, Add, TimeCompare, Millis, Tick, Safe, Renews, Left;
    if ks == [] {
      d := start;
      AtStart(c, start);
    } else {
      var n := |ks| - 1;
      d := RunTimed(c, start, ks[..n]);
      var e := Ticks(c, ks[..n]);
      TickSafe(e, ks[n].input, c.lease.requestedIp);
      d := AnyTick(e, start, d, Last(start, ks[..n]), ks[n]);
    }
  }

  /** A client to which a server has acknowledged a lease at time `start`. */
  predicate Acknowledged(c: Client, start: nat) {
    && c.running && (c.state == Probing || c.state == Bound) && Safe(c, c.lease.requestedIp)
    && c.lease.start == Wrap(start)
  }

  lemma AtStart(c: Client, start: nat)
    requires Acknowledged(c, start)
    ensures Timed(c, start, start, start) && Left(c, start, start) == 2 * MAX_REQUESTS
  {
  }

  /** However long the server stays silent, at most 32 requests are sent to extend the lease: 16 in each phase. */
  lemma {:induction false} RequestsBounded(c: Client, start: nat, ks: seq<TickAt>)
    requires Acknowledged(c, start) && InOrder(start, ks) && KeptInTime(c, start, ks)
    ensures Renewals(c, ks) <= 2 * MAX_REQUESTS
  {
    var d := RunTimed(c, start, ks);
  }

  /**
   While a lease is being extended there is a deadline `d`: as long as ticks are in time, the
   timeout has expired exactly from `d` on. It is never before T1, never past T2 in RENEWING,
   and never past the end of the lease in REBINDING, unless it is over; these are the times
   as the client cuts them.
   */
  lemma DeadlinesInPhase(c: Client, start: nat, ks: seq<TickAt>) returns (d: int)
    requires Acknowledged(c, start) && InOrder(start, ks) && KeptInTime(c, start, ks)
    ensures var e, now := Ticks(c, ks), Last(start, ks);
            Extending(e.state) ==>
              && (forall t: nat | now <= t && InTime(e, start, t) :: Due(e, Wrap(t)) <==> d <= t)
              && start + Millis(c.lease.t1) <= d && start + Millis(c.lease.t1) <= now
              && (e.state == Renewing ==> d <= now || d <= start + Millis(c.lease.t2))
              && (e.state == Rebinding ==> d <= now || d <= start + Millis(c.lease.duration))
  {
    hide Wrap, Add, TimeCompare, Millis, Left, Safe, Due, InTime;
    d := RunTimed(c, start, ks);
    var e, now := Ticks(c, ks), Last(start, ks);
    if Extending(e.state) {
      forall t: nat | now <= t && InTime(e, start, t) ensures Due(e, Wrap(t)) <==> d <= t {
        DueExactly(e, start, d, now, t);
      }
    }
  }

  // ----- when the address is kept, and when it is given up -----

  /** The last tick, and with it every one, comes before `t`. */
  predicate Before(ks: seq<TickAt>, t: int) {
    ks != [] ==> ks[|ks| - 1].t < t
  }

  /** Before the end, as the client reckons it, no tick takes an address out of use. */
  lemma {:induction false} KeptByTick(c: Client, start: nat, ks: seq<TickAt>)
    requires Acknowledged(c, start) && InOrder(start, ks) && KeptInTime(c, start, ks) && ks != []
    requires c.lease.t1 == INFINITE_TIME || Before(ks, start + End(c.lease))
    requires Ticks(c, ks[..|ks| - 1]).iface.addrState == Valid
    ensures Ticks(c, ks).iface.addrState == Valid && Ticks(c, ks).iface.addr == c.lease.requestedIp
  {
    hide Wrap, Add, TimeCompare, Millis, Left, Tick, InTime;
    var before, k := ks[..|ks| - 1], ks[|ks| - 1];
    var d := RunTimed(c, start, before);
    var e := Ticks(c, before);
    TickSafe(e, k.input, c.lease.requestedIp);
    if Extending(e.state) {
      ExtendingTick(e, start, d, Last(start, before), k);
    } else {
      BoundTick(e, start, d, Last(start, before), k);
    }
  }

  lemma {:induction false} KeptByTicks(c: Client, start: nat, ks: seq<TickAt>)
    requires Acknowledged(c, start) && c.state == Bound && InOrder(start, ks) && KeptInTime(c, start, ks)
    requires c.lease.t1 == INFINITE_TIME || Before(ks, start + End(c.lease))
    ensures Ticks(c, ks).iface.addrState == Valid && Ticks(c, ks).iface.addr == c.lease.requestedIp
  {
    hide Millis, Tick, InTime, End;
    if ks != [] {
      KeptByTicks(c, start, ks[..|ks| - 1]);
      KeptByTick(c, start, ks);
    }
  }

  /** The lease has run out. */
  predicate Expired(c: Client) {
    (c.state == Init || c.state == Selecting) && c.iface.addrState == Invalid && c.iface.addr == UNSPECIFIED
  }

  /** Each tick after the end moves the client one phase on, without a request. */
  lemma {:induction false} NextPhase(c: Client, start: nat, ks: seq<TickAt>, k: TickAt)
    requires Acknowledged(c, start) && InOrder(start, ks + [k]) && KeptInTime(c, start, ks + [k])
    requires c.lease.t1 != INFINITE_TIME && k.t >= start + End(c.lease)
    ensures var e, f := Ticks(c, ks), Ticks(c, ks + [k]);
            && (e.state == Bound ==> f.state == Renewing)
            && (e.state == Renewing ==> f.state == Rebinding)
            && (e.state == Rebinding ==> Expired(f))
            && (Expired(e) ==> Expired(f))
    ensures Renewals(c, ks + [k]) == Renewals(c, ks)
  {
    hide Wrap, Add, TimeCompare, Millis, Left, Tick, Safe, InTime;
    assert (ks + [k])[..|ks|] == ks;
    var now := Last(start, ks);
    var d := RunTimed(c, start, ks);
    var e := Ticks(c, ks);
    if Extending(e.state) {
      ExtendingTick(e, start, d, now, k);
    } else if e.state == Bound {
      BoundTick(e, start, d, now, k);
    } else if Expired(e) {
      ExpiredStays(e, k.input);
    }
  }

  lemma ExpiredStays(c: Client, i: Input)
    requires Expired(c)
    ensures Expired(Tick(c, i))
  {
  }

  /** Three ticks after the end, without an acknowledgement, the address is no longer in use. */
  lemma {:induction false} ThreeTicks(c: Client, start: nat, ks: seq<TickAt>, a: TickAt, b: TickAt, z: TickAt)
    requires Acknowledged(c, start) && InOrder(start, ks + [a, b, z]) && KeptInTime(c, start, ks + [a, b, z])
    requires c.lease.t1 != INFINITE_TIME && a.t >= start + End(c.lease)
    requires Ticks(c, ks).iface.addrState == Valid
    ensures Expired(Ticks(c, ks + [a, b, z])) && Renewals(c, ks + [a, b, z]) == Renewals(c, ks)
  {
    hide Wrap, Millis, Tick, Safe, Timed, InTime, End, Renewals;
    var ka, kb, kz := ks + [a], ks + [a] + [b], ks + [a] + [b] + [z];
    assert ks + [a, b, z] == kz;
    assert kz[..|kb|] == kb && kb[..|ka|] == ka && ka[..|ks|] == ks;
    assert InOrder(start, kb) && InOrder(start, ka) && InOrder(start, ks);
    assert KeptInTime(c, start, kb) && KeptInTime(c, start, ka) && KeptInTime(c, start, ks);
    InUseIsHeld(c, start, ks);
    NextPhase(c, start, ks, a);
    NextPhase(c, start, ka, b);
    NextPhase(c, start, kb, z);
  }

  lemma {:induction false} InUseIsHeld(c: Client, start: nat, ks: seq<TickAt>)
    requires Acknowledged(c, start) && InOrder(start, ks) && KeptInTime(c, start, ks)
    ensures Ticks(c, ks).iface.addrState == Valid <==> InUse(Ticks(c, ks).state)
  {
    hide Wrap, Millis, Timed;
    var d := RunTimed(c, start, ks);
  }

  // ----- which leases are kept, and which are given up -----

  /** A tick at which no time passes. */
  function At(t: nat): TickAt {
    TickAt(t, t, Input(Wrap(t), Wrap(t), 0, 0, 0))
  }

  function ThreeAt(t: nat): seq<TickAt> {
    [At(t), At(t), At(t)]
  }

  /** Three ticks at a moment to which the clock has not gone half way round. */
  lemma {:induction false} Moment(c: Client, start: nat, t: nat)
    requires Acknowledged(c, start) && c.state == Bound && start <= t
    requires c.lease.t1 == INFINITE_TIME || t < start + HALF
    ensures var ks := ThreeAt(t);
            && ks[..2] == [At(t), At(t)] && ks[..1] == [At(t)] && ks == [] + [At(t), At(t), At(t)]
            && InOrder(start, ks) && KeptInTime(c, start, ks)
            && InOrder(start, ks[..2]) && KeptInTime(c, start, ks[..2])
            && InOrder(start, ks[..1]) && KeptInTime(c, start, ks[..1])
            && InOrder(start, []) && KeptInTime(c, start, [])
  {
    hide Wrap, Millis, Tick;
    var ks := ThreeAt(t);
    var ka, kb := ks[..1], ks[..2];
    assert ks[..|ks| - 1] == kb && kb[..|kb| - 1] == ka && ka[..|ka| - 1] == [];
    assert ks[|ks| - 1] == kb[|kb| - 1] == ka[|ka| - 1] == At(t) && At(t).Valid();
    StaysBound(c, ka);
    StaysBound(c, kb);
    assert InOrder(start, ka) && KeptInTime(c, start, ka);
    assert InOrder(start, kb) && KeptInTime(c, start, kb);
  }

  lemma {:induction false} StaysBound(c: Client, ks: seq<TickAt>)
    requires c.state == Bound
    ensures c.lease.t1 == INFINITE_TIME ==> Ticks(c, ks) == c
  {
    if ks != [] {
      StaysBound(c, ks[..|ks| - 1]);
    }
  }

  /** Whatever ticks come before `end`, the acknowledged address is in use. */
  ghost predicate KeepsUntil(c: Client, start: nat, end: int) {
    forall ks :: InOrder(start, ks) && KeptInTime(c, start, ks) && Before(ks, start + end) ==>
                   Ticks(c, ks).iface.addrState == Valid && Ticks(c, ks).iface.addr == c.lease.requestedIp
  }

  /** Whatever ticks come, three of them from `end` on take the address out of use. */
  ghost predicate GivesUpAfter(c: Client, start: nat, end: nat) {
    forall ks, a, b, z ::
      (&& InOrder(start, ks + [a, b, z]) && KeptInTime(c, start, ks + [a, b, z]) && a.t >= start + end
       && Ticks(c, ks).iface.addrState == Valid)
      ==> Expired(Ticks(c, ks + [a, b, z]))
  }

  /** The address is kept up to the last of the three times, and no longer; with an infinite T1 it is kept for ever. */
  lemma KeptExactly(c: Client, start: nat, end: int)
    requires Acknowledged(c, start) && c.state == Bound
    ensures KeepsUntil(c, start, end) <==> c.lease.t1 == INFINITE_TIME || end <= End(c.lease)
  {
    hide Wrap, Millis, Tick, InTime, InOrder, KeptInTime, Safe;
    if c.lease.t1 == INFINITE_TIME || end <= End(c.lease) {
      forall ks | InOrder(start, ks) && KeptInTime(c, start, ks) && Before(ks, start + end)
        ensures Ticks(c, ks).iface.addrState == Valid && Ticks(c, ks).iface.addr == c.lease.requestedIp
      {
        KeptByTicks(c, start, ks);
      }
    } else {
      var t := start + End(c.lease);
      var ks := ThreeAt(t);
      Moment(c, start, t);
      InUseIsHeld(c, start, []);
      ThreeTicks(c, start, [], At(t), At(t), At(t));
      assert Before(ks, start + end) && Expired(Ticks(c, ks));
    }
  }

  /**
   For which leases three ticks from `end` on, without an acknowledgement, always take the
   address out of use: exactly those of which none of the three times comes later, and T1 is
   not infinite. In which order the times come does not matter.
   */
  lemma LeaseEnds(c: Client, start: nat, end: nat)
    requires Acknowledged(c, start) && c.state == Bound
    ensures GivesUpAfter(c, start, end) <==> c.lease.t1 != INFINITE_TIME && End(c.lease) <= end
  {
    hide Wrap, Millis, Tick, InTime, InOrder, KeptInTime, Safe, Expired;
    if c.lease.t1 != INFINITE_TIME && End(c.lease) <= end {
      forall ks, a, b, z | InOrder(start, ks + [a, b, z]) && KeptInTime(c, start, ks + [a, b, z]) && a.t >= start + end
                           && Ticks(c, ks).iface.addrState == Valid
        ensures Expired(Ticks(c, ks + [a, b, z]))
      {
        ThreeTicks(c, start, ks, a, b, z);
      }
    } else {
      var k := At(start + end);
      Moment(c, start, k.t);
      KeptByTicks(c, start, []);
      KeptByTicks(c, start, [] + [k, k, k]);
      InUseNotExpired(Ticks(c, [] + [k, k, k]));
      assert !Expired(Ticks(c, [] + [k, k, k]));
    }
  }

  lemma InUseNotExpired(c: Client)
    ensures c.iface.addrState == Valid ==> !Expired(c)
  {
  }

  /**
   Section 4.4.5 of RFC 2131 lets the client use the address until the lease ends. It does,
   whatever ticks come, exactly when the lease is no longer than 24.85 days, or T1 is infinite.
   */
  lemma KeptUntilTheEnd(c: Client, start: nat)
    requires Acknowledged(c, start) && c.state == Bound
    ensures KeepsUntil(c, start, 1000 * c.lease.duration) <==> c.lease.t1 == INFINITE_TIME || c.lease.duration <= LONGEST
  {
    hide KeepsUntil;
    KeptExactly(c, start, 1000 * c.lease.duration);
    MillisExactly(c.lease.duration);
  }

  /**
   The client gives the address up at the end of the lease, which it takes to be 24.85 days at
   most, exactly when neither T1 nor T2 comes after it, and T1 is not infinite.
   */
  lemma PastTheLease(c: Client, start: nat)
    requires Acknowledged(c, start) && c.state == Bound
    ensures GivesUpAfter(c, start, Millis(c.lease.duration)) <==>
              && c.lease.t1 != INFINITE_TIME
              && Millis(c.lease.t1) <= Millis(c.lease.duration) && Millis(c.lease.t2) <= Millis(c.lease.duration)
  {
    hide GivesUpAfter;
    LeaseEnds(c, start, Millis(c.lease.duration));
  }

  // ----- whether the server is asked at all -----

  /** A request needs a time after T1 to be sent before. */
  predicate MayAsk(l: Lease) {
    l.t1 != INFINITE_TIME && Millis(l.t1) < Max(Millis(l.t2), Millis(l.duration))
  }

  lemma {:induction false} NeverAsks(c: Client, start: nat, ks: seq<TickAt>)
    requires Acknowledged(c, start) && InOrder(start, ks) && KeptInTime(c, start, ks) && !MayAsk(c.lease)
    ensures Renewals(c, ks) == 0
  {
    hide Wrap, Add, TimeCompare, Millis, Left, Tick, Safe;
    if ks != [] {
      var before, k := ks[..|ks| - 1], ks[|ks| - 1];
      NeverAsks(c, start, before);
      var d := RunTimed(c, start, before);
      var e := Ticks(c, before);
      if Extending(e.state) {
        ExtendingTick(e, start, d, Last(start, before), k);
      }
    }
  }

  /** A client in BOUND can come to ask for an extension of its lease exactly when T2 or the end, as they are cut, come after T1. */
  lemma {:induction false} AsksExactly(c: Client, start: nat)
    requires Acknowledged(c, start) && c.state == Bound
    ensures (exists ks :: InOrder(start, ks) && KeptInTime(c, start, ks) && Renewals(c, ks) > 0) <==> MayAsk(c.lease)
  {
    hide Wrap, Millis, Tick, InTime, InOrder, KeptInTime, Safe, Renewals, MayAsk;
    if MayAsk(c.lease) {
      AsksAtT1(c, start);
    }
    forall ks | InOrder(start, ks) && KeptInTime(c, start, ks) && Renewals(c, ks) > 0 ensures MayAsk(c.lease) {
      if !MayAsk(c.lease) {
        NeverAsks(c, start, ks);
      }
    }
  }

  /** Three ticks at T1 are enough. */
  lemma {:induction false} AsksAtT1(c: Client, start: nat)
    requires Acknowledged(c, start) && c.state == Bound && MayAsk(c.lease)
    ensures var ks := ThreeAt(start + Millis(c.lease.t1));
            InOrder(start, ks) && KeptInTime(c, start, ks) && Renewals(c, ks) > 0
  {
    hide Wrap, Add, TimeCompare, Millis, Left, Tick, Safe, Renews;
    var t := start + Millis(c.lease.t1);
    var ks, k := ThreeAt(t), At(t);
    Moment(c, start, t);
    assert ks[..2][..1] == ks[..1] && ks[..1][..0] == [];
    AtStart(c, start);
    BoundTick(c, start, start, start, k);
    var e := Tick(c, k.input);
    assert Ticks(c, ks[..1]) == e && Ticks(c, ks[..2]) == Tick(e, k.input);
    ExtendingTick(e, start, t, t, k);
    if Millis(c.lease.t2) <= Millis(c.lease.t1) {
      ExtendingTick(Tick(e, k.input), start, t, t, k);
    }
    assert Renewals(c, ks) == Renewals(c, ks[..2]) + if Renews(Ticks(c, ks[..2]), k.input) then 1 else 0;
    assert Renewals(c, ks[..2]) == Renewals(c, ks[..1]) + if Renews(Ticks(c, ks[..1]), k.input) then 1 else 0;
  }

  /**
   What the cut does to a long lease: with a finite T1 of 24.85 days or more, no run sends a
   request at all, and three ticks at 2^31 - 1 ms give the address up, although the times of
   the server are in order and the lease goes on.
   */
  lemma {:induction false} LongLease(c: Client, start: nat)
    requires Acknowledged(c, start) && c.state == Bound && LONGEST <= c.lease.t1 != INFINITE_TIME
    ensures forall ks :: InOrder(start, ks) && KeptInTime(c, start, ks) ==> Renewals(c, ks) == 0
    ensures var ks := ThreeAt(start + MAX_DELAY);
            InOrder(start, ks) && KeptInTime(c, start, ks) && Expired(Ticks(c, ks))
    ensures c.lease.t1 < c.lease.duration ==> MAX_DELAY < 1000 * c.lease.duration
  {
    hide Wrap, Tick, InTime, InOrder, KeptInTime, Safe, Renewals, Expired;
    var k := At(start + MAX_DELAY);
    Moment(c, start, k.t);
    InUseIsHeld(c, start, []);
    ThreeTicks(c, start, [], k, k, k);
    forall ks | InOrder(start, ks) && KeptInTime(c, start, ks) ensures Renewals(c, ks) == 0 {
      NeverAsks(c, start, ks);
    }
  }

  /** Whatever ticks come before `end`, the client stays in BOUND. */
  ghost predicate WaitsUntil(c: Client, start: nat, end: int) {
    forall ks :: InOrder(start, ks) && KeptInTime(c, start, ks) && Before(ks, start + end) ==> Ticks(c, ks).state == Bound
  }

  /** The client does not extend its lease before T1, exactly when T1 is no later than 24.85 days, or infinite. */
  lemma WaitsForT1(c: Client, start: nat)
    requires Acknowledged(c, start) && c.state == Bound
    ensures WaitsUntil(c, start, 1000 * c.lease.t1) <==> c.lease.t1 == INFINITE_TIME || c.lease.t1 <= LONGEST
  {
    hide Wrap, Millis, Tick, InTime, InOrder, KeptInTime, Safe;
    MillisExactly(c.lease.t1);
    if c.lease.t1 == INFINITE_TIME || c.lease.t1 <= LONGEST {
      forall ks | InOrder(start, ks) && KeptInTime(c, start, ks) && Before(ks, start + 1000 * c.lease.t1)
        ensures Ticks(c, ks).state == Bound
      {
        BoundByTicks(c, start, ks);
      }
    } else {
      var k := At(start + MAX_DELAY);
      var ks := ThreeAt(k.t)[..1];
      Moment(c, start, k.t);
      AtStart(c, start);
      FirstTick(c, start, k);
      assert Before(ks, start + 1000 * c.lease.t1) && Ticks(c, ks).state == Renewing;
    }
  }

  lemma {:induction false} FirstTick(c: Client, start: nat, k: TickAt)
    requires Acknowledged(c, start) && c.state == Bound && c.lease.t1 != INFINITE_TIME && k == At(start + MAX_DELAY)
    ensures Ticks(c, [k]).state == Renewing
  {
    hide Wrap, Add, TimeCompare, Tick, Safe;
    AtStart(c, start);
    BoundTick(c, start, start, start, k);
    assert [k][..0] == [];
  }

  lemma {:induction false} BoundByTicks(c: Client, start: nat, ks: seq<TickAt>)
    requires Acknowledged(c, start) && c.state == Bound && InOrder(start, ks) && KeptInTime(c, start, ks)
    requires c.lease.t1 == INFINITE_TIME || Before(ks, start + Millis(c.lease.t1))
    ensures Ticks(c, ks).state == Bound
  {
    hide Wrap, Add, TimeCompare, Millis, Left, Tick, Safe;
    if ks != [] {
      var before := ks[..|ks| - 1];
      BoundByTicks(c, start, before);
      var d := RunTimed(c, start, before);
      BoundTick(Ticks(c, before), start, d, Last(start, before), ks[|ks| - 1]);
    }
  }

  // ----- the times the client chooses itself -----

  /**
   Without T1 and T2 options the times are in order exactly when seven times the lease
   fits in 32 bits, or the lease is infinite; for a longer lease T2 comes before T1. They
   never come after the end of a finite lease, so that it is given up.
   */
  lemma DefaultTimes(r: Reply)
    requires r.lease.Some? && r.renewal.None? && r.rebinding.None?
    ensures T1Of(r) <= T2Of(r) <= r.lease.value <==> r.lease.value * 7 < WRAP || r.lease.value == INFINITE_TIME
    ensures r.lease.value != INFINITE_TIME ==>
              T1Of(r) != INFINITE_TIME && T1Of(r) <= r.lease.value && T2Of(r) <= r.lease.value
  {
    var n, x: int := r.lease.value, r.lease.value * 7;
    var k := x / WRAP;
    assert x == k * WRAP + Wrap(x);
  }
}
