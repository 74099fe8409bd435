/** Safety of the DHCP client over whole runs: which address is on the interface in which state. */
module DhcpSafety {
  import opened Bytes
  import opened SystemTime
  import opened DhcpClient

  datatype History = History(client: Client, acked: uint32)

  /** Any sequence of events, and the address acknowledged last. */
  function Run(h: History, e: Settings, events: seq<Event>): History {
    if events == [] then h
    else
      var g := Run(h, e, events[..|events| - 1]);
      var ev := events[|events| - 1];
      History(Step(g.client, e, ev), Acked(g.client, e, ev, g.acked))
  }

  lemma {:induction false} RunSafe(h: History, e: Settings, events: seq<Event>)
    requires Safe(h.client, h.acked)
    ensures var g := Run(h, e, events); Safe(g.client, g.acked)
  {
    hide Safe, Step, Acked;
    if events != [] {
      var g := Run(h, e, events[..|events| - 1]);
      RunSafe(h, e, events[..|events| - 1]);
      StepSafe(g.client, e, events[|events| - 1], g.acked);
    }
  }

  /**
   Under any interleaving of ticks, replies, link changes, conflicts, starts and stops, a
   client that was initialized and not yet started keeps the address it shows in line with
   its state: a stopped client is in INIT; while it runs, the address is valid exactly in
   BOUND, RENEWING and REBINDING and tentative in PROBING, and in these four states it is
   the nonzero address that was acknowledged last.
   */
  lemma {:induction false} Safety(c: Client, e: Settings, events: seq<Event>)
    requires !c.running && c.state == Init
    ensures var g := Run(History(c, UNSPECIFIED), e, events);
            var d := g.client;
            && (!d.running ==> d.state == Init)
            && (d.running ==> (d.iface.addrState == Valid <==> d.state == Bound || d.state == Renewing || d.state == Rebinding))
            && (d.running && d.state == Probing ==> d.iface.addrState == Tentative)
            && (d.state in {Probing, Bound, Renewing, Rebinding} ==> d.running && d.iface.addr == g.acked != UNSPECIFIED)
  {
    RunSafe(History(c, UNSPECIFIED), e, events);
  }

  /**
   How an address comes into use: after an ARP probe for it was sent and answered by no
   conflict, or on an acknowledgement while an address is in use, or by rapid commit.
   */
  lemma EntersUse(c: Client, e: Settings, ev: Event, acked: uint32)
    requires Safe(c, acked) && c.state != Bound && Step(c, e, ev).state == Bound
    ensures var d := Step(c, e, ev);
            || (ev.Timer? && c.state == Probing && !c.iface.conflict && Due(c, ev.input.time)
                && c.sent != [] && c.sent[|c.sent| - 1] == ArpProbe(d.iface.addr) && d.sent == c.sent)
            || (ev.Received? && ev.reply.kind == Ack && AckTaken(c, e, ev.reply) && d.iface.addr == ev.reply.yiaddr
                && (c.state == Renewing || c.state == Rebinding || (c.state == Selecting && e.rapidCommit && ev.reply.rapid)))
  {
    hide Wrap, Add, TimeCompare, T1Of, T2Of, Millis;
  }

  /** A conflict seen while probing makes the client decline the address and start again, without clearing the address. */
  lemma ConflictDeclines(c: Client, e: Settings, i: Input, acked: uint32)
    requires Safe(c, acked) && c.running && c.state == Probing && Due(c, i.time)
    ensures var d := Step(Step(c, e, Conflict), e, Timer(i));
            d.state == Init && d.sent == c.sent + [Decline(c.xid, c.lease.serverIp, acked)] && d.iface.addr == acked && d.iface.addrState == Tentative
  {
    hide Wrap, Add, TimeCompare;
  }

  // ----- the address that a declined lease leaves behind -----

  /** A running client without a lease has no address on the interface. */
  predicate Clean(c: Client) {
    c.running && !Holding(c.state) ==> c.iface.addr == UNSPECIFIED
  }

  /** The client declines the address it probes: a tick finds the timeout expired and a conflict. */
  predicate Declines(c: Client, ev: Event) {
    ev.Timer? && c.running && c.state == Probing && c.iface.conflict && Due(c, ev.input.time)
  }

  /** The events after which the address is cleared, or is that of a lease again. */
  predicate Restores(c: Client, e: Settings, ev: Event) {
    || ev.Start? || ev.Stop? || ev.LinkChange?
    || (ev.Received? && ev.reply.kind == Ack && AckTaken(c, e, ev.reply))
    || (ev.Received? && ev.reply.kind == Nak && NakTaken(c, e, ev.reply))
  }

  /** Only declining leaves the tentative address on the interface, and only these events take it away. */
  lemma CleanExactly(c: Client, e: Settings, ev: Event, acked: uint32)
    requires Safe(c, acked)
    ensures Clean(Step(c, e, ev)) <==> Restores(c, e, ev) || (Clean(c) && !Declines(c, ev))
  {
    hide Wrap, Add, TimeCompare, T1Of, T2Of, Millis, Advised;
  }

  predicate DeclinesAt(h: History, e: Settings, events: seq<Event>, i: nat)
    requires i < |events|
  {
    Declines(Run(h, e, events[..i]).client, events[i])
  }

  predicate RestoresAt(h: History, e: Settings, events: seq<Event>, i: nat)
    requires i < |events|
  {
    Restores(Run(h, e, events[..i]).client, e, events[i])
  }

  lemma {:induction false} CleanOverRun(h: History, e: Settings, events: seq<Event>)
    requires Safe(h.client, h.acked) && Clean(h.client)
    ensures Clean(Run(h, e, events).client) <==>
              forall i: nat | i < |events| && DeclinesAt(h, e, events, i) ::
                exists j: nat :: i < j < |events| && RestoresAt(h, e, events, j)
  {
    hide Safe, Clean, Declines, Restores, Step, Acked;
    if events != [] {
      var n: nat := |events| - 1;
      var before := events[..n];
      CleanOverRun(h, e, before);
      RunSafe(h, e, before);
      CleanExactly(Run(h, e, before).client, e, events[n], Run(h, e, before).acked);
      assert forall i: nat | i < n :: before[..i] == events[..i];
      assert forall i: nat | i < n :: DeclinesAt(h, e, before, i) == DeclinesAt(h, e, events, i);
      assert forall i: nat | i < n :: RestoresAt(h, e, before, i) == RestoresAt(h, e, events, i);
      assert DeclinesAt(h, e, events, n) == Declines(Run(h, e, before).client, events[n]);
      assert RestoresAt(h, e, events, n) == Restores(Run(h, e, before).client, e, events[n]);
      NotBoth(Run(h, e, before).client, e, events[n]);
    }
  }

  lemma NotBoth(c: Client, e: Settings, ev: Event)
    ensures !(Declines(c, ev) && Restores(c, e, ev))
  {
  }

  /**
   When a running client without a lease has an address all the same: over any run, exactly
   when it has declined an address, and none of the events that take it away came later.
   */
  lemma {:induction false} LeftBehind(c: Client, e: Settings, events: seq<Event>)
    requires !c.running && c.state == Init
    ensures var h := History(c, UNSPECIFIED);
            var d := Run(h, e, events).client;
            (d.running && !Holding(d.state) && d.iface.addr != UNSPECIFIED) <==>
              exists i: nat :: i < |events| && DeclinesAt(h, e, events, i)
                && forall j: nat | i < j < |events| :: !RestoresAt(h, e, events, j)
  {
    hide DeclinesAt, RestoresAt;
    CleanOverRun(History(c, UNSPECIFIED), e, events);
  }

  // ----- requests that nobody answers -----

  function Ticks(c: Client, inputs: seq<Input>): Client {
    if inputs == [] then c else Tick(Ticks(c, inputs[..|inputs| - 1]), inputs[|inputs| - 1])
  }

  /** Each tick comes when the timeout before it has expired. */
  predicate EachDue(c: Client, inputs: seq<Input>) {
    inputs == [] ||
    (EachDue(c, inputs[..|inputs| - 1]) && Due(Ticks(c, inputs[..|inputs| - 1]), inputs[|inputs| - 1].time)
     && inputs[|inputs| - 1].Valid())
  }

  /** The wait after the `n`th request: 4, 8, 16 and 32 seconds. */
  function Doubled(n: nat): nat
    requires 1 <= n <= REQUEST_MAX_RC
  {
    if n == 1 then 4000 else 2 * Doubled(n - 1)
  }

  /** The request of a client without an address: for the one offered to it, or the one it had. */
  function Wanted(c: Client, id: uint32): Message {
    Request(c.state, id, UNSPECIFIED, if c.state == Requesting then Some(c.lease.serverIp) else None,
            Some(c.lease.requestedIp), BROADCAST)
  }

  /** The client `d` has sent `n` requests since it was `c`, with the identifier `id`, and waits for an answer to the last. */
  predicate Asked(c: Client, d: Client, n: nat, id: uint32) {
    && n <= REQUEST_MAX_RC && d.state == c.state && d.lease == c.lease && d.timing.retransmitCount == n && d.iface == c.iface
    && d.sent == c.sent + Repeated(Wanted(c, id), n)
    && (n > 0 ==> d.xid == id && d.timing.retransmitTimeout == Doubled(n)
                  && Doubled(n) - RAND_FACTOR <= d.timing.timeout <= Doubled(n) + RAND_FACTOR)
  }

  function Repeated(m: Message, n: nat): seq<Message> {
    if n == 0 then [] else Repeated(m, n - 1) + [m]
  }

  lemma SmallWrap(x: int)
    requires 0 <= x < WRAP
    ensures Wrap(x) == x
  {
  }

  lemma AsksAgain(c: Client, d: Client, n: nat, id: uint32, i: Input)
    requires (c.state == Requesting || c.state == Rebooting) && n < REQUEST_MAX_RC && Asked(c, d, n, id)
    requires Due(d, i.time) && i.Valid() && (n == 0 ==> id == i.id)
    ensures Asked(c, Tick(d, i), n + 1, id)
  {
    hide Due, Wrap;
    var m := Wanted(c, id);
    assert c.sent + Repeated(m, n) + [m] == c.sent + Repeated(m, n + 1);
    SmallWrap(n + 1);
    assert Doubled(1) == 4000 && Doubled(2) == 8000 && Doubled(3) == 16000 && Doubled(4) == 32000;
    SmallWrap(Doubled(n + 1));
    SmallWrap(Doubled(n + 1) + i.jitter);
  }

  /**
   In REQUESTING and REBOOTING a request is sent at each of the first four timeouts, all with
   the identifier of the first; the waits double, but for at most a second either way. At the
   fifth timeout the client starts again.
   */
  lemma {:induction false} UnansweredRequests(c: Client, inputs: seq<Input>)
    requires (c.state == Requesting || c.state == Rebooting) && c.timing.retransmitCount == 0
    requires EachDue(c, inputs) && inputs != [] && |inputs| <= REQUEST_MAX_RC + 1
    ensures |inputs| <= REQUEST_MAX_RC ==> Asked(c, Ticks(c, inputs), |inputs|, inputs[0].id)
    ensures |inputs| == REQUEST_MAX_RC + 1 ==>
              && Ticks(c, inputs).state == Init
              && Ticks(c, inputs).sent == c.sent + Repeated(Wanted(c, inputs[0].id), REQUEST_MAX_RC)
  {
    hide Due, Wrap;
    var n, id := |inputs| - 1, inputs[0].id;
    if n == 0 {
      assert c.sent + [] == c.sent;
    } else {
      UnansweredRequests(c, inputs[..n]);
    }
    if n < REQUEST_MAX_RC {
      AsksAgain(c, Ticks(c, inputs[..n]), n, id, inputs[n]);
    }
  }
}
