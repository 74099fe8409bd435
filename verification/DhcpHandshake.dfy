/**
 How the DHCP client gets, keeps and asks again for an address: which replies it takes and
 what it records of them, and what its runs send.
 */
module DhcpHandshake {
  import opened Bytes
  import opened SystemTime
  import opened DhcpClient
  import opened DhcpSafety

  // ----- replies -----

  /** An offer is taken exactly by a client that waits for one; its address and its server are recorded. */
  lemma OfferRecorded(c: Client, e: Settings, r: Reply, i: Input)
    requires r.kind == Offer
    ensures var d := Step(c, e, Received(r, i));
            if c.state == Selecting && r.id == c.xid && r.chaddr == e.mac && r.serverId.Some? && r.yiaddr != UNSPECIFIED then
              && d.state == Requesting && d.lease.requestedIp == r.yiaddr && d.lease.serverIp == r.serverId.value
              && d.timing.retransmitCount == 0 && d.timing.timestamp == i.later && d.timing.timeout == 0
              && d.iface == c.iface && d.sent == c.sent && d.running == c.running && d.xid == c.xid
            else d == c
  {
  }

  /** The reply has the identifier of the client's last message and its hardware address, and names a server. */
  predicate Mine(c: Client, e: Settings, r: Reply) {
    r.id == c.xid && r.chaddr == e.mac && r.serverId.Some?
  }

  /** Which server may answer in a state: in REQUESTING and RENEWING the recorded one only. */
  predicate MayAnswer(c: Client, server: uint32) {
    match c.state
    case Requesting => server == c.lease.serverIp
    case Renewing => server == c.lease.serverIp
    case Rebooting => true
    case Rebinding => true
    case _ => false
  }

  /**
   The lease is what the acknowledgement says, T1 and T2 being half and seven eighths of it
   by default, the latter in 32-bit arithmetic.
   */
  predicate LeaseOf(l: Lease, r: Reply, time: uint32)
    requires r.lease.Some? && r.serverId.Some?
  {
    && l.serverIp == r.serverId.value && l.requestedIp == r.yiaddr && l.start == time && l.duration == r.lease.value
    && (r.renewal.Some? ==> l.t1 == r.renewal.value)
    && (r.renewal.None? && r.lease.value == INFINITE_TIME ==> l.t1 == INFINITE_TIME)
    && (r.renewal.None? && r.lease.value != INFINITE_TIME ==> 2 * l.t1 <= r.lease.value <= 2 * l.t1 + 1)
    && (r.rebinding.Some? ==> l.t2 == r.rebinding.value)
    && (r.rebinding.None? && r.lease.value == INFINITE_TIME ==> l.t2 == INFINITE_TIME)
    && (r.rebinding.None? && r.lease.value != INFINITE_TIME ==> 8 * l.t2 <= 7 * r.lease.value % WRAP <= 8 * l.t2 + 7)
  }

  /** The gateway is the first router, the DNS servers fill the first places, and an MTU out of range is not taken. */
  predicate ConfigOf(f: Iface, was: Iface, e: Settings, r: Reply) {
    && f.subnetMask == (match r.mask case Some(m) => m case None => was.subnetMask)
    && (r.routers.Some? && r.routers.value != [] ==> f.config.gateway == r.routers.value[0])
    && (r.routers.None? || r.routers.value == [] ==> f.config.gateway == was.config.gateway)
    && (forall k :: 0 <= k < DNS_SERVER_LIST_SIZE ==>
          f.config.dnsServers[k] == if !e.manualDns && r.dnsServers.Some? && k < |r.dnsServers.value|
                                    then r.dnsServers.value[k] else was.config.dnsServers[k])
    && (r.mtu.Some? && 68 <= r.mtu.value <= e.driverMtu ==> f.config.mtu == r.mtu.value)
    && (r.mtu.None? || r.mtu.value < 68 || e.driverMtu < r.mtu.value ==> f.config.mtu == was.config.mtu)
  }

  /**
   Which acknowledgements are taken, and what becomes of them: an address that was requested
   is probed first, any other is in use at once; all other acknowledgements change nothing.
   */
  lemma AckExactly(c: Client, e: Settings, r: Reply, i: Input)
    requires r.kind == Ack
    ensures var d := Step(c, e, Received(r, i));
            if Mine(c, e, r) && r.yiaddr != UNSPECIFIED && r.lease.Some?
               && (MayAnswer(c, r.serverId.value) || (c.state == Selecting && e.rapidCommit && r.rapid)) then
              && d.state == (if c.state == Requesting || c.state == Rebooting then Probing else Bound)
              && d.iface.addr == r.yiaddr && d.iface.addrState == (if d.state == Probing then Tentative else Valid)
              && d.iface.conflict == (d.state != Probing && c.iface.conflict)
              && d.iface.linkUp == c.iface.linkUp && d.running == c.running && d.sent == c.sent && d.xid == c.xid
              && d.timing.retransmitCount == 0 && d.timing.timestamp == i.later && d.timing.timeout == 0
              && LeaseOf(d.lease, r, i.time) && ConfigOf(d.iface, c.iface, e, r)
            else d == c
  {
    hide Wrap, LeaseOf, ConfigOf, Leased, Advised;
    if AckTaken(c, e, r) {
      RecordsLease(r, i.time);
      RecordsConfig(c.iface, e, r, c.state == Requesting || c.state == Rebooting);
    }
  }

  lemma RecordsLease(r: Reply, time: uint32)
    requires r.lease.Some? && r.serverId.Some?
    ensures LeaseOf(Leased(r, time), r, time)
  {
  }

  lemma RecordsConfig(f: Iface, e: Settings, r: Reply, probe: bool)
    ensures ConfigOf(Configured(f, e, r, probe), f, e, r)
  {
  }

  /** Which refusals are taken: they clear the address and make the client start again. */
  lemma NakExactly(c: Client, e: Settings, r: Reply, i: Input)
    requires r.kind == Nak
    ensures var d := Step(c, e, Received(r, i));
            if Mine(c, e, r) && MayAnswer(c, r.serverId.value) then
              && d.state == Init && d.iface.addr == UNSPECIFIED && d.iface.addrState == Invalid
              && d.iface.subnetMask == UNSPECIFIED && d.iface.linkUp == c.iface.linkUp && d.running == c.running
              && d.sent == c.sent
            else d == c
  {
  }

  // ----- from an offer to an address -----

  function After(c: Client, e: Settings, events: seq<Event>): Client {
    if events == [] then c else Step(After(c, e, events[..|events| - 1]), e, events[|events| - 1])
  }

  /** The client is in the state `s` after each of the events. */
  predicate Stays(c: Client, e: Settings, events: seq<Event>, s: State) {
    c.state == s && (events == [] || (Stays(c, e, events[..|events| - 1], s) && After(c, e, events).state == s))
  }

  /**
   Whatever happens, a client keeps what it recorded of an offer as long as it stays in
   REQUESTING, and sends nothing but up to four requests for it, all the same.
   */
  lemma {:induction false} Requests(c: Client, e: Settings, events: seq<Event>)
    requires Stays(c, e, events, Requesting) && c.timing.retransmitCount == 0
    ensures var d := After(c, e, events);
            && d.lease == c.lease && d.timing.retransmitCount <= REQUEST_MAX_RC
            && d.sent == c.sent + Repeated(Request(Requesting, d.xid, UNSPECIFIED, Some(c.lease.serverIp),
                                                   Some(c.lease.requestedIp), BROADCAST), d.timing.retransmitCount)
  {
    hide Step;
    if events == [] {
      assert c.sent + [] == c.sent;
    } else {
      var b, ev, d := After(c, e, events[..|events| - 1]), events[|events| - 1], After(c, e, events);
      Requests(c, e, events[..|events| - 1]);
      StaysPut(b, e, ev);
      var m := Request(Requesting, d.xid, UNSPECIFIED, Some(c.lease.serverIp), Some(c.lease.requestedIp), BROADCAST);
      assert b.sent == c.sent + Repeated(m, b.timing.retransmitCount);
      assert c.sent + Repeated(m, b.timing.retransmitCount) + [m] == c.sent + Repeated(m, b.timing.retransmitCount + 1);
    }
  }

  /** An event that leaves a client in REQUESTING has sent one more request, or nothing. */
  lemma StaysPut(c: Client, e: Settings, ev: Event)
    requires c.state == Requesting && Step(c, e, ev).state == Requesting
    ensures var d := Step(c, e, ev);
            && d.lease == c.lease
            && if ev.Timer? && Due(c, ev.input.time) then
                 && c.timing.retransmitCount < REQUEST_MAX_RC
                 && d.timing.retransmitCount == c.timing.retransmitCount + 1
                 && d.xid == (if c.timing.retransmitCount == 0 then ev.input.id else c.xid)
                 && d.sent == c.sent + [Request(Requesting, d.xid, UNSPECIFIED, Some(c.lease.serverIp),
                                                Some(c.lease.requestedIp), BROADCAST)]
               else d.timing == c.timing && d.xid == c.xid && d.sent == c.sent
  {
    hide Due, Backoff, Wrap;
    SmallWrap(if c.timing.retransmitCount < REQUEST_MAX_RC then c.timing.retransmitCount + 1 else 0);
  }

  /**
   The handshake. A client in SELECTING gets an offer of the address `a` from the server `s`
   that has its identifier and its hardware address. From then on, however the events
   interleave while it stays in REQUESTING, it sends at each timeout, up to four times, the
   request for `a` that names `s`, with one identifier; and of the replies it takes exactly
   those of `s` with that identifier and its hardware address: an acknowledgement of an
   address, with a lease time, has that address probed, a refusal makes it start again, and
   any other reply changes nothing.
   */
  lemma {:induction false} Handshake(c: Client, e: Settings, r: Reply, i: Input, events: seq<Event>, q: Reply, k: Input)
    requires c.state == Selecting && r.kind == Offer && r.id == c.xid && r.chaddr == e.mac
    requires r.serverId.Some? && r.yiaddr != UNSPECIFIED
    requires Stays(Step(c, e, Received(r, i)), e, events, Requesting)
    ensures var a, s, d := r.yiaddr, r.serverId.value, After(Step(c, e, Received(r, i)), e, events);
            var n, ask := d.timing.retransmitCount, Request(Requesting, d.xid, UNSPECIFIED, Some(s), Some(a), BROADCAST);
            var timed, answered := Step(d, e, Timer(k)), Step(d, e, Received(q, k));
            var taken := q.id == d.xid && q.chaddr == e.mac && q.serverId == Some(s);
            && d.lease.requestedIp == a && d.lease.serverIp == s && n <= 4
            && d.sent == c.sent + Repeated(ask, n)
            && (Due(d, k.time) && n < 4 ==>
                  && timed.state == Requesting && timed.xid == (if n == 0 then k.id else d.xid)
                  && timed.sent == d.sent + [Request(Requesting, timed.xid, UNSPECIFIED, Some(s), Some(a), BROADCAST)])
            && (Due(d, k.time) && n == 4 ==> timed.state == Init && timed.sent == d.sent)
            && (!Due(d, k.time) ==> timed == d)
            && (answered.state == Probing <==> q.kind == Ack && taken && q.yiaddr != UNSPECIFIED && q.lease.Some?)
            && (answered.state == Probing ==>
                  && answered.iface.addr == q.yiaddr && answered.iface.addrState == Tentative && !answered.iface.conflict
                  && LeaseOf(answered.lease, q, k.time) && ConfigOf(answered.iface, d.iface, e, q))
            && (answered.state == Init <==> q.kind == Nak && taken)
            && (answered.state == Init ==> answered.iface.addr == UNSPECIFIED && answered.iface.addrState == Invalid)
            && (answered.state != Probing && answered.state != Init ==> answered == d)
  {
    hide Step, LeaseOf, ConfigOf, Due;
    var b := Step(c, e, Received(r, i));
    var d := After(b, e, events);
    OfferRecorded(c, e, r, i);
    Requests(b, e, events);
    NextRequest(d, e, k);
    match q.kind
    case Offer => OfferRecorded(d, e, q, k);
    case Ack => AckExactly(d, e, q, k);
    case Nak => NakExactly(d, e, q, k);
  }

  /** A tick in REQUESTING. */
  lemma NextRequest(c: Client, e: Settings, i: Input)
    requires c.state == Requesting
    ensures var d, n := Step(c, e, Timer(i)), c.timing.retransmitCount;
            && d.lease == c.lease && d.iface == c.iface && d.running == c.running
            && (Due(c, i.time) && n < 4 ==>
                  && d.state == Requesting && d.xid == (if n == 0 then i.id else c.xid)
                  && d.sent == c.sent + [Request(Requesting, d.xid, UNSPECIFIED, Some(c.lease.serverIp),
                                                 Some(c.lease.requestedIp), BROADCAST)])
            && (Due(c, i.time) && n >= 4 ==> d.state == Init && d.sent == c.sent)
            && (!Due(c, i.time) ==> d == c)
  {
    hide Due, Backoff, Wrap;
  }

  // ----- a whole configuration -----

  /** The readings of a tick come at or after the time that a state waits for. */
  predicate Reaches(i: Input, from: uint32, wait: uint32) {
    TimeCompare(i.time, Add(from, wait)) >= 0
  }

  /**
   A client that is started on a link that is up, gets an offer, the acknowledgement and no
   conflict, ends up in BOUND with the acknowledged address in use. It has sent one discover,
   one request that names the server and the address of the offer, and one ARP probe for the
   address of the acknowledgement.
   */
  lemma {:induction false} GetsAnAddress(c: Client, e: Settings, t: seq<Input>, offer: Reply, ack: Reply)
    requires |t| == 7 && c.iface.linkUp
    requires Reaches(t[1], t[0].later, t[0].delay) && Reaches(t[3], t[2].later, 0)
    requires Reaches(t[5], t[4].later, 0) && Reaches(t[6], t[5].time, PROBE_DELAY)
    requires offer.kind == Offer && offer.id == t[1].id && offer.chaddr == e.mac
    requires offer.serverId.Some? && offer.yiaddr != UNSPECIFIED
    requires ack.kind == Ack && ack.id == t[3].id && ack.chaddr == e.mac
    requires ack.serverId == offer.serverId && ack.yiaddr != UNSPECIFIED && ack.lease.Some?
    ensures var asked := After(c, e, [Start, Timer(t[0]), Timer(t[1]), Received(offer, t[2]), Timer(t[3])]);
            var d := After(asked, e, [Received(ack, t[4]), Timer(t[5]), Timer(t[6])]);
            && asked.state == Requesting
            && d.state == Bound && d.running && d.iface.addr == ack.yiaddr && d.iface.addrState == Valid
            && d.lease.serverIp == ack.serverId.value && d.lease.start == t[4].time && d.lease.duration == ack.lease.value
            && d.sent == c.sent + [Discover(t[1].id), Request(Requesting, t[3].id, UNSPECIFIED, offer.serverId,
                                                              Some(offer.yiaddr), BROADCAST), ArpProbe(ack.yiaddr)]
  {
    hide Add, TimeCompare, Step, ConfigOf;
    var discovering := Step(Step(Step(c, e, Start), e, Timer(t[0])), e, Timer(t[1]));
    Discovers(c, e, t[0], t[1]);
    OfferRecorded(discovering, e, offer, t[2]);
    var chosen := Step(discovering, e, Received(offer, t[2]));
    NextRequest(chosen, e, t[3]);
    Afterwards(c, e, Start, Timer(t[0]), Timer(t[1]));
    var first := [Start, Timer(t[0]), Timer(t[1])];
    OneMore(c, e, first, Received(offer, t[2]));
    OneMore(c, e, first + [Received(offer, t[2])], Timer(t[3]));
    assert first + [Received(offer, t[2])] + [Timer(t[3])] == [Start, Timer(t[0]), Timer(t[1]), Received(offer, t[2]), Timer(t[3])];
    var asked := Step(chosen, e, Timer(t[3]));
    AckExactly(asked, e, ack, t[4]);
    Probes(Step(asked, e, Received(ack, t[4])), e, t[5], t[6]);
    Afterwards(asked, e, Received(ack, t[4]), Timer(t[5]), Timer(t[6]));
  }

  lemma {:induction false} Afterwards(c: Client, e: Settings, x: Event, y: Event, z: Event)
    ensures After(c, e, [x, y, z]) == Step(Step(Step(c, e, x), e, y), e, z)
  {
    hide Step;
    assert [x, y, z] == (([] + [x]) + [y]) + [z];
    OneMore(c, e, [], x);
    OneMore(c, e, [] + [x], y);
    OneMore(c, e, ([] + [x]) + [y], z);
  }

  lemma {:induction false} OneMore(c: Client, e: Settings, before: seq<Event>, ev: Event)
    ensures After(c, e, before + [ev]) == Step(After(c, e, before), e, ev)
  {
    hide Step;
    assert (before + [ev])[..|before|] == before;
  }

  /** A client that is started waits for a while, then sends a discover with a new identifier. */
  lemma Discovers(c: Client, e: Settings, i: Input, k: Input)
    requires c.iface.linkUp && Reaches(k, i.later, i.delay)
    ensures var d := Step(Step(Step(c, e, Start), e, Timer(i)), e, Timer(k));
            && d.state == Selecting && d.running && d.xid == k.id && d.sent == c.sent + [Discover(k.id)]
            && d.timing.retransmitCount == 1 && d.timing.retransmitTimeout == 4000
  {
    hide Add, TimeCompare;
  }

  /** A client without conflict sends one ARP probe for its address, and a second later uses it. */
  lemma Probes(c: Client, e: Settings, i: Input, k: Input)
    requires c.state == Probing && c.timing.retransmitCount == 0 && !c.iface.conflict
    requires Due(c, i.time) && Reaches(k, i.time, PROBE_DELAY)
    ensures var d := Step(Step(c, e, Timer(i)), e, Timer(k));
            && d.state == Bound && d.iface == c.iface.(addrState := Valid) && d.sent == c.sent + [ArpProbe(c.iface.addr)]
            && d.lease == c.lease && d.running == c.running
  {
    hide Add, TimeCompare;
  }

  // ----- discovers that nobody answers -----

  /** The wait after the `n`th discover: 4, 8, and then always 16 seconds. */
  function DiscoverWait(n: nat): nat {
    if n <= 1 then 4000 else if n == 2 then 8000 else 16000
  }

  /**
   In SELECTING a discover is sent at each timeout, all with the identifier of the first; the
   waits double up to 16 seconds, but for at most a second either way.
   */
  lemma {:induction false} UnansweredDiscovers(c: Client, inputs: seq<Input>)
    requires c.state == Selecting && c.timing.retransmitCount == 0
    requires EachDue(c, inputs) && 0 < |inputs| < WRAP
    ensures var d, n := Ticks(c, inputs), |inputs|;
            && d.state == Selecting && d.xid == inputs[0].id && d.iface == c.iface && d.running == c.running
            && d.sent == c.sent + Repeated(Discover(inputs[0].id), n) && d.timing.timestamp == inputs[n - 1].time
            && d.timing.retransmitCount == n && d.timing.retransmitTimeout == DiscoverWait(n)
            && DiscoverWait(n) - 1000 <= d.timing.timeout <= DiscoverWait(n) + 1000
  {
    hide Due, Tick, DiscoverWait;
    var n: nat := |inputs| - 1;
    var b, m := Ticks(c, inputs[..n]), Discover(inputs[0].id);
    if n > 0 {
      UnansweredDiscovers(c, inputs[..n]);
      assert c.sent + Repeated(m, n) + [m] == c.sent + Repeated(m, n + 1);
    } else {
      assert c.sent + [m] == c.sent + Repeated(m, 1);
    }
    DiscoversAgain(b, n, inputs[n]);
  }

  /** The next discover. */
  lemma DiscoversAgain(c: Client, n: nat, i: Input)
    requires c.state == Selecting && c.timing.retransmitCount == n && n + 1 < WRAP && Due(c, i.time) && i.Valid()
    requires n > 0 ==> c.timing.retransmitTimeout == DiscoverWait(n)
    ensures var d, id := Tick(c, i), if n == 0 then i.id else c.xid;
            && d.state == Selecting && d.xid == id && d.iface == c.iface && d.running == c.running
            && d.sent == c.sent + [Discover(id)] && d.timing.timestamp == i.time && d.timing.retransmitCount == n + 1
            && d.timing.retransmitTimeout == DiscoverWait(n + 1)
            && DiscoverWait(n + 1) - 1000 <= d.timing.timeout <= DiscoverWait(n + 1) + 1000
  {
    hide Due, Wrap;
    if n > 0 {
      SmallWrap(2 * c.timing.retransmitTimeout);
    }
    SmallWrap(n + 1);
    SmallWrap(DiscoverWait(n + 1) + i.jitter);
  }

  // ----- a lost link, and a client that is stopped -----

  /**
   A client that has a lease when the link goes down asks for the same address when the link
   is up again, of any server; an acknowledgement with the identifier of that request is
   taken, and the address in it is probed.
   */
  lemma {:induction false} AsksAgainForItsAddress(c: Client, e: Settings, i: Input, k: Input, ack: Reply, l: Input)
    requires c.running && HasLease(c.state) && Reaches(k, i.later, i.delay)
    requires ack.kind == Ack && ack.id == k.id && ack.chaddr == e.mac
    requires ack.serverId.Some? && ack.yiaddr != UNSPECIFIED && ack.lease.Some?
    ensures var down, up := Step(c, e, LinkChange(false)), After(c, e, [LinkChange(false), LinkChange(true)]);
            var asked := After(up, e, [Timer(i), Timer(k), Received(ack, l)]);
            && down.iface.addr == UNSPECIFIED && down.iface.addrState == Invalid && Step(down, e, Timer(i)) == down
            && asked.sent == c.sent + [Request(Rebooting, k.id, UNSPECIFIED, None, Some(c.lease.requestedIp), BROADCAST)]
            && asked.state == Probing && asked.iface.addr == ack.yiaddr && asked.iface.addrState == Tentative
  {
    hide Add, TimeCompare, Backoff, T1Of, T2Of, Advised, Wrap;
    var down := Step(c, e, LinkChange(false));
    var up := Step(down, e, LinkChange(true));
    OneMore(c, e, [], LinkChange(false));
    OneMore(c, e, [] + [LinkChange(false)], LinkChange(true));
    assert [LinkChange(false), LinkChange(true)] == [] + [LinkChange(false)] + [LinkChange(true)];
    Afterwards(up, e, Timer(i), Timer(k), Received(ack, l));
  }

  /** A client that is not running sends nothing and takes no address, whatever arrives, until it is started. */
  lemma {:induction false} Suspended(c: Client, e: Settings, events: seq<Event>)
    requires !c.running && c.state == Init && Start !in events
    ensures var d := After(c, e, events);
            && !d.running && d.state == Init && d.sent == c.sent && d.lease == c.lease
            && d.iface.addr == c.iface.addr && d.iface.addrState == c.iface.addrState
  {
    if events != [] {
      assert events[|events| - 1] in events;
      Suspended(c, e, events[..|events| - 1]);
    }
  }
}
