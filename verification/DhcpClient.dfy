/**
 The DHCP client of RFC 2131: the state machine, its timers, and the state of the address
 it configures on the interface. Functions specify what each event does to a client, and
 `Safe` is what every event keeps; the class does it by updating fields.
 */
module DhcpClient {
  import opened Bytes
  import opened SystemTime

  const INIT_DELAY: int := 2000
  const DISCOVER_INIT_RT: uint32 := 4000
  const DISCOVER_MAX_RT: uint32 := 16000
  const REQUEST_MAX_RC: int := 4
  const REQUEST_INIT_RT: uint32 := 4000
  const REQUEST_MAX_RT: uint32 := 64000
  const REQUEST_MIN_DELAY: int := 60000
  const PROBE_NUM: int := 1
  const PROBE_DELAY: uint32 := 1000
  const RAND_FACTOR: int := 1000
  const INFINITE_TIME: uint32 := 0xFFFF_FFFF
  const UNSPECIFIED: uint32 := 0
  const BROADCAST: uint32 := 0xFFFF_FFFF
  const DNS_SERVER_LIST_SIZE: int := 2
  const MINIMUM_MTU: int := 68

  datatype State = Init | Selecting | Requesting | InitReboot | Rebooting | Probing | Bound | Renewing | Rebinding

  datatype AddrState = Invalid | Tentative | Valid

  /**
   What the client hands to the network. A request shows the address of the client when that
   is in use, and may name the server and the address that was offered or leased.
   */
  datatype Message =
    | Discover(id: uint32)
    | Request(during: State, id: uint32, ciaddr: uint32, server: Option<uint32>, requested: Option<uint32>, dest: uint32)
    | Decline(id: uint32, offeredBy: uint32, declined: uint32)
    | ArpProbe(probed: uint32)

  /** When the last message was sent, how long to wait after it, and how many there were. */
  datatype Timing = Timing(timestamp: uint32, timeout: uint32, retransmitTimeout: uint32, retransmitCount: uint32)

  datatype Lease = Lease(serverIp: uint32, requestedIp: uint32, start: uint32, duration: uint32, t1: uint32, t2: uint32)

  /** The list of DNS servers has a fixed number of places. */
  type ServerList = l: seq<uint32> | |l| == DNS_SERVER_LIST_SIZE witness [0, 0]

  datatype Config = Config(gateway: uint32, dnsServers: ServerList, mtu: nat)

  /** The part of the interface that the client configures. */
  datatype Iface = Iface(linkUp: bool, addr: uint32, addrState: AddrState, subnetMask: uint32, conflict: bool,
                         config: Config)

  datatype Client = Client(running: bool, state: State, timing: Timing, xid: uint32, lease: Lease, iface: Iface,
                           sent: seq<Message>)

  /** Settings that do not change, the address of the interface, and the MTU of its driver. */
  datatype Settings = Settings(mac: seq<byte>, rapidCommit: bool, manualDns: bool, driverMtu: nat)

  datatype ReplyKind = Offer | Ack | Nak

  /** A reply from a server: its fixed fields, and the options that are present with the right length. */
  datatype Reply = Reply(kind: ReplyKind, id: uint32, yiaddr: uint32, chaddr: seq<byte>, serverId: Option<uint32>,
                         rapid: bool, lease: Option<uint32>, renewal: Option<uint32>, rebinding: Option<uint32>,
                         mask: Option<uint32>, routers: Option<seq<uint32>>, dnsServers: Option<seq<uint32>>,
                         mtu: Option<uint16>)

  /** What a tick reads from outside: the clock twice, and random numbers. */
  datatype Input = Input(time: uint32, later: uint32, delay: uint32, jitter: int, id: uint32) {
    predicate Valid() {
      delay <= INIT_DELAY && -RAND_FACTOR <= jitter <= RAND_FACTOR
    }
  }

  // ----- what each event does -----

  function Changed(c: Client, s: State, delay: uint32, time: uint32): Client {
    c.(state := s, timing := c.timing.(timestamp := time, timeout := delay, retransmitCount := 0))
  }

  /** The address is given up. */
  function Unconfigured(c: Client): Client {
    c.(iface := c.iface.(addr := UNSPECIFIED, addrState := Invalid, subnetMask := UNSPECIFIED))
  }

  predicate Due(c: Client, time: uint32) {
    TimeCompare(time, Add(c.timing.timestamp, c.timing.timeout)) >= 0
  }

  /** The timeout after the next transmission: doubled each time, up to a limit. */
  function Backoff(t: Timing, first: uint32, limit: uint32): uint32 {
    if t.retransmitCount == 0 then first
    else
      var doubled := Wrap(2 * t.retransmitTimeout);
      if doubled > limit then limit else doubled
  }

  /** A transmission that starts the retransmission timer. */
  function Transmitted(t: Timing, first: uint32, limit: uint32, i: Input): Timing {
    var rt := Backoff(t, first, limit);
    Timing(i.time, Wrap(rt + i.jitter), rt, Wrap(t.retransmitCount + 1))
  }

  /** The transaction identifier of the next message: a new one for the first of a series. */
  function NextId(c: Client, i: Input): uint32 {
    if c.timing.retransmitCount == 0 then i.id else c.xid
  }

  /** dhcpClientSendRequest: which addresses a request names depends on the state. */
  function Asking(c: Client, id: uint32): Message {
    match c.state
    case Requesting => Request(c.state, id, UNSPECIFIED, Some(c.lease.serverIp), Some(c.lease.requestedIp), BROADCAST)
    case Rebooting => Request(c.state, id, UNSPECIFIED, None, Some(c.lease.requestedIp), BROADCAST)
    case Renewing => Request(c.state, id, c.iface.addr, None, None, c.lease.serverIp)
    case Rebinding => Request(c.state, id, c.iface.addr, None, None, BROADCAST)
    case _ => Request(c.state, id, UNSPECIFIED, None, None, BROADCAST)
  }

  function TickStart(c: Client, s: State, i: Input): Client {
    if c.running && c.iface.linkUp then Changed(c, s, i.delay, i.later) else c
  }

  function TickSelecting(c: Client, i: Input): Client {
    if !Due(c, i.time) then c
    else
      var id := NextId(c, i);
      c.(sent := c.sent + [Discover(id)], xid := id, timing := Transmitted(c.timing, DISCOVER_INIT_RT, DISCOVER_MAX_RT, i))
  }

  function TickRequesting(c: Client, i: Input): Client {
    if !Due(c, i.time) then c
    else if c.timing.retransmitCount < REQUEST_MAX_RC then
      var id := NextId(c, i);
      c.(sent := c.sent + [Asking(c, id)], xid := id,
         timing := Transmitted(c.timing, REQUEST_INIT_RT, REQUEST_MAX_RT, i))
    else Changed(c, Init, 0, i.later)
  }

  function TickProbing(c: Client, i: Input): Client {
    if !Due(c, i.time) then c
    else if c.iface.conflict then Changed(c.(sent := c.sent + [Decline(c.xid, c.lease.serverIp, c.lease.requestedIp)]), Init, 0, i.later)
    else if c.timing.retransmitCount < PROBE_NUM then
      c.(sent := c.sent + [ArpProbe(c.iface.addr)],
         timing := c.timing.(timestamp := i.time, timeout := PROBE_DELAY, retransmitCount := Wrap(c.timing.retransmitCount + 1)))
    else Changed(c.(iface := c.iface.(addrState := Valid)), Bound, 0, i.later)
  }

  /** Seconds to milliseconds, limited to the signed range of the clock. */
  function Millis(seconds: uint32): (ms: uint32)
    ensures ms <= MAX_DELAY
  {
    if seconds < MAX_DELAY / 1000 then seconds * 1000 else MAX_DELAY
  }

  function TickBound(c: Client, i: Input): Client {
    if c.lease.t1 != INFINITE_TIME && TimeCompare(i.time, Add(c.lease.start, Millis(c.lease.t1))) >= 0 then
      Changed(c, Renewing, 0, i.later)
    else c
  }

  /** How long to wait for an answer when `remaining` is left: half of it, down to a minimum of one minute. */
  function Patience(remaining: uint32): uint32 {
    if remaining > 2 * REQUEST_MIN_DELAY then remaining / 2 else remaining
  }

  /** Another request, when the phase that ends at `end` is not over. */
  function Renewed(c: Client, end: uint32, i: Input): Client {
    var id := NextId(c, i);
    c.(sent := c.sent + [Asking(c, id)], xid := id,
       timing := c.timing.(timestamp := i.time, timeout := Patience(Wrap(end - i.time)),
                           retransmitCount := Wrap(c.timing.retransmitCount + 1)))
  }

  function TickRenewing(c: Client, i: Input): Client {
    var end := Add(c.lease.start, Millis(c.lease.t2));
    if !Due(c, i.time) then c
    else if TimeCompare(i.time, end) < 0 then Renewed(c, end, i)
    else Changed(c, Rebinding, 0, i.later)
  }

  function TickRebinding(c: Client, i: Input): Client {
    var end := Add(c.lease.start, Millis(c.lease.duration));
    if !Due(c, i.time) then c
    else if TimeCompare(i.time, end) < 0 then Renewed(c, end, i)
    else Changed(Unconfigured(c), Init, 0, i.later)
  }

  function Tick(c: Client, i: Input): Client {
    match c.state
    case Init => TickStart(c, Selecting, i)
    case Selecting => TickSelecting(c, i)
    case Requesting => TickRequesting(c, i)
    case InitReboot => TickStart(c, Rebooting, i)
    case Rebooting => TickRequesting(c, i)
    case Probing => TickProbing(c, i)
    case Bound => TickBound(c, i)
    case Renewing => TickRenewing(c, i)
    case Rebinding => TickRebinding(c, i)
  }

  function Started(c: Client): Client {
    Unconfigured(c).(running := true, state := Init)
  }

  function Stopped(c: Client): Client {
    c.(running := false, state := Init)
  }

  /** The states from INIT-REBOOT on: the client has, or had, a lease. */
  predicate HasLease(s: State) {
    s != Init && s != Selecting && s != Requesting
  }

  function LinkChanged(c: Client, up: bool): Client {
    var d := if c.running then Unconfigured(c) else c;
    d.(iface := d.iface.(linkUp := up), state := if HasLease(c.state) then InitReboot else Init)
  }

  /** The reply answers the client's own request. */
  predicate Answers(c: Client, e: Settings, r: Reply) {
    r.id == c.xid && r.chaddr == e.mac && r.serverId.Some?
  }

  predicate OfferTaken(c: Client, e: Settings, r: Reply) {
    Answers(c, e, r) && r.yiaddr != UNSPECIFIED && c.state == Selecting
  }

  /** The reply comes from a server that the client listens to in its state. */
  predicate FromItsServer(c: Client, r: Reply) {
    || ((c.state == Requesting || c.state == Renewing) && r.serverId == Some(c.lease.serverIp))
    || c.state == Rebooting || c.state == Rebinding
  }

  predicate AckTaken(c: Client, e: Settings, r: Reply) {
    && Answers(c, e, r) && r.yiaddr != UNSPECIFIED && r.lease.Some?
    && (FromItsServer(c, r) || (c.state == Selecting && e.rapidCommit && r.rapid))
  }

  predicate NakTaken(c: Client, e: Settings, r: Reply) {
    Answers(c, e, r) && FromItsServer(c, r)
  }

  /** T1: what the server says, half the lease, or never. It is not compared with the lease. */
  function T1Of(r: Reply): uint32
    requires r.lease.Some?
  {
    if r.renewal.Some? then r.renewal.value
    else if r.lease.value != INFINITE_TIME then r.lease.value / 2
    else INFINITE_TIME
  }

  /** T2: what the server says, 7/8 of the lease in 32-bit arithmetic, or never. */
  function T2Of(r: Reply): uint32
    requires r.lease.Some?
  {
    if r.rebinding.Some? then r.rebinding.value
    else if r.lease.value != INFINITE_TIME then Wrap(r.lease.value * 7) / 8
    else INFINITE_TIME
  }

  function Leased(r: Reply, time: uint32): Lease
    requires r.lease.Some? && r.serverId.Some?
  {
    Lease(r.serverId.value, r.yiaddr, time, r.lease.value, T1Of(r), T2Of(r))
  }

  /** The servers of the reply in the first places, the old ones in the places left. */
  function Overlaid(l: ServerList, given: seq<uint32>): ServerList {
    if |given| < |l| then given + l[|given|..] else given[..|l|]
  }

  lemma OverlayNone(l: ServerList, given: seq<uint32>)
    ensures Overlaid(l, given[..0]) == l
  {
  }

  lemma OverlayNext(l: ServerList, given: seq<uint32>, i: nat)
    requires i < |given| && i < DNS_SERVER_LIST_SIZE
    ensures Overlaid(l, given[..i + 1]) == Overlaid(l, given[..i])[i := given[i]]
  {
  }

  lemma OverlayAll(l: ServerList, given: seq<uint32>, i: nat)
    requires i <= |given| && i <= DNS_SERVER_LIST_SIZE && (i == |given| || i == DNS_SERVER_LIST_SIZE)
    ensures Overlaid(l, given[..i]) == Overlaid(l, given)
  {
  }

  /** The first router, the servers unless they are configured by hand, and the MTU if the driver can do it. */
  function Advised(g: Config, e: Settings, r: Reply): Config {
    Config(if r.routers.Some? && r.routers.value != [] then r.routers.value[0] else g.gateway,
           if !e.manualDns && r.dnsServers.Some? then Overlaid(g.dnsServers, r.dnsServers.value) else g.dnsServers,
           if r.mtu.Some? && MINIMUM_MTU <= r.mtu.value <= e.driverMtu then r.mtu.value else g.mtu)
  }

  /** The interface with the acknowledged address, to be probed first or in use at once. */
  function Configured(f: Iface, e: Settings, r: Reply, probe: bool): Iface {
    f.(addr := r.yiaddr, addrState := if probe then Tentative else Valid, conflict := !probe && f.conflict,
       subnetMask := if r.mask.Some? then r.mask.value else f.subnetMask, config := Advised(f.config, e, r))
  }

  function Answered(c: Client, e: Settings, r: Reply, i: Input): Client {
    match r.kind
    case Offer =>
      if OfferTaken(c, e, r) then
        Changed(c.(lease := c.lease.(serverIp := r.serverId.value, requestedIp := r.yiaddr)), Requesting, 0, i.later)
      else c
    case Ack =>
      if !AckTaken(c, e, r) then c
      else
        var probe := c.state == Requesting || c.state == Rebooting;
        Changed(c.(lease := Leased(r, i.time), iface := Configured(c.iface, e, r, probe)),
                if probe then Probing else Bound, 0, i.later)
    case Nak =>
      if NakTaken(c, e, r) then Changed(Unconfigured(c), Init, 0, i.later) else c
  }

  datatype Event =
    | Timer(input: Input)
    | Received(reply: Reply, input: Input)
    | LinkChange(up: bool)
    | Start
    | Stop
    | Conflict  // ARP sees the address in use elsewhere

  function Step(c: Client, e: Settings, ev: Event): Client {
    match ev
    case Timer(i) => Tick(c, i)
    case Received(r, i) => Answered(c, e, r, i)
    case LinkChange(up) => LinkChanged(c, up)
    case Start => Started(c)
    case Stop => Stopped(c)
    case Conflict => c.(iface := c.iface.(conflict := true))
  }

  // ----- what every event keeps -----

  /** The states in which the client has an acknowledged address. */
  predicate Holding(s: State) {
    s == Probing || InUse(s)
  }

  /** The states in which the address is in use. */
  predicate InUse(s: State) {
    s == Bound || s == Renewing || s == Rebinding
  }

  /** `acked` is the address that a server acknowledged last. */
  predicate Safe(c: Client, acked: uint32) {
    && (!c.running ==> c.state == Init)
    && (c.running ==>
          && (c.iface.addrState == Valid <==> InUse(c.state))
          && (c.state == Probing ==> c.iface.addrState == Tentative)
          && (Holding(c.state) ==> c.iface.addr == acked != UNSPECIFIED && c.lease.requestedIp == acked)
          && (c.iface.addrState == Invalid <==> c.iface.addr == UNSPECIFIED)
          && (c.state == InitReboot || c.state == Rebooting ==> c.iface.addrState == Invalid))
    && Probed(c)
  }

  /** A probing client that has counted a probe has sent it, for the address it now holds. */
  predicate Probed(c: Client) {
    c.state == Probing && c.timing.retransmitCount != 0 ==> c.sent != [] && c.sent[|c.sent| - 1] == ArpProbe(c.iface.addr)
  }

  function Acked(c: Client, e: Settings, ev: Event, acked: uint32): uint32 {
    if ev.Received? && ev.reply.kind == Ack && AckTaken(c, e, ev.reply) then ev.reply.yiaddr else acked
  }

  lemma TickSafe(c: Client, i: Input, acked: uint32)
    requires Safe(c, acked)
    ensures Safe(Tick(c, i), acked)
  {
    hide Wrap, Add, TimeCompare, Millis;
  }

  lemma StepSafe(c: Client, e: Settings, ev: Event, acked: uint32)
    requires Safe(c, acked)
    ensures Safe(Step(c, e, ev), Acked(c, e, ev, acked))
  {
    hide Wrap, Add, TimeCompare, Tick, T1Of, T2Of, Advised;
    if ev.Timer? {
      TickSafe(c, ev.input, acked);
    }
  }

  // ----- the client in memory -----

  class Context {
    const settings: Settings
    var running: bool
    var state: State
    var timing: Timing
    var xid: uint32
    var lease: Lease
    var iface: Iface
    var sent: seq<Message>  // everything handed to the network
    ghost var acked: uint32  // the address that a server acknowledged last

    ghost function Abs(): Client
      reads this
    {
      Client(running, state, timing, xid, lease, iface, sent)
    }

    ghost predicate Valid()
      reads this
    {
      Safe(Abs(), acked)
    }

    /** dhcpClientInit: suspended, everything cleared; the interface is as it was. */
    constructor (e: Settings, f: Iface)
      ensures Valid() && settings == e
      ensures Abs() == Client(false, Init, Timing(0, 0, 0, 0), 0, Lease(0, 0, 0, 0, 0, 0), f, [])
    {
      settings, iface, acked := e, f, UNSPECIFIED;
      running, state, timing, xid, lease, sent := false, Init, Timing(0, 0, 0, 0), 0, Lease(0, 0, 0, 0, 0, 0), [];
    }

    method ChangeState(s: State, delay: uint32, time: uint32)
      modifies `state, `timing
      ensures Abs() == Changed(old(Abs()), s, delay, time)
    {
      timing := timing.(timestamp := time);
      timing := timing.(timeout := delay);
      timing := timing.(retransmitCount := 0);
      state := s;
    }

    method ClearAddress()
      modifies `iface
      ensures Abs() == Unconfigured(old(Abs()))
    {
      iface := iface.(addr := UNSPECIFIED);
      iface := iface.(addrState := Invalid);
      iface := iface.(subnetMask := UNSPECIFIED);
    }

    method DoStart()
      requires Valid()
      modifies this
      ensures Abs() == Started(old(Abs()))
      ensures Valid() && acked == old(acked)
    {
      ClearAddress();
      running := true;
      state := Init;
    }

    method DoStop()
      requires Valid()
      modifies this
      ensures Abs() == Stopped(old(Abs()))
      ensures Valid() && acked == old(acked)
    {
      running := false;
      state := Init;
    }

    method LinkChangeEvent(up: bool)
      requires Valid()
      modifies this
      ensures Abs() == LinkChanged(old(Abs()), up)
      ensures Valid() && acked == old(acked)
    {
      iface := iface.(linkUp := up);
      if running {
        ClearAddress();
      }
      if state != Init && state != Selecting && state != Requesting {
        state := InitReboot;
      } else {
        state := Init;
      }
    }

    method StateInit(i: Input)
      requires Valid() && state == Init
      modifies `state, `timing
      ensures Abs() == TickStart(old(Abs()), Selecting, i)
      ensures Valid()
    {
      ghost var c := Abs();
      hide Safe;
      if running {
        if iface.linkUp {
          ChangeState(Selecting, i.delay, i.later);
        }
      }
      TickSafe(c, i, acked);
    }

    method StateInitReboot(i: Input)
      requires Valid() && state == InitReboot
      modifies `state, `timing
      ensures Abs() == TickStart(old(Abs()), Rebooting, i)
      ensures Valid()
    {
      ghost var c := Abs();
      hide Safe;
      if running {
        if iface.linkUp {
          ChangeState(Rebooting, i.delay, i.later);
        }
      }
      TickSafe(c, i, acked);
    }

    method StateSelecting(i: Input)
      requires Valid() && state == Selecting
      modifies `xid, `sent, `timing
      ensures Abs() == TickSelecting(old(Abs()), i)
      ensures Valid()
    {
      ghost var c := Abs();
      hide Safe, Wrap, Add, TimeCompare;
      hide TickStart, TickRequesting, TickProbing, TickBound, TickRenewing, TickRebinding;
      if TimeCompare(i.time, Add(timing.timestamp, timing.timeout)) >= 0 {
        if timing.retransmitCount == 0 {
          xid := i.id;
          sent := sent + [Discover(xid)];
          timing := timing.(retransmitTimeout := DISCOVER_INIT_RT);
        } else {
          sent := sent + [Discover(xid)];
          timing := timing.(retransmitTimeout := Wrap(2 * timing.retransmitTimeout));
          if timing.retransmitTimeout > DISCOVER_MAX_RT {
            timing := timing.(retransmitTimeout := DISCOVER_MAX_RT);
          }
        }
        timing := timing.(timestamp := i.time);
        timing := timing.(timeout := Wrap(timing.retransmitTimeout + i.jitter));
        timing := timing.(retransmitCount := Wrap(timing.retransmitCount + 1));
      }
      TickSafe(c, i, acked);
    }

    method SendRequest()
      modifies `sent
      ensures sent == old(sent) + [Asking(old(Abs()), xid)]
    {
      var ciaddr := if state == Renewing || state == Rebinding then iface.addr else UNSPECIFIED;
      var server := if state == Requesting then Some(lease.serverIp) else None;
      var requested := if state == Requesting || state == Rebooting then Some(lease.requestedIp) else None;
      var dest := if state == Renewing then lease.serverIp else BROADCAST;
      sent := sent + [Request(state, xid, ciaddr, server, requested, dest)];
    }

    /** The REQUESTING and REBOOTING states retransmit in the same way. */
    method StateRequesting(i: Input)
      requires Valid() && (state == Requesting || state == Rebooting)
      modifies `state, `timing, `xid, `sent
      ensures Abs() == TickRequesting(old(Abs()), i)
      ensures Valid()
    {
      ghost var c := Abs();
      hide Safe, Wrap, Add, TimeCompare;
      hide TickStart, TickSelecting, TickProbing, TickBound, TickRenewing, TickRebinding;
      if TimeCompare(i.time, Add(timing.timestamp, timing.timeout)) >= 0 {
        if timing.retransmitCount == 0 {
          xid := i.id;
          SendRequest();
          timing := timing.(retransmitTimeout := REQUEST_INIT_RT);
          timing := timing.(timestamp := i.time);
          timing := timing.(timeout := Wrap(timing.retransmitTimeout + i.jitter));
          timing := timing.(retransmitCount := Wrap(timing.retransmitCount + 1));
        } else if timing.retransmitCount < REQUEST_MAX_RC {
          SendRequest();
          timing := timing.(retransmitTimeout := Wrap(2 * timing.retransmitTimeout));
          if timing.retransmitTimeout > REQUEST_MAX_RT {
            timing := timing.(retransmitTimeout := REQUEST_MAX_RT);
          }
          timing := timing.(timestamp := i.time);
          timing := timing.(timeout := Wrap(timing.retransmitTimeout + i.jitter));
          timing := timing.(retransmitCount := Wrap(timing.retransmitCount + 1));
        } else {
          ChangeState(Init, 0, i.later);
        }
      }
      TickSafe(c, i, acked);
    }

    method StateProbing(i: Input)
      requires Valid() && state == Probing
      modifies `state, `timing, `sent, `iface
      ensures Abs() == TickProbing(old(Abs()), i)
      ensures Valid()
      ensures state == Bound ==>
                !old(iface.conflict) && iface.addr == acked && sent != [] && sent[|sent| - 1] == ArpProbe(acked)
    {
      ghost var c := Abs();
      hide Wrap, Add, TimeCompare;
      if TimeCompare(i.time, Add(timing.timestamp, timing.timeout)) >= 0 {
        if iface.conflict {
          sent := sent + [Decline(xid, lease.serverIp, lease.requestedIp)];
          ChangeState(Init, 0, i.later);
        } else if timing.retransmitCount < PROBE_NUM {
          sent := sent + [ArpProbe(iface.addr)];
          timing := timing.(timestamp := i.time);
          timing := timing.(timeout := PROBE_DELAY);
          timing := timing.(retransmitCount := Wrap(timing.retransmitCount + 1));
        } else {
          iface := iface.(addrState := AddrState.Valid);
          ChangeState(Bound, 0, i.later);
        }
      }
      TickSafe(c, i, acked);
    }

    method StateBound(i: Input)
      requires Valid() && state == Bound
      modifies `state, `timing
      ensures Abs() == TickBound(old(Abs()), i)
      ensures Valid()
    {
      ghost var c := Abs();
      hide Safe, Add, TimeCompare;
      if lease.t1 != INFINITE_TIME {
        var ms := if lease.t1 < MAX_DELAY / 1000 then lease.t1 * 1000 else MAX_DELAY;
        if TimeCompare(i.time, Add(lease.start, ms)) >= 0 {
          ChangeState(Renewing, 0, i.later);
        }
      }
      TickSafe(c, i, acked);
    }

    method StateRenewing(i: Input)
      requires Valid() && state == Renewing
      modifies `state, `timing, `xid, `sent
      ensures Abs() == TickRenewing(old(Abs()), i)
      ensures Valid()
    {
      ghost var c := Abs();
      hide Safe, Wrap, Add, TimeCompare;
      hide TickStart, TickSelecting, TickRequesting, TickProbing, TickBound, TickRebinding;
      if TimeCompare(i.time, Add(timing.timestamp, timing.timeout)) >= 0 {
        var ms := if lease.t2 < MAX_DELAY / 1000 then lease.t2 * 1000 else MAX_DELAY;
        if TimeCompare(i.time, Add(lease.start, ms)) < 0 {
          if timing.retransmitCount == 0 {
            xid := i.id;
          }
          SendRequest();
          timing := timing.(timestamp := i.time);
          timing := timing.(timeout := Wrap(Add(lease.start, ms) - i.time));
          if timing.timeout > 2 * REQUEST_MIN_DELAY {
            timing := timing.(timeout := timing.timeout / 2);
          }
          timing := timing.(retransmitCount := Wrap(timing.retransmitCount + 1));
        } else {
          ChangeState(Rebinding, 0, i.later);
        }
      }
      TickSafe(c, i, acked);
    }

    method StateRebinding(i: Input)
      requires Valid() && state == Rebinding
      modifies `state, `timing, `xid, `sent, `iface
      ensures Abs() == TickRebinding(old(Abs()), i)
      ensures Valid()
    {
      ghost var c := Abs();
      hide Safe, Wrap, Add, TimeCompare;
      hide TickStart, TickSelecting, TickRequesting, TickProbing, TickBound, TickRenewing;
      if TimeCompare(i.time, Add(timing.timestamp, timing.timeout)) >= 0 {
        var ms := if lease.duration < MAX_DELAY / 1000 then lease.duration * 1000 else MAX_DELAY;
        if TimeCompare(i.time, Add(lease.start, ms)) < 0 {
          if timing.retransmitCount == 0 {
            xid := i.id;
          }
          SendRequest();
          timing := timing.(timestamp := i.time);
          timing := timing.(timeout := Wrap(Add(lease.start, ms) - i.time));
          if timing.timeout > 2 * REQUEST_MIN_DELAY {
            timing := timing.(timeout := timing.timeout / 2);
          }
          timing := timing.(retransmitCount := Wrap(timing.retransmitCount + 1));
        } else {
          ClearAddress();
          ChangeState(Init, 0, i.later);
        }
      }
      TickSafe(c, i, acked);
    }

    /** dhcpClientTick. */
    method DoTick(i: Input)
      requires Valid()
      modifies this
      ensures Abs() == Tick(old(Abs()), i)
      ensures Valid() && acked == old(acked)
    {
      hide Safe, TickStart, TickSelecting, TickRequesting, TickProbing, TickBound, TickRenewing, TickRebinding;
      match state
      case Init => StateInit(i);
      case Selecting => StateSelecting(i);
      case Requesting => StateRequesting(i);
      case InitReboot => StateInitReboot(i);
      case Rebooting => StateRequesting(i);
      case Probing => StateProbing(i);
      case Bound => StateBound(i);
      case Renewing => StateRenewing(i);
      case Rebinding => StateRebinding(i);
    }

    method ParseOffer(r: Reply, i: Input)
      requires Valid() && r.kind == Offer
      modifies this
      ensures Abs() == Answered(old(Abs()), settings, r, i)
      ensures Valid() && acked == old(acked)
    {
      StepSafe(Abs(), settings, Received(r, i), acked);
      hide Safe;
      if r.id != xid || r.yiaddr == UNSPECIFIED || r.chaddr != settings.mac || state != Selecting || r.serverId.None? {
        return;
      }
      lease := lease.(serverIp := r.serverId.value);
      lease := lease.(requestedIp := r.yiaddr);
      ChangeState(Requesting, 0, i.later);
    }

    /** The times, the server and the address of an acknowledged lease. */
    method RecordLease(r: Reply, time: uint32)
      requires r.lease.Some? && r.serverId.Some?
      modifies `lease
      ensures lease == Leased(r, time)
    {
      hide Wrap;
      lease := lease.(duration := r.lease.value);
      if r.renewal.Some? {
        lease := lease.(t1 := r.renewal.value);
      } else if lease.duration != INFINITE_TIME {
        lease := lease.(t1 := lease.duration / 2);
      } else {
        lease := lease.(t1 := INFINITE_TIME);
      }
      if r.rebinding.Some? {
        lease := lease.(t2 := r.rebinding.value);
      } else if lease.duration != INFINITE_TIME {
        lease := lease.(t2 := Wrap(lease.duration * 7) / 8);
      } else {
        lease := lease.(t2 := INFINITE_TIME);
      }
      lease := lease.(serverIp := r.serverId.value);
      lease := lease.(requestedIp := r.yiaddr);
      lease := lease.(start := time);
    }

    /** The DNS servers of a reply, as many as there are places for. */
    method RecordServers(given: seq<uint32>)
      modifies `iface
      ensures iface == old(iface).(config := old(iface.config).(dnsServers := Overlaid(old(iface.config.dnsServers), given)))
    {
      hide Overlaid;
      ghost var was := iface;
      var i: nat := 0;
      OverlayNone(iface.config.dnsServers, given);
      while i < |given| && i < DNS_SERVER_LIST_SIZE
        invariant i <= |given| && i <= DNS_SERVER_LIST_SIZE
        invariant iface == was.(config := was.config.(dnsServers := Overlaid(was.config.dnsServers, given[..i])))
      {
        OverlayNext(was.config.dnsServers, given, i);
        iface := iface.(config := iface.config.(dnsServers := iface.config.dnsServers[i := given[i]]));
        i := i + 1;
      }
      OverlayAll(was.config.dnsServers, given, i);
    }

    /** The subnet mask, the default gateway, the DNS servers and the MTU that come with a lease. */
    method RecordConfig(r: Reply)
      modifies `iface
      ensures iface == old(iface).(config := Advised(old(iface.config), settings, r),
                                   subnetMask := if r.mask.Some? then r.mask.value else old(iface.subnetMask))
    {
      hide Overlaid;
      if r.mask.Some? {
        iface := iface.(subnetMask := r.mask.value);
      }
      if r.routers.Some? && r.routers.value != [] {
        iface := iface.(config := iface.config.(gateway := r.routers.value[0]));
      }
      if !settings.manualDns && r.dnsServers.Some? {
        RecordServers(r.dnsServers.value);
      }
      if r.mtu.Some? && MINIMUM_MTU <= r.mtu.value <= settings.driverMtu {
        iface := iface.(config := iface.config.(mtu := r.mtu.value));
      }
    }

    method ParseAck(r: Reply, i: Input)
      requires Valid() && r.kind == Ack
      modifies this
      ensures Abs() == Answered(old(Abs()), settings, r, i)
      ensures Valid() && acked == if AckTaken(old(Abs()), settings, r) then r.yiaddr else old(acked)
    {
      StepSafe(Abs(), settings, Received(r, i), acked);
      hide Safe, Wrap, T1Of, T2Of, Leased, Advised;
      if r.id != xid || r.yiaddr == UNSPECIFIED || r.chaddr != settings.mac || r.serverId.None? {
        return;
      }
      if state == Selecting {
        if !settings.rapidCommit || !r.rapid {
          return;
        }
      } else if state == Requesting || state == Renewing {
        if r.serverId.value != lease.serverIp {
          return;
        }
      } else if state != Rebooting && state != Rebinding {
        return;
      }
      if r.lease.None? {
        return;
      }
      acked := r.yiaddr;
      RecordLease(r, i.time);
      RecordConfig(r);
      iface := iface.(addr := r.yiaddr);
      if state == Requesting || state == Rebooting {
        iface := iface.(addrState := Tentative);
        iface := iface.(conflict := false);
        ChangeState(Probing, 0, i.later);
      } else {
        iface := iface.(addrState := AddrState.Valid);
        ChangeState(Bound, 0, i.later);
      }
    }

    method ParseNak(r: Reply, i: Input)
      requires Valid() && r.kind == Nak
      modifies this
      ensures Abs() == Answered(old(Abs()), settings, r, i)
      ensures Valid() && acked == old(acked)
    {
      StepSafe(Abs(), settings, Received(r, i), acked);
      hide Safe;
      if r.id != xid || r.chaddr != settings.mac || r.serverId.None? {
        return;
      }
      if state == Requesting || state == Renewing {
        if r.serverId.value != lease.serverIp {
          return;
        }
      } else if state != Rebooting && state != Rebinding {
        return;
      }
      ClearAddress();
      ChangeState(Init, 0, i.later);
    }

    /** Any one event. */
    method Handle(ev: Event)
      requires Valid()
      modifies this
      ensures Abs() == Step(old(Abs()), settings, ev)
      ensures Valid() && acked == Acked(old(Abs()), settings, ev, old(acked))
    {
      hide Answered, Tick;
      match ev
      case Timer(i) => DoTick(i);
      case Received(r, i) =>
        match r.kind {
          case Offer => ParseOffer(r, i);
          case Ack => ParseAck(r, i);
          case Nak => ParseNak(r, i);
        }
      case LinkChange(up) => LinkChangeEvent(up);
      case Start => DoStart();
      case Stop => DoStop();
      case Conflict => iface := iface.(conflict := true);
    }
  }
}
