/**
 Multicast group membership. Joining a group makes the interface, and the physical
 interface under it, accept the MAC address that the group maps to; several groups can map
 to the same one, so the MAC filters count references. IPv4 groups also have the IGMP host
 state of RFC 2236.
 */
module Multicast {
  import opened Bytes
  import opened SystemTime
  import opened RefTable

  const UNSOLICITED_REPORT_INTERVAL: uint32 := 10000
  const V1_MAX_RESPONSE_TIME: uint32 := 10000
  const V1_ROUTER_PRESENT_TIMEOUT: uint32 := 400000
  const MAC_NONE: Address := [0, 0, 0, 0, 0, 0]
  const IPV4_NONE: Address := [0, 0, 0, 0]
  const IPV6_NONE: Address := [0, 0, 0, 0, 0, 0, 0, 0, 0, 0, 0, 0, 0, 0, 0, 0]
  const ALL_SYSTEMS: Address := [224, 0, 0, 1]

  datatype HostState = NonMember | DelayingMember | IdleMember

  datatype Member = Member(state: HostState, flag: bool, timer: uint32)

  datatype Plain = Plain

  /** The link of an interface: whether it is up, whether a version 1 router has been heard on it, and for how long. */
  datatype Link = Link(up: bool, v1: bool, v1Timer: uint32)

  datatype IgmpMessage = Report(interface: nat, group: Address, v1: bool) | LeaveGroup(interface: nat, group: Address)

  /** The tables and links of all interfaces, and the IGMP messages handed to the network. */
  datatype Stack = Stack(links: seq<Link>, mac: seq<Table<Plain>>, v4: seq<Table<Member>>, v6: seq<Table<Plain>>,
                         sent: seq<IgmpMessage>)

  predicate IsGroup4(a: Address) {
    |a| == 4 && a[0] / 16 == 14
  }

  predicate IsGroup6(a: Address) {
    |a| == 16 && a[0] == 0xFF
  }

  /** The low-order 23 bits of the group address. */
  function Mac4(a: Address): Address
    requires IsGroup4(a)
  {
    [0x01, 0x00, 0x5E, a[1] % 0x80, a[2], a[3]]
  }

  /** The low-order 32 bits of the group address. */
  function Mac6(a: Address): Address
    requires IsGroup6(a)
  {
    [0x33, 0x33] + a[12..16]
  }

  /** The number that the bytes of an address stand for. */
  function Number(a: Address): nat {
    if a == [] then 0 else Number(a[..|a| - 1]) * 0x100 + a[|a| - 1]
  }

  lemma {:induction false} NumberSnoc(a: Address, b: byte)
    ensures Number(a + [b]) == Number(a) * 0x100 + b
  {
    assert (a + [b])[..|a|] == a;
  }

  lemma {:induction false} LastFour(front: Address, w: byte, x: byte, y: byte, z: byte)
    ensures Number(front + [w, x, y, z])
            == Number(front) * 0x1_0000_0000 + (w * 0x100_0000 + x * 0x1_0000 + y * 0x100 + z)
  {
    hide Number;
    NumberSnoc(front, w);
    NumberSnoc(front + [w], x);
    NumberSnoc(front + [w] + [x], y);
    NumberSnoc(front + [w] + [x] + [y], z);
    assert front + [w] + [x] + [y] + [z] == front + [w, x, y, z];
  }

  lemma TwoBytes(w: byte, x: byte)
    ensures Number([w, x]) == w * 0x100 + x && Number([]) == 0
  {
    NumberSnoc([], w);
    NumberSnoc([w], x);
    assert [] + [w] == [w] && [w] + [x] == [w, x];
  }

  /**
   Section 6.4 of RFC 1112 and section 7 of RFC 2464: the Ethernet address of a group is
   01-00-5E-00-00-00 with the low-order 23 bits of an IPv4 group in its own, and 33-33-00-00-00-00
   with the low-order 32 bits of an IPv6 group.
   */
  lemma {:induction false} MacNumbers(a: Address)
    ensures IsGroup4(a) ==> Number(Mac4(a)) == 0x0100_5E00_0000 + Number(a) % 0x80_0000
    ensures IsGroup6(a) ==> Number(Mac6(a)) == 0x3333_0000_0000 + Number(a) % 0x1_0000_0000
  {
    hide Number;
    if IsGroup4(a) {
      assert a == [] + [a[0], a[1], a[2], a[3]];
      LastFour([], a[0], a[1], a[2], a[3]);
      assert Mac4(a) == [1, 0] + [0x5E, a[1] % 0x80, a[2], a[3]];
      LastFour([1, 0], 0x5E, a[1] % 0x80, a[2], a[3]);
      TwoBytes(1, 0);
      LowBits(a[0], a[1], a[2], a[3]);
    }
    if IsGroup6(a) {
      assert a == a[..12] + [a[12], a[13], a[14], a[15]];
      LastFour(a[..12], a[12], a[13], a[14], a[15]);
      assert Mac6(a) == [0x33, 0x33] + [a[12], a[13], a[14], a[15]];
      LastFour([0x33, 0x33], a[12], a[13], a[14], a[15]);
      TwoBytes(0x33, 0x33);
      var w: int, x: int, y: int, z: int := a[12], a[13], a[14], a[15];
      LowWord(Number(a[..12]), w * 0x100_0000 + x * 0x1_0000 + y * 0x100 + z);
    }
  }

  lemma LowBits(w: byte, x: byte, y: byte, z: byte)
    ensures (w * 0x100_0000 + x * 0x1_0000 + y * 0x100 + z) % 0x80_0000 == x % 0x80 * 0x1_0000 + y * 0x100 + z
  {
    var q, r := x / 0x80, x % 0x80;
    var low := r * 0x1_0000 + y * 0x100 + z;
    assert w * 0x100_0000 + x * 0x1_0000 + y * 0x100 + z == 0x80_0000 * (2 * w + q) + low;
  }

  lemma LowWord(high: nat, low: nat)
    requires low < 0x1_0000_0000
    ensures (high * 0x1_0000_0000 + low) % 0x1_0000_0000 == low
  {
  }

  lemma MacsOfGroups(a: Address, b: Address)
    ensures IsGroup4(a) && IsGroup4(b) ==> (Mac4(a) == Mac4(b) <==> a[1] % 0x80 == b[1] % 0x80 && a[2..] == b[2..])
    ensures IsGroup4(a) && IsGroup6(b) ==> Mac4(a) != Mac6(b)
  {
    if IsGroup4(a) && IsGroup6(b) {
      assert Mac4(a)[0] != Mac6(b)[0];
    }
    if IsGroup4(a) && IsGroup4(b) {
      assert a[2..] == [a[2], a[3]] && b[2..] == [b[2], b[3]];
    }
  }

  // ----- what one operation does -----

  /** The MAC filters of an interface and of the physical one under it, with one more reference. */
  function AcceptBoth(mac: seq<Table<Plain>>, i: nat, p: nat, a: Address): (m: Option<seq<Table<Plain>>>)
    requires i < |mac| && p < |mac|
    ensures m.Some? ==> |m.value| == |mac|
  {
    var t := Accept(mac[i], a);
    if t.None? then None
    else if p == i then Some(mac[i := t.value])
    else
      var u := Accept(mac[p], a);
      if u.None? then None else Some(mac[i := t.value][p := u.value])
  }

  function DropBoth(mac: seq<Table<Plain>>, i: nat, p: nat, a: Address): (m: seq<Table<Plain>>)
    requires i < |mac| && p < |mac|
    ensures |m| == |mac|
  {
    var m := mac[i := Drop(mac[i], a, MAC_NONE)];
    if p == i then m else m[p := Drop(m[p], a, MAC_NONE)]
  }

  /** igmpJoinGroup: the state a new membership starts in. */
  function NewMember(g: Address, up: bool, time: uint32, m: Member): Member {
    if g == ALL_SYSTEMS || !up then Member(IdleMember, false, m.timer)
    else Member(DelayingMember, true, Add(time, UNSOLICITED_REPORT_INTERVAL))
  }

  datatype Joined = Joined(stack: Stack, ok: bool)

  predicate InBounds(s: Stack, physical: seq<nat>, i: nat) {
    && |s.links| == |s.mac| == |s.v4| == |s.v6| == |physical|
    && i < |physical| && physical[i] < |physical|
  }

  function Join4(s: Stack, physical: seq<nat>, i: nat, g: Address, time: uint32): Joined
    requires InBounds(s, physical, i)
  {
    var t := s.v4[i];
    var k, f := Find(t, g), FirstFree(t);
    if !IsGroup4(g) then Joined(s, false)
    else if k < |t| then Joined(s.(v4 := s.v4[i := Accept(t, g).value]), true)
    else if f == |t| then Joined(s, false)
    else
      var m := AcceptBoth(s.mac, i, physical[i], Mac4(g));
      if m.None? then Joined(s, false)
      else
        var info := NewMember(g, s.links[i].up, time, t[f].info);
        Joined(s.(mac := m.value, v4 := s.v4[i := t[f := Entry(g, 1, info)]],
                  sent := if info.flag then s.sent + [Report(i, g, s.links[i].v1)] else s.sent), true)
  }

  /** Whether leaving a group is announced: not while a version 1 router is present. */
  predicate Announced(l: Link, g: Address, m: Member) {
    l.up && m.flag && g != ALL_SYSTEMS && !l.v1
  }

  function Leave4(s: Stack, physical: seq<nat>, i: nat, g: Address): Joined
    requires InBounds(s, physical, i)
  {
    var t := s.v4[i];
    var k := Find(t, g);
    if !IsGroup4(g) || k == |t| then Joined(s, false)
    else if t[k].count > 1 then Joined(s.(v4 := s.v4[i := Drop(t, g, IPV4_NONE)]), true)
    else
      var e := Entry(IPV4_NONE, 0, t[k].info.(state := NonMember));
      Joined(s.(mac := DropBoth(s.mac, i, physical[i], Mac4(g)), v4 := s.v4[i := t[k := e]],
                sent := if Announced(s.links[i], g, t[k].info) then s.sent + [LeaveGroup(i, g)] else s.sent), true)
  }

  function Join6(s: Stack, physical: seq<nat>, i: nat, g: Address): Joined
    requires InBounds(s, physical, i)
  {
    var t := s.v6[i];
    var u := Accept(t, g);
    if !IsGroup6(g) || u.None? then Joined(s, false)
    else if Find(t, g) < |t| then Joined(s.(v6 := s.v6[i := u.value]), true)
    else
      var m := AcceptBoth(s.mac, i, physical[i], Mac6(g));
      if m.None? then Joined(s, false) else Joined(s.(mac := m.value, v6 := s.v6[i := u.value]), true)
  }

  function Leave6(s: Stack, physical: seq<nat>, i: nat, g: Address): Joined
    requires InBounds(s, physical, i)
  {
    var t := s.v6[i];
    var k := Find(t, g);
    if !IsGroup6(g) || k == |t| then Joined(s, false)
    else
      var left := s.(v6 := s.v6[i := Drop(t, g, IPV6_NONE)]);
      Joined(if t[k].count > 1 then left else left.(mac := DropBoth(s.mac, i, physical[i], Mac6(g))), true)
  }

  // ----- the IGMP events -----

  /** What happens to one membership, and whether a report is sent for it. */
  datatype Reaction = Reaction(info: Member, report: bool)

  datatype IgmpEvent =
    | Timer(time: uint32)
    | LinkChange(up: bool, time: uint32)
    | Query(maxRespTime: byte, group: Address, time: uint32, random: map<Address, uint32>)  // one random number for each group
    | OtherReport(group: Address)

  /** What an event says about the link, before the memberships react. */
  function Heard(l: Link, ev: IgmpEvent): Link {
    match ev
    case Timer(time) => if TimeCompare(time, l.v1Timer) >= 0 then l.(v1 := false) else l
    case LinkChange(up, time) => if up then Link(true, false, Add(time, V1_ROUTER_PRESENT_TIMEOUT)) else l.(up := false)
    case Query(max, group, time, random) =>
      if max == 0 then l.(v1 := true, v1Timer := Add(time, V1_ROUTER_PRESENT_TIMEOUT)) else l
    case OtherReport(group) => l
  }

  /**
   The maximum response time in milliseconds, as the code derives it from the field of a query.
   The field counts tenths of a second, so that this is a tenth of what the query allows.
   */
  function MaxResponse(maxRespTime: byte): uint32 {
    if maxRespTime == 0 then V1_MAX_RESPONSE_TIME else maxRespTime * 10
  }

  /** What the query allows, section 2.2 of RFC 2236; a version 1 query has no such field. */
  function Allowed(maxRespTime: byte): uint32 {
    if maxRespTime == 0 then V1_MAX_RESPONSE_TIME else maxRespTime * 100
  }

  /** A random delay of at most the maximum response time, from igmpRand. */
  function Delayed(time: uint32, maxRespTime: byte, random: map<Address, uint32>, group: Address): uint32 {
    Add(time, (if group in random then random[group] else 0) % (MaxResponse(maxRespTime) + 1))
  }

  /** What an event does to a live entry. */
  function React(e: Entry<Member>, ev: IgmpEvent): Reaction {
    var m := e.info;
    match ev
    case Timer(time) =>
      if m.state == DelayingMember && TimeCompare(time, m.timer) >= 0 then
        Reaction(m.(flag := true, state := IdleMember), true)
      else Reaction(m, false)
    case LinkChange(up, time) =>
      if !up then Reaction(m.(flag := false, state := IdleMember), false)
      else if e.addr == ALL_SYSTEMS then Reaction(m, false)
      else Reaction(Member(DelayingMember, true, Add(time, UNSOLICITED_REPORT_INTERVAL)), true)
    case Query(max, group, time, random) =>
      if e.addr == ALL_SYSTEMS || (group != IPV4_NONE && group != e.addr) then Reaction(m, false)
      else if m.state == DelayingMember then
        if TimeCompare(time, m.timer) < 0 && MaxResponse(max) < Wrap(m.timer - time) then
          Reaction(m.(timer := Delayed(time, max, random, e.addr)), false)
        else Reaction(m, false)
      else if m.state == IdleMember then
        Reaction(m.(state := DelayingMember, timer := Delayed(time, max, random, e.addr)), false)
      else Reaction(m, false)
    case OtherReport(group) =>
      if m.state == DelayingMember && group == e.addr then Reaction(m.(flag := false, state := IdleMember), false)
      else Reaction(m, false)
  }

  function Reacted(e: Entry<Member>, ev: IgmpEvent): Entry<Member> {
    if e.count > 0 then e.(info := React(e, ev).info) else e
  }

  function Reports(i: nat, v1: bool, e: Entry<Member>, ev: IgmpEvent): seq<IgmpMessage> {
    if e.count > 0 && React(e, ev).report then [Report(i, e.addr, v1)] else []
  }

  function ReactAll(t: Table<Member>, ev: IgmpEvent): (u: Table<Member>)
    ensures |u| == |t| && forall k :: 0 <= k < |t| ==> u[k] == Reacted(t[k], ev)
  {
    seq(|t|, k requires 0 <= k < |t| => Reacted(t[k], ev))
  }

  function AllReports(i: nat, v1: bool, t: Table<Member>, ev: IgmpEvent): seq<IgmpMessage> {
    if t == [] then [] else AllReports(i, v1, t[..|t| - 1], ev) + Reports(i, v1, t[|t| - 1], ev)
  }

  function Igmp(s: Stack, i: nat, ev: IgmpEvent): Stack
    requires i < |s.v4| == |s.links|
  {
    var l := Heard(s.links[i], ev);
    s.(v4 := s.v4[i := ReactAll(s.v4[i], ev)], sent := s.sent + AllReports(i, l.v1, s.v4[i], ev), links := s.links[i := l])
  }

  // ----- the tables in memory -----

  class NetStack {
    const physical: seq<nat>  // the physical interface under each interface
    var links: seq<Link>
    var mac: seq<Table<Plain>>
    var v4: seq<Table<Member>>
    var v6: seq<Table<Plain>>
    var sent: seq<IgmpMessage>

    /** `time` is when igmpInit starts the timers. */
    constructor (below: seq<nat>, up: seq<bool>, macSize: nat, size4: nat, size6: nat, time: uint32)
      requires |up| == |below|
      ensures physical == below && |links| == |below|
      ensures forall i :: 0 <= i < |below| ==> links[i] == Link(up[i], false, Add(time, V1_ROUTER_PRESENT_TIMEOUT))
      ensures |mac| == |v4| == |v6| == |below| && sent == []
      ensures forall i :: 0 <= i < |below| ==>
                && mac[i] == seq(macSize, k => Entry(MAC_NONE, 0, Plain)) && v6[i] == seq(size6, k => Entry(IPV6_NONE, 0, Plain))
                && v4[i] == seq(size4, k => Entry(IPV4_NONE, 0, Member(NonMember, false, 0)))
    {
      physical, sent := below, [];
      links := seq(|below|, i requires 0 <= i < |below| => Link(up[i], false, Add(time, V1_ROUTER_PRESENT_TIMEOUT)));
      mac := seq(|below|, i => seq(macSize, k => Entry(MAC_NONE, 0, Plain)));
      v4 := seq(|below|, i => seq(size4, k => Entry(IPV4_NONE, 0, Member(NonMember, false, 0))));
      v6 := seq(|below|, i => seq(size6, k => Entry(IPV6_NONE, 0, Plain)));
    }

    ghost function Abs(): Stack
      reads this
    {
      Stack(links, mac, v4, v6, sent)
    }

    method AcceptMacAddr(i: nat, a: Address) returns (ok: bool)
      requires i < |mac|
      modifies `mac
      ensures ok <==> Accept(old(mac)[i], a).Some?
      ensures mac == if ok then old(mac)[i := Accept(old(mac)[i], a).value] else old(mac)
    {
      var t := mac[i];
      var k, free := Scan(t, a);
      if k < |t| {
        mac := mac[i := t[k := t[k].(count := t[k].count + 1)]];
        return true;
      }
      if free == |t| {
        return false;
      }
      mac := mac[i := t[free := t[free].(addr := a, count := 1)]];
      return true;
    }

    method DropMacAddr(i: nat, a: Address) returns (ok: bool)
      requires i < |mac|
      modifies `mac
      ensures ok <==> Find(old(mac)[i], a) < |old(mac)[i]|
      ensures mac == old(mac)[i := Drop(old(mac)[i], a, MAC_NONE)]
    {
      var t := mac[i];
      var k, free := Scan(t, a);
      if k == |t| {
        assert mac == mac[i := mac[i]];
        return false;
      }
      if t[k].count == 1 {
        mac := mac[i := t[k := t[k].(addr := MAC_NONE, count := 0)]];
      } else {
        mac := mac[i := t[k := t[k].(count := t[k].count - 1)]];
      }
      return true;
    }

    /** The part of joining that updates the MAC filters; a failure on the physical interface undoes the other one. */
    method AcceptOnBoth(i: nat, a: Address) returns (ok: bool)
      requires i < |mac| == |physical| && physical[i] < |mac| && Good(mac[i], MAC_NONE)
      modifies `mac
      ensures ok <==> AcceptBoth(old(mac), i, physical[i], a).Some?
      ensures mac == if ok then AcceptBoth(old(mac), i, physical[i], a).value else old(mac)
    {
      hide Good, Accept, Drop;
      var p := physical[i];
      ok := AcceptMacAddr(i, a);
      if ok && i != p {
        ok := AcceptMacAddr(p, a);
        if !ok {
          ghost var m := mac;
          AcceptDrop(old(mac)[i], a, MAC_NONE);
          var dropped := DropMacAddr(i, a);
          assert mac == old(mac)[i := m[i]][i := old(mac)[i]] == old(mac);
        }
      }
    }

    method DropOnBoth(i: nat, a: Address)
      requires i < |mac| == |physical| && physical[i] < |mac|
      modifies `mac
      ensures mac == DropBoth(old(mac), i, physical[i], a)
    {
      hide Drop;
      var dropped := DropMacAddr(i, a);
      if i != physical[i] {
        dropped := DropMacAddr(physical[i], a);
      }
    }

    method JoinGroup4(i: nat, g: Address, time: uint32) returns (ok: bool)
      requires InBounds(Abs(), physical, i) && Good(mac[i], MAC_NONE)
      modifies `mac, `v4, `sent
      ensures Joined(Abs(), ok) == Join4(old(Abs()), physical, i, g, time)
    {
      hide Good, AcceptBoth, Add;
      if !IsGroup4(g) {
        return false;
      }
      var t := v4[i];
      var k, free := Scan(t, g);
      if k < |t| {
        v4 := v4[i := t[k := t[k].(count := t[k].count + 1)]];
        return true;
      }
      if free == |t| {
        return false;
      }
      ok := AcceptOnBoth(i, Mac4(g));
      if ok {
        var info := t[free].info;
        if g == ALL_SYSTEMS || !links[i].up {
          info := info.(flag := false, state := IdleMember);
        } else {
          sent := sent + [Report(i, g, links[i].v1)];
          info := Member(DelayingMember, true, Add(time, UNSOLICITED_REPORT_INTERVAL));
        }
        v4 := v4[i := t[free := Entry(g, 1, info)]];
      }
    }

    method LeaveGroup4(i: nat, g: Address) returns (ok: bool)
      requires InBounds(Abs(), physical, i)
      modifies `mac, `v4, `sent
      ensures Joined(Abs(), ok) == Leave4(old(Abs()), physical, i, g)
    {
      hide DropBoth;
      if !IsGroup4(g) {
        return false;
      }
      var t := v4[i];
      var k, free := Scan(t, g);
      if k == |t| {
        return false;
      }
      if t[k].count > 1 {
        v4 := v4[i := t[k := t[k].(count := t[k].count - 1)]];
      } else {
        if links[i].up {
          if t[k].info.flag {
            if g != ALL_SYSTEMS && !links[i].v1 {
              sent := sent + [LeaveGroup(i, g)];
            }
          }
        }
        DropOnBoth(i, Mac4(g));
        v4 := v4[i := t[k := Entry(IPV4_NONE, 0, t[k].info.(state := NonMember))]];
      }
      return true;
    }

    method JoinGroup6(i: nat, g: Address) returns (ok: bool)
      requires InBounds(Abs(), physical, i) && Good(mac[i], MAC_NONE)
      modifies `mac, `v6
      ensures Joined(Abs(), ok) == Join6(old(Abs()), physical, i, g)
    {
      hide Good, AcceptBoth;
      if !IsGroup6(g) {
        return false;
      }
      var t := v6[i];
      var k, free := Scan(t, g);
      if k < |t| {
        v6 := v6[i := t[k := t[k].(count := t[k].count + 1)]];
        return true;
      }
      if free == |t| {
        return false;
      }
      ok := AcceptOnBoth(i, Mac6(g));
      if ok {
        v6 := v6[i := t[free := t[free].(addr := g, count := 1)]];
      }
    }

    method LeaveGroup6(i: nat, g: Address) returns (ok: bool)
      requires InBounds(Abs(), physical, i)
      modifies `mac, `v6
      ensures Joined(Abs(), ok) == Leave6(old(Abs()), physical, i, g)
    {
      hide DropBoth;
      if !IsGroup6(g) {
        return false;
      }
      var t := v6[i];
      var k, free := Scan(t, g);
      if k == |t| {
        return false;
      }
      if t[k].count > 1 {
        v6 := v6[i := t[k := t[k].(count := t[k].count - 1)]];
      } else {
        DropOnBoth(i, Mac6(g));
        v6 := v6[i := t[k := t[k].(addr := IPV6_NONE, count := 0)]];
      }
      return true;
    }

    /** ethCheckDestAddr on a multicast address. */
    method AcceptsMulticast(i: nat, a: Address) returns (ok: bool)
      requires i < |mac|
      ensures ok <==> Find(mac[i], a) < |mac[i]|
    {
      var k := 0;
      while k < |mac[i]|
        invariant 0 <= k <= |mac[i]|
        invariant forall j :: 0 <= j < k ==> !(mac[i][j].count > 0 && mac[i][j].addr == a)
      {
        if mac[i][k].count > 0 && mac[i][k].addr == a {
          return true;
        }
        k := k + 1;
      }
      return false;
    }

    /** What comes before the loops: the state of the link, and of the version 1 router on it. */
    method Listen(i: nat, ev: IgmpEvent)
      requires i < |links|
      modifies `links
      ensures links == old(links)[i := Heard(old(links)[i], ev)]
    {
      hide Add, TimeCompare;
      var l := links[i];
      match ev {
        case Timer(time) =>
          if TimeCompare(time, l.v1Timer) >= 0 {
            l := l.(v1 := false);
          }
        case LinkChange(up, time) =>
          l := l.(up := up);
          if up {
            l := l.(v1 := false, v1Timer := Add(time, V1_ROUTER_PRESENT_TIMEOUT));
          }
        case Query(max, group, time, random) =>
          if max == 0 {
            l := l.(v1 := true, v1Timer := Add(time, V1_ROUTER_PRESENT_TIMEOUT));
          }
        case OtherReport(group) =>
      }
      links := links[i := l];
    }

    /** What the loops do with one entry. */
    method ReactOne(i: nat, k: nat, ev: IgmpEvent)
      requires i < |v4| == |links| && k < |v4[i]|
      modifies `v4, `sent
      ensures v4 == old(v4)[i := old(v4)[i][k := Reacted(old(v4)[i][k], ev)]]
      ensures sent == old(sent) + Reports(i, links[i].v1, old(v4)[i][k], ev)
    {
      hide React;
      var e := v4[i][k];
      if e.count > 0 {
        var r := React(e, ev);
        if r.report {
          sent := sent + [Report(i, e.addr, links[i].v1)];
        }
        v4 := v4[i := v4[i][k := e.(info := r.info)]];
      } else {
        assert v4[i][k := e] == v4[i] && v4[i := v4[i]] == v4;
      }
    }

    /** The loops of igmpTick, igmpLinkChangeEvent, igmpProcessQueryMessage and igmpProcessReportMessage. */
    method IgmpLoop(i: nat, ev: IgmpEvent)
      requires i < |v4| == |links|
      modifies `v4, `sent, `links
      ensures Abs() == Igmp(old(Abs()), i, ev)
    {
      hide React, Reacted, ReactAll, Reports, AllReports, Partly, Heard;
      Listen(i, ev);
      ghost var t, v1 := v4[i], links[i].v1;
      var k := 0;
      PartlyEnds(i, v1, t, ev);
      assert sent + [] == sent && v4[i := t] == v4;
      while k < |v4[i]|
        invariant |v4| == |old(v4)| && 0 <= k <= |t| == |v4[i]|
        invariant links == old(links)[i := Heard(old(links)[i], ev)] && links[i].v1 == v1
        invariant v4 == old(v4)[i := Partly(t, k, ev)]
        invariant sent == old(sent) + AllReports(i, v1, t[..k], ev)
      {
        PartlyStep(i, v1, t, k, ev);
        ghost var said := AllReports(i, v1, t[..k], ev);
        ReactOne(i, k, ev);
        assert sent == old(sent) + (said + Reports(i, v1, t[k], ev));
        k := k + 1;
      }
    }
  }

  /** A table whose first `k` entries have reacted. */
  function Partly(t: Table<Member>, k: nat, ev: IgmpEvent): (u: Table<Member>)
    requires k <= |t|
    ensures |u| == |t|
  {
    ReactAll(t, ev)[..k] + t[k..]
  }

  lemma {:induction false} PartlyStep(i: nat, v1: bool, t: Table<Member>, k: nat, ev: IgmpEvent)
    requires k < |t|
    ensures var u := Partly(t, k, ev); u[k] == t[k] && u[k := Reacted(t[k], ev)] == Partly(t, k + 1, ev)
    ensures AllReports(i, v1, t[..k + 1], ev) == AllReports(i, v1, t[..k], ev) + Reports(i, v1, t[k], ev)
  {
    assert t[..k + 1][..k] == t[..k];
  }

  lemma {:induction false} PartlyEnds(i: nat, v1: bool, t: Table<Member>, ev: IgmpEvent)
    ensures Partly(t, 0, ev) == t && Partly(t, |t|, ev) == ReactAll(t, ev)
    ensures AllReports(i, v1, t[..0], ev) == [] && t[..|t|] == t
  {
  }
}
