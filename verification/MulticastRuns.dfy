/** What every sequence of joins, leaves and IGMP events keeps. */
module MulticastRuns {
  import opened Bytes
  import opened SystemTime
  import opened RefTable
  import opened Sums
  import opened Multicast

  // ----- what the MAC filters should hold -----

  /** The MAC address of a live group, once, however often the group was joined. */
  ghost function Share4(e: Entry<Member>): multiset<Address> {
    if e.count > 0 && IsGroup4(e.addr) then multiset{Mac4(e.addr)} else multiset{}
  }

  ghost function Share6(e: Entry<Plain>): multiset<Address> {
    if e.count > 0 && IsGroup6(e.addr) then multiset{Mac6(e.addr)} else multiset{}
  }

  ghost function Shares4(t: Table<Member>): (ms: seq<multiset<Address>>)
    ensures |ms| == |t| && forall k :: 0 <= k < |t| ==> ms[k] == Share4(t[k])
  {
    seq(|t|, k requires 0 <= k < |t| => Share4(t[k]))
  }

  ghost function Shares6(t: Table<Plain>): (ms: seq<multiset<Address>>)
    ensures |ms| == |t| && forall k :: 0 <= k < |t| ==> ms[k] == Share6(t[k])
  {
    seq(|t|, k requires 0 <= k < |t| => Share6(t[k]))
  }

  /** The MAC addresses of the groups joined on one interface. */
  ghost function Groups(v4: Table<Member>, v6: Table<Plain>): multiset<Address> {
    Total(Shares4(v4)) + Total(Shares6(v6))
  }

  predicate Under(physical: seq<nat>, i: nat, j: nat)
    requires j < |physical|
  {
    j == i || physical[j] == i
  }

  /** For each interface, its groups if they count on interface `i`: those of `i` and of the virtual ones on it. */
  ghost function Parts(s: Stack, physical: seq<nat>, i: nat): (ms: seq<multiset<Address>>)
    requires |s.v4| == |s.v6| == |physical|
    ensures |ms| == |physical|
    ensures forall j :: 0 <= j < |ms| ==> ms[j] == if Under(physical, i, j) then Groups(s.v4[j], s.v6[j]) else multiset{}
  {
    seq(|physical|, j requires 0 <= j < |physical| => if Under(physical, i, j) then Groups(s.v4[j], s.v6[j]) else multiset{})
  }

  ghost function Wanted(s: Stack, physical: seq<nat>, i: nat): multiset<Address>
    requires |s.v4| == |s.v6| == |physical|
  {
    Total(Parts(s, physical, i))
  }

  /** An IPv4 entry is live exactly when its host state is not Non-Member; 224.0.0.1 stays Idle and unreported. */
  predicate GoodMember(e: Entry<Member>) {
    && (e.count > 0 <==> e.info.state != NonMember)
    && (e.count > 0 ==> IsGroup4(e.addr))
    && (e.count > 0 && e.addr == ALL_SYSTEMS ==> e.info.state == IdleMember && !e.info.flag)
  }

  ghost predicate GoodTables(s: Stack, i: nat)
    requires i < |s.mac| == |s.v4| == |s.v6|
  {
    && Good(s.mac[i], MAC_NONE) && Good(s.v4[i], IPV4_NONE) && Good(s.v6[i], IPV6_NONE)
    && (forall k :: 0 <= k < |s.v4[i]| ==> GoodMember(s.v4[i][k]))
    && (forall k :: 0 <= k < |s.v6[i]| && s.v6[i][k].count > 0 ==> IsGroup6(s.v6[i][k].addr))
  }

  ghost predicate Sized(s: Stack, physical: seq<nat>) {
    && |s.links| == |s.mac| == |s.v4| == |s.v6| == |physical|
    && forall i :: 0 <= i < |physical| ==> physical[i] < |physical|
  }

  /** The counts are right on every interface. */
  ghost predicate CountsRight(s: Stack, physical: seq<nat>)
    requires Sized(s, physical)
  {
    forall i :: 0 <= i < |physical| ==> Refs(s.mac[i]) == Wanted(s, physical, i)
  }

  ghost predicate Invariant(s: Stack, physical: seq<nat>) {
    && Sized(s, physical) && CountsRight(s, physical)
    && (forall i :: 0 <= i < |physical| ==> GoodTables(s, i))
    && (forall m :: m in s.sent ==> m.group != ALL_SYSTEMS)
  }

  // ----- one interface gets more or fewer groups -----

  /** When the groups of interface `j` become `x`, what is wanted changes where they count. */
  lemma WantedUpdate(s: Stack, r: Stack, physical: seq<nat>, i: nat, j: nat)
    requires |s.v4| == |s.v6| == |physical| == |r.v4| == |r.v6| && j < |physical|
    requires forall k :: 0 <= k < |physical| && k != j ==> r.v4[k] == s.v4[k] && r.v6[k] == s.v6[k]
    ensures Under(physical, i, j) ==>
              Wanted(r, physical, i) + Groups(s.v4[j], s.v6[j]) == Wanted(s, physical, i) + Groups(r.v4[j], r.v6[j])
    ensures !Under(physical, i, j) ==> Wanted(r, physical, i) == Wanted(s, physical, i)
  {
    hide Groups, Total;
    var ms, ns := Parts(s, physical, i), Parts(r, physical, i);
    TotalUpdate(ms, j, ns[j]);
    assert ns == ms[j := ns[j]];
    if !Under(physical, i, j) {
      assert ns == ms;
    }
  }

  /** One more group on interface `j`. */
  ghost predicate OneMoreGroup(s: Stack, r: Stack, physical: seq<nat>, j: nat, a: Address)
    requires |s.v4| == |s.v6| == |physical| == |r.v4| == |r.v6| && j < |physical|
  {
    && (forall k :: 0 <= k < |physical| && k != j ==> r.v4[k] == s.v4[k] && r.v6[k] == s.v6[k])
    && Groups(r.v4[j], r.v6[j]) == Groups(s.v4[j], s.v6[j]) + multiset{a}
  }

  lemma OneMoreWanted(s: Stack, r: Stack, physical: seq<nat>, i: nat, j: nat, a: Address)
    requires |s.v4| == |s.v6| == |physical| == |r.v4| == |r.v6| && j < |physical|
    requires OneMoreGroup(s, r, physical, j, a)
    ensures Wanted(r, physical, i) == Wanted(s, physical, i) + if Under(physical, i, j) then multiset{a} else multiset{}
  {
    hide Groups, Wanted;
    WantedUpdate(s, r, physical, i, j);
    if Under(physical, i, j) {
      Cancel(Wanted(r, physical, i), Wanted(s, physical, i), Groups(s.v4[j], s.v6[j]), a);
    }
  }

  // ----- the MAC filters follow -----

  lemma AcceptedBoth(mac: seq<Table<Plain>>, i: nat, p: nat, a: Address)
    requires i < |mac| && p < |mac| && AcceptBoth(mac, i, p, a).Some?
    requires forall k :: 0 <= k < |mac| ==> Good(mac[k], MAC_NONE)
    ensures var m := AcceptBoth(mac, i, p, a).value;
            && |m| == |mac|
            && forall k :: 0 <= k < |mac| ==>
                 Good(m[k], MAC_NONE) && Refs(m[k]) == Refs(mac[k]) + if k == i || k == p then multiset{a} else multiset{}
  {
    hide Good, Refs, Accept;
    AcceptRefs(mac[i], a, MAC_NONE);
    AcceptRefs(mac[p], a, MAC_NONE);
  }

  lemma DroppedBoth(mac: seq<Table<Plain>>, i: nat, p: nat, a: Address)
    requires i < |mac| && p < |mac| && a in Refs(mac[i]) && a in Refs(mac[p])
    requires forall k :: 0 <= k < |mac| ==> Good(mac[k], MAC_NONE)
    ensures var m := DropBoth(mac, i, p, a);
            && |m| == |mac|
            && forall k :: 0 <= k < |mac| ==>
                 Good(m[k], MAC_NONE) && Refs(m[k]) + (if k == i || k == p then multiset{a} else multiset{}) == Refs(mac[k])
  {
    hide Good, Refs, Drop;
    DropRefs(mac[i], a, MAC_NONE);
    DropRefs(mac[p], a, MAC_NONE);
  }

  lemma CountsFollowJoin(s: Stack, r: Stack, physical: seq<nat>, j: nat, a: Address)
    requires Sized(s, physical) && Sized(r, physical) && CountsRight(s, physical) && j < |physical|
    requires forall k :: 0 <= k < |physical| ==> Good(s.mac[k], MAC_NONE)
    requires OneMoreGroup(s, r, physical, j, a)
    requires AcceptBoth(s.mac, j, physical[j], a) == Some(r.mac)
    ensures CountsRight(r, physical) && forall k :: 0 <= k < |physical| ==> Good(r.mac[k], MAC_NONE)
  {
    hide Good, Refs, AcceptBoth, OneMoreGroup, Wanted;
    AcceptedBoth(s.mac, j, physical[j], a);
    forall i | 0 <= i < |physical| ensures Refs(r.mac[i]) == Wanted(r, physical, i) {
      OneMoreWanted(s, r, physical, i, j, a);
    }
  }

  lemma CountsFollowLeave(s: Stack, r: Stack, physical: seq<nat>, j: nat, a: Address)
    requires Sized(s, physical) && Sized(r, physical) && CountsRight(s, physical) && j < |physical|
    requires forall k :: 0 <= k < |physical| ==> Good(s.mac[k], MAC_NONE)
    requires OneMoreGroup(r, s, physical, j, a)
    requires DropBoth(s.mac, j, physical[j], a) == r.mac
    ensures CountsRight(r, physical) && forall k :: 0 <= k < |physical| ==> Good(r.mac[k], MAC_NONE)
  {
    hide Good, Refs, DropBoth, OneMoreGroup, Wanted;
    OneMoreWanted(r, s, physical, j, j, a);
    OneMoreWanted(r, s, physical, physical[j], j, a);
    DroppedBoth(s.mac, j, physical[j], a);
    forall i | 0 <= i < |physical| ensures Refs(r.mac[i]) == Wanted(r, physical, i) {
      OneMoreWanted(r, s, physical, i, j, a);
      if Under(physical, i, j) {
        Keep(Refs(r.mac[i]), Wanted(r, physical, i), multiset{a});
      } else {
        assert Refs(r.mac[i]) + multiset{} == Refs(r.mac[i]) && Wanted(r, physical, i) + multiset{} == Wanted(r, physical, i);
      }
    }
  }

  /** Groups that keep their shares keep the counts right. */
  lemma CountsStay(s: Stack, r: Stack, physical: seq<nat>)
    requires Sized(s, physical) && Sized(r, physical) && CountsRight(s, physical) && r.mac == s.mac
    requires forall k :: 0 <= k < |physical| ==> Groups(r.v4[k], r.v6[k]) == Groups(s.v4[k], s.v6[k])
    ensures CountsRight(r, physical)
  {
    hide Groups, Refs;
    forall i | 0 <= i < |physical| ensures Wanted(r, physical, i) == Wanted(s, physical, i) {
      assert Parts(r, physical, i) == Parts(s, physical, i);
    }
  }

  // ----- the group tables -----

  lemma Shares4Update(t: Table<Member>, k: nat, e: Entry<Member>)
    requires k < |t|
    ensures Total(Shares4(t[k := e])) + Share4(t[k]) == Total(Shares4(t)) + Share4(e)
  {
    TotalUpdate(Shares4(t), k, Share4(e));
    assert Shares4(t[k := e]) == Shares4(t)[k := Share4(e)];
  }

  lemma Shares6Update(t: Table<Plain>, k: nat, e: Entry<Plain>)
    requires k < |t|
    ensures Total(Shares6(t[k := e])) + Share6(t[k]) == Total(Shares6(t)) + Share6(e)
  {
    TotalUpdate(Shares6(t), k, Share6(e));
    assert Shares6(t[k := e]) == Shares6(t)[k := Share6(e)];
  }

  /** Entries that keep their share. */
  lemma SameShare4(t: Table<Member>, v6: Table<Plain>, k: nat, e: Entry<Member>)
    requires k < |t| && Share4(e) == Share4(t[k])
    ensures Groups(t[k := e], v6) == Groups(t, v6)
  {
    hide Share4, Total;
    Shares4Update(t, k, e);
    Keep(Total(Shares4(t[k := e])), Total(Shares4(t)), Share4(e));
  }

  lemma SameShare6(v4: Table<Member>, t: Table<Plain>, k: nat, e: Entry<Plain>)
    requires k < |t| && Share6(e) == Share6(t[k])
    ensures Groups(v4, t[k := e]) == Groups(v4, t)
  {
    hide Share6, Total;
    Shares6Update(t, k, e);
    Keep(Total(Shares6(t[k := e])), Total(Shares6(t)), Share6(e));
  }

  /** An entry that becomes live. */
  lemma NewShare4(t: Table<Member>, v6: Table<Plain>, k: nat, e: Entry<Member>)
    requires k < |t| && t[k].count == 0 && e.count > 0 && IsGroup4(e.addr)
    ensures Groups(t[k := e], v6) == Groups(t, v6) + multiset{Mac4(e.addr)}
  {
    hide Total;
    Shares4Update(t, k, e);
    Cancel(Total(Shares4(t[k := e])), Total(Shares4(t)), multiset{}, Mac4(e.addr));
  }

  lemma NewShare6(v4: Table<Member>, t: Table<Plain>, k: nat, e: Entry<Plain>)
    requires k < |t| && t[k].count == 0 && e.count > 0 && IsGroup6(e.addr)
    ensures Groups(v4, t[k := e]) == Groups(v4, t) + multiset{Mac6(e.addr)}
  {
    hide Total;
    Shares6Update(t, k, e);
    Cancel(Total(Shares6(t[k := e])), Total(Shares6(t)), multiset{}, Mac6(e.addr));
  }

  // ----- each operation keeps the invariant -----

  /** Everything but the counts, for a change to the group tables of interface `j`. */
  lemma OneInterface(s: Stack, r: Stack, physical: seq<nat>, j: nat)
    requires Invariant(s, physical) && Sized(r, physical) && j < |physical| && GoodTables(r, j) && CountsRight(r, physical)
    requires forall k :: 0 <= k < |physical| && k != j ==> r.v4[k] == s.v4[k] && r.v6[k] == s.v6[k] && Good(r.mac[k], MAC_NONE)
    requires forall m :: m in r.sent ==> m.group != ALL_SYSTEMS
    ensures Invariant(r, physical)
  {
    hide Good, GoodMember, CountsRight;
    forall k | 0 <= k < |physical| ensures GoodTables(r, k) {
      assert GoodTables(s, k);
    }
  }

  lemma TablesGood(s: Stack, physical: seq<nat>, i: nat)
    requires Invariant(s, physical) && i < |physical|
    ensures GoodTables(s, i) && forall k :: 0 <= k < |physical| ==> Good(s.mac[k], MAC_NONE)
  {
    hide Good, GoodMember, CountsRight;
    forall k | 0 <= k < |physical| ensures Good(s.mac[k], MAC_NONE) {
      assert GoodTables(s, k);
    }
    assert GoodTables(s, i);
  }

  lemma Join4Keeps(s: Stack, physical: seq<nat>, i: nat, g: Address, time: uint32)
    requires Invariant(s, physical) && i < |physical|
    ensures Invariant(Join4(s, physical, i, g, time).stack, physical)
  {
    hide CountsRight, AcceptBoth, Groups, Add;
    TablesGood(s, physical, i);
    var t := s.v4[i];
    var k, f := Find(t, g), FirstFree(t);
    var r := Join4(s, physical, i, g, time).stack;
    if r != s {
      if k < |t| {
        AcceptGood(t, g, IPV4_NONE);
        SameShare4(t, s.v6[i], k, t[k].(count := t[k].count + 1));
        CountsStay(s, r, physical);
      } else {
        NewShare4(t, s.v6[i], f, r.v4[i][f]);
        CountsFollowJoin(s, r, physical, i, Mac4(g));
        AcceptedIsGood(t, g, r.v4[i][f]);
      }
      OneInterface(s, r, physical, i);
    }
  }

  lemma {:induction false} AcceptedIsGood(t: Table<Member>, g: Address, e: Entry<Member>)
    requires Good(t, IPV4_NONE) && Find(t, g) == |t| && FirstFree(t) < |t| && e.addr == g && e.count > 0
    ensures Good(t[FirstFree(t) := e], IPV4_NONE)
  {
  }

  lemma Leave4Keeps(s: Stack, physical: seq<nat>, i: nat, g: Address)
    requires Invariant(s, physical) && i < |physical|
    ensures Invariant(Leave4(s, physical, i, g).stack, physical)
  {
    hide CountsRight, DropBoth, Groups;
    TablesGood(s, physical, i);
    var t := s.v4[i];
    var k := Find(t, g);
    var r := Leave4(s, physical, i, g).stack;
    if r != s {
      if t[k].count > 1 {
        DropGood(t, g, IPV4_NONE);
        SameShare4(t, s.v6[i], k, t[k].(count := t[k].count - 1));
        CountsStay(s, r, physical);
      } else {
        NewShare4(r.v4[i], s.v6[i], k, t[k]);
        assert r.v4[i][k := t[k]] == t;
        CountsFollowLeave(s, r, physical, i, Mac4(g));
      }
      OneInterface(s, r, physical, i);
    }
  }

  lemma Join6Keeps(s: Stack, physical: seq<nat>, i: nat, g: Address)
    requires Invariant(s, physical) && i < |physical|
    ensures Invariant(Join6(s, physical, i, g).stack, physical)
  {
    hide CountsRight, AcceptBoth, Groups, GoodMember;
    TablesGood(s, physical, i);
    var t := s.v6[i];
    var k, f := Find(t, g), FirstFree(t);
    var r := Join6(s, physical, i, g).stack;
    if r != s {
      AcceptGood(t, g, IPV6_NONE);
      if k < |t| {
        SameShare6(s.v4[i], t, k, t[k].(count := t[k].count + 1));
        CountsStay(s, r, physical);
      } else {
        NewShare6(s.v4[i], t, f, r.v6[i][f]);
        CountsFollowJoin(s, r, physical, i, Mac6(g));
      }
      OneInterface(s, r, physical, i);
    }
  }

  lemma Leave6Keeps(s: Stack, physical: seq<nat>, i: nat, g: Address)
    requires Invariant(s, physical) && i < |physical|
    ensures Invariant(Leave6(s, physical, i, g).stack, physical)
  {
    hide CountsRight, DropBoth, Groups, GoodMember;
    TablesGood(s, physical, i);
    var t := s.v6[i];
    var k := Find(t, g);
    var r := Leave6(s, physical, i, g).stack;
    if r != s {
      DropGood(t, g, IPV6_NONE);
      if t[k].count > 1 {
        SameShare6(s.v4[i], t, k, t[k].(count := t[k].count - 1));
        CountsStay(s, r, physical);
      } else {
        NewShare6(s.v4[i], r.v6[i], k, t[k]);
        assert r.v6[i][k := t[k]] == t;
        CountsFollowLeave(s, r, physical, i, Mac6(g));
      }
      OneInterface(s, r, physical, i);
    }
  }

  lemma ReactedGood(e: Entry<Member>, ev: IgmpEvent)
    requires GoodMember(e)
    ensures var d := Reacted(e, ev);
            && GoodMember(d) && d.addr == e.addr && d.count == e.count
            && (e.count > 0 && React(e, ev).report ==> e.addr != ALL_SYSTEMS)
  {
    hide Add, TimeCompare, Wrap, Delayed, MaxResponse;
  }

  /**
   Section 3 of RFC 2236: a query that concerns a membership leaves it with a report to come,
   within the time that the code derives from the query. This is within what the query allows,
   and for a version 2 query a tenth of it.
   */
  lemma QueryAnswered(e: Entry<Member>, max: byte, group: Address, time: uint32, random: map<Address, uint32>)
    requires GoodMember(e) && e.count > 0 && e.addr != ALL_SYSTEMS && (group == IPV4_NONE || group == e.addr)
    ensures var m := Reacted(e, Query(max, group, time, random)).info;
            && m.state == DelayingMember && TimeCompare(m.timer, time) <= MaxResponse(max) <= Allowed(max)
            && (max != 0 ==> 10 * MaxResponse(max) == Allowed(max))
  {
    var x := (if e.addr in random then random[e.addr] else 0) % (MaxResponse(max) + 1);
    Ahead(time, x);
    Behind(time, e.info.timer);
  }

  lemma Ahead(time: uint32, d: uint32)
    requires d < HALF
    ensures TimeCompare(Add(time, d), time) == d
  {
  }

  /** How the signed and the unsigned difference of two readings relate. */
  lemma Behind(time: uint32, timer: uint32)
    ensures TimeCompare(time, timer) < 0 ==> TimeCompare(timer, time) <= Wrap(timer - time)
    ensures TimeCompare(time, timer) >= 0 ==> TimeCompare(timer, time) <= 0
  {
  }

  lemma {:induction false} NoReportOfAll(i: nat, v1: bool, t: Table<Member>, ev: IgmpEvent)
    requires forall k :: 0 <= k < |t| ==> GoodMember(t[k])
    ensures forall m :: m in AllReports(i, v1, t, ev) ==> m.group != ALL_SYSTEMS
  {
    hide React, GoodMember;
    if t != [] {
      NoReportOfAll(i, v1, t[..|t| - 1], ev);
      ReactedGood(t[|t| - 1], ev);
    }
  }

  lemma IgmpKeeps(s: Stack, physical: seq<nat>, i: nat, ev: IgmpEvent)
    requires Invariant(s, physical) && i < |physical|
    ensures Invariant(Igmp(s, i, ev), physical)
  {
    hide CountsRight, React, Reacted, GoodMember, Groups, Heard;
    TablesGood(s, physical, i);
    var t, u, r := s.v4[i], ReactAll(s.v4[i], ev), Igmp(s, i, ev);
    forall k | 0 <= k < |t| ensures GoodMember(u[k]) && u[k].addr == t[k].addr && u[k].count == t[k].count {
      ReactedGood(t[k], ev);
    }
    NoReportOfAll(i, Heard(s.links[i], ev).v1, t, ev);
    SameGroups(t, u, s.v6[i]);
    CountsStay(s, r, physical);
    OneInterface(s, r, physical, i);
  }

  lemma SameGroups(t: Table<Member>, u: Table<Member>, v6: Table<Plain>)
    requires |u| == |t| && forall k :: 0 <= k < |t| ==> u[k].addr == t[k].addr && u[k].count == t[k].count
    ensures Groups(u, v6) == Groups(t, v6)
  {
    assert Shares4(u) == Shares4(t);
  }

  // ----- runs -----

  datatype Event =
    | DoJoin4(i: nat, group: Address, time: uint32)
    | DoLeave4(i: nat, group: Address)
    | DoJoin6(i: nat, group: Address)
    | DoLeave6(i: nat, group: Address)
    | DoIgmp(i: nat, event: IgmpEvent)

  function Step(s: Stack, physical: seq<nat>, ev: Event): Stack
    requires InBounds(s, physical, ev.i)
  {
    match ev
    case DoJoin4(i, g, time) => Join4(s, physical, i, g, time).stack
    case DoLeave4(i, g) => Leave4(s, physical, i, g).stack
    case DoJoin6(i, g) => Join6(s, physical, i, g).stack
    case DoLeave6(i, g) => Leave6(s, physical, i, g).stack
    case DoIgmp(i, e) => Igmp(s, i, e)
  }

  ghost function Run(s: Stack, physical: seq<nat>, events: seq<Event>): (r: Stack)
    requires Invariant(s, physical) && forall k :: 0 <= k < |events| ==> events[k].i < |physical|
    ensures Invariant(r, physical)
  {
    if events == [] then s
    else
      var t := Run(s, physical, events[..|events| - 1]);
      var ev := events[|events| - 1];
      StepKeeps(t, physical, ev);
      Step(t, physical, ev)
  }

  lemma StepKeeps(s: Stack, physical: seq<nat>, ev: Event)
    requires Invariant(s, physical) && ev.i < |physical|
    ensures Invariant(Step(s, physical, ev), physical)
  {
    hide CountsRight, GoodTables, Join4, Join6, Leave4, Leave6, Igmp;
    match ev
    case DoJoin4(i, g, time) => Join4Keeps(s, physical, i, g, time);
    case DoLeave4(i, g) => Leave4Keeps(s, physical, i, g);
    case DoJoin6(i, g) => Join6Keeps(s, physical, i, g);
    case DoLeave6(i, g) => Leave6Keeps(s, physical, i, g);
    case DoIgmp(i, e) => IgmpKeeps(s, physical, i, e);
  }

  /** The tables as they are before the first join. */
  predicate Fresh(s: Stack) {
    && |s.mac| == |s.v4| == |s.v6| == |s.links| && s.sent == []
    && (forall i, k :: 0 <= i < |s.mac| && 0 <= k < |s.mac[i]| ==> s.mac[i][k] == Entry(MAC_NONE, 0, Plain))
    && (forall i, k :: 0 <= i < |s.v4| && 0 <= k < |s.v4[i]| ==> s.v4[i][k] == Entry(IPV4_NONE, 0, Member(NonMember, false, 0)))
    && (forall i, k :: 0 <= i < |s.v6| && 0 <= k < |s.v6[i]| ==> s.v6[i][k] == Entry(IPV6_NONE, 0, Plain))
  }

  lemma FreshInvariant(s: Stack, physical: seq<nat>)
    requires Fresh(s) && Sized(s, physical)
    ensures Invariant(s, physical)
  {
    hide Refs, Groups, GoodTables, Fresh, Total;
    forall j | 0 <= j < |physical| ensures Groups(s.v4[j], s.v6[j]) == multiset{} {
      NoGroups(s, j);
    }
    forall i | 0 <= i < |physical| ensures Refs(s.mac[i]) == Wanted(s, physical, i) && GoodTables(s, i) {
      NoReferences(s, i);
      TotalNothing(Parts(s, physical, i));
    }
    NothingSent(s);
  }

  lemma NoGroups(s: Stack, j: nat)
    requires Fresh(s) && j < |s.v4|
    ensures Groups(s.v4[j], s.v6[j]) == multiset{}
  {
    TotalNothing(Shares4(s.v4[j]));
    TotalNothing(Shares6(s.v6[j]));
  }

  lemma NoReferences(s: Stack, i: nat)
    requires Fresh(s) && i < |s.mac|
    ensures Refs(s.mac[i]) == multiset{} && GoodTables(s, i)
  {
    TotalNothing(Counts(s.mac[i]));
  }

  lemma NothingSent(s: Stack)
    requires Fresh(s)
    ensures s.sent == []
  {
  }

  /**
   Over any run of joins, leaves, link changes, timers, queries and reports, with full
   tables and failed joins included, every MAC filter counts each address exactly as often
   as there are live groups that map to it on the interface and on the virtual ones over it;
   an IPv4 entry is live exactly when its host state is not Non-Member; and 224.0.0.1 is
   Idle wherever it is joined and never reported.
   */
  lemma {:induction false} Membership(s: Stack, physical: seq<nat>, events: seq<Event>)
    requires Fresh(s) && Sized(s, physical) && forall k :: 0 <= k < |events| ==> events[k].i < |physical|
    ensures Invariant(s, physical)
    ensures var r := Run(s, physical, events);
            && Sized(r, physical)
            && (forall i :: 0 <= i < |physical| ==> Refs(r.mac[i]) == Wanted(r, physical, i))
            && (forall i, k :: 0 <= i < |physical| && 0 <= k < |r.v4[i]| ==>
                  var e := r.v4[i][k];
                  && (e.count > 0 <==> e.info.state != NonMember)
                  && (e.count > 0 && e.addr == ALL_SYSTEMS ==> e.info.state == IdleMember))
            && (forall m :: m in r.sent ==> m.group != ALL_SYSTEMS)
  {
    hide Fresh, Wanted, Refs;
    FreshInvariant(s, physical);
    var r := Run(s, physical, events);
    forall i | 0 <= i < |physical| ensures forall k :: 0 <= k < |r.v4[i]| ==> GoodMember(r.v4[i][k]) {
      TablesGood(r, physical, i);
    }
  }

  /** A live group of the table maps to the MAC address. */
  ghost predicate Maps4(t: Table<Member>, a: Address) {
    exists k :: 0 <= k < |t| && a in Share4(t[k])
  }

  ghost predicate Maps6(t: Table<Plain>, a: Address) {
    exists k :: 0 <= k < |t| && a in Share6(t[k])
  }

  ghost predicate Maps(s: Stack, j: nat, a: Address)
    requires j < |s.v4| && j < |s.v6|
  {
    Maps4(s.v4[j], a) || Maps6(s.v6[j], a)
  }

  lemma InGroups(s: Stack, j: nat, a: Address)
    requires j < |s.v4| && j < |s.v6|
    ensures a in Groups(s.v4[j], s.v6[j]) <==> Maps(s, j, a)
  {
    hide Share4, Share6, Total;
    InTotal(Shares4(s.v4[j]), a);
    InTotal(Shares6(s.v6[j]), a);
  }

  /** A multicast frame gets past the MAC filter exactly when some group that counts on the interface maps to its address. */
  lemma {:induction false} FilterExactly(s: Stack, physical: seq<nat>, i: nat, a: Address)
    requires Invariant(s, physical) && i < |physical|
    ensures Find(s.mac[i], a) < |s.mac[i]| <==> exists j :: 0 <= j < |physical| && Under(physical, i, j) && Maps(s, j, a)
  {
    hide Refs, Groups, Maps, GoodTables;
    FoundExactly(s.mac[i], a);
    InTotal(Parts(s, physical, i), a);
    forall j | 0 <= j < |physical| ensures a in Groups(s.v4[j], s.v6[j]) <==> Maps(s, j, a) {
      InGroups(s, j, a);
    }
    if j :| 0 <= j < |physical| && Under(physical, i, j) && Maps(s, j, a) {
      assert a in Parts(s, physical, i)[j];
    }
  }

  /** There is room for a reference to `a` in a MAC filter. */
  ghost predicate HasRoom(t: Table<Plain>, a: Address) {
    a in Refs(t) || exists k :: 0 <= k < |t| && t[k].count == 0
  }

  /**
   Exactly when a join fails, and that it then changes nothing, not even the filter of the
   virtual interface when it is the one of the physical interface that is full.
   */
  lemma {:induction false} FailedJoin(s: Stack, physical: seq<nat>, i: nat, g: Address, time: uint32)
    requires Invariant(s, physical) && i < |physical| && IsGroup4(g)
    ensures var r := Join4(s, physical, i, g, time);
            && (!r.ok ==> r.stack == s)
            && (r.ok <==> || Find(s.v4[i], g) < |s.v4[i]|
                          || ((exists k :: 0 <= k < |s.v4[i]| && s.v4[i][k].count == 0)
                              && HasRoom(s.mac[i], Mac4(g)) && HasRoom(s.mac[physical[i]], Mac4(g))))
  {
    hide Good, GoodMember, CountsRight, Refs;
    TablesGood(s, physical, i);
    AcceptRefs(s.mac[i], Mac4(g), MAC_NONE);
    AcceptRefs(s.mac[physical[i]], Mac4(g), MAC_NONE);
  }

  /** The same for an IPv6 join. */
  lemma {:induction false} FailedJoin6(s: Stack, physical: seq<nat>, i: nat, g: Address)
    requires Invariant(s, physical) && i < |physical| && IsGroup6(g)
    ensures var r := Join6(s, physical, i, g);
            && (!r.ok ==> r.stack == s)
            && (r.ok <==> || Find(s.v6[i], g) < |s.v6[i]|
                          || ((exists k :: 0 <= k < |s.v6[i]| && s.v6[i][k].count == 0)
                              && HasRoom(s.mac[i], Mac6(g)) && HasRoom(s.mac[physical[i]], Mac6(g))))
  {
    hide Good, GoodMember, CountsRight, Refs;
    TablesGood(s, physical, i);
    AcceptRefs(s.mac[i], Mac6(g), MAC_NONE);
    AcceptRefs(s.mac[physical[i]], Mac6(g), MAC_NONE);
  }

  /** Leaving undoes joining: the MAC filters and the counts are as before. */
  lemma JoinLeave6(s: Stack, physical: seq<nat>, i: nat, g: Address)
    requires Invariant(s, physical) && i < |physical| && Join6(s, physical, i, g).ok
    ensures Leave6(Join6(s, physical, i, g).stack, physical, i, g) == Joined(s, true)
  {
    hide Good, Accept, Drop, GoodMember, CountsRight;
    TablesGood(s, physical, i);
    var t, a := s.v6[i], Mac6(g);
    var r := Join6(s, physical, i, g).stack;
    AcceptDrop(t, g, IPV6_NONE);
    Joined6(t, g);
    if Find(t, g) == |t| {
      UndoBoth(s.mac, i, physical[i], a);
    }
    assert r.v6[i := t] == s.v6;
  }

  lemma {:induction false} Joined6(t: Table<Plain>, g: Address)
    requires Good(t, IPV6_NONE) && Accept(t, g).Some?
    ensures var u := Accept(t, g).value;
            && |u| == |t| && Find(u, g) < |u|
            && (Find(t, g) < |t| <==> u[Find(u, g)].count > 1)
  {
    var u := Accept(t, g).value;
    AcceptGood(t, g, IPV6_NONE);
    FindUnique(u, g, IPV6_NONE, if Find(t, g) < |t| then Find(t, g) else FirstFree(t));
  }

  lemma UndoBoth(mac: seq<Table<Plain>>, i: nat, p: nat, a: Address)
    requires i < |mac| && p < |mac| && AcceptBoth(mac, i, p, a).Some? && Good(mac[i], MAC_NONE) && Good(mac[p], MAC_NONE)
    ensures DropBoth(AcceptBoth(mac, i, p, a).value, i, p, a) == mac
  {
    hide Good, Accept, Drop;
    AcceptDrop(mac[i], a, MAC_NONE);
    AcceptDrop(mac[p], a, MAC_NONE);
  }

  // ----- version 1 routers, section 4 of RFC 2236 -----

  predicate V1Query(ev: Event, i: nat) {
    ev.DoIgmp? && ev.i == i && ev.event.Query? && ev.event.maxRespTime == 0
  }

  /** The event ends the presence of a version 1 router that was heard at `heard`. */
  predicate EndsV1(ev: Event, i: nat, heard: uint32) {
    && ev.DoIgmp? && ev.i == i
    && (|| (ev.event.LinkChange? && ev.event.up)
        || (ev.event.Timer? && TimeCompare(ev.event.time, Add(heard, V1_ROUTER_PRESENT_TIMEOUT)) >= 0))
  }

  /** When the query was heard. */
  function HeardAt(events: seq<Event>, j: nat): uint32 {
    if j < |events| && events[j].DoIgmp? && events[j].event.Query? then events[j].event.time else 0
  }

  /** The last version 1 query is event `j`, and nothing after it has ended the presence of its router. */
  ghost predicate LastHeard(events: seq<Event>, i: nat, j: nat) {
    && j < |events| && V1Query(events[j], i)
    && forall k: nat | j < k < |events| :: !V1Query(events[k], i) && !EndsV1(events[k], i, HeardAt(events, j))
  }

  lemma HeardSnoc(events: seq<Event>, ev: Event, i: nat, j: nat)
    ensures LastHeard(events + [ev], i, j) <==>
              if j == |events| then V1Query(ev, i)
              else LastHeard(events, i, j) && !V1Query(ev, i) && !EndsV1(ev, i, HeardAt(events, j))
    ensures LastHeard(events, i, j) ==> j < |events|
    ensures LastHeard(events + [ev], i, j) && j < |events| ==> HeardAt(events + [ev], j) == HeardAt(events, j)
  {
    var all := events + [ev];
    if j < |events| {
      assert all[j] == events[j] && all[|events|] == ev;
      assert forall k: nat | j < k < |events| :: all[k] == events[k];
      if LastHeard(all, i, j) {
        assert forall k: nat | j < k < |events| :: !V1Query(all[k], i) && !EndsV1(all[k], i, HeardAt(all, j));
      }
    }
  }

  lemma StepHears(s: Stack, physical: seq<nat>, ev: Event, i: nat, heard: uint32)
    requires InBounds(s, physical, ev.i) && i < |physical|
    ensures |Step(s, physical, ev).links| == |s.links|
    ensures var l, m := s.links[i], Step(s, physical, ev).links[i];
            && (V1Query(ev, i) ==> m.v1 && m.v1Timer == Add(HeardAt([ev], 0), V1_ROUTER_PRESENT_TIMEOUT))
            && (!V1Query(ev, i) && !l.v1 ==> !m.v1)
            && (!V1Query(ev, i) && l.v1 && l.v1Timer == Add(heard, V1_ROUTER_PRESENT_TIMEOUT) ==>
                  (m.v1 <==> !EndsV1(ev, i, heard)) && (m.v1 ==> m.v1Timer == l.v1Timer))
  {
    hide Add, TimeCompare, AcceptBoth, DropBoth, ReactAll, AllReports;
  }

  /**
   An interface takes a version 1 router to be present, over any run, exactly when it has
   heard a version 1 query, and since the last one the link has not come up and no timer has
   found 400 seconds to be over.
   */
  lemma {:induction false} RouterPresent(s: Stack, physical: seq<nat>, events: seq<Event>, i: nat)
    requires Invariant(s, physical) && i < |physical| && !s.links[i].v1
    requires forall k :: 0 <= k < |events| ==> events[k].i < |physical|
    ensures Run(s, physical, events).links[i].v1 <==> exists j: nat :: LastHeard(events, i, j)
    ensures forall j: nat :: Run(s, physical, events).links[i].v1 && LastHeard(events, i, j) ==>
              Run(s, physical, events).links[i].v1Timer == Add(HeardAt(events, j), V1_ROUTER_PRESENT_TIMEOUT)
  {
    hide Invariant, Step, V1Query, EndsV1, LastHeard;
    if events == [] {
      NoneHeard(i);
    } else {
      var n := |events| - 1;
      var before, ev := events[..n], events[n];
      RouterPresent(s, physical, before, i);
      var t := Run(s, physical, before);
      RunSized(t, physical);
      StepHears(t, physical, ev, i, 0);
      assert before + [ev] == events;
      forall j: nat
        ensures LastHeard(events, i, j) <==>
                  if j == n then V1Query(ev, i)
                  else LastHeard(before, i, j) && !V1Query(ev, i) && !EndsV1(ev, i, HeardAt(before, j))
        ensures LastHeard(before, i, j) ==> j < n
        ensures LastHeard(events, i, j) && j != n ==> HeardAt(events, j) == HeardAt(before, j)
      {
        HeardSnoc(before, ev, i, j);
      }
      var m := Step(t, physical, ev).links[i];
      if V1Query(ev, i) {
        assert LastHeard(events, i, n) && HeardAt(events, n) == HeardAt([ev], 0);
      } else if t.links[i].v1 {
        forall j: nat | LastHeard(before, i, j)
          ensures m.v1 <==> LastHeard(events, i, j)
          ensures m.v1 ==> m.v1Timer == t.links[i].v1Timer
        {
          StepHears(t, physical, ev, i, HeardAt(before, j));
        }
        var j: nat :| LastHeard(before, i, j);
        assert m.v1 <==> LastHeard(events, i, j);
      }
    }
  }

  lemma NoneHeard(i: nat)
    ensures forall j: nat :: !LastHeard([], i, j)
  {
  }

  lemma RunSized(s: Stack, physical: seq<nat>)
    requires Invariant(s, physical)
    ensures Sized(s, physical)
  {
  }

  /** While a version 1 router is present, every report is a version 1 report and no leave message is sent. */
  lemma SentFormat(s: Stack, physical: seq<nat>, ev: Event)
    requires Sized(s, physical) && ev.i < |physical|
    ensures var r := Step(s, physical, ev);
            && s.sent <= r.sent
            && forall k :: |s.sent| <= k < |r.sent| ==>
                 var m := r.sent[k];
                 && m.interface == ev.i
                 && (m.Report? ==> m.v1 == r.links[ev.i].v1) && (m.LeaveGroup? ==> !r.links[ev.i].v1)
  {
    hide Add, TimeCompare, AcceptBoth, DropBoth, ReactAll, Heard, React;
    if ev.DoIgmp? {
      ReportsFormat(ev.i, Heard(s.links[ev.i], ev.event).v1, s.v4[ev.i], ev.event);
    }
  }

  lemma {:induction false} ReportsFormat(i: nat, v1: bool, t: Table<Member>, ev: IgmpEvent)
    ensures forall m :: m in AllReports(i, v1, t, ev) ==> m.Report? && m.interface == i && m.v1 == v1
  {
    if t != [] {
      ReportsFormat(i, v1, t[..|t| - 1], ev);
    }
  }
}
