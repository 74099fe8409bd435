/**
 What an IGMP host has to send, section 3 of RFC 2236: which reports and leave messages go out
 on which event, and that every query and every join is answered by a report in time.
 */
module MulticastReports {
  import opened Bytes
  import opened SystemTime
  import opened RefTable
  import opened Multicast
  import opened MulticastRuns

  predicate IsMember(s: Stack, i: nat, g: Address)
    requires i < |s.v4|
  {
    Find(s.v4[i], g) < |s.v4[i]|
  }

  function InfoOf(s: Stack, i: nat, g: Address): Member
    requires i < |s.v4| && IsMember(s, i, g)
  {
    s.v4[i][Find(s.v4[i], g)].info
  }

  /** The membership waits to report, and its timer reads `time`. */
  predicate Delaying(s: Stack, i: nat, g: Address, timer: uint32)
    requires i < |s.v4|
  {
    IsMember(s, i, g) && InfoOf(s, i, g).state == DelayingMember && InfoOf(s, i, g).timer == timer
  }

  // ----- one event -----

  /** The events on which a member of a group reports: its timer expires, or the link comes up. */
  predicate Announces(s: Stack, i: nat, g: Address, ev: IgmpEvent)
    requires i < |s.v4|
  {
    && IsMember(s, i, g) && g != ALL_SYSTEMS
    && match ev
       case Timer(time) => InfoOf(s, i, g).state == DelayingMember && TimeCompare(time, InfoOf(s, i, g).timer) >= 0
       case LinkChange(up, time) => up
       case Query(max, group, time, random) => false
       case OtherReport(group) => false
  }

  lemma ReportOfEntry(e: Entry<Member>, ev: IgmpEvent)
    requires GoodMember(e) && e.count > 0
    ensures React(e, ev).report <==>
              && e.addr != ALL_SYSTEMS
              && match ev
                 case Timer(time) => e.info.state == DelayingMember && TimeCompare(time, e.info.timer) >= 0
                 case LinkChange(up, time) => up
                 case Query(max, group, time, random) => false
                 case OtherReport(group) => false
  {
    hide Add, TimeCompare, Wrap, Delayed, MaxResponse;
  }

  lemma {:induction false} FindSnoc(t: Table<Member>, e: Entry<Member>, g: Address)
    ensures Find(t + [e], g) == if Find(t, g) < |t| then Find(t, g) else if e.count > 0 && e.addr == g then |t| else |t| + 1
  {
    var k := Find(t + [e], g);
    assert forall j :: 0 <= j < |t| ==> (t + [e])[j] == t[j];
    assert (t + [e])[|t|] == e;
    assert k < |t| ==> k == Find(t, g);
  }

  lemma {:induction false} CountReports(i: nat, v1: bool, t: Table<Member>, ev: IgmpEvent, g: Address)
    requires Good(t, IPV4_NONE)
    ensures var k := Find(t, g);
            multiset(AllReports(i, v1, t, ev))[Report(i, g, v1)] == if k < |t| && React(t[k], ev).report then 1 else 0
  {
    hide React, Find;
    if t != [] {
      var n := |t| - 1;
      var before, e := t[..n], t[n];
      CountReports(i, v1, before, ev, g);
      assert before + [e] == t;
      FindSnoc(before, e, g);
      if Find(before, g) < n {
        assert t[Find(before, g)] == before[Find(before, g)];
      }
      assert multiset(Reports(i, v1, e, ev))[Report(i, g, v1)] == if e.count > 0 && e.addr == g && React(e, ev).report then 1 else 0;
    }
  }

  /**
   Exactly which reports an event makes an interface send: one for each group that is to be
   announced, in the version of the router on the link, and nothing else.
   */
  lemma {:induction false} ReportsExactly(s: Stack, physical: seq<nat>, i: nat, ev: IgmpEvent, g: Address)
    requires Invariant(s, physical) && i < |physical|
    ensures var r := Step(s, physical, DoIgmp(i, ev));
            && s.sent <= r.sent
            && multiset(r.sent[|s.sent|..])[Report(i, g, r.links[i].v1)] == (if Announces(s, i, g, ev) then 1 else 0)
            && forall m :: m in r.sent[|s.sent|..] ==> m == Report(i, m.group, r.links[i].v1)
  {
    hide Good, GoodMember, CountsRight, React, Heard, ReactAll, AllReports;
    TablesGood(s, physical, i);
    var t, v1 := s.v4[i], Heard(s.links[i], ev).v1;
    CountReports(i, v1, t, ev, g);
    ReportsFormat(i, v1, t, ev);
    var k := Find(t, g);
    if k < |t| {
      ReportOfEntry(t[k], ev);
    }
    assert Step(s, physical, DoIgmp(i, ev)).sent[|s.sent|..] == AllReports(i, v1, t, ev);
  }

  /** A query concerns the membership: it is a general one, or for this group. */
  predicate Concerns(ev: IgmpEvent, g: Address) {
    ev.Query? && g != ALL_SYSTEMS && (ev.group == IPV4_NONE || ev.group == g)
  }

  /** The state diagram of section 6 of RFC 2236, for a member of a group other than 224.0.0.1. */
  lemma {:induction false} StateDiagram(s: Stack, physical: seq<nat>, i: nat, ev: IgmpEvent, g: Address)
    requires Invariant(s, physical) && i < |physical| && IsMember(s, i, g) && g != ALL_SYSTEMS
    ensures var r := Step(s, physical, DoIgmp(i, ev));
            && IsMember(r, i, g)
            && var m, n := InfoOf(s, i, g), InfoOf(r, i, g);
               && (ev.Timer? ==> n == if Announces(s, i, g, ev) then Member(IdleMember, true, m.timer) else m)
               && (ev.LinkChange? && ev.up ==> n == Member(DelayingMember, true, Add(ev.time, 10000)))
               && (ev.LinkChange? && !ev.up ==> n == Member(IdleMember, false, m.timer))
               && (ev.OtherReport? ==>
                     n == if m.state == DelayingMember && ev.group == g then Member(IdleMember, false, m.timer) else m)
               && (ev.Query? ==> n.flag == m.flag && (!Concerns(ev, g) ==> n == m))
               && (Concerns(ev, g) ==> n.state == DelayingMember)
  {
    hide Good, CountsRight, Add, TimeCompare, Wrap, Delayed, MaxResponse, AllReports, Heard, ReactAll;
    TablesGood(s, physical, i);
    var t, k := s.v4[i], Find(s.v4[i], g);
    var u := ReactAll(t, ev);
    assert GoodMember(t[k]);
    SameFind(t, u, g);
  }

  lemma {:induction false} SameFind(t: Table<Member>, u: Table<Member>, g: Address)
    requires |u| == |t| && forall k :: 0 <= k < |t| ==> u[k].addr == t[k].addr && u[k].count == t[k].count
    ensures Find(u, g) == Find(t, g)
  {
  }

  /** How a query sets the timer: to the chosen delay when no report is due before the time to answer is over. */
  lemma {:induction false} QueryTimer(s: Stack, physical: seq<nat>, i: nat, ev: IgmpEvent, g: Address, t: nat, d: nat)
    requires Invariant(s, physical) && i < |physical| && Concerns(ev, g) && IsMember(s, i, g) && ev.time == Wrap(t)
    requires InfoOf(s, i, g).state == DelayingMember ==> InfoOf(s, i, g).timer == Wrap(d) && t - HALF < d < t + HALF
    ensures var r, m := Step(s, physical, DoIgmp(i, ev)), InfoOf(s, i, g);
            var x := (if g in ev.random then ev.random[g] else 0) % (MaxResponse(ev.maxRespTime) + 1);
            if m.state == IdleMember || t + MaxResponse(ev.maxRespTime) < d
            then Delaying(r, i, g, Wrap(t + x)) else Delaying(r, i, g, m.timer)
  {
    hide Good, CountsRight, Add, TimeCompare, Wrap, MaxResponse, AllReports, Heard, ReactAll;
    TablesGood(s, physical, i);
    var tab, k := s.v4[i], Find(s.v4[i], g);
    var u := ReactAll(tab, ev);
    assert GoodMember(tab[k]);
    SameFind(tab, u, g);
    var x := (if g in ev.random then ev.random[g] else 0) % (MaxResponse(ev.maxRespTime) + 1);
    WrapAdd(t, x);
    if InfoOf(s, i, g).state == DelayingMember {
      Compares(t, d);
      if t < d {
        Ahead32(t, d);
      }
    }
  }

  lemma Ahead32(t: nat, d: nat)
    requires t < d < t + HALF
    ensures Wrap(Wrap(d) - Wrap(t)) == d - t
  {
    WrapDiff(d, t);
  }

  /** Joining a group for the first time is announced at once, and the timer for a second report is set. */
  lemma {:induction false} JoinReports(s: Stack, physical: seq<nat>, i: nat, g: Address, time: uint32)
    requires Invariant(s, physical) && i < |physical| && Join4(s, physical, i, g, time).ok
    ensures var r, announced := Join4(s, physical, i, g, time).stack, !IsMember(s, i, g) && s.links[i].up && g != ALL_SYSTEMS;
            && IsMember(r, i, g)
            && r.sent == s.sent + (if announced then [Report(i, g, s.links[i].v1)] else [])
            && (announced ==> InfoOf(r, i, g) == Member(DelayingMember, true, Add(time, 10000)))
            && (IsMember(s, i, g) ==> InfoOf(r, i, g) == InfoOf(s, i, g))
            && (!IsMember(s, i, g) && !announced ==> InfoOf(r, i, g).state == IdleMember && !InfoOf(r, i, g).flag)
  {
    hide CountsRight, GoodMember, AcceptBoth, Add;
    TablesGood(s, physical, i);
    var t, r := s.v4[i], Join4(s, physical, i, g, time).stack;
    var k := if Find(t, g) < |t| then Find(t, g) else FirstFree(t);
    Join4Keeps(s, physical, i, g, time);
    TablesGood(r, physical, i);
    FindUnique(r.v4[i], g, IPV4_NONE, k);
  }

  /**
   The last leave of a group is announced, exactly when the link is up, the host was the last
   one to report the group, and no version 1 router is present.
   */
  lemma {:induction false} LeaveReports(s: Stack, physical: seq<nat>, i: nat, g: Address)
    requires Invariant(s, physical) && i < |physical| && IsMember(s, i, g)
    ensures var r, last := Leave4(s, physical, i, g), s.v4[i][Find(s.v4[i], g)].count == 1;
            && r.ok
            && r.stack.sent == s.sent + if last && s.links[i].up && InfoOf(s, i, g).flag && !s.links[i].v1
                                        then [LeaveGroup(i, g)] else []
  {
    hide CountsRight, DropBoth;
    TablesGood(s, physical, i);
    assert GoodMember(s.v4[i][Find(s.v4[i], g)]);
  }

  // ----- a report in time -----

  /** An event, and the time at which it happens. */
  datatype At = At(t: nat, ev: Event) {
    /** The clock reads the time of the event. */
    predicate Clocked() {
      match ev
      case DoJoin4(i, g, time) => time == Wrap(t)
      case DoIgmp(i, e) => e.OtherReport? || e.time == Wrap(t)
      case _ => true
    }
  }

  function Events(ats: seq<At>): (evs: seq<Event>)
    ensures |evs| == |ats| && forall k :: 0 <= k < |ats| ==> evs[k] == ats[k].ev
  {
    seq(|ats|, k requires 0 <= k < |ats| => ats[k].ev)
  }

  /** The events happen in order, from `from` on and before `end`. */
  predicate InOrder(from: nat, ats: seq<At>, end: nat) {
    && (forall k :: 0 <= k < |ats| ==> ats[k].Clocked() && from <= ats[k].t < end)
    && (forall j, k :: 0 <= j < k < |ats| ==> ats[j].t <= ats[k].t)
  }

  /** Nothing ends or quiets the membership: no leave, no loss of the link, no report of another host. */
  predicate Quiet(ev: Event, i: nat, g: Address) {
    && ev != DoLeave4(i, g)
    && !(ev.DoIgmp? && ev.i == i && (ev.event == OtherReport(g) || (ev.event.LinkChange? && !ev.event.up)))
  }

  /** A report for the group has been sent on the interface since there were `n` messages. */
  ghost predicate Reported(s: Stack, n: nat, i: nat, g: Address) {
    exists k :: n <= k < |s.sent| && s.sent[k].Report? && s.sent[k].interface == i && s.sent[k].group == g
  }

  /** A report is due, between `from` and `d`. */
  ghost predicate DueBy(s: Stack, i: nat, g: Address, from: nat, d: nat)
    requires i < |s.v4|
  {
    exists e: nat :: from <= e <= d && Delaying(s, i, g, Wrap(e))
  }

  /** A table in which the entry of the group is live and unchanged. */
  lemma {:induction false} StillMember(s: Stack, r: Stack, physical: seq<nat>, i: nat, g: Address)
    requires Invariant(r, physical) && |s.v4| == |physical| && i < |physical| && IsMember(s, i, g)
    requires var k := Find(s.v4[i], g);
             k < |r.v4[i]| && r.v4[i][k].addr == g && r.v4[i][k].count > 0 && r.v4[i][k].info == s.v4[i][k].info
    ensures IsMember(r, i, g) && InfoOf(r, i, g) == InfoOf(s, i, g)
  {
    hide CountsRight, GoodMember;
    TablesGood(r, physical, i);
    FindUnique(r.v4[i], g, IPV4_NONE, Find(s.v4[i], g));
  }

  lemma {:induction false} JoinKeeps(s: Stack, physical: seq<nat>, j: nat, h: Address, time: uint32, i: nat, g: Address)
    requires Invariant(s, physical) && j < |physical| && i < |physical| && IsMember(s, i, g)
    ensures var r := Join4(s, physical, j, h, time).stack; IsMember(r, i, g) && InfoOf(r, i, g) == InfoOf(s, i, g)
  {
    hide CountsRight, AcceptBoth, NewMember, GoodTables;
    Join4Keeps(s, physical, j, h, time);
    StillMember(s, Join4(s, physical, j, h, time).stack, physical, i, g);
  }

  lemma {:induction false} LeaveKeeps(s: Stack, physical: seq<nat>, j: nat, h: Address, i: nat, g: Address)
    requires Invariant(s, physical) && j < |physical| && i < |physical| && IsMember(s, i, g) && (j != i || h != g)
    ensures var r := Leave4(s, physical, j, h).stack; IsMember(r, i, g) && InfoOf(r, i, g) == InfoOf(s, i, g)
  {
    hide CountsRight, DropBoth, GoodTables;
    Leave4Keeps(s, physical, j, h);
    StillMember(s, Leave4(s, physical, j, h).stack, physical, i, g);
  }

  /** Other operations leave the membership as it is. */
  lemma {:induction false} OthersKeep(s: Stack, physical: seq<nat>, ev: Event, i: nat, g: Address)
    requires Invariant(s, physical) && ev.i < |physical| && i < |physical| && IsMember(s, i, g)
    requires ev != DoLeave4(i, g) && !(ev.DoIgmp? && ev.i == i)
    ensures var r := Step(s, physical, ev); |r.v4| == |s.v4| && IsMember(r, i, g) && InfoOf(r, i, g) == InfoOf(s, i, g)
  {
    hide CountsRight, AcceptBoth, DropBoth, AllReports, ReactAll, Heard, GoodTables, Join4, Leave4;
    StepKeeps(s, physical, ev);
    match ev
    case DoJoin4(j, h, time) => JoinKeeps(s, physical, j, h, time, i, g);
    case DoLeave4(j, h) => LeaveKeeps(s, physical, j, h, i, g);
    case DoJoin6(j, h) =>
    case DoLeave6(j, h) =>
    case DoIgmp(j, e) =>
  }

  lemma {:induction false} SentGrows(s: Stack, physical: seq<nat>, ev: Event, n: nat, i: nat, g: Address)
    requires Invariant(s, physical) && ev.i < |physical| && Reported(s, n, i, g)
    ensures Reported(Step(s, physical, ev), n, i, g)
  {
    hide Step, CountsRight, GoodTables;
    SentFormat(s, physical, ev);
    var k :| n <= k < |s.sent| && s.sent[k].Report? && s.sent[k].interface == i && s.sent[k].group == g;
    assert Step(s, physical, ev).sent[k] == s.sent[k];
  }

  lemma {:induction false} NewlyReported(s: Stack, physical: seq<nat>, i: nat, ev: IgmpEvent, n: nat, g: Address)
    requires Invariant(s, physical) && i < |physical| && n <= |s.sent| && Announces(s, i, g, ev)
    ensures Reported(Step(s, physical, DoIgmp(i, ev)), n, i, g)
  {
    hide Step, CountsRight, GoodTables, Announces;
    StepKeeps(s, physical, DoIgmp(i, ev));
    ReportsExactly(s, physical, i, ev, g);
    var r := Step(s, physical, DoIgmp(i, ev));
    var latest, m := r.sent[|s.sent|..], Report(i, g, r.links[i].v1);
    assert m in multiset(latest);
    var k :| 0 <= k < |latest| && latest[k] == m;
    assert r.sent[|s.sent| + k] == m;
  }

  /** One quiet event: the report is still due, or has been sent; a timer from `d` on sends it. */
  lemma {:induction false} QuietStep(s: Stack, physical: seq<nat>, a: At, n: nat, i: nat, g: Address, from: nat, d: nat)
    requires Invariant(s, physical) && a.ev.i < |physical| && i < |physical| && n <= |s.sent| && g != ALL_SYSTEMS
    requires DueBy(s, i, g, from, d) && d < from + HALF && from <= a.t < from + HALF && a.Clocked() && Quiet(a.ev, i, g)
    ensures var r := Step(s, physical, a.ev);
            && |r.v4| == |physical|
            && (Reported(r, n, i, g) || DueBy(r, i, g, from, d))
            && (a.ev.DoIgmp? && a.ev.i == i && a.ev.event.Timer? && a.t >= d ==> Reported(r, n, i, g))
  {
    hide CountsRight, GoodTables, Step, Reported, TimeCompare, Wrap, MaxResponse, Add;
    var e: nat :| from <= e <= d && Delaying(s, i, g, Wrap(e));
    StepKeeps(s, physical, a.ev);
    if a.ev.DoIgmp? && a.ev.i == i {
      var ev := a.ev.event;
      StateDiagram(s, physical, i, ev, g);
      if ev.Timer? {
        Compares(a.t, e);
      }
      if Announces(s, i, g, ev) {
        NewlyReported(s, physical, i, ev, n, g);
      } else if Concerns(ev, g) {
        QueryTimer(s, physical, i, ev, g, a.t, e);
        var x := (if g in ev.random then ev.random[g] else 0) % (MaxResponse(ev.maxRespTime) + 1);
        assert a.t + MaxResponse(ev.maxRespTime) < e ==> from <= a.t + x <= d;
      }
    } else {
      OthersKeep(s, physical, a.ev, i, g);
    }
  }

  /**
   A membership that waits to report at `d` has reported once a timer has found `d` to be over,
   whatever happens in between, if nothing ends or quiets it.
   */
  lemma {:induction false} ReportedInTime(s: Stack, physical: seq<nat>, ats: seq<At>, i: nat, g: Address, from: nat, d: nat)
    requires Invariant(s, physical) && i < |physical| && g != ALL_SYSTEMS && DueBy(s, i, g, from, d) && d < from + HALF
    requires InOrder(from, ats, from + HALF) && forall k :: 0 <= k < |ats| ==> ats[k].ev.i < |physical| && Quiet(ats[k].ev, i, g)
    ensures var r := Run(s, physical, Events(ats));
            && |r.v4| == |physical| && |s.sent| <= |r.sent|
            && (Reported(r, |s.sent|, i, g) || DueBy(r, i, g, from, d))
            && ((exists k :: 0 <= k < |ats| && ats[k].t >= d && ats[k].ev.DoIgmp? && ats[k].ev.i == i && ats[k].ev.event.Timer?)
                ==> Reported(r, |s.sent|, i, g))
  {
    hide CountsRight, GoodTables, Step, Reported, DueBy, Quiet;
    if ats != [] {
      var n := |ats| - 1;
      var before := ats[..n];
      ReportedInTime(s, physical, before, i, g, from, d);
      assert Events(ats)[..n] == Events(before);
      var t := Run(s, physical, Events(before));
      SentFormat(t, physical, ats[n].ev);
      assert forall k :: 0 <= k < n ==> before[k] == ats[k];
      if Reported(t, |s.sent|, i, g) {
        StepKeeps(t, physical, ats[n].ev);
        SentGrows(t, physical, ats[n].ev, |s.sent|, i, g);
      } else {
        QuietStep(t, physical, ats[n], |s.sent|, i, g, from, d);
      }
    }
  }

  /**
   A query is answered: the first timer that finds the time to answer to be over has sent a report
   for every membership that the query concerns, unless the group was left, the link lost, or
   another host reported in between.
   */
  lemma {:induction false} QueryReported(s: Stack, physical: seq<nat>, i: nat, q: IgmpEvent, g: Address, t: nat, d: nat, ats: seq<At>)
    requires Invariant(s, physical) && i < |physical| && IsMember(s, i, g) && Concerns(q, g) && q.time == Wrap(t)
    requires InfoOf(s, i, g).state == DelayingMember ==> InfoOf(s, i, g).timer == Wrap(d) && t <= d < t + HALF
    requires InOrder(t, ats, t + HALF) && forall k :: 0 <= k < |ats| ==> ats[k].ev.i < |physical| && Quiet(ats[k].ev, i, g)
    requires exists k :: 0 <= k < |ats| && ats[k].t >= t + MaxResponse(q.maxRespTime)
                         && ats[k].ev.DoIgmp? && ats[k].ev.i == i && ats[k].ev.event.Timer?
    ensures var r := Step(s, physical, DoIgmp(i, q));
            Invariant(r, physical) && Reported(Run(r, physical, Events(ats)), |r.sent|, i, g)
  {
    hide CountsRight, GoodTables, Step, Reported, Quiet, Wrap;
    var r := Step(s, physical, DoIgmp(i, q));
    StepKeeps(s, physical, DoIgmp(i, q));
    MemberState(s, physical, i, g);
    QueryTimer(s, physical, i, q, g, t, d);
    AnswerTime(q.maxRespTime);
    var x := (if g in q.random then q.random[g] else 0) % (MaxResponse(q.maxRespTime) + 1);
    var e: nat := if InfoOf(s, i, g).state == IdleMember || t + MaxResponse(q.maxRespTime) < d then t + x else d;
    assert Delaying(r, i, g, Wrap(e)) && t <= e <= t + MaxResponse(q.maxRespTime);
    ReportedInTime(r, physical, ats, i, g, t, t + MaxResponse(q.maxRespTime));
  }

  lemma AnswerTime(max: byte)
    ensures MaxResponse(max) < HALF
  {
  }

  lemma {:induction false} MemberState(s: Stack, physical: seq<nat>, i: nat, g: Address)
    requires Invariant(s, physical) && i < |physical| && IsMember(s, i, g)
    ensures InfoOf(s, i, g).state == IdleMember || InfoOf(s, i, g).state == DelayingMember
  {
    hide CountsRight, Good;
    TablesGood(s, physical, i);
    assert GoodMember(s.v4[i][Find(s.v4[i], g)]);
  }

  /** A join is reported twice: at once, and once more by the first timer ten seconds later, under the same conditions. */
  lemma {:induction false} JoinReported(s: Stack, physical: seq<nat>, i: nat, g: Address, t: nat, ats: seq<At>)
    requires Invariant(s, physical) && i < |physical| && !IsMember(s, i, g) && g != ALL_SYSTEMS && s.links[i].up
    requires Join4(s, physical, i, g, Wrap(t)).ok
    requires InOrder(t, ats, t + HALF) && forall k :: 0 <= k < |ats| ==> ats[k].ev.i < |physical| && Quiet(ats[k].ev, i, g)
    requires exists k :: 0 <= k < |ats| && ats[k].t >= t + 10000 && ats[k].ev.DoIgmp? && ats[k].ev.i == i && ats[k].ev.event.Timer?
    ensures var r := Join4(s, physical, i, g, Wrap(t)).stack;
            && Invariant(r, physical) && r.sent == s.sent + [Report(i, g, s.links[i].v1)]
            && Reported(Run(r, physical, Events(ats)), |r.sent|, i, g)
  {
    hide CountsRight, GoodTables, Step, Reported, Quiet, Wrap, Join4;
    var r := Join4(s, physical, i, g, Wrap(t)).stack;
    Join4Keeps(s, physical, i, g, Wrap(t));
    JoinReports(s, physical, i, g, Wrap(t));
    WrapAdd(t, 10000);
    assert Delaying(r, i, g, Wrap(t + 10000));
    ReportedInTime(r, physical, ats, i, g, t, t + 10000);
  }

  /** A link that comes up is the same for every group that is joined on it. */
  lemma {:induction false} LinkUpReported(s: Stack, physical: seq<nat>, i: nat, g: Address, t: nat, ats: seq<At>)
    requires Invariant(s, physical) && i < |physical| && IsMember(s, i, g) && g != ALL_SYSTEMS
    requires InOrder(t, ats, t + HALF) && forall k :: 0 <= k < |ats| ==> ats[k].ev.i < |physical| && Quiet(ats[k].ev, i, g)
    requires exists k :: 0 <= k < |ats| && ats[k].t >= t + 10000 && ats[k].ev.DoIgmp? && ats[k].ev.i == i && ats[k].ev.event.Timer?
    ensures var r := Step(s, physical, DoIgmp(i, LinkChange(true, Wrap(t))));
            && Invariant(r, physical) && Reported(r, |s.sent|, i, g)
            && Reported(Run(r, physical, Events(ats)), |r.sent|, i, g)
  {
    hide CountsRight, GoodTables, Step, Reported, Quiet, Wrap;
    var ev := LinkChange(true, Wrap(t));
    var r := Step(s, physical, DoIgmp(i, ev));
    StepKeeps(s, physical, DoIgmp(i, ev));
    NewlyReported(s, physical, i, ev, |s.sent|, g);
    StateDiagram(s, physical, i, ev, g);
    WrapAdd(t, 10000);
    assert Delaying(r, i, g, Wrap(t + 10000));
    ReportedInTime(r, physical, ats, i, g, t, t + 10000);
  }
}
