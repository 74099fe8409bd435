/**
 The reassembly queue of the IPv4 and IPv6 receivers as a sequence of buffers, each with the
 key of its datagram: the fields that tell datagrams apart. A fragment goes to the buffer of
 its datagram, and datagrams do not disturb each other.
 */
module ReassemblyQueue {
  import opened Bytes
  import opened Reassembly
  import opened ReassemblyRuns
  import opened Fragmentation

  const MAX_DATAGRAMS: int := 4

  /**
   What the receiver reads out of a packet: the key of its datagram, its header, and its fragment
   if that is in order; and whether there is memory to open a buffer for it, and for a longer one.
   */
  datatype Reading = Reading(key: seq<byte>, header: seq<byte>, fragment: Option<Fragment>, openOk: bool, growOk: bool) {
    predicate Valid() {
      fragment.Some? ==> fragment.value.Valid()
    }
  }

  /** A buffer; `key` is that of its datagram as long as it is in use. */
  datatype Slot = Slot(key: seq<byte>, buffer: Assembly)

  predicate HasKey(s: Slot, key: seq<byte>) {
    s.buffer.Busy? && s.key == key
  }

  /** Index of the first buffer of the datagram, or the length of the queue. */
  function Find(q: seq<Slot>, key: seq<byte>): (i: nat)
    ensures i <= |q| && (i < |q| ==> HasKey(q[i], key))
    ensures forall j :: 0 <= j < i ==> !HasKey(q[j], key)
  {
    if q == [] then 0 else if HasKey(q[0], key) then 0 else 1 + Find(q[1..], key)
  }

  function FirstFree(q: seq<Slot>): (i: nat)
    ensures i <= |q| && (i < |q| ==> q[i].buffer.Free?)
    ensures forall j :: 0 <= j < i ==> !q[j].buffer.Free?
  {
    if q == [] then 0 else if q[0].buffer.Free? then 0 else 1 + FirstFree(q[1..])
  }

  /** What one packet does to the buffer of its own datagram. */
  function ServeOne(v: Assembly, p: Reading, strict: bool): Served
    requires p.Valid()
  {
    if p.fragment.None? || (v.Free? && !p.openOk) then Served(v, None)
    else Take(v, p.header, p.fragment.value, strict, p.growOk)
  }

  datatype ServedQueue = ServedQueue(queue: seq<Slot>, done: Option<Assembly>)

  /** The packet goes to the `k`th buffer. */
  function ServeIn(q: seq<Slot>, k: nat, p: Reading, strict: bool): ServedQueue
    requires p.Valid() && k < |q|
  {
    var s := ServeOne(q[k].buffer, p, strict);
    ServedQueue(q[k := Slot(p.key, s.next)], s.done)
  }

  /**
   What one packet does to the queue: a fragment goes to the buffer of its datagram, or to a
   free one; it is dropped when there is neither, or no memory to open one.
   */
  function Serve(q: seq<Slot>, p: Reading, strict: bool): ServedQueue
    requires p.Valid()
  {
    var i, j := Find(q, p.key), FirstFree(q);
    if p.fragment.None? then ServedQueue(q, None)
    else if i < |q| then ServeIn(q, i, p, strict)
    else if j < |q| && p.openOk then ServeIn(q, j, p, strict)
    else ServedQueue(q, None)
  }

  // ----- one datagram at a time -----

  /** No two buffers belong to the same datagram. */
  ghost predicate UniqueKeys(q: seq<Slot>) {
    forall i, j :: 0 <= i < j < |q| && q[i].buffer.Busy? && q[j].buffer.Busy? ==> q[i].key != q[j].key
  }

  /** The buffer of one datagram. */
  function View(q: seq<Slot>, key: seq<byte>): Assembly {
    var i := Find(q, key);
    if i < |q| then q[i].buffer else Free
  }

  /** A buffer with the right key is the one that is found. */
  lemma {:induction false} FindUnique(q: seq<Slot>, key: seq<byte>, i: nat)
    requires UniqueKeys(q) && i < |q| && HasKey(q[i], key)
    ensures Find(q, key) == i
  {
    var j := Find(q, key);
    assert j <= i;
  }

  /** Replacing the buffer of one datagram leaves the other ones where they are. */
  lemma Replaced(q: seq<Slot>, k: nat, next: Assembly, mine: seq<byte>, key: seq<byte>)
    requires UniqueKeys(q) && k < |q|
    requires if Find(q, mine) < |q| then k == Find(q, mine) else q[k].buffer.Free?
    ensures UniqueKeys(q[k := Slot(mine, next)])
    ensures key == mine ==> View(q[k := Slot(mine, next)], key) == next
    ensures key != mine ==> View(q[k := Slot(mine, next)], key) == View(q, key)
  {
    var r := q[k := Slot(mine, next)];
    forall m | 0 <= m < |q| && m != k ensures r[m] == q[m] && !HasKey(q[m], mine) {
      if HasKey(q[m], mine) {
        FindUnique(q, mine, m);
      }
    }
    assert UniqueKeys(r);
    if key == mine {
      if next.Busy? {
        FindUnique(r, mine, k);
      }
    } else {
      var i := Find(q, key);
      if i < |q| {
        FindUnique(r, key, i);
      }
    }
  }

  /** There is a buffer for the datagram, its own or a free one. */
  predicate HasBuffer(q: seq<Slot>, key: seq<byte>) {
    View(q, key).Busy? || FirstFree(q) < |q|
  }

  /**
   A packet changes the buffer of its own datagram only, in a way that depends on that buffer
   only. When the datagram has no buffer, and the queue is full or there is no memory to open
   one, nothing changes and nothing is delivered.
   */
  lemma {:induction false} ServeView(q: seq<Slot>, p: Reading, strict: bool, key: seq<byte>)
    requires UniqueKeys(q) && p.Valid()
    ensures var s, v := Serve(q, p, strict), View(q, p.key);
            && UniqueKeys(s.queue) && |s.queue| == |q|
            && (key != p.key ==> View(s.queue, key) == View(q, key))
            && (HasBuffer(q, p.key) ==>
                  View(s.queue, p.key) == ServeOne(v, p, strict).next && s.done == ServeOne(v, p, strict).done)
            && (v.Free? && (FirstFree(q) == |q| || !p.openOk) ==> s == ServedQueue(q, None))
  {
    hide Take;
    var i, j := Find(q, p.key), FirstFree(q);
    if p.fragment.Some? && (i < |q| || (j < |q| && p.openOk)) {
      Replaced(q, if i < |q| then i else j, ServeOne(View(q, p.key), p, strict).next, p.key, key);
      Replaced(q, if i < |q| then i else j, ServeOne(View(q, p.key), p, strict).next, p.key, p.key);
    }
  }

  // ----- runs -----

  ghost predicate AllValid(ps: seq<Reading>) {
    forall i :: 0 <= i < |ps| ==> ps[i].Valid()
  }

  /** The receiver; `outs` are the datagrams with the given key. */
  function QueueRun(q: seq<Slot>, ps: seq<Reading>, strict: bool, key: seq<byte>): Trace<seq<Slot>>
    requires AllValid(ps)
  {
    if ps == [] then Trace(q, [])
    else
      var p := ps[|ps| - 1];
      var t := QueueRun(q, ps[..|ps| - 1], strict, key);
      var s := Serve(t.state, p, strict);
      Trace(s.queue, if s.done.Some? && p.key == key then t.outs + [s.done.value] else t.outs)
  }

  /** A receiver that has one buffer and sees one datagram only. */
  function ViewRun(v: Assembly, ps: seq<Reading>, strict: bool): Trace<Assembly>
    requires AllValid(ps)
  {
    if ps == [] then Trace(v, [])
    else
      var t := ViewRun(v, ps[..|ps| - 1], strict);
      var s := ServeOne(t.state, ps[|ps| - 1], strict);
      Trace(s.next, if s.done.Some? then t.outs + [s.done.value] else t.outs)
  }

  /** A run goes on from where the one before it ended, whatever came before. */
  lemma {:induction false} RunGoesOn(v: Assembly, ps: seq<Reading>, qs: seq<Reading>, strict: bool)
    requires AllValid(ps) && AllValid(qs)
    ensures AllValid(ps + qs)
    ensures var t, r := ViewRun(v, ps, strict), ViewRun(v, ps + qs, strict);
            var u := ViewRun(t.state, qs, strict);
            r.state == u.state && r.outs == t.outs + u.outs
  {
    hide ServeOne;
    if qs == [] {
      assert ps + qs == ps;
    } else {
      var n := |qs| - 1;
      RunGoesOn(v, ps, qs[..n], strict);
      assert (ps + qs)[..|ps + qs| - 1] == ps + qs[..n] && (ps + qs)[|ps + qs| - 1] == qs[n];
    }
  }

  /** The packets of one datagram, in order of arrival. */
  function OnlyKey(ps: seq<Reading>, key: seq<byte>): (r: seq<Reading>)
    ensures AllValid(ps) ==> AllValid(r)
  {
    if ps == [] then []
    else
      var p := ps[|ps| - 1];
      OnlyKey(ps[..|ps| - 1], key) + if p.key == key then [p] else []
  }

  ghost predicate KeysIn(q: seq<Slot>, keys: set<seq<byte>>) {
    forall i :: 0 <= i < |q| && q[i].buffer.Busy? ==> q[i].key in keys
  }

  lemma {:induction false} Pigeonhole(q: seq<Slot>, keys: set<seq<byte>>)
    requires UniqueKeys(q) && KeysIn(q, keys) && forall i :: 0 <= i < |q| ==> q[i].buffer.Busy?
    ensures |q| <= |keys|
  {
    if q != [] {
      var n := |q| - 1;
      Pigeonhole(q[..n], keys - {q[n].key});
    }
  }

  /** While no more datagrams are under way than there are buffers, there is one for each. */
  lemma {:induction false} Room(q: seq<Slot>, key: seq<byte>, keys: set<seq<byte>>)
    requires UniqueKeys(q) && KeysIn(q, keys) && key in keys && |keys| <= |q|
    ensures HasBuffer(q, key)
  {
    if View(q, key).Free? && FirstFree(q) == |q| {
      assert forall i :: 0 <= i < |q| ==> q[i].buffer.Busy? && !HasKey(q[i], key);
      assert KeysIn(q, keys - {key});
      Pigeonhole(q, keys - {key});
    }
  }

  lemma ServeKeys(q: seq<Slot>, p: Reading, strict: bool, keys: set<seq<byte>>)
    requires KeysIn(q, keys) && p.Valid() && p.key in keys
    ensures KeysIn(Serve(q, p, strict).queue, keys)
  {
    hide ServeOne;
  }

  /**
   Datagrams do not disturb each other: with at most as many under way as there are buffers,
   each one is reassembled as if its packets were the only ones, with the memory there is.
   */
  lemma {:induction false} Isolation(q: seq<Slot>, ps: seq<Reading>, strict: bool, key: seq<byte>, keys: set<seq<byte>>)
    requires UniqueKeys(q) && KeysIn(q, keys) && |keys| <= |q| && AllValid(ps)
    requires forall i :: 0 <= i < |ps| ==> ps[i].key in keys
    ensures var t, v := QueueRun(q, ps, strict, key), ViewRun(View(q, key), OnlyKey(ps, key), strict);
            && t.outs == v.outs && View(t.state, key) == v.state
            && UniqueKeys(t.state) && KeysIn(t.state, keys) && |t.state| == |q|
  {
    hide ServeOne, Serve, UniqueKeys, KeysIn, View, HasBuffer;
    if ps != [] {
      var n := |ps| - 1;
      var p := ps[n];
      Isolation(q, ps[..n], strict, key, keys);
      var t := QueueRun(q, ps[..n], strict, key);
      Room(t.state, p.key, keys);
      Alongside(q, ps, strict, key);
      ServeKeys(t.state, p, strict, keys);
    }
  }

  /** The datagram is under way from the first of its packets until the last one arrives. */
  ghost predicate UnderWay(v: Assembly, mine: seq<Reading>, strict: bool)
    requires AllValid(mine)
  {
    forall i :: 0 < i < |mine| ==> ViewRun(v, mine[..i], strict).state.Busy?
  }

  /**
   However many datagrams arrive, also more than there are buffers, one that has a buffer, or
   gets one with the first packet of all, is reassembled as if its packets were the only ones,
   until it is delivered or dropped.
   */
  lemma {:induction false} Undisturbed(q: seq<Slot>, ps: seq<Reading>, strict: bool, key: seq<byte>)
    requires UniqueKeys(q) && AllValid(ps)
    requires View(q, key).Busy? || (ps != [] && ps[0].key == key && FirstFree(q) < |q|)
    requires UnderWay(View(q, key), OnlyKey(ps, key), strict)
    ensures var t, v := QueueRun(q, ps, strict, key), ViewRun(View(q, key), OnlyKey(ps, key), strict);
            t.outs == v.outs && View(t.state, key) == v.state && UniqueKeys(t.state) && |t.state| == |q|
  {
    hide ServeOne, Serve, UniqueKeys, View, HasBuffer, UnderWay;
    if ps != [] {
      var n := |ps| - 1;
      var p, before := ps[n], ps[..n];
      var mine, v := OnlyKey(before, key), View(q, key);
      StillUnderWay(v, mine, p, strict);
      if p.key != key {
        assert mine + [] == mine;
      }
      if n > 0 {
        assert before[0] == ps[0];
        Undisturbed(q, before, strict, key);
        if before[0].key == key {
          FirstIsMine(before, key);
        }
      }
      Buffered(QueueRun(q, before, strict, key).state, q, key);
      Alongside(q, ps, strict, key);
    }
  }

  /** One packet more, for the queue and for the buffer of the datagram. */
  lemma Alongside(q: seq<Slot>, ps: seq<Reading>, strict: bool, key: seq<byte>)
    requires ps != [] && AllValid(ps)
    requires var before := ps[..|ps| - 1];
             var t, v := QueueRun(q, before, strict, key), ViewRun(View(q, key), OnlyKey(before, key), strict);
             && t.outs == v.outs && View(t.state, key) == v.state && UniqueKeys(t.state) && |t.state| == |q|
             && (ps[|ps| - 1].key == key ==> HasBuffer(t.state, key))
    ensures var t, v := QueueRun(q, ps, strict, key), ViewRun(View(q, key), OnlyKey(ps, key), strict);
            t.outs == v.outs && View(t.state, key) == v.state && UniqueKeys(t.state) && |t.state| == |q|
  {
    hide ServeOne, Serve, UniqueKeys, View, HasBuffer;
    var p, before := ps[|ps| - 1], ps[..|ps| - 1];
    var mine := OnlyKey(before, key);
    if p.key == key {
      assert (mine + [p])[..|mine|] == mine;
    } else {
      assert mine + [] == mine;
    }
    ServeView(QueueRun(q, before, strict, key).state, p, strict, key);
  }

  lemma {:induction false} StillUnderWay(v: Assembly, mine: seq<Reading>, p: Reading, strict: bool)
    requires AllValid(mine) && p.Valid()
    ensures AllValid(mine + [p])
    ensures UnderWay(v, mine + [p], strict) ==> UnderWay(v, mine, strict) && (mine != [] ==> ViewRun(v, mine, strict).state.Busy?)
  {
    hide ViewRun;
    var all := mine + [p];
    assert forall i :: 0 <= i <= |mine| ==> all[..i] == mine[..i];
    assert mine[..|mine|] == mine;
  }

  lemma {:induction false} Buffered(q: seq<Slot>, was: seq<Slot>, key: seq<byte>)
    ensures View(q, key).Busy? ==> HasBuffer(q, key)
    ensures q == was && FirstFree(was) < |was| ==> HasBuffer(q, key)
  {
  }

  lemma {:induction false} FirstIsMine(ps: seq<Reading>, key: seq<byte>)
    requires ps != [] && ps[0].key == key
    ensures OnlyKey(ps, key) != []
  {
    if |ps| > 1 {
      FirstIsMine(ps[..|ps| - 1], key);
    }
  }

  /** The queue of a receiver that has just been started. */
  function Fresh(): (q: seq<Slot>)
    ensures |q| == MAX_DATAGRAMS && forall i :: 0 <= i < |q| ==> q[i].buffer.Free?
  {
    [Slot([], Free), Slot([], Free), Slot([], Free), Slot([], Free)]
  }

  /** A receiver that has just been started reassembles each of up to four datagrams as if it were alone. */
  lemma {:induction false} FreshIsolation(ps: seq<Reading>, strict: bool, key: seq<byte>, keys: set<seq<byte>>)
    requires AllValid(ps) && |keys| <= MAX_DATAGRAMS && forall i :: 0 <= i < |ps| ==> ps[i].key in keys
    ensures QueueRun(Fresh(), ps, strict, key).outs == ViewRun(Free, OnlyKey(ps, key), strict).outs
  {
    Isolation(Fresh(), ps, strict, key, keys);
  }

  function Headers(ps: seq<Reading>): (hs: seq<seq<byte>>)
    ensures |hs| == |ps| && forall i :: 0 <= i < |hs| ==> hs[i] == ps[i].header
  {
    seq(|ps|, i requires 0 <= i < |ps| => ps[i].header)
  }

  /** The receiver does with packets what a buffer does with the fragments in them. */
  lemma {:induction false} ReadingsTaken(ps: seq<Reading>, fs: seq<Fragment>, strict: bool)
    requires |ps| == |fs| && AllValid(ps)
    requires forall i :: 0 <= i < |ps| ==> ps[i].fragment == Some(fs[i]) && fs[i].Valid() && ps[i].openOk && ps[i].growOk
    ensures ViewRun(Free, ps, strict) == TakeRun(Free, Headers(ps), fs, strict)
  {
    hide Take;
    if ps != [] {
      var n := |ps| - 1;
      ReadingsTaken(ps[..n], fs[..n], strict);
      assert Headers(ps)[..n] == Headers(ps[..n]);
    }
  }

  /** A buffer that gets the pieces of a payload is in use until the last one arrives. */
  lemma {:induction false} StillTaking(p: seq<byte>, ps: seq<Reading>, fs: seq<Fragment>, m: nat, strict: bool, j: nat)
    requires |p| > 0 && m > 0 && Sent(p, fs, m) && |ps| == |fs| && 0 < j < |ps| && HeaderFits(p, ps[0].header)
    requires multiset(Ranges(fs)) == multiset(Division(0, |p|, m))
    requires forall i :: 0 <= i < |ps| ==> ps[i].fragment == Some(fs[i]) && fs[i].Valid() && ps[i].openOk && ps[i].growOk
    ensures ViewRun(Free, ps[..j], strict).state.Busy?
  {
    hide IsPiece, CutFrom, Division, HeaderFits, Run, ViewRun, TakeRun;
    ReadingsTaken(ps[..j], fs[..j], strict);
    assert Headers(ps[..j]) == Headers(ps)[..j];
    TakePrefix(p, Headers(ps), fs, m, strict, j);
    AnyOrder(p, ps[0].header, fs, m, strict);
  }
}
