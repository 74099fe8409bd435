/**
 Runs of the receiver: what the reassembly buffer holds after any sequence of fragments
 cut from one payload, in any order, with duplicates and overlaps.
 */
module ReassemblyRuns {
  import opened Bytes
  import opened HoleList
  import opened Reassembly

  /** The fragment carries a piece of `p`, and says that more follows exactly when more follows. */
  ghost predicate CutFrom(p: seq<byte>, f: Fragment) {
    && f.Valid() && f.range.last <= |p|
    && f.data == p[f.range.first..f.range.last]
    && (f.range.more <==> f.range.last < |p|)
  }

  ghost predicate HeaderFits(p: seq<byte>, header: seq<byte>) {
    |header| + |p| <= MAX_DATAGRAM && |header| <= CHUNK_SIZE
  }

  ghost predicate Fits(p: seq<byte>, f: Fragment) {
    f.newHeader.Some? ==> HeaderFits(p, f.newHeader.value)
  }

  /** Every fragment is cut from `p`, and its header leaves room for it. */
  ghost predicate Pieces(p: seq<byte>, fs: seq<Fragment>) {
    forall i :: 0 <= i < |fs| ==> fs[i].Valid() && CutFrom(p, fs[i]) && Fits(p, fs[i])
  }

  ghost predicate Covered(fs: seq<Fragment>, k: int) {
    exists i :: 0 <= i < |fs| && InRange(fs[i].range, k)
  }

  ghost predicate Covers(fs: seq<Fragment>, n: int) {
    forall k :: 0 <= k < n ==> Covered(fs, k)
  }

  ghost predicate EndSeen(fs: seq<Fragment>) {
    exists i :: 0 <= i < |fs| && !fs[i].range.more
  }

  /** The buffer after the fragments `fs`, in order of arrival, with memory available. */
  function Run(header: seq<byte>, fs: seq<Fragment>, strict: bool): Assembly
    requires forall i :: 0 <= i < |fs| ==> fs[i].Valid()
  {
    if fs == [] then Opened(header)
    else
      var a := Run(header, fs[..|fs| - 1], strict);
      if a.Free? then Free else Absorb(a, fs[|fs| - 1], strict, true)
  }

  /** A state, and the datagrams completed on the way to it. */
  datatype Trace<S> = Trace(state: S, outs: seq<Assembly>)

  /** A buffer that takes fragments one after the other; `headers` are those of the packets they came in. */
  function TakeRun(v: Assembly, headers: seq<seq<byte>>, fs: seq<Fragment>, strict: bool): Trace<Assembly>
    requires |headers| == |fs| && forall i :: 0 <= i < |fs| ==> fs[i].Valid()
  {
    if fs == [] then Trace(v, [])
    else
      var n := |fs| - 1;
      var t := TakeRun(v, headers[..n], fs[..n], strict);
      var s := Take(t.state, headers[n], fs[n], strict, true);
      Trace(s.next, if s.done.Some? then t.outs + [s.done.value] else t.outs)
  }

  /** The header kept is the one that came with the start of the payload. */
  lemma {:induction false} RunHeader(header: seq<byte>, fs: seq<Fragment>, strict: bool, first: seq<byte>)
    requires forall i :: 0 <= i < |fs| ==> fs[i].Valid()
    requires forall i :: 0 <= i < |fs| && fs[i].newHeader.Some? ==> fs[i].newHeader.value == first
    requires exists i :: 0 <= i < |fs| && fs[i].newHeader.Some?
    ensures Run(header, fs, strict).Busy? ==> Run(header, fs, strict).header == first
  {
    var n := |fs| - 1;
    if fs[n].newHeader.None? {
      var i :| 0 <= i < |fs| && fs[i].newHeader.Some?;
      assert fs[..n][i].newHeader.Some?;
      RunHeader(header, fs[..n], strict, first);
    }
  }

  /** What the buffer holds once the fragments `fs` of `p` have arrived. */
  ghost predicate Holds(p: seq<byte>, fs: seq<Fragment>, a: Assembly) {
    && a.Busy? && HeaderFits(p, a.header)
    && a.dataLen <= |p| && (EndSeen(fs) ==> a.dataLen == |p|)
    && WellFormed(a.holes, a.dataLen)
    && (forall i :: 0 <= i < |a.holes| ==> a.holes[i].first < |p|)
    && (forall k :: 0 <= k < INFINITY ==> (Missing(a.holes, k) <==> !Covered(fs, k) && (k < |p| || !EndSeen(fs))))
    && (forall k :: k in a.got <==> Covered(fs, k))
    && (forall k :: k in a.got ==> 0 <= k < |p| && a.got[k] == p[k])
  }

  lemma CoveredSnoc(fs: seq<Fragment>, f: Fragment, k: int)
    ensures Covered(fs + [f], k) <==> Covered(fs, k) || InRange(f.range, k)
    ensures EndSeen(fs + [f]) <==> EndSeen(fs) || !f.range.more
  {
    var gs := fs + [f];
    assert gs[|fs|] == f;
    if i :| 0 <= i < |fs| && InRange(fs[i].range, k) {
      assert gs[i] == fs[i];
    }
    if i :| 0 <= i < |fs| && !fs[i].range.more {
      assert gs[i] == fs[i];
    }
  }

  /** A fragment of `p` takes its own bytes out of the missing ones and, if it is the last one, all beyond it. */
  lemma {:induction false} PunchPiece(p: seq<byte>, hs: seq<Hole>, dataLen: nat, f: Fragment, k: int)
    requires CutFrom(p, f) && WellFormed(hs, dataLen)
    requires forall i :: 0 <= i < |hs| ==> hs[i].first < |p|
    ensures Missing(Punch(hs, f.range), k) <==>
            Missing(hs, k) && !InRange(f.range, k) && (f.range.more || k < |p|)
  {
    MissingPunch(hs, f.range, k);
    if i :| 0 <= i < |hs| && hs[i].first <= k < hs[i].last && !InRange(f.range, k) && (f.range.more || k < |p|) {
      assert Keeps(hs[i], f.range, k);
    }
  }

  lemma {:induction false} PunchFirsts(hs: seq<Hole>, r: Range, n: int)
    requires forall i :: 0 <= i < |hs| ==> hs[i].first < n
    requires r.more ==> r.last < n
    ensures forall i :: 0 <= i < |Punch(hs, r)| ==> Punch(hs, r)[i].first < n
  {
    if hs != [] {
      PunchFirsts(hs[1..], r, n);
    }
  }

  /** One more fragment of `p`. */
  lemma HoldsStep(p: seq<byte>, fs: seq<Fragment>, a: Assembly, f: Fragment, strict: bool)
    requires Holds(p, fs, a) && CutFrom(p, f) && Fits(p, f)
    requires strict ==> !Overlaps(a.holes, f.range)
    ensures Holds(p, fs + [f], Absorb(a, f, strict, true))
  {
    hide Spaced, Aligned, Missing, Covered, EndSeen;
    var b, gs := Absorb(a, f, strict, true), fs + [f];
    assert b.Busy?;
    assert EndSeen(gs) <==> EndSeen(fs) || !f.range.more by {
      CoveredSnoc(fs, f, 0);
    }
    PunchWellFormedGrown(a.holes, f.range, a.dataLen, b.dataLen);
    PunchFirsts(a.holes, f.range, |p|);
    forall k ensures Covered(gs, k) <==> Covered(fs, k) || InRange(f.range, k) {
      CoveredSnoc(fs, f, k);
    }
    forall k ensures Missing(b.holes, k) <==> Missing(a.holes, k) && !InRange(f.range, k) && (f.range.more || k < |p|) {
      PunchPiece(p, a.holes, a.dataLen, f, k);
    }
  }

  lemma {:induction false} PunchWellFormedGrown(hs: seq<Hole>, r: Range, dataLen: int, grown: int)
    requires WellFormed(hs, dataLen) && GoodRange(r) && dataLen <= grown && r.last <= grown < INFINITY - 8
    ensures WellFormed(Punch(hs, r), grown)
  {
    assert WellFormed(hs, grown);
    PunchWellFormed(hs, r, grown);
  }

  lemma HoldsOpened(p: seq<byte>, header: seq<byte>)
    requires HeaderFits(p, header) && |p| > 0
    ensures Holds(p, [], Opened(header))
  {
    var a := Opened(header);
    assert a.holes[0] == Hole(0, INFINITY);
  }

  /** Section 3 of RFC 815: after any fragments of `p`, exactly the bytes not received are missing. */
  lemma {:induction false} RunHolds(p: seq<byte>, header: seq<byte>, fs: seq<Fragment>)
    requires |p| > 0 && HeaderFits(p, header) && Pieces(p, fs)
    ensures Holds(p, fs, Run(header, fs, false))
  {
    if fs == [] {
      HoldsOpened(p, header);
    } else {
      var n := |fs| - 1;
      RunHolds(p, header, fs[..n]);
      HoldsStep(p, fs[..n], Run(header, fs[..n], false), fs[n], false);
      assert fs[..n] + [fs[n]] == fs;
    }
  }

  /** The hole list is empty exactly when the fragments cover the payload; the payload is then the original. */
  lemma HoldsComplete(p: seq<byte>, fs: seq<Fragment>, a: Assembly)
    requires |p| > 0 && Holds(p, fs, a) && Pieces(p, fs)
    ensures a.holes == [] <==> Covers(fs, |p|)
    ensures a.holes == [] ==> a.dataLen == |p|
    ensures a.holes == [] ==> forall k :: 0 <= k < |p| ==> k in a.got && a.got[k] == p[k]
  {
    if Covers(fs, |p|) {
      assert Covered(fs, |p| - 1);
      assert EndSeen(fs);
      if a.holes != [] {
        assert Missing(a.holes, a.holes[0].first);
        assert false;
      }
    }
    if a.holes == [] {
      forall k | 0 <= k < |p| ensures Covered(fs, k) {
        assert !Missing(a.holes, k);
      }
      assert Covered(fs, |p| - 1);
    }
  }

  /** What lies before the first hole has arrived: a buffer that times out reports a prefix of the payload. */
  lemma PrefixArrived(p: seq<byte>, fs: seq<Fragment>, a: Assembly, partial: seq<byte>)
    requires Holds(p, fs, a) && a.holes != [] && |partial| == a.holes[0].first
    requires forall k :: k in a.got && k < |partial| ==> partial[k] == a.got[k]
    ensures |partial| <= |p| && partial == p[..|partial|]
  {
    var hs := a.holes;
    assert hs[0].first < |p| && GoodHole(hs[0], a.dataLen);
    forall k | 0 <= k < |partial| ensures k in a.got {
      assert forall i :: 0 < i < |hs| ==> hs[0].last <= hs[i].first;
      assert !Missing(hs, k);
    }
  }
}
