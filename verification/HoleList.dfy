/**
 The hole list of sections 3 and 4 of RFC 815, as the IPv4 and IPv6 receivers keep it.

 A hole is a range of payload bytes that has not arrived. Its descriptor, three 16-bit
 words, is stored in the first six bytes of the hole itself, and the descriptors are
 threaded into a list by payload offset. This module has the abstract list and what one
 fragment does to it.
 */
module HoleList {
  const INFINITY: int := 0xFFFF
  const HOLE_SIZE: int := 6
  const MAX_DATAGRAM: int := 8192
  const NO_HOLE: int := -1  // the NULL pointer

  datatype Hole = Hole(first: int, last: int)

  /** Byte `k` lies in one of the holes. */
  ghost predicate Missing(hs: seq<Hole>, k: int) {
    exists i :: 0 <= i < |hs| && hs[i].first <= k < hs[i].last
  }

  /** The hole starts inside the buffer and has room for its own descriptor. */
  ghost predicate GoodHole(h: Hole, dataLen: int) {
    0 <= h.first <= dataLen && h.first + 8 <= h.last <= INFINITY
  }

  /** Ascending, pairwise disjoint holes. */
  ghost predicate Spaced(hs: seq<Hole>, dataLen: int) {
    && (forall i :: 0 <= i < |hs| ==> GoodHole(hs[i], dataLen))
    && (forall i, j :: 0 <= i < j < |hs| ==> hs[i].last <= hs[j].first)
  }

  /** The hole starts, and unless it is the last one ends, on an 8-byte boundary. */
  ghost predicate OnBoundary(h: Hole) {
    h.first % 8 == 0 && (h.last == INFINITY || h.last % 8 == 0)
  }

  ghost predicate Aligned(hs: seq<Hole>) {
    forall i :: 0 <= i < |hs| ==> OnBoundary(hs[i])
  }

  ghost predicate WellFormed(hs: seq<Hole>, dataLen: int) {
    Spaced(hs, dataLen) && Aligned(hs)
  }

  /** A fragment: the payload bytes [first, last), and whether more fragments follow. */
  datatype Range = Range(first: int, last: int, more: bool)

  predicate InRange(r: Range, k: int) {
    r.first <= k < r.last
  }

  ghost predicate GoodRange(r: Range) {
    && 0 <= r.first <= r.last
    && r.first % 8 == 0
    && (r.more ==> r.last % 8 == 0)
  }

  predicate Touches(h: Hole, r: Range) {
    r.first < h.last && h.first < r.last
  }

  /** What a fragment leaves of a hole it touches: a piece before it and, unless it is the last one, a piece after. */
  function Lower(h: Hole, r: Range): seq<Hole> {
    if h.first < r.first then [Hole(h.first, r.first)] else []
  }

  function Upper(h: Hole, r: Range): seq<Hole> {
    if r.last < h.last && r.more then [Hole(r.last, h.last)] else []
  }

  /** What is left of one hole once the fragment has arrived. */
  function Cut(h: Hole, r: Range): seq<Hole> {
    if Touches(h, r) then Lower(h, r) + Upper(h, r) else [h]
  }

  /** What is left of a list of holes once the fragment has arrived. */
  function Punch(hs: seq<Hole>, r: Range): seq<Hole> {
    if hs == [] then [] else Cut(hs[0], r) + Punch(hs[1..], r)
  }

  /** The fragment touches one of the holes without lying inside it. */
  predicate Overlaps(hs: seq<Hole>, r: Range) {
    hs != [] && (Sticks(hs[0], r) || Overlaps(hs[1..], r))
  }

  predicate Sticks(h: Hole, r: Range) {
    Touches(h, r) && (r.first < h.first || h.last < r.last)
  }

  /** Offset of the `i`th hole, or the value that ends the list. */
  function Link(hs: seq<Hole>, i: nat): int {
    if i < |hs| then hs[i].first else INFINITY
  }

  /** Byte `k` of hole `h` is still missing once the fragment has arrived. */
  ghost predicate Keeps(h: Hole, r: Range, k: int) {
    h.first <= k < h.last && (!Touches(h, r) || k < r.first || (r.last <= k && r.more))
  }

  /** Offset of the last hole of a list: what `prevHole` points to. */
  function LastOffset(hs: seq<Hole>): int {
    if hs == [] then NO_HOLE else hs[|hs| - 1].first
  }

  lemma MissingCut(h: Hole, r: Range, k: int)
    ensures Missing(Cut(h, r), k) <==> Keeps(h, r, k)
  {
    var c := Cut(h, r);
    if Keeps(h, r, k) {
      if !Touches(h, r) || k < r.first {
        assert c[0].first <= k < c[0].last;
      } else {
        assert c[|c| - 1] == Hole(r.last, h.last);
      }
    }
  }

  lemma MissingConcat(a: seq<Hole>, b: seq<Hole>, k: int)
    ensures Missing(a + b, k) <==> Missing(a, k) || Missing(b, k)
  {
    if Missing(a, k) {
      var i :| 0 <= i < |a| && a[i].first <= k < a[i].last;
      assert (a + b)[i] == a[i];
    }
    if Missing(b, k) {
      var i :| 0 <= i < |b| && b[i].first <= k < b[i].last;
      assert (a + b)[|a| + i] == b[i];
    }
  }

  /** Exactly which bytes one fragment takes out of the missing ones. */
  lemma {:induction false} MissingPunch(hs: seq<Hole>, r: Range, k: int)
    ensures Missing(Punch(hs, r), k) <==> exists i :: 0 <= i < |hs| && Keeps(hs[i], r, k)
  {
    if hs != [] {
      var t := hs[1..];
      MissingPunch(t, r, k);
      MissingConcat(Cut(hs[0], r), Punch(t, r), k);
      MissingCut(hs[0], r, k);
      if i :| 0 <= i < |t| && Keeps(t[i], r, k) {
        assert hs[i + 1] == t[i];
      }
      if i :| 0 <= i < |hs| && Keeps(hs[i], r, k) && i != 0 {
        assert t[i - 1] == hs[i];
      }
    }
  }

  lemma CutWellFormed(h: Hole, r: Range, dataLen: int)
    requires GoodHole(h, dataLen) && OnBoundary(h) && GoodRange(r) && r.last <= dataLen < INFINITY - 8
    ensures WellFormed(Cut(h, r), dataLen) && (Touches(h, r) ==> WellFormed(Lower(h, r), dataLen))
    ensures forall i :: 0 <= i < |Cut(h, r)| ==> h.first <= Cut(h, r)[i].first && Cut(h, r)[i].last <= h.last
  {
  }

  lemma ConcatWellFormed(a: seq<Hole>, b: seq<Hole>, bound: int, dataLen: int)
    requires WellFormed(a, dataLen) && WellFormed(b, dataLen)
    requires forall i :: 0 <= i < |a| ==> a[i].last <= bound
    requires forall i :: 0 <= i < |b| ==> bound <= b[i].first
    ensures WellFormed(a + b, dataLen)
  {
  }

  /** Whatever a fragment carries is no longer missing, and nothing becomes missing. */
  lemma {:induction false} PunchClears(hs: seq<Hole>, r: Range)
    ensures forall k :: InRange(r, k) ==> !Missing(Punch(hs, r), k)
    ensures forall k :: !Missing(hs, k) ==> !Missing(Punch(hs, r), k)
  {
    forall k | Missing(Punch(hs, r), k) ensures Missing(hs, k) && !InRange(r, k) {
      MissingPunch(hs, r, k);
    }
  }

  /** One fragment keeps the list ascending, disjoint and aligned. */
  lemma {:induction false} PunchWellFormed(hs: seq<Hole>, r: Range, dataLen: int)
    requires WellFormed(hs, dataLen) && GoodRange(r) && r.last <= dataLen < INFINITY - 8
    ensures WellFormed(Punch(hs, r), dataLen)
    ensures forall i :: 0 <= i < |Punch(hs, r)| ==> hs != [] && hs[0].first <= Punch(hs, r)[i].first
  {
    if hs != [] {
      var t, c := hs[1..], Cut(hs[0], r);
      PunchWellFormed(t, r, dataLen);
      CutWellFormed(hs[0], r, dataLen);
      assert t != [] ==> t[0] == hs[1];
      ConcatWellFormed(c, Punch(t, r), hs[0].last, dataLen);
    }
  }

  /**
   Offsets are 16-bit words, so `first + length` can wrap. On a fresh buffer a wrapped
   fragment leaves overlapping holes exactly when more is to follow and it does not wrap to
   zero; a wrapped last fragment makes the first byte of its data the end of the one hole.
   */
  lemma {:induction false} WrapOverlaps(r: Range, dataLen: int)
    requires 0 <= r.first < INFINITY && 0 <= r.last <= INFINITY - 8 && r.last <= dataLen
    requires r.first == 0 || 8 <= r.first
    ensures Spaced(Punch([Hole(0, INFINITY)], r), dataLen) <==> !r.more || r.first <= r.last || r.last == 0
    ensures r.last == 0 ==> Punch([Hole(0, INFINITY)], r) == [Hole(0, INFINITY)] || r.first == 0
    ensures !r.more && 0 < r.last < r.first ==> Punch([Hole(0, INFINITY)], r) == [Hole(0, r.first)]
  {
    var hs := [Hole(0, INFINITY)];
    assert Punch(hs, r) == Cut(hs[0], r) + Punch(hs[1..], r);
    var c := Punch(hs, r);
    if r.more && 0 < r.last < r.first {
      assert c[0].last > c[1].first;
    }
  }

  /** The list without its `i`th hole, and with a hole put in before the `i`th. */
  function Without(hs: seq<Hole>, i: nat): seq<Hole>
    requires i < |hs|
  {
    hs[..i] + hs[i + 1..]
  }

  function With(hs: seq<Hole>, i: nat, h: Hole): seq<Hole>
    requires i <= |hs|
  {
    hs[..i] + [h] + hs[i..]
  }

  lemma WithoutWellFormed(hs: seq<Hole>, i: nat, dataLen: int)
    requires WellFormed(hs, dataLen) && i < |hs|
    ensures WellFormed(Without(hs, i), dataLen)
    ensures forall k :: Missing(Without(hs, i), k) ==> Missing(hs, k)
  {
    var rest := Without(hs, i);
    assert forall j :: 0 <= j < |rest| ==> rest[j] == hs[if j < i then j else j + 1];
    forall k | Missing(rest, k) ensures Missing(hs, k) {
      var j :| 0 <= j < |rest| && rest[j].first <= k < rest[j].last;
      assert rest[j] == hs[if j < i then j else j + 1];
    }
  }

  lemma WithMissing(hs: seq<Hole>, i: nat, h: Hole, k: int)
    requires i <= |hs|
    ensures Missing(With(hs, i, h), k) <==> Missing(hs, k) || h.first <= k < h.last
  {
    assert hs == hs[..i] + hs[i..];
    MissingConcat(hs[..i], hs[i..], k);
    MissingConcat(hs[..i], [h], k);
    MissingConcat(hs[..i] + [h], hs[i..], k);
    assert Missing([h], k) <==> [h][0].first <= k < [h][0].last;
  }

  /** Putting pieces of a hole in its place keeps the list well formed. */
  lemma ReplaceWellFormed(before: seq<Hole>, h: Hole, after: seq<Hole>, c: seq<Hole>, dataLen: int)
    requires WellFormed(before + [h] + after, dataLen) && WellFormed(c, dataLen)
    requires forall j :: 0 <= j < |c| ==> h.first <= c[j].first && c[j].last <= h.last
    ensures WellFormed(before + c + after, dataLen)
    ensures forall k :: Missing(before + c + after, k) ==> Missing(before + [h] + after, k)
  {
    var hs, n := before + [h] + after, |before|;
    assert hs[..n] == before && hs[n] == h && hs[n + 1..] == after;
    assert WellFormed(before, dataLen) && WellFormed(after, dataLen) && GoodHole(hs[n], dataLen);
    ConcatWellFormed(before, c, h.first, dataLen);
    ConcatWellFormed(before + c, after, h.last, dataLen);
    forall k | Missing(before + c + after, k) ensures Missing(hs, k) {
      MissingConcat(before + c, after, k);
      MissingConcat(before, c, k);
      MissingConcat(before + [h], after, k);
      MissingConcat(before, [h], k);
      assert h.first <= k < h.last ==> hs[n].first <= k < hs[n].last;
      assert Missing([h], k) <==> [h][0].first <= k < [h][0].last;
    }
  }

  /** Every list the receiver goes through while it replaces a hole by its pieces is well formed. */
  lemma CutPieces(before: seq<Hole>, h: Hole, after: seq<Hole>, r: Range, dataLen: int)
    requires WellFormed(before + [h] + after, dataLen) && GoodRange(r) && r.last <= dataLen < INFINITY - 8
    requires Touches(h, r)
    ensures WellFormed(before + Lower(h, r) + after, dataLen) && WellFormed(before + Cut(h, r) + after, dataLen)
    ensures forall k :: Missing(before + Lower(h, r) + after, k) ==> Missing(before + [h] + after, k)
    ensures forall k :: Missing(before + Cut(h, r) + after, k) ==> Missing(before + [h] + after, k)
    ensures forall k :: h.first <= k < h.last ==> Missing(before + [h] + after, k)
    ensures h.first < r.first ==> GoodHole(Hole(h.first, r.first), dataLen)
    ensures r.last < h.last && r.more ==> GoodHole(Hole(r.last, h.last), dataLen)
  {
    var hs, n := before + [h] + after, |before|;
    assert hs[n] == h;
    CutWellFormed(h, r, dataLen);
    ReplaceWellFormed(before, h, after, Lower(h, r), dataLen);
    ReplaceWellFormed(before, h, after, Cut(h, r), dataLen);
  }

  lemma WithSplice(before: seq<Hole>, c: seq<Hole>, h: Hole, after: seq<Hole>)
    ensures With(before + c + after, |before| + |c|, h) == before + (c + [h]) + after
    ensures Without(before + [h] + after, |before|) == before + [] + after
  {
  }
}
