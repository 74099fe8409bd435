/**
 The sender's side of fragmentation, shared by IPv4 and IPv6: how a payload is divided,
 and what the receiver makes of the pieces in whatever order they arrive.
 */
module Fragmentation {
  import opened Bytes
  import opened HoleList
  import opened Reassembly
  import opened ReassemblyRuns

  /** The pieces of [offset, n) when a packet carries at most `m` bytes. */
  function Division(offset: nat, n: nat, m: nat): seq<Range>
    requires m > 0
    decreases n - offset
  {
    if offset >= n then []
    else if n - offset <= m then [Range(offset, n, false)]
    else [Range(offset, offset + m, true)] + Division(offset + m, n, m)
  }

  /** `r` is one of the pieces of [0, n): it starts at a multiple of `m` and is cut off only at the end. */
  ghost predicate IsPiece(r: Range, n: nat, m: nat)
    requires m > 0
  {
    && 0 <= r.first < n && OnGrid(r.first, m)
    && r.last == (if n - r.first <= m then n else r.first + m)
    && (r.more <==> r.last < n)
  }

  /** The pieces are exactly the ranges of that shape from `offset` on. */
  lemma {:induction false} DivisionPieces(offset: nat, n: nat, m: nat, r: Range)
    requires m > 0 && OnGrid(offset, m)
    ensures r in Division(offset, n, m) <==> IsPiece(r, n, m) && offset <= r.first
    decreases n - offset
  {
    hide OnGrid;
    if IsPiece(r, n, m) && offset < r.first {
      GridApart(offset, r.first, m);
    }
    if n - offset > m {
      GridStep(offset, m);
      DivisionPieces(offset + m, n, m, r);
    }
  }

  /** No piece occurs twice. */
  lemma {:induction false} DivisionDistinct(offset: nat, n: nat, m: nat)
    requires m > 0 && OnGrid(offset, m)
    ensures forall i, j :: 0 <= i < j < |Division(offset, n, m)| ==> Division(offset, n, m)[i] != Division(offset, n, m)[j]
    decreases n - offset
  {
    hide OnGrid;
    if offset < n && n - offset > m {
      GridStep(offset, m);
      DivisionDistinct(offset + m, n, m);
      DivisionPieces(offset + m, n, m, Range(offset, offset + m, true));
    }
  }

  /** `a` is a multiple of `m`. */
  ghost predicate OnGrid(a: int, m: nat) {
    exists j: nat :: Times(j, m) == a
  }

  function Times(j: nat, m: nat): nat {
    if j == 0 then 0 else Times(j - 1, m) + m
  }

  lemma GridZero(m: nat)
    ensures OnGrid(0, m)
  {
    assert Times(0, m) == 0;
  }

  lemma GridStep(a: nat, m: nat)
    requires OnGrid(a, m)
    ensures OnGrid(a + m, m)
  {
    var j: nat :| Times(j, m) == a;
    assert Times(j + 1, m) == a + m;
  }

  lemma {:induction false} TimesMonotone(i: nat, j: nat, m: nat)
    requires i < j
    ensures Times(i, m) + m <= Times(j, m)
  {
    if i + 1 < j {
      TimesMonotone(i, j - 1, m);
    }
  }

  /** Two multiples of `m` in order are at least `m` apart. */
  lemma GridApart(a: nat, b: nat, m: nat)
    requires OnGrid(a, m) && OnGrid(b, m) && a < b
    ensures a + m <= b
  {
    var i: nat, j: nat :| Times(i, m) == a && Times(j, m) == b;
    if i < j {
      TimesMonotone(i, j, m);
    } else if j < i {
      TimesMonotone(j, i, m);
    }
  }

  lemma {:induction false} TimesAligned(j: nat, m: nat)
    requires m % 8 == 0
    ensures Times(j, m) % 8 == 0
  {
    if j > 0 {
      TimesAligned(j - 1, m);
    }
  }

  /** A byte belongs to one piece only. */
  lemma PieceOf(r: Range, q: Range, n: nat, m: nat, k: int)
    requires m > 0 && IsPiece(r, n, m) && IsPiece(q, n, m) && InRange(r, k) && InRange(q, k)
    ensures r == q
  {
    if r.first < q.first {
      GridApart(r.first, q.first, m);
    } else if q.first < r.first {
      GridApart(q.first, r.first, m);
    }
  }

  /** The fragments are pieces of the division of `p`, in any order and number. */
  ghost predicate Sent(p: seq<byte>, fs: seq<Fragment>, m: nat)
    requires m > 0
  {
    Pieces(p, fs) && forall i :: 0 <= i < |fs| ==> IsPiece(fs[i].range, |p|, m)
  }

  ghost predicate Arrived(fs: seq<Fragment>, r: Range) {
    exists i :: 0 <= i < |fs| && fs[i].range == r
  }

  /** A piece has arrived exactly when any one of its bytes has. */
  lemma ArrivedByte(p: seq<byte>, fs: seq<Fragment>, m: nat, r: Range, k: int)
    requires m > 0 && Sent(p, fs, m) && IsPiece(r, |p|, m) && InRange(r, k)
    ensures Arrived(fs, r) <==> Covered(fs, k)
  {
    if i :| 0 <= i < |fs| && InRange(fs[i].range, k) {
      PieceOf(fs[i].range, r, |p|, m, k);
    }
  }

  /** Every byte belongs to a piece. */
  lemma {:induction false} PieceAt(n: nat, m: nat, k: int, offset: nat) returns (r: Range)
    requires m > 0 && OnGrid(offset, m) && offset <= k < n
    ensures IsPiece(r, n, m) && InRange(r, k)
    decreases n - offset
  {
    hide OnGrid;
    if n - offset <= m {
      r := Range(offset, n, false);
    } else if k < offset + m {
      r := Range(offset, offset + m, true);
    } else {
      GridStep(offset, m);
      r := PieceAt(n, m, k, offset + m);
    }
  }

  /** The payload is covered exactly when every piece has arrived. */
  lemma {:induction false} CoversAll(p: seq<byte>, fs: seq<Fragment>, m: nat)
    requires m > 0 && Sent(p, fs, m)
    ensures Covers(fs, |p|) <==> forall r :: r in Division(0, |p|, m) ==> Arrived(fs, r)
  {
    hide Arrived, Covered, OnGrid;
    GridZero(m);
    forall r | r in Division(0, |p|, m) && Covers(fs, |p|) ensures Arrived(fs, r) {
      DivisionPieces(0, |p|, m, r);
      ArrivedByte(p, fs, m, r, r.first);
    }
    if forall r :: r in Division(0, |p|, m) ==> Arrived(fs, r) {
      forall k | 0 <= k < |p| ensures Covered(fs, k) {
        var r := PieceAt(|p|, m, k, 0);
        DivisionPieces(0, |p|, m, r);
        ArrivedByte(p, fs, m, r, k);
      }
    }
  }

  /** Holes with received bytes between them. */
  ghost predicate Separated(hs: seq<Hole>) {
    forall i, j :: 0 <= i < j < |hs| ==> hs[i].last < hs[j].first
  }

  lemma {:induction false} PunchSeparated(hs: seq<Hole>, r: Range)
    requires Separated(hs) && r.first < r.last
    requires forall i :: 0 <= i < |hs| ==> hs[i].first < hs[i].last
    ensures Separated(Punch(hs, r))
    ensures forall i :: 0 <= i < |Punch(hs, r)| ==> hs != [] && hs[0].first <= Punch(hs, r)[i].first
  {
    if hs != [] {
      var t, c := hs[1..], Cut(hs[0], r);
      PunchSeparated(t, r);
      assert t != [] ==> t[0] == hs[1];
    }
  }

  /** A piece of the division never sticks out of a hole it touches, so a strict receiver keeps it. */
  lemma PieceFits(p: seq<byte>, fs: seq<Fragment>, a: Assembly, m: nat, r: Range, i: nat)
    requires m > 0 && Sent(p, fs, m) && Holds(p, fs, a) && Separated(a.holes)
    requires IsPiece(r, |p|, m) && |p| < INFINITY && i < |a.holes|
    ensures !Sticks(a.holes[i], r)
  {
    var hs := a.holes;
    if Sticks(hs[i], r) {
      // a byte that is in the piece and in the hole, and one of the piece just outside the hole
      var k := if hs[i].first <= r.first then r.first else hs[i].first;
      var out := if hs[i].last < r.last then hs[i].last else hs[i].first - 1;
      assert Missing(hs, k);
      ArrivedByte(p, fs, m, r, k);
      ArrivedByte(p, fs, m, r, out);
      assert false;
    }
  }

  lemma {:induction false} NoOverlap(hs: seq<Hole>, r: Range)
    requires forall i :: 0 <= i < |hs| ==> !Sticks(hs[i], r)
    ensures !Overlaps(hs, r)
  {
    if hs != [] {
      NoOverlap(hs[1..], r);
    }
  }

  /** Whatever pieces of a payload arrive, in any order and number, strict or not, exactly the others are missing. */
  lemma {:induction false} RunSent(p: seq<byte>, header: seq<byte>, fs: seq<Fragment>, m: nat, strict: bool)
    requires |p| > 0 && m > 0 && HeaderFits(p, header) && Sent(p, fs, m)
    ensures Holds(p, fs, Run(header, fs, strict)) && Separated(Run(header, fs, strict).holes)
  {
    hide Covered, EndSeen, Missing, OnGrid, Aligned;
    if fs == [] {
      HoldsOpened(p, header);
    } else {
      var n := |fs| - 1;
      var f, a := fs[n], Run(header, fs[..n], strict);
      RunSent(p, header, fs[..n], m, strict);
      forall i | 0 <= i < |a.holes| ensures !Sticks(a.holes[i], f.range) {
        PieceFits(p, fs[..n], a, m, f.range, i);
      }
      NoOverlap(a.holes, f.range);
      HoldsStep(p, fs[..n], a, f, strict);
      PunchSeparated(a.holes, f.range);
      assert fs[..n] + [f] == fs;
    }
  }

  /**
   The round trip: the datagram is complete exactly when every piece has arrived, and what
   the buffer then holds is the payload that was divided.
   */
  lemma {:induction false} RoundTrip(p: seq<byte>, header: seq<byte>, fs: seq<Fragment>, m: nat, strict: bool)
    requires |p| > 0 && m > 0 && HeaderFits(p, header) && Sent(p, fs, m)
    ensures var a := Run(header, fs, strict);
            && a.Busy?
            && (a.holes == [] <==> forall r :: r in Division(0, |p|, m) ==> Arrived(fs, r))
            && (a.holes == [] ==> a.dataLen == |p| && forall k :: 0 <= k < |p| ==> k in a.got && a.got[k] == p[k])
  {
    RunSent(p, header, fs, m, strict);
    HoldsComplete(p, fs, Run(header, fs, strict));
    CoversAll(p, fs, m);
  }

  ghost function Ranges(fs: seq<Fragment>): (rs: seq<Range>)
    ensures |rs| == |fs| && forall i :: 0 <= i < |fs| ==> rs[i] == fs[i].range
  {
    seq(|fs|, i requires 0 <= i < |fs| => fs[i].range)
  }

  lemma {:induction false} DistinctCount(s: seq<Range>, x: Range)
    requires forall i, j :: 0 <= i < j < |s| ==> s[i] != s[j]
    ensures multiset(s)[x] <= 1
  {
    if s != [] {
      DistinctCount(s[1..], x);
      assert s == [s[0]] + s[1..];
    }
  }

  lemma RepeatCount(s: seq<Range>, i: nat, j: nat)
    requires i < j < |s| && s[i] == s[j]
    ensures multiset(s)[s[i]] >= 2
  {
    assert s == s[..j] + s[j..];
    assert s[i] in s[..j] && s[i] in s[j..] by {
      assert s[..j][i] == s[i] && s[j..][0] == s[i];
    }
  }

  /** With every piece sent once, what has not arrived yet is missing. */
  lemma {:induction false} NotYet(fs: seq<Fragment>, n: nat, m: nat, j: nat)
    requires m > 0 && multiset(Ranges(fs)) == multiset(Division(0, n, m)) && j < |fs|
    ensures fs[j].range in Division(0, n, m) && !Arrived(fs[..j], fs[j].range)
  {
    hide OnGrid;
    var rs, d := Ranges(fs), Division(0, n, m);
    assert rs[j] in multiset(rs);
    GridZero(m);
    DivisionDistinct(0, n, m);
    DistinctCount(d, rs[j]);
    if i :| 0 <= i < j && fs[..j][i].range == rs[j] {
      RepeatCount(rs, i, j);
    }
  }

  /** The pieces in any order: the last one to arrive completes the datagram, and no earlier one does. */
  lemma {:induction false} AnyOrder(p: seq<byte>, header: seq<byte>, fs: seq<Fragment>, m: nat, strict: bool)
    requires |p| > 0 && m > 0 && HeaderFits(p, header) && Sent(p, fs, m)
    requires multiset(Ranges(fs)) == multiset(Division(0, |p|, m))
    ensures Run(header, fs, strict).Busy? && Run(header, fs, strict).holes == []
    ensures forall j :: 0 <= j < |fs| ==> Run(header, fs[..j], strict).Busy? && Run(header, fs[..j], strict).holes != []
  {
    hide IsPiece, CutFrom, Division, Run, HeaderFits;
    var rs, d := Ranges(fs), Division(0, |p|, m);
    forall r | r in d ensures Arrived(fs, r) {
      assert r in multiset(rs);
    }
    RoundTrip(p, header, fs, m, strict);
    forall j | 0 <= j < |fs| ensures Run(header, fs[..j], strict).Busy? && Run(header, fs[..j], strict).holes != [] {
      RoundTrip(p, header, fs[..j], m, strict);
      NotYet(fs, |p|, m, j);
    }
  }

  /** A buffer that starts free holds the pieces that have arrived, until the last one lets it deliver. */
  lemma {:induction false} TakePrefix(p: seq<byte>, headers: seq<seq<byte>>, fs: seq<Fragment>, m: nat, strict: bool, j: nat)
    requires |p| > 0 && m > 0 && Sent(p, fs, m) && |headers| == |fs| && 0 < j <= |fs| && HeaderFits(p, headers[0])
    requires multiset(Ranges(fs)) == multiset(Division(0, |p|, m))
    ensures var a := Run(headers[0], fs[..j], strict);
            && TakeRun(Free, headers[..j], fs[..j], strict) == if j < |fs| then Trace(a, []) else Trace(Free, [a])
  {
    hide IsPiece, CutFrom, Division, HeaderFits, Absorb;
    AnyOrder(p, headers[0], fs, m, strict);
    assert fs[..|fs|] == fs && fs[..j][..j - 1] == fs[..j - 1] && headers[..j][..j - 1] == headers[..j - 1];
    if j > 1 {
      TakePrefix(p, headers, fs, m, strict, j - 1);
    }
  }

  /** The pieces of a payload, in any order: the buffer delivers once, all of the payload, under its first header. */
  lemma {:induction false} Completes(p: seq<byte>, headers: seq<seq<byte>>, fs: seq<Fragment>, m: nat, strict: bool,
                                     first: seq<byte>)
    requires |p| > 0 && m > 0 && Sent(p, fs, m) && |headers| == |fs| && (fs != [] ==> HeaderFits(p, headers[0]))
    requires multiset(Ranges(fs)) == multiset(Division(0, |p|, m))
    requires forall i :: 0 <= i < |fs| && fs[i].newHeader.Some? ==> fs[i].newHeader.value == first
    requires exists i :: 0 <= i < |fs| && fs[i].newHeader.Some?
    ensures var t := TakeRun(Free, headers, fs, strict);
            && t.state == Free && |t.outs| == 1
            && var a := t.outs[0];
               a.Busy? && a.header == first && a.dataLen == |p| && forall k :: 0 <= k < |p| ==> k in a.got && a.got[k] == p[k]
  {
    hide IsPiece, CutFrom, Division, HeaderFits, Run;
    var n := |fs|;
    TakePrefix(p, headers, fs, m, strict, n);
    assert fs[..n] == fs && headers[..n] == headers;
    AnyOrder(p, headers[0], fs, m, strict);
    RoundTrip(p, headers[0], fs, m, strict);
    RunHeader(headers[0], fs, strict, first);
  }

  /** Each piece of the division, in some order. */
  ghost predicate InSomeOrder(order: seq<Range>, n: nat, m: nat)
    requires m > 0
  {
    multiset(order) == multiset(Division(0, n, m))
  }

  lemma OrderedPieces(order: seq<Range>, n: nat, m: nat)
    requires m > 0 && m % 8 == 0 && InSomeOrder(order, n, m)
    ensures forall i :: 0 <= i < |order| ==>
              IsPiece(order[i], n, m) && 0 <= order[i].first < order[i].last <= n && GoodRange(order[i])
  {
    hide OnGrid, GoodRange;
    forall i | 0 <= i < |order|
      ensures IsPiece(order[i], n, m) && 0 <= order[i].first < order[i].last <= n && GoodRange(order[i])
    {
      assert order[i] in multiset(order);
      GridZero(m);
      DivisionPieces(0, n, m, order[i]);
      PieceAligned(order[i], n, m);
    }
  }

  lemma PieceAligned(r: Range, n: nat, m: nat)
    requires m > 0 && m % 8 == 0 && IsPiece(r, n, m)
    ensures GoodRange(r)
  {
    var j: nat :| Times(j, m) == r.first;
    TimesAligned(j, m);
  }

  lemma FirstPiece(order: seq<Range>, n: nat, m: nat) returns (i: nat)
    requires m > 0 && n > 0 && InSomeOrder(order, n, m)
    ensures i < |order| && order[i].first == 0
  {
    assert Division(0, n, m)[0] in multiset(order);
    i :| i < |order| && order[i] == Division(0, n, m)[0];
  }

  // ----- the loop of the senders -----

  lemma {:induction false} DivisionBounds(offset: nat, n: nat, m: nat)
    requires m > 0
    ensures forall i :: 0 <= i < |Division(offset, n, m)| ==>
              var r := Division(offset, n, m)[i]; offset <= r.first < r.last <= n && r.last - r.first <= m
    decreases n - offset
  {
    if offset < n && n - offset > m {
      DivisionBounds(offset + m, n, m);
    }
  }

  lemma DivisionStep(offset: nat, n: nat, m: nat)
    requires m > 0
    ensures offset >= n ==> Division(offset, n, m) == []
    ensures offset < n && n - offset <= m ==> Division(offset, n, m) == [Range(offset, n, false)] + Division(n, n, m)
    ensures offset < n && n - offset > m ==>
              Division(offset, n, m) == [Range(offset, offset + m, true)] + Division(offset + m, n, m)
  {
  }

  lemma Aligned8(a: nat, b: nat)
    requires a % 8 == 0
    ensures b % 8 == 0 ==> (a + b) % 8 == 0
  {
  }

  /** The pieces are within the payload and no longer than `m`; they start, and but for the last one end, on 8-byte boundaries. */
  lemma {:induction false} DivisionGood(offset: nat, n: nat, m: nat)
    requires m > 0 && m % 8 == 0 && offset % 8 == 0
    ensures forall i :: 0 <= i < |Division(offset, n, m)| ==>
              var r := Division(offset, n, m)[i];
              && offset <= r.first < r.last <= n && r.last - r.first <= m
              && r.first % 8 == 0 && (r.more ==> (r.last - r.first) % 8 == 0)
    decreases n - offset
  {
    if offset < n && n - offset > m {
      Aligned8(offset, m);
      DivisionGood(offset + m, n, m);
    }
  }
}
