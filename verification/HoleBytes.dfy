/**
 The hole list inside the bytes that have not arrived: descriptors, their links, and the loop
 of the receivers as it reads and writes them.
 */
module HoleBytes {
  import opened Bytes
  import opened HoleList

  /** The 16-bit word stored at offset `p` of the payload. */
  function Word(s: seq<byte>, p: nat): uint16
    requires p + 2 <= |s|
  {
    Join(s[p], s[p + 1])
  }

  /** The first six bytes of `h` are its descriptor. */
  ghost predicate Record(s: seq<byte>, h: Hole, next: int) {
    && 0 <= h.first && h.first + HOLE_SIZE <= |s|
    && Word(s, h.first) == h.first && Word(s, h.first + 2) == h.last && Word(s, h.first + 4) == next
  }

  /** Following `next` from `head` meets exactly the holes of `hs`, in order. */
  ghost predicate Threaded(s: seq<byte>, head: int, hs: seq<Hole>) {
    && head == Link(hs, 0)
    && forall i :: 0 <= i < |hs| ==> LinkedAt(s, hs, i)
  }

  /** The `i`th descriptor is in place and points to the one after it. */
  ghost predicate LinkedAt(s: seq<byte>, hs: seq<Hole>, i: nat) {
    i < |hs| && Record(s, hs[i], Link(hs, i + 1))
  }

  /** `t` differs from `s` only in [p, p + n). */
  ghost predicate SameOutside(s: seq<byte>, t: seq<byte>, p: int, n: int) {
    |t| == |s| && forall k :: 0 <= k < |s| && !(p <= k < p + n) ==> t[k] == s[k]
  }

  /** Byte `k` belongs to the descriptor of the `j`th hole. */
  predicate InRecord(hs: seq<Hole>, j: nat, k: int) {
    j < |hs| && hs[j].first <= k < hs[j].first + HOLE_SIZE
  }

  /** Writes inside the descriptors of other holes, at most two, leave the bytes of a descriptor as they were. */
  lemma RecordKept(s: seq<byte>, t: seq<byte>, hs: seq<Hole>, o: nat, dataLen: int, a: nat, b: nat)
    requires Spaced(hs, dataLen) && o < |hs| && o != a && o != b
    requires 0 <= hs[o].first && hs[o].first + HOLE_SIZE <= |s| == |t|
    requires forall k :: 0 <= k < |s| && t[k] != s[k] ==> InRecord(hs, a, k) || InRecord(hs, b, k)
    ensures forall k :: hs[o].first <= k < hs[o].first + HOLE_SIZE ==> t[k] == s[k]
  {
    hide Spaced;
    if a < |hs| {
      RecordsApart(hs, o, a, dataLen);
    }
    if b < |hs| {
      RecordsApart(hs, o, b, dataLen);
    }
  }

  /** A descriptor is what its six bytes are. */
  lemma SameRecord(s: seq<byte>, t: seq<byte>, h: Hole, next: int)
    requires Record(s, h, next) && |t| == |s|
    requires forall k :: h.first <= k < h.first + HOLE_SIZE ==> t[k] == s[k]
    ensures Record(t, h, next)
  {
  }

  lemma RecordsApart(hs: seq<Hole>, i: nat, j: nat, dataLen: int)
    requires Spaced(hs, dataLen) && i < |hs| && j < |hs| && i != j
    ensures hs[i].first + HOLE_SIZE <= hs[j].first || hs[j].first + HOLE_SIZE <= hs[i].first
  {
    assert GoodHole(hs[i], dataLen) && GoodHole(hs[j], dataLen);
  }

  /** Rewriting the third word of a descriptor changes where it points and nothing else. */
  lemma Relinked(s: seq<byte>, t: seq<byte>, h: Hole, next: int)
    requires 0 <= h.first && h.first + HOLE_SIZE <= |s| == |t|
    requires Word(s, h.first) == h.first && Word(s, h.first + 2) == h.last
    requires forall k :: h.first <= k < h.first + 4 ==> t[k] == s[k]
    requires Word(t, h.first + 4) == next
    ensures Record(t, h, next)
  {
  }

  /** Redirecting the predecessor's `next`, or the head, takes one hole out of the list. */
  lemma UnlinkThreaded(s: seq<byte>, head: int, hs: seq<Hole>, i: nat, dataLen: int, t: seq<byte>, head': int)
    requires Spaced(hs, dataLen) && Threaded(s, head, hs) && i < |hs|
    requires if i == 0 then t == s && head' == Link(hs, 1)
             else head' == head && SameOutside(s, t, hs[i - 1].first + 4, 2) && 0 <= hs[i - 1].first
                  && hs[i - 1].first + 6 <= |t| && Word(t, hs[i - 1].first + 4) == Link(hs, i + 1)
    ensures Threaded(t, head', Without(hs, i))
  {
    hide Spaced;
    var rest := Without(hs, i);
    assert forall j :: 0 <= j < |rest| ==> rest[j] == hs[if j < i then j else j + 1];
    forall j | 0 <= j < |rest| ensures LinkedAt(t, rest, j) {
      var o := if j < i then j else j + 1;
      assert LinkedAt(s, hs, o);
      if j == i - 1 {
        Relinked(s, t, hs[o], Link(hs, i + 1));
      } else if i > 0 {
        RecordKept(s, t, hs, o, dataLen, i - 1, i - 1);
        SameRecord(s, t, hs[o], Link(hs, o + 1));
      }
    }
  }

  /** Writing a descriptor into a gap and linking it behind its predecessor adds one hole to the list. */
  lemma InsertThreaded(s: seq<byte>, head: int, hs: seq<Hole>, i: nat, h: Hole, dataLen: int, t: seq<byte>, head': int)
    requires i <= |hs| && Spaced(With(hs, i, h), dataLen) && Threaded(s, head, hs) && |t| == |s|
    requires Record(t, h, Link(hs, i))
    requires forall k :: 0 <= k < |s| && t[k] != s[k] ==>
               h.first <= k < h.first + HOLE_SIZE || (i > 0 && hs[i - 1].first + 4 <= k < hs[i - 1].first + HOLE_SIZE)
    requires if i == 0 then head' == h.first
             else head' == head && 0 <= hs[i - 1].first && hs[i - 1].first + 6 <= |t|
                  && Word(t, hs[i - 1].first + 4) == h.first
    ensures Threaded(t, head', With(hs, i, h))
  {
    hide Spaced;
    var more := With(hs, i, h);
    assert forall j :: 0 <= j < |more| ==> more[j] == if j < i then hs[j] else if j == i then h else hs[j - 1];
    forall j | 0 <= j < |more| ensures LinkedAt(t, more, j) {
      if j != i {
        var o := if j < i then j else j - 1;
        assert LinkedAt(s, hs, o);
        if j == i - 1 {
          RecordsApart(more, j, i, dataLen);
          Relinked(s, t, more[j], h.first);
        } else {
          RecordKept(s, t, more, j, dataLen, i, if i == 0 then i else i - 1);
          SameRecord(s, t, more[j], Link(hs, o + 1));
        }
      }
    }
  }

  /** Unlinking writes only inside holes. */
  lemma UnlinkTouches(s: seq<byte>, t: seq<byte>, hs: seq<Hole>, i: nat, dataLen: int)
    requires Spaced(hs, dataLen) && i < |hs|
    requires if i == 0 then t == s else SameOutside(s, t, hs[i - 1].first + 4, 2)
    ensures |t| == |s| && forall k :: 0 <= k < |s| && !Missing(hs, k) ==> t[k] == s[k]
  {
    if i > 0 {
      forall k | 0 <= k < |s| && !Missing(hs, k) ensures t[k] == s[k] {
        assert GoodHole(hs[i - 1], dataLen) && !(hs[i - 1].first <= k < hs[i - 1].last);
      }
    }
  }

  /** Inserting writes only inside holes, and makes nothing missing outside the new one. */
  lemma InsertTouches(s: seq<byte>, t: seq<byte>, hs: seq<Hole>, i: nat, h: Hole, dataLen: int)
    requires i <= |hs| && Spaced(With(hs, i, h), dataLen) && |t| == |s|
    requires forall k :: 0 <= k < |s| && t[k] != s[k] ==>
               h.first <= k < h.first + HOLE_SIZE || (i > 0 && hs[i - 1].first + 4 <= k < hs[i - 1].first + HOLE_SIZE)
    ensures forall k :: 0 <= k < |s| && !Missing(With(hs, i, h), k) ==> t[k] == s[k]
    ensures forall k :: !Missing(hs, k) && !(h.first <= k < h.last) ==> !Missing(With(hs, i, h), k)
  {
    var more := With(hs, i, h);
    assert more[i] == h && (i > 0 ==> more[i - 1] == hs[i - 1]);
    forall k ensures Missing(more, k) <==> Missing(hs, k) || h.first <= k < h.last {
      WithMissing(hs, i, h, k);
    }
    forall k | 0 <= k < |s| && !Missing(more, k) ensures t[k] == s[k] {
      assert GoodHole(more[i], dataLen);
      if i > 0 {
        assert GoodHole(more[i - 1], dataLen) && !(more[i - 1].first <= k < more[i - 1].last);
      }
    }
  }

  /** What is known about a new hole and the descriptor before it. */
  lemma WithNeighbours(s: seq<byte>, head: int, hs: seq<Hole>, i: nat, h: Hole, dataLen: int)
    requires i <= |hs| && WellFormed(With(hs, i, h), dataLen) && Threaded(s, head, hs)
    ensures GoodHole(h, dataLen)
    ensures i == 0 ==> head == Link(hs, 0)
    ensures i > 0 ==> GoodHole(hs[i - 1], dataLen) && hs[i - 1].last <= h.first && Record(s, hs[i - 1], Link(hs, i))
  {
    var more := With(hs, i, h);
    assert more[i] == h;
    if i > 0 {
      assert more[i - 1] == hs[i - 1] && LinkedAt(s, hs, i - 1);
    }
  }

  /** The descriptors met while walking the list: the one after `done`, and the last one of `done`. */
  lemma WalkThreaded(s: seq<byte>, head: int, done: seq<Hole>, todo: seq<Hole>, dataLen: int)
    requires Spaced(done + todo, dataLen) && Threaded(s, head, done + todo)
    ensures done == [] ==> head == Link(todo, 0)
    ensures todo != [] ==> GoodHole(todo[0], dataLen) && Record(s, todo[0], Link(todo, 1))
    ensures done != [] ==> 0 <= LastOffset(done) <= dataLen && LastOffset(done) + HOLE_SIZE <= |s|
                           && Word(s, LastOffset(done) + 4) == Link(todo, 0)
  {
    var hs := done + todo;
    if todo != [] {
      assert hs[|done|] == todo[0] && LinkedAt(s, hs, |done|);
      assert |todo| > 1 ==> hs[|done| + 1] == todo[1];
    }
    if done != [] {
      assert hs[|done| - 1] == done[|done| - 1] && LinkedAt(s, hs, |done| - 1);
      assert GoodHole(hs[|done| - 1], dataLen);
    }
  }

  /** Data copied into bytes that are no longer missing destroys no descriptor. */
  lemma CopyThreaded(s: seq<byte>, t: seq<byte>, head: int, hs: seq<Hole>, dataLen: int, r: Range)
    requires Spaced(hs, dataLen) && Threaded(s, head, hs) && |t| == |s|
    requires forall k :: InRange(r, k) ==> !Missing(hs, k)
    requires forall k :: 0 <= k < |s| && t[k] != s[k] ==> InRange(r, k)
    ensures Threaded(t, head, hs)
  {
    forall i | 0 <= i < |hs| ensures LinkedAt(t, hs, i) {
      assert LinkedAt(s, hs, i) && GoodHole(hs[i], dataLen);
      forall k | hs[i].first <= k < hs[i].first + HOLE_SIZE ensures t[k] == s[k] {
        assert Missing(hs, k);
      }
      Relinked(s, t, hs[i], Link(hs, i + 1));
    }
  }

  // ----- the loop on the bytes, whatever they hold -----

  /** What the loop works on: the bytes, the offset of the first hole, and the hole before the current one. */
  datatype Walk = Walk(mem: seq<byte>, head: uint16, prev: int)

  function SetWord(s: seq<byte>, p: nat, x: uint16): (t: seq<byte>)
    requires p + 2 <= |s|
    ensures |t| == |s| && SameOutside(s, t, p, 2) && Word(t, p) == x
  {
    s[p := Low(x)][p + 1 := High(x)]
  }

  /** The descriptor before the current one is inside the bytes. */
  predicate Anchored(w: Walk) {
    w.prev == NO_HOLE || 0 <= w.prev <= |w.mem| - HOLE_SIZE
  }

  /** Where the link to the current hole points. */
  function Next(w: Walk): uint16
    requires Anchored(w)
  {
    if w.prev == NO_HOLE then w.head else Word(w.mem, w.prev + 4)
  }

  function Linked(w: Walk, next: uint16): (v: Walk)
    requires Anchored(w)
    ensures |v.mem| == |w.mem| && v.prev == w.prev
  {
    if w.prev == NO_HOLE then w.(head := next) else w.(mem := SetWord(w.mem, w.prev + 4, next))
  }

  /** A new descriptor behind the previous one, which it becomes. */
  function Created(w: Walk, first: uint16, last: uint16): (v: Walk)
    requires Anchored(w) && first + HOLE_SIZE <= |w.mem|
    ensures Anchored(v) && |v.mem| == |w.mem| && v.prev == first
  {
    var a := w.(mem := SetWord(SetWord(w.mem, first, first), first + 2, last));
    var b := a.(mem := SetWord(a.mem, first + 4, Next(a)));
    Linked(b, first).(prev := first)
  }

  /** The loop can visit `hole`: all that it reads and writes is inside the bytes. */
  predicate InReach(w: Walk, hole: int, r: Range) {
    && Anchored(w) && 0 <= hole <= |w.mem| - HOLE_SIZE && Word(w.mem, hole) <= |w.mem| - HOLE_SIZE
    && 0 <= r.first <= INFINITY && 0 <= r.last <= |w.mem| - HOLE_SIZE && r.last <= INFINITY
  }

  /** One iteration without the test for overlaps, exactly as the loop reads and writes the bytes. */
  function Visit(w: Walk, hole: nat, r: Range): (v: Walk)
    requires InReach(w, hole, r)
    ensures Anchored(v) && |v.mem| == |w.mem|
  {
    var first, last := Word(w.mem, hole), Word(w.mem, hole + 2);
    if r.first < last && first < r.last then
      var a := Linked(w, Word(w.mem, hole + 4));
      var b := if first < r.first then Created(a, first, r.first) else a;
      if r.last < last && r.more then Created(b, r.last, last) else b
    else w.(prev := hole)
  }

  /** The loop goes on for at least `n` iterations; `bufLen` bytes can be reached through a link. */
  predicate Iterates(w: Walk, r: Range, bufLen: nat, n: nat)
    decreases n
  {
    n == 0 ||
    (Anchored(w) && Next(w) < bufLen && InReach(w, Next(w), r) && Iterates(Visit(w, Next(w), r), r, bufLen, n - 1))
  }

  lemma WordKept(s: seq<byte>, t: seq<byte>, p: int, q: nat)
    requires SameOutside(s, t, p, 2) && q + 2 <= |s| && (q + 2 <= p || p + 2 <= q)
    ensures Word(t, q) == Word(s, q)
  {
  }

  /** Creating a descriptor apart from the previous one writes it, and links it behind the previous one. */
  lemma CreatedRecord(w: Walk, first: uint16, last: uint16)
    requires Anchored(w) && first + HOLE_SIZE <= |w.mem|
    requires w.prev == NO_HOLE || w.prev + HOLE_SIZE <= first
    ensures var v := Created(w, first, last);
            && Record(v.mem, Hole(first, last), Next(w))
            && (w.prev == NO_HOLE ==> v.head == first)
            && (w.prev != NO_HOLE ==>
                  && v.head == w.head && Word(v.mem, w.prev) == Word(w.mem, w.prev)
                  && Word(v.mem, w.prev + 2) == Word(w.mem, w.prev + 2) && Word(v.mem, w.prev + 4) == first)
  {
    hide SetWord, Word, SameOutside;
    var m0 := w.mem;
    var m1 := SetWord(m0, first, first);
    var m2 := SetWord(m1, first + 2, last);
    var m3 := SetWord(m2, first + 4, Next(w.(mem := m2)));
    WordKept(m1, m2, first + 2, first);
    WordKept(m2, m3, first + 4, first);
    WordKept(m2, m3, first + 4, first + 2);
    if w.prev != NO_HOLE {
      var q := w.prev;
      forall k | k in {q, q + 2, q + 4} ensures Word(m2, k) == Word(m0, k) && Word(m3, k) == Word(m0, k) {
        WordKept(m0, m1, first, k);
        WordKept(m1, m2, first + 2, k);
        WordKept(m2, m3, first + 4, k);
      }
      var m4 := SetWord(m3, q + 4, first);
      forall k | k in {q, q + 2, first, first + 2, first + 4} ensures Word(m4, k) == Word(m3, k) {
        WordKept(m3, m4, q + 4, k);
      }
    }
  }

  /** In a threaded list the loop can visit every hole, and finds its bounds there. */
  lemma HoleInReach(s: seq<byte>, head: uint16, before: seq<Hole>, h: Hole, after: seq<Hole>, dataLen: int, r: Range)
    requires Spaced(before + [h] + after, dataLen) && Threaded(s, head, before + [h] + after)
    requires dataLen + HOLE_SIZE <= |s| <= INFINITY && 0 <= r.first <= r.last <= dataLen
    ensures InReach(Walk(s, head, LastOffset(before)), h.first, r)
    ensures Word(s, h.first) == h.first && Word(s, h.first + 2) == h.last
    ensures before != [] ==> LastOffset(before) >= 0
  {
    hide Spaced, Threaded, Word;
    assert before + [h] + after == before + ([h] + after);
    WalkThreaded(s, head, before, [h] + after, dataLen);
  }

  lemma CreatedTouches(w: Walk, first: uint16, last: uint16)
    requires Anchored(w) && first + HOLE_SIZE <= |w.mem|
    ensures forall k :: 0 <= k < |w.mem| && Created(w, first, last).mem[k] != w.mem[k] ==>
              first <= k < first + HOLE_SIZE || (w.prev != NO_HOLE && w.prev + 4 <= k < w.prev + HOLE_SIZE)
  {
  }

  /** A descriptor that the loop passes and that points to itself is never left. */
  lemma {:induction false} Stuck(w: Walk, h: Hole, r: Range, bufLen: nat, n: nat)
    requires Record(w.mem, h, h.first) && w.prev == h.first < bufLen && !Touches(h, r) && InReach(w, h.first, r)
    ensures Iterates(w, r, bufLen, n)
  {
    hide Word;
    if n > 0 {
      assert Next(w) == h.first && Visit(w, h.first, r) == w;
      Stuck(w, h, r, bufLen, n - 1);
    }
  }

  /** A fresh buffer after a wrapped fragment with more to follow: two descriptors, for overlapping holes. */
  lemma WrappedVisit(s: seq<byte>, r: Range)
    requires |s| <= INFINITY && Record(s, Hole(0, INFINITY), INFINITY) && r.more
    requires 8 <= r.last < r.first < INFINITY && r.last + HOLE_SIZE <= |s|
    ensures var w := Visit(Walk(s, 0, NO_HOLE), 0, r);
            && w.head == 0 && w.prev == r.last && Next(w) == INFINITY
            && Record(w.mem, Hole(0, r.first), r.last) && Record(w.mem, Hole(r.last, INFINITY), INFINITY)
  {
    hide SetWord, Word, Created;
    var a := Walk(s, INFINITY, NO_HOLE);
    CreatedRecord(a, 0, r.first);
    CreatedRecord(Created(a, 0, r.first), r.last, INFINITY);
  }

  /**
   Why a receiver has to refuse wrapped fragments: after one of them, with more to follow, the
   fragment up to the offset to which it wrapped is enough for the loop never to end. For the
   first the loop ends after one iteration; in the second the descriptor at `r.last` points to
   itself from the first iteration on.
   */
  lemma NeverEnds(s: seq<byte>, r: Range, n: nat)
    requires |s| <= INFINITY && Record(s, Hole(0, INFINITY), INFINITY) && r.more
    requires 8 <= r.last < r.first < INFINITY && r.last + HOLE_SIZE <= |s|
    ensures var w := Visit(Walk(s, 0, NO_HOLE), 0, r);
            && Next(w) == INFINITY && w.head == 0
            && Iterates(Walk(w.mem, w.head, NO_HOLE), Range(0, r.last, true), r.last + HOLE_SIZE, n)
  {
    hide Visit;
    WrappedVisit(s, r);
    var t := Visit(Walk(s, 0, NO_HOLE), 0, r).mem;
    if n > 0 {
      WrappedLoops(t, r);
      var w := Visit(Walk(t, 0, NO_HOLE), 0, Range(0, r.last, true));
      Stuck(w, Hole(r.last, r.first), Range(0, r.last, true), r.last + HOLE_SIZE, n - 1);
    }
  }

  lemma WrappedLoops(t: seq<byte>, r: Range)
    requires |t| <= INFINITY && Record(t, Hole(0, r.first), r.last)
    requires 8 <= r.last < r.first < INFINITY && r.last + HOLE_SIZE <= |t|
    ensures InReach(Walk(t, 0, NO_HOLE), 0, Range(0, r.last, true))
    ensures var w := Visit(Walk(t, 0, NO_HOLE), 0, Range(0, r.last, true));
            Record(w.mem, Hole(r.last, r.first), r.last) && w.prev == r.last && |w.mem| == |t|
  {
    hide SetWord, Word, Created;
    CreatedRecord(Walk(t, r.last, NO_HOLE), r.last, r.first);
  }
}
