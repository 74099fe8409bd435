/**
 The reassembly buffer shared by the IPv4 and IPv6 receivers: header bytes in the first
 chunk, payload bytes in the following ones, and the hole list threaded through the
 payload bytes that have not arrived yet.
 */
module Reassembly {
  import opened Bytes
  import opened HoleList
  import opened HoleBytes

  const CHUNK_SIZE: int := 1536

  /** A reassembly buffer as its owner sees it: the header, the holes, and the bytes that have arrived. */
  datatype Assembly =
    | Free
    | Busy(header: seq<byte>, dataLen: nat, holes: seq<Hole>, got: map<int, byte>)

  /** A fragment; the one at offset zero also brings the header of the datagram. */
  datatype Fragment = Fragment(range: Range, data: seq<byte>, newHeader: Option<seq<byte>>) {
    predicate Valid() {
      && 0 <= range.first <= range.last && range.last == range.first + |data|
      && range.first % 8 == 0
      && (range.more ==> range.last % 8 == 0)
    }
  }

  function Opened(header: seq<byte>): Assembly {
    Busy(header, 0, [Hole(0, INFINITY)], map[])
  }

  /** The bytes of a fragment, at the offsets where they belong. */
  function Placed(f: Fragment): map<int, byte>
    requires f.Valid()
  {
    map k: int | f.range.first <= k < f.range.last && InRange(f.range, k) :: f.data[k - f.range.first]
  }

  /**
   What one fragment does to a buffer in use. The buffer is dropped when the datagram would
   be too large, when memory runs out, or when a strict receiver sees an overlap.
   */
  function Absorb(a: Assembly, f: Fragment, strict: bool, memoryOk: bool): Assembly
    requires a.Busy? && f.Valid()
  {
    var header := if f.newHeader.Some? then f.newHeader.value else a.header;
    var grows := a.dataLen < f.range.last;
    if f.newHeader.Some? && (|header| + a.dataLen > MAX_DATAGRAM || |header| > CHUNK_SIZE) then Free
    else if grows && (|header| + f.range.last > MAX_DATAGRAM || !memoryOk) then Free
    else if strict && Overlaps(a.holes, f.range) then Free
    else Busy(header, if grows then f.range.last else a.dataLen, Punch(a.holes, f.range), a.got + Placed(f))
  }

  /**
   When a fragment makes the receiver drop the datagram, in numbers: the headers and the payload
   together get longer than 8192 bytes, the headers longer than a chunk, memory is missing for
   payload that is longer than before, or a strict receiver finds that a hole does not hold it.
   */
  lemma DroppedExactly(a: Assembly, f: Fragment, strict: bool, memoryOk: bool)
    requires a.Busy? && f.Valid()
    ensures var h := if f.newHeader.Some? then |f.newHeader.value| else |a.header|;
            Absorb(a, f, strict, memoryOk).Free? <==>
              || (f.newHeader.Some? && (h > 1536 || h + a.dataLen > 8192))
              || (f.range.last > a.dataLen && (h + f.range.last > 8192 || !memoryOk))
              || (strict && Overlaps(a.holes, f.range))
    ensures Absorb(a, f, strict, memoryOk).Busy? ==>
              var b := Absorb(a, f, strict, memoryOk);
              && (f.newHeader.Some? ==> b.header == f.newHeader.value) && (f.newHeader.None? ==> b.header == a.header)
              && b.dataLen >= a.dataLen && b.dataLen >= f.range.last && (b.dataLen == a.dataLen || b.dataLen == f.range.last)
              && (forall k :: 0 <= k < |f.data| ==> f.range.first + k in b.got && b.got[f.range.first + k] == f.data[k])
              && (forall k :: k in a.got && !(f.range.first <= k < f.range.last) ==> k in b.got && b.got[k] == a.got[k])
  {
    hide Overlaps, Punch;
  }

  /**
   The payload lies in chunks of CHUNK_SIZE bytes, one after the other, but a descriptor is
   read through one pointer: no descriptor of a list lies across two chunks.
   */
  lemma DescriptorInChunk(hs: seq<Hole>, dataLen: int, i: nat)
    requires WellFormed(hs, dataLen) && i < |hs|
    ensures hs[i].first / CHUNK_SIZE == (hs[i].first + HOLE_SIZE - 1) / CHUNK_SIZE
  {
    var p := hs[i].first;
    assert GoodHole(hs[i], dataLen);
    var q, k := p / 8, p / 8 / 192;
    assert p == 8 * q && 192 * k <= q < 192 * k + 192;
    assert CHUNK_SIZE * k <= p && p + HOLE_SIZE <= CHUNK_SIZE * k + CHUNK_SIZE;
    InChunk(p, k);
    InChunk(p + HOLE_SIZE - 1, k);
  }

  lemma InChunk(p: int, k: int)
    requires CHUNK_SIZE * k <= p < CHUNK_SIZE * k + CHUNK_SIZE
    ensures p / CHUNK_SIZE == k
  {
  }

  /** A buffer after a fragment, and the complete datagram if there is one. */
  datatype Served = Served(next: Assembly, done: Option<Assembly>)

  function Settle(a: Assembly): Served {
    if a.Busy? && a.holes == [] then Served(Free, Some(a)) else Served(a, None)
  }

  /** A fragment goes to the buffer of its datagram, or to a free one, which starts with `header`. */
  function Take(v: Assembly, header: seq<byte>, f: Fragment, strict: bool, memoryOk: bool): Served
    requires f.Valid()
  {
    Settle(Absorb(if v.Busy? then v else Opened(header), f, strict, memoryOk))
  }

  class FragDesc {
    var inUse: bool          // the buffer has at least one chunk
    var header: seq<byte>    // contents of the first chunk
    var dataLen: nat         // length of the payload known so far
    var firstHole: uint16    // offset of the first hole descriptor
    var bufLen: nat          // payload bytes the buffer gives access to
    const mem: array<byte>   // the payload chunks

    ghost var holes: seq<Hole>    // the list threaded through mem
    ghost var received: set<int>  // offsets of the bytes that have arrived

    constructor ()
      ensures !inUse && fresh(mem) && mem.Length == MAX_DATAGRAM + HOLE_SIZE
    {
      mem := new byte[MAX_DATAGRAM + HOLE_SIZE];
      inUse, header, dataLen, firstHole, bufLen := false, [], 0, INFINITY, 0;
      holes, received := [], {};
    }

    ghost predicate Valid()
      reads this, mem
    {
      && mem.Length == MAX_DATAGRAM + HOLE_SIZE
      && |header| + dataLen <= MAX_DATAGRAM
      && bufLen == dataLen + HOLE_SIZE
      && WellFormed(holes, dataLen)
      && Threaded(mem[..], firstHole, holes)
      && (forall k :: k in received ==> 0 <= k < dataLen && !Missing(holes, k))
    }

    ghost predicate Consistent()
      reads this, mem
    {
      inUse ==> Valid()
    }

    ghost function Abs(): Assembly
      requires Consistent()
      reads this, mem
    {
      if inUse then Busy(header, dataLen, holes, Got()) else Free
    }

    /** The bytes that have arrived. */
    ghost function Got(): map<int, byte>
      requires forall k :: k in received ==> 0 <= k < mem.Length
      reads this, mem
    {
      map k | k in received :: mem[k]
    }

    /** ipv4FindHole and ipv6FindHole: NULL past the end of the buffer. */
    method FindHole(offset: uint16) returns (hole: int)
      ensures hole == if offset < bufLen then offset else NO_HOLE
    {
      hole := if offset < bufLen then offset else NO_HOLE;
    }

    method ReadWord(p: nat) returns (x: uint16)
      requires p + 2 <= mem.Length
      ensures x == Word(mem[..], p)
    {
      x := Join(mem[p], mem[p + 1]);
    }

    method WriteWord(p: nat, x: uint16)
      requires p + 2 <= mem.Length
      modifies mem
      ensures mem[..] == SetWord(old(mem[..]), p, x)
    {
      mem[p], mem[p + 1] := Low(x), High(x);
    }

    /** The list as the loop sees it, with `prev` before the current hole. */
    ghost function Seen(prev: int): Walk
      reads this, mem
    {
      Walk(mem[..], firstHole, prev)
    }

    /** Writes a descriptor and links it behind the one at `prev`, or as the first one. */
    method WriteHole(prev: int, first: uint16, last: uint16)
      requires Anchored(Seen(prev)) && first + HOLE_SIZE <= mem.Length
      modifies this`firstHole, mem
      ensures Seen(first) == Created(old(Seen(prev)), first, last)
    {
      hide SetWord, Word;
      WriteWord(first, first);
      WriteWord(first + 2, last);
      var next := firstHole;
      if prev != NO_HOLE {
        next := ReadWord(prev + 4);
      }
      WriteWord(first + 4, next);
      if prev != NO_HOLE {
        WriteWord(prev + 4, first);
      } else {
        firstHole := first;
      }
    }

    /** Takes the hole at `hole` out of the list; `prev` is the hole before it. */
    method Unlink(prev: int, hole: nat, ghost i: nat)
      requires Valid() && i < |holes|
      requires hole == holes[i].first && prev == if i == 0 then NO_HOLE else holes[i - 1].first
      modifies this`firstHole, this`holes, mem
      ensures Valid() && holes == Without(old(holes), i)
      ensures Seen(prev) == Linked(old(Seen(prev)), Word(old(mem[..]), hole + 4))
      ensures forall k :: 0 <= k < mem.Length && !Missing(old(holes), k) ==> mem[k] == old(mem[k])
    {
      hide SetWord, Word;
      ghost var hs, s := holes, mem[..];
      assert LinkedAt(s, hs, i) && (i > 0 ==> LinkedAt(s, hs, i - 1));
      var next := ReadWord(hole + 4);
      if prev != NO_HOLE {
        WriteWord(prev + 4, next);
      } else {
        firstHole := next;
      }
      UnlinkThreaded(s, old(firstHole), hs, i, dataLen, mem[..], firstHole);
      WithoutWellFormed(hs, i, dataLen);
      holes := Without(hs, i);
      UnlinkTouches(s, mem[..], hs, i, dataLen);
      assert forall k :: 0 <= k < mem.Length ==> mem[k] == mem[..][k];
    }

    /** Puts a new hole into the list after `prev`. */
    method Insert(prev: int, h: Hole, ghost i: nat)
      requires Valid() && i <= |holes|
      requires prev == if i == 0 then NO_HOLE else holes[i - 1].first
      requires WellFormed(With(holes, i, h), dataLen) && GoodHole(h, dataLen)
      requires forall k :: k in received ==> !(h.first <= k < h.last)
      modifies this`firstHole, this`holes, mem
      ensures Valid() && holes == With(old(holes), i, h)
      ensures Seen(h.first) == Created(old(Seen(prev)), h.first, h.last)
      ensures forall k :: 0 <= k < mem.Length && !Missing(holes, k) ==> mem[k] == old(mem[k])
    {
      hide Spaced, Aligned, Threaded, Missing, Created, Word;
      ghost var hs, s := holes, mem[..];
      WithNeighbours(s, firstHole, hs, i, h, dataLen);
      ghost var w := Seen(prev);
      WriteHole(prev, h.first, h.last);
      CreatedRecord(w, h.first, h.last);
      CreatedTouches(w, h.first, h.last);
      InsertThreaded(s, old(firstHole), hs, i, h, dataLen, mem[..], firstHole);
      holes := With(hs, i, h);
      InsertTouches(s, mem[..], hs, i, h, dataLen);
      assert forall k :: 0 <= k < mem.Length ==> mem[k] == mem[..][k];
    }

    /** Creates the hole `h` between `before` and `after`, if it is there; `last` is the hole before `after`. */
    method InsertIf(there: bool, prev: int, h: Hole, ghost before: seq<Hole>, ghost after: seq<Hole>) returns (last: int)
      requires Valid() && holes == before + after && prev == LastOffset(before)
      requires there ==> WellFormed(before + [h] + after, dataLen) && GoodHole(h, dataLen)
      requires there ==> forall k :: k in received ==> !(h.first <= k < h.last)
      modifies this`firstHole, this`holes, mem
      ensures Valid() && holes == before + (if there then [h] else []) + after
      ensures last == LastOffset(before + if there then [h] else [])
      ensures there ==> Anchored(old(Seen(prev)))
      ensures Seen(last) == if there then Created(old(Seen(prev)), h.first, h.last) else old(Seen(prev))
      ensures forall k :: 0 <= k < mem.Length && !Missing(holes, k) ==> mem[k] == old(mem[k])
    {
      hide Spaced, Aligned, Threaded, Missing, Word, Created;
      last := prev;
      if there {
        assert With(holes, |before|, h) == before + [h] + after;
        WithNeighbours(mem[..], firstHole, holes, |before|, h, dataLen);
        Insert(prev, h, |before|);
        last := h.first;
      } else {
        assert before + [] + after == holes && before + [] == before;
      }
    }

    /**
     A fragment touches the hole at `hole`: its descriptor goes, and up to two new ones are
     created. `before` and `after` are the holes around it in the list.
     */
    method CutHole(prev: int, hole: nat, h: Hole, r: Range, ghost before: seq<Hole>, ghost after: seq<Hole>)
      returns (last: int)
      requires Valid() && GoodRange(r) && r.last <= dataLen && holes == before + [h] + after
      requires hole == h.first && Touches(h, r)
      requires prev == LastOffset(before)
      modifies this`firstHole, this`holes, mem
      ensures Valid() && holes == before + Cut(h, r) + after
      ensures last == LastOffset(before + Cut(h, r))
      ensures InReach(old(Seen(prev)), hole, r) && Seen(last) == Visit(old(Seen(prev)), hole, r)
      ensures forall k :: 0 <= k < mem.Length && !Missing(old(holes), k) ==> mem[k] == old(mem[k])
      ensures forall k :: Missing(holes, k) ==> Missing(old(holes), k)
    {
      hide Spaced, Aligned, Threaded, Missing, Word, Linked, Created, Anchored;
      ghost var lower := Lower(h, r);
      CutPieces(before, h, after, r, dataLen);
      HoleInReach(mem[..], firstHole, before, h, after, dataLen, r);
      WithSplice(before, [], h, after);
      assert before + lower + Upper(h, r) == before + Cut(h, r);
      Unlink(prev, hole, |before|);
      last := InsertIf(h.first < r.first, prev, Hole(h.first, r.first), before, after);
      last := InsertIf(r.last < h.last && r.more, last, Hole(r.last, h.last), before + lower, after);
    }

    /** What the loop body does with the hole at `hole`; `last` becomes the previous hole. */
    method VisitHole(prev: int, hole: nat, r: Range, strict: bool, ghost done: seq<Hole>, ghost todo: seq<Hole>)
      returns (overlap: bool, last: int)
      requires Valid() && GoodRange(r) && r.last <= dataLen && holes == done + todo && todo != []
      requires hole == todo[0].first && prev == LastOffset(done)
      modifies this`firstHole, this`holes, mem
      ensures overlap <==> strict && Sticks(todo[0], r)
      ensures !overlap ==> Valid() && holes == done + Cut(todo[0], r) + todo[1..]
      ensures !overlap ==> last == LastOffset(done + Cut(todo[0], r))
      ensures InReach(old(Seen(prev)), hole, r) && (!overlap ==> Seen(last) == Visit(old(Seen(prev)), hole, r))
      ensures forall k :: 0 <= k < mem.Length && !Missing(old(holes), k) ==> mem[k] == old(mem[k])
      ensures !overlap ==> forall k :: Missing(holes, k) ==> Missing(old(holes), k)
    {
      hide Spaced, Aligned, Threaded, Missing;
      ghost var h, after := todo[0], todo[1..];
      assert holes == done + [h] + after;
      WalkThreaded(mem[..], firstHole, done, todo, dataLen);
      var holeFirst := ReadWord(hole);
      var holeLast := ReadWord(hole + 2);
      overlap, last := false, hole;
      if r.first < holeLast && holeFirst < r.last {
        if strict && (r.first < holeFirst || holeLast < r.last) {
          overlap := true;
        } else {
          last := CutHole(prev, hole, Hole(holeFirst, holeLast), r, done, after);
        }
      }
    }

    /** The hole after `prev`, or the first one. */
    method NextHole(prev: int, ghost done: seq<Hole>, ghost todo: seq<Hole>) returns (hole: int)
      requires Valid() && holes == done + todo && prev == LastOffset(done)
      ensures hole == if todo == [] then NO_HOLE else todo[0].first
      ensures todo != [] ==> hole >= 0
      ensures Anchored(Seen(prev)) && hole == if Next(Seen(prev)) < bufLen then Next(Seen(prev)) else NO_HOLE
    {
      hide Spaced, Aligned, Threaded, Missing, Word;
      WalkThreaded(mem[..], firstHole, done, todo, dataLen);
      var next := firstHole;
      if prev != NO_HOLE {
        next := ReadWord(prev + 4);
      }
      hole := FindHole(next);
    }

    /**
     The loop over the hole descriptors. With `strict`, a fragment that touches a hole
     without lying inside it stops the loop, and the caller drops the datagram.
     */
    method PunchHoles(r: Range, strict: bool) returns (overlap: bool)
      requires Valid() && GoodRange(r) && r.last <= dataLen
      modifies this`firstHole, this`holes, mem
      ensures overlap <==> strict && Overlaps(old(holes), r)
      ensures !overlap ==> Valid() && holes == Punch(old(holes), r)
      ensures !overlap ==> Got() == old(Got())
    {
      hide Spaced, Aligned, Threaded, Missing, Cut, Sticks, Visit, Next, Anchored, InReach, Seen;
      ghost var done, todo := [], holes;
      assert done + todo == holes;
      var prev := NO_HOLE;
      var hole := NextHole(prev, done, todo);
      overlap := false;
      while hole != NO_HOLE
        invariant Valid() && holes == done + todo
        invariant done + Punch(todo, r) == Punch(old(holes), r)
        invariant prev == LastOffset(done) && (todo == [] <==> hole == NO_HOLE) && (todo != [] ==> hole == todo[0].first >= 0)
        invariant Overlaps(old(holes), r) && strict ==> Overlaps(todo, r)
        invariant Overlaps(todo, r) ==> Overlaps(old(holes), r)
        invariant forall k :: Missing(holes, k) ==> Missing(old(holes), k)
        invariant forall k :: 0 <= k < mem.Length && !Missing(old(holes), k) ==> mem[k] == old(mem[k])
        decreases |todo|
      {
        ghost var h, after := todo[0], todo[1..];
        overlap, prev := VisitHole(prev, hole, r, strict, done, todo);
        if overlap {
          return;
        }
        assert done + (Cut(h, r) + Punch(after, r)) == done + Cut(h, r) + Punch(after, r);
        done, todo := done + Cut(h, r), after;
        hole := NextHole(prev, done, todo);
      }
      assert done + [] == done;
    }

    /** netBufferSetLength(0): releases the buffer. */
    method Release()
      modifies this`inUse
      ensures !inUse
    {
      inUse := false;
    }

    /** The descriptor for a datagram that is missing as a whole. */
    method WriteFresh()
      requires mem.Length >= HOLE_SIZE
      modifies mem
      ensures Record(mem[..], Hole(0, INFINITY), INFINITY)
    {
      hide SetWord, Word, SameOutside;
      WriteWord(0, 0);
      ghost var s := mem[..];
      WriteWord(2, INFINITY);
      ghost var t := mem[..];
      WriteWord(4, INFINITY);
      WordKept(s, t, 2, 0);
      WordKept(t, mem[..], 4, 0);
      WordKept(t, mem[..], 4, 2);
    }

    /** Takes a free buffer for a new datagram: everything is missing. */
    method Open(hdr: seq<byte>)
      requires mem.Length == MAX_DATAGRAM + HOLE_SIZE && |hdr| <= MAX_DATAGRAM
      modifies this, mem
      ensures inUse && Valid() && Abs() == Opened(hdr)
    {
      header, dataLen, bufLen, firstHole := hdr, 0, HOLE_SIZE, 0;
      inUse := true;
      WriteFresh();
      holes, received := [Hole(0, INFINITY)], {};
      assert LinkedAt(mem[..], holes, 0);
    }

    /** Makes room for payload bytes up to `last`; the bytes that become accessible hold anything. */
    method Grow(last: nat)
      requires Valid() && dataLen <= last && |header| + last <= MAX_DATAGRAM
      modifies this`dataLen, this`bufLen
      ensures Valid() && dataLen == last
    {
      bufLen := last + HOLE_SIZE;
      dataLen := last;
    }

    /** Copies the data of a fragment to its place. */
    method CopyData(f: Fragment)
      requires Valid() && f.Valid() && f.range.last <= dataLen
      requires forall k :: InRange(f.range, k) ==> !Missing(holes, k)
      modifies mem, this`received
      ensures Valid() && Got() == old(Got()) + Placed(f)
    {
      hide Spaced, Aligned, Threaded;
      ghost var s := mem[..];
      var i := 0;
      while i < |f.data|
        invariant 0 <= i <= |f.data| && received == old(received)
        invariant forall k :: 0 <= k < mem.Length ==>
                    mem[k] == if f.range.first <= k < f.range.first + i then f.data[k - f.range.first] else s[k]
      {
        mem[f.range.first + i] := f.data[i];
        i := i + 1;
      }
      received := received + Placed(f).Keys;
      CopyThreaded(s, mem[..], firstHole, holes, dataLen, f.range);
    }

    /** One fragment: header, size checks, hole list, data. What is left is an empty hole list or a free buffer. */
    method Receive(f: Fragment, strict: bool, memoryOk: bool)
      requires inUse && Valid() && f.Valid()
      modifies this, mem
      ensures Consistent() && Abs() == Absorb(old(Abs()), f, strict, memoryOk)
    {
      hide Spaced, Aligned, Threaded, Punch, Overlaps, Missing, Placed;
      if f.newHeader.Some? {
        var hdr := f.newHeader.value;
        if |hdr| + dataLen > MAX_DATAGRAM || |hdr| > CHUNK_SIZE {
          Release();
          return;
        }
        header := hdr;
      }
      if dataLen < f.range.last {
        if |header| + f.range.last > MAX_DATAGRAM || !memoryOk {
          Release();
          return;
        }
        Grow(f.range.last);
      }
      Fill(f, strict);
    }

    /** The holes and the data of a fragment for which there is room. */
    method Fill(f: Fragment, strict: bool)
      requires inUse && Valid() && f.Valid() && f.range.last <= dataLen
      modifies this`firstHole, this`holes, this`received, this`inUse, mem
      ensures Consistent()
      ensures Abs() == if strict && Overlaps(old(holes), f.range) then Free
                       else Busy(header, dataLen, Punch(old(holes), f.range), old(Got()) + Placed(f))
    {
      hide Spaced, Aligned, Threaded, Punch, Overlaps, Missing, Placed;
      ghost var hs := holes;
      var overlap := PunchHoles(f.range, strict);
      if overlap {
        Release();
        return;
      }
      PunchClears(hs, f.range);
      CopyData(f);
    }

    /** The test at the end of the receiver: is there a first hole? */
    method IsComplete() returns (complete: bool)
      requires Valid()
      ensures complete <==> holes == []
    {
      hide Aligned, Missing;
      assert holes != [] ==> GoodHole(holes[0], dataLen);
      var hole := FindHole(firstHole);
      complete := hole == NO_HOLE;
    }

    /**
     What ipv4FragTick does with a buffer whose time is over: the buffer is dropped, and when
     the start of the payload has arrived, the bytes before the first hole are reported.
     */
    method Expire() returns (partial: Option<seq<byte>>)
      requires inUse && Valid()
      modifies this`inUse
      ensures !inUse
      ensures partial.Some? <==> holes != [] && holes[0].first > 0
      ensures partial.Some? ==> |partial.value| == holes[0].first <= dataLen
                                && forall k :: k in Got() && k < holes[0].first ==> partial.value[k] == Got()[k]
    {
      hide Aligned, Missing;
      assert holes != [] ==> GoodHole(holes[0], dataLen) && LinkedAt(mem[..], holes, 0);
      partial := None;
      var hole := FindHole(firstHole);
      if hole != NO_HOLE {
        var first := ReadWord(hole);
        if first > 0 {
          partial := Some(mem[..first]);
        }
      }
      Release();
    }

    /** The payload of a buffer, without the room for a descriptor after it. */
    method Payload() returns (p: seq<byte>)
      requires Valid()
      ensures |p| == dataLen && forall k :: k in Got() ==> p[k] == Got()[k]
    {
      p := mem[..dataLen];
    }
  }
}
