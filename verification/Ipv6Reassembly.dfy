/**
 The IPv6 receiver. The hole list and the queue are those of IPv4; what is new is the Fragment
 header, the Next Header field patched back, the identification kept beside the buffer, and
 the configuration that drops a datagram with overlapping fragments.
 */
module Ipv6Reassembly {
  import opened Bytes
  import opened HoleList
  import opened HoleBytes
  import opened Reassembly
  import opened ReassemblyQueue
  import opened Fragmentation
  import opened Ipv6Frag

  // ----- packets -----

  /** A packet and where its Fragment header, and the Next Header field that announces it, are. */
  datatype Incoming = Incoming(bytes: seq<byte>, fragHeader: nat, nextHeader: nat)

  /** What the extension header parser guarantees: the field is in the IPv6 header or the first byte of a later one. */
  predicate Checked(p: Incoming) {
    && HEADER_SIZE <= p.fragHeader <= |p.bytes|
    && (p.nextHeader == NEXT_HEADER || HEADER_SIZE <= p.nextHeader < p.fragHeader)
  }

  /** The headers before the Fragment header, with the Next Header field that announced it taken from it. */
  function UnfragmentablePart(p: Incoming): seq<byte>
    requires Checked(p) && p.fragHeader < |p.bytes|
  {
    p.bytes[..p.fragHeader][p.nextHeader := p.bytes[p.fragHeader]]
  }

  /** The offset in the Fragment Offset field, without its three low-order bits. */
  function First(x: uint16): (r: nat)
    ensures r <= x && r % 8 == 0
  {
    x - x % 8
  }

  predicate More(x: uint16) {
    x % 2 == 1
  }

  /** The Fragment header is whole, and the last byte of the data has a 16-bit index. */
  predicate InBounds(p: Incoming)
    requires Checked(p)
  {
    p.fragHeader + FRAG_HEADER_SIZE <= |p.bytes| ==>
      First(Be16(p.bytes, p.fragHeader + 2)) + (|p.bytes| - p.fragHeader - FRAG_HEADER_SIZE) <= MAX_PACKET
  }

  /** The fragment in a packet: none when the Fragment header is cut short, or when more data follows an odd length. */
  function Parse(p: Incoming): (f: Option<Fragment>)
    requires Checked(p) && InBounds(p)
    ensures f.Some? ==> f.value.Valid()
  {
    if |p.bytes| < p.fragHeader + FRAG_HEADER_SIZE then None
    else
      var data := p.bytes[p.fragHeader + FRAG_HEADER_SIZE..];
      var x := Be16(p.bytes, p.fragHeader + 2);
      var first := First(x);
      if More(x) && |data| % 8 != 0 then None
      else
        Aligned8(first, |data|);
        Some(Fragment(Range(first, first + |data|, More(x)), data,
                         if first == 0 then Some(UnfragmentablePart(p)) else None))
  }

  const ADDRESSES: int := 8  // offset of the source and destination address

  /** The fields that tell datagrams apart: source and destination address, and identification. */
  function KeyOf(header: seq<byte>, id: seq<byte>): seq<byte>
    requires |header| >= HEADER_SIZE
  {
    header[ADDRESSES..HEADER_SIZE] + id
  }

  /** The Identification field of the Fragment header. */
  function Identification(p: Incoming): seq<byte>
    requires Checked(p) && p.fragHeader + FRAG_HEADER_SIZE <= |p.bytes|
  {
    p.bytes[p.fragHeader + 4..p.fragHeader + FRAG_HEADER_SIZE]
  }

  /** What the receiver reads out of a packet; without a whole Fragment header there is no fragment to find a buffer for. */
  function Read(p: Incoming, openOk: bool, growOk: bool): (r: Reading)
    requires Checked(p) && InBounds(p)
    ensures r.Valid()
  {
    Reading(if p.fragHeader + FRAG_HEADER_SIZE <= |p.bytes| then KeyOf(p.bytes, Identification(p)) else [],
            p.bytes[..HEADER_SIZE], Parse(p), openOk, growOk)
  }

  predicate Keyed(header: seq<byte>, id: seq<byte>, key: seq<byte>) {
    |header| >= HEADER_SIZE && KeyOf(header, id) == key
  }

  /** The headers that a packet brings have its key. */
  lemma ReadHeader(p: Incoming)
    requires Checked(p) && InBounds(p) && Parse(p).Some?
    ensures var r := Read(p, true, true);
            && Keyed(r.header, Identification(p), r.key) && |r.header| <= MAX_DATAGRAM
            && (r.fragment.value.newHeader.Some? ==> Keyed(r.fragment.value.newHeader.value, Identification(p), r.key))
  {
    var h := p.bytes[..HEADER_SIZE];
    assert h[ADDRESSES..HEADER_SIZE] == p.bytes[ADDRESSES..HEADER_SIZE];
    var u := UnfragmentablePart(p);
    assert u[ADDRESSES..HEADER_SIZE] == p.bytes[ADDRESSES..HEADER_SIZE];
  }

  /** Packets belong to the same datagram exactly when they agree in both addresses and the identification. */
  lemma SameDatagram(h: seq<byte>, id: seq<byte>, g: seq<byte>, jd: seq<byte>)
    requires |h| >= HEADER_SIZE && |g| >= HEADER_SIZE
    ensures KeyOf(h, id) == KeyOf(g, jd) <==> h[8..24] == g[8..24] && h[24..40] == g[24..40] && id == jd
  {
    SameKey(h, id, g, jd);
    assert h[8..40] == h[8..24] + h[24..40] && g[8..40] == g[8..24] + g[24..40];
    assert h[8..40][..16] == h[8..24] && h[8..40][16..] == h[24..40];
    assert g[8..40][..16] == g[8..24] && g[8..40][16..] == g[24..40];
  }

  lemma SameKey(h: seq<byte>, id: seq<byte>, g: seq<byte>, jd: seq<byte>)
    requires |h| >= HEADER_SIZE && |g| >= HEADER_SIZE
    ensures KeyOf(h, id) == KeyOf(g, jd) <==> h[ADDRESSES..HEADER_SIZE] == g[ADDRESSES..HEADER_SIZE] && id == jd
  {
    var n := HEADER_SIZE - ADDRESSES;
    assert KeyOf(h, id)[..n] == h[ADDRESSES..HEADER_SIZE] && KeyOf(h, id)[n..] == id;
    assert KeyOf(g, jd)[..n] == g[ADDRESSES..HEADER_SIZE] && KeyOf(g, jd)[n..] == jd;
  }

  /** `d` is the packet that a complete buffer holds, with its payload length set. */
  ghost predicate Delivers(d: seq<byte>, a: Assembly) {
    && a.Busy? && HEADER_SIZE <= |a.header| && |a.header| + a.dataLen <= MAX_PACKET
    && |d| == |a.header| + a.dataLen
    && d[..|a.header|] == SetBe16(a.header, 4, |a.header| + a.dataLen - HEADER_SIZE)
    && forall k :: k in a.got && 0 <= k < a.dataLen ==> d[|a.header| + k] == a.got[k]
  }

  /** A buffer keeps the key of its datagram. */
  lemma AbsorbKeyed(a: Assembly, f: Fragment, strict: bool, growOk: bool, id: seq<byte>, key: seq<byte>)
    requires a.Busy? && f.Valid() && Keyed(a.header, id, key)
    requires f.newHeader.Some? ==> Keyed(f.newHeader.value, id, key)
    ensures var b := Absorb(a, f, strict, growOk); b.Busy? ==> Keyed(b.header, id, key)
  {
    hide Keyed;
  }

  lemma OpenedHeader(header: seq<byte>)
    ensures Opened(header).Busy? && Opened(header).header == header
  {
  }

  // ----- the queue in memory -----

  class FragQueue {
    const slots: seq<FragDesc>
    var ids: seq<seq<byte>>       // the identification of each slot
    const strict: bool            // without support for overlapping fragments
    ghost var queue: seq<Slot>    // what the slots hold

    constructor (strict: bool)
      ensures Valid() && fresh(slots) && fresh(Memory())
      ensures this.strict == strict && queue == Fresh()
    {
      var a := new FragDesc();
      var b := new FragDesc();
      var c := new FragDesc();
      var d := new FragDesc();
      slots := [a, b, c, d];
      ids := [[], [], [], []];
      this.strict := strict;
      queue := Fresh();
    }

    ghost function Memory(): set<object> {
      set s | s in slots :: s.mem
    }

    /** The buffer is in order, holds what the queue says, and has the key of the datagram. */
    ghost predicate GoodSlot(s: FragDesc, id: seq<byte>, e: Slot)
      reads s, s.mem
    {
      && s.mem.Length == MAX_DATAGRAM + HOLE_SIZE && s.Consistent() && s.Abs() == e.buffer
      && (e.buffer.Busy? ==> Keyed(e.buffer.header, id, e.key))
    }

    ghost predicate Valid()
      reads this, slots, Memory()
    {
      && |slots| == |ids| == |queue| == MAX_DATAGRAMS
      && (forall i, j :: 0 <= i < j < |slots| ==> slots[i] != slots[j] && slots[i].mem != slots[j].mem)
      && forall i :: 0 <= i < |slots| ==> GoodSlot(slots[i], ids[i], queue[i])
    }

    /** ipv6SearchFragQueue up to the opening of a new buffer: the slot of the datagram, and the first free one. */
    method Search(header: seq<byte>, id: seq<byte>) returns (i: nat, j: nat)
      requires Valid() && |header| >= HEADER_SIZE
      ensures i == Find(queue, KeyOf(header, id)) && j == FirstFree(queue)
    {
      hide KeyOf;
      i := 0;
      while i < |slots|
        invariant 0 <= i <= |slots|
        invariant forall k :: 0 <= k < i ==> !HasKey(queue[k], KeyOf(header, id))
      {
        assert GoodSlot(slots[i], ids[i], queue[i]);
        if slots[i].inUse {
          SameKey(slots[i].header, ids[i], header, id);
          if slots[i].header[ADDRESSES..HEADER_SIZE] == header[ADDRESSES..HEADER_SIZE] && ids[i] == id {
            break;
          }
        }
        i := i + 1;
      }
      j := 0;
      while j < |slots| && slots[j].inUse
        invariant 0 <= j <= |slots|
        invariant forall k :: 0 <= k < j ==> !queue[k].buffer.Free?
      {
        assert GoodSlot(slots[j], ids[j], queue[j]);
        j := j + 1;
      }
    }

    /** The second half of ipv6SearchFragQueue: a free slot starts a new datagram. */
    method OpenSlot(k: nat, header: seq<byte>, id: seq<byte>)
      requires Valid() && k < |slots| && HEADER_SIZE <= |header| <= MAX_DATAGRAM
      modifies this`queue, this`ids, slots[k], slots[k].mem
      ensures Valid() && queue == old(queue)[k := Slot(KeyOf(header, id), Opened(header))] && ids == old(ids)[k := id]
    {
      hide Opened, KeyOf;
      assert forall m :: 0 <= m < |slots| && m != k ==> GoodSlot(slots[m], ids[m], queue[m]);
      slots[k].Open(header);
      ids := ids[k := id];
      queue := queue[k := Slot(KeyOf(header, id), Opened(header))];
      OpenedHeader(header);
      assert GoodSlot(slots[k], ids[k], queue[k]);
    }

    method ServeAt(k: nat, f: Fragment, growOk: bool) returns (datagram: Option<seq<byte>>)
      requires Valid() && k < |slots| && queue[k].buffer.Busy? && f.Valid()
      requires f.newHeader.Some? ==> Keyed(f.newHeader.value, ids[k], queue[k].key)
      modifies this`queue, slots[k], slots[k].mem
      ensures Valid()
      ensures var r := Settle(Absorb(old(queue[k].buffer), f, strict, growOk));
              && queue == old(queue)[k := Slot(old(queue[k].key), r.next)]
              && (datagram.Some? <==> r.done.Some?)
              && (r.done.Some? ==> Delivers(datagram.value, r.done.value))
    {
      hide Absorb, Delivers, Keyed, FragDesc.Valid, FragDesc.Got;
      assert forall m :: 0 <= m < |slots| ==> GoodSlot(slots[m], ids[m], queue[m]);
      datagram := ServeSlot(slots[k], f, strict, growOk, ids[k], queue[k].key);
      queue := queue[k := Slot(queue[k].key, Settle(Absorb(queue[k].buffer, f, strict, growOk)).next)];
      assert GoodSlot(slots[k], ids[k], queue[k]);
    }

    /** ipv6ParseFragmentHeader. `openOk` and `growOk` say whether there is memory for a new buffer and for a longer one. */
    method ParseFragmentHeader(p: Incoming, openOk: bool, growOk: bool) returns (datagram: Option<seq<byte>>)
      requires Valid() && Checked(p) && InBounds(p)
      modifies this`queue, this`ids, slots, Memory()
      ensures Valid()
      ensures queue == Serve(old(queue), Read(p, openOk, growOk), strict).queue
      ensures var done := Serve(old(queue), Read(p, openOk, growOk), strict).done;
              (datagram.Some? <==> done.Some?) && (done.Some? ==> Delivers(datagram.value, done.value))
    {
      hide KeyOf, Absorb, Delivers, GoodSlot, Settle, Parse, InBounds;
      datagram := None;
      var f := Parse(p);
      if f.None? {
        return;
      }
      ParsedWhole(p);
      ReadHeader(p);
      var id := Identification(p);
      var i, j := Search(p.bytes, id);
      if i < |slots| {
        FoundId(i, p.bytes, id);
        datagram := ServeAt(i, f.value, growOk);
      } else if j < |slots| && openOk {
        OpenSlot(j, p.bytes[..HEADER_SIZE], id);
        datagram := ServeAt(j, f.value, growOk);
      }
    }

    /** The slot that is found has the identification of the packet. */
    lemma FoundId(i: nat, header: seq<byte>, id: seq<byte>)
      requires Valid() && i < |slots| && |header| >= HEADER_SIZE && HasKey(queue[i], KeyOf(header, id))
      ensures ids[i] == id
    {
      assert GoodSlot(slots[i], ids[i], queue[i]);
      SameKey(queue[i].buffer.header, ids[i], header, id);
    }

    /** The rest of the receiver, once the buffer of the fragment is known. */
    static method ServeSlot(s: FragDesc, f: Fragment, strict: bool, growOk: bool, ghost id: seq<byte>, ghost key: seq<byte>)
      returns (datagram: Option<seq<byte>>)
      requires s.inUse && s.Valid() && f.Valid() && Keyed(s.header, id, key)
      requires f.newHeader.Some? ==> Keyed(f.newHeader.value, id, key)
      modifies s, s.mem
      ensures s.Consistent()
      ensures var r := Settle(Absorb(old(s.Abs()), f, strict, growOk));
              && s.Abs() == r.next && (r.next.Busy? ==> Keyed(r.next.header, id, key))
              && (datagram.Some? <==> r.done.Some?)
              && (r.done.Some? ==> Delivers(datagram.value, r.done.value))
    {
      hide Spaced, Aligned, Threaded, Missing, Punch, Overlaps, Absorb, SetBe16, KeyOf;
      datagram := None;
      AbsorbKeyed(s.Abs(), f, strict, growOk, id, key);
      s.Receive(f, strict, growOk);
      if s.inUse {
        var complete := s.IsComplete();
        if complete {
          var payload := s.Payload();
          datagram := Some(SetBe16(s.header, 4, |s.header| + s.dataLen - HEADER_SIZE) + payload);
          s.Release();
        }
      }
    }
  }

  lemma ParsedWhole(p: Incoming)
    requires Checked(p) && InBounds(p) && Parse(p).Some?
    ensures p.fragHeader + FRAG_HEADER_SIZE <= |p.bytes|
  {
  }
}
