/**
 The IPv4 receiver: parsing a fragment, finding its datagram in the reassembly queue,
 absorbing it, and delivering the datagram when nothing is missing.
 */
module Ipv4Reassembly {
  import opened Bytes
  import opened HoleList
  import opened HoleBytes
  import opened Reassembly
  import opened ReassemblyQueue
  import opened Fragmentation
  import opened Ipv4Frag

  // ----- packets -----

  function HeaderLength(packet: seq<byte>): nat
    requires |packet| >= HEADER_SIZE
  {
    packet[0] % 16 * 4
  }

  /** What ipv4ProcessPacket has checked before it hands over a fragment. */
  predicate Checked(packet: seq<byte>) {
    HEADER_SIZE <= |packet| && HEADER_SIZE <= HeaderLength(packet) <= |packet|
  }

  function FragOffset(packet: seq<byte>): uint16
    requires Checked(packet)
  {
    Be16(packet, 6)
  }

  function First(x: uint16): (r: nat)
    ensures r % 8 == 0
  {
    x % 0x2000 * 8
  }

  predicate More(x: uint16) {
    x % (2 * FLAG_MF) >= FLAG_MF
  }

  /** The last byte still has a 16-bit index. */
  predicate InBounds(packet: seq<byte>)
    requires Checked(packet)
  {
    First(FragOffset(packet)) + |packet| - HeaderLength(packet) <= MAX_PACKET
  }

  /** The fragment in a packet; none when it is not the last one and not a multiple of 8 bytes. */
  function Parse(packet: seq<byte>): (f: Option<Fragment>)
    requires Checked(packet) && InBounds(packet)
    ensures f.Some? ==> f.value.Valid()
  {
    var n := HeaderLength(packet);
    var x := FragOffset(packet);
    if More(x) && (|packet| - n) % 8 != 0 then None
    else
      Aligned8(First(x), |packet| - n);
      Some(Fragment(Range(First(x), First(x) + |packet| - n, More(x)), packet[n..],
                    if First(x) == 0 then Some(packet[..n]) else None))
  }

  /** The fields that tell datagrams apart: identification, protocol, source and destination address. */
  function Key(header: seq<byte>): seq<byte>
    requires |header| >= HEADER_SIZE
  {
    header[4..6] + [header[9]] + header[12..20]
  }

  /** Packets belong to the same datagram exactly when they agree in identification, protocol and both addresses. */
  lemma SameDatagram(h: seq<byte>, g: seq<byte>)
    requires |h| >= HEADER_SIZE && |g| >= HEADER_SIZE
    ensures Key(h) == Key(g) <==>
              Be16(h, 4) == Be16(g, 4) && h[9] == g[9] && h[12..16] == g[12..16] && h[16..20] == g[16..20]
  {
    var a, b := Key(h), Key(g);
    assert a[3..] == h[12..20] && b[3..] == g[12..20];
    assert h[12..20][..4] == h[12..16] && h[12..20][4..] == h[16..20];
    assert g[12..20][..4] == g[12..16] && g[12..20][4..] == g[16..20];
    assert a[3..7] == a[3..][..4] && a[7..11] == a[3..][4..] && b[3..7] == b[3..][..4] && b[7..11] == b[3..][4..];
    assert a[0] == h[4] && a[1] == h[5] && a[2] == h[9] && a[3..7] == h[12..16] && a[7..11] == h[16..20];
    assert b[0] == g[4] && b[1] == g[5] && b[2] == g[9] && b[3..7] == g[12..16] && b[7..11] == g[16..20];
    assert a == [a[0], a[1], a[2]] + a[3..7] + a[7..11] && b == [b[0], b[1], b[2]] + b[3..7] + b[7..11];
  }

  /** The header of the delivered datagram: total length set, fragment offset and checksum cleared. */
  function FixedHeader(header: seq<byte>, total: uint16): (r: seq<byte>)
    requires |header| >= HEADER_SIZE
    ensures |r| == |header|
  {
    SetBe16(SetBe16(SetBe16(header, 2, total), 6, 0), 10, 0)
  }

  /** What the receiver reads out of a packet. */
  function Read(packet: seq<byte>, openOk: bool, growOk: bool): (p: Reading)
    requires Checked(packet) && InBounds(packet)
    ensures p.Valid()
  {
    Reading(Key(packet), packet[..HeaderLength(packet)], Parse(packet), openOk, growOk)
  }

  /** The header has a key, and it is `key`. */
  predicate Keyed(header: seq<byte>, key: seq<byte>) {
    |header| >= HEADER_SIZE && Key(header) == key
  }

  /** The header of a packet has the key of the packet, and is the one a fragment at offset zero brings. */
  lemma ReadHeader(packet: seq<byte>)
    requires Checked(packet) && InBounds(packet)
    ensures var p := Read(packet, true, true);
            && Keyed(p.header, p.key) && |p.header| <= MAX_DATAGRAM
            && (p.fragment.Some? && p.fragment.value.newHeader.Some? ==> p.fragment.value.newHeader.value == p.header)
  {
    var h := packet[..HeaderLength(packet)];
    assert h[4..6] == packet[4..6] && h[12..20] == packet[12..20];
  }

  /** `d` is the datagram that a complete buffer holds. */
  ghost predicate Delivers(d: seq<byte>, a: Assembly) {
    && a.Busy? && |a.header| >= HEADER_SIZE && |a.header| + a.dataLen <= MAX_PACKET
    && |d| == |a.header| + a.dataLen
    && d[..|a.header|] == FixedHeader(a.header, |a.header| + a.dataLen)
    && forall k :: k in a.got && 0 <= k < a.dataLen ==> d[|a.header| + k] == a.got[k]
  }

  /** A buffer keeps the key of its datagram. */
  lemma AbsorbKeyed(a: Assembly, f: Fragment, growOk: bool, key: seq<byte>)
    requires a.Busy? && f.Valid() && Keyed(a.header, key)
    requires f.newHeader.Some? ==> Keyed(f.newHeader.value, key)
    ensures var b := Absorb(a, f, false, growOk); b.Busy? ==> Keyed(b.header, key)
  {
    hide Keyed;
  }

  lemma OpenedHeader(header: seq<byte>)
    ensures Opened(header).Busy? && Opened(header).header == header
  {
  }

  // ----- the queue in memory -----

  class FragQueue {
    const slots: seq<FragDesc>
    ghost var queue: seq<Slot>  // what the slots hold

    constructor ()
      ensures Valid() && fresh(slots) && fresh(Memory())
      ensures queue == Fresh()
    {
      var a := new FragDesc();
      var b := new FragDesc();
      var c := new FragDesc();
      var d := new FragDesc();
      slots := [a, b, c, d];
      queue := Fresh();
    }

    ghost function Memory(): set<object> {
      set s | s in slots :: s.mem
    }

    /** The buffer is in order, holds what the queue says, and its header has the key of the datagram. */
    ghost predicate GoodSlot(s: FragDesc, e: Slot)
      reads s, s.mem
    {
      && s.mem.Length == MAX_DATAGRAM + HOLE_SIZE && s.Consistent() && s.Abs() == e.buffer
      && (e.buffer.Busy? ==> Keyed(e.buffer.header, e.key))
    }

    ghost predicate Valid()
      reads this, slots, Memory()
    {
      && |slots| == |queue| == MAX_DATAGRAMS
      && (forall i, j :: 0 <= i < j < |slots| ==> slots[i] != slots[j] && slots[i].mem != slots[j].mem)
      && forall i :: 0 <= i < |slots| ==> GoodSlot(slots[i], queue[i])
    }

    /** ipv4SearchFragQueue up to the opening of a new buffer: the slot of the datagram, and the first free one. */
    method Search(packet: seq<byte>) returns (i: nat, j: nat)
      requires Valid() && Checked(packet)
      ensures i == Find(queue, Key(packet)) && j == FirstFree(queue)
    {
      hide Key;
      i := 0;
      while i < |slots| && !(slots[i].inUse && Key(slots[i].header) == Key(packet))
        invariant 0 <= i <= |slots|
        invariant forall k :: 0 <= k < i ==> !HasKey(queue[k], Key(packet))
      {
        assert GoodSlot(slots[i], queue[i]);
        i := i + 1;
      }
      j := 0;
      while j < |slots| && slots[j].inUse
        invariant 0 <= j <= |slots|
        invariant forall k :: 0 <= k < j ==> !queue[k].buffer.Free?
      {
        assert GoodSlot(slots[j], queue[j]);
        j := j + 1;
      }
    }

    /** The second half of ipv4SearchFragQueue: a free slot starts a new datagram. */
    method OpenSlot(k: nat, header: seq<byte>)
      requires Valid() && k < |slots| && HEADER_SIZE <= |header| <= MAX_DATAGRAM
      modifies this`queue, slots[k], slots[k].mem
      ensures Valid() && queue == old(queue)[k := Slot(Key(header), Opened(header))]
    {
      hide Opened, Key;
      assert forall m :: 0 <= m < |slots| && m != k ==> GoodSlot(slots[m], queue[m]);
      slots[k].Open(header);
      queue := queue[k := Slot(Key(header), Opened(header))];
      OpenedHeader(header);
      assert GoodSlot(slots[k], queue[k]);
    }

    method ServeAt(k: nat, f: Fragment, growOk: bool) returns (datagram: Option<seq<byte>>)
      requires Valid() && k < |slots| && queue[k].buffer.Busy? && f.Valid()
      requires f.newHeader.Some? ==> Keyed(f.newHeader.value, queue[k].key)
      modifies this`queue, slots[k], slots[k].mem
      ensures Valid()
      ensures var r := Settle(Absorb(old(queue[k].buffer), f, false, growOk));
              && queue == old(queue)[k := Slot(old(queue[k].key), r.next)]
              && (datagram.Some? <==> r.done.Some?)
              && (r.done.Some? ==> Delivers(datagram.value, r.done.value))
    {
      hide Absorb, Delivers, Keyed, FragDesc.Valid, FragDesc.Got;
      assert forall m :: 0 <= m < |slots| ==> GoodSlot(slots[m], queue[m]);
      datagram := ServeSlot(slots[k], f, growOk, queue[k].key);
      queue := queue[k := Slot(queue[k].key, Settle(Absorb(queue[k].buffer, f, false, growOk)).next)];
      assert GoodSlot(slots[k], queue[k]);
    }

    /**
     ipv4ReassembleDatagram. `openOk` and `growOk` say whether there is memory for a new
     buffer and for a longer one.
     */
    method ReassembleDatagram(packet: seq<byte>, openOk: bool, growOk: bool) returns (datagram: Option<seq<byte>>)
      requires Valid() && Checked(packet) && InBounds(packet)
      modifies this`queue, slots, Memory()
      ensures Valid()
      ensures queue == Serve(old(queue), Read(packet, openOk, growOk), false).queue
      ensures var done := Serve(old(queue), Read(packet, openOk, growOk), false).done;
              (datagram.Some? <==> done.Some?) && (done.Some? ==> Delivers(datagram.value, done.value))
    {
      hide Key, Absorb, Delivers, More, First, GoodSlot, Settle, Parse;
      datagram := None;
      var f := Parse(packet);
      if f.None? {
        return;
      }
      ReadHeader(packet);
      var i, j := Search(packet);
      if i < |slots| {
        datagram := ServeAt(i, f.value, growOk);
      } else if j < |slots| && openOk {
        OpenSlot(j, packet[..HeaderLength(packet)]);
        datagram := ServeAt(j, f.value, growOk);
      }
    }

    /** The rest of the receiver, once the buffer of the fragment is known. */
    static method ServeSlot(s: FragDesc, f: Fragment, growOk: bool, ghost key: seq<byte>) returns (datagram: Option<seq<byte>>)
      requires s.inUse && s.Valid() && f.Valid() && Keyed(s.header, key)
      requires f.newHeader.Some? ==> Keyed(f.newHeader.value, key)
      modifies s, s.mem
      ensures s.Consistent()
      ensures var r := Settle(Absorb(old(s.Abs()), f, false, growOk));
              && s.Abs() == r.next && (r.next.Busy? ==> Keyed(r.next.header, key))
              && (datagram.Some? <==> r.done.Some?)
              && (r.done.Some? ==> Delivers(datagram.value, r.done.value))
    {
      hide Spaced, Aligned, Threaded, Missing, Punch, Overlaps, FixedHeader, Absorb, Key;
      datagram := None;
      AbsorbKeyed(s.Abs(), f, growOk, key);
      s.Receive(f, false, growOk);
      if s.inUse {
        var complete := s.IsComplete();
        if complete {
          var p := s.Payload();
          datagram := Some(FixedHeader(s.header, |s.header| + s.dataLen) + p);
          s.Release();
        }
      }
    }
  }
}
