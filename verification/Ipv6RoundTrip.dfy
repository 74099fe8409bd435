/**
 IPv6 sender and receiver together: the fragments of a payload, in any order, give back
 byte for byte the packet that would have been sent without fragmentation. And the rule of
 section 4 of RFC 5722, for a receiver without support for overlapping fragments.
 */
module Ipv6RoundTrip {
  import opened Bytes
  import opened HoleList
  import opened Reassembly
  import opened ReassemblyRuns
  import opened ReassemblyQueue
  import opened Fragmentation
  import opened Ipv6Frag
  import opened Ipv6Reassembly

  /** A packet of the sender as the extension header parser hands it over: the Fragment header comes first. */
  function Received(packet: seq<byte>): Incoming {
    Incoming(packet, HEADER_SIZE, NEXT_HEADER)
  }

  ghost predicate AllAcceptable(ks: seq<Incoming>) {
    forall i :: 0 <= i < |ks| ==> Checked(ks[i]) && InBounds(ks[i])
  }

  function AllReceived(ks: seq<seq<byte>>): (r: seq<Incoming>)
    ensures |r| == |ks| && forall i :: 0 <= i < |r| ==> r[i] == Received(ks[i])
  {
    seq(|ks|, i requires 0 <= i < |ks| => Received(ks[i]))
  }

  /** What the receiver reads out of packets. */
  function Readings(ks: seq<Incoming>): (ps: seq<Reading>)
    requires AllAcceptable(ks)
    ensures |ps| == |ks| && forall i :: 0 <= i < |ps| ==> ps[i] == Read(ks[i], true, true)
    ensures AllValid(ps)
  {
    seq(|ks|, i requires 0 <= i < |ks| => Read(ks[i], true, true))
  }

  /** The Payload Length field is set again on delivery, so it does not matter what it was. */
  function FirstHeader(ps: PseudoHeader, length: uint16, hopLimit: byte): (h: seq<byte>)
    requires GoodPseudoHeader(ps)
    ensures |h| == HEADER_SIZE
  {
    Header(ps, length, ps.nextHeader, hopLimit)
  }

  /** The fragment that the receiver reads out of the packet of a piece. */
  function PieceFragment(ps: PseudoHeader, payload: seq<byte>, r: Range, hopLimit: byte): Fragment
    requires GoodPseudoHeader(ps) && Sendable(payload) && 0 <= r.first <= r.last <= |payload|
  {
    Fragment(r, payload[r.first..r.last],
             if r.first == 0 then Some(FirstHeader(ps, FRAG_HEADER_SIZE + r.last - r.first, hopLimit)) else None)
  }

  function KeyFor(ps: PseudoHeader, id: seq<byte>): seq<byte>
    requires GoodPseudoHeader(ps)
  {
    ps.srcAddr + ps.destAddr + id
  }

  /** The packet has a Fragment header: the piece is not the whole payload. */
  predicate IsPart(r: Range) {
    r.first != 0 || r.more
  }

  lemma PatchedHeader(ps: PseudoHeader, length: uint16, hopLimit: byte)
    requires GoodPseudoHeader(ps)
    ensures Header(ps, length, IPV6_FRAGMENT_HEADER, hopLimit)[NEXT_HEADER := ps.nextHeader] == FirstHeader(ps, length, hopLimit)
  {
  }

  lemma FragFieldParts(r: Range)
    requires 0 <= r.first < MAX_PACKET && r.first % 8 == 0
    ensures FragField(r) <= MAX_PACKET && First(FragField(r)) == r.first && (More(FragField(r)) <==> r.more)
    ensures IsPart(r) ==> FragField(r) != 0
  {
    var q, b := r.first / 8, FragField(r) - r.first;
    Octets(q, b);
    Pairs(4 * q, b);
  }

  lemma Octets(q: nat, b: nat)
    requires b <= 1
    ensures (8 * q + b) % 8 == b
  {
  }

  lemma Pairs(q: nat, b: nat)
    requires b <= 1
    ensures (2 * q + b) % 2 == b
  {
  }

  lemma PieceLayout(ps: PseudoHeader, id: seq<byte>, payload: seq<byte>, r: Range, hopLimit: byte)
    requires GoodPseudoHeader(ps) && |id| == 4 && Sendable(payload) && 0 <= r.first <= r.last <= |payload|
    requires FragField(r) != 0
    ensures var packet, n := PieceFor(ps, id, payload, r, hopLimit), r.last - r.first;
            && |packet| == HEADER_SIZE + FRAG_HEADER_SIZE + n
            && packet[..HEADER_SIZE] == Header(ps, FRAG_HEADER_SIZE + n, IPV6_FRAGMENT_HEADER, hopLimit)
            && packet[HEADER_SIZE + 4..HEADER_SIZE + FRAG_HEADER_SIZE] == id
            && packet[HEADER_SIZE] == ps.nextHeader && Be16(packet, HEADER_SIZE + 2) == FragField(r)
            && packet[HEADER_SIZE + FRAG_HEADER_SIZE..] == payload[r.first..r.last]
  {
    hide Header;
    var n, x := r.last - r.first, FragField(r);
    var packet := PieceFor(ps, id, payload, r, hopLimit);
    var h, g := Header(ps, FRAG_HEADER_SIZE + n, IPV6_FRAGMENT_HEADER, hopLimit), FragmentHeader(ps, x, id);
    assert packet == h + (g + payload[r.first..r.last]);
    assert packet[HEADER_SIZE..] == g + payload[r.first..r.last];
    assert packet[HEADER_SIZE + 4..HEADER_SIZE + FRAG_HEADER_SIZE] == g[4..] == id;
    assert packet[HEADER_SIZE] == g[0] && packet[HEADER_SIZE + 2] == g[2] && packet[HEADER_SIZE + 3] == g[3];
  }

  /** The receiver reads back exactly the piece that was sent, with the Next Header field restored. */
  lemma ParsePiece(ps: PseudoHeader, id: seq<byte>, payload: seq<byte>, r: Range, hopLimit: byte)
    requires GoodPseudoHeader(ps) && |id| == 4 && Sendable(payload) && 0 <= r.first <= r.last <= |payload|
    requires r.first % 8 == 0 && (r.more ==> (r.last - r.first) % 8 == 0) && IsPart(r)
    ensures var p := Received(PieceFor(ps, id, payload, r, hopLimit));
            && Checked(p) && InBounds(p) && Parse(p) == Some(PieceFragment(ps, payload, r, hopLimit))
            && Read(p, true, true).key == KeyFor(ps, id)
  {
    hide Header, FirstHeader, PieceFor, FragField, First, More;
    FragFieldParts(r);
    PieceLayout(ps, id, payload, r, hopLimit);
    PatchedHeader(ps, FRAG_HEADER_SIZE + (r.last - r.first), hopLimit);
    HeaderAddresses(ps, FRAG_HEADER_SIZE + (r.last - r.first), PieceFor(ps, id, payload, r, hopLimit), hopLimit);
  }

  lemma HeaderAddresses(ps: PseudoHeader, length: uint16, packet: seq<byte>, hopLimit: byte)
    requires GoodPseudoHeader(ps) && |packet| >= HEADER_SIZE
    requires packet[..HEADER_SIZE] == Header(ps, length, IPV6_FRAGMENT_HEADER, hopLimit)
    ensures packet[ADDRESSES..HEADER_SIZE] == ps.srcAddr + ps.destAddr
  {
    assert packet[ADDRESSES..HEADER_SIZE] == packet[..HEADER_SIZE][ADDRESSES..];
  }

  function Fragments(ps: PseudoHeader, payload: seq<byte>, rs: seq<Range>, hopLimit: byte): (fs: seq<Fragment>)
    requires GoodPseudoHeader(ps) && Sendable(payload)
    requires forall i :: 0 <= i < |rs| ==> 0 <= rs[i].first <= rs[i].last <= |payload|
    ensures |fs| == |rs| && forall i :: 0 <= i < |fs| ==> fs[i] == PieceFragment(ps, payload, rs[i], hopLimit)
  {
    seq(|rs|, i requires 0 <= i < |rs| => PieceFragment(ps, payload, rs[i], hopLimit))
  }

  /** A payload that fits the receiver and is too long for one packet, divided into pieces of `m` bytes. */
  ghost predicate Agreed(ps: PseudoHeader, id: seq<byte>, payload: seq<byte>, m: nat) {
    && GoodPseudoHeader(ps) && |id| == 4
    && 0 < m < |payload| && m % 8 == 0 && HEADER_SIZE + |payload| <= MAX_DATAGRAM
  }

  /** A piece of a payload that needs more than one is not all of it. */
  lemma PieceIsPart(r: Range, n: nat, m: nat)
    requires 0 < m < n && IsPiece(r, n, m)
    ensures IsPart(r)
  {
  }

  lemma FragmentsSent(ps: PseudoHeader, id: seq<byte>, payload: seq<byte>, order: seq<Range>, m: nat, hopLimit: byte)
    requires Agreed(ps, id, payload, m) && InSomeOrder(order, |payload|, m)
    ensures forall i :: 0 <= i < |order| ==>
              0 <= order[i].first <= order[i].last <= |payload| && GoodRange(order[i]) && IsPart(order[i])
    ensures Sent(payload, Fragments(ps, payload, order, hopLimit), m)
    ensures Ranges(Fragments(ps, payload, order, hopLimit)) == order
  {
    hide Header, OnGrid;
    OrderedPieces(order, |payload|, m);
    forall i | 0 <= i < |order| ensures IsPart(order[i]) {
      PieceIsPart(order[i], |payload|, m);
    }
  }

  lemma PacketsRead(ps: PseudoHeader, id: seq<byte>, payload: seq<byte>, order: seq<Range>, hopLimit: byte)
    requires GoodPseudoHeader(ps) && |id| == 4 && Sendable(payload)
    requires forall i :: 0 <= i < |order| ==> 0 <= order[i].first <= order[i].last <= |payload|
    requires forall i :: 0 <= i < |order| ==> GoodRange(order[i]) && IsPart(order[i])
    ensures var ks, fs := AllReceived(Packets(ps, id, payload, order, hopLimit)), Fragments(ps, payload, order, hopLimit);
            && AllAcceptable(ks)
            && forall i :: 0 <= i < |ks| ==>
                 var p := Readings(ks)[i];
                 && p.fragment == Some(fs[i]) && fs[i].Valid() && |p.header| == HEADER_SIZE && p.key == KeyFor(ps, id)
                 && p.openOk && p.growOk
  {
    hide PieceFor, PieceFragment, Parse, InBounds, KeyFor;
    forall i | 0 <= i < |order|
      ensures var k := Received(PieceFor(ps, id, payload, order[i], hopLimit));
              Checked(k) && InBounds(k) && Parse(k) == Some(PieceFragment(ps, payload, order[i], hopLimit))
              && Read(k, true, true).key == KeyFor(ps, id)
    {
      ParsePiece(ps, id, payload, order[i], hopLimit);
    }
  }

  /** Only one piece starts at offset zero, so all headers from offset zero are the same. */
  lemma SameFirst(ps: PseudoHeader, id: seq<byte>, payload: seq<byte>, order: seq<Range>, m: nat, hopLimit: byte, k: nat)
    requires Agreed(ps, id, payload, m) && InSomeOrder(order, |payload|, m) && k < |order| && order[k].first == 0
    requires forall i :: 0 <= i < |order| ==> 0 <= order[i].first <= order[i].last <= |payload|
    ensures var fs := Fragments(ps, payload, order, hopLimit);
            && fs[k].newHeader == Some(FirstHeader(ps, FRAG_HEADER_SIZE + order[k].last, hopLimit))
            && forall i :: 0 <= i < |fs| && fs[i].newHeader.Some? ==> fs[i].newHeader == fs[k].newHeader
  {
    hide Header, OnGrid;
    OrderedPieces(order, |payload|, m);
  }

  lemma DeliveredBytes(ps: PseudoHeader, d: seq<byte>, a: Assembly, payload: seq<byte>, length: uint16, hopLimit: byte)
    requires GoodPseudoHeader(ps) && HEADER_SIZE + |payload| <= MAX_DATAGRAM
    requires Delivers(d, a) && a.dataLen == |payload| && a.header == FirstHeader(ps, length, hopLimit)
    requires forall k :: 0 <= k < |payload| ==> k in a.got && a.got[k] == payload[k]
    ensures d == Header(ps, |payload|, ps.nextHeader, hopLimit) + payload
  {
    var n := HEADER_SIZE;
    assert d[..n] == Header(ps, |payload|, ps.nextHeader, hopLimit);
    forall k | 0 <= k < |payload| ensures d[n + k] == payload[k] {
      assert k in a.got;
    }
    assert d == d[..n] + d[n..];
    assert d[n..] == payload;
  }

  /** The packets of a payload leave one complete buffer, with all of the payload and the patched header of its first piece. */
  lemma {:induction false} Collected(ps: PseudoHeader, id: seq<byte>, payload: seq<byte>, order: seq<Range>, m: nat,
                                     hopLimit: byte, strict: bool, k: nat)
    requires Agreed(ps, id, payload, m) && InSomeOrder(order, |payload|, m) && k < |order| && order[k].first == 0
    requires forall i :: 0 <= i < |order| ==> 0 <= order[i].first <= order[i].last <= |payload|
    ensures var ks := AllReceived(Packets(ps, id, payload, order, hopLimit));
            && AllAcceptable(ks)
            && var t := ViewRun(Free, Readings(ks), strict);
               && t.state == Free && |t.outs| == 1
               && var a := t.outs[0];
                  && a.Busy? && a.header == FirstHeader(ps, FRAG_HEADER_SIZE + order[k].last, hopLimit)
                  && a.dataLen == |payload| && forall j :: 0 <= j < |payload| ==> j in a.got && a.got[j] == payload[j]
  {
    hide IsPiece, CutFrom, Division, Header, FirstHeader, PieceFragment, PieceFor, ViewRun, TakeRun, GoodRange, InBounds, Parse;
    var fs, ks := Fragments(ps, payload, order, hopLimit), AllReceived(Packets(ps, id, payload, order, hopLimit));
    FragmentsSent(ps, id, payload, order, m, hopLimit);
    PacketsRead(ps, id, payload, order, hopLimit);
    ReadingsTaken(Readings(ks), fs, strict);
    SameFirst(ps, id, payload, order, m, hopLimit, k);
    Completes(payload, Headers(Readings(ks)), fs, m, strict, fs[k].newHeader.value);
  }

  /** The packet that is sent when a payload needs no fragments: its fields, and all of the payload. */
  predicate IsDatagram(d: seq<byte>, ps: PseudoHeader, id: seq<byte>, payload: seq<byte>, hopLimit: byte)
    requires GoodPseudoHeader(ps) && |id| == 4 && Sendable(payload)
  {
    && CarriesFields(d, ps, ps.nextHeader, hopLimit) && d[40..] == payload
    && d == Packet(ps, id, 0, payload, hopLimit)
  }

  /**
   The round trip. The fragments of a payload, in any order, yield one datagram, when the
   last of them arrives; it is the packet that ipv6SendPacket builds when it does not
   fragment. This holds with and without support for overlapping fragments.
   */
  lemma {:induction false} RoundTrip6(ps: PseudoHeader, id: seq<byte>, payload: seq<byte>, order: seq<Range>, m: nat,
                                      hopLimit: byte, strict: bool)
    requires Agreed(ps, id, payload, m) && InSomeOrder(order, |payload|, m)
    requires forall i :: 0 <= i < |order| ==> 0 <= order[i].first <= order[i].last <= |payload|
    ensures var ks := AllReceived(Packets(ps, id, payload, order, hopLimit));
            && AllAcceptable(ks)
            && var t := ViewRun(Free, Readings(ks), strict);
               t.state == Free && |t.outs| == 1
               && forall d :: Delivers(d, t.outs[0]) ==> IsDatagram(d, ps, id, payload, hopLimit)
  {
    hide Division, AllAcceptable, Header, FirstHeader, Delivers, ViewRun, Packets, InSomeOrder;
    var k := FirstPiece(order, |payload|, m);
    Collected(ps, id, payload, order, m, hopLimit, strict, k);
    var a := ViewRun(Free, Readings(AllReceived(Packets(ps, id, payload, order, hopLimit))), strict).outs[0];
    PacketCarries(ps, id, 0, payload, hopLimit);
    forall d | Delivers(d, a) ensures IsDatagram(d, ps, id, payload, hopLimit) {
      DeliveredBytes(ps, d, a, payload, FRAG_HEADER_SIZE + order[k].last, hopLimit);
    }
  }

  /**
   Packets of up to four datagrams mixed in any way. If those of one of them are the packets
   of a payload in some order, what is delivered for it is the unfragmented packet.
   */
  lemma {:induction false} MixedRoundTrip(ps: PseudoHeader, id: seq<byte>, payload: seq<byte>, order: seq<Range>, m: nat,
                                          hopLimit: byte, packets: seq<Incoming>, strict: bool, keys: set<seq<byte>>)
    requires Agreed(ps, id, payload, m) && InSomeOrder(order, |payload|, m)
    requires forall i :: 0 <= i < |order| ==> 0 <= order[i].first <= order[i].last <= |payload|
    requires AllAcceptable(packets) && |keys| <= MAX_DATAGRAMS
    requires forall i :: 0 <= i < |packets| ==> Read(packets[i], true, true).key in keys
    requires AllAcceptable(AllReceived(Packets(ps, id, payload, order, hopLimit)))
    requires OnlyKey(Readings(packets), KeyFor(ps, id)) == Readings(AllReceived(Packets(ps, id, payload, order, hopLimit)))
    ensures var outs := QueueRun(Fresh(), Readings(packets), strict, KeyFor(ps, id)).outs;
            |outs| == 1 && forall d :: Delivers(d, outs[0]) ==> IsDatagram(d, ps, id, payload, hopLimit)
  {
    hide Division, Delivers, Read, Checked, InBounds, Packets, Packet, ViewRun, QueueRun;
    RoundTrip6(ps, id, payload, order, m, hopLimit, strict);
    FreshIsolation(Readings(packets), strict, KeyFor(ps, id), keys);
  }

  lemma {:induction false} SentUnderWay(ps: PseudoHeader, id: seq<byte>, payload: seq<byte>, order: seq<Range>, m: nat,
                                        hopLimit: byte, strict: bool)
    requires Agreed(ps, id, payload, m) && InSomeOrder(order, |payload|, m)
    requires forall i :: 0 <= i < |order| ==> 0 <= order[i].first <= order[i].last <= |payload|
    requires AllAcceptable(AllReceived(Packets(ps, id, payload, order, hopLimit)))
    ensures UnderWay(Free, Readings(AllReceived(Packets(ps, id, payload, order, hopLimit))), strict)
  {
    hide IsPiece, CutFrom, Division, Header, FirstHeader, PieceFragment, PieceFor, TakeRun, GoodRange, InBounds, Parse, Absorb;
    var fs, arrived := Fragments(ps, payload, order, hopLimit), Readings(AllReceived(Packets(ps, id, payload, order, hopLimit)));
    FragmentsSent(ps, id, payload, order, m, hopLimit);
    PacketsRead(ps, id, payload, order, hopLimit);
    forall j | 0 < j < |arrived| ensures ViewRun(Free, arrived[..j], strict).state.Busy? {
      StillTaking(payload, arrived, fs, m, strict, j);
    }
  }

  /**
   The same when there are more datagrams than buffers: once the first fragment of a payload has
   found a free buffer, its fragments deliver it, whatever else arrives.
   */
  lemma {:induction false} CrowdedRoundTrip(ps: PseudoHeader, id: seq<byte>, payload: seq<byte>, order: seq<Range>, m: nat,
                                            hopLimit: byte, q: seq<Slot>, arrivals: seq<Reading>, strict: bool)
    requires Agreed(ps, id, payload, m) && InSomeOrder(order, |payload|, m)
    requires forall i :: 0 <= i < |order| ==> 0 <= order[i].first <= order[i].last <= |payload|
    requires UniqueKeys(q) && View(q, KeyFor(ps, id)).Free? && FirstFree(q) < |q|
    requires AllValid(arrivals) && arrivals != [] && arrivals[0].key == KeyFor(ps, id)
    requires AllAcceptable(AllReceived(Packets(ps, id, payload, order, hopLimit)))
    requires OnlyKey(arrivals, KeyFor(ps, id)) == Readings(AllReceived(Packets(ps, id, payload, order, hopLimit)))
    ensures var outs := QueueRun(q, arrivals, strict, KeyFor(ps, id)).outs;
            |outs| == 1 && forall d :: Delivers(d, outs[0]) ==> IsDatagram(d, ps, id, payload, hopLimit)
  {
    hide Division, Delivers, KeyFor, Packets, ViewRun, QueueRun, IsDatagram, UnderWay, View, UniqueKeys;
    RoundTrip6(ps, id, payload, order, m, hopLimit, strict);
    SentUnderWay(ps, id, payload, order, m, hopLimit, strict);
    Undisturbed(q, arrivals, strict, KeyFor(ps, id));
  }

  // ----- section 4 of RFC 5722 -----

  /** The fragment brings a byte that is missing and one that is not. */
  ghost predicate PartlyNew(hs: seq<Hole>, r: Range) {
    && (exists k :: InRange(r, k) && Missing(hs, k))
    && (exists k :: InRange(r, k) && !Missing(hs, k))
  }

  lemma {:induction false} OverlapsSome(hs: seq<Hole>, r: Range)
    ensures Overlaps(hs, r) <==> exists i :: 0 <= i < |hs| && Sticks(hs[i], r)
  {
    if hs != [] {
      var t := hs[1..];
      OverlapsSome(t, r);
      if i :| 0 <= i < |t| && Sticks(t[i], r) {
        assert hs[i + 1] == t[i];
      }
      if i :| 0 <= i < |hs| && Sticks(hs[i], r) && i != 0 {
        assert t[i - 1] == hs[i];
      }
    }
  }

  /** Two holes meet at byte `b`. */
  ghost predicate Meet(hs: seq<Hole>, b: int) {
    exists i, j :: 0 <= i < |hs| && 0 <= j < |hs| && hs[i].last == b == hs[j].first
  }

  /**
   A fragment sticks out of a hole exactly when it brings both new and old bytes, or goes past
   a place where two holes meet.
   */
  lemma {:induction false} OverlapExactly(hs: seq<Hole>, r: Range, dataLen: int)
    requires Spaced(hs, dataLen)
    ensures Overlaps(hs, r) <==> PartlyNew(hs, r) || exists b :: r.first < b < r.last && Meet(hs, b)
  {
    OverlapsSome(hs, r);
    if i :| 0 <= i < |hs| && Sticks(hs[i], r) {
      SticksOut(hs, r, i, dataLen);
    }
    if PartlyNew(hs, r) {
      var k :| InRange(r, k) && Missing(hs, k);
      var i :| 0 <= i < |hs| && hs[i].first <= k < hs[i].last;
      assert Sticks(hs[i], r);
    }
    if b :| r.first < b < r.last && Meet(hs, b) {
      var i, j :| 0 <= i < |hs| && 0 <= j < |hs| && hs[i].last == b == hs[j].first;
      assert GoodHole(hs[i], dataLen);
      assert Sticks(hs[i], r);
    }
  }

  lemma SticksOut(hs: seq<Hole>, r: Range, i: nat, dataLen: int)
    requires Spaced(hs, dataLen) && i < |hs| && Sticks(hs[i], r)
    ensures PartlyNew(hs, r) || exists b :: r.first < b < r.last && Meet(hs, b)
  {
    var h := hs[i];
    assert GoodHole(h, dataLen);
    var inside := if h.first <= r.first then r.first else h.first;
    assert Missing(hs, inside) && (h.last < r.last ==> InRange(r, inside));
    if h.last < r.last {
      if Missing(hs, h.last) {
        Neighbour(hs, h.last, dataLen);
        assert Meet(hs, h.last);
      } else {
        assert InRange(r, h.last) && InRange(r, inside);
      }
    } else {
      assert InRange(r, h.first - 1) && InRange(r, inside);
      if Missing(hs, h.first - 1) {
        Neighbour(hs, h.first, dataLen);
        assert Meet(hs, h.first);
      }
    }
  }

  /** A hole starts at byte `b`. */
  ghost predicate Starts(hs: seq<Hole>, b: int) {
    exists i :: 0 <= i < |hs| && hs[i].first == b
  }

  /** Where a hole ends at `b` or starts at `b`, and the bytes on both sides are missing, two holes meet. */
  lemma Neighbour(hs: seq<Hole>, b: int, dataLen: int)
    requires Spaced(hs, dataLen)
    ensures Meet(hs, b) <==> Missing(hs, b - 1) && Missing(hs, b) && Starts(hs, b)
    ensures Missing(hs, b - 1) && Missing(hs, b) && (exists i :: 0 <= i < |hs| && hs[i].last == b) ==> Starts(hs, b)
  {
    if i, j :| 0 <= i < |hs| && 0 <= j < |hs| && hs[i].last == b == hs[j].first {
      assert GoodHole(hs[i], dataLen) && GoodHole(hs[j], dataLen);
      assert hs[i].first <= b - 1 < hs[i].last && hs[j].first <= b < hs[j].last;
    }
    if Missing(hs, b - 1) && Missing(hs, b) {
      var i, j :| 0 <= i < |hs| && 0 <= j < |hs| && hs[i].first <= b - 1 < hs[i].last && hs[j].first <= b < hs[j].last;
      if k :| 0 <= k < |hs| && (hs[k].first == b || hs[k].last == b) {
        assert GoodHole(hs[k], dataLen);
        assert k == i || k == j;
      }
    }
  }

  // ----- which runs lead to holes that meet -----

  /** An empty fragment that is not the last one has arrived for byte `b`. */
  ghost predicate EmptyAt(fs: seq<Fragment>, b: int) {
    exists i :: 0 <= i < |fs| && fs[i].data == [] && fs[i].range.first == b && fs[i].range.more
  }

  predicate CutStarts(h: Hole, r: Range, b: int) {
    if !Touches(h, r) then h.first == b
    else (h.first < r.first && h.first == b) || (r.last < h.last && r.more && r.last == b)
  }

  lemma StartsConcat(a: seq<Hole>, c: seq<Hole>, b: int)
    ensures Starts(a + c, b) <==> Starts(a, b) || Starts(c, b)
  {
    if i :| 0 <= i < |a| && a[i].first == b {
      assert (a + c)[i] == a[i];
    }
    if i :| 0 <= i < |c| && c[i].first == b {
      assert (a + c)[|a| + i] == c[i];
    }
  }

  lemma StartsCut(h: Hole, r: Range, b: int)
    ensures Starts(Cut(h, r), b) <==> CutStarts(h, r, b)
  {
    var c := Cut(h, r);
    assert CutStarts(h, r, b) ==> c != [] && (c[0].first == b || c[|c| - 1].first == b);
  }

  lemma {:induction false} PunchStarts(hs: seq<Hole>, r: Range, b: int)
    ensures Starts(Punch(hs, r), b) <==> exists i :: 0 <= i < |hs| && CutStarts(hs[i], r, b)
  {
    hide Cut, CutStarts;
    if hs != [] {
      var t := hs[1..];
      PunchStarts(t, r, b);
      StartsConcat(Cut(hs[0], r), Punch(t, r), b);
      StartsCut(hs[0], r, b);
      if i :| 0 <= i < |t| && CutStarts(t[i], r, b) {
        assert hs[i + 1] == t[i];
      }
      if i :| 0 <= i < |hs| && CutStarts(hs[i], r, b) && i != 0 {
        assert t[i - 1] == hs[i];
      }
    }
  }

  /** Between two missing bytes a hole starts exactly where one did before, or where an empty fragment goes. */
  lemma {:induction false} StartsStep(hs: seq<Hole>, r: Range, b: int, dataLen: int)
    requires Spaced(hs, dataLen) && r.first <= r.last
    requires Missing(Punch(hs, r), b - 1) && Missing(Punch(hs, r), b)
    ensures Missing(hs, b - 1) && Missing(hs, b)
    ensures Starts(Punch(hs, r), b) <==> Starts(hs, b) || (r.first == r.last == b && r.more)
  {
    PunchClears(hs, r);
    PunchStarts(hs, r, b);
    assert !InRange(r, b - 1) && !InRange(r, b);
    if i :| 0 <= i < |hs| && hs[i].first == b {
      assert CutStarts(hs[i], r, b);
    }
    if r.first == r.last == b && r.more {
      var i, j :| 0 <= i < |hs| && 0 <= j < |hs| && hs[i].first <= b - 1 < hs[i].last && hs[j].first <= b < hs[j].last;
      assert CutStarts(hs[j], r, b);
    }
  }

  /** Between two missing bytes a hole starts exactly where an empty fragment has arrived. */
  ghost predicate SplitByEmpty(fs: seq<Fragment>, hs: seq<Hole>) {
    forall b :: Missing(hs, b - 1) && Missing(hs, b) ==> (Starts(hs, b) <==> EmptyAt(fs, b))
  }

  lemma {:induction false} SplitStep(fs: seq<Fragment>, hs: seq<Hole>, f: Fragment, dataLen: int)
    requires Spaced(hs, dataLen) && f.Valid() && SplitByEmpty(fs, hs)
    ensures SplitByEmpty(fs + [f], Punch(hs, f.range))
  {
    hide Spaced, Missing, Starts, EmptyAt, Punch;
    var ps := Punch(hs, f.range);
    forall b | Missing(ps, b - 1) && Missing(ps, b) ensures Starts(ps, b) <==> EmptyAt(fs + [f], b) {
      StartsStep(hs, f.range, b, dataLen);
      EmptySnoc(fs, f, b);
    }
  }

  lemma {:induction false} RunSplit(header: seq<byte>, fs: seq<Fragment>, strict: bool)
    requires |header| <= MAX_DATAGRAM && forall i :: 0 <= i < |fs| ==> fs[i].Valid()
    ensures var a := Run(header, fs, strict);
            a.Busy? ==>
              && |a.header| + a.dataLen <= MAX_DATAGRAM && WellFormed(a.holes, a.dataLen)
              && SplitByEmpty(fs, a.holes)
  {
    hide Aligned, Spaced, Missing, Starts, EmptyAt, Overlaps, Punch;
    if fs == [] {
      OpenedHoles(header);
    } else {
      var n := |fs| - 1;
      var a, c := Run(header, fs[..n], strict), Run(header, fs, strict);
      RunSplit(header, fs[..n], strict);
      if c.Busy? {
        LongerWellFormed(a.holes, a.dataLen, c.dataLen);
        PunchWellFormed(a.holes, fs[n].range, c.dataLen);
        SplitStep(fs[..n], a.holes, fs[n], a.dataLen);
        assert fs[..n] + [fs[n]] == fs;
      }
    }
  }

  /** Two holes meet exactly where an empty fragment has come between two bytes that are still missing. */
  ghost predicate MeetWhereSplit(fs: seq<Fragment>, hs: seq<Hole>) {
    forall b :: Meet(hs, b) <==> Missing(hs, b - 1) && Missing(hs, b) && EmptyAt(fs, b)
  }

  /** What every run keeps: the holes are well formed, and they meet only where they were split. */
  lemma {:induction false} RunMeets(header: seq<byte>, fs: seq<Fragment>, strict: bool)
    requires |header| <= MAX_DATAGRAM && forall i :: 0 <= i < |fs| ==> fs[i].Valid()
    ensures var a := Run(header, fs, strict);
            a.Busy? ==>
              && |a.header| + a.dataLen <= MAX_DATAGRAM && WellFormed(a.holes, a.dataLen)
              && MeetWhereSplit(fs, a.holes)
  {
    hide Aligned, Spaced, Missing, Starts, EmptyAt, Meet, MeetWhereSplit, SplitByEmpty, Overlaps, Punch;
    RunSplit(header, fs, strict);
    var a := Run(header, fs, strict);
    if a.Busy? {
      MeetsOfSplit(fs, a.holes, a.dataLen);
    }
  }

  lemma MeetsOfSplit(fs: seq<Fragment>, hs: seq<Hole>, dataLen: int)
    requires Spaced(hs, dataLen) && SplitByEmpty(fs, hs)
    ensures MeetWhereSplit(fs, hs)
  {
    hide Spaced, Missing, Starts, EmptyAt, Meet;
    forall b ensures Meet(hs, b) <==> Missing(hs, b - 1) && Missing(hs, b) && EmptyAt(fs, b) {
      Neighbour(hs, b, dataLen);
    }
  }

  lemma EmptySnoc(fs: seq<Fragment>, f: Fragment, b: int)
    ensures EmptyAt(fs + [f], b) <==> EmptyAt(fs, b) || (f.data == [] && f.range.first == b && f.range.more)
  {
    var gs := fs + [f];
    assert gs[|fs|] == f;
    if i :| 0 <= i < |fs| && fs[i].data == [] && fs[i].range.first == b && fs[i].range.more {
      assert gs[i] == fs[i];
    }
  }

  lemma OpenedHoles(header: seq<byte>)
    ensures WellFormed(Opened(header).holes, 0)
    ensures forall b :: Missing(Opened(header).holes, b - 1) ==> !Starts(Opened(header).holes, b)
    ensures forall b :: !EmptyAt([], b)
  {
  }

  lemma LongerWellFormed(hs: seq<Hole>, dataLen: int, longer: int)
    requires WellFormed(hs, dataLen) && dataLen <= longer
    ensures WellFormed(hs, longer)
  {
  }

  /** Inside the fragment, an empty fragment has come between two bytes that are still missing. */
  ghost predicate SplitInside(fs: seq<Fragment>, hs: seq<Hole>, r: Range) {
    exists b :: r.first < b < r.last && Missing(hs, b - 1) && Missing(hs, b) && EmptyAt(fs, b)
  }

  /** The datagram with this fragment has room in the buffer. */
  predicate HasRoom(a: Assembly, f: Fragment)
    requires a.Busy?
  {
    var h := if f.newHeader.Some? then f.newHeader.value else a.header;
    && |h| + f.range.last <= MAX_DATAGRAM && |h| + a.dataLen <= MAX_DATAGRAM
    && (f.newHeader.Some? ==> |h| <= CHUNK_SIZE)
  }

  /**
   The overlap rule, exactly. After any run of fragments, a strict receiver drops the datagram
   on a fragment that has room if and only if the fragment brings both a missing byte and one
   that is not missing, or an empty fragment has split a hole inside it. So a fragment with no
   missing byte at all is not noticed, and an empty fragment makes the receiver drop a
   datagram without overlaps.
   */
  lemma {:induction false} OverlapRule(header: seq<byte>, fs: seq<Fragment>, f: Fragment)
    requires |header| <= MAX_DATAGRAM && f.Valid() && forall i :: 0 <= i < |fs| ==> fs[i].Valid()
    requires Run(header, fs, true).Busy? && HasRoom(Run(header, fs, true), f)
    ensures var a := Run(header, fs, true);
            Absorb(a, f, true, true).Free? <==> PartlyNew(a.holes, f.range) || SplitInside(fs, a.holes, f.range)
  {
    hide Overlaps, PartlyNew, SplitInside, MeetWhereSplit, Meet, Missing, EmptyAt, Spaced, Aligned, Punch;
    RunMeets(header, fs, true);
    var a := Run(header, fs, true);
    OverlapExactly(a.holes, f.range, a.dataLen);
    MeetsInside(fs, a.holes, f.range);
  }

  lemma MeetsInside(fs: seq<Fragment>, hs: seq<Hole>, r: Range)
    requires MeetWhereSplit(fs, hs)
    ensures (exists b :: r.first < b < r.last && Meet(hs, b)) <==> SplitInside(fs, hs, r)
  {
    hide Meet, Missing, EmptyAt;
    if b :| r.first < b < r.last && Meet(hs, b) {
      assert Missing(hs, b - 1) && Missing(hs, b) && EmptyAt(fs, b);
    }
    if b :| r.first < b < r.last && Missing(hs, b - 1) && Missing(hs, b) && EmptyAt(fs, b) {
      assert Meet(hs, b);
    }
  }

  /**
   The second case on packets: an empty fragment for byte 8 and then the first 16 bytes, which
   overlap nothing. A strict receiver has dropped the datagram; a receiver with support for
   overlapping fragments keeps the 16 bytes.
   */
  lemma EmptyFragmentSplits(ps: PseudoHeader, id: seq<byte>, payload: seq<byte>, hopLimit: byte)
    requires GoodPseudoHeader(ps) && |id| == 4 && Sendable(payload) && |payload| >= 16
    ensures var rs := [Range(8, 8, true), Range(0, 16, true)];
            var ks := AllReceived(Packets(ps, id, payload, rs, hopLimit));
            && AllAcceptable(ks)
            && ViewRun(Free, Readings(ks), true) == Trace(Free, [])
            && var a := ViewRun(Free, Readings(ks), false).state;
               a.Busy? && forall k :: 0 <= k < 16 ==> k in a.got && a.got[k] == payload[k]
  {
    hide Header, Packet, Parse, PieceFragment, Checked, InBounds, Absorb;
    var r, s := Range(8, 8, true), Range(0, 16, true);
    PacketsRead(ps, id, payload, [r, s], hopLimit);
    var arrived := Readings(AllReceived(Packets(ps, id, payload, [r, s], hopLimit)));
    var base := arrived[0].header;
    var a := Busy(base, 8, [Hole(0, 8), Hole(8, INFINITY)], map[]);
    NoData(ps, payload, hopLimit);
    FirstEmpty(base, PieceFragment(ps, payload, r, hopLimit));
    PieceAbsorbed(ps, payload, hopLimit, a);
    assert arrived[..1][..0] == [];
    forall strict: bool ensures ViewRun(Free, arrived[..1], strict) == Trace(a, []) {
      assert ServeOne(Free, arrived[0], strict) == Served(a, None);
    }
  }

  lemma NoData(ps: PseudoHeader, payload: seq<byte>, hopLimit: byte)
    requires GoodPseudoHeader(ps) && Sendable(payload) && |payload| >= 16
    ensures PieceFragment(ps, payload, Range(8, 8, true), hopLimit) == Fragment(Range(8, 8, true), [], None)
  {
  }

  /** An empty fragment for byte 8 of a new datagram. */
  lemma FirstEmpty(base: seq<byte>, f: Fragment)
    requires |base| == HEADER_SIZE && f == Fragment(Range(8, 8, true), [], None)
    ensures forall strict: bool ::
              Absorb(Opened(base), f, strict, true) == Busy(base, 8, [Hole(0, 8), Hole(8, INFINITY)], map[])
  {
    var hs := Opened(base).holes;
    assert f.Valid() && forall k :: k !in Placed(f);
    assert !Overlaps(hs, f.range) && Placed(f) == map[];
    assert Punch(hs, f.range) == Cut(hs[0], f.range) + Punch([], f.range);
    assert Cut(hs[0], f.range) == [Hole(0, 8), Hole(8, INFINITY)];
  }

  /** Then the first 16 bytes. */
  lemma PieceAbsorbed(ps: PseudoHeader, payload: seq<byte>, hopLimit: byte, a: Assembly)
    requires GoodPseudoHeader(ps) && Sendable(payload) && |payload| >= 16
    requires a.Busy? && a.dataLen == 8 && a.holes == [Hole(0, 8), Hole(8, INFINITY)] && a.got == map[]
    ensures var f := PieceFragment(ps, payload, Range(0, 16, true), hopLimit);
            && f.Valid() && Absorb(a, f, true, true) == Free
            && var b := Absorb(a, f, false, true);
               b.Busy? && b.holes != [] && forall k :: 0 <= k < 16 ==> k in b.got && b.got[k] == payload[k]
  {
    hide FirstHeader;
    var s := Range(0, 16, true);
    assert Overlaps(a.holes, s);
    assert Punch(a.holes, s) == Cut(a.holes[0], s) + Punch(a.holes[1..], s);
    assert Punch(a.holes[1..], s) == Cut(a.holes[1], s) + Punch([], s);
    assert Punch(a.holes, s) == [Hole(16, INFINITY)];
  }

  // ----- after the drop -----

  /**
   Nothing is remembered of a dropped datagram: whatever packets led to an empty buffer, the
   receiver delivers from then on exactly what the packets that follow give by themselves.
   */
  lemma {:induction false} DropForgets(before: seq<Reading>, after: seq<Reading>, strict: bool)
    requires AllValid(before) && AllValid(after) && ViewRun(Free, before, strict) == Trace(Free, [])
    ensures AllValid(before + after)
    ensures ViewRun(Free, before + after, strict) == ViewRun(Free, after, strict)
  {
    hide ViewRun;
    RunGoesOn(Free, before, after, strict);
    assert [] + ViewRun(Free, after, strict).outs == ViewRun(Free, after, strict).outs;
  }

  /** Two fragments that overlap make a strict receiver drop the datagram. */
  lemma OverlapDropped(ps: PseudoHeader, id: seq<byte>, payload: seq<byte>, hopLimit: byte)
    requires GoodPseudoHeader(ps) && |id| == 4 && Sendable(payload) && |payload| >= 24
    ensures var ks := AllReceived(Packets(ps, id, payload, [Range(0, 16, true), Range(8, 24, true)], hopLimit));
            AllAcceptable(ks) && ViewRun(Free, Readings(ks), true) == Trace(Free, [])
  {
    hide Header, Packet, Parse, PieceFragment, Checked, InBounds, Absorb;
    var r, s := Range(0, 16, true), Range(8, 24, true);
    PacketsRead(ps, id, payload, [r, s], hopLimit);
    var arrived := Readings(AllReceived(Packets(ps, id, payload, [r, s], hopLimit)));
    var f, g := PieceFragment(ps, payload, r, hopLimit), PieceFragment(ps, payload, s, hopLimit);
    var a := Absorb(Opened(arrived[0].header), f, true, true);
    FirstPiece16(ps, payload, hopLimit, arrived[0].header);
    SecondPiece(ps, payload, hopLimit, a);
    assert arrived[..1][..0] == [];
    assert ServeOne(Free, arrived[0], true) == Served(a, None);
    assert ViewRun(Free, arrived[..1], true) == Trace(a, []);
  }

  lemma FirstPiece16(ps: PseudoHeader, payload: seq<byte>, hopLimit: byte, base: seq<byte>)
    requires GoodPseudoHeader(ps) && Sendable(payload) && |payload| >= 24 && |base| == HEADER_SIZE
    ensures var f := PieceFragment(ps, payload, Range(0, 16, true), hopLimit);
            && f.Valid()
            && var a := Absorb(Opened(base), f, true, true);
               a.Busy? && a.dataLen == 16 && a.holes == [Hole(16, INFINITY)] && |a.header| == HEADER_SIZE
  {
    hide FirstHeader;
    var hs, r := Opened(base).holes, Range(0, 16, true);
    assert !Overlaps(hs, r);
    assert Punch(hs, r) == Cut(hs[0], r) + Punch([], r);
  }

  lemma SecondPiece(ps: PseudoHeader, payload: seq<byte>, hopLimit: byte, a: Assembly)
    requires GoodPseudoHeader(ps) && Sendable(payload) && |payload| >= 24
    requires a.Busy? && a.dataLen == 16 && a.holes == [Hole(16, INFINITY)]
    ensures var g := PieceFragment(ps, payload, Range(8, 24, true), hopLimit);
            g.Valid() && Absorb(a, g, true, true) == Free
  {
    assert Overlaps(a.holes, Range(8, 24, true));
  }

  /**
   Section 4 of RFC 5722 has the fragments not yet received discarded as well. They are not:
   overlapping fragments, and then all fragments of the datagram once more, deliver it.
   */
  lemma {:induction false} DeliveredAfterDrop(ps: PseudoHeader, id: seq<byte>, payload: seq<byte>, order: seq<Range>, m: nat,
                                              hopLimit: byte)
    requires Agreed(ps, id, payload, m) && InSomeOrder(order, |payload|, m) && |payload| >= 24
    requires forall i :: 0 <= i < |order| ==> 0 <= order[i].first <= order[i].last <= |payload|
    ensures var overlapping := AllReceived(Packets(ps, id, payload, [Range(0, 16, true), Range(8, 24, true)], hopLimit));
            var ks := overlapping + AllReceived(Packets(ps, id, payload, order, hopLimit));
            && AllAcceptable(ks)
            && var t := ViewRun(Free, Readings(ks), true);
               |t.outs| == 1 && forall d :: Delivers(d, t.outs[0]) ==> IsDatagram(d, ps, id, payload, hopLimit)
  {
    hide Division, Header, Delivers, ViewRun, Packets, Packet, Read, Checked, InBounds;
    var overlapping := AllReceived(Packets(ps, id, payload, [Range(0, 16, true), Range(8, 24, true)], hopLimit));
    var rest := AllReceived(Packets(ps, id, payload, order, hopLimit));
    OverlapDropped(ps, id, payload, hopLimit);
    RoundTrip6(ps, id, payload, order, m, hopLimit, true);
    DropForgets(Readings(overlapping), Readings(rest), true);
    assert Readings(overlapping + rest) == Readings(overlapping) + Readings(rest);
  }
}
