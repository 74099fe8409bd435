/**
 Sender and receiver together: whatever order the packets of a datagram arrive in, and
 whatever other datagrams they are mixed with, the payload that was sent is delivered.
 */
module Ipv4RoundTrip {
  import opened Bytes
  import opened HoleList
  import opened Reassembly
  import opened ReassemblyRuns
  import opened ReassemblyQueue
  import opened Fragmentation
  import opened IpChecksum
  import opened Ipv4Frag
  import opened Ipv4Reassembly

  /** Packets that the receiver hands to the reassembly code. */
  predicate Acceptable(packet: seq<byte>) {
    Checked(packet) && InBounds(packet)
  }

  ghost predicate AllAcceptable(packets: seq<seq<byte>>) {
    forall i :: 0 <= i < |packets| ==> Acceptable(packets[i])
  }

  /** What the receiver reads out of packets. */
  function Readings(packets: seq<seq<byte>>): (ps: seq<Reading>)
    requires AllAcceptable(packets)
    ensures |ps| == |packets| && forall i :: 0 <= i < |ps| ==> ps[i] == Read(packets[i], true, true)
    ensures AllValid(ps)
  {
    seq(|packets|, i requires 0 <= i < |packets| => Read(packets[i], true, true))
  }

  // ----- what the sender makes of a payload, seen by the receiver -----

  /** The fragment that the receiver reads out of the packet of a piece. */
  function PieceFragment(ps: PseudoHeader, id: uint16, payload: seq<byte>, r: Range, ttl: byte): Fragment
    requires GoodPseudoHeader(ps) && Sendable(payload) && 0 <= r.first <= r.last <= |payload|
  {
    Fragment(r, payload[r.first..r.last],
             if r.first == 0 then Some(Header(ps, id, FragField(r), HEADER_SIZE + r.last - r.first, ttl)) else None)
  }

  function KeyFor(ps: PseudoHeader, id: uint16): seq<byte>
    requires GoodPseudoHeader(ps)
  {
    [High(id), Low(id), ps.protocol] + ps.srcAddr + ps.destAddr
  }

  lemma HeaderFields(ps: PseudoHeader, id: uint16, x: uint16, total: uint16, ttl: byte)
    requires GoodPseudoHeader(ps)
    ensures var h := Header(ps, id, x, total, ttl);
            h[0] == 0x45 && Be16(h, 6) == x && Key(h) == KeyFor(ps, id)
  {
    hide Checksum, OnesSum;
    var h, bare := Header(ps, id, x, total, ttl), BareHeader(ps, id, x, total, ttl);
    assert forall k :: 0 <= k < HEADER_SIZE && k != 10 && k != 11 ==> h[k] == bare[k];
    assert h[4..6] == [h[4], h[5]];
    assert h[12..20] == bare[12..20] == ps.srcAddr + ps.destAddr;
  }

  lemma FragFieldParts(r: Range)
    requires 0 <= r.first <= MAX_PACKET && r.first % 8 == 0
    ensures First(FragField(r)) == r.first && (More(FragField(r)) <==> r.more)
  {
  }

  /** What the receiver should read out of the packet of a piece. */
  function PieceReading(ps: PseudoHeader, id: uint16, payload: seq<byte>, r: Range, ttl: byte): Reading
    requires GoodPseudoHeader(ps) && Sendable(payload) && 0 <= r.first <= r.last <= |payload|
  {
    Reading(KeyFor(ps, id), Header(ps, id, FragField(r), HEADER_SIZE + r.last - r.first, ttl),
            Some(PieceFragment(ps, id, payload, r, ttl)), true, true)
  }

  /** The receiver reads back exactly the piece that was sent, with the key and the header that the sender wrote. */
  lemma ParsePiece(ps: PseudoHeader, id: uint16, payload: seq<byte>, r: Range, ttl: byte)
    requires GoodPseudoHeader(ps) && Sendable(payload) && 0 <= r.first <= r.last <= |payload|
    requires r.first % 8 == 0 && (r.more ==> (r.last - r.first) % 8 == 0)
    ensures var packet := PieceFor(ps, id, payload, r, ttl);
            Acceptable(packet) && Read(packet, true, true) == PieceReading(ps, id, payload, r, ttl)
  {
    hide Header, Checksum, More, First, FragField;
    var packet := PieceFor(ps, id, payload, r, ttl);
    var h := Header(ps, id, FragField(r), HEADER_SIZE + (r.last - r.first), ttl);
    HeaderFields(ps, id, FragField(r), HEADER_SIZE + (r.last - r.first), ttl);
    FragFieldParts(r);
    assert packet[..HEADER_SIZE] == h && packet[HEADER_SIZE..] == payload[r.first..r.last];
    ReadHeader(packet);
  }

  /** Clearing what the receiver clears gives the header of the whole datagram, before its checksum. */
  lemma FixedIsBare(ps: PseudoHeader, id: uint16, x: uint16, t: uint16, total: uint16, ttl: byte)
    requires GoodPseudoHeader(ps)
    ensures FixedHeader(Header(ps, id, x, t, ttl), total) == BareHeader(ps, id, 0, total, ttl)
  {
    var f, b := FixedHeader(Header(ps, id, x, t, ttl), total), BareHeader(ps, id, 0, total, ttl);
    assert forall k :: 0 <= k < HEADER_SIZE ==> f[k] == b[k];
  }

  /** Everything the two ends must agree on: a payload that fits, divided into pieces of `m` bytes. */
  ghost predicate Agreed(ps: PseudoHeader, payload: seq<byte>, m: nat) {
    && GoodPseudoHeader(ps) && 0 < |payload| && HEADER_SIZE + |payload| <= MAX_DATAGRAM
    && 0 < m && m % 8 == 0
  }

  function Fragments(ps: PseudoHeader, id: uint16, payload: seq<byte>, rs: seq<Range>, ttl: byte): (fs: seq<Fragment>)
    requires GoodPseudoHeader(ps) && Sendable(payload)
    requires forall i :: 0 <= i < |rs| ==> 0 <= rs[i].first <= rs[i].last <= |payload|
    ensures |fs| == |rs| && forall i :: 0 <= i < |rs| ==> fs[i] == PieceFragment(ps, id, payload, rs[i], ttl)
  {
    seq(|rs|, i requires 0 <= i < |rs| => PieceFragment(ps, id, payload, rs[i], ttl))
  }

  /** The fragments of a permuted division are the pieces of `payload`, with headers that leave room for it. */
  lemma FragmentsSent(ps: PseudoHeader, id: uint16, payload: seq<byte>, order: seq<Range>, m: nat, ttl: byte)
    requires Agreed(ps, payload, m) && InSomeOrder(order, |payload|, m)
    ensures forall i :: 0 <= i < |order| ==> 0 <= order[i].first <= order[i].last <= |payload|
    ensures Sent(payload, Fragments(ps, id, payload, order, ttl), m)
    ensures Ranges(Fragments(ps, id, payload, order, ttl)) == order
  {
    hide Header, OnGrid;
    OrderedPieces(order, |payload|, m);
  }

  lemma PacketsRead(ps: PseudoHeader, id: uint16, payload: seq<byte>, order: seq<Range>, ttl: byte)
    requires GoodPseudoHeader(ps) && Sendable(payload)
    requires forall i :: 0 <= i < |order| ==> 0 <= order[i].first <= order[i].last <= |payload| && GoodRange(order[i])
    ensures var ks, fs := Packets(ps, id, payload, order, ttl), Fragments(ps, id, payload, order, ttl);
            && AllAcceptable(ks)
            && forall i :: 0 <= i < |ks| ==>
                 var p := Readings(ks)[i];
                 && p.fragment == Some(fs[i]) && fs[i].Valid() && |p.header| == HEADER_SIZE && p.key == KeyFor(ps, id)
                 && p.openOk && p.growOk
  {
    hide PieceFor, PieceFragment, Read, Checked, InBounds, KeyFor;
    forall i | 0 <= i < |order|
      ensures var k := PieceFor(ps, id, payload, order[i], ttl);
              Acceptable(k) && Read(k, true, true) == PieceReading(ps, id, payload, order[i], ttl)
    {
      ParsePiece(ps, id, payload, order[i], ttl);
    }
  }

  /** The packets of a payload leave one complete buffer, with all of the payload and the header of its first piece. */
  lemma Collected(ps: PseudoHeader, id: uint16, payload: seq<byte>, order: seq<Range>, m: nat, ttl: byte, k: nat)
    requires Agreed(ps, payload, m) && InSomeOrder(order, |payload|, m) && k < |order| && order[k].first == 0
    requires forall i :: 0 <= i < |order| ==> 0 <= order[i].first <= order[i].last <= |payload|
    ensures AllAcceptable(Packets(ps, id, payload, order, ttl))
    ensures var t := ViewRun(Free, Readings(Packets(ps, id, payload, order, ttl)), false);
            && t.state == Free && |t.outs| == 1
            && var a := t.outs[0];
               && a.Busy? && a.header == Header(ps, id, FragField(order[k]), HEADER_SIZE + order[k].last, ttl)
               && a.dataLen == |payload| && forall j :: 0 <= j < |payload| ==> j in a.got && a.got[j] == payload[j]
  {
    hide IsPiece, CutFrom, Division, Acceptable, Header, PieceFragment, PieceFor, ViewRun, TakeRun, GoodRange, FragField, Parse;
    var fs, ks := Fragments(ps, id, payload, order, ttl), Packets(ps, id, payload, order, ttl);
    FragmentsSent(ps, id, payload, order, m, ttl);
    OrderedPieces(order, |payload|, m);
    PacketsRead(ps, id, payload, order, ttl);
    ReadingsTaken(Readings(ks), fs, false);
    SameFirst(ps, id, payload, order, m, ttl, k);
    Completes(payload, Headers(Readings(ks)), fs, m, false, fs[k].newHeader.value);
  }

  /** The datagram as it would be sent without fragmentation: its fields, offset and checksum zero, and all of the payload. */
  predicate IsDatagram(d: seq<byte>, ps: PseudoHeader, id: uint16, payload: seq<byte>, ttl: byte) {
    && CarriesFields(d, ps, id, ttl) && Be16(d, 6) == 0 && Be16(d, 10) == 0
    && d[20..] == payload
    && d == BareHeader(ps, id, 0, HEADER_SIZE + |payload|, ttl) + payload
  }

  lemma MakesDatagram(ps: PseudoHeader, id: uint16, payload: seq<byte>, ttl: byte)
    requires GoodPseudoHeader(ps) && Sendable(payload)
    ensures IsDatagram(BareHeader(ps, id, 0, HEADER_SIZE + |payload|, ttl) + payload, ps, id, payload, ttl)
  {
    hide CarriesFields;
    HeaderCarries(ps, id, 0, payload, ttl);
  }

  /**
   The round trip on packets. The packets of a payload, whatever their order, yield one
   datagram, when the last of them arrives; it is the unfragmented packet of the payload,
   with its checksum field still zero.
   */
  lemma RoundTrip4(ps: PseudoHeader, id: uint16, payload: seq<byte>, order: seq<Range>, m: nat, ttl: byte)
    requires Agreed(ps, payload, m) && InSomeOrder(order, |payload|, m)
    requires forall i :: 0 <= i < |order| ==> 0 <= order[i].first <= order[i].last <= |payload|
    ensures AllAcceptable(Packets(ps, id, payload, order, ttl))
    ensures var t := ViewRun(Free, Readings(Packets(ps, id, payload, order, ttl)), false);
            && t.state == Free && |t.outs| == 1
            && forall d :: Delivers(d, t.outs[0]) ==> IsDatagram(d, ps, id, payload, ttl)
  {
    hide Division, AllAcceptable, Header, BareHeader, Delivers, ViewRun, FragField, Packets, InSomeOrder, IsDatagram;
    var k := FirstPiece(order, |payload|, m);
    Collected(ps, id, payload, order, m, ttl, k);
    FixedIsBare(ps, id, FragField(order[k]), HEADER_SIZE + order[k].last, HEADER_SIZE + |payload|, ttl);
    var a := ViewRun(Free, Readings(Packets(ps, id, payload, order, ttl)), false).outs[0];
    MakesDatagram(ps, id, payload, ttl);
    forall d | Delivers(d, a) ensures IsDatagram(d, ps, id, payload, ttl) {
      DeliveredBytes(d, a, payload, BareHeader(ps, id, 0, HEADER_SIZE + |payload|, ttl));
    }
  }

  /** Only one piece starts at offset zero, so all headers from offset zero are the same. */
  lemma SameFirst(ps: PseudoHeader, id: uint16, payload: seq<byte>, order: seq<Range>, m: nat, ttl: byte, k: nat)
    requires Agreed(ps, payload, m) && InSomeOrder(order, |payload|, m) && k < |order| && order[k].first == 0
    requires forall i :: 0 <= i < |order| ==> 0 <= order[i].first <= order[i].last <= |payload|
    ensures var fs := Fragments(ps, id, payload, order, ttl);
            && fs[k].newHeader == Some(Header(ps, id, FragField(order[k]), HEADER_SIZE + order[k].last, ttl))
            && forall i :: 0 <= i < |fs| && fs[i].newHeader.Some? ==> fs[i].newHeader == fs[k].newHeader
  {
    hide Header, OnGrid;
    OrderedPieces(order, |payload|, m);
  }

  lemma DeliveredBytes(d: seq<byte>, a: Assembly, payload: seq<byte>, bare: seq<byte>)
    requires Delivers(d, a) && a.dataLen == |payload|
    requires forall k :: 0 <= k < |payload| ==> k in a.got && a.got[k] == payload[k]
    requires FixedHeader(a.header, |a.header| + a.dataLen) == bare
    ensures d == bare + payload
  {
    hide FixedHeader;
    var n := |a.header|;
    forall k | 0 <= k < |payload| ensures d[n + k] == payload[k] {
      assert k in a.got;
    }
    assert d == d[..n] + d[n..];
    assert d[n..] == payload;
  }

  /**
   The whole story: packets of up to four datagrams mixed in any way. If those of one of
   them are the packets of a payload in some order, that payload is what is delivered for it.
   */
  lemma MixedRoundTrip(ps: PseudoHeader, id: uint16, payload: seq<byte>, order: seq<Range>, m: nat, ttl: byte,
                       packets: seq<seq<byte>>, keys: set<seq<byte>>)
    requires Agreed(ps, payload, m) && InSomeOrder(order, |payload|, m)
    requires forall i :: 0 <= i < |order| ==> 0 <= order[i].first <= order[i].last <= |payload|
    requires AllAcceptable(packets) && |keys| <= MAX_DATAGRAMS
    requires forall i :: 0 <= i < |packets| ==> Key(packets[i]) in keys
    requires AllAcceptable(Packets(ps, id, payload, order, ttl))
    requires OnlyKey(Readings(packets), KeyFor(ps, id)) == Readings(Packets(ps, id, payload, order, ttl))
    ensures var outs := QueueRun(Fresh(), Readings(packets), false, KeyFor(ps, id)).outs;
            && |outs| == 1
            && forall d :: Delivers(d, outs[0]) ==> IsDatagram(d, ps, id, payload, ttl)
  {
    hide IsPiece, Division, Absorb, Acceptable, Header, BareHeader, Delivers, Key, ServeOne, Serve, IsDatagram;
    RoundTrip4(ps, id, payload, order, m, ttl);
    FreshIsolation(Readings(packets), false, KeyFor(ps, id), keys);
  }

  /** The datagram is under way until its last packet arrives. */
  lemma {:induction false} SentUnderWay(ps: PseudoHeader, id: uint16, payload: seq<byte>, order: seq<Range>, m: nat, ttl: byte)
    requires Agreed(ps, payload, m) && InSomeOrder(order, |payload|, m)
    requires forall i :: 0 <= i < |order| ==> 0 <= order[i].first <= order[i].last <= |payload|
    requires AllAcceptable(Packets(ps, id, payload, order, ttl))
    ensures UnderWay(Free, Readings(Packets(ps, id, payload, order, ttl)), false)
  {
    hide IsPiece, CutFrom, Division, Acceptable, Header, PieceFragment, PieceFor, TakeRun, GoodRange, Parse, Absorb;
    var fs, arrived := Fragments(ps, id, payload, order, ttl), Readings(Packets(ps, id, payload, order, ttl));
    FragmentsSent(ps, id, payload, order, m, ttl);
    OrderedPieces(order, |payload|, m);
    PacketsRead(ps, id, payload, order, ttl);
    forall j | 0 < j < |arrived| ensures ViewRun(Free, arrived[..j], false).state.Busy? {
      StillTaking(payload, arrived, fs, m, false, j);
    }
  }

  /**
   The same when there are more datagrams than buffers: once the first packet of a payload has
   found a free buffer, its packets deliver it, whatever else arrives.
   */
  lemma {:induction false} CrowdedRoundTrip(ps: PseudoHeader, id: uint16, payload: seq<byte>, order: seq<Range>, m: nat, ttl: byte,
                                            q: seq<Slot>, arrivals: seq<Reading>)
    requires Agreed(ps, payload, m) && InSomeOrder(order, |payload|, m)
    requires forall i :: 0 <= i < |order| ==> 0 <= order[i].first <= order[i].last <= |payload|
    requires UniqueKeys(q) && View(q, KeyFor(ps, id)).Free? && FirstFree(q) < |q|
    requires AllValid(arrivals) && arrivals != [] && arrivals[0].key == KeyFor(ps, id)
    requires AllAcceptable(Packets(ps, id, payload, order, ttl))
    requires OnlyKey(arrivals, KeyFor(ps, id)) == Readings(Packets(ps, id, payload, order, ttl))
    ensures var outs := QueueRun(q, arrivals, false, KeyFor(ps, id)).outs;
            |outs| == 1 && forall d :: Delivers(d, outs[0]) ==> IsDatagram(d, ps, id, payload, ttl)
  {
    hide IsPiece, Division, Absorb, Acceptable, Delivers, KeyFor, ServeOne, Serve, IsDatagram, UnderWay, View, UniqueKeys;
    RoundTrip4(ps, id, payload, order, m, ttl);
    SentUnderWay(ps, id, payload, order, m, ttl);
    Undisturbed(q, arrivals, false, KeyFor(ps, id));
  }
}
