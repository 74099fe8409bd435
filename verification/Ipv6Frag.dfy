/** IPv6 fragmentation: the packets that carry the pieces of a payload, section 4.5 of RFC 2460. */
module Ipv6Frag {
  import opened Bytes
  import opened HoleList
  import opened Fragmentation

  const HEADER_SIZE: int := 40
  const FRAG_HEADER_SIZE: int := 8
  const NEXT_HEADER: int := 6  // offset of the Next Header field in the IPv6 header
  const IPV6_FRAGMENT_HEADER: byte := 44
  const DEFAULT_MTU: int := 1280
  const MAX_PACKET: int := 0xFFFF

  datatype PseudoHeader = PseudoHeader(srcAddr: seq<byte>, destAddr: seq<byte>, nextHeader: byte)

  predicate GoodPseudoHeader(ps: PseudoHeader) {
    |ps.srcAddr| == 16 && |ps.destAddr| == 16
  }

  // ----- sending -----

  function Header(ps: PseudoHeader, payloadLen: uint16, nextHeader: byte, hopLimit: byte): (h: seq<byte>)
    requires GoodPseudoHeader(ps)
    ensures |h| == HEADER_SIZE
  {
    [0x60, 0, 0, 0, High(payloadLen), Low(payloadLen), nextHeader, hopLimit] + ps.srcAddr + ps.destAddr
  }

  function FragmentHeader(ps: PseudoHeader, fragOffset: uint16, id: seq<byte>): (h: seq<byte>)
    requires |id| == 4
    ensures |h| == FRAG_HEADER_SIZE
  {
    [ps.nextHeader, 0, High(fragOffset), Low(fragOffset)] + id
  }

  /** ipv6SendPacket: the Fragment header is there exactly when the offset field is not zero. */
  function Packet(ps: PseudoHeader, id: seq<byte>, fragOffset: uint16, data: seq<byte>, hopLimit: byte): seq<byte>
    requires GoodPseudoHeader(ps) && |id| == 4 && FRAG_HEADER_SIZE + |data| <= MAX_PACKET
  {
    if fragOffset != 0 then
      Header(ps, FRAG_HEADER_SIZE + |data|, IPV6_FRAGMENT_HEADER, hopLimit) + FragmentHeader(ps, fragOffset, id) + data
    else
      Header(ps, |data|, ps.nextHeader, hopLimit) + data
  }

  /** The fields of RFC 2460 in the IPv6 header: version 6, no traffic class and flow label, and who sends what to whom. */
  predicate CarriesFields(packet: seq<byte>, ps: PseudoHeader, nextHeader: byte, hopLimit: byte) {
    && |packet| >= 40
    && packet[0] == 0x60 && packet[1] == 0 && packet[2] == 0 && packet[3] == 0
    && Be16(packet, 4) == |packet| - 40 && packet[6] == nextHeader && packet[7] == hopLimit
    && packet[8..24] == ps.srcAddr && packet[24..40] == ps.destAddr
  }

  /** The fields of the Fragment header behind it. */
  predicate CarriesFragment(packet: seq<byte>, ps: PseudoHeader, id: seq<byte>, fragOffset: uint16) {
    && |packet| >= 48
    && packet[40] == ps.nextHeader && packet[41] == 0 && Be16(packet, 42) == fragOffset && packet[44..48] == id
  }

  lemma PacketCarries(ps: PseudoHeader, id: seq<byte>, fragOffset: uint16, data: seq<byte>, hopLimit: byte)
    requires GoodPseudoHeader(ps) && |id| == 4 && FRAG_HEADER_SIZE + |data| <= MAX_PACKET
    ensures var packet := Packet(ps, id, fragOffset, data, hopLimit);
            && (fragOffset == 0 ==> CarriesFields(packet, ps, ps.nextHeader, hopLimit) && packet[40..] == data)
            && (fragOffset != 0 ==> && CarriesFields(packet, ps, 44, hopLimit) && packet[48..] == data
                                    && CarriesFragment(packet, ps, id, fragOffset))
  {
    var packet := Packet(ps, id, fragOffset, data, hopLimit);
    var h := packet[..40];
    assert h[8..24] == ps.srcAddr == packet[8..24] && h[24..40] == ps.destAddr == packet[24..40];
    if fragOffset != 0 {
      var f := FragmentHeader(ps, fragOffset, id);
      assert packet[40..48] == f && packet[44..48] == f[4..8] == id;
      assert packet[40] == f[0] && packet[41] == f[1] && packet[42] == f[2] && packet[43] == f[3];
    }
  }

  predicate Sendable(payload: seq<byte>) {
    HEADER_SIZE + FRAG_HEADER_SIZE + |payload| <= MAX_PACKET
  }

  function MaxFragment(pathMtu: nat): (m: nat)
    ensures 8 <= m && m % 8 == 0
    ensures var room := (if pathMtu < DEFAULT_MTU then DEFAULT_MTU else pathMtu) - HEADER_SIZE - FRAG_HEADER_SIZE;
            m <= room < m + 8
  {
    var n := (if pathMtu < DEFAULT_MTU then DEFAULT_MTU else pathMtu) - HEADER_SIZE - FRAG_HEADER_SIZE;
    n - n % 8
  }

  function PieceFor(ps: PseudoHeader, id: seq<byte>, payload: seq<byte>, r: Range, hopLimit: byte): seq<byte>
    requires GoodPseudoHeader(ps) && |id| == 4 && Sendable(payload)
    requires 0 <= r.first <= r.last <= |payload|
  {
    Packet(ps, id, FragField(r), payload[r.first..r.last], hopLimit)
  }

  function Packets(ps: PseudoHeader, id: seq<byte>, payload: seq<byte>, rs: seq<Range>, hopLimit: byte): (ks: seq<seq<byte>>)
    requires GoodPseudoHeader(ps) && |id| == 4 && Sendable(payload)
    requires forall i :: 0 <= i < |rs| ==> 0 <= rs[i].first <= rs[i].last <= |payload|
    ensures |ks| == |rs| && forall i :: 0 <= i < |rs| ==> ks[i] == PieceFor(ps, id, payload, rs[i], hopLimit)
  {
    seq(|rs|, i requires 0 <= i < |rs| => PieceFor(ps, id, payload, rs[i], hopLimit))
  }

  lemma PacketsSnoc(ps: PseudoHeader, id: seq<byte>, payload: seq<byte>, rs: seq<Range>, r: Range, hopLimit: byte)
    requires GoodPseudoHeader(ps) && |id| == 4 && Sendable(payload)
    requires forall i :: 0 <= i < |rs| ==> 0 <= rs[i].first <= rs[i].last <= |payload|
    requires 0 <= r.first <= r.last <= |payload|
    ensures Packets(ps, id, payload, rs + [r], hopLimit)
            == Packets(ps, id, payload, rs, hopLimit) + [PieceFor(ps, id, payload, r, hopLimit)]
  {
    hide PieceFor;
  }

  /** The offset field of a piece: its first byte, which is a multiple of 8, and the flag that more follows. */
  function FragField(r: Range): int {
    if r.more then r.first + 1 else r.first
  }

  /** What a packet carries of its datagram; a piece that is the whole payload needs no Fragment header. */
  predicate CarriesPiece(packet: seq<byte>, ps: PseudoHeader, id: seq<byte>, payload: seq<byte>, r: Range, hopLimit: byte)
    requires 0 <= r.first <= r.last <= |payload|
  {
    if r.first == 0 && !r.more then
      CarriesFields(packet, ps, ps.nextHeader, hopLimit) && packet[40..] == payload[r.first..r.last]
    else
      && CarriesFields(packet, ps, 44, hopLimit) && 0 <= FragField(r) <= MAX_PACKET
      && CarriesFragment(packet, ps, id, FragField(r)) && packet[48..] == payload[r.first..r.last]
  }

  lemma PieceCarries(ps: PseudoHeader, id: seq<byte>, payload: seq<byte>, r: Range, hopLimit: byte)
    requires GoodPseudoHeader(ps) && |id| == 4 && Sendable(payload)
    requires 0 <= r.first <= r.last <= |payload|
    ensures |PieceFor(ps, id, payload, r, hopLimit)| <= HEADER_SIZE + FRAG_HEADER_SIZE + r.last - r.first
    ensures CarriesPiece(PieceFor(ps, id, payload, r, hopLimit), ps, id, payload, r, hopLimit)
  {
    hide Header, FragmentHeader, CarriesFields, CarriesFragment;
    PacketCarries(ps, id, FragField(r), payload[r.first..r.last], hopLimit);
  }

  /** The packets carry the first pieces, in order. */
  predicate AllCarry(ks: seq<seq<byte>>, ps: PseudoHeader, id: seq<byte>, payload: seq<byte>, rs: seq<Range>, hopLimit: byte)
    requires forall i :: 0 <= i < |rs| ==> 0 <= rs[i].first <= rs[i].last <= |payload|
  {
    |ks| <= |rs| && forall i :: 0 <= i < |ks| ==> CarriesPiece(ks[i], ps, id, payload, rs[i], hopLimit)
  }

  lemma PacketsCarry(ps: PseudoHeader, id: seq<byte>, payload: seq<byte>, rs: seq<Range>, more: seq<Range>, m: nat,
                     hopLimit: byte)
    requires GoodPseudoHeader(ps) && |id| == 4 && Sendable(payload)
    requires forall i :: 0 <= i < |rs| ==> 0 <= rs[i].first <= rs[i].last <= |payload| && rs[i].last - rs[i].first <= m
    requires forall i :: 0 <= i < |rs + more| ==> 0 <= (rs + more)[i].first <= (rs + more)[i].last <= |payload|
    ensures AllCarry(Packets(ps, id, payload, rs, hopLimit), ps, id, payload, rs + more, hopLimit)
    ensures forall i :: 0 <= i < |rs| ==> |Packets(ps, id, payload, rs, hopLimit)[i]| <= HEADER_SIZE + FRAG_HEADER_SIZE + m
  {
    hide PieceFor, CarriesPiece;
    forall i | 0 <= i < |rs|
      ensures var packet := PieceFor(ps, id, payload, rs[i], hopLimit);
              |packet| <= HEADER_SIZE + FRAG_HEADER_SIZE + m && CarriesPiece(packet, ps, id, payload, rs[i], hopLimit)
    {
      PieceCarries(ps, id, payload, rs[i], hopLimit);
    }
  }

  /** ipv6FragmentDatagram; `accepted` is how many packets the lower layer takes before it reports an error. */
  method FragmentDatagram(ps: PseudoHeader, id: seq<byte>, payload: seq<byte>, pathMtu: nat, hopLimit: byte, accepted: nat)
    returns (sent: seq<seq<byte>>, ok: bool)
    requires GoodPseudoHeader(ps) && |id| == 4 && Sendable(payload)
    ensures var rs := Division(0, |payload|, MaxFragment(pathMtu));
            && (forall i :: 0 <= i < |rs| ==> 0 <= rs[i].first <= rs[i].last <= |payload|)
            && (ok <==> |rs| <= accepted)
            && sent == Packets(ps, id, payload, if ok then rs else rs[..accepted], hopLimit)
    ensures forall i :: 0 <= i < |sent| ==> |sent[i]| <= if pathMtu < DEFAULT_MTU then DEFAULT_MTU else pathMtu
    ensures AllCarry(sent, ps, id, payload, Division(0, |payload|, MaxFragment(pathMtu)), hopLimit)
  {
    hide Division, Header, Packet, PieceFor, MaxFragment, Packets, AllCarry;
    var maxFragmentSize := MaxFragment(pathMtu);
    ghost var rs, done := Division(0, |payload|, maxFragmentSize), [];
    DivisionBounds(0, |payload|, maxFragmentSize);
    assert [] + rs == rs;
    sent, ok := [], true;
    var offset := 0;
    while offset < |payload|
      invariant offset <= |payload| && |done| <= accepted && |sent| == |done| && ok
      invariant rs == done + Division(offset, |payload|, maxFragmentSize)
      invariant forall i :: 0 <= i < |done| ==>
                  0 <= done[i].first <= done[i].last <= |payload| && done[i].last - done[i].first <= maxFragmentSize
      invariant sent == Packets(ps, id, payload, done, hopLimit)
      decreases |payload| - offset
    {
      DivisionStep(offset, |payload|, maxFragmentSize);
      var length;
      if |payload| - offset <= maxFragmentSize {
        length := |payload| - offset;
      } else {
        length := maxFragmentSize;
      }
      ghost var r := Range(offset, offset + length, offset + length < |payload|);
      assert rs == done + [r] + Division(offset + length, |payload|, maxFragmentSize);
      if |sent| == accepted {
        ok := false;
        assert rs[..accepted] == done;
        break;
      }
      PacketsSnoc(ps, id, payload, done, r, hopLimit);
      sent := sent + [PieceFor(ps, id, payload, Range(offset, offset + length, offset + length < |payload|), hopLimit)];
      done := done + [r];
      offset := offset + length;
    }
    if ok {
      DivisionStep(offset, |payload|, maxFragmentSize);
      assert done == rs;
    }
    PacketsCarry(ps, id, payload, done, rs[|done|..], maxFragmentSize, hopLimit);
    assert done + rs[|done|..] == rs;
  }
}
