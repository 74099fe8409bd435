/** IPv4 fragmentation and reassembly on the packets themselves: RFC 791 and RFC 815. */
module Ipv4Frag {
  import opened Bytes
  import opened HoleList
  import opened Fragmentation
  import opened IpChecksum

  const HEADER_SIZE: int := 20
  const FLAG_MF: int := 0x2000
  const MAX_PACKET: int := 0xFFFF

  // ----- sending -----

  datatype PseudoHeader = PseudoHeader(srcAddr: seq<byte>, destAddr: seq<byte>, protocol: byte)

  predicate GoodPseudoHeader(ps: PseudoHeader) {
    |ps.srcAddr| == 4 && |ps.destAddr| == 4
  }

  /** The header of ipv4SendPacket before its checksum is filled in. */
  function BareHeader(ps: PseudoHeader, id: uint16, fragOffset: uint16, total: uint16, ttl: byte): (h: seq<byte>)
    requires GoodPseudoHeader(ps)
    ensures |h| == HEADER_SIZE
  {
    [0x45, 0, High(total), Low(total), High(id), Low(id), High(fragOffset), Low(fragOffset), ttl, ps.protocol, 0, 0]
    + ps.srcAddr + ps.destAddr
  }

  function Header(ps: PseudoHeader, id: uint16, fragOffset: uint16, total: uint16, ttl: byte): (h: seq<byte>)
    requires GoodPseudoHeader(ps)
    ensures |h| == HEADER_SIZE
  {
    var bare := BareHeader(ps, id, fragOffset, total, ttl);
    Stored(bare, 10, Checksum(bare))
  }

  /** The fields of RFC 791 that are the same in all packets of a datagram, and in the datagram itself. */
  predicate CarriesFields(packet: seq<byte>, ps: PseudoHeader, id: uint16, ttl: byte) {
    && |packet| >= 20
    && packet[0] == 0x45 && packet[1] == 0             // version 4, five words, no type of service
    && Be16(packet, 2) == |packet| && Be16(packet, 4) == id
    && packet[8] == ttl && packet[9] == ps.protocol
    && packet[12..16] == ps.srcAddr && packet[16..20] == ps.destAddr
  }

  /** A header, before and after its checksum is filled in, in front of any data of the right length. */
  lemma HeaderCarries(ps: PseudoHeader, id: uint16, fragOffset: uint16, data: seq<byte>, ttl: byte)
    requires GoodPseudoHeader(ps) && HEADER_SIZE + |data| <= MAX_PACKET
    ensures CarriesFields(Header(ps, id, fragOffset, HEADER_SIZE + |data|, ttl) + data, ps, id, ttl)
    ensures CarriesFields(BareHeader(ps, id, fragOffset, HEADER_SIZE + |data|, ttl) + data, ps, id, ttl)
    ensures Be16(Header(ps, id, fragOffset, HEADER_SIZE + |data|, ttl) + data, 6) == fragOffset
    ensures Be16(BareHeader(ps, id, fragOffset, HEADER_SIZE + |data|, ttl) + data, 6) == fragOffset
  {
    hide Checksum;
    var total := HEADER_SIZE + |data|;
    var h, bare := Header(ps, id, fragOffset, total, ttl), BareHeader(ps, id, fragOffset, total, ttl);
    assert forall k :: 0 <= k < HEADER_SIZE && k != 10 && k != 11 ==> h[k] == bare[k];
    assert bare[12..16] == ps.srcAddr && bare[16..20] == ps.destAddr;
    assert (h + data)[12..16] == h[12..16] == bare[12..16] == (bare + data)[12..16];
    assert (h + data)[16..20] == h[16..20] == bare[16..20] == (bare + data)[16..20];
  }

  /** Every header that is sent passes the receiver's checksum test. */
  lemma HeaderVerifies(ps: PseudoHeader, id: uint16, fragOffset: uint16, total: uint16, ttl: byte)
    requires GoodPseudoHeader(ps)
    ensures Checksum(Header(ps, id, fragOffset, total, ttl)) == 0
  {
    var bare := BareHeader(ps, id, fragOffset, total, ttl);
    VerifiesExactly(bare, 10, Checksum(bare));
  }

  /** The packet that carries `data` at the given place of its datagram. */
  function Packet(ps: PseudoHeader, id: uint16, fragOffset: uint16, data: seq<byte>, ttl: byte): seq<byte>
    requires GoodPseudoHeader(ps) && HEADER_SIZE + |data| <= MAX_PACKET
  {
    Header(ps, id, fragOffset, HEADER_SIZE + |data|, ttl) + data
  }

  function FragField(r: Range): uint16
    requires 0 <= r.first <= MAX_PACKET
  {
    (if r.more then FLAG_MF else 0) + r.first / 8
  }

  /** Largest payload of one packet. */
  function MaxFragment(mtu: nat): (m: nat)
    requires mtu >= HEADER_SIZE + 8
    ensures 8 <= m <= mtu - HEADER_SIZE < m + 8 && m % 8 == 0
  {
    (mtu - HEADER_SIZE) - (mtu - HEADER_SIZE) % 8
  }

  predicate Sendable(payload: seq<byte>) {
    HEADER_SIZE + |payload| <= MAX_PACKET
  }

  function PieceFor(ps: PseudoHeader, id: uint16, payload: seq<byte>, r: Range, ttl: byte): seq<byte>
    requires GoodPseudoHeader(ps) && Sendable(payload) && 0 <= r.first <= r.last <= |payload|
  {
    Packet(ps, id, FragField(r), payload[r.first..r.last], ttl)
  }

  /** The packets of a payload, one for each piece of its division. */
  function Packets(ps: PseudoHeader, id: uint16, payload: seq<byte>, rs: seq<Range>, ttl: byte): (ks: seq<seq<byte>>)
    requires GoodPseudoHeader(ps) && Sendable(payload)
    requires forall i :: 0 <= i < |rs| ==> 0 <= rs[i].first <= rs[i].last <= |payload|
    ensures |ks| == |rs|
    ensures forall i :: 0 <= i < |rs| ==> ks[i] == PieceFor(ps, id, payload, rs[i], ttl)
  {
    seq(|rs|, i requires 0 <= i < |rs| => PieceFor(ps, id, payload, rs[i], ttl))
  }

  lemma PacketsSnoc(ps: PseudoHeader, id: uint16, payload: seq<byte>, rs: seq<Range>, r: Range, ttl: byte)
    requires GoodPseudoHeader(ps) && Sendable(payload)
    requires forall i :: 0 <= i < |rs| ==> 0 <= rs[i].first <= rs[i].last <= |payload|
    requires 0 <= r.first <= r.last <= |payload|
    ensures Packets(ps, id, payload, rs + [r], ttl) == Packets(ps, id, payload, rs, ttl) + [PieceFor(ps, id, payload, r, ttl)]
  {
    hide PieceFor;
  }

  lemma PieceCarries(ps: PseudoHeader, id: uint16, payload: seq<byte>, r: Range, ttl: byte)
    requires GoodPseudoHeader(ps) && Sendable(payload) && 0 <= r.first <= r.last <= |payload|
    ensures |PieceFor(ps, id, payload, r, ttl)| == HEADER_SIZE + r.last - r.first
    ensures CarriesFields(PieceFor(ps, id, payload, r, ttl), ps, id, ttl)
  {
    hide Header, CarriesFields, FragField;
    var data := payload[r.first..r.last];
    assert |data| == r.last - r.first;
    HeaderCarries(ps, id, FragField(r), data, ttl);
  }

  lemma PacketsCarry(ps: PseudoHeader, id: uint16, payload: seq<byte>, rs: seq<Range>, m: nat, ttl: byte)
    requires GoodPseudoHeader(ps) && Sendable(payload)
    requires forall i :: 0 <= i < |rs| ==> 0 <= rs[i].first <= rs[i].last <= |payload| && rs[i].last - rs[i].first <= m
    ensures forall i :: 0 <= i < |rs| ==>
              var packet := Packets(ps, id, payload, rs, ttl)[i];
              |packet| <= HEADER_SIZE + m && CarriesFields(packet, ps, id, ttl)
  {
    hide PieceFor, CarriesFields;
    forall i | 0 <= i < |rs|
      ensures var packet := PieceFor(ps, id, payload, rs[i], ttl);
              |packet| <= HEADER_SIZE + m && CarriesFields(packet, ps, id, ttl)
    {
      PieceCarries(ps, id, payload, rs[i], ttl);
    }
  }

  /**
   ipv4FragmentDatagram. `accepted` is how many packets the lower layer takes before it
   reports an error; the loop stops at the first one it refuses.
   */
  method FragmentDatagram(ps: PseudoHeader, id: uint16, payload: seq<byte>, mtu: nat, ttl: byte, accepted: nat)
    returns (sent: seq<seq<byte>>, ok: bool)
    requires GoodPseudoHeader(ps) && Sendable(payload) && mtu >= HEADER_SIZE + 8
    ensures var rs := Division(0, |payload|, MaxFragment(mtu));
            && (forall i :: 0 <= i < |rs| ==> 0 <= rs[i].first <= rs[i].last <= |payload|)
            && (ok <==> |rs| <= accepted)
            && sent == Packets(ps, id, payload, if ok then rs else rs[..accepted], ttl)
    ensures forall i :: 0 <= i < |sent| ==> |sent[i]| <= mtu && CarriesFields(sent[i], ps, id, ttl)
  {
    hide Division, Header, BareHeader, PieceFor, Packets, MaxFragment, CarriesFields;
    var maxFragmentSize := MaxFragment(mtu);
    ghost var rs, done := Division(0, |payload|, maxFragmentSize), [];
    DivisionBounds(0, |payload|, maxFragmentSize);
    assert [] + rs == rs;
    sent, ok := [], true;
    var offset := 0;
    while offset < |payload|
      invariant offset <= |payload| && |done| <= accepted && |sent| == |done| && ok
      invariant rs == done + Division(offset, |payload|, maxFragmentSize)
      invariant forall i :: 0 <= i < |done| ==>
                  0 <= done[i].first <= done[i].last <= |payload| && done[i].last - done[i].first <= maxFragmentSize
      invariant sent == Packets(ps, id, payload, done, ttl)
      decreases |payload| - offset
    {
      DivisionStep(offset, |payload|, maxFragmentSize);
      var length, flag;
      if |payload| - offset <= maxFragmentSize {
        length, flag := |payload| - offset, 0;
      } else {
        length, flag := maxFragmentSize, FLAG_MF;
      }
      ghost var r := Range(offset, offset + length, flag != 0);
      assert rs == done + [r] + Division(offset + length, |payload|, maxFragmentSize);
      if |sent| == accepted {
        ok := false;
        assert rs[..accepted] == done;
        break;
      }
      PacketsSnoc(ps, id, payload, done, r, ttl);
      var packet := SendPacket(ps, id, payload, offset, length, flag, ttl);
      sent := sent + [packet];
      done := done + [r];
      offset := offset + length;
    }
    if ok {
      DivisionStep(offset, |payload|, maxFragmentSize);
      assert done == rs;
    }
    PacketsCarry(ps, id, payload, done, maxFragmentSize, ttl);
  }

  /** One iteration's copy and ipv4SendPacket. */
  method SendPacket(ps: PseudoHeader, id: uint16, payload: seq<byte>, offset: nat, length: nat, flag: int, ttl: byte)
    returns (packet: seq<byte>)
    requires GoodPseudoHeader(ps) && Sendable(payload) && offset + length <= |payload| && (flag == 0 || flag == FLAG_MF)
    ensures packet == PieceFor(ps, id, payload, Range(offset, offset + length, flag != 0), ttl)
    ensures |packet| == HEADER_SIZE + length && packet[HEADER_SIZE..] == payload[offset..offset + length]
    ensures CarriesFields(packet, ps, id, ttl)
    ensures Be16(packet, 6) == flag + offset / 8 && Checksum(packet[..HEADER_SIZE]) == 0
  {
    hide Checksum, Header, CarriesFields;
    packet := Packet(ps, id, flag + offset / 8, payload[offset..offset + length], ttl);
    HeaderVerifies(ps, id, flag + offset / 8, HEADER_SIZE + length, ttl);
    HeaderCarries(ps, id, flag + offset / 8, payload[offset..offset + length], ttl);
    assert packet[..HEADER_SIZE] == Header(ps, id, flag + offset / 8, HEADER_SIZE + length, ttl);
  }
}
