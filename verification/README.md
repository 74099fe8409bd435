# A verified model of the CycloneTCP stack in the Modbus demo

The repository is a Modbus client/server demo on top of the CycloneTCP sources. This
project models the parts of that stack with the most state and arithmetic, in Dafny, and
proves what their documentation and the RFCs they follow promise.

Code that works in place is modelled by classes and arrays with the same loops; each method
is proved against a function of the old state, and the properties of whole runs are proved
about these functions.

| file | part of the stack |
|---|---|
| `Bytes.dfy`, `SystemTime.dfy`, `Sums.dfy`, `NetBuffers.dfy` | bytes and words, the clock that wraps, sums of multisets, buffers in chunks |
| `HoleList.dfy`, `HoleBytes.dfy`, `Reassembly.dfy`, `ReassemblyRuns.dfy` | the hole list of sections 3 and 4 of RFC 815, threaded through the unreceived bytes of the buffer |
| `ReassemblyQueue.dfy`, `Fragmentation.dfy` | the queue of reassembly buffers, one datagram in each, and the division of a payload |
| `Ipv4Frag.dfy`, `Ipv4Reassembly.dfy`, `Ipv4RoundTrip.dfy` | IPv4 sender and receiver, and both together |
| `Ipv6Frag.dfy`, `Ipv6Reassembly.dfy`, `Ipv6RoundTrip.dfy` | the same for IPv6, and the overlap rule of section 4 of RFC 5722 |
| `IpChecksum.dfy`, `Crc.dfy` | the Internet checksum and the Ethernet CRC: fast forms against simple ones |
| `DhcpClient.dfy`, `DhcpSafety.dfy`, `DhcpHandshake.dfy`, `DhcpLease.dfy`, `DhcpOptions.dfy` | the DHCP client, its safety over runs, which replies it takes, lease timing, and message options |
| `RefTable.dfy`, `Multicast.dfy`, `MulticastRuns.dfy`, `MulticastReports.dfy` | group membership, IGMP host states and reports, and MAC filter reference counts |
| `ArpCache.dfy`, `ArpRuns.dfy`, `ArpDelivery.dfy` | the ARP cache, the life of its buffers, and what becomes of a packet |
| `DnsNames.dfy`, `DnsClient.dfy`, `DnsRuns.dfy`, `DnsLookup.dfy` | DNS names, lookups, retries and callbacks, and the bytes of an answer |
| `DateTime.dfy`, `Ipv6Text.dfy`, `Ipv6Grammar.dfy` | calendar conversion, IPv6 addresses as text and the grammar of that text |

## Hypotheses

These stand as preconditions of the results they concern.

- The last byte of a fragment has a 16-bit index (`Ipv4Reassembly.InBounds`, `Ipv6Reassembly.InBounds`). The code does
  not test this; without it the loop over the holes need not end (`HoleList.WrapOverlaps`, `HoleBytes.NeverEnds`).
- The fragments of one datagram are cut from one payload (`ReassemblyRuns.CutFrom`) where the delivered payload is
  concerned. The state of the hole list is right for all fragments.
- Sizes are those of the stack's headers: 6-byte hole records, datagrams of at most 8192 bytes, four reassembly
  buffers, chunks of 1536 bytes, a hole that ends at 0xFFFF for "no end known".
- Lease timing: every tick comes before the clock has gone half way round since the times that it looks at
  (`DhcpLease.KeptInTime`). There is no condition on the times of the server; the client takes them unread.
- A port given to a new DNS lookup is not in use by another lookup in progress, and a response arrives through a
  callback that is registered (`DnsRuns.Possible`).
- Which interface is the physical one under another does not change.

## Where the code differs from its description

- The encoder accepts labels of 63 bytes, the parser rejects them (`DnsNames.RoundTrip`).
- Comparing a DNS name ignores a dot that decoding puts at its end (`DnsNames.DotIgnored`), and a pointer cut short
  compares equal to everything (`DnsNames.CutPointerMatches`). The client parses the name of a response before it
  compares it (`DnsClient.Asks`), so the second case does not arise there.
- An empty fragment splits a hole, so that a strict IPv6 receiver can drop a datagram without any overlap
  (`Ipv6RoundTrip.EmptyFragmentSplits`; exactly when: `Ipv6RoundTrip.OverlapRule`).
- The end of a fragment is computed in 16 bits and not checked. A fragment that wraps can make the loop over the hole
  records run forever (`HoleBytes.NeverEnds`).
- The parser of IPv6 addresses stores a ninth word on some strings (exactly when: `Ipv6Text.PastEndExactly`). Behind "::"
  and numbers it takes a single colon at the end, as in "::1:"; and seven numbers with "::" before or between them are
  accepted, but not with "::" behind them (`Ipv6Grammar.AcceptsExactly`).
- After an address conflict the DHCP client restarts with the declined address still tentative on the interface
  (`DhcpSafety.ConflictDeclines`; exactly when: `DhcpSafety.LeftBehind`).
- Every time of a lease is cut at 2^31 - 1 ms, which is 24.85 days. A longer lease, of 30 days for example, is given up
  after 24.85 days (exactly when: `DhcpLease.KeptUntilTheEnd`); with a T1 of 24.85 days or more no request to extend it
  is ever sent (`DhcpLease.LongLease`, `DhcpLease.AsksExactly`), and RENEWING comes before T1 (`DhcpLease.WaitsForT1`).
- T1 and T2 are not compared with the lease. If one of them comes later, or T1 is infinite, the address is used past the
  end of the lease (exactly when: `DhcpLease.PastTheLease`).
- The Max Response Time of a query, in tenths of a second, is multiplied by 10 to get milliseconds
  (`MulticastRuns.QueryAnswered`).
- After an overlap a strict IPv6 receiver forgets the datagram, so that fragments sent again deliver it
  (`Ipv6RoundTrip.DeliveredAfterDrop`; what exactly is delivered: `Ipv6RoundTrip.DropForgets`).
- The counter of ARP requests is not reset when an entry is resolved: an entry that took more than one request is
  probed once and not twice before it is given up (`ArpDelivery.Probed`).
- The default T2, seven eighths of the lease, wraps for leases of more than 19 years (`DhcpLease.DefaultTimes`).

## Model

| member | source | states |
|---|---|---|
| HoleList.MissingPunch | mobus_client_server/ipv4_frag.c:308-388 | exactly which bytes are still missing after a fragment: those of a hole it does not touch, those before it, and those after it when more fragments follow |
| HoleList.PunchClears | mobus_client_server/ipv4_frag.c:308-392 | what a fragment carries is no longer missing, and nothing becomes missing, so the copy never hits a live record |
| HoleList.PunchWellFormed | mobus_client_server/ipv4_frag.c:308-388 | a fragment keeps the hole list ascending, disjoint and on 8-byte boundaries, each hole with room for its own record |
| HoleList.WrapOverlaps | mobus_client_server/ipv4_frag.c:209-212 | on a fresh buffer a fragment whose 16-bit end has wrapped leaves overlapping holes exactly when more is to follow and it does not wrap to zero; a wrapped last fragment cuts the one hole at the start of its data |
| HoleBytes.NeverEnds | mobus_client_server/ipv4_frag.c:308-388 | after every wrapped fragment with more to follow on a fresh buffer, unless it wraps to zero, there is a fragment for which the loop makes any number of iterations: a record points to itself. So the end of a fragment has to fit in 16 bits |
| HoleBytes.UnlinkThreaded | mobus_client_server/ipv4_frag.c:324-330 | redirecting the predecessor of a hole, or the head, leaves bytes that thread exactly the other holes |
| HoleBytes.InsertThreaded | mobus_client_server/ipv4_frag.c:332-379 | writing a record into a gap and linking it behind its predecessor leaves bytes that thread the old holes and the new one, in order |
| Reassembly.FragDesc.NextHole | mobus_client_server/ipv4_frag.c:386-388 | the link of the previous record, or the head, leads to the next hole of the list, and to none exactly at its end |
| Reassembly.FragDesc.VisitHole | mobus_client_server/ipv4_frag.c:314-384 | one iteration: a touched hole is replaced by what is left of it, others stay, and on the bytes it is exactly what the loop body reads and writes |
| Reassembly.FragDesc.Unlink | mobus_client_server/ipv4_frag.c:324-330 | takes one hole out of the list that is kept in the buffer; received bytes are untouched |
| Reassembly.FragDesc.Insert | mobus_client_server/ipv4_frag.c:332-379 | puts one hole into the list that is kept in the buffer; received bytes are untouched |
| Reassembly.FragDesc.CutHole | mobus_client_server/ipv4_frag.c:320-379 | replaces a touched hole by what is left of it, and returns the record that becomes the previous one |
| Reassembly.FragDesc.PunchHoles | mobus_client_server/ipv4_frag.c:308-388 | the loop ends; the list threaded through the bytes is the punched list, the received bytes are kept; a strict receiver stops exactly on a fragment that touches a hole without lying inside it |
| Reassembly.DescriptorInChunk | mobus_client_server/net_mem.c:411-430 | no record of a list lies across two chunks of the buffer, so one pointer is enough to read it |
| Reassembly.FragDesc.CopyData | mobus_client_server/ipv4_frag.c:390-392 | the copy adds exactly the bytes of the fragment and destroys no record |
| Reassembly.FragDesc.Open | mobus_client_server/ipv4_frag.c:550-603 | a new buffer: everything missing, one record at offset 0 |
| Reassembly.FragDesc.Receive | mobus_client_server/ipv4_frag.c:229-392 | header, size checks, memory, hole list and data of one fragment: the new buffer is the specified function of the old one, including every case in which the datagram is dropped |
| Reassembly.FragDesc.IsComplete | mobus_client_server/ipv4_frag.c:397-398 | there is no first hole exactly when nothing is missing |
| Reassembly.FragDesc.Payload | mobus_client_server/ipv4_frag.c:400-402 | the delivered payload has the known length and holds every received byte at its offset |
| Reassembly.FragDesc.Expire | mobus_client_server/ipv4_frag.c:479-501 | a buffer whose time is over is dropped; it reports the bytes before the first hole, exactly when fragment zero has arrived |
| ReassemblyRuns.RunHolds | mobus_client_server/ipv4_frag.c:192-433 | after any sequence of fragments cut from one payload, with duplicates and overlaps in any order, the missing bytes are exactly those not covered, and the received ones agree with the payload |
| ReassemblyRuns.HoldsComplete | mobus_client_server/ipv4_frag.c:396-433 | the hole list is empty exactly when the fragments cover the payload; what is then held is the payload, byte for byte |
| ReassemblyRuns.PrefixArrived | mobus_client_server/ipv4_frag.c:479-498 | the bytes reported at a timeout are a prefix of the payload |
| Fragmentation.DivisionGood | mobus_client_server/ipv4_frag.c:87-143 | the pieces lie in the payload, are no longer than the limit, and start, and but for the last one end, on 8-byte boundaries |
| Fragmentation.DivisionPieces | mobus_client_server/ipv4_frag.c:93-143 | the pieces are exactly the ranges that start at a multiple of the limit, cut off at the end of the payload |
| Fragmentation.RoundTrip | mobus_client_server/ipv4_frag.c:308-433 | whatever pieces of a payload arrive, in any order and number, the datagram is complete exactly when every piece has arrived, and the buffer then holds the payload; with or without overlap support |
| Fragmentation.AnyOrder | mobus_client_server/ipv4_frag.c:308-433 | for every permutation of the pieces the last one to arrive completes the datagram and no earlier one does |
| Fragmentation.Completes | mobus_client_server/ipv4_frag.c:192-433 | a free buffer that takes the pieces in any order delivers once, all of the payload, under the header of the first piece |
| Ipv4Frag.HeaderVerifies | mobus_client_server/ipv4.c:859-878 | every header that is built passes the checksum test of the receiver |
| Ipv4Frag.FragmentDatagram | mobus_client_server/ipv4_frag.c:69-166 | the loop ends; what is sent are the packets of the division of the payload, up to the first one that the lower layer refuses; each fits the MTU and carries version, type of service, length, identification, Time-To-Live, protocol and both addresses at their places |
| Ipv4Frag.SendPacket | mobus_client_server/ipv4.c:842-878 | the packet of a piece: every field of the header at its place in the bytes, a checksum that verifies, and then the stretch of the payload |
| Ipv4Reassembly.FragQueue.Search | mobus_client_server/ipv4_frag.c:514-560 | finds the first buffer with the identification, protocol and addresses of the packet, and the first free one |
| Ipv4Reassembly.FragQueue.ReassembleDatagram | mobus_client_server/ipv4_frag.c:176-434 | one packet changes the queue and delivers exactly as specified; the delivered bytes are the fixed header and the payload held |
| Ipv4RoundTrip.ParsePiece | mobus_client_server/ipv4_frag.c:192-212 | the receiver reads back exactly the piece, the key and the header that the sender wrote, whose checksum verifies by `Ipv4Frag.HeaderVerifies` |
| ReassemblyQueue.ServeView | mobus_client_server/ipv4_frag.c:514-608 | for every queue, full or not, and with or without memory, a packet changes the buffer of its own datagram only, in a way that depends on that buffer only; without a buffer for it nothing changes; no two buffers get the same key |
| ReassemblyQueue.Isolation | mobus_client_server/ipv4_frag.c:176-608 | with at most as many datagrams under way as buffers, each one is reassembled as if its packets were the only ones; for IPv4 and IPv6, strict or not |
| ReassemblyQueue.Undisturbed | mobus_client_server/ipv4_frag.c:176-608 | however many datagrams arrive, one that has a buffer, or gets one with its first packet, is reassembled as if its packets were the only ones, until it is delivered or dropped |
| Reassembly.DroppedExactly | mobus_client_server/ipv4_frag.c:229-306 | when a fragment makes the receiver drop the datagram, in numbers; otherwise its bytes are kept at their places and no others change |
| Ipv4Reassembly.SameDatagram | mobus_client_server/ipv4_frag.c:523-532 | packets belong to the same datagram exactly when they agree in identification, protocol and both addresses |
| Ipv4RoundTrip.RoundTrip4 | mobus_client_server/ipv4_frag.c:93-433 | the packets of a payload, in any order, deliver once; the result is the unfragmented packet with its checksum field zero, with the fields of the sender at their places |
| Ipv4RoundTrip.MixedRoundTrip | mobus_client_server/ipv4_frag.c:93-608 | the same when the packets are mixed in any way with those of up to three other datagrams |
| Ipv4RoundTrip.CrowdedRoundTrip | mobus_client_server/ipv4_frag.c:93-608 | the same when its first packet finds a free buffer, mixed with the packets of any number of other datagrams, also when the queue gets full |
| Ipv6Frag.FragmentDatagram | mobus_client_server/ipv6_frag.c:59-160 | the loop ends; the packets of the division are sent until one is refused; each fits the path MTU, of which at least 1280 bytes are used, and carries its piece of the payload behind the fields of both headers |
| Ipv6Reassembly.SameDatagram | mobus_client_server/ipv6_frag.c:601-612 | packets belong to the same datagram exactly when they agree in both addresses and the identification of the Fragment header |
| Ipv6Reassembly.FragQueue.Search | mobus_client_server/ipv6_frag.c:592-631 | finds the first buffer with the addresses of the packet and the identification of its Fragment header, and the first free one |
| Ipv6Reassembly.FragQueue.ParseFragmentHeader | mobus_client_server/ipv6_frag.c:172-512 | one packet changes the queue and delivers exactly as specified; a complete datagram is delivered with its payload length set |
| Ipv6RoundTrip.ParsePiece | mobus_client_server/ipv6_frag.c:195-323 | the receiver reads back exactly the piece that was sent, with the Next Header field patched back |
| Ipv6RoundTrip.RoundTrip6 | mobus_client_server/ipv6_frag.c:87-506 | the fragments of a payload, in any order, deliver once; the result is byte for byte the packet that is sent without fragmentation; with or without overlap support |
| Ipv6RoundTrip.MixedRoundTrip | mobus_client_server/ipv6_frag.c:87-687 | the same when the packets are mixed in any way with those of up to three other datagrams |
| Ipv6RoundTrip.CrowdedRoundTrip | mobus_client_server/ipv6_frag.c:87-687 | the same when its first packet finds a free buffer, mixed with the packets of any number of other datagrams, also when the queue gets full |
| Ipv6RoundTrip.OverlapExactly | mobus_client_server/ipv6_frag.c:384-405 | a fragment sticks out of a hole exactly when it brings both a missing byte and one that is not missing, or goes past a place where two holes meet |
| Ipv6RoundTrip.RunMeets | mobus_client_server/ipv6_frag.c:373-470 | over any run of fragments two holes meet exactly where an empty fragment has come between two bytes that are still missing |
| Ipv6RoundTrip.OverlapRule | mobus_client_server/ipv6_frag.c:373-405 | the drop of section 4 of RFC 5722, exactly: after any fragments a strict receiver drops what it has of the datagram on a fragment that has room if and only if it is partly new, or an empty fragment has split a hole inside it |
| ReassemblyQueue.RunGoesOn | mobus_client_server/ipv6_frag.c:384-405 | a run of a buffer goes on from the state in which it was, and delivers what both parts deliver |
| Ipv6RoundTrip.DropForgets | mobus_client_server/ipv6_frag.c:384-405 | nothing is remembered of a dropped datagram: what the packets after the drop deliver is what they deliver by themselves |
| Ipv6RoundTrip.DeliveredAfterDrop | mobus_client_server/ipv6_frag.c:384-506 | two overlapping fragments and then all fragments of the datagram once more deliver it, where section 4 of RFC 5722 has them discarded |
| Ipv6RoundTrip.EmptyFragmentSplits | mobus_client_server/ipv6_frag.c:378-470 | two packets that overlap nothing, an empty one and the first 16 bytes, make a strict receiver drop the datagram; the other one keeps the bytes |
| IpChecksum.CalcChecksum | mobus_client_server/ip.c:351-459 | for every byte string and address the 32-bit code with end-around carry returns the complement of the plain 16-bit sum |
| IpChecksum.CalcChecksumEx | mobus_client_server/ip.c:471-532 | the same for every split into chunks, odd lengths and any offset and length included |
| IpChecksum.CalcUpperLayerChecksum | mobus_client_server/ip.c:544-558 | the checksum of the pseudo header, filled up to an even length, followed by the data |
| IpChecksum.CalcUpperLayerChecksumEx | mobus_client_server/ip.c:571-585 | the same with the data in chunks |
| IpChecksum.AddCarryValue | mobus_client_server/ip.c:397-415 | no carry is lost: the 32-bit addition subtracts exactly 2^32 - 1 when it overflows |
| IpChecksum.SumShift | mobus_client_server/ip.c:451-456 | exchanging the bytes of a sum is shifting the data by one byte |
| IpChecksum.VerifiesExactly | mobus_client_server/ipv4.c:577-577 | a zeroed field that receives a value makes the checksum 0 exactly when the value is the checksum, or its other zero |
| IpChecksum.ZeroSum | mobus_client_server/ip.c:458-459 | the sum is 0 for all-zero data only |
| Crc.TableEntry | mobus_client_server/ethernet.c:75-141 | each of the 256 table entries is eight steps of the bit-by-bit division |
| Crc.FastIsSlow | mobus_client_server/ethernet.c:987-1018 | one table lookup equals eight bit steps, for every register value and byte |
| Crc.CalcCrc | mobus_client_server/ethernet.c:976-998 | the table-driven loop computes the CRC |
| Crc.CalcCrcBitByBit | mobus_client_server/ethernet.c:997-1024 | the bit-by-bit loop computes the same CRC |
| Crc.CalcCrcEx | mobus_client_server/ethernet.c:1036-1098 | the loop over chunks computes the CRC of the stretch of the buffer, for every split, offset and length |
| Crc.Residue | mobus_client_server/ethernet.c:202-206 | four bytes appended to a frame make the receiver compute 0x2144DF1C exactly when they are its CRC in little-endian order |
| Crc.RegisterInjective | mobus_client_server/ethernet.c:976-1025 | different register values stay different over the same data |
| Crc.BurstDetected | mobus_client_server/ethernet.c:202-206 | a change confined to four consecutive bytes always changes the CRC |
| RefTable.Scan | mobus_client_server/ethernet.c:743-770 | the loop stops at the live entry of the address, or knows the first free entry |
| RefTable.AcceptRefs | mobus_client_server/ethernet.c:735-793 | accepting an address adds one reference to it and keeps entries unique; it fails exactly when the address is not there and every entry is live |
| RefTable.DropRefs | mobus_client_server/ethernet.c:805-849 | dropping an address that is there removes exactly one reference |
| RefTable.AcceptDrop | mobus_client_server/ipv4.c:1466-1471 | dropping an address just accepted gives the table back, entry for entry |
| Multicast.MacsOfGroups | mobus_client_server/ipv4.c:1576-1600 | two IPv4 groups share a MAC address exactly when their 23 low-order bits agree; no IPv4 group shares one with an IPv6 group |
| Multicast.MacNumbers | mobus_client_server/ipv4.c:1576-1600 | the MAC address of a group as a number: 01-00-5E-00-00-00 and the low 23 bits of an IPv4 address, 33-33-00-00-00-00 and the low 32 bits of an IPv6 address |
| Multicast.NetStack.AcceptMacAddr | mobus_client_server/ethernet.c:735-793 | the MAC filter with one more reference, or unchanged on failure |
| Multicast.NetStack.DropMacAddr | mobus_client_server/ethernet.c:805-849 | the MAC filter with one reference fewer |
| Multicast.NetStack.AcceptOnBoth | mobus_client_server/ipv4.c:1450-1474 | both filters are updated, or neither: a failure on the physical interface is undone on the virtual one |
| Multicast.NetStack.JoinGroup4 | mobus_client_server/ipv4.c:1395-1492 | joining an IPv4 group, with the IGMP state it starts in and the report it sends |
| Multicast.NetStack.LeaveGroup4 | mobus_client_server/ipv4.c:1502-1567 | leaving an IPv4 group, with the leave message when the flag is set and no version 1 router is present |
| Multicast.NetStack.JoinGroup6 | mobus_client_server/ipv6.c:1904-2002 | joining an IPv6 group |
| Multicast.NetStack.LeaveGroup6 | mobus_client_server/ipv6.c:2012-2076 | leaving an IPv6 group |
| Multicast.NetStack.AcceptsMulticast | mobus_client_server/ethernet.c:698-722 | a multicast frame passes exactly when its address has a live entry |
| Multicast.NetStack.IgmpLoop | mobus_client_server/igmp.c:158-198 | the loops over the memberships: each live entry reacts, the others stay, the reports go out in table order |
| Multicast.NetStack.Listen | mobus_client_server/igmp.c:167-169 | what a timer, a link change or a query says about the version 1 router on the link |
| MulticastRuns.RouterPresent | mobus_client_server/igmp.c:167-366 | over any run a version 1 router is taken to be present exactly when a version 1 query was heard, and since the last one the link has not come up and no timer has found 400 seconds to be over |
| MulticastRuns.SentFormat | mobus_client_server/igmp.c:499-564 | while a version 1 router is present every report is a version 1 report and no leave message is sent |
| MulticastRuns.ReactedGood | mobus_client_server/igmp.c:347-425 | every IGMP event keeps the live entries out of Non-Member and 224.0.0.1 Idle and unreported |
| MulticastRuns.QueryAnswered | mobus_client_server/igmp.c:347-425 | a query that concerns a membership leaves it with a report to come within the time that the code derives from the query, whatever its timer was; for a version 2 query this is a tenth of what the query allows |
| MulticastReports.ReportsExactly | mobus_client_server/igmp.c:158-231 | exactly which reports an event sends: one for each delaying membership whose timer is over, and for each membership when the link comes up, in the version of the router on the link, and nothing else |
| MulticastReports.StateDiagram | mobus_client_server/igmp.c:158-459 | what each event does to the state, the flag and the timer of a membership, as in section 6 of RFC 2236 |
| MulticastReports.QueryTimer | mobus_client_server/igmp.c:347-425 | a query sets the timer to the random delay, unless a report is due before the time to answer is over |
| MulticastReports.JoinReports | mobus_client_server/igmp.c:81-121 | the first join of a group is reported at once when the link is up, and a second report is due ten seconds later; a further join sends nothing |
| MulticastReports.LeaveReports | mobus_client_server/igmp.c:131-149 | the last leave is announced exactly when the link is up, the host was the last one to report the group and no version 1 router is present |
| MulticastReports.ReportedInTime | mobus_client_server/igmp.c:158-198 | over any run a membership that waits has reported once a timer has found its time to be over, unless the group was left, the link lost or another host reported |
| MulticastReports.QueryReported | mobus_client_server/igmp.c:158-425 | over any run a query is answered for every membership it concerns by the first timer that finds the time to answer to be over, under the same conditions |
| MulticastReports.JoinReported | mobus_client_server/igmp.c:81-198 | a join is reported at once, and again by the first timer ten seconds later, under the same conditions |
| MulticastReports.LinkUpReported | mobus_client_server/igmp.c:205-266 | the same for every group that is joined when a link comes up |
| MulticastRuns.Join4Keeps | mobus_client_server/ipv4.c:1395-1492 | joining keeps the reference counts right on every interface |
| MulticastRuns.Leave4Keeps | mobus_client_server/ipv4.c:1502-1567 | leaving keeps the reference counts right on every interface |
| MulticastRuns.Join6Keeps | mobus_client_server/ipv6.c:1904-2002 | the same for joining an IPv6 group |
| MulticastRuns.Leave6Keeps | mobus_client_server/ipv6.c:2012-2076 | the same for leaving an IPv6 group |
| MulticastRuns.Membership | mobus_client_server/ethernet.c:735-849 | over any run each MAC filter counts an address exactly as often as live groups map to it on the interface and on the virtual ones over it; an IPv4 entry is live exactly when its state is not Non-Member; 224.0.0.1 is Idle and never reported |
| MulticastRuns.FilterExactly | mobus_client_server/ethernet.c:675-725 | a multicast frame passes the filter exactly when some joined group that counts on the interface maps to its address |
| MulticastRuns.FailedJoin | mobus_client_server/ipv4.c:1440-1492 | exactly when joining an IPv4 group fails, and that nothing has then changed |
| MulticastRuns.FailedJoin6 | mobus_client_server/ipv6.c:1950-2002 | exactly when joining an IPv6 group fails, and that nothing has then changed |
| MulticastRuns.JoinLeave6 | mobus_client_server/ipv6.c:1904-2076 | leaving a group just joined restores every table |
| SystemTime.Compares | mobus_client_server/dhcp_client.c:464-464 | the signed 32-bit difference orders two readings like the times they were taken at, when these are less than 2^31 ms apart |
| SystemTime.Oldest | mobus_client_server/arp.c:104-128 | the loop keeps the first of the entries with the greatest age on the clock that wraps |
| DhcpClient.Context.DoStart | mobus_client_server/dhcp_client.c:177-212 | start: address cleared, INIT; the new state is the specified function of the old one, and state and address stay in line |
| DhcpClient.Context.DoStop | mobus_client_server/dhcp_client.c:220-242 | stop: INIT, the address left as it is; the new state is the specified function of the old one, and state and address stay in line |
| DhcpClient.Context.LinkChangeEvent | mobus_client_server/dhcp_client.c:354-401 | link change: the address is given up by a running client; INIT-REBOOT when it has had a lease; the new state is the specified function of the old one, and state and address stay in line |
| DhcpClient.Context.StateSelecting | mobus_client_server/dhcp_client.c:456-509 | DISCOVER retransmission with doubled, limited, randomized timeouts; the new state is the specified function of the old one, and state and address stay in line |
| DhcpClient.Context.StateRequesting | mobus_client_server/dhcp_client.c:518-588 | REQUEST retransmission in REQUESTING and REBOOTING, at most four times; the new state is the specified function of the old one, and state and address stay in line |
| DhcpClient.Context.StateProbing | mobus_client_server/dhcp_client.c:715-771 | ARP probe, conflict and end of probing; in BOUND the probe for the acknowledged address was the last message sent; the new state is the specified function of the old one, and state and address stay in line |
| DhcpClient.Context.StateBound | mobus_client_server/dhcp_client.c:782-812 | T1; the new state is the specified function of the old one, and state and address stay in line |
| DhcpClient.Context.StateRenewing | mobus_client_server/dhcp_client.c:823-879 | requests until T2; the new state is the specified function of the old one, and state and address stay in line |
| DhcpClient.Context.StateRebinding | mobus_client_server/dhcp_client.c:888-956 | requests until the lease ends, then the address is given up; the new state is the specified function of the old one, and state and address stay in line |
| DhcpClient.Context.ParseOffer | mobus_client_server/dhcp_client.c:1392-1434 | which offers are taken, and that the offered address and its server are recorded; the new state is the specified function of the old one, and state and address stay in line |
| DhcpClient.Context.ParseAck | mobus_client_server/dhcp_client.c:1445-1663 | which acknowledgements are taken in which state, the lease times, gateway, DNS servers and MTU, and the address as tentative or valid; the new state is the specified function of the old one, and state and address stay in line |
| DhcpClient.Context.ParseNak | mobus_client_server/dhcp_client.c:1673-1733 | which refusals are taken, and that they give the address up; the new state is the specified function of the old one, and state and address stay in line |
| DhcpClient.Context.DoTick | mobus_client_server/dhcp_client.c:279-345 | the handler of the current state runs; state and address stay in line |
| DhcpClient.Context.RecordServers | mobus_client_server/dhcp_client.c:1597-1607 | the loop replaces as many servers as were given and keeps the others |
| DhcpSafety.Safety | mobus_client_server/dhcp_client.c:177-956 | under any interleaving of ticks, replies, link changes, conflicts, starts and stops: a stopped client is in INIT; while it runs the address is valid exactly in BOUND, RENEWING and REBINDING, tentative in PROBING, and in these four the nonzero one acknowledged last |
| DhcpSafety.EntersUse | mobus_client_server/dhcp_client.c:715-771 | an address comes into use after its own ARP probe without conflict, on an acknowledgement while one is in use, or by rapid commit, and in no other way |
| DhcpSafety.ConflictDeclines | mobus_client_server/dhcp_client.c:728-740 | a conflict during probing sends a DECLINE and restarts; the address stays on the interface as tentative |
| DhcpSafety.CleanExactly | mobus_client_server/dhcp_client.c:177-956 | for every event: a running client without a lease is left with an address exactly by that, or when it had one and the event is not one of those that clear it |
| DhcpSafety.LeftBehind | mobus_client_server/dhcp_client.c:177-956 | over any run: a running client without a lease has an address on the interface if and only if it has declined one and neither a start, a stop, a link change nor an accepted acknowledgement or refusal came later |
| DhcpSafety.UnansweredRequests | mobus_client_server/dhcp_client.c:518-588 | without an answer exactly four requests are sent, 4, 8, 16 and 32 seconds apart but for a second either way, then the client restarts |
| DhcpHandshake.OfferRecorded | mobus_client_server/dhcp_client.c:1392-1434 | an offer is taken exactly in SELECTING, with the identifier and the hardware address of the client, an address and a server; these two are recorded |
| DhcpHandshake.AckExactly | mobus_client_server/dhcp_client.c:1445-1663 | for every state and acknowledgement: exactly when it is taken, which times, server, address and configuration are then recorded, whether the address is probed first; any other one changes nothing |
| DhcpHandshake.NakExactly | mobus_client_server/dhcp_client.c:1673-1733 | for every state and refusal: exactly when it is taken; it clears the address and restarts; any other one changes nothing |
| DhcpHandshake.Handshake | mobus_client_server/dhcp_client.c:1392-1733 | from an offer of an address on, over every run in REQUESTING: the offer is remembered, at each of four timeouts the request for that address that names its server is sent, with one identifier, and exactly the replies of that server with this identifier and the hardware address of the client are taken |
| DhcpHandshake.GetsAnAddress | mobus_client_server/dhcp_client.c:177-771 | from the start to BOUND: with an offer, its acknowledgement and no conflict the acknowledged address is in use; sent were one discover, one request for the offer, and one ARP probe |
| DhcpHandshake.UnansweredDiscovers | mobus_client_server/dhcp_client.c:456-509 | in SELECTING one discover is sent at each timeout, all with one identifier, 4, 8 and then always 16 seconds apart but for a second either way |
| DhcpHandshake.AsksAgainForItsAddress | mobus_client_server/dhcp_client.c:354-705 | a client that had a lease when the link was lost gives its address up, asks any server for the same one when the link is back, and probes what is acknowledged |
| DhcpHandshake.Suspended | mobus_client_server/dhcp_client.c:220-956 | a client that is not running sends nothing and takes no address, over any events, until it is started |
| DhcpLease.RenewalRequest | mobus_client_server/dhcp_client.c:1076-1212 | a request to extend a lease carries the address in use; it goes to the server of the lease in RENEWING and to everybody in REBINDING, with one identifier in each |
| DhcpLease.ExtendingTick | mobus_client_server/dhcp_client.c:823-956 | in real time: before its deadline a tick does nothing; then it sends a request and waits half of what is left of the phase, or all of it below two minutes; past the end of the phase it moves on |
| DhcpLease.DeadlinesInPhase | mobus_client_server/dhcp_client.c:823-956 | over any ticks and for every lease there is a deadline from which on, and not before, the timeout has expired; it is not before T1, and not past T2 in RENEWING nor past the end of the lease in REBINDING, each time cut at 2^31 - 1 ms as the code does |
| DhcpLease.RequestsBounded | mobus_client_server/dhcp_client.c:823-956 | however long the server is silent, and whatever its times were, at most 32 requests are sent to extend a lease |
| DhcpLease.KeptExactly | mobus_client_server/dhcp_client.c:782-956 | an address in use is kept over every run of ticks before a moment if and only if this is no later than the last of T1, T2 and the end of the lease, as the code cuts them, or T1 is infinite |
| DhcpLease.KeptUntilTheEnd | mobus_client_server/dhcp_client.c:782-956 | an address in use is kept over every run of ticks before the end of the lease if and only if the lease is no longer than 24.85 days, or T1 is infinite |
| DhcpLease.LeaseEnds | mobus_client_server/dhcp_client.c:782-956 | three ticks from a moment on, without an acknowledgement, always take the address out of use if and only if none of T1, T2 and the end of the lease, as the code cuts them, comes later, and T1 is not infinite |
| DhcpLease.DefaultTimes | mobus_client_server/dhcp_client.c:1522-1565 | the times that the client computes itself are in order exactly when seven times the lease fits in 32 bits or the lease is infinite; they never come after the end of a finite lease |
| DhcpLease.PastTheLease | mobus_client_server/dhcp_client.c:1529-1555 | the address is given up at the end of the lease, cut at 24.85 days, if and only if neither T1 nor T2, cut likewise, comes after it, and T1 is not infinite; their order does not matter |
| DhcpLease.AsksExactly | mobus_client_server/dhcp_client.c:782-956 | some run sends a request to extend the lease if and only if T1 is not infinite and T2 or the end of the lease, as they are cut, come after it |
| DhcpLease.LongLease | mobus_client_server/dhcp_client.c:791-801 | with a finite T1 of 24.85 days or more no run sends a request to extend the lease, and three ticks at 2^31 - 1 ms give the address up, while the lease goes on |
| DhcpLease.WaitsForT1 | mobus_client_server/dhcp_client.c:782-812 | over every run of ticks before T1 the client stays in BOUND, if and only if T1 is no later than 24.85 days, or infinite |
| DhcpOptions.AddOption | mobus_client_server/dhcp_common.c:49-94 | the field holds the options it held and the new one; a value of more than 255 bytes changes nothing |
| DhcpOptions.GetOption | mobus_client_server/dhcp_common.c:106-144 | the loop finds what the recursive search finds |
| DhcpOptions.Appended | mobus_client_server/dhcp_common.c:49-144 | an option with a new code is found with exactly its value; every other lookup is as before |
| DhcpOptions.AllReadBack | mobus_client_server/dhcp_common.c:49-144 | any list of options with distinct codes is readable back |
| ArpCache.Interface.FindEntry | mobus_client_server/arp.c:149-171 | the first live entry of the address |
| ArpCache.Interface.FlushQueuedPackets | mobus_client_server/arp.c:220-238 | every waiting packet is freed |
| ArpCache.Interface.SendQueuedPackets | mobus_client_server/arp.c:180-211 | every waiting packet is sent in order to the address now known, and freed |
| ArpCache.Interface.CreateEntry | mobus_client_server/arp.c:97-138 | an unused entry or the oldest one, whose packets are freed |
| ArpCache.Interface.DoResolve | mobus_client_server/arp.c:248-327 | answer from the cache, or a new incomplete entry and a broadcast request |
| ArpCache.Interface.EnqueuePacket | mobus_client_server/arp.c:339-412 | the packet is stored behind the others; the oldest one makes room and is freed, even when there is then no memory for the new one |
| ArpCache.Interface.DoTick | mobus_client_server/arp.c:423-524 | each entry is retried, aged, probed or given up |
| ArpCache.Interface.ProcessReply | mobus_client_server/arp.c:675-746 | which replies are taken, and what they do in each state |
| ArpCache.Interface.FlushCache | mobus_client_server/arp.c:72-88 | every entry is released |
| ArpRuns.Conservation | mobus_client_server/arp.c:72-524 | over any run: at most one live entry for an address; only incomplete entries hold packets, the newest at most two in order of arrival; every buffer allocated is in one queue or has been freed once; none is sent twice |
| ArpRuns.UnicastOnly | mobus_client_server/arp.c:682-738 | over any run and whatever replies arrive, packets are only sent to the hardware address of one host |
| ArpRuns.Unanswered | mobus_client_server/arp.c:438-465 | an unanswered entry asks again at each timeout and is given up at the third, its packets freed unsent |
| ArpDelivery.AcceptableExactly | mobus_client_server/arp.c:682-704 | exactly which replies are taken; all others change nothing |
| ArpDelivery.ReplyDelivers | mobus_client_server/arp.c:706-725 | for every reachable cache, an acceptable reply to an incomplete entry sends every packet that waits there, in order, to the hardware address of the reply; the entry is reachable there, and no other entry changes |
| ArpDelivery.ReplyUpdates | mobus_client_server/arp.c:727-746 | any other acceptable reply sends nothing: it confirms an entry that is probed, and makes a reachable one stale when the hardware address differs |
| ArpDelivery.ResolvesKnown | mobus_client_server/arp.c:259-289 | a known address is given at once; a stale one is used and will be probed |
| ArpDelivery.ResolvesUnknown | mobus_client_server/arp.c:291-321 | for an unknown address everybody is asked, and the first unused entry, or else the oldest one, waits for the answer |
| ArpDelivery.Waits | mobus_client_server/arp.c:339-412 | a packet for an address that is being resolved waits behind the others; the first of two makes room |
| ArpDelivery.WaitsSentOrLost | mobus_client_server/arp.c:72-746 | over any run every buffer is in exactly one of three places: in one queue, sent once, or among those lost by eviction, displacement, a third timeout or a flush |
| ArpDelivery.Fates | mobus_client_server/arp.c:72-746 | over any run a packet that waits for an address waits on, is lost in one of these four ways, or has been sent to the hardware address of an acceptable reply from there |
| ArpDelivery.SentToTheReply | mobus_client_server/arp.c:248-746 | a packet for an unknown address is sent to the first acceptable reply from there, whatever happens before, unless it is lost before |
| ArpDelivery.Probed | mobus_client_server/arp.c:478-524 | an entry used while stale is probed after its delay; its host is asked twice, or once when the entry itself took more than one request or was probed before, and then it is given up |
| ArpDelivery.FlushesAll | mobus_client_server/arp.c:72-88 | after a flush no entry is in use |
| DnsNames.EncodeName | mobus_client_server/dns_common.c:54-115 | the encoded labels and their length, or 0 exactly when a label is empty or longer than 63 bytes |
| DnsNames.ParseName | mobus_client_server/dns_common.c:128-223 | ends on every message, whatever its pointers; returns the position after the name and its text, or 0 |
| DnsNames.CompareName | mobus_client_server/dns_common.c:238-320 | ends on every message; the result of the comparison |
| DnsNames.RoundTrip | mobus_client_server/dns_common.c:54-223 | an encoded name anywhere in a message decodes to itself with the position just past it, exactly when no label has 63 bytes |
| DnsNames.CompareExactly | mobus_client_server/dns_common.c:238-320 | for every message, place and string without NULs, comparing gives 0 exactly when the labels, through any pointers, are the string but for case and a dot at its end; where the name ends in a pointer cut short, when the string starts with the labels |
| DnsNames.CompareDefined | mobus_client_server/dns_common.c:297-314 | the comparison stays inside the string as long as the labels have no NULs |
| DnsNames.DotIgnored | mobus_client_server/dns_common.c:156-201 | wherever it is in a message, a name that is decoded with a dot at its end and compares equal to the name without it |
| DnsNames.CutPointerMatches | mobus_client_server/dns_common.c:270-275 | a pointer cut short at the end of the message compares equal to every candidate; the parser rejects it |
| DnsClient.DnsCache.FindEntry | mobus_client_server/dns_cache.c:181-211 | the first entry that matches interface, type and name but for case |
| DnsClient.DnsCache.DeleteEntry | mobus_client_server/dns_cache.c:148-168 | the entry is released, and the callback of a lookup in progress with it |
| DnsClient.DnsCache.CreateEntry | mobus_client_server/dns_cache.c:99-140 | an unused entry, or the oldest one after deleting it |
| DnsClient.DnsCache.SendQuery | mobus_client_server/dns_client.c:213-274 | fails exactly when there is no such server or it cannot be sent to |
| DnsClient.DnsCache.StartResolve | mobus_client_server/dns_client.c:52-143 | answer from the cache, or a new lookup with a callback and a first query; failures leave no callback |
| DnsClient.DnsCache.DoTick | mobus_client_server/dns_cache.c:223-342 | each lookup is retried, moved to the next server or deleted; answers expire |
| DnsClient.DnsCache.ProcessResponse | mobus_client_server/dns_client.c:357-546 | which lookup a response belongs to, whether it is answered or refused, and for how long the answer is kept |
| DnsClient.DnsCache.FlushCache | mobus_client_server/dns_cache.c:72-91 | the entries of one interface are deleted |
| DnsClient.Lifetime | mobus_client_server/dns_client.c:488-495 | an answer is kept for a second at least and an hour at most, whatever its 32-bit time to live |
| DnsRuns.NoLeaks | mobus_client_server/dns_cache.c:99-342 | over any run the registered callbacks are exactly those of the lookups in progress |
| DnsRuns.TickSpends | mobus_client_server/dns_cache.c:240-330 | an expired timeout sends one query, with one fewer left on this server or the first one to the next, or deletes the lookup and its callback |
| DnsRuns.Unanswered | mobus_client_server/dns_cache.c:240-330 | a lookup without an answer sends at most three queries to each of the two servers, and is gone when as many timeouts have expired |
| DnsRuns.AnswerMatches | mobus_client_server/dns_client.c:402-449 | a response ends a lookup only if identifier and port agree with it, its one question has the type and class of the lookup, and the labels of the question are its name but for case and a dot at the end |
| DnsLookup.FindsFirst | mobus_client_server/dns_client.c:455-541 | among any records, with names of their own or pointers, the client finds the first address of the kind it looks for: its data and its time to live |
| DnsLookup.AnswerTaken | mobus_client_server/dns_client.c:357-546 | a response to the question of a lookup, with any records: the data of the first address that fits becomes the address of the entry, for as many seconds as its time to live, up to an hour; an error code ends the lookup; without such an address it goes on |
| DnsLookup.AnswerGiven | mobus_client_server/dns_client.c:52-546 | who waits for the lookup gets these bytes, from the next look at the cache until the entry expires |
| DnsLookup.LookupStarts | mobus_client_server/dns_client.c:75-128 | a name that is not in the cache is asked for, of the first server, and takes the first unused entry or else the oldest |
| DnsLookup.LookupFails | mobus_client_server/dns_client.c:93-128 | exactly the state after a lookup that cannot be sent: no callback and no lookup in progress |
| DnsLookup.KnownNames | mobus_client_server/dns_cache.c:181-211 | a name in the cache, but for case and on the same interface, is not asked for again, and an address that is given is that of such an entry |
| DnsLookup.RetriesExactly | mobus_client_server/dns_cache.c:240-330 | when nobody answers: which server is asked at each of the first five timeouts, the waits of 1, 2 and 4 seconds for each server, and the end at the sixth |
| DnsLookup.FlushesInterface | mobus_client_server/dns_cache.c:72-91 | a flush takes exactly the entries of one interface out of the cache |
| DateTime.ConvertUnixTimeToDate | mobus_client_server/date_time.c:196-247 | for every timestamp below 2^32 a valid Gregorian date, with the leap year rule, whose timestamp is the one given, and its weekday |
| DateTime.ConvertDateToUnixTime | mobus_client_server/date_time.c:256-290 | the timestamp of any valid date from 1970 on that is below 2^32, counted by the rules of the calendar |
| DateTime.ComputeDayOfWeek | mobus_client_server/date_time.c:349-372 | Zeller's congruence gives the days since the epoch plus 3, modulo 7, plus 1 |
| DateTime.TimestampInjective | mobus_client_server/date_time.c:196-290 | two valid dates with the same timestamp are the same, so the conversions invert each other |
| Ipv6Text.FindRun | mobus_client_server/ipv6.c:2309-2322 | the leftmost of the longest runs of at least two zero words, or none |
| Ipv6Text.AddrToString | mobus_client_server/ipv6.c:2294-2354 | lowercase words without leading zeros, with "::" for that run |
| Ipv6Text.StringToAddr | mobus_client_server/ipv6.c:2154-2281 | the loop reads what the recursive reader reads, and spreads the words around "::", up to a word stored past the eighth |
| Ipv6Text.PastEndExactly | mobus_client_server/ipv6.c:2189-2212 | a word is stored past the eighth exactly for the strings that start with nine 16-bit numbers, single colons between them, and "::" behind the ninth |
| Ipv6Text.NinthWord | mobus_client_server/ipv6.c:2189-2212 | nine words as the printer writes them and "::" are such a string |
| Ipv6Text.Expand | mobus_client_server/ipv6.c:2255-2260 | the two in-place loops move the words after "::" to the end and put zeros between |
| Ipv6Text.RoundTrip | mobus_client_server/ipv6.c:2154-2354 | parsing the printed form of any address gives it back |
| Ipv6Grammar.AcceptsExactly | mobus_client_server/ipv6.c:2154-2281 | exactly which strings are accepted, and as which address: eight numbers with colons between them, or at most seven with "::" for the missing zeros; the code also takes a single colon at the end of the latter |
| Ipv6Grammar.NumberExactly | mobus_client_server/ipv6.c:2168-2187 | what a number means: in lowercase it is its value as it is printed, with any number of noughts in front |

## Left out

- Ipv4Reassembly.FragQueue.ReassembleDatagram: does not model fragments whose 16-bit end wraps, for which the loop over the holes need not end (`HoleBytes.NeverEnds`).
- Ipv6Reassembly.FragQueue.ParseFragmentHeader: the same; and it does not model the ICMPv6 error messages.
- Ipv4Frag.FragmentDatagram: does not model the choice of the source address, ARP resolution and the IPv6 or PPP paths below it; how many packets the lower layer accepts is a parameter.
- Reassembly.FragDesc.Receive: does not model the chunks as separate blocks; the payload is one array (no record lies across two chunks, `Reassembly.DescriptorInChunk`), and whether it can grow is a parameter.
- Reassembly.FragDesc.Expire: does not model the age test and the ICMP message; it is what happens once the time is over.
- Ipv6Text.StringToAddr: stops where a ninth word is stored; what the code does after that is not modelled.
- DnsNames.CompareExactly: does not order names; only whether the result is 0.
- Multicast.NetStack.JoinGroup4: does not model the wrap of a reference count after 2^32 joins.
- Multicast.NetStack.AcceptsMulticast: does not model the unicast and broadcast cases of the destination check, nor unicast addresses in the MAC filter.
- DhcpClient.Context.ParseAck: does not model options with a wrong length as such; a reply is modelled by its fixed fields and the options that are present with the right length.
- DhcpClient.Context.DoTick: does not model the configuration timeout callback, nor the bytes of the messages sent; a message is modelled by its identifier and the addresses in it.
- DnsClient.DnsCache.StartResolve: does not model the loop that waits for the answer, nor mDNS and NBNS entries.
- ARP requests, probes and replies as packets, and address conflict detection: an event of the DHCP model.
- Router side of IPv6: Neighbor Discovery, address autoconfiguration, MLD and path MTU are not modelled.
- Statistics, traces, mutexes and user callbacks.
- The Modbus, cloud and console code, drivers and board files: wiring and I/O.
