// TCP segments as the connection puts them on the wire and takes them off it.
module SegmentPackets {
  import opened Bytes
  import opened Assembly
  import opened IPv4
  import opened Transport
  import opened Tcp4
  import Connection
  import StreamTheorems

  // The header is cut off at the data offset before its flags are read or set; on a valid packet
  // the flag bytes are beyond the cut exactly when the offset is 3 or less, and the program panics.
  predicate HasFlagBytes(p: Packet) {
    ValidTcp(p) && DataOffset(Payload(p)) > 3
  }

  // What the connection loop reads from an incoming packet.
  function Parse(p: Packet): Segment
    requires HasFlagBytes(p)
  {
    Segment(NumbersIn(Payload(p)).seqNum, Data(p), HasFlag(Payload(p), FIN))
  }

  // SetFlag and then SetChecksum on a packet.
  function WithFlagSet(p: Packet, f: Flag): (q: Packet)
    requires HasFlagBytes(p)
    ensures |q| == |p|
  {
    PayloadByteSet(p, f.Index(), Tcp4.FlagByte(Payload(p)[f.Index()], f.Shift(), true));
    WithTransportChecksum(p[HeaderSize(p) + f.Index() := Tcp4.FlagByte(Payload(p)[f.Index()], f.Shift(), true)],
                          PROTOCOL, 16, 0)
  }

  // What is left to say of a packet q once its payload is known to be that of p, but for a flag and
  // the checksum.
  lemma OneFlagMore(p: Packet, q: Packet, f: Flag, fields: Fields, payload: seq<byte>)
    requires Valid(p) && MadeFrom(p, TTL(p), Source(p), Destination(p), fields, payload)
    requires Valid(q) && IPv4.Header(q) == IPv4.Header(p) && HeaderSum(q) == 0 && TransportSum(q, PROTOCOL) == 0
    requires |Payload(q)| == |Payload(p)|
    requires forall k :: 0 <= k < |Payload(p)| && k != 16 && k != 17 ==>
               Payload(q)[k] == WithFlag(Payload(p), f, true)[k]
    ensures MadeFrom(q, TTL(p), Source(p), Destination(p), fields.(flags := fields.flags + [f]), payload)
  {
    var t := WithFlag(Payload(p), f, true);
    HeaderDecides(q, p);
    ChecksumOnly(Payload(q), t);
    FlagKeeps(Payload(p), f);
    forall g: Flag
      ensures HasFlag(Payload(q), g) <==> g in fields.flags + [f]
    {
      FlagReadsBack(Payload(p), f, true, g);
      assert HasFlag(Payload(q), g) == HasFlag(t, g);
    }
  }

  lemma FlagKeeps(t: Tcp4.Header, f: Flag)
    ensures var r := WithFlag(t, f, true);
            NumbersIn(r) == NumbersIn(t) && DataOffset(r) == DataOffset(t) && r[20..] == t[20..]
  {
    FlagReadsBack(t, f, true, f);
    TailsAgree(WithFlag(t, f, true), t, 20);
  }

  // Setting a flag of a made packet gives the packet made with that flag too.
  lemma SetFlagRemakes(p: Packet, f: Flag, fields: Fields, payload: seq<byte>)
    requires Valid(p) && MadeFrom(p, TTL(p), Source(p), Destination(p), fields, payload)
    ensures MadeFrom(WithFlagSet(p, f), TTL(p), Source(p), Destination(p),
                     fields.(flags := fields.flags + [f]), payload)
  {
    var b := Tcp4.FlagByte(Payload(p)[f.Index()], f.Shift(), true);
    var flagged := p[HeaderSize(p) + f.Index() := b];
    PayloadByteSet(p, f.Index(), b);
    TransportChecksumSet(flagged, PROTOCOL, 16, 0);
    OneFlagMore(p, WithFlagSet(p, f), f, fields, payload);
  }

  method SetPacketFlag(p: array<byte>, f: Flag)
    requires HasFlagBytes(p[..])
    modifies p
    ensures p[..] == WithFlagSet(old(p[..]), f)
  {
    var offset := LowNibble(p[0]) * 4 + f.Index();
    PayloadByteSet(p[..], f.Index(), Tcp4.FlagByte(p[offset], f.Shift(), true));
    p[offset] := Tcp4.FlagByte(p[offset], f.Shift(), true);
    Tcp4.SetChecksum(p);
  }

  // With both headers the segment is within the largest packet.
  predicate FitsPacket(segment: Segment) {
    40 + |segment.data| < 0x1_0000
  }

  // Every segment a connection hands to its timer, in any run, fits a packet if the segment size
  // does; the program's is 512.
  lemma EverySegmentFits(t: Connection.System, x: Connection.Endpoint, r: Connection.Endpoint, c: Cut)
    requires StreamTheorems.Reachable(t) && StreamTheorems.Direction(t, x, r) && c in x.emitted
    ensures x.sender.maxSegmentSize <= 65495 ==> FitsPacket(c.segment)
  {
    StreamTheorems.ReachableInvariant(t);
    assert Connection.Genuine(x, c);
  }

  // sendSegment: a segment that fits a packet arrives, with acknowledgement and window, as it left.
  method SendSegment(ttl: int, source: seq<byte>, dest: seq<byte>, sourcePort: int, destPort: int,
                     segment: Segment, ack: uint32, window: uint16) returns (packet: array<byte>)
    requires (|source| == 4 || source == []) && (|dest| == 4 || dest == [])
    requires FitsPacket(segment)
    ensures HasFlagBytes(packet[..]) && HeaderSum(packet[..]) == 0 && TransportSum(packet[..], PROTOCOL) == 0
    ensures Parse(packet[..]) == segment
    ensures NumbersIn(Payload(packet[..])) ==
            Numbers(sourcePort % 0x1_0000, destPort % 0x1_0000, segment.start, ack, window, 0)
    ensures HasFlag(Payload(packet[..]), ACK)
  {
    var fields := Fields(sourcePort, destPort, segment.start, ack, window, [ACK]);
    ghost var bytes;
    packet, bytes := NewTCP4Packet(ttl, source, dest, fields, segment.data);
    if segment.fin {
      SetFlagRemakes(packet[..], FIN, fields, segment.data);
      SetPacketFlag(packet, FIN);
    }
  }
}
