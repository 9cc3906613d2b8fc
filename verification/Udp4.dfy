// UDP packets over IPv4 (RFC 768).
module Udp4 {
  import opened Bytes
  import opened Checksum
  import opened IPv4
  import opened Transport

  const PROTOCOL: byte := 17

  type Header = u: seq<byte> | 8 <= |u| witness [0, 0, 0, 0, 0, 0, 0, 0]

  // The header's fields are words; field i is at 2 * i.
  function Field(u: Header, i: nat): uint16
    requires i < 4
  {
    Word(u, 2 * i)
  }

  // UDP4Packet.Valid
  predicate ValidUdp(p: Packet) {
    Valid(p) && 8 <= |Payload(p)| && Field(Payload(p), 2) == |Payload(p)|
  }

  // UDP4Packet.Payload
  function Data(p: Packet): seq<byte>
    requires ValidUdp(p)
  {
    Payload(p)[8..]
  }

  // UDP4Packet.UseChecksum: a checksum of zero means none.
  predicate UseChecksum(p: Packet)
    requires ValidUdp(p)
  {
    Field(Payload(p), 3) != 0
  }

  // ----- Packets -----

  datatype Ports = Ports(source: int, dest: int)

  // Everything about a datagram but its checksum.
  ghost predicate Holds(u: Header, ports: Ports, payload: seq<byte>) {
    && Field(u, 0) == ports.source % 0x1_0000 && Field(u, 1) == ports.dest % 0x1_0000
    && Field(u, 2) == (8 + |payload|) % 0x1_0000 && u[8..] == payload
  }

  // A datagram in a new IPv4 packet, both checksums set; a zero UDP checksum is sent as 0xffff.
  function Assembled(ttl: byte, source: seq<byte>, dest: seq<byte>, u: Header): (p: Packet)
    requires |source| == 4 && |dest| == 4
    ensures |p| == 20 + |u|
  {
    FreshPacketHeaded(ttl, PROTOCOL, source, dest, u);
    WithTransportChecksum(FreshPacket(ttl, PROTOCOL, source, dest, u), PROTOCOL, 6, 0xffff)
  }

  // Both checksums verify, the UDP one is in use, and every getter returns what the packet was made from.
  ghost predicate MadeFrom(p: Packet, ttl: byte, source: seq<byte>, dest: seq<byte>, ports: Ports, payload: seq<byte>) {
    && ValidUdp(p) && HeaderSum(p) == 0 && TransportSum(p, PROTOCOL) == 0 && UseChecksum(p)
    && TTL(p) == ttl && Protocol(p) == PROTOCOL && Source(p) == source && Destination(p) == dest
    && Field(Payload(p), 0) == ports.source % 0x1_0000 && Field(Payload(p), 1) == ports.dest % 0x1_0000
    && Data(p) == payload
  }

  lemma AssembledIsMadeFrom(ttl: byte, source: seq<byte>, dest: seq<byte>, u: Header, ports: Ports, payload: seq<byte>)
    requires |source| == 4 && |dest| == 4 && 20 + |u| < 0x1_0000
    requires Holds(u, ports, payload)
    ensures MadeFrom(Assembled(ttl, source, dest, u), ttl, source, dest, ports, payload)
  {
    NewPacketVerifies(ttl, PROTOCOL, source, dest, u, 6, 0xffff);
    PartsMakePacket(Assembled(ttl, source, dest, u), u, ports, payload);
  }

  lemma PartsMakePacket(p: Packet, u: Header, ports: Ports, payload: seq<byte>)
    requires Valid(p) && |u| < 0x1_0000 && Holds(u, ports, payload)
    requires HeaderSum(p) == 0 && TransportSum(p, PROTOCOL) == 0 && Protocol(p) == PROTOCOL
    requires |Payload(p)| == |u| && forall k :: 0 <= k < |u| && k != 6 && k != 7 ==> Payload(p)[k] == u[k]
    requires Word(Payload(p), 6) != 0
    ensures MadeFrom(p, TTL(p), Source(p), Destination(p), ports, payload)
  {
    ChecksumOnly(Payload(p), u);
  }

  // Nothing but the checksum depends on the checksum field.
  lemma ChecksumOnly(r: Header, u: Header)
    requires |r| == |u| && forall k :: 0 <= k < |u| && k != 6 && k != 7 ==> r[k] == u[k]
    ensures Field(r, 0) == Field(u, 0) && Field(r, 1) == Field(u, 1) && Field(r, 2) == Field(u, 2) && r[8..] == u[8..]
  {
  }

  // A packet too long for IPv4's length field is not valid.
  lemma AssembledFits(ttl: byte, source: seq<byte>, dest: seq<byte>, u: Header)
    requires |source| == 4 && |dest| == 4
    ensures Valid(Assembled(ttl, source, dest, u)) <==> 20 + |u| < 0x1_0000
  {
    var p := FreshPacket(ttl, PROTOCOL, source, dest, u);
    FreshPacketHeaded(ttl, PROTOCOL, source, dest, u);
    FreshPacketFits(ttl, PROTOCOL, source, dest, u);
    SetKeepsValid(p, PROTOCOL, 6, 0xffff);
  }

  // ----- Writing in place -----

  method SetField(u: array<byte>, i: nat, w: uint16)
    requires i < 4 && 8 <= u.Length
    modifies u
    ensures u[..] == PutWord(old(u[..]), 2 * i, w)
  {
    var off := 2 * i;
    u[off] := w / 0x100;
    u[off + 1] := w % 0x100;
  }

  method SetChecksum(p: array<byte>)
    requires Headed(p[..]) && 8 <= |Payload(p[..])|
    modifies p
    ensures p[..] == WithTransportChecksum(old(p[..]), PROTOCOL, 6, 0xffff)
  {
    PutPayloadWordKeeps(p[..], 6, 0);
    PutArrayPayloadWord(p, 6, 0);
    var sum := TransportChecksum(p, PROTOCOL);
    if sum == 0 {
      sum := 0xffff;
    }
    PutArrayPayloadWord(p, 6, sum);
  }

  method FillHeader(u: array<byte>, ports: Ports)
    requires 8 <= u.Length
    modifies u
    ensures Holds(u[..], ports, old(u[8..]))
  {
    ghost var a := u[..];
    SetField(u, 0, ports.source % 0x1_0000);
    WordOfPut(a, 0, ports.source % 0x1_0000);
    ghost var b := u[..];
    SetField(u, 1, ports.dest % 0x1_0000);
    WordOfPut(b, 2, ports.dest % 0x1_0000);
    ghost var c := u[..];
    SetField(u, 2, u.Length % 0x1_0000);
    WordOfPut(c, 4, u.Length % 0x1_0000);
    assert u[..][8..] == a[8..];
  }

  method NewDatagram(ports: Ports, payload: seq<byte>) returns (u: array<byte>)
    ensures fresh(u) && u.Length == 8 + |payload| && Holds(u[..], ports, payload)
  {
    u := new byte[8 + |payload|](_ => 0);
    forall k | 0 <= k < |payload| {
      u[8 + k] := payload[k];
    }
    assert u[8..] == payload;
    FillHeader(u, ports);
  }

  method NewUDP4Packet(ttl: int, source: seq<byte>, dest: seq<byte>, ports: Ports, payload: seq<byte>)
    returns (res: array<byte>, ghost datagram: seq<byte>)
    requires (|source| == 4 || source == []) && (|dest| == 4 || dest == [])
    ensures fresh(res) && |datagram| == 8 + |payload| && Holds(datagram, ports, payload)
    ensures res[..] == Assembled(ttl % 0x100, AddressBytes(source), AddressBytes(dest), datagram)
    ensures 28 + |payload| < 0x1_0000 ==>
              MadeFrom(res[..], ttl % 0x100, AddressBytes(source), AddressBytes(dest), ports, payload)
  {
    var uPacket := NewDatagram(ports, payload);
    datagram := uPacket[..];
    res := NewIPv4Packet(ttl, PROTOCOL, source, dest, uPacket[..]);
    Finish(res, ttl % 0x100, AddressBytes(source), AddressBytes(dest), datagram);
    if 28 + |payload| < 0x1_0000 {
      AssembledIsMadeFrom(ttl % 0x100, AddressBytes(source), AddressBytes(dest), datagram, ports, payload);
    }
  }

  method Finish(res: array<byte>, ghost ttl: byte, ghost source: seq<byte>, ghost dest: seq<byte>, ghost u: Header)
    requires |source| == 4 && |dest| == 4 && res[..] == FreshPacket(ttl, PROTOCOL, source, dest, u)
    modifies res
    ensures res[..] == Assembled(ttl, source, dest, u)
  {
    FreshPacketHeaded(ttl, PROTOCOL, source, dest, u);
    SetChecksum(res);
  }
}
