// Transport checksums over a pseudo-header (section 3.1 of RFC 793, RFC 768).
module Transport {
  import opened Bytes
  import opened Checksum
  import opened IPv4

  // The bytes a transport checksum covers before the transport packet itself.
  function PseudoHeader(p: Packet, protocol: byte): (h: seq<byte>)
    requires Headed(p)
    ensures |h| == 12
  {
    var n := |Payload(p)|;
    Source(p) + Destination(p) + [0, protocol, n / 0x100 % 0x100, n % 0x100]
  }

  // The transport checksum as it verifies: zero when correct.
  function TransportSum(p: Packet, protocol: byte): uint16
    requires Headed(p)
  {
    Sum32(PseudoHeader(p, protocol) + Payload(p))
  }

  lemma WordSumOfTwo(t: seq<byte>)
    requires |t| == 4
    ensures WordSum(t) == Word(t, 0) + Word(t, 2)
  {
    assert WordSum(t[2..][2..]) == 0;
    assert Word(t[2..], 0) == Word(t, 2);
  }

  lemma PseudoHeaderSum(source: seq<byte>, dest: seq<byte>, rest: seq<byte>, protocol: byte, n: uint16)
    requires |source| == |dest| == 4 && rest == [0, protocol, n / 0x100, n % 0x100]
    ensures WordSum(source + dest + rest) == WordSum(source) + WordSum(dest) + protocol + n
  {
    WordSumJoin(source + dest, rest);
    WordSumJoin(source, dest);
    WordSumOfTwo(rest);
  }

  // What the transport checksum covers: both addresses, the protocol number, the length of the
  // payload and the payload itself.
  lemma TransportCovers(p: Packet, protocol: byte)
    requires Headed(p) && |Payload(p)| < 0x1_0000
    ensures TransportSum(p, protocol) ==
            0xffff - OnesSum(WordSum(Source(p)) + WordSum(Destination(p)) + protocol + |Payload(p)|
                             + WordSum(Payload(p)))
  {
    var n := |Payload(p)|;
    var rest := [0, protocol, n / 0x100, n % 0x100];
    assert PseudoHeader(p, protocol) == Source(p) + Destination(p) + rest;
    PseudoHeaderSum(Source(p), Destination(p), rest, protocol, n);
    WordSumJoin(PseudoHeader(p, protocol), Payload(p));
    NoOverflow(PseudoHeader(p, protocol) + Payload(p));
  }

  // A word of the payload written into the packet.
  function PutPayloadWord(p: Packet, i: nat, w: uint16): (q: Packet)
    requires Headed(p) && i + 1 < |Payload(p)|
    ensures |q| == |p|
  {
    PutWord(p, HeaderSize(p) + i, w)
  }

  lemma PutPayloadWordKeeps(p: Packet, i: nat, w: uint16)
    requires Headed(p) && i + 1 < |Payload(p)|
    ensures var q := PutPayloadWord(p, i, w);
            && Headed(q) && (Valid(q) <==> Valid(p)) && Header(q) == Header(p) && HeaderSum(q) == HeaderSum(p)
            && Payload(q) == PutWord(Payload(p), i, w)
            && Source(q) == Source(p) && Destination(q) == Destination(p)
  {
    var q := PutPayloadWord(p, i, w);
    var size := HeaderSize(p);
    assert q[0] == p[0] && q[2] == p[2] && q[3] == p[3];
    assert q[..size] == p[..size];
    assert q[size..] == PutWord(p[size..], i, w);
  }

  // A byte of the payload written into the packet.
  lemma PayloadByteSet(p: Packet, i: nat, b: byte)
    requires Headed(p) && i < |Payload(p)|
    ensures var q := p[HeaderSize(p) + i := b];
            && Headed(q) && (Valid(q) <==> Valid(p)) && Header(q) == Header(p) && HeaderSum(q) == HeaderSum(p)
            && Payload(q) == Payload(p)[i := b]
  {
    var q := p[HeaderSize(p) + i := b];
    var size := HeaderSize(p);
    assert q[0] == p[0] && q[2] == p[2] && q[3] == p[3];
    assert q[..size] == p[..size];
    assert q[size..] == p[size..][i := b];
  }

  // A checksum computed over a zeroed field at an even offset verifies once it is in the field;
  // and 0xffff may stand for a zero checksum.
  lemma TransportVerifies(p: Packet, protocol: byte, i: nat, c: uint16)
    requires Headed(p) && i + 1 < |Payload(p)| <= 131062 && i % 2 == 0 && Word(Payload(p), i) == 0
    requires c == TransportSum(p, protocol) || (c == 0xffff && TransportSum(p, protocol) == 0)
    ensures Headed(PutPayloadWord(p, i, c)) && TransportSum(PutPayloadWord(p, i, c), protocol) == 0
  {
    PutPayloadWordKeeps(p, i, c);
    VerifiesBehind(PseudoHeader(p, protocol), Payload(p), i, 12 + i, c);
  }

  lemma PutBehind(h: seq<byte>, t: seq<byte>, i: nat, c: uint16)
    requires i + 1 < |t|
    ensures Word(h + t, |h| + i) == Word(t, i) && PutWord(h + t, |h| + i, c) == h + PutWord(t, i, c)
  {
  }

  lemma VerifiesBehind(h: seq<byte>, t: seq<byte>, i: nat, j: nat, c: uint16)
    requires |h| == 12 && i + 1 < |t| <= 131062 && j == 12 + i && j % 2 == 0 && Word(t, i) == 0
    requires c == Sum32(h + t) || (c == 0xffff && Sum32(h + t) == 0)
    ensures Sum32(h + PutWord(t, i, c)) == 0
  {
    PutBehind(h, t, i, c);
    ChecksumVerifies(h + t, j, c);
  }

  // What the transport SetChecksum methods write: a zero, then the sum found with that zero in
  // place, or a substitute when that sum is zero.
  function WithTransportChecksum(p: Packet, protocol: byte, i: nat, substitute: uint16): (q: Packet)
    requires Headed(p) && i + 1 < |Payload(p)|
    ensures |q| == |p|
  {
    PutPayloadWordKeeps(p, i, 0);
    var zeroed := PutPayloadWord(p, i, 0);
    var sum := TransportSum(zeroed, protocol);
    PutPayloadWord(zeroed, i, if sum == 0 then substitute else sum)
  }

  lemma PutKeeps(t: seq<byte>, i: nat, w: uint16, r: seq<byte>)
    requires i + 1 < |t| && r == PutWord(t, i, w)
    ensures |r| == |t| && forall k :: 0 <= k < |t| && k != i && k != i + 1 ==> r[k] == t[k]
  {
  }

  lemma PutTwice(t: seq<byte>, i: nat, c: uint16, zeroed: seq<byte>, r: seq<byte>)
    requires i + 1 < |t| && zeroed == PutWord(t, i, 0) && r == PutWord(zeroed, i, c)
    ensures |r| == |t| && forall k :: 0 <= k < |t| && k != i && k != i + 1 ==> r[k] == t[k]
  {
    PutKeeps(t, i, 0, zeroed);
    PutKeeps(zeroed, i, c, r);
  }

  lemma FieldSet(p: Packet, zeroed: Packet, q: Packet, i: nat, c: uint16)
    requires Headed(p) && i + 1 < |Payload(p)| && zeroed == PutPayloadWord(p, i, 0)
    requires Headed(zeroed) && |Payload(zeroed)| == |Payload(p)| && q == PutPayloadWord(zeroed, i, c)
    ensures Headed(q) && (Valid(q) <==> Valid(p)) && Header(q) == Header(p)
    ensures Payload(zeroed) == PutWord(Payload(p), i, 0) && Payload(q) == PutWord(Payload(zeroed), i, c)
  {
    PutPayloadWordKeeps(p, i, 0);
    PutPayloadWordKeeps(zeroed, i, c);
  }

  // On every packet (up to the overflow bound) SetChecksum makes the transport checksum verify,
  // leaves the header and its checksum alone, and changes no byte of the payload outside the field.
  lemma TransportChecksumSet(p: Packet, protocol: byte, i: nat, substitute: uint16)
    requires Headed(p) && i + 1 < |Payload(p)| <= 131062 && i % 2 == 0
    requires substitute == 0 || substitute == 0xffff
    ensures var q := WithTransportChecksum(p, protocol, i, substitute);
            && Headed(q) && (Valid(q) <==> Valid(p)) && TransportSum(q, protocol) == 0
            && Header(q) == Header(p) && HeaderSum(q) == HeaderSum(p) && |Payload(q)| == |Payload(p)|
            && (forall k :: 0 <= k < |Payload(p)| && k != i && k != i + 1 ==> Payload(q)[k] == Payload(p)[k])
            && (substitute == 0xffff ==> Word(Payload(q), i) != 0)
  {
    PutPayloadWordKeeps(p, i, 0);
    var zeroed := PutPayloadWord(p, i, 0);
    var sum := TransportSum(zeroed, protocol);
    var c: uint16 := if sum == 0 then substitute else sum;
    FieldSet(p, zeroed, PutPayloadWord(zeroed, i, c), i, c);
    PutTwice(Payload(p), i, c, Payload(zeroed), PutWord(Payload(zeroed), i, c));
    WordOfPut(Payload(p), i, 0);
    WordOfPut(Payload(zeroed), i, c);
    TransportVerifies(zeroed, protocol, i, c);
  }

  // A new packet around t with its transport checksum set: the payload is t but for that checksum.
  lemma NewPacketVerifies(ttl: byte, protocol: byte, source: seq<byte>, dest: seq<byte>, t: seq<byte>,
                          i: nat, substitute: uint16)
    requires |source| == 4 && |dest| == 4 && i + 1 < |t| && 20 + |t| < 0x1_0000 && i % 2 == 0
    requires substitute == 0 || substitute == 0xffff
    ensures var p := FreshPacket(ttl, protocol, source, dest, t); Headed(p) && Payload(p) == t
    ensures var q := WithTransportChecksum(FreshPacket(ttl, protocol, source, dest, t), protocol, i, substitute);
            && Valid(q) && HeaderSum(q) == 0 && TransportSum(q, protocol) == 0
            && TTL(q) == ttl && Protocol(q) == protocol && Source(q) == source && Destination(q) == dest
            && |Payload(q)| == |t| && (forall k :: 0 <= k < |t| && k != i && k != i + 1 ==> Payload(q)[k] == t[k])
            && (substitute == 0xffff ==> Word(Payload(q), i) != 0)
  {
    var p := FreshPacket(ttl, protocol, source, dest, t);
    FreshPacketFields(ttl, protocol, source, dest, t);
    TransportChecksumSet(p, protocol, i, substitute);
    HeaderDecides(WithTransportChecksum(p, protocol, i, substitute), p);
  }

  lemma SetKeepsValid(p: Packet, protocol: byte, i: nat, substitute: uint16)
    requires Headed(p) && i + 1 < |Payload(p)|
    ensures Valid(WithTransportChecksum(p, protocol, i, substitute)) <==> Valid(p)
  {
    PutPayloadWordKeeps(p, i, 0);
    var zeroed := PutPayloadWord(p, i, 0);
    var sum := TransportSum(zeroed, protocol);
    PutPayloadWordKeeps(zeroed, i, if sum == 0 then substitute else sum);
  }

  lemma WordOfPut(data: seq<byte>, i: nat, w: uint16)
    requires i + 1 < |data|
    ensures Word(PutWord(data, i, w), i) == w
  {
  }

  // Writing a word at an offset into an array that holds a packet.
  method PutArrayPayloadWord(p: array<byte>, i: nat, w: uint16)
    requires Headed(p[..]) && i + 1 < |Payload(p[..])|
    modifies p
    ensures p[..] == PutPayloadWord(old(p[..]), i, w)
  {
    var size := LowNibble(p[0]) * 4;
    PutArrayWord(p, size + i, w);
  }

  // The transport checksum of the packet in p, as TCP4Packet and UDP4Packet compute it.
  method TransportChecksum(p: array<byte>, protocol: byte) returns (sum: uint16)
    requires Headed(p[..])
    ensures sum == TransportSum(p[..], protocol)
  {
    var packet := p[..];
    var n := |Payload(packet)|;
    var fake := Source(packet);
    fake := fake + Destination(packet);
    fake := fake + [0];
    fake := fake + [protocol];
    fake := fake + [n / 0x100 % 0x100, n % 0x100];
    fake := fake + Payload(packet);
    assert fake == PseudoHeader(packet, protocol) + Payload(packet);
    sum := InternetChecksum(fake);
  }
}
