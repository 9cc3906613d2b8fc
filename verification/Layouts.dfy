// Where the fields of the packets stand on the wire: offsets and bits as section 3.1 of RFC 791,
// section 3.1 of RFC 793 and RFC 768 number them.
module Layouts {
  import opened Bytes
  import opened Checksum
  import opened IPv4
  import Transport
  import Tcp4
  import Udp4

  // ----- IPv4 -----

  lemma FreshPacketLayout(ttl: byte, protocol: byte, source: seq<byte>, dest: seq<byte>, payload: seq<byte>)
    requires |source| == 4 && |dest| == 4 && 20 + |payload| < 0x1_0000
    ensures var p := FreshPacket(ttl, protocol, source, dest, payload);
            && |p| == 20 + |payload| && p[0] == 0x45 && p[1] == 0
            && 0x100 * (p[2] as int) + p[3] == |p|
            && p[4..8] == [0, 0, 0, 0] && p[8] == ttl && p[9] == protocol
            && p[12..16] == source && p[16..20] == dest && p[20..] == payload
  {
    var total := 20 + |payload|;
    assert total / 0x100 % 0x100 == total / 0x100;
  }

  // The fragment word: the reserved bit, don't fragment, more fragments, thirteen bits of offset.
  lemma FragmentWord(p: ValidPacket)
    ensures var w := 0x100 * (p[6] as int) + p[7];
            && (DontFragment(p) <==> w / 0x4000 % 2 == 1) && (MoreFragments(p) <==> w / 0x2000 % 2 == 1)
            && FragmentOffset(p) == w % 0x2000
  {
    var high: int, low: int := p[6], p[7];
    var w := 0x100 * high + low;
    assert w / 0x4000 == high / 64 && w / 0x2000 == high / 32;
    assert w == 0x2000 * (high / 32) + (0x100 * (high % 32) + low);
  }

  lemma FragmentWordSet(p: Packet, dontFrag: bool, moreFrags: bool, offset: nat)
    requires 20 <= |p| && offset < 0x2000
    ensures var q := WithFragmentInfo(p, dontFrag, moreFrags, offset);
            0x100 * (q[6] as int) + q[7] ==
            (if dontFrag then 0x4000 else 0) + (if moreFrags then 0x2000 else 0) + offset
  {
    assert offset / 0x100 % 32 == offset / 0x100;
  }

  // ----- TCP -----

  // A flag's weight in its byte; every flag but NS is in byte 13.
  function Weight(f: Tcp4.Flag): nat {
    match f
    case FIN => 1
    case SYN => 2
    case RST => 4
    case PSH => 8
    case ACK => 16
    case URG => 32
    case ECE => 64
    case CWR => 128
    case NS => 1
  }

  function Halved(b: nat, i: nat): nat {
    if i == 0 then b else Halved(b, i - 1) / 2
  }

  lemma {:induction false} HalvedFirst(b: nat, i: nat)
    requires i > 0
    ensures Halved(b / 2, i - 1) == Halved(b, i)
  {
    if i > 1 {
      HalvedFirst(b, i - 1);
    }
  }

  lemma {:induction false} BitSetIs(b: nat, i: nat)
    ensures Tcp4.BitSet(b, i) <==> Halved(b, i) % 2 == 1
    decreases i
  {
    if i > 0 {
      BitSetIs(b / 2, i - 1);
      HalvedFirst(b, i);
    }
  }

  lemma HalvedIs(b: nat)
    ensures Halved(b, 0) == b && Halved(b, 1) == b / 2 && Halved(b, 2) == b / 4 && Halved(b, 3) == b / 8
    ensures Halved(b, 4) == b / 16 && Halved(b, 5) == b / 32 && Halved(b, 6) == b / 64 && Halved(b, 7) == b / 128
  {
    assert Halved(b, 2) == Halved(b, 1) / 2;
    assert Halved(b, 3) == Halved(b, 2) / 2;
    assert Halved(b, 4) == Halved(b, 3) / 2;
    assert Halved(b, 5) == Halved(b, 4) / 2;
    assert Halved(b, 6) == Halved(b, 5) / 2;
    assert Halved(b, 7) == Halved(b, 6) / 2;
  }

  lemma FlagLayout(t: Tcp4.Header, f: Tcp4.Flag)
    ensures Tcp4.HasFlag(t, f) <==> t[if f.NS? then 12 else 13] / Weight(f) % 2 == 1
  {
    BitSetIs(t[f.Index()], f.Shift());
    HalvedIs(t[f.Index()]);
  }

  // A segment made from these fields and payload, at its place in the packet.
  lemma SegmentLayout(p: Packet, ttl: byte, source: seq<byte>, dest: seq<byte>, f: Tcp4.Fields, payload: seq<byte>)
    requires Valid(p) && Tcp4.MadeFrom(p, ttl, source, dest, f, payload)
    ensures var t := Payload(p);
            && |t| == 20 + |payload| && t[20..] == payload
            && 0x100 * (t[0] as int) + t[1] == f.sourcePort % 0x1_0000
            && 0x100 * (t[2] as int) + t[3] == f.destPort % 0x1_0000
            && 0x1_0000 * (0x100 * (t[4] as int) + t[5]) + (0x100 * (t[6] as int) + t[7]) == f.seqNum
            && 0x1_0000 * (0x100 * (t[8] as int) + t[9]) + (0x100 * (t[10] as int) + t[11]) == f.ackNum
            && t[12] / 16 == 5 && 0x100 * (t[14] as int) + t[15] == f.windowSize && t[18] == t[19] == 0
    ensures forall g: Tcp4.Flag :: g in f.flags <==> Payload(p)[if g.NS? then 12 else 13] / Weight(g) % 2 == 1
    ensures p[9] == 6 && p[12..16] == source && p[16..20] == dest
  {
    forall g: Tcp4.Flag
      ensures g in f.flags <==> Payload(p)[if g.NS? then 12 else 13] / Weight(g) % 2 == 1
    {
      FlagLayout(Payload(p), g);
    }
  }

  // ----- UDP -----

  lemma DatagramLayout(p: Packet, ttl: byte, source: seq<byte>, dest: seq<byte>, ports: Udp4.Ports, payload: seq<byte>)
    requires Udp4.MadeFrom(p, ttl, source, dest, ports, payload)
    ensures var u := Payload(p);
            && |u| == 8 + |payload| && u[8..] == payload
            && 0x100 * (u[0] as int) + u[1] == ports.source % 0x1_0000
            && 0x100 * (u[2] as int) + u[3] == ports.dest % 0x1_0000
            && 0x100 * (u[4] as int) + u[5] == |u| && (u[6] != 0 || u[7] != 0)
    ensures p[9] == 17 && p[12..16] == source && p[16..20] == dest
  {
  }

  // ----- Checksums -----

  // The example of section 3 of RFC 1071: the words 0001 f203 f4f5 f6f7 sum to ddf2 in one's
  // complement.
  lemma ChecksumExample(data: seq<byte>)
    requires data == [0x00, 0x01, 0xf2, 0x03, 0xf4, 0xf5, 0xf6, 0xf7]
    ensures Sum32(data) == 0xffff - 0xddf2
  {
    var b, c, d := data[2..], data[2..][2..], data[2..][2..][2..];
    assert d[2..] == [] && WordSum(d[2..]) == 0;
    assert WordSum(d) == 0xf6f7;
    assert WordSum(c) == 0xf4f5 + 0xf6f7;
    assert WordSum(b) == 0xf203 + (0xf4f5 + 0xf6f7);
    assert WordSum(data) == 0x2_ddf0;
  }
}
