// IPv4 packets as byte sequences, and the in-place setters over byte arrays
// (section 3.1 of RFC 791).
module IPv4 {
  import opened Bytes
  import opened Checksum

  type Packet = seq<byte>

  // There is a whole header to read fields from.
  predicate Headed(p: Packet) {
    20 <= |p| && 20 <= HeaderSize(p) <= |p|
  }

  predicate Valid(p: Packet) {
    Headed(p) && HighNibble(p[0]) == 4 && Word(p, 2) == |p|
  }

  type ValidPacket = p: Packet | Valid(p)
    witness [0x45, 0, 0, 20, 0, 0, 0, 0, 0, 0, 0, 0, 0, 0, 0, 0, 0, 0, 0, 0]

  function HeaderSize(p: Packet): nat
    requires p != []
  {
    LowNibble(p[0]) * 4
  }

  function Header(p: Packet): seq<byte>
    requires Headed(p)
  {
    p[..HeaderSize(p)]
  }

  function Payload(p: Packet): seq<byte>
    requires Headed(p)
  {
    p[HeaderSize(p)..]
  }

  function Source(p: Packet): seq<byte>
    requires Headed(p)
  {
    p[12..16]
  }

  function Destination(p: Packet): seq<byte>
    requires Headed(p)
  {
    p[16..20]
  }

  function Identification(p: Packet): uint16
    requires Valid(p)
  {
    Word(p, 4)
  }

  function TTL(p: Packet): byte
    requires Valid(p)
  {
    p[8]
  }

  function Protocol(p: Packet): byte
    requires Valid(p)
  {
    p[9]
  }

  // The header checksum as it verifies: zero when correct.
  function HeaderSum(p: Packet): uint16
    requires Headed(p)
  {
    Sum32(Header(p))
  }

  // The three fragment fields; the offset counts blocks of eight bytes.
  predicate DontFragment(p: Packet)
    requires Valid(p)
  {
    p[6] / 64 % 2 == 1
  }

  predicate MoreFragments(p: Packet)
    requires Valid(p)
  {
    p[6] / 32 % 2 == 1
  }

  function FragmentOffset(p: Packet): nat
    requires Valid(p)
  {
    0x100 * (p[6] as int % 32) + p[7]
  }

  // Everything but the payload is in the header.
  lemma HeaderDecides(p: Packet, q: Packet)
    requires Valid(p) && Valid(q) && Header(p) == Header(q)
    ensures TTL(p) == TTL(q) && Protocol(p) == Protocol(q) && Source(p) == Source(q) && Destination(p) == Destination(q)
  {
    FieldsOfHeader(p, Header(p));
    FieldsOfHeader(q, Header(q));
  }

  lemma FieldsOfHeader(p: Packet, h: seq<byte>)
    requires |h| >= 20 && h <= p
    ensures h[8] == p[8] && h[9] == p[9] && h[12..16] == p[12..16] && h[16..20] == p[16..20]
  {
    assert forall i :: 0 <= i < |h| ==> h[i] == p[i];
  }

  // ----- What the setters write -----

  function FlagByte(dontFrag: bool, moreFrags: bool, offset: nat): byte {
    (if dontFrag then 64 else 0) + (if moreFrags then 32 else 0) + offset / 0x100 % 32
  }

  function WithFragmentInfo(p: Packet, dontFrag: bool, moreFrags: bool, offset: nat): (r: Packet)
    requires 20 <= |p|
    ensures |r| == |p|
  {
    p[6 := FlagByte(dontFrag, moreFrags, offset)][7 := offset % 0x100]
  }

  function WithTotalLength(p: Packet): (r: Packet)
    requires 20 <= |p|
    ensures |r| == |p|
  {
    PutWord(p, 2, |p| % 0x1_0000)
  }

  function WithChecksum(p: Packet): (r: Packet)
    requires Headed(p)
    ensures |r| == |p|
  {
    var zeroed := PutWord(p, 10, 0);
    PutWord(zeroed, 10, Sum32(zeroed[..HeaderSize(p)]))
  }

  // SetFragmentInfo, SetTotalLength and SetChecksum together, as both ends of fragmentation
  // apply them.
  function Finished(p: Packet, moreFrags: bool, offset: nat): (r: Packet)
    requires Headed(p)
    ensures |r| == |p|
  {
    WithChecksum(WithTotalLength(WithFragmentInfo(p, false, moreFrags, offset)))
  }

  // Writing the checksum makes the header verify and touches nothing else.
  lemma ChecksumSum(p: Packet)
    requires Headed(p)
    ensures Sum32(WithChecksum(p)[..HeaderSize(p)]) == 0
  {
    var h := PutWord(p, 10, 0)[..HeaderSize(p)];
    assert WithChecksum(p)[..HeaderSize(p)] == PutWord(h, 10, Sum32(h));
    ChecksumVerifies(h, 10, Sum32(h));
  }

  lemma ChecksumKeeps(p: Packet)
    requires Headed(p)
    ensures var r := WithChecksum(p);
            && HeaderSize(r) == HeaderSize(p) && r[HeaderSize(p)..] == p[HeaderSize(p)..]
            && (forall i :: 0 <= i < |p| && i != 10 && i != 11 ==> r[i] == p[i])
  {
  }

  lemma FlagByteFields(moreFrags: bool, offset: nat)
    requires offset < 0x2000
    ensures var b := FlagByte(false, moreFrags, offset);
            && b / 64 % 2 == 0 && (b / 32 % 2 == 1 <==> moreFrags) && b < 64
            && 0x100 * (b as int % 32) + offset % 0x100 == offset
  {
  }

  lemma LengthAndFlagsWritten(p: Packet, moreFrags: bool, offset: nat)
    requires Headed(p) && |p| < 0x1_0000
    ensures var q := WithTotalLength(WithFragmentInfo(p, false, moreFrags, offset));
            && Word(q, 2) == |p| && q[6] == FlagByte(false, moreFrags, offset) && q[7] == offset % 0x100
            && forall i :: 0 <= i < |p| && i !in {2, 3, 6, 7} ==> q[i] == p[i]
  {
  }

  lemma FieldsFromBytes(r: Packet, moreFrags: bool, offset: nat)
    requires Headed(r) && HighNibble(r[0]) == 4 && Word(r, 2) == |r| && offset < 0x2000
    requires r[6] == FlagByte(false, moreFrags, offset) && r[7] == offset % 0x100
    ensures Valid(r) && !DontFragment(r) && MoreFragments(r) == moreFrags && FragmentOffset(r) == offset
  {
    FlagByteFields(moreFrags, offset);
  }

  // The setters keep a packet valid, verify, and leave every other byte alone.
  lemma FinishedFields(p: Packet, moreFrags: bool, offset: nat)
    requires Headed(p) && |p| < 0x1_0000 && HighNibble(p[0]) == 4 && offset < 0x2000
    ensures var r := Finished(p, moreFrags, offset);
            && Valid(r) && HeaderSum(r) == 0
            && HeaderSize(r) == HeaderSize(p) && Payload(r) == p[HeaderSize(p)..]
            && !DontFragment(r) && MoreFragments(r) == moreFrags && FragmentOffset(r) == offset
            && (forall i :: 0 <= i < |p| && i !in {2, 3, 6, 7, 10, 11} ==> r[i] == p[i])
  {
    var q := WithTotalLength(WithFragmentInfo(p, false, moreFrags, offset));
    LengthAndFlagsWritten(p, moreFrags, offset);
    ChecksumSum(q);
    ChecksumKeeps(q);
    FinishedFrom(p, q, WithChecksum(q), moreFrags, offset);
  }

  lemma FinishedFrom(p: Packet, q: Packet, r: Packet, moreFrags: bool, offset: nat)
    requires Headed(p) && HighNibble(p[0]) == 4 && offset < 0x2000 && |r| == |q| == |p|
    requires Word(q, 2) == |p| && q[6] == FlagByte(false, moreFrags, offset) && q[7] == offset % 0x100
    requires forall i :: 0 <= i < |p| && i !in {2, 3, 6, 7} ==> q[i] == p[i]
    requires forall i :: 0 <= i < |p| && i != 10 && i != 11 ==> r[i] == q[i]
    ensures Valid(r) && HeaderSize(r) == HeaderSize(p) && Payload(r) == p[HeaderSize(p)..]
    ensures !DontFragment(r) && MoreFragments(r) == moreFrags && FragmentOffset(r) == offset
    ensures forall i :: 0 <= i < |p| && i !in {2, 3, 6, 7, 10, 11} ==> r[i] == p[i]
  {
    assert r[0] == p[0];
    FieldsFromBytes(r, moreFrags, offset);
  }

  // Finishing forgets what the six bytes it writes were before.
  lemma FinishedForgets(p: Packet, q: Packet, moreFrags: bool, offset: nat)
    requires |p| == |q| && 20 <= |p| && 20 <= HeaderSize(p) <= |p|
    requires forall i :: 0 <= i < |p| && i !in {2, 3, 6, 7, 10, 11} ==> p[i] == q[i]
    ensures Finished(p, moreFrags, offset) == Finished(q, moreFrags, offset)
  {
    assert HeaderSize(p) == HeaderSize(q);
    var a := WithTotalLength(WithFragmentInfo(p, false, moreFrags, offset));
    var b := WithTotalLength(WithFragmentInfo(q, false, moreFrags, offset));
    assert PutWord(a, 10, 0) == PutWord(b, 10, 0);
  }

  // ----- The setters, writing in place -----

  method PutArrayWord(a: array<byte>, i: nat, w: uint16)
    requires i + 1 < a.Length
    modifies a
    ensures a[..] == PutWord(old(a[..]), i, w)
  {
    a[i] := w / 0x100;
    a[i + 1] := w % 0x100;
  }

  method SetFragmentInfo(p: array<byte>, dontFrag: bool, moreFrags: bool, offset: nat)
    requires 20 <= p.Length
    modifies p
    ensures p[..] == WithFragmentInfo(old(p[..]), dontFrag, moreFrags, offset)
  {
    p[6] := 0;
    p[7] := 0;
    if dontFrag {
      p[6] := p[6] + 64;
    }
    if moreFrags {
      p[6] := p[6] + 32;
    }
    p[6] := p[6] + offset / 0x100 % 32;
    p[7] := p[7] + offset % 0x100;
  }

  method SetTotalLength(p: array<byte>)
    requires 20 <= p.Length
    modifies p
    ensures p[..] == WithTotalLength(old(p[..]))
  {
    PutArrayWord(p, 2, p.Length % 0x1_0000);
  }

  method SetChecksum(p: array<byte>)
    requires 20 <= p.Length && 20 <= HeaderSize(p[..]) <= p.Length
    modifies p
    ensures p[..] == WithChecksum(old(p[..]))
  {
    ghost var before := p[..];
    p[10] := 0;
    p[11] := 0;
    assert p[..] == PutWord(before, 10, 0);
    var size := LowNibble(p[0]) * 4;
    var checksum := InternetChecksum(p[..size]);
    assert p[..size] == p[..][..size];
    PutArrayWord(p, 10, checksum);
  }

  // copy(p[i:i+4], ip.To4()): an address that is not IPv4 has no four-byte form and copies nothing.
  method SetAddress(p: array<byte>, i: nat, ip4: seq<byte>)
    requires i + 4 <= p.Length && (|ip4| == 4 || ip4 == [])
    modifies p
    ensures p[..i] == old(p[..i]) && p[i + 4..] == old(p[i + 4..])
    ensures p[i..i + 4] == if ip4 == [] then old(p[i..i + 4]) else ip4
  {
    forall k | 0 <= k < |ip4| {
      p[i + k] := ip4[k];
    }
  }

  // The packet NewIPv4Packet builds, before its payload is copied in.
  function FreshHeader(total: nat, ttl: byte, protocol: byte, source: seq<byte>, dest: seq<byte>): (h: seq<byte>)
    requires |source| == 4 && |dest| == 4
    ensures |h| == 20
  {
    [0x45, 0, total / 0x100 % 0x100, total % 0x100, 0, 0, 0, 0, ttl, protocol, 0, 0] + source + dest
  }

  function AddressBytes(ip4: seq<byte>): (a: seq<byte>)
    requires |ip4| == 4 || ip4 == []
    ensures |a| == 4
  {
    if ip4 == [] then [0, 0, 0, 0] else ip4
  }

  // A new packet: that header with its checksum, and the payload.
  function FreshPacket(ttl: byte, protocol: byte, source: seq<byte>, dest: seq<byte>, payload: seq<byte>): (p: Packet)
    requires |source| == 4 && |dest| == 4
    ensures |p| == 20 + |payload|
  {
    var h := FreshHeader(20 + |payload|, ttl, protocol, source, dest);
    PutWord(h, 10, Sum32(h)) + payload
  }

  lemma FreshPacketHeaded(ttl: byte, protocol: byte, source: seq<byte>, dest: seq<byte>, payload: seq<byte>)
    requires |source| == 4 && |dest| == 4
    ensures var p := FreshPacket(ttl, protocol, source, dest, payload);
            Headed(p) && HeaderSize(p) == 20 && Payload(p) == payload
  {
  }

  // The first fields NewIPv4Packet writes into its zeroed buffer.
  method FillHeader(res: array<byte>, ttl: byte, protocol: byte)
    requires 20 <= res.Length && forall i :: 0 <= i < res.Length ==> res[i] == 0
    modifies res
    ensures res[..12] == [0x45, 0, res.Length / 0x100 % 0x100, res.Length % 0x100, 0, 0, 0, 0, ttl, protocol, 0, 0]
    ensures forall i :: 12 <= i < res.Length ==> res[i] == 0
  {
    LengthBytes(res.Length);
    res[0] := 0x45;
    ghost var before := res[..];
    SetTotalLength(res);
    assert forall i :: 0 <= i < res.Length ==> res[i] == WithTotalLength(before)[i];
    res[8] := ttl;
    res[9] := protocol;
  }

  // Its address fields, still zero before.
  method FillAddresses(res: array<byte>, source: seq<byte>, dest: seq<byte>)
    requires 20 <= res.Length && forall i :: 12 <= i < res.Length ==> res[i] == 0
    requires (|source| == 4 || source == []) && (|dest| == 4 || dest == [])
    modifies res
    ensures res[..12] == old(res[..12])
    ensures res[12..16] == AddressBytes(source) && res[16..20] == AddressBytes(dest)
  {
    assert res[12..16] == [0, 0, 0, 0] && res[16..20] == [0, 0, 0, 0];
    SetAddress(res, 12, source);
    assert res[16..20] == [0, 0, 0, 0] by { assert res[16..20] == res[16..][..4]; }
    ghost var before := res[..16];
    SetAddress(res, 16, dest);
    assert res[..12] == before[..12] && res[12..16] == before[12..16];
  }

  lemma HeaderInParts(front: seq<byte>, source: seq<byte>, dest: seq<byte>, p: seq<byte>)
    requires |front| == 12 && |source| == 4 && |dest| == 4 && 20 <= |p|
    requires p[..12] == front && p[12..16] == source && p[16..20] == dest
    ensures p[..20] == front + source + dest
  {
    assert p[..20] == p[..12] + p[12..16] + p[16..20];
  }

  method NewIPv4Packet(ttl: int, protocol: int, source: seq<byte>, dest: seq<byte>, payload: seq<byte>)
    returns (res: array<byte>)
    requires (|source| == 4 || source == []) && (|dest| == 4 || dest == [])
    ensures fresh(res) && res.Length == 20 + |payload|
    ensures res[..] == FreshPacket(ttl % 0x100, protocol % 0x100, AddressBytes(source), AddressBytes(dest), payload)
  {
    res := new byte[20 + |payload|](_ => 0);
    FillHeader(res, ttl % 0x100, protocol % 0x100);
    ghost var front := res[..12];
    FillAddresses(res, source, dest);
    HeaderInParts(front, AddressBytes(source), AddressBytes(dest), res[..]);
    assert res[..20] == res[..][..20];
    SetHeaderChecksum(res, FreshHeader(res.Length, ttl % 0x100, protocol % 0x100,
                                       AddressBytes(source), AddressBytes(dest)));
    forall k | 0 <= k < |payload| {
      res[20 + k] := payload[k];
    }
    assert res[20..] == payload;
  }

  // SetChecksum on a packet whose header is the plain 20 bytes h, checksum field still zero.
  method SetHeaderChecksum(p: array<byte>, ghost h: seq<byte>)
    requires 20 <= p.Length && |h| == 20 && p[..20] == h
    requires h[0] == 0x45 && h[10] == 0 && h[11] == 0
    modifies p
    ensures p[..20] == PutWord(h, 10, Sum32(h)) && p[20..] == old(p[20..])
  {
    ghost var before := p[..];
    SetChecksum(p);
    assert PutWord(before, 10, 0) == before;
    assert before[..20] == h;
    assert p[..20] == p[..][..20] && p[20..] == p[..][20..];
  }

  // What NewIPv4Packet promises: a valid packet whose checksum verifies and whose fields read back.
  lemma FreshPacketFields(ttl: byte, protocol: byte, source: seq<byte>, dest: seq<byte>, payload: seq<byte>)
    requires |source| == 4 && |dest| == 4 && 20 + |payload| < 0x1_0000
    ensures var p := FreshPacket(ttl, protocol, source, dest, payload);
            && Valid(p) && HeaderSum(p) == 0 && HeaderSize(p) == 20 && Payload(p) == payload
            && TTL(p) == ttl && Protocol(p) == protocol && Source(p) == source && Destination(p) == dest
            && !DontFragment(p) && !MoreFragments(p) && FragmentOffset(p) == 0 && Identification(p) == 0
  {
    var h := FreshHeader(20 + |payload|, ttl, protocol, source, dest);
    FreshHeaderFields(20 + |payload|, ttl, protocol, source, dest, Sum32(h));
    ChecksumVerifies(h, 10, Sum32(h));
    HeaderThenPayload(PutWord(h, 10, Sum32(h)), payload);
  }

  // A packet too long for its length field is not valid.
  lemma FreshPacketFits(ttl: byte, protocol: byte, source: seq<byte>, dest: seq<byte>, payload: seq<byte>)
    requires |source| == 4 && |dest| == 4
    ensures Valid(FreshPacket(ttl, protocol, source, dest, payload)) <==> 20 + |payload| < 0x1_0000
  {
    if 20 + |payload| < 0x1_0000 {
      FreshPacketFields(ttl, protocol, source, dest, payload);
    }
  }

  lemma HeaderThenPayload(g: seq<byte>, payload: seq<byte>)
    requires |g| == 20 && g[0] == 0x45 && Word(g, 2) == 20 + |payload| && Sum32(g) == 0
    ensures var p := g + payload;
            && Valid(p) && HeaderSum(p) == 0 && HeaderSize(p) == 20 && Payload(p) == payload
            && TTL(p) == g[8] && Protocol(p) == g[9] && Source(p) == g[12..16] && Destination(p) == g[16..20]
            && Identification(p) == Word(g, 4)
            && (g[6] == 0 && g[7] == 0 ==> !DontFragment(p) && !MoreFragments(p) && FragmentOffset(p) == 0)
  {
    var p := g + payload;
    assert p[..20] == g;
    assert p[12..16] == g[12..16] && p[16..20] == g[16..20];
  }

  lemma FreshHeaderFields(total: nat, ttl: byte, protocol: byte, source: seq<byte>, dest: seq<byte>, c: uint16)
    requires |source| == 4 && |dest| == 4 && total < 0x1_0000
    ensures var h := FreshHeader(total, ttl, protocol, source, dest);
            var g := PutWord(h, 10, c);
            && Word(h, 10) == 0
            && g[0] == 0x45 && Word(g, 2) == total && Word(g, 4) == 0 && g[6] == 0 && g[7] == 0
            && g[8] == ttl && g[9] == protocol && g[12..16] == source && g[16..20] == dest
  {
  }
}
