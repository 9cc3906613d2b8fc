// TCP packets over IPv4 (section 3.1 of RFC 793).
module Tcp4 {
  import opened Bytes
  import opened Checksum
  import opened IPv4
  import opened Transport

  const PROTOCOL: byte := 6

  // A TCP header, at the start of a byte sequence.
  type Header = t: seq<byte> | 20 <= |t| witness seq(20, _ => 0)

  datatype Flag = NS | CWR | ECE | URG | ACK | PSH | RST | SYN | FIN {
    // The byte of the header the flag is in, and its bit there.
    function Index(): nat { if NS? then 12 else 13 }

    function Shift(): (i: nat)
      ensures i < 8
    {
      match this
      case NS => 0
      case CWR => 7
      case ECE => 6
      case URG => 5
      case ACK => 4
      case PSH => 3
      case RST => 2
      case SYN => 1
      case FIN => 0
    }
  }

  // b & (1 << i) != 0
  predicate BitSet(b: nat, i: nat) {
    if i == 0 then b % 2 == 1 else BitSet(b / 2, i - 1)
  }

  // b with bit i set or cleared, as |= and &= ^ do it.
  function WithBit(b: nat, i: nat, on: bool): nat {
    if i == 0 then b / 2 * 2 + if on then 1 else 0 else WithBit(b / 2, i - 1, on) * 2 + b % 2
  }

  function Pow2(n: nat): nat { if n == 0 then 1 else 2 * Pow2(n - 1) }

  lemma {:induction false} WithBitFits(b: nat, i: nat, on: bool, n: nat)
    requires i < n && b < Pow2(n)
    ensures WithBit(b, i, on) < Pow2(n)
    decreases i
  {
    HalfFits(b, Pow2(n - 1));
    if i > 0 {
      WithBitFits(b / 2, i - 1, on, n - 1);
    }
  }

  lemma HalfFits(b: nat, m: nat)
    requires b < 2 * m
    ensures b / 2 < m && b / 2 * 2 + 1 < 2 * m && b % 2 < 2
  {
  }

  lemma {:induction false} BitsAreSeparate(b: nat, i: nat, on: bool, j: nat)
    ensures BitSet(WithBit(b, i, on), j) == if i == j then on else BitSet(b, j)
    decreases i
  {
    if i == 0 {
      assert WithBit(b, i, on) / 2 == b / 2;
    } else {
      assert WithBit(b, i, on) / 2 == WithBit(b / 2, i - 1, on);
      if j > 0 {
        BitsAreSeparate(b / 2, i - 1, on, j - 1);
      }
    }
  }

  predicate HasFlag(t: Header, f: Flag) {
    BitSet(t[f.Index()], f.Shift())
  }

  function DataOffset(t: Header): nat { t[12] / 16 }

  // ----- What the setters write -----

  function FlagByte(b: byte, i: nat, on: bool): (r: byte)
    requires i < 8
    ensures r == WithBit(b, i, on)
  {
    assert Pow2(8) == 2 * (2 * (2 * (2 * Pow2(4)))) && Pow2(4) == 2 * (2 * (2 * (2 * Pow2(0))));
    WithBitFits(b, i, on, 8);
    WithBit(b, i, on)
  }

  function WithFlag(t: Header, f: Flag, on: bool): (r: Header)
    ensures |r| == |t|
  {
    t[f.Index() := FlagByte(t[f.Index()], f.Shift(), on)]
  }

  function WithFlags(t: Header, flags: seq<Flag>): (r: Header)
    ensures |r| == |t|
  {
    if flags == [] then t else WithFlag(WithFlags(t, flags[..|flags| - 1]), flags[|flags| - 1], true)
  }

  function PutLong(t: seq<byte>, i: nat, d: uint32): (r: seq<byte>)
    requires i + 3 < |t|
    ensures |r| == |t|
  {
    PutWord(PutWord(t, i, d / 0x1_0000), i + 2, d % 0x1_0000)
  }

  lemma LowBitKeepsOffset(b: byte, on: bool)
    ensures WithBit(b, 0, on) / 16 == b / 16
  {
  }

  lemma FlagsDiffer(f: Flag, g: Flag)
    requires f != g && f.Index() == g.Index()
    ensures f.Shift() != g.Shift()
  {
  }

  // Setting a flag sets that flag, and no other field of the header.
  lemma FlagReadsBack(t: Header, f: Flag, on: bool, g: Flag)
    ensures HasFlag(WithFlag(t, f, on), g) == if f == g then on else HasFlag(t, g)
    ensures DataOffset(WithFlag(t, f, on)) == DataOffset(t)
    ensures forall i :: 0 <= i < |t| && i != f.Index() ==> WithFlag(t, f, on)[i] == t[i]
  {
    BitsAreSeparate(t[f.Index()], f.Shift(), on, g.Shift());
    LowBitKeepsOffset(t[12], on);
    if f != g && f.Index() == g.Index() {
      FlagsDiffer(f, g);
    }
  }

  lemma {:induction false} FlagsReadBack(t: Header, flags: seq<Flag>, g: Flag)
    ensures HasFlag(WithFlags(t, flags), g) <==> g in flags || HasFlag(t, g)
    ensures DataOffset(WithFlags(t, flags)) == DataOffset(t)
    ensures forall i :: 0 <= i < |t| && i != 12 && i != 13 ==> WithFlags(t, flags)[i] == t[i]
    decreases |flags|
  {
    if flags != [] {
      var init, last := flags[..|flags| - 1], flags[|flags| - 1];
      FlagsReadBack(t, init, g);
      FlagReadsBack(WithFlags(t, init), last, true, g);
      assert flags == init + [last];
    }
  }

  // ----- Packets -----

  // TCP4Packet.Valid
  predicate ValidTcp(p: Packet) {
    Valid(p) && 20 <= |Payload(p)| && DataOffset(Payload(p)) * 4 <= |Payload(p)|
  }

  // TCP4Packet.Payload
  function Data(p: Packet): seq<byte>
    requires ValidTcp(p)
  {
    Payload(p)[DataOffset(Payload(p)) * 4..]
  }

  datatype Fields = Fields(sourcePort: int, destPort: int, seqNum: uint32, ackNum: uint32, windowSize: uint16,
                           flags: seq<Flag>)

  // The numbers in a header, as its getters read them.
  datatype Numbers = Numbers(sourcePort: uint16, destPort: uint16, seqNum: uint32, ackNum: uint32,
                             windowSize: uint16, urgPointer: uint16)

  function NumbersIn(t: Header): Numbers {
    Numbers(Word(t, 0), Word(t, 2), Long(t, 4), Long(t, 8), Word(t, 14), Word(t, 18))
  }

  function NumbersOf(f: Fields): Numbers {
    Numbers(f.sourcePort % 0x1_0000, f.destPort % 0x1_0000, f.seqNum, f.ackNum, f.windowSize, 0)
  }

  // Everything about a segment but its checksum.
  ghost predicate Holds(t: Header, f: Fields, payload: seq<byte>) {
    && NumbersIn(t) == NumbersOf(f) && (forall g: Flag :: HasFlag(t, g) <==> g in f.flags)
    && DataOffset(t) == 5 && t[20..] == payload
  }

  lemma NoFlags(t: Header, g: Flag)
    requires t[12] == 0x50 && t[13] == 0
    ensures !HasFlag(t, g)
  {
    ZeroHasNoBits(g.Shift());
  }

  lemma {:induction false} ZeroHasNoBits(i: nat)
    ensures !BitSet(0, i)
  {
    if i > 0 {
      ZeroHasNoBits(i - 1);
    }
  }

  // Flags set on a header without any are those that read back.
  lemma FlagsHold(t: Header, flags: seq<Flag>)
    requires t[12] == 0x50 && t[13] == 0
    ensures forall g: Flag :: HasFlag(WithFlags(t, flags), g) <==> g in flags
    ensures DataOffset(WithFlags(t, flags)) == 5
    ensures forall i :: 0 <= i < |t| && i != 12 && i != 13 ==> WithFlags(t, flags)[i] == t[i]
  {
    forall g: Flag
      ensures HasFlag(WithFlags(t, flags), g) <==> g in flags
    {
      FlagsReadBack(t, flags, g);
      NoFlags(t, g);
    }
    FlagsReadBack(t, flags, NS);
  }

  // Setting flags leaves the numbers, the checksum and what follows the header as they are.
  lemma FlagsKeep(t: Header, flags: seq<Flag>)
    ensures var r := WithFlags(t, flags);
            NumbersIn(r) == NumbersIn(t) && Word(r, 16) == Word(t, 16) && r[20..] == t[20..]
  {
    FlagsReadBack(t, flags, NS);
    var r := WithFlags(t, flags);
    TailsAgree(r, t, 20);
  }

  lemma TailsAgree(r: seq<byte>, t: seq<byte>, n: nat)
    requires |r| == |t| && n <= |t| && forall i :: n <= i < |t| ==> r[i] == t[i]
    ensures r[n..] == t[n..]
  {
  }

  // ----- The setters, writing in place -----

  method PutArrayLong(t: array<byte>, i: nat, d: uint32)
    requires i + 3 < t.Length
    modifies t
    ensures t[..] == PutLong(old(t[..]), i, d)
  {
    PutArrayWord(t, i, d / 0x1_0000);
    PutArrayWord(t, i + 2, d % 0x1_0000);
  }

  method SetDataOffset(t: array<byte>, offset: byte)
    requires 20 <= t.Length
    modifies t
    ensures t[..] == old(t[..])[12 := old(t[12]) % 16 + offset % 16 * 16]
  {
    t[12] := t[12] % 16;
    t[12] := t[12] + offset % 16 * 16;
  }

  method SetFlag(t: array<byte>, f: Flag, on: bool)
    requires 20 <= t.Length
    modifies t
    ensures t[..] == WithFlag(old(t[..]), f, on)
  {
    if f == NS {
      t[12] := if on then t[12] / 2 * 2 + 1 else t[12] / 2 * 2;
    } else {
      t[13] := FlagByte(t[13], f.Shift(), on);
    }
  }

  method SetFlags(t: array<byte>, flags: seq<Flag>)
    requires 20 <= t.Length
    modifies t
    ensures t[..] == WithFlags(old(t[..]), flags)
  {
    for i := 0 to |flags|
      invariant t[..] == WithFlags(old(t[..]), flags[..i])
    {
      assert flags[..i + 1][..i] == flags[..i];
      SetFlag(t, flags[i], true);
    }
    assert flags[..|flags|] == flags;
  }

  // The fields NewTCP4Packet writes, in its order, into a header of zeros.
  method FillPorts(t: array<byte>, f: Fields)
    requires 20 <= t.Length && forall i :: 0 <= i < 20 ==> t[i] == 0
    modifies t
    ensures Word(t[..], 0) == f.sourcePort % 0x1_0000 && Word(t[..], 2) == f.destPort % 0x1_0000
    ensures forall i :: 4 <= i < t.Length ==> t[i] == old(t[i])
  {
    ghost var zeros := t[..];
    PutArrayWord(t, 0, f.sourcePort % 0x1_0000);
    WordOfPut(zeros, 0, f.sourcePort % 0x1_0000);
    ghost var ports := t[..];
    PutArrayWord(t, 2, f.destPort % 0x1_0000);
    WordOfPut(ports, 2, f.destPort % 0x1_0000);
    assert forall i :: 0 <= i < t.Length ==> t[i] == t[..][i];
  }

  method FillNumbers(t: array<byte>, f: Fields)
    requires 20 <= t.Length
    modifies t
    ensures Long(t[..], 4) == f.seqNum && Long(t[..], 8) == f.ackNum && Word(t[..], 14) == f.windowSize
    ensures forall i :: 0 <= i < t.Length && (i < 4 || i == 12 || i == 13 || 16 <= i) ==> t[i] == old(t[i])
  {
    ghost var a := t[..];
    PutArrayLong(t, 4, f.seqNum);
    LongOfPut(a, 4, f.seqNum);
    ghost var b := t[..];
    PutArrayLong(t, 8, f.ackNum);
    LongOfPut(b, 8, f.ackNum);
    ghost var c := t[..];
    PutArrayWord(t, 14, f.windowSize);
    WordOfPut(c, 14, f.windowSize);
    assert forall i :: 0 <= i < t.Length ==> t[i] == t[..][i];
  }

  lemma LongOfPut(t: seq<byte>, i: nat, d: uint32)
    requires i + 3 < |t|
    ensures Long(PutLong(t, i, d), i) == d
    ensures forall k :: 0 <= k < |t| && !(i <= k < i + 4) ==> PutLong(t, i, d)[k] == t[k]
  {
    WordOfPut(t, i, d / 0x1_0000);
    WordOfPut(PutWord(t, i, d / 0x1_0000), i + 2, d % 0x1_0000);
  }

  method FillHeader(t: array<byte>, f: Fields)
    requires 20 <= t.Length && forall i :: 0 <= i < 20 ==> t[i] == 0
    modifies t
    ensures Holds(t[..], f, old(t[20..])) && Word(t[..], 16) == 0
  {
    FillPorts(t, f);
    FillNumbers(t, f);
    SetDataOffset(t, 5);
    ghost var plain := t[..];
    assert NumbersIn(plain) == NumbersOf(f);
    SetFlags(t, f.flags);
    FlagsHold(plain, f.flags);
    FlagsKeep(plain, f.flags);
    TailsAgree(plain, old(t[..]), 20);
  }

  // ----- New packets -----

  // A segment in a new IPv4 packet, both checksums set.
  function Assembled(ttl: byte, source: seq<byte>, dest: seq<byte>, t: Header): (p: Packet)
    requires |source| == 4 && |dest| == 4
    ensures |p| == 20 + |t|
  {
    FreshPacketHeaded(ttl, PROTOCOL, source, dest, t);
    WithTransportChecksum(FreshPacket(ttl, PROTOCOL, source, dest, t), PROTOCOL, 16, 0)
  }

  // Both checksums verify, and every getter returns what the packet was made from.
  ghost predicate MadeFrom(p: Packet, ttl: byte, source: seq<byte>, dest: seq<byte>, f: Fields, payload: seq<byte>) {
    && ValidTcp(p) && HeaderSum(p) == 0 && TransportSum(p, PROTOCOL) == 0
    && TTL(p) == ttl && Protocol(p) == PROTOCOL && Source(p) == source && Destination(p) == dest
    && NumbersIn(Payload(p)) == NumbersOf(f) && (forall g: Flag :: HasFlag(Payload(p), g) <==> g in f.flags)
    && DataOffset(Payload(p)) == 5 && Data(p) == payload
  }

  lemma AssembledIsMadeFrom(ttl: byte, source: seq<byte>, dest: seq<byte>, t: Header, f: Fields, payload: seq<byte>)
    requires |source| == 4 && |dest| == 4 && 20 + |t| < 0x1_0000
    requires Holds(t, f, payload)
    ensures MadeFrom(Assembled(ttl, source, dest, t), ttl, source, dest, f, payload)
  {
    NewPacketVerifies(ttl, PROTOCOL, source, dest, t, 16, 0);
    PartsMakePacket(Assembled(ttl, source, dest, t), t, f, payload);
  }

  lemma PartsMakePacket(p: Packet, t: Header, f: Fields, payload: seq<byte>)
    requires Valid(p) && Holds(t, f, payload)
    requires HeaderSum(p) == 0 && TransportSum(p, PROTOCOL) == 0 && Protocol(p) == PROTOCOL
    requires |Payload(p)| == |t| && forall k :: 0 <= k < |t| && k != 16 && k != 17 ==> Payload(p)[k] == t[k]
    ensures MadeFrom(p, TTL(p), Source(p), Destination(p), f, payload)
  {
    ChecksumOnly(Payload(p), t);
  }

  // A packet too long for IPv4's length field is not valid.
  lemma AssembledFits(ttl: byte, source: seq<byte>, dest: seq<byte>, t: Header)
    requires |source| == 4 && |dest| == 4
    ensures Valid(Assembled(ttl, source, dest, t)) <==> 20 + |t| < 0x1_0000
  {
    var p := FreshPacket(ttl, PROTOCOL, source, dest, t);
    FreshPacketHeaded(ttl, PROTOCOL, source, dest, t);
    FreshPacketFits(ttl, PROTOCOL, source, dest, t);
    SetKeepsValid(p, PROTOCOL, 16, 0);
  }

  // Nothing but the checksum depends on the checksum field.
  lemma ChecksumOnly(r: Header, t: Header)
    requires |r| == |t| && forall k :: 0 <= k < |t| && k != 16 && k != 17 ==> r[k] == t[k]
    ensures NumbersIn(r) == NumbersIn(t) && DataOffset(r) == DataOffset(t) && r[20..] == t[20..]
    ensures forall g: Flag :: HasFlag(r, g) == HasFlag(t, g)
  {
  }

  method SetChecksum(p: array<byte>)
    requires Headed(p[..]) && 18 <= |Payload(p[..])|
    modifies p
    ensures p[..] == WithTransportChecksum(old(p[..]), PROTOCOL, 16, 0)
  {
    PutPayloadWordKeeps(p[..], 16, 0);
    PutArrayPayloadWord(p, 16, 0);
    var sum := TransportChecksum(p, PROTOCOL);
    PutArrayPayloadWord(p, 16, sum);
  }

  method NewSegment(f: Fields, payload: seq<byte>) returns (t: array<byte>)
    ensures fresh(t) && t.Length == 20 + |payload| && Holds(t[..], f, payload) && Word(t[..], 16) == 0
  {
    t := new byte[20 + |payload|](_ => 0);
    forall k | 0 <= k < |payload| {
      t[20 + k] := payload[k];
    }
    assert t[20..] == payload;
    FillHeader(t, f);
  }

  method NewTCP4Packet(ttl: int, source: seq<byte>, dest: seq<byte>, f: Fields, payload: seq<byte>)
    returns (res: array<byte>, ghost segment: seq<byte>)
    requires (|source| == 4 || source == []) && (|dest| == 4 || dest == [])
    ensures fresh(res) && |segment| == 20 + |payload| && Holds(segment, f, payload)
    ensures res[..] == Assembled(ttl % 0x100, AddressBytes(source), AddressBytes(dest), segment)
    ensures 40 + |payload| < 0x1_0000 ==>
              MadeFrom(res[..], ttl % 0x100, AddressBytes(source), AddressBytes(dest), f, payload)
  {
    var tcpPacket := NewSegment(f, payload);
    segment := tcpPacket[..];
    res := NewIPv4Packet(ttl, PROTOCOL, source, dest, tcpPacket[..]);
    Finish(res, ttl % 0x100, AddressBytes(source), AddressBytes(dest), segment);
    if 40 + |payload| < 0x1_0000 {
      AssembledIsMadeFrom(ttl % 0x100, AddressBytes(source), AddressBytes(dest), segment, f, payload);
    }
  }

  method Finish(res: array<byte>, ghost ttl: byte, ghost source: seq<byte>, ghost dest: seq<byte>, ghost t: Header)
    requires |source| == 4 && |dest| == 4 && res[..] == FreshPacket(ttl, PROTOCOL, source, dest, t)
    modifies res
    ensures res[..] == Assembled(ttl, source, dest, t)
  {
    FreshPacketHeaded(ttl, PROTOCOL, source, dest, t);
    SetChecksum(res);
  }
}
