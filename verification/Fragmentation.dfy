// Splitting an IPv4 packet into fragments and putting fragments back together
// (section 3.2 of RFC 791).
module Fragmentation {
  import opened Bytes
  import opened Checksum
  import opened IPv4

  // The payloads of fs, end to end.
  function Join(fs: seq<ValidPacket>): seq<byte> {
    if fs == [] then [] else Join(fs[..|fs| - 1]) + Payload(fs[|fs| - 1])
  }

  // What fragment k of fs carries: where it starts in the joined payload.
  function StartOf(fs: seq<ValidPacket>, k: nat): nat
    requires k <= |fs|
  {
    |Join(fs[..k])|
  }

  // The fragment of p that carries `size` payload bytes from block `block` of eight on.
  function Piece(p: ValidPacket, block: nat, size: nat): Packet
    requires 8 * block + size <= |Payload(p)|
  {
    var start := 8 * block;
    Finished(Header(p) + Payload(p)[start..start + size], start + size < |Payload(p)|, block)
  }

  // f carries the bytes of p's payload from start on, under p's header, and says so in its
  // fragment fields.
  ghost predicate IsTile(f: ValidPacket, p: ValidPacket, start: nat) {
    var size := |Payload(f)|;
    && 0 < size && start + size <= |Payload(p)|
    && SameHeader(f, p)
    && Payload(f) == Payload(p)[start..start + size]
    && 8 * FragmentOffset(f) == start
    && (MoreFragments(f) <==> start + size < |Payload(p)|)
  }

  // The headers agree but for total length, fragment fields and checksum.
  ghost predicate SameHeader(f: ValidPacket, p: ValidPacket) {
    && HeaderSize(f) == HeaderSize(p)
    && forall i :: 0 <= i < HeaderSize(p) && i !in {2, 3, 6, 7, 10, 11} ==> f[i] == p[i]
  }

  // fs cover the payload of p in order, without gap or overlap.
  ghost predicate Tiles(fs: seq<ValidPacket>, p: ValidPacket) {
    Join(fs) == Payload(p) && AllTiles(fs, p)
  }

  ghost predicate AllTiles(fs: seq<ValidPacket>, p: ValidPacket) {
    forall k :: 0 <= k < |fs| ==> TileAt(fs, p, k)
  }

  ghost predicate TileAt(fs: seq<ValidPacket>, p: ValidPacket, k: nat)
    requires k < |fs|
  {
    IsTile(fs[k], p, StartOf(fs, k))
  }

  // Every fragment is, to the last header byte, the piece of p at its place.
  ghost predicate Exact(fs: seq<ValidPacket>, p: ValidPacket) {
    forall k :: 0 <= k < |fs| ==> IsPiece(fs, p, k)
  }

  ghost predicate IsPiece(fs: seq<ValidPacket>, p: ValidPacket, k: nat)
    requires k < |fs|
  {
    && 8 * FragmentOffset(fs[k]) + |Payload(fs[k])| <= |Payload(p)|
    && fs[k] == Piece(p, FragmentOffset(fs[k]), |Payload(fs[k])|)
  }

  // Every tile but the last is as large as max allows.
  ghost predicate Greedy(fs: seq<ValidPacket>, p: ValidPacket, max: nat) {
    forall k :: 0 <= k < |fs| ==> LargeAt(fs, p, max, k)
  }

  ghost predicate LargeAt(fs: seq<ValidPacket>, p: ValidPacket, max: nat, k: nat)
    requires k < |fs|
  {
    AsLargeAsAllowed(fs[k], p, max, StartOf(fs, k))
  }

  ghost predicate AsLargeAsAllowed(f: ValidPacket, p: ValidPacket, max: nat, start: nat) {
    start <= |Payload(p)| && |Payload(f)| == ChunkSize(max, |Payload(p)| - start)
  }

  lemma PieceBody(p: ValidPacket, q: Packet, start: nat, size: nat)
    requires start + size <= |Payload(p)| && q == Header(p) + Payload(p)[start..start + size]
    ensures |q| == HeaderSize(p) + size && Headed(q) && HeaderSize(q) == HeaderSize(p) && HighNibble(q[0]) == 4
    ensures forall i :: 0 <= i < HeaderSize(p) ==> q[i] == p[i]
    ensures q[HeaderSize(p)..] == Payload(p)[start..start + size]
  {
    assert q[0] == p[0];
  }

  lemma BodyMakesTile(p: ValidPacket, q: Packet, f: Packet, block: nat, size: nat)
    requires 8 * block + size <= |Payload(p)| && 0 < size && HeaderSize(p) <= |q| == |f| && Valid(f)
    requires forall i :: 0 <= i < HeaderSize(p) ==> q[i] == p[i]
    requires HeaderSize(f) == HeaderSize(p) && Payload(f) == Payload(p)[8 * block..8 * block + size]
    requires forall i :: 0 <= i < |q| && i !in {2, 3, 6, 7, 10, 11} ==> f[i] == q[i]
    requires MoreFragments(f) == (8 * block + size < |Payload(p)|) && FragmentOffset(f) == block
    ensures IsTile(f, p, 8 * block) && |Payload(f)| == size
  {
  }

  // A piece is a tile, its unfragmentable flag is clear, and its header verifies.
  lemma PieceIsTile(p: ValidPacket, f: Packet, block: nat, size: nat)
    requires 8 * block + size <= |Payload(p)| && 0 < size
    requires f == Piece(p, block, size)
    ensures Valid(f) && HeaderSum(f) == 0 && |f| == HeaderSize(p) + size && |Payload(f)| == size
    ensures IsTile(f, p, 8 * block) && FragmentOffset(f) == block && !DontFragment(f)
  {
    var start := 8 * block;
    var q := Header(p) + Payload(p)[start..start + size];
    PieceBody(p, q, start, size);
    FinishedFields(q, start + size < |Payload(p)|, block);
    BodyMakesTile(p, q, f, block, size);
  }

  lemma SameHeaderFields(f: ValidPacket, p: ValidPacket)
    requires SameHeader(f, p)
    ensures Source(f) == Source(p) && Destination(f) == Destination(p)
    ensures Identification(f) == Identification(p) && TTL(f) == TTL(p) && Protocol(f) == Protocol(p)
  {
  }

  ghost predicate IsSplit(fs: seq<ValidPacket>, p: ValidPacket, max: nat) {
    Tiles(fs, p) && Exact(fs, p) && Greedy(fs, p, max)
  }

  lemma StartOfAppend(fs: seq<ValidPacket>, f: ValidPacket, k: nat)
    requires k <= |fs|
    ensures StartOf(fs + [f], k) == StartOf(fs, k)
    ensures Join(fs + [f]) == Join(fs) + Payload(f)
  {
    assert (fs + [f])[..k] == fs[..k];
    assert (fs + [f])[..|fs|] == fs;
  }

  lemma StartsKept(fs: seq<ValidPacket>, f: ValidPacket)
    ensures forall k :: 0 <= k <= |fs| ==> StartOf(fs + [f], k) == StartOf(fs, k)
    ensures StartOf(fs, |fs|) == |Join(fs)|
    ensures Join(fs + [f]) == Join(fs) + Payload(f)
  {
    assert fs[..|fs|] == fs;
    forall k | 0 <= k <= |fs|
      ensures StartOf(fs + [f], k) == StartOf(fs, k)
    {
      StartOfAppend(fs, f, k);
    }
    StartOfAppend(fs, f, |fs|);
  }

  lemma TilesExtend(fs: seq<ValidPacket>, f: ValidPacket, p: ValidPacket)
    requires AllTiles(fs, p) && IsTile(f, p, |Join(fs)|)
    ensures AllTiles(fs + [f], p)
  {
    StartsKept(fs, f);
    var gs := fs + [f];
    forall k | 0 <= k < |gs|
      ensures TileAt(gs, p, k)
    {
      assert StartOf(gs, k) == StartOf(fs, k);
      if k < |fs| {
        assert TileAt(fs, p, k);
      }
    }
  }

  lemma ExactExtends(fs: seq<ValidPacket>, f: ValidPacket, p: ValidPacket)
    requires Exact(fs, p) && 8 * FragmentOffset(f) + |Payload(f)| <= |Payload(p)|
    requires f == Piece(p, FragmentOffset(f), |Payload(f)|)
    ensures Exact(fs + [f], p)
  {
    var gs := fs + [f];
    forall k | 0 <= k < |gs|
      ensures IsPiece(gs, p, k)
    {
      assert k < |fs| ==> IsPiece(fs, p, k);
    }
  }

  lemma GreedyExtends(fs: seq<ValidPacket>, f: ValidPacket, p: ValidPacket, max: nat, start: nat)
    requires Greedy(fs, p, max) && AsLargeAsAllowed(f, p, max, start) && start == |Join(fs)|
    ensures Greedy(fs + [f], p, max)
  {
    StartsKept(fs, f);
    var gs := fs + [f];
    forall k | 0 <= k < |gs|
      ensures LargeAt(gs, p, max, k)
    {
      assert StartOf(gs, k) == StartOf(fs, k);
      if k < |fs| {
        assert LargeAt(fs, p, max, k);
      }
    }
  }

  lemma JoinExtends(fs: seq<ValidPacket>, f: ValidPacket, p: ValidPacket, start: nat)
    requires start + |Payload(f)| <= |Payload(p)| && Join(fs) == Payload(p)[..start]
    requires Payload(f) == Payload(p)[start..start + |Payload(f)|]
    ensures Join(fs + [f]) == Payload(p)[..start + |Payload(f)|]
  {
    StartsKept(fs, f);
    PrefixExtends(Payload(p), start, start + |Payload(f)|);
  }

  lemma PrefixExtends(s: seq<byte>, i: nat, j: nat)
    requires i <= j <= |s|
    ensures s[..i] + s[i..j] == s[..j]
  {
  }

  // The fragments made so far when `start` bytes of the payload are done.
  ghost predicate Partial(fs: seq<ValidPacket>, p: ValidPacket, max: nat, start: nat) {
    && start <= |Payload(p)| && Join(fs) == Payload(p)[..start]
    && AllTiles(fs, p) && Greedy(fs, p, max)
  }

  // And each of them is exactly its piece.
  ghost predicate Progress(fs: seq<ValidPacket>, p: ValidPacket, max: nat, start: nat) {
    Partial(fs, p, max, start) && Exact(fs, p)
  }

  lemma ProgressStarts(p: ValidPacket, max: nat)
    ensures Progress([], p, max, 0)
  {
  }

  lemma PartialExtends(fs: seq<ValidPacket>, f: ValidPacket, p: ValidPacket, max: nat, start: nat, end: nat)
    requires Partial(fs, p, max, start) && IsTile(f, p, start) && end == start + |Payload(f)|
    requires |Payload(f)| == ChunkSize(max, |Payload(p)| - start)
    ensures Partial(fs + [f], p, max, end)
  {
    TilesExtend(fs, f, p);
    GreedyExtends(fs, f, p, max, start);
    JoinExtends(fs, f, p, start);
  }

  lemma ProgressExtends(fs: seq<ValidPacket>, f: ValidPacket, gs: seq<ValidPacket>, p: ValidPacket, max: nat,
                        start: nat, end: nat)
    requires Progress(fs, p, max, start) && IsTile(f, p, start) && end == start + |Payload(f)| && gs == fs + [f]
    requires |Payload(f)| == ChunkSize(max, |Payload(p)| - start)
    requires f == Piece(p, FragmentOffset(f), |Payload(f)|)
    ensures Progress(gs, p, max, end)
  {
    PartialExtends(fs, f, p, max, start, end);
    ExactExtends(fs, f, p);
  }

  lemma ProgressEnds(fs: seq<ValidPacket>, p: ValidPacket, max: nat)
    requires Progress(fs, p, max, |Payload(p)|)
    ensures IsSplit(fs, p, max)
  {
    assert Payload(p)[..|Payload(p)|] == Payload(p);
  }

  // The size of the next fragment when `rest` bytes are left.
  function ChunkSize(max: nat, rest: nat): nat {
    if max < rest then max else rest
  }

  // What a sender transmits for p: p itself when it is shorter than the mtu, nothing when it must
  // not or cannot be split, and its pieces otherwise.
  ghost predicate AreFragments(fs: seq<ValidPacket>, p: ValidPacket, mtu: int) {
    if |p| < mtu then fs == [p]
    else if DontFragment(p) || MoreFragments(p) || FragmentOffset(p) != 0 || mtu < HeaderSize(p) + 8 then fs == []
    else IsSplit(fs, p, RoundDown(mtu - HeaderSize(p)))
  }

  // With an mtu below the header length the splitting loop would slice with a negative length.
  predicate SplitPanics(p: ValidPacket, mtu: int) {
    && mtu < HeaderSize(p) && Payload(p) != []
    && !DontFragment(p) && !MoreFragments(p) && FragmentOffset(p) == 0
  }

  method Fragments(mtu: int, packet: ValidPacket) returns (packets: seq<ValidPacket>)
    requires !SplitPanics(packet, mtu)
    ensures AreFragments(packets, packet, mtu)
  {
    if |packet| < mtu {
      return [packet];
    }
    if DontFragment(packet) {
      return [];
    } else if MoreFragments(packet) || FragmentOffset(packet) != 0 {
      return [];
    }
    packets := SplitFor(mtu, packet);
  }

  // The rest of Fragments, for a packet that is too long and may be split.
  method SplitFor(mtu: int, packet: ValidPacket) returns (packets: seq<ValidPacket>)
    requires mtu <= |packet| && !DontFragment(packet) && !MoreFragments(packet) && FragmentOffset(packet) == 0
    requires HeaderSize(packet) <= mtu || Payload(packet) == []
    ensures AreFragments(packets, packet, mtu)
  {
    var headerSize := HeaderSize(packet);
    if mtu < headerSize {
      // Without a payload the splitting loop is not entered.
      return [];
    }
    var room := mtu - headerSize;
    RoundDownIs(room);
    var maxPayload := room - room % 8;
    if maxPayload == 0 {
      return [];
    }
    packets := SplitPayload(packet, maxPayload, room / 8);
  }

  function RoundDown(n: nat): nat { n / 8 * 8 }

  lemma RoundDownIs(n: nat)
    ensures n - n % 8 == RoundDown(n) == 8 * (n / 8)
    ensures RoundDown(n) == 0 <==> n < 8
  {
  }

  // The splitting loop.
  method SplitPayload(packet: ValidPacket, maxPayload: nat, ghost unit: nat) returns (packets: seq<ValidPacket>)
    requires 0 < maxPayload == 8 * unit
    ensures IsSplit(packets, packet, maxPayload)
  {
    var payload := Payload(packet);
    packets := [];
    var offset := 0;
    ghost var blocks := 0;
    ProgressStarts(packet, maxPayload);
    while |payload| - offset > 0
      invariant 0 <= offset <= |payload| && (offset < |payload| ==> offset == 8 * blocks)
      invariant Progress(packets, packet, maxPayload, offset)
      decreases |payload| - offset
    {
      var chunkSize := ChunkSize(maxPayload, |payload| - offset);
      var next := MakePiece(packet, offset, chunkSize, blocks);
      var longer, end := packets + [next], offset + chunkSize;
      ProgressExtends(packets, next, longer, packet, maxPayload, offset, end);
      packets, offset, blocks := longer, end, blocks + unit;
    }
    ProgressEnds(packets, packet, maxPayload);
  }

  // The body of the splitting loop: a fresh packet is assembled and its fields set in place.
  method MakePiece(packet: ValidPacket, offset: nat, size: nat, ghost block: nat) returns (piece: ValidPacket)
    requires offset == 8 * block && offset + size <= |Payload(packet)| && 0 < size
    ensures |Payload(piece)| == size && FragmentOffset(piece) == block
    ensures piece == Piece(packet, block, size) && IsTile(piece, packet, offset)
  {
    var bytes := Header(packet) + Payload(packet)[offset..offset + size];
    var next := new byte[|bytes|](i requires 0 <= i < |bytes| => bytes[i]);
    assert next[..] == bytes;
    SetFields(next, size + offset < |Payload(packet)|, offset / 8);
    PieceAt(packet, offset, size, block);
    PieceIsTile(packet, next[..], block, size);
    piece := next[..];
  }

  lemma PieceAt(p: ValidPacket, offset: nat, size: nat, block: nat)
    requires offset == 8 * block && offset + size <= |Payload(p)|
    ensures Piece(p, block, size) ==
            Finished(Header(p) + Payload(p)[offset..offset + size], size + offset < |Payload(p)|, offset / 8)
  {
  }

  // The three setters both ends of fragmentation call in a row.
  method SetFields(p: array<byte>, moreFrags: bool, offset: nat)
    requires 20 <= p.Length && 20 <= HeaderSize(p[..]) <= p.Length
    modifies p
    ensures p[..] == Finished(old(p[..]), moreFrags, offset)
  {
    SetFragmentInfo(p, false, moreFrags, offset);
    SetTotalLength(p);
    SetChecksum(p);
  }

  // What a receiver can rely on in every tiling, and so in every output of Fragments.
  lemma TileFields(fs: seq<ValidPacket>, p: ValidPacket, k: nat)
    requires Tiles(fs, p) && k < |fs|
    ensures var f := fs[k];
            && 8 * FragmentOffset(f) == StartOf(fs, k) && Payload(f) != []
            && (MoreFragments(f) <==> k < |fs| - 1)
            && (k < |fs| - 1 ==> |Payload(f)| == 8 * (FragmentOffset(fs[k + 1]) - FragmentOffset(f)))
            && Source(f) == Source(p) && Destination(f) == Destination(p)
            && Identification(f) == Identification(p) && TTL(f) == TTL(p) && Protocol(f) == Protocol(p)
  {
    assert TileAt(fs, p, k);
    SameHeaderFields(fs[k], p);
    StartOfNext(fs, k);
    assert fs[..|fs|] == fs;
    if k < |fs| - 1 {
      assert TileAt(fs, p, k + 1);
    }
  }

  lemma StartOfNext(fs: seq<ValidPacket>, k: nat)
    requires k < |fs|
    ensures StartOf(fs, k + 1) == StartOf(fs, k) + |Payload(fs[k])|
  {
    assert fs[..k + 1][..k] == fs[..k];
  }

  lemma FullTile(fs: seq<ValidPacket>, p: ValidPacket, max: nat, k: nat)
    requires IsSplit(fs, p, max) && k < |fs|
    ensures |Payload(fs[k])| <= max
    ensures k < |fs| - 1 ==> |Payload(fs[k])| == max
    ensures k == |fs| - 1 ==> StartOf(fs, k) + |Payload(fs[k])| == |Payload(p)|
  {
    assert LargeAt(fs, p, max, k);
    assert TileAt(fs, p, k);
    assert fs[..|fs|] == fs;
    StartOfNext(fs, k);
    if k < |fs| - 1 {
      assert TileAt(fs, p, k + 1);
    }
  }

  // Fragments respect the mtu and their header checksums verify.
  lemma FragmentsFit(fs: seq<ValidPacket>, p: ValidPacket, mtu: nat, k: nat)
    requires HeaderSize(p) <= mtu && IsSplit(fs, p, RoundDown(mtu - HeaderSize(p))) && k < |fs|
    ensures |fs[k]| <= mtu && HeaderSum(fs[k]) == 0 && !DontFragment(fs[k])
  {
    FullTile(fs, p, RoundDown(mtu - HeaderSize(p)), k);
    assert TileAt(fs, p, k);
    assert IsPiece(fs, p, k);
    PieceIsTile(p, fs[k], FragmentOffset(fs[k]), |Payload(fs[k])|);
  }

  lemma StartOfStep(fs: seq<ValidPacket>, p: ValidPacket, max: nat, k: nat)
    requires IsSplit(fs, p, max) && 0 < k < |fs|
    ensures StartOf(fs, k) == StartOf(fs, k - 1) + max
  {
    StartOfNext(fs, k - 1);
    FullTile(fs, p, max, k - 1);
  }

  lemma {:induction false} StartOfFull(fs: seq<ValidPacket>, p: ValidPacket, max: nat, k: nat)
    requires IsSplit(fs, p, max) && k < |fs|
    ensures StartOf(fs, k) == k * max
  {
    if k == 0 {
      assert fs[..0] == [];
    } else {
      StartOfFull(fs, p, max, k - 1);
      StartOfStep(fs, p, max, k);
      NextMultiple(k, max, StartOf(fs, k - 1), StartOf(fs, k));
    }
  }

  lemma NextMultiple(k: nat, max: nat, before: nat, after: nat)
    requires k > 0 && before == (k - 1) * max && after == before + max
    ensures after == k * max
  {
  }

  // No fragment but the last has room for eight bytes more under the mtu, and there are no more
  // fragments than that takes: the payload's length over the room for blocks of eight, rounded up.
  lemma FragmentsAreLarge(fs: seq<ValidPacket>, p: ValidPacket, mtu: nat)
    requires AreFragments(fs, p, mtu) && |p| >= mtu && fs != []
    ensures forall k :: 0 <= k < |fs| - 1 ==> |fs[k]| + 8 > mtu
    ensures var room := (mtu - HeaderSize(p)) / 8 * 8;
            (|fs| - 1) * room < |Payload(p)| <= |fs| * room
  {
    var room, n := RoundDown(mtu - HeaderSize(p)), |fs|;
    forall k | 0 <= k < n - 1
      ensures |fs[k]| + 8 > mtu
    {
      FullTile(fs, p, room, k);
      assert TileAt(fs, p, k);
    }
    StartOfFull(fs, p, room, n - 1);
    FullTile(fs, p, room, n - 1);
    assert TileAt(fs, p, n - 1);
  }

  // ----- Reassembly -----

  function Reassembled(fs: seq<ValidPacket>): Packet
    requires fs != []
  {
    Finished(Header(fs[0]) + Join(fs), false, 0)
  }

  // The packet a complete reassembly yields: p with its fragment fields cleared and its length
  // and checksum written anew.
  function Canonical(p: ValidPacket): Packet {
    Finished(p, false, 0)
  }

  lemma ReassemblyRestores(fs: seq<ValidPacket>, p: ValidPacket)
    requires Tiles(fs, p) && fs != []
    ensures Reassembled(fs) == Canonical(p)
  {
    assert TileAt(fs, p, 0);
    var r := Header(fs[0]) + Payload(p);
    assert forall i :: HeaderSize(p) <= i < |p| ==> r[i] == p[i];
    FinishedForgets(r, p, false, 0);
  }

  lemma PutWordBack(p: seq<byte>, i: nat, w: uint16)
    requires i + 1 < |p|
    ensures PutWord(PutWord(p, i, 0), i, w) == p <==> Word(p, i) == w
  {
    if Word(p, i) == w {
      assert p[i] == w / 0x100 && p[i + 1] == w % 0x100;
    }
  }

  // The restored packet is the original itself exactly when the original has its reserved bit
  // clear and its checksum as SetChecksum would write it.
  lemma CanonicalIsOriginal(p: ValidPacket)
    requires !DontFragment(p) && !MoreFragments(p) && FragmentOffset(p) == 0
    ensures Canonical(p) == p <==> p[6] < 128 && Word(p, 10) == Sum32(PutWord(p, 10, 0)[..HeaderSize(p)])
  {
    assert p[7] == 0 && (p[6] < 128 ==> p[6] == 0);
    if p[6] < 128 {
      PutWordBack(p, 2, |p|);
      assert WithTotalLength(WithFragmentInfo(p, false, false, 0)) == p;
      PutWordBack(p, 10, Sum32(PutWord(p, 10, 0)[..HeaderSize(p)]));
    } else {
      ChecksumKeeps(WithTotalLength(WithFragmentInfo(p, false, false, 0)));
    }
  }
}
