// Fragments of one packet, arriving in any order: the packet is ready exactly when each of its
// fragments has arrived once.
module DefragTheorem {
  import opened Bytes
  import opened Wrappers
  import opened Checksum
  import opened IPv4
  import opened Fragmentation
  import opened Reassembly

  // ----- The fragments of one packet, a subset at a time -----

  // The fragments whose index is in s, in order.
  function Pick(fs: seq<ValidPacket>, s: set<nat>): seq<ValidPacket> {
    if fs == [] then []
    else if |fs| - 1 in s then Pick(fs[..|fs| - 1], s) + [fs[|fs| - 1]]
    else Pick(fs[..|fs| - 1], s)
  }

  ghost predicate Increasing(fs: seq<ValidPacket>) {
    forall i, j :: 0 <= i < j < |fs| ==> FragmentOffset(fs[i]) < FragmentOffset(fs[j])
  }

  ghost predicate Whole(fs: seq<ValidPacket>, s: set<nat>) {
    forall i :: 0 <= i < |fs| ==> i in s
  }

  lemma {:induction false} PickElements(fs: seq<ValidPacket>, s: set<nat>)
    ensures forall f :: f in Pick(fs, s) ==> exists i :: 0 <= i < |fs| && i in s && fs[i] == f
    ensures Pick(fs, s) == [] ==> forall i :: 0 <= i < |fs| ==> i !in s
  {
    if fs != [] {
      var front := fs[..|fs| - 1];
      PickElements(front, s);
      forall f | f in Pick(fs, s)
        ensures exists i :: 0 <= i < |fs| && i in s && fs[i] == f
      {
        if f in Pick(front, s) {
          var i :| 0 <= i < |front| && i in s && front[i] == f;
          assert fs[i] == f;
        } else {
          assert fs[|fs| - 1] == f;
        }
      }
    }
  }

  lemma {:induction false} PickIgnoresBeyond(fs: seq<ValidPacket>, s: set<nat>, i: nat)
    requires |fs| <= i
    ensures Pick(fs, s + {i}) == Pick(fs, s)
  {
    if fs != [] {
      PickIgnoresBeyond(fs[..|fs| - 1], s, i);
    }
  }

  lemma {:induction false} PickNothing(fs: seq<ValidPacket>)
    ensures Pick(fs, {}) == []
  {
    if fs != [] {
      PickNothing(fs[..|fs| - 1]);
    }
  }

  lemma {:induction false} PickEverything(fs: seq<ValidPacket>, s: set<nat>)
    requires Whole(fs, s)
    ensures Pick(fs, s) == fs
  {
    if fs != [] {
      PickEverything(fs[..|fs| - 1], s);
    }
  }

  lemma InsertBefore(fs: seq<ValidPacket>, last: ValidPacket, p: ValidPacket)
    requires FragmentOffset(p) < FragmentOffset(last)
    ensures Insert(fs + [last], p) == Insert(fs, p) + [last]
  {
    assert (fs + [last])[..|fs|] == fs;
  }

  lemma InsertBehind(fs: seq<ValidPacket>, s: set<nat>, last: ValidPacket)
    requires forall i :: 0 <= i < |fs| ==> FragmentOffset(fs[i]) < FragmentOffset(last)
    ensures Insert(Pick(fs, s), last) == Pick(fs, s) + [last]
  {
    PickElements(fs, s);
    var picked := Pick(fs, s);
    if picked != [] {
      assert picked[|picked| - 1] in picked;
      var j :| 0 <= j < |fs| && j in s && fs[j] == picked[|picked| - 1];
    }
  }

  // Inserting a fragment not yet there gives the larger subset, whatever arrived before.
  lemma {:induction false} PickInsert(fs: seq<ValidPacket>, s: set<nat>, i: nat)
    requires Increasing(fs) && i < |fs| && i !in s
    ensures Insert(Pick(fs, s), fs[i]) == Pick(fs, s + {i})
  {
    var n := |fs|;
    var front, last := fs[..n - 1], fs[n - 1];
    if i == n - 1 {
      PickIgnoresBeyond(front, s, i);
      InsertBehind(front, s, last);
    } else {
      PickInsert(front, s, i);
      InsertBefore(Pick(front, s), last, fs[i]);
    }
  }

  lemma JoinedLength(fs: seq<ValidPacket>, f: ValidPacket, gs: seq<ValidPacket>)
    requires gs == fs + [f]
    ensures |Join(gs)| == |Join(fs)| + |Payload(f)|
  {
    StartOfAppend(fs, f, 0);
  }

  // A subset carries less than the whole unless it is the whole.
  lemma {:induction false} PickLength(fs: seq<ValidPacket>, s: set<nat>)
    requires forall f :: f in fs ==> Payload(f) != []
    ensures |Join(Pick(fs, s))| <= |Join(fs)|
    ensures |Join(Pick(fs, s))| == |Join(fs)| ==> Whole(fs, s)
  {
    if fs != [] {
      var front, last := fs[..|fs| - 1], fs[|fs| - 1];
      assert last in fs && forall f :: f in front ==> f in fs;
      PickLength(front, s);
      assert fs == front + [last];
      JoinedLength(front, last, fs);
      if |front| in s {
        JoinedLength(Pick(front, s), last, Pick(fs, s));
        WholeExtends(front, fs, s);
      }
    }
  }

  lemma WholeExtends(front: seq<ValidPacket>, fs: seq<ValidPacket>, s: set<nat>)
    requires |fs| == |front| + 1 && |front| in s
    ensures Whole(front, s) ==> Whole(fs, s)
  {
  }

  lemma TilesIncrease(fs: seq<ValidPacket>, p: ValidPacket)
    requires Tiles(fs, p)
    ensures Increasing(fs) && Contiguous(fs)
    ensures forall f :: f in fs ==> Payload(f) != []
  {
    forall i | 0 <= i < |fs|
      ensures FollowsOn(fs, i) && Payload(fs[i]) != []
    {
      TileFields(fs, p, i);
    }
    forall i, j | 0 <= i < j < |fs|
      ensures FragmentOffset(fs[i]) < FragmentOffset(fs[j])
    {
      assert FollowsOn(fs, i) && FollowsOn(fs, j);
      StartOfNext(fs, i);
      StartOfMonotone(fs, i + 1, j);
    }
  }

  // Without the last fragment, or with it but with a gap before it, nothing is ready.
  lemma NotReadyWithoutLast(fs: seq<ValidPacket>, p: ValidPacket, s: set<nat>)
    requires Tiles(fs, p) && Pick(fs, s) != [] && |fs| - 1 !in s
    ensures !Ready(Pick(fs, s))
  {
    var picked := Pick(fs, s);
    PickElements(fs, s);
    assert picked[|picked| - 1] in picked;
    var i :| 0 <= i < |fs| && i in s && fs[i] == picked[|picked| - 1];
    TileFields(fs, p, i);
  }

  lemma NotReadyWithGap(fs: seq<ValidPacket>, p: ValidPacket, s: set<nat>)
    requires Tiles(fs, p) && Pick(fs, s) != [] && |fs| - 1 in s && !Whole(fs, s)
    ensures !Ready(Pick(fs, s))
  {
    TilesIncrease(fs, p);
    var n := |fs|;
    var front, last := fs[..n - 1], fs[n - 1];
    var picked := Pick(front, s);
    assert !Whole(front, s);
    assert forall f :: f in front ==> f in fs;
    PickLength(front, s);
    assert FollowsOn(fs, n - 1) && 8 * FragmentOffset(last) == |Join(front)|;
    var all := picked + [last];
    assert all[..|picked|] == picked;
    assert StartOf(all, |picked|) == |Join(picked)|;
    assert !FollowsOn(all, |picked|);
  }

  // A set of fragments of a packet is ready exactly when it is all of them.
  lemma ReadyExactlyWhenWhole(fs: seq<ValidPacket>, p: ValidPacket, s: set<nat>)
    requires Tiles(fs, p) && Pick(fs, s) != []
    ensures Ready(Pick(fs, s)) <==> Whole(fs, s)
  {
    if Whole(fs, s) {
      TilesIncrease(fs, p);
      PickEverything(fs, s);
      TileFields(fs, p, |fs| - 1);
    } else if |fs| - 1 in s {
      NotReadyWithGap(fs, p, s);
    } else {
      NotReadyWithoutLast(fs, p, s);
    }
  }

  // ----- Arrivals one by one, in any order, repeated or not -----

  // The fragments of the given indices, inserted one after the other.
  function Collect(fs: seq<ValidPacket>, idx: seq<nat>): (r: seq<ValidPacket>)
    requires InRange(fs, idx)
    ensures |r| == |idx|
  {
    if idx == [] then [] else Insert(Collect(fs, idx[..|idx| - 1]), fs[idx[|idx| - 1]])
  }

  ghost predicate InRange(fs: seq<ValidPacket>, idx: seq<nat>) {
    forall k :: 0 <= k < |idx| ==> idx[k] < |fs|
  }

  ghost predicate NoRepeat(idx: seq<nat>) {
    forall i, j :: 0 <= i < j < |idx| ==> idx[i] != idx[j]
  }

  function Elements(idx: seq<nat>): set<nat> {
    set i | i in idx
  }

  lemma CollectAppend(fs: seq<ValidPacket>, idx: seq<nat>, i: nat)
    requires InRange(fs, idx) && i < |fs|
    ensures InRange(fs, idx + [i]) && Collect(fs, idx + [i]) == Insert(Collect(fs, idx), fs[i])
  {
    assert (idx + [i])[..|idx|] == idx;
  }

  lemma ElementsAppend(idx: seq<nat>, i: nat)
    ensures Elements(idx + [i]) == Elements(idx) + {i}
    ensures NoRepeat(idx + [i]) <==> NoRepeat(idx) && i !in idx
  {
    var next := idx + [i];
    assert next[..|idx|] == idx && next[|idx|] == i;
    if NoRepeat(next) {
      assert forall j :: 0 <= j < |idx| ==> next[j] != next[|idx|];
    }
  }

  lemma {:induction false} CollectKeeps(fs: seq<ValidPacket>, idx: seq<nat>)
    requires InRange(fs, idx)
    ensures Sorted(Collect(fs, idx))
    ensures forall i :: i in idx ==> fs[i] in Collect(fs, idx)
  {
    if idx != [] {
      var front, last := idx[..|idx| - 1], idx[|idx| - 1];
      assert idx == front + [last];
      CollectKeeps(fs, front);
      InsertKeepsSorted(Collect(fs, front), fs[last]);
      InsertElements(Collect(fs, front), fs[last]);
    }
  }

  // Without repetition the arrival order does not matter.
  lemma {:induction false} CollectIsPick(fs: seq<ValidPacket>, idx: seq<nat>)
    requires InRange(fs, idx) && Increasing(fs) && NoRepeat(idx)
    ensures Collect(fs, idx) == Pick(fs, Elements(idx))
  {
    if idx == [] {
      PickNothing(fs);
      assert Elements(idx) == {};
    } else {
      var front, last := idx[..|idx| - 1], idx[|idx| - 1];
      assert idx == front + [last];
      ElementsAppend(front, last);
      CollectIsPick(fs, front);
      PickInsert(fs, Elements(front), last);
    }
  }

  // With a repetition two fragments claim the same place.
  lemma {:induction false} RepeatIsDuplicate(fs: seq<ValidPacket>, idx: seq<nat>)
    requires InRange(fs, idx) && !NoRepeat(idx)
    requires forall f :: f in fs ==> Payload(f) != []
    ensures HasDuplicate(Collect(fs, idx))
  {
    var front, last := idx[..|idx| - 1], idx[|idx| - 1];
    assert idx == front + [last];
    ElementsAppend(front, last);
    CollectKeeps(fs, front);
    if NoRepeat(front) {
      DuplicateIsInserted(Collect(fs, front), fs[last]);
    } else {
      RepeatIsDuplicate(fs, front);
      DuplicateStays(Collect(fs, front), fs[last]);
    }
  }

  // Whatever arrives of a packet, in whatever order: it is ready exactly when each of its
  // fragments has arrived once.
  lemma ReadyExactlyWhenEachOnce(fs: seq<ValidPacket>, p: ValidPacket, idx: seq<nat>)
    requires Tiles(fs, p) && InRange(fs, idx) && idx != []
    ensures Ready(Collect(fs, idx)) <==> NoRepeat(idx) && Whole(fs, Elements(idx))
  {
    TilesIncrease(fs, p);
    if NoRepeat(idx) {
      CollectIsPick(fs, idx);
      ReadyExactlyWhenWhole(fs, p, Elements(idx));
    } else {
      RepeatIsDuplicate(fs, idx);
      DuplicateNeverReady(Collect(fs, idx));
    }
  }

  // For instance: the first fragment of two arrives twice. All of the packet is there, and it is
  // not ready.
  lemma FirstFragmentTwice(fs: seq<ValidPacket>, p: ValidPacket, once: seq<nat>, twice: seq<nat>)
    requires Tiles(fs, p) && |fs| == 2 && once == [0, 1] && twice == [0, 0, 1]
    ensures Whole(fs, Elements(twice))
    ensures Ready(Collect(fs, once)) && !Ready(Collect(fs, twice))
  {
    assert once[0] == 0 && once[1] == 1 && twice[1] == 0 && twice[2] == 1;
    ReadyExactlyWhenEachOnce(fs, p, once);
    ReadyExactlyWhenEachOnce(fs, p, twice);
    assert twice[0] == twice[1];
  }

  // A packet of sixteen payload bytes is such a packet, with pieces of eight.
  lemma TwoPieces(p: ValidPacket, f: ValidPacket, g: ValidPacket)
    requires |Payload(p)| == 16 && f == Piece(p, 0, 8) && g == Piece(p, 1, 8)
    ensures Tiles([f, g], p)
  {
    PieceIsTile(p, f, 0, 8);
    PieceIsTile(p, g, 1, 8);
    TwoTiles(p, f, g);
  }

  lemma TwoTiles(p: ValidPacket, f: ValidPacket, g: ValidPacket)
    requires |Payload(p)| == 16 && IsTile(f, p, 0) && IsTile(g, p, 8) && |Payload(f)| == |Payload(g)| == 8
    ensures Tiles([f, g], p)
  {
    StartOfAppend([], f, 0);
    TilesExtend([], f, p);
    assert [] + [f] == [f] && [f] + [g] == [f, g];
    StartOfAppend([f], g, 0);
    TilesExtend([f], g, p);
    PrefixExtends(Payload(p), 8, 16);
  }

  // ----- Packets as they are sent -----

  predicate IsFragment(p: ValidPacket) {
    MoreFragments(p) || FragmentOffset(p) != 0
  }

  // A packet as a sender transmits it: as it is, or split.
  datatype Flow = Flow(original: ValidPacket, fragments: seq<ValidPacket>) {
    ghost predicate Valid() {
      && !IsFragment(original)
      && fragments != []
      && (fragments == [original]
          || (Tiles(fragments, original) && Exact(fragments, original) && !DontFragment(original)))
    }

    // What a receiver should get.
    function Restored(): Packet {
      if fragments == [original] then original else Canonical(original)
    }

    predicate Owns(r: Reconstruction) {
      r.identification == Identification(original) && r.source == Source(original)
    }
  }

  lemma SplitMakesFlow(fs: seq<ValidPacket>, p: ValidPacket, max: nat)
    requires IsSplit(fs, p, max) && Payload(p) != [] && !DontFragment(p) && !IsFragment(p)
    ensures fs != [] && Flow(p, fs).Valid()
  {
  }

  // Whatever the sender transmits for an unfragmented packet is such a flow, unless it is nothing.
  lemma FragmentsMakeFlow(fs: seq<ValidPacket>, p: ValidPacket, mtu: int)
    requires AreFragments(fs, p, mtu) && !IsFragment(p) && !SplitPanics(p, mtu)
    ensures fs != [] ==> Flow(p, fs).Valid()
    ensures fs == [] <==> |p| >= mtu && (DontFragment(p) || mtu < HeaderSize(p) + 8)
  {
    if |p| >= mtu && !DontFragment(p) && mtu >= HeaderSize(p) + 8 {
      SplitMakesFlow(fs, p, RoundDown(mtu - HeaderSize(p)));
    }
  }

  // The receiver gets the original itself exactly when it was not split, or has its reserved bit
  // clear and its checksum as SetChecksum would write it.
  lemma RestoredIsOriginal(flow: Flow)
    requires flow.Valid()
    ensures var p := flow.original;
            flow.Restored() == p <==>
              flow.fragments == [p] || (p[6] < 128 && Word(p, 10) == Sum32(PutWord(p, 10, 0)[..HeaderSize(p)]))
  {
    if flow.fragments != [flow.original] {
      CanonicalIsOriginal(flow.original);
    }
  }

  // A fragment belongs to exactly the reconstructions its flow owns.
  lemma FragmentKey(flow: Flow, i: nat, r: Reconstruction)
    requires flow.Valid() && i < |flow.fragments|
    ensures r.Matches(flow.fragments[i]) <==> flow.Owns(r)
  {
    if flow.fragments != [flow.original] {
      TileFields(flow.fragments, flow.original, i);
    }
  }

  lemma WholePiece(p: ValidPacket)
    ensures Piece(p, 0, |Payload(p)|) == Canonical(p)
  {
    assert Header(p) + Payload(p)[0..|Payload(p)|] == p;
  }

  lemma SoleFragment(fs: seq<ValidPacket>, p: ValidPacket)
    requires Tiles(fs, p) && Exact(fs, p) && |fs| == 1
    ensures fs[0] == Canonical(p)
  {
    assert fs[..0] == [] && fs[..1] == fs;
    assert IsPiece(fs, p, 0);
    TileFields(fs, p, 0);
    StartOfNext(fs, 0);
    assert FragmentOffset(fs[0]) == 0 && |Payload(fs[0])| == |Payload(p)|;
    WholePiece(p);
  }

  lemma TileIsFragment(fs: seq<ValidPacket>, p: ValidPacket, i: nat)
    requires Tiles(fs, p) && i < |fs|
    ensures IsFragment(fs[i]) <==> |fs| > 1
  {
    TilesIncrease(fs, p);
    TileFields(fs, p, i);
    assert fs[..0] == [];
    TileFields(fs, p, 0);
  }

  lemma FragmentsAreFragments(flow: Flow, i: nat)
    requires flow.Valid() && i < |flow.fragments|
    ensures IsFragment(flow.fragments[i]) <==> |flow.fragments| > 1
    ensures |flow.fragments| == 1 ==> flow.fragments[0] == flow.Restored()
  {
    if flow.fragments != [flow.original] {
      TileIsFragment(flow.fragments, flow.original, i);
      if |flow.fragments| == 1 {
        SoleFragment(flow.fragments, flow.original);
      }
    }
  }
}
