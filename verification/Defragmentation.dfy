// Reassembly of concurrently arriving fragments, keyed by identification and source address.

// The table of reconstructions as values.
module Reassembly {
  import opened Bytes
  import opened Wrappers
  import opened IPv4
  import opened Fragmentation

  // ----- One reconstruction -----

  // Insertion behind every fragment whose offset is not larger.
  function Insert(fs: seq<ValidPacket>, p: ValidPacket): (r: seq<ValidPacket>)
    ensures |r| == |fs| + 1
  {
    if fs == [] || FragmentOffset(fs[|fs| - 1]) <= FragmentOffset(p) then fs + [p]
    else Insert(fs[..|fs| - 1], p) + [fs[|fs| - 1]]
  }

  ghost predicate Sorted(fs: seq<ValidPacket>) {
    forall i, j :: 0 <= i < j < |fs| ==> FragmentOffset(fs[i]) <= FragmentOffset(fs[j])
  }

  // The slot a binary search for the first larger offset finds.
  lemma {:induction false} InsertAt(fs: seq<ValidPacket>, p: ValidPacket, k: nat)
    requires k <= |fs|
    requires forall i :: 0 <= i < k ==> FragmentOffset(fs[i]) <= FragmentOffset(p)
    requires forall i :: k <= i < |fs| ==> FragmentOffset(p) < FragmentOffset(fs[i])
    ensures Insert(fs, p) == fs[..k] + [p] + fs[k..]
  {
    var n := |fs|;
    if k < n {
      var front := fs[..n - 1];
      InsertAt(front, p, k);
      InFront(front, p, k, fs[n - 1]);
      assert fs == front + [fs[n - 1]];
    } else {
      assert fs[..k] == fs;
    }
  }

  lemma InFront(front: seq<ValidPacket>, p: ValidPacket, k: nat, last: ValidPacket)
    requires k <= |front|
    ensures front[..k] + [p] + front[k..] + [last] == (front + [last])[..k] + [p] + (front + [last])[k..]
  {
  }

  // Insertion loses and invents nothing.
  lemma {:induction false} InsertElements(fs: seq<ValidPacket>, p: ValidPacket)
    ensures multiset(Insert(fs, p)) == multiset(fs) + multiset{p}
    ensures forall q :: q in Insert(fs, p) <==> q == p || q in fs
  {
    var n := |fs|;
    if n > 0 {
      var front, last := fs[..n - 1], fs[n - 1];
      assert fs == front + [last];
      if FragmentOffset(p) < FragmentOffset(last) {
        InsertElements(front, p);
      }
    }
  }

  // Insertion keeps the offsets sorted, whatever arrives.
  lemma {:induction false} InsertKeepsSorted(fs: seq<ValidPacket>, p: ValidPacket)
    requires Sorted(fs)
    ensures Sorted(Insert(fs, p))
  {
    var n := |fs|;
    if n > 0 && FragmentOffset(p) < FragmentOffset(fs[n - 1]) {
      var front, last := fs[..n - 1], fs[n - 1];
      InsertKeepsSorted(front, p);
      InsertElements(front, p);
      var r := Insert(front, p);
      forall i | 0 <= i < n
        ensures FragmentOffset(r[i]) <= FragmentOffset(last)
      {
        assert r[i] in r;
      }
    }
  }

  // Every fragment starts where the ones before it end.
  ghost predicate Contiguous(fs: seq<ValidPacket>) {
    forall k :: 0 <= k < |fs| ==> FollowsOn(fs, k)
  }

  ghost predicate FollowsOn(fs: seq<ValidPacket>, k: nat)
    requires k < |fs|
  {
    8 * FragmentOffset(fs[k]) == StartOf(fs, k)
  }

  ghost predicate Ready(fs: seq<ValidPacket>)
    requires fs != []
  {
    !MoreFragments(fs[|fs| - 1]) && Contiguous(fs)
  }

  // ----- Duplicates -----

  // Two fragments with the same offset, the earlier one not empty.
  ghost predicate HasDuplicate(fs: seq<ValidPacket>) {
    exists i, j :: 0 <= i < j < |fs| && FragmentOffset(fs[i]) == FragmentOffset(fs[j]) && Payload(fs[i]) != []
  }

  lemma {:induction false} StartOfMonotone(fs: seq<ValidPacket>, i: nat, j: nat)
    requires i <= j <= |fs|
    ensures StartOf(fs, i) <= StartOf(fs, j)
  {
    if i < j {
      StartOfNext(fs, j - 1);
      StartOfMonotone(fs, i, j - 1);
    }
  }

  // A duplicate is not dropped on arrival, and from then on the packet is never ready.
  lemma DuplicateNeverReady(fs: seq<ValidPacket>)
    requires fs != [] && HasDuplicate(fs)
    ensures !Ready(fs)
  {
    var i, j :| 0 <= i < j < |fs| && FragmentOffset(fs[i]) == FragmentOffset(fs[j]) && Payload(fs[i]) != [];
    StartOfNext(fs, i);
    StartOfMonotone(fs, i + 1, j);
    assert !FollowsOn(fs, i) || !FollowsOn(fs, j);
  }

  lemma DuplicateIsInserted(fs: seq<ValidPacket>, p: ValidPacket)
    requires Sorted(fs) && exists q :: q in fs && FragmentOffset(q) == FragmentOffset(p) && Payload(q) != []
    ensures HasDuplicate(Insert(fs, p))
  {
    var k := FirstLarger(fs, p);
    InsertAt(fs, p, k);
    var q :| q in fs && FragmentOffset(q) == FragmentOffset(p) && Payload(q) != [];
    var i :| 0 <= i < |fs| && fs[i] == q;
    assert i < k;
    var r := Insert(fs, p);
    assert r[i] == q && r[k] == p;
  }

  lemma DuplicateStays(fs: seq<ValidPacket>, p: ValidPacket)
    requires Sorted(fs) && HasDuplicate(fs)
    ensures HasDuplicate(Insert(fs, p))
  {
    var k := FirstLarger(fs, p);
    InsertAt(fs, p, k);
    var i, j :| 0 <= i < j < |fs| && FragmentOffset(fs[i]) == FragmentOffset(fs[j]) && Payload(fs[i]) != [];
    AfterInsertion(fs, p, k, i);
    AfterInsertion(fs, p, k, j);
    DuplicateAt(Insert(fs, p), if i < k then i else i + 1, if j < k then j else j + 1, fs[i], fs[j]);
  }

  lemma AfterInsertion(fs: seq<ValidPacket>, p: ValidPacket, k: nat, i: nat)
    requires k <= |fs| && i < |fs|
    ensures (fs[..k] + [p] + fs[k..])[if i < k then i else i + 1] == fs[i]
  {
  }

  lemma DuplicateAt(fs: seq<ValidPacket>, i: nat, j: nat, p: ValidPacket, q: ValidPacket)
    requires i < j < |fs| && fs[i] == p && fs[j] == q
    requires FragmentOffset(p) == FragmentOffset(q) && Payload(p) != []
    ensures HasDuplicate(fs)
  {
  }

  lemma {:induction false} FirstLarger(fs: seq<ValidPacket>, p: ValidPacket) returns (k: nat)
    requires Sorted(fs)
    ensures k <= |fs|
    ensures forall i :: 0 <= i < k ==> FragmentOffset(fs[i]) <= FragmentOffset(p)
    ensures forall i :: k <= i < |fs| ==> FragmentOffset(p) < FragmentOffset(fs[i])
  {
    k := |fs|;
    while k > 0 && FragmentOffset(p) < FragmentOffset(fs[k - 1])
      invariant k <= |fs|
      invariant forall i :: k <= i < |fs| ==> FragmentOffset(p) < FragmentOffset(fs[i])
    {
      k := k - 1;
    }
  }

  // ----- The table -----

  datatype Reconstruction = Reconstruction(dropTime: int, identification: uint16, source: seq<byte>,
                                           fragments: seq<ValidPacket>) {
    predicate Matches(p: ValidPacket) {
      identification == Identification(p) && source == Source(p)
    }

    ghost predicate Valid() {
      fragments != [] && Sorted(fragments) && forall f :: f in fragments ==> Matches(f)
    }
  }

  type Table = seq<Reconstruction>

  predicate SameKey(a: Reconstruction, b: Reconstruction) {
    a.identification == b.identification && a.source == b.source
  }

  // At most one reconstruction per identification and source, each holding fragments of its own.
  ghost predicate ValidTable(t: Table) {
    && (forall r :: r in t ==> r.Valid())
    && (forall i, j :: 0 <= i < j < |t| ==> !SameKey(t[i], t[j]))
  }

  // The reconstructions that have not expired, in their order.
  function Live(t: Table, now: int): (r: Table)
    ensures forall x :: x in r <==> x in t && now < x.dropTime
  {
    if t == [] then []
    else
      var front, last := Live(t[..|t| - 1], now), t[|t| - 1];
      assert t == t[..|t| - 1] + [last];
      if now >= last.dropTime then front else front + [last]
  }

  // The first reconstruction p belongs to, or the length of the table.
  function Find(t: Table, p: ValidPacket): (j: nat)
    ensures j <= |t|
    ensures j < |t| ==> t[j].Matches(p)
    ensures forall i :: 0 <= i < j ==> !t[i].Matches(p)
  {
    if t == [] || t[0].Matches(p) then 0 else 1 + Find(t[1..], p)
  }

  function Started(p: ValidPacket, dropTime: int): Reconstruction {
    Reconstruction(dropTime, Identification(p), Source(p), [p])
  }

  // What a fragment of reconstruction j does: it is inserted, and a complete packet leaves.
  ghost function Accepted(t: Table, j: nat, p: ValidPacket): (Table, Option<Packet>)
    requires j < |t|
  {
    var fs := Insert(t[j].fragments, p);
    if Ready(fs) then (t[..j] + t[j + 1..], Some(Reassembled(fs)))
    else (t[j := t[j].(fragments := fs)], None)
  }

  // What AddPacket does at time `now`; a new reconstruction is kept until dropTime.
  ghost function AddPacket(t: Table, p: ValidPacket, now: int, dropTime: int): (Table, Option<Packet>) {
    var live := Live(t, now);
    var j := Find(live, p);
    if j == |live| then (live + [Started(p, dropTime)], None) else Accepted(live, j, p)
  }

  lemma AddPacketCases(t: Table, p: ValidPacket, now: int, dropTime: int, live: Table, j: nat)
    requires live == Live(t, now) && j == Find(live, p)
    ensures AddPacket(t, p, now, dropTime) ==
            if j == |live| then (live + [Started(p, dropTime)], None) else Accepted(live, j, p)
  {
  }

  lemma {:induction false} LiveKeepsValid(t: Table, now: int)
    requires ValidTable(t)
    ensures ValidTable(Live(t, now))
  {
    if t != [] {
      var front, last := t[..|t| - 1], t[|t| - 1];
      LiveKeepsValid(front, now);
      forall i | 0 <= i < |Live(front, now)|
        ensures !SameKey(Live(front, now)[i], last)
      {
        var x := Live(front, now)[i];
        assert x in front;
      }
    }
  }

  lemma ReplaceKeepsValid(t: Table, j: nat, r: Reconstruction)
    requires ValidTable(t) && j < |t| && r.Valid() && SameKey(r, t[j])
    ensures ValidTable(t[j := r])
  {
  }

  lemma RemoveKeepsValid(t: Table, j: nat)
    requires ValidTable(t) && j < |t|
    ensures ValidTable(t[..j] + t[j + 1..])
  {
    var u := t[..j] + t[j + 1..];
    forall i | 0 <= i < |u|
      ensures u[i].Valid()
    {
      assert u[i] == t[if i < j then i else i + 1];
    }
    forall a, b | 0 <= a < b < |u|
      ensures !SameKey(u[a], u[b])
    {
      assert u[a] == t[if a < j then a else a + 1] && u[b] == t[if b < j then b else b + 1];
    }
  }

  lemma AppendKeepsValid(t: Table, p: ValidPacket, dropTime: int)
    requires ValidTable(t) && Find(t, p) == |t|
    ensures ValidTable(t + [Started(p, dropTime)])
  {
  }

  // Every step keeps the table valid.
  lemma AddPacketKeepsValid(t: Table, p: ValidPacket, now: int, dropTime: int)
    requires ValidTable(t)
    ensures ValidTable(AddPacket(t, p, now, dropTime).0)
  {
    LiveKeepsValid(t, now);
    var live := Live(t, now);
    var j := Find(live, p);
    if j == |live| {
      AppendKeepsValid(live, p, dropTime);
    } else {
      assert live[j] in live;
      var fs := Insert(live[j].fragments, p);
      InsertKeepsSorted(live[j].fragments, p);
      InsertElements(live[j].fragments, p);
      RemoveKeepsValid(live, j);
      ReplaceKeepsValid(live, j, live[j].(fragments := fs));
    }
  }

  lemma StepKeepsValid(t: Table, p: ValidPacket, now: int, dropTime: int, u: Table, packet: Option<Packet>)
    requires ValidTable(t) && (u, packet) == AddPacket(t, p, now, dropTime)
    ensures ValidTable(u)
  {
    AddPacketKeepsValid(t, p, now, dropTime);
  }

  // ----- What a duplicate does to the table -----

  // The reconstruction with r's key and drop time holds a duplicate.
  ghost predicate Blocked(t: Table, r: Reconstruction) {
    exists q :: q in t && Blocks(q, r)
  }

  ghost predicate Blocks(q: Reconstruction, r: Reconstruction) {
    SameKey(q, r) && q.dropTime == r.dropTime && HasDuplicate(q.fragments)
  }

  lemma BlockedInserted(q: Reconstruction, r: Reconstruction, p: ValidPacket)
    requires q.Valid() && Blocks(q, r)
    ensures var fs := Insert(q.fragments, p);
            !Ready(fs) && Blocks(q.(fragments := fs), r)
  {
    DuplicateStays(q.fragments, p);
    DuplicateNeverReady(Insert(q.fragments, p));
  }

  lemma BlockedAccepts(t: Table, r: Reconstruction, p: ValidPacket, i: nat, j: nat)
    requires ValidTable(t) && i < |t| && Blocks(t[i], r) && j < |t| && t[j].Matches(p)
    ensures Blocked(Accepted(t, j, p).0, r)
    ensures r.Matches(p) ==> Accepted(t, j, p).1 == None
  {
    var u := Accepted(t, j, p).0;
    if i == j {
      assert t[i] in t;
      BlockedInserted(t[i], r, p);
      assert u[i] in u;
    } else {
      assert !SameKey(t[if i < j then i else j], t[if i < j then j else i]);
      var fs := Insert(t[j].fragments, p);
      var k := if Ready(fs) && j < i then i - 1 else i;
      assert u[k] == t[i];
    }
  }

  // Until it expires, the reconstruction of a duplicate stays blocked and its key gets nothing,
  // whatever arrives.
  lemma BlockedStep(t: Table, r: Reconstruction, p: ValidPacket, now: int, dropTime: int)
    requires ValidTable(t) && Blocked(t, r) && now < r.dropTime
    ensures Blocked(AddPacket(t, p, now, dropTime).0, r)
    ensures r.Matches(p) ==> AddPacket(t, p, now, dropTime).1 == None
  {
    var live := Live(t, now);
    LiveKeepsValid(t, now);
    var q :| q in t && Blocks(q, r);
    var i :| 0 <= i < |live| && live[i] == q;
    var j := Find(live, p);
    AddPacketCases(t, p, now, dropTime, live, j);
    if j == |live| {
      assert (live + [Started(p, dropTime)])[i] == q;
    } else {
      BlockedAccepts(live, r, p, i, j);
    }
  }

  datatype Input = Input(packet: ValidPacket, now: int, dropTime: int)

  ghost function AddAll(t: Table, ins: seq<Input>): Table {
    if ins == [] then t
    else
      var last := ins[|ins| - 1];
      AddPacket(AddAll(t, ins[..|ins| - 1]), last.packet, last.now, last.dropTime).0
  }

  lemma {:induction false} BlockedUntilExpiry(t: Table, r: Reconstruction, ins: seq<Input>)
    requires ValidTable(t) && Blocked(t, r) && forall x :: x in ins ==> x.now < r.dropTime
    ensures ValidTable(AddAll(t, ins)) && Blocked(AddAll(t, ins), r)
  {
    if ins != [] {
      var front, last := ins[..|ins| - 1], ins[|ins| - 1];
      assert forall x :: x in front ==> x in ins;
      BlockedUntilExpiry(t, r, front);
      AddPacketKeepsValid(AddAll(t, front), last.packet, last.now, last.dropTime);
      BlockedStep(AddAll(t, front), r, last.packet, last.now, last.dropTime);
    }
  }

  lemma BlockedDeliversNothing(t: Table, r: Reconstruction, ins: seq<Input>, next: Input)
    requires ValidTable(t) && Blocked(t, r) && forall x :: x in ins + [next] ==> x.now < r.dropTime
    requires r.Matches(next.packet)
    ensures AddPacket(AddAll(t, ins), next.packet, next.now, next.dropTime).1 == None
  {
    assert next in ins + [next] && forall x :: x in ins ==> x in ins + [next];
    BlockedUntilExpiry(t, r, ins);
    BlockedStep(AddAll(t, ins), r, next.packet, next.now, next.dropTime);
  }
}

// The program's objects: reconstructions updated in place inside a slice updated in place.
module Defragmenter {
  import opened Bytes
  import opened Wrappers
  import opened IPv4
  import opened Fragmentation
  import opened Reassembly

  class Ipv4Reconstruction {
    const DropTime: int
    const Identification: uint16
    const Source: seq<byte>
    var Fragments: seq<ValidPacket>

    ghost function Abs(): Reconstruction
      reads this
    {
      Reconstruction(DropTime, Identification, Source, Fragments)
    }

    constructor (dropTime: int, p: ValidPacket)
      ensures Abs() == Started(p, dropTime)
    {
      DropTime := dropTime;
      Identification := IPv4.Identification(p);
      Source := IPv4.Source(p);
      Fragments := [p];
    }

    // sort.Search for the first fragment with a larger offset, then an insertion there.
    method AddFragment(p: ValidPacket)
      requires Sorted(Fragments)
      modifies this
      ensures Fragments == Insert(old(Fragments), p)
    {
      var off := FragmentOffset(p);
      var idx, end := 0, |Fragments|;
      while idx < end
        invariant 0 <= idx <= end <= |Fragments| && Fragments == old(Fragments)
        invariant forall k :: 0 <= k < idx ==> FragmentOffset(Fragments[k]) <= off
        invariant forall k :: end <= k < |Fragments| ==> off < FragmentOffset(Fragments[k])
        decreases end - idx
      {
        var h := (idx + end) / 2;
        if !(off < FragmentOffset(Fragments[h])) {
          idx := h + 1;
        } else {
          end := h;
        }
      }
      InsertAt(Fragments, p, idx);
      if idx == |Fragments| {
        Fragments := Fragments + [p];
        return;
      }
      var off1 := FragmentOffset(Fragments[idx]);
      if off1 == off {
        // The test for a fragment received twice: it cannot succeed after this search.
        assert false;
      }
      Fragments := Fragments[..idx] + [p] + Fragments[idx..];
    }

    method Ready() returns (ready: bool)
      requires Fragments != []
      ensures ready == Reassembly.Ready(Fragments)
    {
      if MoreFragments(Fragments[|Fragments| - 1]) {
        return false;
      }
      var nextOff := 0;
      for i := 0 to |Fragments|
        invariant nextOff == StartOf(Fragments, i)
        invariant forall k :: 0 <= k < i ==> FollowsOn(Fragments, k)
      {
        if 8 * FragmentOffset(Fragments[i]) != nextOff {
          assert !FollowsOn(Fragments, i);
          return false;
        }
        StartOfNext(Fragments, i);
        nextOff := nextOff + |Payload(Fragments[i])|;
      }
      return true;
    }

    method Reassemble() returns (packet: Packet)
      requires Fragments != []
      ensures packet == Reassembled(Fragments)
    {
      var bytes := Header(Fragments[0]);
      for i := 0 to |Fragments|
        invariant bytes == Header(Fragments[0]) + Join(Fragments[..i])
      {
        assert Fragments[..i + 1][..i] == Fragments[..i];
        bytes := bytes + Payload(Fragments[i]);
      }
      assert Fragments[..|Fragments|] == Fragments;
      var next := new byte[|bytes|](i requires 0 <= i < |bytes| => bytes[i]);
      assert next[..] == bytes;
      SetFields(next, false, 0);
      packet := next[..];
    }
  }

  // Element by element, the table t describes the objects.
  ghost predicate Describes(recs: seq<Ipv4Reconstruction>, t: Table)
    reads recs
  {
    |recs| == |t| && forall i :: 0 <= i < |recs| ==> recs[i].Abs() == t[i]
  }

  ghost predicate Distinct(recs: seq<Ipv4Reconstruction>) {
    forall i, j :: 0 <= i < j < |recs| ==> recs[i] != recs[j]
  }

  lemma DistinctRemove(recs: seq<Ipv4Reconstruction>, j: nat)
    requires Distinct(recs) && j < |recs|
    ensures Distinct(recs[..j] + recs[j + 1..])
  {
  }

  lemma DescribesRemove(recs: seq<Ipv4Reconstruction>, t: Table, j: nat)
    requires Describes(recs, t) && j < |recs|
    ensures Describes(recs[..j] + recs[j + 1..], t[..j] + t[j + 1..])
  {
    var us, u := recs[..j] + recs[j + 1..], t[..j] + t[j + 1..];
    forall i | 0 <= i < |us|
      ensures us[i].Abs() == u[i]
    {
      var k := if i < j then i else i + 1;
      assert us[i] == recs[k] && u[i] == t[k];
    }
  }

  // One step of the clean-up loop: position j is the next to look at, done of all are looked at.
  lemma LiveStep(all: Table, done: nat, now: int, t: Table, j: nat)
    requires done < |all| && j < |t|
    requires t[..j] == Live(all[..done], now) && t[j..] == all[done..]
    ensures t[j] == all[done]
    ensures var next := Live(all[..done + 1], now);
            if now >= t[j].dropTime
            then (t[..j] + t[j + 1..])[..j] == next && (t[..j] + t[j + 1..])[j..] == all[done + 1..]
            else t[..j + 1] == next && t[j + 1..] == all[done + 1..]
  {
    assert t[j] == t[j..][0] && all[done] == all[done..][0];
    assert all[..done + 1][..done] == all[..done];
    assert t[j + 1..] == t[j..][1..] && all[done + 1..] == all[done..][1..];
    assert (t[..j] + t[j + 1..])[..j] == t[..j];
    assert (t[..j] + t[j + 1..])[j..] == t[j + 1..];
    assert t[..j + 1] == t[..j] + [t[j]];
  }

  class Ipv4Defragmenter {
    const timeout: int
    var reconstructions: seq<Ipv4Reconstruction>

    // The table the objects hold.
    ghost var table: Table

    ghost predicate Valid()
      reads this, reconstructions
    {
      Distinct(reconstructions) && Describes(reconstructions, table) && ValidTable(table)
    }

    constructor (timeoutNanos: int)
      ensures Valid() && table == [] && timeout == timeoutNanos
    {
      timeout := timeoutNanos;
      reconstructions := [];
      table := [];
    }

    // slices out one reconstruction, as OrderedDelete does.
    method Delete(j: nat)
      requires Distinct(reconstructions) && Describes(reconstructions, table) && j < |reconstructions|
      modifies this
      ensures Distinct(reconstructions) && Describes(reconstructions, table)
      ensures table == old(table[..j] + table[j + 1..])
      ensures forall r :: r in reconstructions ==> r in old(reconstructions)
    {
      DistinctRemove(reconstructions, j);
      DescribesRemove(reconstructions, table, j);
      reconstructions := reconstructions[..j] + reconstructions[j + 1..];
      table := table[..j] + table[j + 1..];
    }

    // Deletes expired reconstructions while walking over the slice.
    method DropOld(curTime: int)
      requires Valid()
      modifies this
      ensures Valid() && table == Live(old(table), curTime)
      ensures forall r :: r in reconstructions ==> r in old(reconstructions)
    {
      ghost var all := table;
      LiveKeepsValid(all, curTime);
      ghost var done := 0;
      var j := 0;
      while j < |reconstructions|
        invariant 0 <= j <= |reconstructions| && done + |reconstructions| - j == |all| && 0 <= done
        invariant Distinct(reconstructions) && Describes(reconstructions, table)
        invariant forall r :: r in reconstructions ==> r in old(reconstructions)
        invariant table[..j] == Live(all[..done], curTime) && table[j..] == all[done..]
        decreases |reconstructions| - j
      {
        var recon := reconstructions[j];
        assert recon.Abs() == table[j];
        LiveStep(all, done, curTime, table, j);
        if curTime >= recon.DropTime {
          Delete(j);
        } else {
          j := j + 1;
        }
        done := done + 1;
      }
      assert table[..j] == table && all[..done] == all;
    }

    // The branch of AddPacket for a known reconstruction.
    method Accept(j: nat, p: ValidPacket) returns (packet: Option<Packet>)
      requires Valid() && j < |reconstructions|
      modifies this, reconstructions[j]
      ensures (table, packet) == Accepted(old(table), j, p)
      ensures Distinct(reconstructions) && Describes(reconstructions, table)
    {
      var recon := reconstructions[j];
      assert table[j] in table && recon.Abs() == table[j];
      recon.AddFragment(p);
      table := table[j := recon.Abs()];
      assert Describes(reconstructions, table);
      var ready := recon.Ready();
      if !ready {
        return None;
      }
      var whole := recon.Reassemble();
      Delete(j);
      assert table == old(table)[..j] + old(table)[j + 1..];
      return Some(whole);
    }

    // The search loop of AddPacket.
    method Lookup(p: ValidPacket) returns (j: nat)
      requires Valid()
      ensures j == Find(table, p)
    {
      var source := IPv4.Source(p);
      j := 0;
      while j < |reconstructions|
        invariant 0 <= j <= |reconstructions|
        invariant forall i :: 0 <= i < j ==> !table[i].Matches(p)
      {
        var recon := reconstructions[j];
        assert table[j] == recon.Abs();
        if recon.Identification == IPv4.Identification(p) && source == recon.Source {
          return;
        }
        j := j + 1;
      }
    }

    // now is the time of the clean-up, later the time a new reconstruction is created.
    method AddPacket(p: ValidPacket, now: int, later: int) returns (packet: Option<Packet>)
      requires Valid()
      modifies this, reconstructions
      ensures Valid()
      ensures (table, packet) == Reassembly.AddPacket(old(table), p, now, later + timeout)
    {
      ghost var before := table;
      packet := CleanAndAdd(p, now, later);
      StepKeepsValid(before, p, now, later + timeout, table, packet);
    }

    // The body of AddPacket.
    method CleanAndAdd(p: ValidPacket, now: int, later: int) returns (packet: Option<Packet>)
      requires Valid()
      modifies this, reconstructions
      ensures Distinct(reconstructions) && Describes(reconstructions, table)
      ensures (table, packet) == Reassembly.AddPacket(old(table), p, now, later + timeout)
    {
      ghost var before := table;
      DropOld(now);
      var j := Lookup(p);
      AddPacketCases(before, p, now, later + timeout, table, j);
      assert j < |reconstructions| ==> reconstructions[j] in old(reconstructions);
      packet := AddAt(j, p, later);
    }

    // p goes to reconstruction j, or to a new one.
    method AddAt(j: nat, p: ValidPacket, later: int) returns (packet: Option<Packet>)
      requires Valid() && j <= |reconstructions|
      modifies this, if j < |reconstructions| then {reconstructions[j]} else {}
      ensures Distinct(reconstructions) && Describes(reconstructions, table)
      ensures (table, packet) == if j == |old(table)| then (old(table) + [Started(p, later + timeout)], None)
                                 else Accepted(old(table), j, p)
    {
      if j < |reconstructions| {
        packet := Accept(j, p);
      } else {
        Open(p, later + timeout);
        packet := None;
      }
    }

    method Open(p: ValidPacket, dropTime: int)
      requires Valid()
      modifies this
      ensures Distinct(reconstructions) && Describes(reconstructions, table)
      ensures table == old(table) + [Started(p, dropTime)]
      ensures forall r :: r in reconstructions ==> r in old(reconstructions) || fresh(r)
    {
      var started := new Ipv4Reconstruction(dropTime, p);
      reconstructions := reconstructions + [started];
      table := table + [started.Abs()];
    }
  }
}
