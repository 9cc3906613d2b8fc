// Whole runs of the defragmenter. Seen from one packet the table is a machine with two states,
// idle or collecting, which no other packet disturbs; that holds in every run, with fragments
// interleaved, permuted, repeated and expired at will. When nothing is repeated and nothing
// expires, each packet comes out whole, once, when its last fragment arrives.
module DefragRuns {
  import opened Bytes
  import opened Wrappers
  import opened IPv4
  import opened Fragmentation
  import opened Reassembly
  import opened DefragTheorem

  // Fragment frag of flow `flow` arriving at time now; dropTime is when a reconstruction begun
  // at that moment expires.
  datatype Arrival = Arrival(flow: nat, frag: nat, now: int, dropTime: int)

  // The incoming filter: whole packets pass, fragments go to the table.
  ghost function Incoming(t: Table, p: ValidPacket, now: int, dropTime: int): (Table, Option<Packet>) {
    if IsFragment(p) then AddPacket(t, p, now, dropTime) else (t, Some(p))
  }

  ghost predicate ValidFlows(flows: seq<Flow>) {
    forall k :: 0 <= k < |flows| ==> flows[k].Valid()
  }

  ghost predicate ValidArrival(flows: seq<Flow>, a: Arrival) {
    a.flow < |flows| && a.frag < |flows[a.flow].fragments|
  }

  ghost predicate ValidArrivals(flows: seq<Flow>, arr: seq<Arrival>) {
    forall n :: 0 <= n < |arr| ==> ValidArrival(flows, arr[n])
  }

  ghost function TableAfter(flows: seq<Flow>, arr: seq<Arrival>): Table
    requires ValidArrivals(flows, arr)
    decreases |arr|, 1
  {
    if arr == [] then [] else LastStep(flows, arr).0
  }

  // The step made by the last arrival.
  ghost function LastStep(flows: seq<Flow>, arr: seq<Arrival>): (Table, Option<Packet>)
    requires ValidArrivals(flows, arr) && arr != []
    decreases |arr|, 0
  {
    var a := arr[|arr| - 1];
    Incoming(TableAfter(flows, arr[..|arr| - 1]), flows[a.flow].fragments[a.frag], a.now, a.dropTime)
  }

  // ----- One packet at the receiver -----

  // Idle, or collecting since a fragment found nothing to join, with the fragments arrived since
  // in their order.
  datatype Episode = Idle | Open(dropTime: int, got: seq<nat>)

  function Expired(e: Episode, now: int): Episode {
    if e.Open? && now >= e.dropTime then Idle else e
  }

  // Each fragment has arrived once.
  ghost predicate EachOnce(flow: Flow, got: seq<nat>) {
    NoRepeat(got) && Whole(flow.fragments, Elements(got))
  }

  // What the arrival of fragment i does, and whether the packet is delivered.
  ghost function Receive(flow: Flow, e: Episode, i: nat, dropTime: int): (Episode, bool) {
    match e
    case Idle => (Open(dropTime, [i]), false)
    case Open(d, got) => if EachOnce(flow, got + [i]) then (Idle, true) else (Open(d, got + [i]), false)
  }

  // All packets side by side: the passing of time is common to them, all else is each one's own.
  ghost function Aged(s: seq<Episode>, now: int): (r: seq<Episode>)
    ensures |r| == |s| && forall k :: 0 <= k < |s| ==> r[k] == Expired(s[k], now)
  {
    seq(|s|, k requires 0 <= k < |s| => Expired(s[k], now))
  }

  ghost function Step(flows: seq<Flow>, s: seq<Episode>, a: Arrival): (r: (seq<Episode>, Option<Packet>))
    requires |s| == |flows| && ValidArrival(flows, a)
    ensures |r.0| == |s|
  {
    var flow, live := flows[a.flow], Aged(s, a.now);
    if |flow.fragments| == 1 then (s, Some(flow.Restored()))
    else
      var r := Receive(flow, live[a.flow], a.frag, a.dropTime);
      (live[a.flow := r.0], if r.1 then Some(flow.Restored()) else None)
  }

  ghost function After(flows: seq<Flow>, arr: seq<Arrival>): (s: seq<Episode>)
    requires ValidArrivals(flows, arr)
    ensures |s| == |flows|
  {
    if arr == [] then seq(|flows|, _ => Idle)
    else Step(flows, After(flows, arr[..|arr| - 1]), arr[|arr| - 1]).0
  }

  // ----- The table is those machines -----

  // A receiver cannot tell their fragments apart.
  predicate Alike(f: Flow, g: Flow) {
    && Identification(f.original) == Identification(g.original) && Source(f.original) == Source(g.original)
    && |f.fragments| > 1 && |g.fragments| > 1
  }

  // While a packet is being collected no fragment of another one like it arrives.
  ghost predicate Clear(flows: seq<Flow>, s: seq<Episode>, a: Arrival)
    requires |s| == |flows| && a.flow < |flows|
  {
    forall k :: 0 <= k < |flows| && k != a.flow && Alike(flows[k], flows[a.flow]) ==> Expired(s[k], a.now).Idle?
  }

  ghost predicate Separate(flows: seq<Flow>, arr: seq<Arrival>) {
    ValidArrivals(flows, arr) && forall n :: 0 <= n < |arr| ==> Clear(flows, After(flows, arr[..n]), arr[n])
  }

  // That is so in any run when no two split packets share source and identification.
  lemma UniqueKeysSeparate(flows: seq<Flow>, arr: seq<Arrival>)
    requires ValidArrivals(flows, arr)
    requires forall k, l :: 0 <= k < l < |flows| ==> !Alike(flows[k], flows[l])
    ensures Separate(flows, arr)
  {
  }

  // The reconstruction of a packet being collected.
  ghost predicate Mirror(r: Reconstruction, flow: Flow, e: Episode) {
    && flow.Owns(r) && |flow.fragments| > 1
    && e.Open? && e.dropTime == r.dropTime && e.got != [] && InRange(flow.fragments, e.got)
    && r.fragments == Collect(flow.fragments, e.got)
  }

  ghost predicate Mirrored(r: Reconstruction, flows: seq<Flow>, s: seq<Episode>)
    requires |s| == |flows|
  {
    exists k :: 0 <= k < |s| && Mirror(r, flows[k], s[k])
  }

  ghost predicate HasMirror(t: Table, flow: Flow, e: Episode) {
    exists r :: r in t && Mirror(r, flow, e)
  }

  // The table holds one reconstruction for each packet being collected, and nothing else.
  ghost predicate Mirrors(t: Table, flows: seq<Flow>, s: seq<Episode>) {
    && |s| == |flows|
    && (forall r :: r in t ==> Mirrored(r, flows, s))
    && (forall k :: 0 <= k < |s| && s[k].Open? ==> HasMirror(t, flows[k], s[k]))
  }

  lemma LiveMirrors(t: Table, flows: seq<Flow>, s: seq<Episode>, now: int)
    requires Mirrors(t, flows, s)
    ensures Mirrors(Live(t, now), flows, Aged(s, now))
  {
    var live, l := Live(t, now), Aged(s, now);
    forall r | r in live
      ensures Mirrored(r, flows, l)
    {
      var k :| 0 <= k < |s| && Mirror(r, flows[k], s[k]);
      assert Mirror(r, flows[k], l[k]);
    }
    forall k | 0 <= k < |l| && l[k].Open?
      ensures HasMirror(live, flows[k], l[k])
    {
      var r :| r in t && Mirror(r, flows[k], s[k]);
      assert r in live;
    }
  }

  // Packet c was split, and no other like it is being collected.
  ghost predicate Alone(flows: seq<Flow>, s: seq<Episode>, c: nat)
    requires |s| == |flows|
  {
    && c < |s| && |flows[c].fragments| > 1
    && forall k :: 0 <= k < |s| && k != c && Alike(flows[k], flows[c]) ==> s[k].Idle?
  }

  // Only the reconstruction and the state of packet c have changed.
  lemma MirrorsUpdated(t: Table, u: Table, flows: seq<Flow>, s: seq<Episode>, c: nat, e: Episode)
    requires Mirrors(t, flows, s) && Alone(flows, s, c)
    requires forall r :: r in t && !flows[c].Owns(r) ==> r in u
    requires forall r :: r in u ==> (r in t && !flows[c].Owns(r)) || Mirror(r, flows[c], e)
    requires e.Open? ==> HasMirror(u, flows[c], e)
    ensures Mirrors(u, flows, s[c := e])
  {
    var next := s[c := e];
    forall r | r in u
      ensures Mirrored(r, flows, next)
    {
      if r in t && !flows[c].Owns(r) {
        var k :| 0 <= k < |s| && Mirror(r, flows[k], s[k]);
        assert Mirror(r, flows[k], next[k]);
      } else {
        assert Mirror(r, flows[c], next[c]);
      }
    }
    forall k | 0 <= k < |next| && next[k].Open?
      ensures HasMirror(u, flows[k], next[k])
    {
      if k != c {
        var r :| r in t && Mirror(r, flows[k], s[k]);
        assert !flows[c].Owns(r);
        assert r in u;
      }
    }
  }

  // The only packet that can own a reconstruction the arriving fragment matches is its own.
  lemma OwnerMirrors(t: Table, flows: seq<Flow>, s: seq<Episode>, c: nat, r: Reconstruction)
    requires Mirrors(t, flows, s) && Alone(flows, s, c)
    requires r in t && flows[c].Owns(r)
    ensures Mirror(r, flows[c], s[c])
  {
    var k :| 0 <= k < |s| && Mirror(r, flows[k], s[k]);
  }

  lemma OthersNotOwned(t: Table, flow: Flow, j: nat)
    requires ValidTable(t) && j < |t| && flow.Owns(t[j])
    ensures forall i :: 0 <= i < |t| && i != j ==> !flow.Owns(t[i])
  {
    forall i | 0 <= i < |t| && i != j
      ensures !flow.Owns(t[i])
    {
      assert !SameKey(t[if i < j then i else j], t[if i < j then j else i]);
    }
  }

  lemma RemoveElements(t: Table, flow: Flow, j: nat)
    requires ValidTable(t) && j < |t| && flow.Owns(t[j])
    ensures forall r :: r in t[..j] + t[j + 1..] <==> r in t && !flow.Owns(r)
  {
    OthersNotOwned(t, flow, j);
    var u := t[..j] + t[j + 1..];
    forall i | 0 <= i < |u|
      ensures u[i] in t && !flow.Owns(u[i])
    {
      assert u[i] == t[if i < j then i else i + 1];
    }
    forall i | 0 <= i < |t| && i != j
      ensures t[i] in u
    {
      assert u[if i < j then i else i - 1] == t[i];
    }
  }

  lemma ReplaceElements(t: Table, flow: Flow, j: nat, g: Reconstruction)
    requires ValidTable(t) && j < |t| && flow.Owns(t[j]) && flow.Owns(g)
    ensures forall r :: r in t[j := g] <==> r == g || (r in t && !flow.Owns(r))
  {
    OthersNotOwned(t, flow, j);
    var u := t[j := g];
    forall i | 0 <= i < |u|
      ensures u[i] == g || (u[i] in t && !flow.Owns(u[i]))
    {
      assert i != j ==> u[i] == t[i];
    }
    forall i | 0 <= i < |t| && i != j
      ensures t[i] in u
    {
      assert u[i] == t[i];
    }
    assert u[j] == g;
  }

  // A new reconstruction g for packet c, which had none.
  lemma Opened(t: Table, flows: seq<Flow>, s: seq<Episode>, c: nat, g: Reconstruction, e: Episode)
    requires Mirrors(t, flows, s) && Alone(flows, s, c) && Mirror(g, flows[c], e)
    requires forall r :: r in t ==> !flows[c].Owns(r)
    ensures s[c].Idle? && Mirrors(t + [g], flows, s[c := e])
  {
    assert g in t + [g];
    MirrorsUpdated(t, t + [g], flows, s, c, e);
  }

  // Reconstruction j of packet c leaves, or is replaced by g.
  lemma LeftOrReplaced(t: Table, flows: seq<Flow>, s: seq<Episode>, c: nat, j: nat, g: Reconstruction, e: Episode)
    requires ValidTable(t) && Mirrors(t, flows, s) && Alone(flows, s, c)
    requires j < |t| && flows[c].Owns(t[j]) && Mirror(g, flows[c], e)
    ensures Mirrors(t[..j] + t[j + 1..], flows, s[c := Idle])
    ensures Mirrors(t[j := g], flows, s[c := e])
  {
    RemoveElements(t, flows[c], j);
    MirrorsUpdated(t, t[..j] + t[j + 1..], flows, s, c, Idle);
    ReplaceElements(t, flows[c], j, g);
    assert g in t[j := g];
    MirrorsUpdated(t, t[j := g], flows, s, c, e);
  }

  lemma StartedMirrors(flow: Flow, i: nat, g: Reconstruction, dropTime: int)
    requires flow.Valid() && |flow.fragments| > 1 && i < |flow.fragments|
    requires g == Started(flow.fragments[i], dropTime)
    ensures Mirror(g, flow, Open(dropTime, [i]))
  {
    FragmentKey(flow, i, g);
    CollectAppend(flow.fragments, [], i);
    assert [] + [i] == [i];
  }

  // A further fragment makes the reconstruction ready exactly when every fragment has now arrived
  // once, and then the packet is restored.
  lemma ReadyRestores(flow: Flow, fs: seq<ValidPacket>, got: seq<nat>)
    requires flow.Valid() && |flow.fragments| > 1 && InRange(flow.fragments, got) && got != []
    requires fs == Collect(flow.fragments, got)
    ensures Ready(fs) <==> EachOnce(flow, got)
    ensures Ready(fs) ==> Reassembled(fs) == flow.Restored()
  {
    ReadyExactlyWhenEachOnce(flow.fragments, flow.original, got);
    if Ready(fs) {
      TilesIncrease(flow.fragments, flow.original);
      CollectIsPick(flow.fragments, got);
      PickEverything(flow.fragments, Elements(got));
      RestoredByReassembly(flow, fs);
    }
  }

  lemma RestoredByReassembly(flow: Flow, fs: seq<ValidPacket>)
    requires flow.Valid() && |flow.fragments| > 1 && fs == flow.fragments
    ensures Reassembled(fs) == flow.Restored()
  {
    ReassemblyRestores(fs, flow.original);
  }

  // The first fragment to arrive opens a reconstruction.
  lemma OpeningStep(t: Table, flows: seq<Flow>, s: seq<Episode>, a: Arrival)
    requires Mirrors(t, flows, s) && ValidArrival(flows, a) && flows[a.flow].Valid() && Alone(flows, s, a.flow)
    requires Find(t, flows[a.flow].fragments[a.frag]) == |t|
    ensures s[a.flow].Idle?
    ensures Mirrors(t + [Started(flows[a.flow].fragments[a.frag], a.dropTime)], flows,
                    s[a.flow := Open(a.dropTime, [a.frag])])
  {
    var flow := flows[a.flow];
    var g := Started(flow.fragments[a.frag], a.dropTime);
    StartedMirrors(flow, a.frag, g, a.dropTime);
    forall r | r in t
      ensures !flow.Owns(r)
    {
      FragmentKey(flow, a.frag, r);
    }
    Opened(t, flows, s, a.flow, g, Open(a.dropTime, [a.frag]));
  }

  // A further one joins it; when each fragment has arrived once the packet leaves, restored.
  lemma GrowingStep(t: Table, flows: seq<Flow>, s: seq<Episode>, a: Arrival, j: nat)
    requires ValidTable(t) && Mirrors(t, flows, s)
    requires ValidArrival(flows, a) && flows[a.flow].Valid() && Alone(flows, s, a.flow)
    requires j < |t| && t[j].Matches(flows[a.flow].fragments[a.frag])
    ensures s[a.flow].Open?
    ensures var r := Receive(flows[a.flow], s[a.flow], a.frag, a.dropTime);
            var step := Accepted(t, j, flows[a.flow].fragments[a.frag]);
            && Mirrors(step.0, flows, s[a.flow := r.0])
            && step.1 == if r.1 then Some(flows[a.flow].Restored()) else None
  {
    var flow := flows[a.flow];
    FragmentKey(flow, a.frag, t[j]);
    OwnerMirrors(t, flows, s, a.flow, t[j]);
    var d, got := s[a.flow].dropTime, s[a.flow].got + [a.frag];
    CollectAppend(flow.fragments, s[a.flow].got, a.frag);
    var fs := Insert(t[j].fragments, flow.fragments[a.frag]);
    var g := t[j].(fragments := fs);
    assert Mirror(g, flow, Open(d, got));
    LeftOrReplaced(t, flows, s, a.flow, j, g, Open(d, got));
    ReadyRestores(flow, fs, got);
  }

  ghost predicate Arrives(flows: seq<Flow>, s: seq<Episode>, a: Arrival) {
    |s| == |flows| && ValidArrival(flows, a) && Clear(flows, s, a)
  }

  // The table step and the machine step agree.
  ghost predicate Agree(step: (Table, Option<Packet>), flows: seq<Flow>, next: (seq<Episode>, Option<Packet>)) {
    Mirrors(step.0, flows, next.0) && step.1 == next.1
  }

  lemma LiveStep(t: Table, flows: seq<Flow>, s: seq<Episode>, a: Arrival, p: ValidPacket, step: (Table, Option<Packet>))
    requires ValidTable(t) && Mirrors(t, flows, s)
    requires ValidArrival(flows, a) && flows[a.flow].Valid() && Alone(flows, s, a.flow)
    requires p == flows[a.flow].fragments[a.frag]
    requires step == if Find(t, p) == |t| then (t + [Started(p, a.dropTime)], None) else Accepted(t, Find(t, p), p)
    ensures var r := Receive(flows[a.flow], s[a.flow], a.frag, a.dropTime);
            Agree(step, flows, (s[a.flow := r.0], if r.1 then Some(flows[a.flow].Restored()) else None))
  {
    if Find(t, p) == |t| {
      OpeningStep(t, flows, s, a);
    } else {
      GrowingStep(t, flows, s, a, Find(t, p));
    }
  }

  // A fragment of a packet sent in several.
  lemma FragmentStep(t: Table, flows: seq<Flow>, s: seq<Episode>, a: Arrival, p: ValidPacket)
    requires ValidTable(t) && Mirrors(t, flows, s) && Arrives(flows, s, a)
    requires flows[a.flow].Valid() && |flows[a.flow].fragments| > 1 && p == flows[a.flow].fragments[a.frag]
    ensures Agree(AddPacket(t, p, a.now, a.dropTime), flows, Step(flows, s, a))
  {
    LiveMirrors(t, flows, s, a.now);
    LiveKeepsValid(t, a.now);
    var live := Live(t, a.now);
    AddPacketCases(t, p, a.now, a.dropTime, live, Find(live, p));
    LiveStep(live, flows, Aged(s, a.now), a, p, AddPacket(t, p, a.now, a.dropTime));
  }

  // One arrival: the table follows the machines, and delivers what and when they do.
  lemma IncomingStep(t: Table, flows: seq<Flow>, s: seq<Episode>, a: Arrival)
    requires ValidFlows(flows) && ValidTable(t) && Mirrors(t, flows, s) && Arrives(flows, s, a)
    ensures var step := Incoming(t, flows[a.flow].fragments[a.frag], a.now, a.dropTime);
            ValidTable(step.0) && Agree(step, flows, Step(flows, s, a))
  {
    var flow := flows[a.flow];
    FragmentsAreFragments(flow, a.frag);
    if |flow.fragments| > 1 {
      FragmentStep(t, flows, s, a, flow.fragments[a.frag]);
      AddPacketKeepsValid(t, flow.fragments[a.frag], a.now, a.dropTime);
    }
  }

  // ----- Every run -----

  lemma SeparateFront(flows: seq<Flow>, arr: seq<Arrival>)
    requires Separate(flows, arr) && arr != []
    ensures var front := arr[..|arr| - 1];
            Separate(flows, front) && Arrives(flows, After(flows, front), arr[|arr| - 1])
  {
    var front := arr[..|arr| - 1];
    forall n | 0 <= n < |front|
      ensures Clear(flows, After(flows, front[..n]), front[n])
    {
      assert front[..n] == arr[..n];
    }
  }

  // The table always holds exactly the packets being collected, each with the fragments arrived
  // since its collecting began, repetitions included.
  lemma {:induction false} TableFollows(flows: seq<Flow>, arr: seq<Arrival>)
    requires ValidFlows(flows) && Separate(flows, arr)
    ensures ValidTable(TableAfter(flows, arr)) && Mirrors(TableAfter(flows, arr), flows, After(flows, arr))
    decreases |arr|
  {
    if arr != [] {
      var front := arr[..|arr| - 1];
      SeparateFront(flows, arr);
      TableFollows(flows, front);
      IncomingStep(TableAfter(flows, front), flows, After(flows, front), arr[|arr| - 1]);
    }
  }

  // An arrival delivers its packet, restored, exactly when the packet was not split or, with this
  // arrival, each of its fragments has arrived once since its collecting began.
  lemma DeliversExactlyWhenEachOnce(flows: seq<Flow>, arr: seq<Arrival>)
    requires ValidFlows(flows) && Separate(flows, arr) && arr != []
    ensures var a := arr[|arr| - 1];
            var flow, e := flows[a.flow], Expired(After(flows, arr[..|arr| - 1])[a.flow], a.now);
            LastStep(flows, arr).1 ==
              if |flow.fragments| == 1 || (e.Open? && EachOnce(flow, e.got + [a.frag]))
              then Some(flow.Restored()) else None
  {
    var front := arr[..|arr| - 1];
    SeparateFront(flows, arr);
    TableFollows(flows, front);
    IncomingStep(TableAfter(flows, front), flows, After(flows, front), arr[|arr| - 1]);
  }

  // The fragments of packet k among arr, in order of arrival.
  function Frags(arr: seq<Arrival>, k: nat): seq<nat> {
    if arr == [] then []
    else
      var before, a := Frags(arr[..|arr| - 1], k), arr[|arr| - 1];
      if a.flow == k then before + [a.frag] else before
  }

  lemma FragsAppend(arr: seq<Arrival>, a: Arrival, k: nat)
    ensures Frags(arr + [a], k) == if a.flow == k then Frags(arr, k) + [a.frag] else Frags(arr, k)
  {
    assert (arr + [a])[..|arr|] == arr;
  }

  // Packet k has been collected since arrival m: the fragments arrived since then are what it
  // holds, and no fragment of any packet has arrived at its drop time or later.
  ghost predicate Since(flows: seq<Flow>, arr: seq<Arrival>, k: nat, m: nat, e: Episode) {
    && m < |arr| && arr[m].flow == k && e == Open(arr[m].dropTime, Frags(arr[m..], k))
    && forall n :: m < n < |arr| && ToTable(flows, arr[n]) ==> arr[n].now < arr[m].dropTime
  }

  // A fragment, not a whole packet.
  predicate ToTable(flows: seq<Flow>, a: Arrival) {
    a.flow < |flows| && |flows[a.flow].fragments| > 1
  }

  lemma SinceNow(flows: seq<Flow>, front: seq<Arrival>, a: Arrival)
    ensures Since(flows, front + [a], a.flow, |front|, Open(a.dropTime, [a.frag]))
  {
    FragsOne(a);
    assert (front + [a])[|front|..] == [a];
  }

  lemma FragsOne(a: Arrival)
    ensures Frags([a], a.flow) == [a.frag]
  {
    assert [a][..0] == [];
  }

  lemma SinceThen(flows: seq<Flow>, front: seq<Arrival>, a: Arrival, k: nat, m: nat, d: int, got: seq<nat>)
    requires Since(flows, front, k, m, Open(d, got)) && (ToTable(flows, a) ==> a.now < d)
    ensures Since(flows, front + [a], k, m, Open(d, if a.flow == k then got + [a.frag] else got))
  {
    assert (front + [a])[m..] == front[m..] + [a];
    FragsAppend(front[m..], a, k);
  }

  // What the machine of a packet remembers of a run.
  lemma {:induction false} CollectingSince(flows: seq<Flow>, arr: seq<Arrival>, k: nat) returns (m: nat)
    requires ValidArrivals(flows, arr) && k < |flows| && After(flows, arr)[k].Open?
    ensures |flows[k].fragments| > 1 && Since(flows, arr, k, m, After(flows, arr)[k])
    decreases |arr|
  {
    var front, a := arr[..|arr| - 1], arr[|arr| - 1];
    assert arr == front + [a];
    var before := After(flows, front)[k];
    if a.flow == k && ToTable(flows, a) && Expired(before, a.now).Idle? {
      m := |front|;
      SinceNow(flows, front, a);
    } else {
      m := CollectingSince(flows, front, k);
      SinceThen(flows, front, a, k, m, before.dropTime, before.got);
    }
  }
}
