// Runs of the defragmenter in which no fragment arrives twice, no unfinished packet expires and no
// two unfinished packets look alike: each packet comes out whole, once, when its last fragment
// arrives.
module DefragDelivery {
  import opened Wrappers
  import opened IPv4
  import opened Reassembly
  import opened DefragTheorem
  import opened DefragRuns

  // The fragments of flow k that have arrived.
  ghost function Got(arr: seq<Arrival>, k: nat): set<nat> {
    set a | a in arr && a.flow == k :: a.frag
  }

  ghost predicate Complete(flows: seq<Flow>, arr: seq<Arrival>, k: nat)
    requires k < |flows|
  {
    Whole(flows[k].fragments, Got(arr, k))
  }

  // Split, begun and not complete.
  ghost predicate Unfinished(flows: seq<Flow>, arr: seq<Arrival>, k: nat) {
    k < |flows| && |flows[k].fragments| > 1 && Got(arr, k) != {} && !Complete(flows, arr, k)
  }

  ghost predicate Once(arr: seq<Arrival>) {
    forall i, j :: 0 <= i < j < |arr| ==> arr[i].flow != arr[j].flow || arr[i].frag != arr[j].frag
  }

  // Arrival i is the first of its packet.
  ghost predicate First(arr: seq<Arrival>, i: int) {
    0 <= i < |arr| && forall j :: 0 <= j < i ==> arr[j].flow != arr[i].flow
  }

  // When arrival n comes, what arrival i began is complete or not expired.
  ghost predicate InTime(flows: seq<Flow>, arr: seq<Arrival>, i: nat, n: nat)
    requires i < n < |arr|
  {
    First(arr, i) && Unfinished(flows, arr[..n], arr[i].flow) && ToTable(flows, arr[n]) ==> arr[n].now < arr[i].dropTime
  }

  // When arrival n comes, no other packet like its own is unfinished.
  ghost predicate Unmixed(flows: seq<Flow>, arr: seq<Arrival>, n: nat)
    requires n < |arr| && ValidArrival(flows, arr[n])
  {
    forall k :: 0 <= k < |flows| && k != arr[n].flow && Alike(flows[k], flows[arr[n].flow]) ==>
      !Unfinished(flows, arr[..n], k)
  }

  ghost predicate Orderly(flows: seq<Flow>, arr: seq<Arrival>) {
    && ValidArrivals(flows, arr) && Once(arr)
    && (forall i, n :: 0 <= i < n < |arr| ==> InTime(flows, arr, i, n))
    && (forall n :: 0 <= n < |arr| ==> Unmixed(flows, arr, n))
  }

  lemma GotAppend(arr: seq<Arrival>, a: Arrival, k: nat)
    ensures Got(arr + [a], k) == if a.flow == k then Got(arr, k) + {a.frag} else Got(arr, k)
  {
    var now, before := Got(arr + [a], k), Got(arr, k);
    forall f ensures f in now <==> f in before || (a.flow == k && f == a.frag) {
      if f in now {
        var b :| b in arr + [a] && b.flow == k && b.frag == f;
        assert b in arr || b == a;
      }
      if f in before {
        var b :| b in arr && b.flow == k && b.frag == f;
        assert b in arr + [a];
      }
      if a.flow == k && f == a.frag {
        assert a in arr + [a];
      }
    }
  }

  lemma OrderlyFront(flows: seq<Flow>, front: seq<Arrival>, a: Arrival)
    requires Orderly(flows, front + [a])
    ensures Orderly(flows, front) && ValidArrival(flows, a) && a.frag !in Got(front, a.flow)
  {
    var arr := front + [a];
    assert forall i :: 0 <= i < |front| ==> arr[i] == front[i];
    assert arr[|front|] == a;
    forall i, n | 0 <= i < n < |front|
      ensures InTime(flows, front, i, n)
    {
      assert InTime(flows, arr, i, n) && arr[..n] == front[..n];
    }
    forall n | 0 <= n < |front|
      ensures Unmixed(flows, front, n)
    {
      assert Unmixed(flows, arr, n) && arr[..n] == front[..n];
    }
    forall b | b in front
      ensures b.flow != a.flow || b.frag != a.frag
    {
      var i :| 0 <= i < |front| && front[i] == b;
      assert arr[i].flow != arr[|front|].flow || arr[i].frag != arr[|front|].frag;
    }
  }

  // What the machine of packet k is in after an orderly run.
  ghost predicate Tallies(flows: seq<Flow>, arr: seq<Arrival>, k: nat, e: Episode) {
    if Unfinished(flows, arr, k) then
      && e.Open? && NoRepeat(e.got) && Elements(e.got) == Got(arr, k)
      && Dated(arr, k, e.dropTime)
    else e.Idle?
  }

  ghost predicate Dated(arr: seq<Arrival>, k: nat, dropTime: int) {
    exists i :: First(arr, i) && arr[i].flow == k && arr[i].dropTime == dropTime
  }

  ghost predicate AllTally(flows: seq<Flow>, arr: seq<Arrival>, s: seq<Episode>) {
    |s| == |flows| && forall k :: 0 <= k < |s| ==> Tallies(flows, arr, k, s[k])
  }

  lemma DatedAppend(arr: seq<Arrival>, a: Arrival, k: nat, dropTime: int)
    requires Dated(arr, k, dropTime)
    ensures Dated(arr + [a], k, dropTime)
  {
    var i :| First(arr, i) && arr[i].flow == k && arr[i].dropTime == dropTime;
    assert First(arr + [a], i);
  }

  lemma DatedFirst(arr: seq<Arrival>, a: Arrival)
    requires Got(arr, a.flow) == {}
    ensures Dated(arr + [a], a.flow, a.dropTime)
  {
    forall j | 0 <= j < |arr|
      ensures arr[j].flow == a.flow ==> arr[j].frag in Got(arr, a.flow)
    {
      assert arr[j] in arr;
    }
    assert First(arr + [a], |arr|);
  }

  // Nothing expires at the next arrival, and it meets no packet like its own.
  lemma NothingExpires(flows: seq<Flow>, front: seq<Arrival>, a: Arrival, s: seq<Episode>)
    requires Orderly(flows, front + [a]) && AllTally(flows, front, s) && ToTable(flows, a)
    ensures Aged(s, a.now) == s
    ensures Arrives(flows, s, a)
  {
    var arr := front + [a];
    OrderlyFront(flows, front, a);
    assert arr[..|front|] == front && arr[|front|] == a;
    forall k | 0 <= k < |s|
      ensures Expired(s[k], a.now) == s[k]
    {
      assert Tallies(flows, front, k, s[k]);
      if s[k].Open? {
        var i :| First(front, i) && front[i].flow == k && front[i].dropTime == s[k].dropTime;
        assert arr[i] == front[i] && First(arr, i);
        assert InTime(flows, arr, i, |front|);
      }
    }
    assert Unmixed(flows, arr, |front|);
  }

  // The arriving packet's machine goes on tallying.
  lemma ReceiveTallies(flows: seq<Flow>, front: seq<Arrival>, a: Arrival, e: Episode)
    requires ToTable(flows, a) && a.frag < |flows[a.flow].fragments| && a.frag !in Got(front, a.flow)
    requires Tallies(flows, front, a.flow, e)
    ensures var r := Receive(flows[a.flow], e, a.frag, a.dropTime);
            Tallies(flows, front + [a], a.flow, r.0) && (r.1 <==> Complete(flows, front + [a], a.flow))
  {
    var flow, got := flows[a.flow], Got(front, a.flow);
    GotAppend(front, a, a.flow);
    assert a.frag in got + {a.frag};
    if e.Open? {
      ElementsAppend(e.got, a.frag);
      DatedAppend(front, a, a.flow, e.dropTime);
    } else {
      assert !Whole(flow.fragments, got);
      assert Got(front + [a], a.flow) == {a.frag};
      assert Elements([a.frag]) == {a.frag};
      var other := if a.frag == 0 then 1 else 0;
      assert other < |flow.fragments| && other !in Got(front + [a], a.flow);
      DatedFirst(front, a);
    }
  }

  lemma OthersTally(flows: seq<Flow>, front: seq<Arrival>, a: Arrival, k: nat, e: Episode)
    requires Tallies(flows, front, k, e) && (a.flow != k || !ToTable(flows, a))
    ensures Tallies(flows, front + [a], k, e)
  {
    GotAppend(front, a, k);
    if e.Open? {
      DatedAppend(front, a, k, e.dropTime);
    }
  }

  // In an orderly run the machines stand where their packets do, and no two packets mix.
  lemma {:induction false} OrderlyTallies(flows: seq<Flow>, arr: seq<Arrival>)
    requires Orderly(flows, arr)
    ensures AllTally(flows, arr, After(flows, arr)) && Separate(flows, arr)
    decreases |arr|
  {
    if arr != [] {
      var front, a := arr[..|arr| - 1], arr[|arr| - 1];
      assert arr == front + [a];
      OrderlyFront(flows, front, a);
      OrderlyTallies(flows, front);
      StepTallies(flows, front, a, After(flows, front));
      SeparateAppend(flows, front, a);
    }
  }

  lemma SeparateAppend(flows: seq<Flow>, front: seq<Arrival>, a: Arrival)
    requires Separate(flows, front) && ValidArrival(flows, a) && Clear(flows, After(flows, front), a)
    ensures Separate(flows, front + [a])
  {
    var arr := front + [a];
    forall n | 0 <= n < |arr|
      ensures Clear(flows, After(flows, arr[..n]), arr[n])
    {
      assert arr[..n] == front[..n];
      assert front[..|front|] == front;
    }
  }

  lemma StepTallies(flows: seq<Flow>, front: seq<Arrival>, a: Arrival, s: seq<Episode>)
    requires Orderly(flows, front + [a]) && AllTally(flows, front, s)
    ensures Arrives(flows, s, a) && AllTally(flows, front + [a], Step(flows, s, a).0)
    ensures Step(flows, s, a).1 ==
            if Complete(flows, front + [a], a.flow) then Some(flows[a.flow].Restored()) else None
  {
    OrderlyFront(flows, front, a);
    GotAppend(front, a, a.flow);
    var next := Step(flows, s, a).0;
    if ToTable(flows, a) {
      NothingExpires(flows, front, a, s);
      ReceiveTallies(flows, front, a, s[a.flow]);
    } else {
      assert a.frag in Got(front + [a], a.flow);
    }
    forall k | 0 <= k < |s| && (k != a.flow || !ToTable(flows, a))
      ensures Tallies(flows, front + [a], k, next[k])
    {
      OthersTally(flows, front, a, k, s[k]);
    }
  }

  // ----- What the receiver delivers -----

  // Each arrival delivers the original of its packet if it completes it, and otherwise nothing.
  lemma EveryStepDelivers(flows: seq<Flow>, arr: seq<Arrival>)
    requires ValidFlows(flows) && Orderly(flows, arr) && arr != []
    ensures var a := arr[|arr| - 1];
            LastStep(flows, arr).1 == if Complete(flows, arr, a.flow) then Some(flows[a.flow].Restored()) else None
  {
    var front, a := arr[..|arr| - 1], arr[|arr| - 1];
    assert arr == front + [a];
    OrderlyFront(flows, front, a);
    OrderlyTallies(flows, front);
    StepTallies(flows, front, a, After(flows, front));
    TableFollows(flows, front);
    IncomingStep(TableAfter(flows, front), flows, After(flows, front), a);
  }

  // A packet is completed by one arrival only, its last.
  lemma CompletedOnce(flows: seq<Flow>, arr: seq<Arrival>, i: nat, j: nat)
    requires Orderly(flows, arr) && i < j < |arr| && arr[i].flow == arr[j].flow
    ensures ValidArrival(flows, arr[i]) && !Complete(flows, arr[..i + 1], arr[i].flow)
  {
    assert ValidArrival(flows, arr[i]) && ValidArrival(flows, arr[j]);
    forall b | b in arr[..i + 1]
      ensures b.flow != arr[j].flow || b.frag != arr[j].frag
    {
      var k :| 0 <= k < i + 1 && arr[k] == b;
    }
    assert arr[j].frag !in Got(arr[..i + 1], arr[i].flow);
  }

  // r is the reconstruction of the unfinished packet k, with what has arrived of it.
  ghost predicate Holds(r: Reconstruction, flows: seq<Flow>, arr: seq<Arrival>, k: nat) {
    Unfinished(flows, arr, k) && flows[k].Owns(r) && r.fragments == Pick(flows[k].fragments, Got(arr, k))
  }

  lemma MirrorHolds(r: Reconstruction, flows: seq<Flow>, arr: seq<Arrival>, k: nat, e: Episode)
    requires k < |flows| && flows[k].Valid() && Tallies(flows, arr, k, e) && Mirror(r, flows[k], e)
    ensures Holds(r, flows, arr, k)
  {
    TilesIncrease(flows[k].fragments, flows[k].original);
    CollectIsPick(flows[k].fragments, e.got);
  }

  // The table holds a reconstruction for each unfinished packet, and nothing else.
  lemma TableTracks(flows: seq<Flow>, arr: seq<Arrival>)
    requires ValidFlows(flows) && Orderly(flows, arr)
    ensures forall r :: r in TableAfter(flows, arr) ==> exists k: nat :: Holds(r, flows, arr, k)
    ensures forall k: nat :: Unfinished(flows, arr, k) ==>
              exists r :: r in TableAfter(flows, arr) && Holds(r, flows, arr, k)
  {
    OrderlyTallies(flows, arr);
    TableFollows(flows, arr);
    var t, s := TableAfter(flows, arr), After(flows, arr);
    forall r | r in t
      ensures exists k: nat :: Holds(r, flows, arr, k)
    {
      var k :| 0 <= k < |s| && Mirror(r, flows[k], s[k]);
      MirrorHolds(r, flows, arr, k, s[k]);
    }
    forall k: nat | Unfinished(flows, arr, k)
      ensures exists r :: r in t && Holds(r, flows, arr, k)
    {
      assert Tallies(flows, arr, k, s[k]);
      var r :| r in t && Mirror(r, flows[k], s[k]);
      MirrorHolds(r, flows, arr, k, s[k]);
    }
  }

  // Once every fragment has arrived nothing is left behind.
  lemma AllDeliveredLeavesNothing(flows: seq<Flow>, arr: seq<Arrival>)
    requires ValidFlows(flows) && Orderly(flows, arr)
    requires forall k :: 0 <= k < |flows| ==> Complete(flows, arr, k)
    ensures TableAfter(flows, arr) == []
  {
    TableTracks(flows, arr);
    if TableAfter(flows, arr) != [] {
      HasElement(TableAfter(flows, arr));
    }
  }

  lemma HasElement(t: Table)
    requires t != []
    ensures exists r :: r in t
  {
    assert t[0] in t;
  }
}
