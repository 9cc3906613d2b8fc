// The reference-counted descriptor of a tunnel: operate and Close, run by any number of threads.
// Each lock-protected section is one atomic step.
module RefCount {
  // What the lock protects, and how often the descriptor has been closed.
  datatype Shared = Shared(refCount: int, closed: bool, closes: nat) {
    // operate, first section: nothing happens on a closed tunnel.
    function Enter(): Shared {
      if closed then this else this.(refCount := refCount + 1)
    }

    // The second half of Close's body.
    function Mark(): Shared {
      this.(closed := true)
    }

    // operate, deferred section: the last one out of a closed tunnel closes the descriptor.
    function Leave(): Shared {
      var less := this.(refCount := refCount - 1);
      if closed && less.refCount == 0 then less.(closes := closes + 1) else less
    }
  }

  // Where a thread is: outside, in the body of some operation, in Close before or after it has
  // shut the descriptor down, or past the body.
  datatype Stage = Outside | InBody | InClose | Marking | Leaving {
    predicate Inside() { !Outside? }
  }

  datatype System = System(shared: Shared, stages: seq<Stage>)

  datatype Action = Call(closing: bool) | UseDescriptor | Finish | Shutdown | Mark | Leave

  ghost predicate Step(s: System, t: System, i: nat, action: Action) {
    && i < |s.stages|
    && match action
       case Call(closing) =>
         && s.stages[i] == Outside && t.shared == s.shared.Enter()
         && t.stages == s.stages[i := if s.shared.closed then Outside else if closing then InClose else InBody]
       case UseDescriptor => s.stages[i] == InBody && t == s
       case Finish => s.stages[i] == InBody && t.shared == s.shared && t.stages == s.stages[i := Leaving]
       case Shutdown => s.stages[i] == InClose && t.shared == s.shared && t.stages == s.stages[i := Marking]
       case Mark => s.stages[i] == Marking && t.shared == s.shared.Mark() && t.stages == s.stages[i := Leaving]
       case Leave => s.stages[i] == Leaving && t.shared == s.shared.Leave() && t.stages == s.stages[i := Outside]
  }

  // The step runs system calls on the descriptor.
  predicate Touches(action: Action) {
    action.UseDescriptor? || action.Shutdown?
  }

  function Inside(stages: seq<Stage>): nat {
    if stages == [] then 0 else (if stages[0].Inside() then 1 else 0) + Inside(stages[1..])
  }

  lemma {:induction false} InsideUpdate(stages: seq<Stage>, i: nat, stage: Stage)
    requires i < |stages|
    ensures Inside(stages[i := stage]) ==
            Inside(stages) - (if stages[i].Inside() then 1 else 0) + if stage.Inside() then 1 else 0
  {
    if i == 0 {
      assert stages[i := stage][1..] == stages[1..];
    } else {
      assert stages[i := stage][1..] == stages[1..][i - 1 := stage];
      InsideUpdate(stages[1..], i - 1, stage);
    }
  }

  lemma {:induction false} SomeoneInside(stages: seq<Stage>, i: nat)
    requires i < |stages| && stages[i].Inside()
    ensures Inside(stages) > 0
  {
    if i > 0 {
      SomeoneInside(stages[1..], i - 1);
    }
  }

  lemma {:induction false} AllOutside(n: nat)
    ensures Inside(seq(n, _ => Outside)) == 0
  {
    if n > 0 {
      assert seq(n, _ => Outside)[1..] == seq(n - 1, _ => Outside);
      AllOutside(n - 1);
    }
  }

  // ----- Runs -----

  function Start(threads: nat): System {
    System(Shared(0, false, 0), seq(threads, _ => Outside))
  }

  // The count is the number of threads inside, and the descriptor has been closed exactly when
  // closing has begun and nobody is inside; and then once.
  ghost predicate Invariant(s: System) {
    && s.shared.refCount == Inside(s.stages)
    && s.shared.closes == if s.shared.closed && Inside(s.stages) == 0 then 1 else 0
  }

  lemma StepKeepsInvariant(s: System, t: System, i: nat, action: Action)
    requires Invariant(s) && Step(s, t, i, action)
    ensures Invariant(t) && s.shared.closes <= t.shared.closes
  {
    InsideUpdate(s.stages, i, t.stages[i]);
    assert s.stages[i := s.stages[i]] == s.stages;
    if s.stages[i].Inside() {
      SomeoneInside(s.stages, i);
    }
  }

  ghost predicate Next(s: System, t: System) {
    exists i, action :: Step(s, t, i, action)
  }

  ghost predicate Run(run: seq<System>, threads: nat) {
    && run != [] && run[0] == Start(threads)
    && forall k :: 0 < k < |run| ==> Next(run[k - 1], run[k])
  }

  lemma {:induction false} RunKeepsInvariant(run: seq<System>, threads: nat, k: nat)
    requires Run(run, threads) && k < |run|
    ensures Invariant(run[k])
  {
    if k == 0 {
      AllOutside(threads);
    } else {
      RunKeepsInvariant(run, threads, k - 1);
      var i, action :| Step(run[k - 1], run[k], i, action);
      StepKeepsInvariant(run[k - 1], run[k], i, action);
    }
  }

  // In every run the descriptor is closed at most once, by the step in which the last thread leaves
  // after closing began; no later step touches it.
  lemma ClosedOnceByTheLast(run: seq<System>, threads: nat, k: nat, i: nat, action: Action)
    requires Run(run, threads) && k + 1 < |run| && Step(run[k], run[k + 1], i, action)
    ensures run[k].shared.closes <= 1
    ensures run[k + 1].shared.closes != run[k].shared.closes <==>
            action == Leave && run[k].shared.closed && Inside(run[k].stages) == 1
    ensures run[k].shared.closes == 1 ==> action.Call? && run[k + 1] == run[k]
    ensures Touches(action) ==> run[k].shared.closes == 0 && run[k + 1].shared.closes == 0
  {
    var s, t := run[k], run[k + 1];
    RunKeepsInvariant(run, threads, k);
    InsideUpdate(s.stages, i, t.stages[i]);
    if s.stages[i].Inside() {
      SomeoneInside(s.stages, i);
    } else {
      assert s.stages[i := Outside] == s.stages;
    }
  }

  lemma {:induction false} StaysClosed(run: seq<System>, threads: nat, j: nat, k: nat)
    requires Run(run, threads) && j <= k < |run| && run[j].shared.closed
    ensures run[k].shared.closed
  {
    if j < k {
      StaysClosed(run, threads, j, k - 1);
      var i, action :| Step(run[k - 1], run[k], i, action);
    }
  }

  // And once closing has begun and everybody is out, it is closed.
  lemma ClosedWhenAllAreOut(run: seq<System>, threads: nat, j: nat, i: nat, k: nat)
    requires Run(run, threads) && j + 1 <= k < |run| && Step(run[j], run[j + 1], i, Action.Mark)
    requires forall stage :: stage in run[k].stages ==> stage == Outside
    ensures run[k].shared.closes == 1
  {
    StaysClosed(run, threads, j + 1, k);
    RunKeepsInvariant(run, threads, k);
    NobodyInside(run[k].stages);
  }

  lemma {:induction false} NobodyInside(stages: seq<Stage>)
    requires forall stage :: stage in stages ==> stage == Outside
    ensures Inside(stages) == 0
  {
    if stages != [] {
      assert stages[0] in stages && forall stage :: stage in stages[1..] ==> stage in stages;
      NobodyInside(stages[1..]);
    }
  }

  // ----- The tunnel itself -----

  class FdTunnelBase {
    var refCount: int
    var closed: bool
    // How often the descriptor has been given to the system to close.
    var closes: nat

    constructor ()
      ensures Value() == Shared(0, false, 0)
    {
      refCount, closed, closes := 0, false, 0;
    }

    function Value(): Shared
      reads this
    {
      Shared(refCount, closed, closes)
    }

    // False when the tunnel is closed.
    method Enter() returns (ok: bool)
      modifies this
      ensures Value() == old(Value()).Enter() && ok == !old(closed)
    {
      if closed {
        return false;
      }
      refCount := refCount + 1;
      return true;
    }

    method MarkClosed()
      modifies this
      ensures Value() == old(Value()).Mark()
    {
      closed := true;
    }

    method Leave()
      modifies this
      ensures Value() == old(Value()).Leave()
    {
      refCount := refCount - 1;
      if closed && refCount == 0 {
        closes := closes + 1;
      }
    }
  }
}
