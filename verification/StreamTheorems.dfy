// What the invariant of Connection means for callers, over every run.
module StreamTheorems {
  import opened Bytes
  import opened Circular
  import opened Wrappers
  import opened Assembly
  import opened Receiving
  import opened Sending
  import opened Connection

  // Both directions of a connection.
  ghost predicate Invariant(s: System) {
    && Carries(s.left, s.right, s.toRight, s.toLeft)
    && Carries(s.right, s.left, s.toLeft, s.toRight)
  }

  lemma InitialInvariant(s: System, leftIsn: uint32, rightIsn: uint32)
    requires Initial(s, leftIsn, rightIsn)
    ensures Invariant(s)
  {
  }

  lemma StepKeepsInvariant(s: System, step: Step)
    requires Invariant(s) && s.Enabled(step)
    ensures Invariant(s.Do(step))
  {
    if step.onLeft {
      SenderStepKeepsCarries(s.left, s.right, s.toRight, s.toLeft, step.action);
      ReceiverStepKeepsCarries(s.right, s.left, s.toLeft, s.toRight, step.action);
    } else {
      SenderStepKeepsCarries(s.right, s.left, s.toLeft, s.toRight, step.action);
      ReceiverStepKeepsCarries(s.left, s.right, s.toRight, s.toLeft, step.action);
    }
  }

  lemma {:induction false} RunKeepsInvariant(s: System, steps: seq<Step>, t: System)
    requires Invariant(s) && Executes(s, steps, t)
    ensures Invariant(t)
    decreases |steps|
  {
    if steps != [] {
      StepKeepsInvariant(s, steps[0]);
      RunKeepsInvariant(s.Do(steps[0]), steps[1..], t);
    }
  }

  ghost predicate Reachable(t: System) {
    exists s, leftIsn, rightIsn, steps :: Initial(s, leftIsn, rightIsn) && Executes(s, steps, t)
  }

  lemma ReachableInvariant(t: System)
    requires Reachable(t)
    ensures Invariant(t)
  {
    var s, leftIsn, rightIsn, steps :| Initial(s, leftIsn, rightIsn) && Executes(s, steps, t);
    InitialInvariant(s, leftIsn, rightIsn);
    RunKeepsInvariant(s, steps, t);
  }

  // x writes and r reads, in one of the two directions of t.
  ghost predicate Direction(t: System, x: Endpoint, r: Endpoint) {
    (x == t.left && r == t.right) || (x == t.right && r == t.left)
  }

  // What Read has returned is a prefix of what Write has accepted; with the bytes still
  // buffered it is exactly the part of the stream the receiver acknowledges, which is never
  // behind what the sender takes as acknowledged.
  lemma ReadIsPrefixOfWritten(t: System, x: Endpoint, r: Endpoint)
    requires Reachable(t) && Direction(t, x, r)
    ensures r.read <= x.written
    ensures Skimmed(r.receiver.assembler) <= |x.written|
    ensures r.read + r.receiver.buffered == x.written[..Skimmed(r.receiver.assembler)]
    ensures x.sender.buffer.pos <= r.receiver.assembler.pos
  {
    ReachableInvariant(t);
    assert HoldsPrefix(r, x);
    assert r.read == (r.read + r.receiver.buffered)[..|r.read|];
  }

  // What an endpoint puts on the network announces the first position it has not passed on, and no
  // more room than it has: all of it, when that is below 2^16.
  lemma AnnouncesItsRoom(t: System, x: Endpoint, r: Endpoint, action: Action, p: Packet)
    requires Reachable(t) && Direction(t, x, r) && p in r.Output(action)
    ensures p.ack == Wrap(x.sender.buffer.isn + r.receiver.assembler.pos)
    ensures var room := r.receiver.capacity - |r.receiver.buffered|;
            p.window <= room && (room < 0x1_0000 ==> p.window == room)
  {
    ReachableInvariant(t);
    assert HoldsPrefix(r, x);
    RoomAnnounced(x, r, action, p);
  }

  lemma RoomAnnounced(x: Endpoint, r: Endpoint, action: Action, p: Packet)
    requires HoldsPrefix(r, x) && p in r.Output(action)
    ensures p.ack == Wrap(x.sender.buffer.isn + r.receiver.assembler.pos)
    ensures var room := r.receiver.capacity - |r.receiver.buffered|;
            p.window <= room && (room < 0x1_0000 ==> p.window == room)
  {
    OutputIsStamped(r, action, p);
    LowWord(r.receiver.Window());
  }

  lemma LowWord(n: nat)
    ensures n % 0x1_0000 <= n && (n < 0x1_0000 ==> n % 0x1_0000 == n)
  {
  }

  // A Read that reports end of stream has returned every byte ever written, after a Close.
  lemma EofOnlyAtEnd(t: System, x: Endpoint, r: Endpoint, want: nat)
    requires Reachable(t) && Direction(t, x, r)
    requires r.receiver.ReadResult(want).Received? && r.receiver.ReadResult(want).eof
    ensures x.sender.buffer.sendEof
    ensures r.read + r.receiver.ReadResult(want).data == x.written
  {
    ReachableInvariant(t);
    assert HoldsPrefix(r, x);
    var b := r.receiver.buffered;
    assert b[..|b|] == b;
  }

  // Conversely a closed stream whose end has reached the receiver ends with end of stream:
  // the Read that takes the last bytes reports it.
  lemma LastReadReportsEof(t: System, x: Endpoint, r: Endpoint, want: nat)
    requires Reachable(t) && Direction(t, x, r)
    requires r.receiver.hitEof && |r.receiver.buffered| <= want
    ensures r.receiver.ReadResult(want) == Received(r.receiver.buffered, true)
    ensures r.read + r.receiver.buffered == x.written
  {
    ReachableInvariant(t);
    assert HoldsPrefix(r, x);
    var b := r.receiver.buffered;
    assert b[..|b|] == b;
  }

  // A sender that is done without a failure has a receiver holding the whole stream and its end.
  lemma DoneMeansDelivered(t: System, x: Endpoint, r: Endpoint)
    requires Reachable(t) && Direction(t, x, r)
    requires x.sender.Done() && x.sender.failure.None?
    ensures r.receiver.hitEof && r.receiver.Done()
    ensures r.read + r.receiver.buffered == x.written
  {
    ReachableInvariant(t);
    assert HoldsSuffix(x) && HoldsPrefix(r, x);
  }

  // A half of the connection is done exactly when it failed or the end of its stream has passed.
  lemma DoneExactly(t: System, x: Endpoint, r: Endpoint)
    requires Reachable(t) && Direction(t, x, r)
    ensures x.sender.Done() <==> x.sender.failure.Some? || x.sender.buffer.pos == |x.written| + 1
    ensures r.receiver.Done() <==> r.receiver.failure.Some? || r.receiver.assembler.pos == |x.written| + 1
  {
    ReachableInvariant(t);
    assert HoldsSuffix(x) && HoldsPrefix(r, x);
  }

  // A failure of the sending half reaches the waiting call and every later one.
  lemma SendFailureReachesCallers(x: Endpoint, e: Error)
    requires WriterOk(x) && x.receiver.Valid() && !x.panicked
    ensures var y := x.Next(FailSender(e));
            && (x.writer.Writing? ==> y.Enabled(Finish, {}) && y.sender.FinishResult(x.writer.length).Stopped?
                                      && y.sender.FinishResult(x.writer.length).error == e)
            && y.sender.StartResult() == Refused(if x.sender.buffer.sendEof then ErrClosedPipe else e)
  {
  }

  // One of the receiving half wakes readers, leaves what is buffered to them, and is then reported.
  lemma ReceiveFailureReachesCallers(r: Endpoint, e: Error, want: nat)
    requires r.receiver.Valid()
    ensures var z := r.Next(FailReceiver(e));
            && z.receiver.buffered == r.receiver.buffered && z.receiver.notified > r.receiver.notified
            && (z.receiver.ReadResult(want).Received? || z.receiver.ReadResult(want) == ReadFailed(e))
  {
  }

  // A woken Write or Close that reports success has left nothing behind: every byte written
  // so far is held or has been returned by the receiver, and after a Close so is the end.
  lemma SuccessMeansDelivered(t: System, x: Endpoint, r: Endpoint)
    requires Reachable(t) && Direction(t, x, r)
    requires x.writer.Writing? && x.writer.ticket < x.sender.notified
    requires x.sender.FinishResult(x.writer.length).Written?
    ensures x.sender.failure.None? && x.sender.FinishResult(x.writer.length).count == x.writer.length
    ensures x.sender.buffer.data == []
    ensures r.read + r.receiver.buffered == x.written
    ensures x.writer.closing ==> r.receiver.hitEof
  {
    ReachableInvariant(t);
    assert HoldsSuffix(x) && HoldsPrefix(r, x) && WriterOk(x);
  }

  // A Write stopped by a failure reports exactly how many of its own bytes were acknowledged,
  // and that many of them have reached the receiver.
  lemma FailureCountsAcknowledged(t: System, x: Endpoint, r: Endpoint)
    requires Reachable(t) && Direction(t, x, r)
    requires x.writer.Writing? && x.sender.FinishResult(x.writer.length).Stopped?
    ensures var n := x.sender.FinishResult(x.writer.length).partial;
            && 0 <= n <= x.writer.length
            && (!x.writer.closing ==> x.sender.buffer.pos == x.writer.from + n)
            && x.writer.from + n <= |x.written|
            && x.written[..x.writer.from + n] <= r.read + r.receiver.buffered
    ensures x.sender.failure == Some(x.sender.FinishResult(x.writer.length).error)
  {
    ReachableInvariant(t);
    assert HoldsSuffix(x) && HoldsPrefix(r, x) && WriterOk(x);
  }

  // Without an expired write deadline nothing panics, now or in the next call: a caller that
  // gets past the guards of writeOrClose finds an empty buffer.
  lemma NoPanicWithoutExpiry(t: System, x: Endpoint, r: Endpoint)
    requires Reachable(t) && Direction(t, x, r) && !x.expired
    ensures !x.panicked
    ensures x.writer.Idle? ==> !x.sender.StartResult().Panics?
  {
    ReachableInvariant(t);
    assert WriterOk(x);
  }

  // A call goes through exactly when the stream is open, no failure is recorded and everything
  // written is acknowledged; it is refused as closed first, then with the failure.
  lemma CallGoesThrough(t: System, x: Endpoint, r: Endpoint)
    requires Reachable(t) && Direction(t, x, r) && x.writer.Idle?
    ensures x.sender.StartResult().Waiting? <==>
              !x.sender.buffer.sendEof && x.sender.failure.None? && x.sender.buffer.pos == |x.written|
    ensures x.sender.StartResult().Refused? <==> x.sender.buffer.sendEof || x.sender.failure.Some?
    ensures x.sender.StartResult().Refused? ==>
              Some(x.sender.StartResult().error) ==
              if x.sender.buffer.sendEof then Some(ErrClosedPipe) else x.sender.failure
  {
    ReachableInvariant(t);
    assert HoldsSuffix(x);
  }

  // In general the next call panics exactly when an expired Write left bytes unacknowledged.
  lemma PanicExactlyAfterExpiry(t: System, x: Endpoint, r: Endpoint)
    requires Reachable(t) && Direction(t, x, r) && x.writer.Idle?
    ensures x.sender.StartResult().Panics? <==>
            x.expired && x.sender.failure.None? && x.sender.buffer.pos < |x.written|
  {
    ReachableInvariant(t);
    assert HoldsSuffix(x) && WriterOk(x);
  }

  // Such a state is a deadline away: a Write that expires unacknowledged makes the next one panic.
  lemma ExpiredWriteThenPanic(s: System, leftIsn: uint32, rightIsn: uint32, first: byte, second: byte)
    requires Initial(s, leftIsn, rightIsn)
    ensures var steps := [Step(true, Write([first])), Step(true, Expire), Step(true, Write([second]))];
            exists t :: Executes(s, steps, t) && t.left.panicked
  {
    var a, b, c := Step(true, Write([first])), Step(true, Expire), Step(true, Write([second]));
    var s1 := s.Do(a);
    var s2 := s1.Do(b);
    var t := s2.Do(c);
    assert Executes(t, [], t);
    assert Executes(s2, [c], t);
    assert Executes(s1, [b, c], t) by { assert [b, c][1..] == [c]; }
    assert Executes(s, [a, b, c], t) by { assert [a, b, c][1..] == [b, c]; }
  }
}
