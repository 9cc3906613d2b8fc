// Two endpoints joined by a network that loses, duplicates and reorders packets, as a
// transition system over the atomic steps of the connection loop and its callers.
module Connection {
  import opened Bytes
  import opened Circular
  import opened Wrappers
  import opened Assembly
  import opened Receiving
  import opened Sending

  // at and ackAt are the stream positions behind cut.segment.start and ack. They are
  // bookkeeping: no endpoint reads them.
  datatype Packet = Packet(cut: Cut, ack: uint32, ackAt: nat, window: uint16)

  // The one caller inside Write or Close: how long its data is and where in the stream it starts.
  datatype Writer = Idle | Writing(length: nat, from: nat, closing: bool, ticket: nat)

  datatype Action =
    | Write(data: seq<byte>)
    | Close
    | Finish
    | Expire
    | Transmit(cut: Cut)
    | SendAck
    | Deliver(packet: Packet)
    | Read(want: nat)
    | FailSender(error: Error)
    | FailReceiver(error: Error)

  // emitted: every segment ever handed to the retransmission timer, any of which may be sent
  // at any later time. written, read: everything accepted by Write and returned by Read.
  // expired: some Write of data returned because its deadline passed.
  datatype Endpoint = Endpoint(sender: Sender, receiver: Receiver, writer: Writer, emitted: set<Cut>,
                               written: seq<byte>, read: seq<byte>, expired: bool, panicked: bool) {

    // A delivered packet is young enough for its 32-bit numbers to be unambiguous.
    predicate FreshData(c: Cut) {
      c.segment.data != [] ==> receiver.assembler.pos <= c.at + (SEQ_MOD - WINDOW)
    }

    predicate FreshAck(at: nat) {
      sender.buffer.pos < at + SEQ_MOD - sender.buffer.Outstanding()
    }

    predicate Enabled(action: Action, inbox: set<Packet>) {
      !panicked &&
      match action
      case Write(data) => writer.Idle? && |data| < SEQ_MOD
      case Close => writer.Idle?
      case Finish => writer.Writing? && writer.ticket < sender.notified
      case Expire => writer.Writing?
      case Transmit(cut) => cut in emitted
      case Deliver(p) => p in inbox && FreshData(p.cut) && FreshAck(p.ackAt)
      case _ => true
    }

    function WithNext(): Endpoint {
      match sender.Next()
      case None => this
      case Some(s) => this.(emitted := emitted + {Cut(s, sender.buffer.pos)})
    }

    function Start(data: seq<byte>, close: bool): Endpoint {
      match sender.StartResult()
      case Refused(_) => this
      case Panics => this.(panicked := true)
      case Waiting(ticket) =>
        this.(sender := sender.Start(data, close),
              writer := Writing(|data|, |written|, close, ticket),
              written := written + data).WithNext()
    }

    function Received(s: Segment): Endpoint
      requires |receiver.buffered| <= receiver.capacity
    {
      this.(receiver := receiver.Handle(s))
    }

    function Acked(ack: uint32, window: uint16): Endpoint {
      this.(sender := sender.Handle(ack, window)).WithNext()
    }

    function Next(action: Action): Endpoint
      requires |receiver.buffered| <= receiver.capacity
    {
      match action
      case Write(data) => if data == [] then this else Start(data, false)
      case Close => Start([], true)
      case Finish => this.(writer := Idle)
      case Expire =>
        this.(writer := Idle, expired := expired || (writer.Writing? && !writer.closing))
      case Transmit(_) => this
      case SendAck => this
      case Deliver(p) => Received(p.cut.segment).Acked(p.ack, p.window)
      case Read(want) =>
        this.(receiver := receiver.AfterRead(want),
              read := read + receiver.ReadResult(want).Bytes())
      case FailSender(error) => this.(sender := sender.Fail(error))
      case FailReceiver(error) => this.(receiver := receiver.Fail(error))
    }

    function Stamp(cut: Cut): Packet {
      Packet(cut, receiver.assembler.Sequence(), receiver.assembler.pos, receiver.Window() % 0x1_0000)
    }

    function Output(action: Action): set<Packet> {
      match action
      case Transmit(cut) => {Stamp(cut)}
      case SendAck => {Stamp(Cut(Segment(sender.buffer.Sequence(), [], false), sender.buffer.pos))}
      case _ => {}
    }
  }

  datatype System = System(left: Endpoint, right: Endpoint, toRight: set<Packet>, toLeft: set<Packet>) {
    ghost predicate Valid() {
      left.receiver.Valid() && right.receiver.Valid()
    }

    predicate Enabled(step: Step) {
      if step.onLeft then left.Enabled(step.action, toLeft) else right.Enabled(step.action, toRight)
    }

    function Do(step: Step): System
      requires |left.receiver.buffered| <= left.receiver.capacity
      requires |right.receiver.buffered| <= right.receiver.capacity
    {
      if step.onLeft then
        this.(left := left.Next(step.action), toRight := toRight + left.Output(step.action))
      else
        this.(right := right.Next(step.action), toLeft := toLeft + right.Output(step.action))
    }
  }

  datatype Step = Step(onLeft: bool, action: Action)

  // One endpoint after the handshake: its own stream starts at isn, the peer's at peerIsn.
  predicate Fresh(x: Endpoint, isn: uint32, peerIsn: uint32) {
    && x.sender.buffer == WriteBuffer(isn, 0, false, false, [])
    && x.sender.failure.None?
    && x.receiver.assembler == Assembler(peerIsn, 0, map[], None)
    && x.receiver.buffered == [] && !x.receiver.hitEof
    && x.writer.Idle? && x.emitted == {} && x.written == [] && x.read == []
    && !x.expired && !x.panicked
  }

  predicate Initial(s: System, leftIsn: uint32, rightIsn: uint32) {
    && Fresh(s.left, leftIsn, rightIsn) && Fresh(s.right, rightIsn, leftIsn)
    && s.toRight == {} && s.toLeft == {}
  }

  ghost predicate Executes(s: System, steps: seq<Step>, t: System)
    decreases |steps|
  {
    if steps == [] then s == t
    else s.Valid() && s.Enabled(steps[0]) && Executes(s.Do(steps[0]), steps[1..], t)
  }

  // ----- What every step keeps -----

  // The sender holds exactly the unacknowledged suffix of what was written.
  ghost predicate HoldsSuffix(x: Endpoint) {
    var b := x.sender.buffer;
    && b.Valid() && |b.data| < SEQ_MOD && |b.data| <= |x.written|
    && b.data == x.written[|x.written| - |b.data|..]
    && b.pos == |x.written| - |b.data| + if b.sentEof then 1 else 0
  }

  // The most bytes a segment carries: the segment size, or the one byte of a probe.
  function Largest(x: Endpoint): nat {
    if x.sender.maxSegmentSize == 0 then 1 else x.sender.maxSegmentSize
  }

  // A segment cut from the written stream, not ahead of the acknowledged position.
  ghost predicate Genuine(x: Endpoint, c: Cut) {
    && CutFrom(c.segment, c.at, x.sender.buffer.isn, x.written)
    && |c.segment.data| <= Largest(x)
    && c.at <= x.sender.buffer.pos
    && (c.segment.fin ==> x.sender.buffer.sendEof)
  }

  ghost predicate WriterOk(x: Endpoint) {
    var b, stopped := x.sender.buffer, x.sender.failure.Some?;
    && (x.panicked ==> x.expired)
    && match x.writer
       case Idle => !x.expired && !stopped ==> b.data == []
       case Writing(length, from, closing, ticket) =>
         && ticket <= x.sender.notified
         && from + length == |x.written|
         && |b.data| <= length
         && (closing <==> b.sendEof)
         && (ticket < x.sender.notified && !stopped ==> b.Outstanding() == 0)
  }

  // The receiver has delivered or buffered exactly the stream up to its position.
  ghost predicate HoldsPrefix(r: Endpoint, x: Endpoint) {
    var a := r.receiver.assembler;
    && r.receiver.Valid() && a.isn == x.sender.buffer.isn
    && Agrees(a, x.written)
    && (a.fin.Some? ==> x.sender.buffer.sendEof)
    && (r.receiver.hitEof <==> a.SeenEof())
    && x.sender.buffer.pos <= a.pos
    && r.read + r.receiver.buffered == x.written[..Skimmed(a)]
  }

  // How many bytes the assembler has passed on: its position, less the end of stream.
  function Skimmed(a: Assembler): nat
    ensures a.SeenEof() ==> Skimmed(a) == a.fin.value
  {
    if a.SeenEof() then a.fin.value else a.pos
  }

  ghost predicate Acknowledges(r: Endpoint, x: Endpoint, p: Packet) {
    p.ack == Wrap(x.sender.buffer.isn + p.ackAt) && p.ackAt <= r.receiver.assembler.pos
  }

  // Everything known about the direction from x to r.
  ghost predicate Carries(x: Endpoint, r: Endpoint, data: set<Packet>, acks: set<Packet>) {
    && HoldsSuffix(x) && WriterOk(x) && HoldsPrefix(r, x)
    && (forall c :: c in x.emitted ==> Genuine(x, c))
    && (forall p :: p in data ==> Genuine(x, p.cut))
    && (forall p :: p in acks ==> Acknowledges(r, x, p))
  }

  lemma NextIsGenuine(x: Endpoint)
    requires HoldsSuffix(x)
    ensures x.sender.Next().Some? ==> Genuine(x, Cut(x.sender.Next().value, x.sender.buffer.pos))
  {
  }

  lemma AckKeepsSuffix(x: Endpoint, at: nat)
    requires HoldsSuffix(x) && at <= x.sender.buffer.pos + x.sender.buffer.Outstanding()
    ensures HoldsSuffix(x.(sender := x.sender.(buffer := x.sender.buffer.AckTo(at))))
  {
    AckToConserves(x.sender.buffer, at);
  }

  // Only the sender changed, its position moving on; one more segment may have been emitted.
  lemma SenderMoved(x: Endpoint, y: Endpoint, r: Endpoint, data: set<Packet>, acks: set<Packet>)
    requires Carries(x, r, data, acks)
    requires HoldsSuffix(y) && WriterOk(y)
    requires y.written == x.written && y.sender.buffer.isn == x.sender.buffer.isn
    requires y.sender.maxSegmentSize == x.sender.maxSegmentSize
    requires x.sender.buffer.sendEof == y.sender.buffer.sendEof
    requires x.sender.buffer.pos <= y.sender.buffer.pos <= r.receiver.assembler.pos
    requires forall c :: c in y.emitted ==> c in x.emitted || Genuine(y, c)
    ensures Carries(y, r, data, acks)
  {
  }

  lemma AckKeepsWriter(x: Endpoint, at: nat, window: uint16)
    requires HoldsSuffix(x) && WriterOk(x) && at <= x.sender.buffer.pos + x.sender.buffer.Outstanding()
    ensures WriterOk(x.(sender := x.sender.AckTo(at, window)))
  {
    AckToConserves(x.sender.buffer, at);
  }

  lemma AckInRange(x: Endpoint, r: Endpoint, at: nat)
    requires HoldsSuffix(x) && HoldsPrefix(r, x) && at <= r.receiver.assembler.pos
    ensures at <= x.sender.buffer.pos + x.sender.buffer.Outstanding()
  {
  }

  lemma EmittingKeepsCarries(x: Endpoint, r: Endpoint, data: set<Packet>, acks: set<Packet>)
    requires Carries(x, r, data, acks)
    ensures Carries(x.WithNext(), r, data, acks)
  {
    NextIsGenuine(x);
    SenderMoved(x, x.WithNext(), r, data, acks);
  }

  lemma AckToKeepsCarries(x: Endpoint, r: Endpoint, data: set<Packet>, acks: set<Packet>, at: nat, window: uint16)
    requires Carries(x, r, data, acks)
    requires at <= r.receiver.assembler.pos && at <= x.sender.buffer.pos + x.sender.buffer.Outstanding()
    ensures Carries(x.(sender := x.sender.AckTo(at, window)), r, data, acks)
  {
    AckKeepsSuffix(x, at);
    AckKeepsWriter(x, at, window);
    AckToConserves(x.sender.buffer, at);
    SenderMoved(x, x.(sender := x.sender.AckTo(at, window)), r, data, acks);
  }

  lemma AckedIsAckTo(x: Endpoint, at: nat, ack: uint32, window: uint16)
    requires x.sender.buffer.Valid() && |x.sender.buffer.data| < SEQ_MOD
    requires at <= x.sender.buffer.pos + x.sender.buffer.Outstanding() && x.FreshAck(at)
    requires ack == Wrap(x.sender.buffer.isn + at)
    ensures x.Acked(ack, window) == x.(sender := x.sender.AckTo(at, window)).WithNext()
  {
    HandleWakesWhenDrained(x.sender, at, window);
  }

  lemma AckKeepsCarries(x: Endpoint, r: Endpoint, data: set<Packet>, acks: set<Packet>, p: Packet)
    requires Carries(x, r, data, acks) && p in acks && x.FreshAck(p.ackAt)
    ensures Carries(x.Acked(p.ack, p.window), r, data, acks)
  {
    assert Acknowledges(r, x, p);
    AckInRange(x, r, p.ackAt);
    AckedIsAckTo(x, p.ackAt, p.ack, p.window);
    AckToKeepsCarries(x, r, data, acks, p.ackAt, p.window);
    EmittingKeepsCarries(x.(sender := x.sender.AckTo(p.ackAt, p.window)), r, data, acks);
  }

  // The endpoint right after data was accepted, or the end of the stream requested.
  function Accepted(x: Endpoint, bytes: seq<byte>, close: bool): Endpoint {
    x.(sender := x.sender.Start(bytes, close),
       writer := Writing(|bytes|, |x.written|, close, x.sender.notified),
       written := x.written + bytes)
  }

  lemma AcceptedHoldsSuffix(x: Endpoint, bytes: seq<byte>, close: bool)
    requires HoldsSuffix(x) && WriterOk(x) && x.writer.Idle? && |bytes| < SEQ_MOD
    requires x.sender.StartResult().Waiting? && (close ==> bytes == [])
    ensures HoldsSuffix(Accepted(x, bytes, close)) && WriterOk(Accepted(x, bytes, close))
  {
  }

  lemma LongerStream(x: Endpoint, y: Endpoint, r: Endpoint, data: set<Packet>, acks: set<Packet>, bytes: seq<byte>)
    requires Carries(x, r, data, acks) && HoldsSuffix(y) && WriterOk(y)
    requires y.sender.buffer.isn == x.sender.buffer.isn && y.sender.buffer.pos == x.sender.buffer.pos
    requires y.written == x.written + bytes && y.emitted == x.emitted
    requires y.sender.maxSegmentSize == x.sender.maxSegmentSize
    requires x.sender.buffer.sendEof ==> bytes == [] && y.sender.buffer.sendEof
    ensures Carries(y, r, data, acks)
  {
    forall c | Genuine(x, c)
      ensures Genuine(y, c)
    {
      GenuineInLonger(x, y, c);
    }
    PrefixOfLonger(x, y, r);
    forall p | p in acks
      ensures Acknowledges(r, y, p)
    {
      assert Acknowledges(r, x, p);
    }
  }

  lemma GenuineInLonger(x: Endpoint, y: Endpoint, c: Cut)
    requires Genuine(x, c) && x.written <= y.written && y.sender.maxSegmentSize == x.sender.maxSegmentSize
    requires y.sender.buffer.isn == x.sender.buffer.isn && y.sender.buffer.pos == x.sender.buffer.pos
    requires x.sender.buffer.sendEof ==> y.written == x.written && y.sender.buffer.sendEof
    ensures Genuine(y, c)
  {
    var s, end := c.segment, c.at + |c.segment.data|;
    if s.data != [] {
      assert x.written[c.at..end] == y.written[c.at..end];
    }
  }

  lemma PrefixOfLonger(x: Endpoint, y: Endpoint, r: Endpoint)
    requires HoldsPrefix(r, x) && x.written <= y.written
    requires y.sender.buffer.isn == x.sender.buffer.isn && y.sender.buffer.pos == x.sender.buffer.pos
    requires x.sender.buffer.sendEof ==> y.written == x.written && y.sender.buffer.sendEof
    ensures HoldsPrefix(r, y)
  {
    var n := Skimmed(r.receiver.assembler);
    assert r.read + r.receiver.buffered == x.written[..n];
    assert x.written[..n] == y.written[..n];
  }

  lemma WriteKeepsCarries(x: Endpoint, r: Endpoint, data: set<Packet>, acks: set<Packet>,
                          bytes: seq<byte>, close: bool)
    requires Carries(x, r, data, acks) && x.writer.Idle? && |bytes| < SEQ_MOD
    requires close ==> bytes == []
    ensures Carries(x.Start(bytes, close), r, data, acks)
  {
    if x.sender.StartResult().Waiting? {
      var y := Accepted(x, bytes, close);
      AcceptedHoldsSuffix(x, bytes, close);
      LongerStream(x, y, r, data, acks, bytes);
      EmittingKeepsCarries(y, r, data, acks);
      assert x.Start(bytes, close) == y.WithNext();
    }
  }

  // Steps that leave the write buffer and the written stream alone.
  lemma QuietStepKeepsCarries(x: Endpoint, r: Endpoint, data: set<Packet>, acks: set<Packet>, action: Action)
    requires Carries(x, r, data, acks) && x.receiver.Valid()
    requires x.Enabled(action, acks)
    requires !action.Write? && !action.Close? && !action.Deliver?
    ensures Carries(x.Next(action), r, data, acks)
  {
    var y := x.Next(action);
    assert y.sender.buffer == x.sender.buffer && y.written == x.written && y.emitted == x.emitted;
    assert HoldsSuffix(y);
    QuietStepKeepsWriter(x, acks, action);
    SenderMoved(x, y, r, data, acks);
  }

  lemma QuietStepKeepsWriter(x: Endpoint, acks: set<Packet>, action: Action)
    requires HoldsSuffix(x) && WriterOk(x) && x.receiver.Valid()
    requires x.Enabled(action, acks)
    requires !action.Write? && !action.Close? && !action.Deliver?
    ensures WriterOk(x.Next(action))
  {
  }

  lemma SameSender(x: Endpoint, y: Endpoint, r: Endpoint, data: set<Packet>, acks: set<Packet>)
    requires Carries(x, r, data, acks)
    requires y == x.(receiver := y.receiver)
    ensures Carries(y, r, data, acks)
  {
    SenderMoved(x, y, r, data, acks);
  }

  lemma MovePreservesCarries(x: Endpoint, r: Endpoint, data: set<Packet>, acks: set<Packet>, action: Action)
    requires Carries(x, r, data, acks) && x.receiver.Valid()
    requires x.Enabled(action, acks)
    ensures Carries(x.Next(action), r, data, acks)
  {
    match action
    case Write(bytes) =>
      if bytes != [] {
        WriteKeepsCarries(x, r, data, acks, bytes, false);
      }
    case Close => WriteKeepsCarries(x, r, data, acks, [], true);
    case Deliver(p) =>
      SameSender(x, x.Received(p.cut.segment), r, data, acks);
      AckKeepsCarries(x.Received(p.cut.segment), r, data, acks, p);
    case _ => QuietStepKeepsCarries(x, r, data, acks, action);
  }

  lemma SenderStepKeepsCarries(x: Endpoint, r: Endpoint, data: set<Packet>, acks: set<Packet>, action: Action)
    requires Carries(x, r, data, acks) && x.receiver.Valid()
    requires x.Enabled(action, acks)
    ensures Carries(x.Next(action), r, data + x.Output(action), acks)
  {
    MovePreservesCarries(x, r, data, acks, action);
    if x.Output(action) == {} {
      assert data + x.Output(action) == data;
    } else {
      assert x.Next(action) == x;
      OutputIsGenuine(x, action);
    }
  }

  lemma OutputIsGenuine(x: Endpoint, action: Action)
    requires HoldsSuffix(x)
    requires forall c :: c in x.emitted ==> Genuine(x, c)
    requires action.Transmit? ==> action.cut in x.emitted
    ensures forall p :: p in x.Output(action) ==> Genuine(x, p.cut)
  {
  }

  lemma OutputIsStamped(x: Endpoint, action: Action, p: Packet)
    requires x.receiver.Valid() && p in x.Output(action)
    ensures p.ack == x.receiver.assembler.Sequence() && p.window == x.receiver.Window() % 0x1_0000
  {
  }

  // A skim of an assembler that agrees with the stream yields the next bytes of the stream.
  lemma SkimDataIsSlice(a: Assembler, max: nat, stream: seq<byte>)
    requires Agrees(a, stream)
    ensures var i, n := Skimmed(a), a.SkimLength(max);
            i + n <= |stream| && a.SkimData(max) == stream[i..i + n]
  {
    var n := a.SkimLength(max);
    SkimWithin(a, max, stream, n);
    if n > 0 {
      SliceIsSkim(a, max, stream, stream[a.pos..a.pos + n]);
    }
  }

  lemma SliceIsSkim(a: Assembler, max: nat, stream: seq<byte>, d: seq<byte>)
    requires |d| == a.SkimLength(max) && a.pos + |d| <= |stream| && d == stream[a.pos..a.pos + |d|]
    requires forall p :: a.pos <= p < a.pos + |d| ==> p in a.got && a.got[p] == stream[p]
    ensures a.SkimData(max) == d
  {
    SkimDataIs(a, max, d);
  }

  lemma SkimWithin(a: Assembler, max: nat, stream: seq<byte>, n: nat)
    requires Agrees(a, stream) && n == a.SkimLength(max)
    ensures Skimmed(a) + n <= |stream| && (n > 0 ==> Skimmed(a) == a.pos)
    ensures forall p :: a.pos <= p < a.pos + n ==> p in a.got && a.got[p] == stream[p]
  {
    assert n > 0 ==> a.pos + n - 1 in a.got;
  }

  lemma SkimKeepsAgreement(a: Assembler, max: nat, stream: seq<byte>)
    requires Agrees(a, stream)
    ensures Agrees(a.Skim(max), stream)
    ensures Skimmed(a.Skim(max)) == Skimmed(a) + a.SkimLength(max)
  {
    SkimKeepsValid(a, max);
    SkimDataIsSlice(a, max, stream);
  }

  lemma SkimTakesStream(a: Assembler, b: Assembler, max: nat, stream: seq<byte>)
    requires Agrees(a, stream) && b == a.Skim(max)
    ensures Skimmed(a) <= Skimmed(b) <= |stream|
    ensures stream[..Skimmed(a)] + a.SkimData(max) == stream[..Skimmed(b)]
  {
    SkimDataIsSlice(a, max, stream);
    SkimKeepsAgreement(a, max, stream);
    PrefixThenSlice(stream, Skimmed(a), a.SkimLength(max), a.SkimData(max));
  }

  lemma PrefixThenSlice(stream: seq<byte>, i: nat, n: nat, d: seq<byte>)
    requires i + n <= |stream| && d == stream[i..i + n]
    ensures stream[..i] + d == stream[..i + n]
  {
  }

  // The receiver q is r after its assembler went from a to c, passing on the bytes d.
  lemma PrefixGrows(x: Endpoint, r: Endpoint, q: Endpoint, c: Assembler, d: seq<byte>)
    requires HoldsPrefix(r, x)
    requires Agrees(c, x.written) && c.isn == x.sender.buffer.isn
    requires r.receiver.assembler.pos <= c.pos
    requires c.fin.Some? ==> x.sender.buffer.sendEof
    requires Skimmed(r.receiver.assembler) <= |x.written| && Skimmed(c) <= |x.written|
    requires x.written[..Skimmed(r.receiver.assembler)] + d == x.written[..Skimmed(c)]
    requires q.read == r.read && q.receiver.assembler == c
    requires q.receiver.buffered == r.receiver.buffered + d
    requires |q.receiver.buffered| <= q.receiver.capacity
    requires q.receiver.hitEof <==> c.SeenEof()
    ensures HoldsPrefix(q, x)
  {
    assert q.read + q.receiver.buffered == r.read + r.receiver.buffered + d;
  }

  // The bytes d went from the buffer to the reader.
  lemma HandedOut(x: Endpoint, r: Endpoint, q: Endpoint, d: seq<byte>)
    requires HoldsPrefix(r, x) && q.read == r.read + d && d + q.receiver.buffered == r.receiver.buffered
    requires q.receiver.assembler == r.receiver.assembler && q.receiver.capacity == r.receiver.capacity
    requires q.receiver.hitEof == r.receiver.hitEof
    ensures HoldsPrefix(q, x)
  {
    assert r.read + d + q.receiver.buffered == r.read + r.receiver.buffered;
  }

  lemma SegmentKeepsPrefix(x: Endpoint, r: Endpoint, p: Packet)
    requires HoldsSuffix(x) && HoldsPrefix(r, x) && Genuine(x, p.cut) && r.FreshData(p.cut)
    ensures HoldsPrefix(r.Received(p.cut.segment), x)
    ensures r.receiver.assembler.pos <= r.Received(p.cut.segment).receiver.assembler.pos
  {
    var a, s, max := r.receiver.assembler, p.cut.segment, r.receiver.Window();
    AddStoresTheCut(a, s, p.cut.at, x.written);
    var b := a.Add(s);
    SkimKeepsValid(b, max);
    SkimTakesStream(b, b.Skim(max), max, x.written);
    SkimKeepsAgreement(b, max, x.written);
    assert Skimmed(a) == Skimmed(b);
    PrefixGrows(x, r, r.Received(s), b.Skim(max), b.SkimData(max));
  }

  lemma ReadKeepsPrefix(x: Endpoint, r: Endpoint, want: nat)
    requires HoldsPrefix(r, x)
    ensures HoldsPrefix(r.Next(Read(want)), x)
  {
    ReadHandsOut(r.receiver, want);
    HandedOut(x, r, r.Next(Read(want)), r.receiver.ReadResult(want).Bytes());
  }

  // Only the receiver changed, its position moving on.
  lemma ReceiverMoved(x: Endpoint, r: Endpoint, q: Endpoint, data: set<Packet>, acks: set<Packet>)
    requires Carries(x, r, data, acks) && HoldsPrefix(q, x)
    requires r.receiver.assembler.pos <= q.receiver.assembler.pos
    ensures Carries(x, q, data, acks)
  {
    forall p | p in acks ensures Acknowledges(q, x, p) {
      assert Acknowledges(r, x, p);
    }
  }

  // The peer's view of r changes only through its receiver and what it has read.
  lemma SameReceiver(x: Endpoint, r: Endpoint, q: Endpoint, data: set<Packet>, acks: set<Packet>)
    requires Carries(x, r, data, acks)
    requires q.receiver.assembler == r.receiver.assembler && q.receiver.buffered == r.receiver.buffered
    requires q.receiver.capacity == r.receiver.capacity && q.receiver.hitEof == r.receiver.hitEof
    requires q.read == r.read
    ensures Carries(x, q, data, acks)
  {
    ReceiverMoved(x, r, q, data, acks);
  }

  lemma DeliveryKeepsCarries(x: Endpoint, r: Endpoint, data: set<Packet>, acks: set<Packet>, p: Packet)
    requires Carries(x, r, data, acks) && p in data && r.FreshData(p.cut)
    ensures Carries(x, r.Received(p.cut.segment).Acked(p.ack, p.window), data, acks)
  {
    var q := r.Received(p.cut.segment);
    SegmentKeepsPrefix(x, r, p);
    ReceiverMoved(x, r, q, data, acks);
    SameReceiver(x, q, q.Acked(p.ack, p.window), data, acks);
  }

  lemma ReadKeepsCarries(x: Endpoint, r: Endpoint, data: set<Packet>, acks: set<Packet>, want: nat)
    requires Carries(x, r, data, acks)
    ensures Carries(x, r.Next(Read(want)), data, acks)
  {
    assert r.Next(Read(want)).receiver.assembler == r.receiver.assembler;
    ReadKeepsPrefix(x, r, want);
    ReceiverMoved(x, r, r.Next(Read(want)), data, acks);
  }

  lemma ReceptionPreservesCarries(x: Endpoint, r: Endpoint, data: set<Packet>, acks: set<Packet>, action: Action)
    requires Carries(x, r, data, acks)
    requires r.Enabled(action, data)
    ensures Carries(x, r.Next(action), data, acks)
  {
    match action
    case Deliver(p) => DeliveryKeepsCarries(x, r, data, acks, p);
    case Read(want) => ReadKeepsCarries(x, r, data, acks, want);
    case _ => SameReceiver(x, r, r.Next(action), data, acks);
  }

  lemma ReceiverStepKeepsCarries(x: Endpoint, r: Endpoint, data: set<Packet>, acks: set<Packet>, action: Action)
    requires Carries(x, r, data, acks)
    requires r.Enabled(action, data)
    ensures Carries(x, r.Next(action), data, acks + r.Output(action))
  {
    ReceptionPreservesCarries(x, r, data, acks, action);
    if r.Output(action) == {} {
      assert acks + r.Output(action) == acks;
    } else {
      assert r.Next(action) == r;
      assert forall p :: p in r.Output(action) ==> Acknowledges(r, x, p);
    }
  }
}
