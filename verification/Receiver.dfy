// The receiving end of a TCP connection: the assembler feeding a bounded read buffer.

module Receiving {
  import opened Bytes
  import opened Wrappers
  import opened Assembly

  type Error = string

  // What one attempt of Read comes back with; Blocked means it has to wait for a wake-up.
  datatype ReadOutcome = Received(data: seq<byte>, eof: bool) | ReadFailed(error: Error) | Blocked {
    // What the caller gets to see of the stream.
    function Bytes(): seq<byte> {
      if Received? then data else []
    }
  }

  // buffered: bytes skimmed but not yet read; notified: how many wake-ups were sent so far.
  datatype Receiver = Receiver(assembler: Assembler, buffered: seq<byte>, capacity: nat, hitEof: bool,
                               failure: Option<Error>, notified: nat, windowOpen: bool) {

    ghost predicate Valid() {
      assembler.Valid() && |buffered| <= capacity
    }

    function Window(): int { capacity - |buffered| }

    predicate Done() { hitEof || failure.Some? }

    function Handle(s: Segment): Receiver
      requires |buffered| <= capacity
    {
      var a := assembler.Add(s);
      this.(assembler := a.Skim(Window()),
            buffered := buffered + a.SkimData(Window()),
            hitEof := hitEof || a.SkimEof(Window()),
            notified := notified + 1)
    }

    function Taken(want: nat): nat {
      if |buffered| > want then want else |buffered|
    }

    function ReadResult(want: nat): ReadOutcome {
      var n := Taken(want);
      var eof := n == |buffered| && hitEof;
      if n > 0 || eof then Received(buffered[..n], eof)
      else if failure.Some? then ReadFailed(failure.value)
      else Blocked
    }

    function AfterRead(want: nat): Receiver {
      this.(buffered := buffered[Taken(want)..],
            windowOpen := windowOpen || (Window() == 0 && Taken(want) != 0))
    }

    function Fail(error: Error): Receiver {
      this.(failure := Some(error), notified := notified + 1)
    }
  }

  // A Read hands out the front of the buffer, as much of it as the caller has room for, and takes
  // nothing else out; it reports the end when nothing is left before it. Without bytes or end it
  // reports the failure, and waits only when there is none. A window that opens is announced.
  lemma ReadHandsOut(r: Receiver, want: nat)
    requires r.Valid()
    ensures var outcome, after := r.ReadResult(want), r.AfterRead(want);
            && outcome.Bytes() + after.buffered == r.buffered
            && |outcome.Bytes()| <= want && (|outcome.Bytes()| == want || after.buffered == [])
            && (outcome.Received? ==> outcome.data != [] || outcome.eof)
            && (outcome.Received? ==> (outcome.eof <==> r.hitEof && after.buffered == []))
            && (!outcome.Received? ==> want == 0 || (r.buffered == [] && !r.hitEof))
            && (outcome.ReadFailed? ==> r.failure == Some(outcome.error))
            && (outcome.Blocked? ==> r.failure.None?)
            && (after.windowOpen <==> r.windowOpen || (|r.buffered| == r.capacity && |after.buffered| < r.capacity))
            && after == r.(buffered := after.buffered, windowOpen := after.windowOpen)
  {
    var n := r.Taken(want);
    assert r.buffered[..n] + r.buffered[n..] == r.buffered;
  }

  lemma HandleInParts(r: Receiver, s: Segment, added: Assembler, data: seq<byte>, eof: bool, result: Receiver)
    requires |r.buffered| <= r.capacity && added == r.assembler.Add(s)
    requires data == added.SkimData(r.Window()) && eof == added.SkimEof(r.Window())
    requires result.assembler == added.Skim(r.Window()) && result.buffered == r.buffered + data
    requires result.hitEof == (r.hitEof || eof) && result.notified == r.notified + 1
    requires result.capacity == r.capacity && result.failure == r.failure && result.windowOpen == r.windowOpen
    ensures result == r.Handle(s)
  {
  }

  // A buffer that takes what Skim gives never overflows, and its window never exceeds capacity.
  lemma HandleFits(r: Receiver, s: Segment)
    requires r.Valid() && r.assembler.Add(s).Valid()
    ensures r.Handle(s).Valid()
    ensures |r.assembler.Add(s).SkimData(r.Window())| <= r.Window()
  {
    SkimKeepsValid(r.assembler.Add(s), r.Window());
  }

  // It takes all it can: afterwards the buffer is full, the next byte has not arrived, or the
  // stream has ended. And whoever waits is woken.
  lemma HandleTakesAll(r: Receiver, s: Segment)
    requires r.Valid() && r.assembler.Add(s).Valid()
    ensures var after := r.Handle(s);
            && (after.Window() == 0 || after.assembler.SeenEof() || after.assembler.pos !in after.assembler.got)
            && after.notified > r.notified
  {
    SkimTakesAll(r.assembler.Add(s), r.Window());
  }
}

module TcpReceiver {
  import opened Bytes
  import opened Circular
  import opened Wrappers
  import opened Assembly
  import opened Receiving
  import TcpAssembler

  // Flow control for incoming data: a fixed array whose first size bytes are readable.
  class TcpRecvBuffer {
    var size: nat
    const buffer: array<byte>
    var hitEOF: bool

    ghost predicate Valid()
      reads this
    {
      size <= buffer.Length
    }

    ghost function Contents(): seq<byte>
      reads this, buffer
      requires Valid()
    {
      buffer[..size]
    }

    constructor (bufSize: nat)
      ensures Valid() && fresh(buffer) && buffer.Length == bufSize
      ensures Contents() == [] && !hitEOF
    {
      size := 0;
      buffer := new byte[bufSize](_ => 0);
      hitEOF := false;
    }

    // Adds data that must fit: the program panics otherwise.
    method Put(data: seq<byte>)
      requires Valid() && |data| <= buffer.Length - size
      modifies this`size, buffer
      ensures Valid() && Contents() == old(Contents()) + data
    {
      var i := 0;
      while i < |data|
        modifies buffer
        invariant 0 <= i <= |data|
        invariant buffer[..size] == old(buffer[..size])
        invariant buffer[size..size + i] == data[..i]
      {
        buffer[size + i] := data[i];
        i := i + 1;
      }
      size := size + |data|;
    }

    method PutEOF()
      modifies this`hitEOF
      ensures hitEOF
    {
      hitEOF := true;
    }

    // Moves up to b.Length bytes out of the buffer into b.
    method Get(b: array<byte>) returns (n: nat, eof: bool)
      requires Valid() && b != buffer
      modifies this`size, buffer, b
      ensures Valid()
      ensures n == (if old(size) > b.Length then b.Length else old(size))
      ensures b[..n] == old(Contents())[..n] && b[n..] == old(b[n..])
      ensures Contents() == old(Contents())[n..]
      ensures eof <==> Contents() == [] && hitEOF
    {
      n := size;
      if n > b.Length {
        n := b.Length;
      }
      forall i | 0 <= i < n {
        b[i] := buffer[i];
      }
      TcpAssembler.ShiftDown(buffer, n);
      size := size - n;
      eof := size == 0 && hitEOF;
    }

    method Window() returns (w: nat)
      requires Valid()
      ensures w == buffer.Length - |Contents()|
    {
      w := buffer.Length - size;
    }
  }

  class SimpleTcpRecv {
    var failErr: Option<Error>
    const assembler: TcpAssembler.TcpAssembler
    const buffer: TcpRecvBuffer
    var notified: nat
    var windowOpen: bool

    ghost predicate Valid()
      reads this, assembler, buffer
    {
      && assembler.Valid() && buffer.Valid()
      && buffer.buffer != assembler.buffer
    }

    ghost function Repr(): set<object> {
      {this, assembler, assembler.buffer, assembler.mask, buffer, buffer.buffer}
    }

    ghost function Abs(): (r: Receiver)
      reads this, assembler, assembler.buffer, assembler.mask, buffer, buffer.buffer
      requires Valid()
      ensures r.Valid()
    {
      Receiver(assembler.Abs(), buffer.Contents(), buffer.buffer.Length, buffer.hitEOF,
               failErr, notified, windowOpen)
    }

    constructor (startSeq: uint32, bufSize: nat)
      ensures Valid() && fresh(Repr())
      ensures Abs() == Receiver(Assembler(startSeq, 0, map[], None), [], bufSize, false, None, 0, false)
    {
      failErr := None;
      assembler := new TcpAssembler.TcpAssembler(startSeq);
      buffer := new TcpRecvBuffer(bufSize);
      notified := 0;
      windowOpen := false;
    }

    // One attempt of Read, under the lock; after Blocked it is repeated upon the next wake-up.
    method TryRead(b: array<byte>) returns (outcome: ReadOutcome)
      requires Valid() && b != buffer.buffer && b != assembler.buffer
      modifies buffer, buffer.buffer, this`windowOpen, b
      ensures Valid() && Abs() == old(Abs()).AfterRead(b.Length)
      ensures outcome == old(Abs()).ReadResult(b.Length)
      ensures outcome.Received? ==> |outcome.data| <= b.Length && b[..|outcome.data|] == outcome.data
    {
      var oldWindow := buffer.Window();
      var n, eof := buffer.Get(b);
      var newWindow := buffer.Window();
      if newWindow != 0 && oldWindow == 0 {
        windowOpen := true;
      }
      if n > 0 || eof {
        return Received(b[..n], eof);
      }
      if failErr.Some? {
        return ReadFailed(failErr.value);
      }
      return Blocked;
    }

    method Handle(segment: Segment)
      requires Valid() && |segment.data| <= SEQ_MOD
      modifies Repr()
      ensures Valid() && Abs() == old(Abs()).Handle(segment)
    {
      ghost var r := Abs();
      assembler.AddSegment(segment);
      ghost var added := assembler.Abs();
      var window := buffer.Window();
      var newData, eof := assembler.Skim(window);
      Accept(newData, eof);
      HandleInParts(r, segment, added, newData, eof, Abs());
    }

    // What Skim gave goes to the readers.
    method Accept(data: seq<byte>, eof: bool)
      requires Valid() && |data| <= buffer.buffer.Length - buffer.size
      modifies this, buffer, buffer.buffer
      ensures Valid() && Abs() == old(Abs()).(buffered := old(Abs()).buffered + data,
                                              hitEof := old(Abs()).hitEof || eof,
                                              notified := old(Abs()).notified + 1)
    {
      buffer.Put(data);
      if eof {
        buffer.PutEOF();
      }
      notified := notified + 1;
    }

    method Fail(err: Error)
      requires Valid()
      modifies this
      ensures Valid() && Abs() == old(Abs()).Fail(err)
    {
      failErr := Some(err);
      notified := notified + 1;
    }

    method Ack() returns (ack: uint32)
      requires Valid()
      ensures ack == Abs().assembler.Sequence()
    {
      ack := assembler.Seq();
    }

    // The advertised window is the free space truncated to 16 bits.
    method Window() returns (w: uint16)
      requires Valid()
      ensures w == Abs().Window() % 0x1_0000
    {
      var free := buffer.Window();
      w := free % 0x1_0000;
    }

    method Done() returns (done: bool)
      requires Valid()
      ensures done == Abs().Done()
    {
      done := buffer.hitEOF || failErr.Some?;
    }
  }
}
