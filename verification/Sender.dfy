// The sending end of a TCP connection: a stop-and-wait buffer holding the unacknowledged
// suffix of one Write, or a pending FIN, and reading acknowledgements in circular arithmetic.

module Sending {
  import opened Bytes
  import opened Circular
  import opened Wrappers
  import opened Assembly
  import opened Receiving

  datatype WriteBuffer = WriteBuffer(isn: uint32, pos: nat, sendEof: bool, sentEof: bool, data: seq<byte>) {

    ghost predicate Valid() {
      && (sentEof ==> sendEof)
      && (sendEof ==> data == [])
    }

    function Sequence(): uint32 { Wrap(isn + pos) }

    // Sequence increments still to come, as uint32: a buffer of 2^32 bytes or more is truncated.
    function Remaining(): uint32 {
      if sendEof && !sentEof then 1 else Wrap(|data|)
    }

    // The same count without truncation, and what acknowledging position p means.
    function Outstanding(): nat {
      if sendEof && !sentEof then 1 else |data|
    }

    function AckTo(p: nat): WriteBuffer
      requires Valid() && p <= pos + Outstanding()
    {
      if p <= pos then this
      else if p == pos + Outstanding() then this.(pos := p, sentEof := sendEof, data := [])
      else this.(pos := p, data := data[p - pos..])
    }

    function Handle(ack: uint32): WriteBuffer {
      var offset := Wrap(ack - Sequence());
      if offset > Remaining() then this
      else if offset == Remaining() then
        this.(pos := pos + Remaining(), sentEof := sendEof, data := [])
      else this.(pos := pos + offset, data := data[offset..])
    }

    function Cut(maxSize: uint16): Segment {
      if sendEof then Segment(Sequence(), [], true)
      else Segment(Sequence(), if |data| > maxSize then data[..maxSize] else data, false)
    }
  }

  // Acknowledgements trade outstanding increments for positions one to one.
  lemma AckToConserves(w: WriteBuffer, p: nat)
    requires w.Valid() && p <= w.pos + w.Outstanding()
    ensures var v := w.AckTo(p);
            && v.Valid() && v.isn == w.isn && v.sendEof == w.sendEof
            && v.pos == (if p > w.pos then p else w.pos)
            && v.pos + v.Outstanding() == w.pos + w.Outstanding()
            && |v.data| <= |w.data| && v.data == w.data[|w.data| - |v.data|..]
            && v.pos - w.pos == |w.data| - |v.data| + (if v.sentEof && !w.sentEof then 1 else 0)
  {
  }

  // An acknowledgement of stream position p, fresh, duplicate or stale within the lifetime
  // bound, is read from its 32 bits as exactly that position.
  lemma HandleReadsAck(w: WriteBuffer, p: nat)
    requires w.Valid() && |w.data| < SEQ_MOD
    requires p <= w.pos + w.Outstanding()
    requires w.pos < p + SEQ_MOD - w.Outstanding()
    ensures w.Handle(Wrap(w.isn + p)) == w.AckTo(p)
  {
    WrapOffset(w.isn, p, 0, w.pos);
    if p < w.pos {
      WrapBehind(p - w.pos);
    }
  }

  // The bound is exact: a stale acknowledgement is taken for a fresh one exactly from
  // 2^32 - Remaining positions behind.
  lemma StaleAckBound(w: WriteBuffer, p: nat)
    requires w.Valid() && |w.data| < SEQ_MOD
    requires p < w.pos < p + SEQ_MOD
    ensures w.Handle(Wrap(w.isn + p)).pos == w.pos <==> w.pos < p + SEQ_MOD - w.Outstanding()
  {
    WrapOffset(w.isn, p, 0, w.pos);
    WrapBehind(p - w.pos);
  }

  // Acknowledging everything that Remaining reports drops exactly the acknowledged bytes,
  // if and only if the buffer is shorter than 2^32 bytes.
  lemma FullAckDropsWhatItAcknowledges(w: WriteBuffer)
    requires w.Valid() && !w.sendEof
    ensures var v := w.Handle(Wrap(w.isn + w.pos + w.Remaining()));
            v.pos - w.pos == |w.data| - |v.data| <==> |w.data| < SEQ_MOD
  {
    WrapOffset(w.isn, w.pos + w.Remaining(), 0, w.pos);
    assert w.isn + w.pos + w.Remaining() == w.isn + (w.pos + w.Remaining());
  }

  // The sender under its lock. notified counts wake-ups of the waiting writer.
  datatype Sender = Sender(buffer: WriteBuffer, window: uint16, maxSegmentSize: uint16,
                           failure: Option<Error>, notified: nat) {

    predicate Done() { buffer.sentEof || failure.Some? }

    // The segment handed to the retransmission timer, if anything remains to be sent.
    function Next(): Option<Segment> {
      if buffer.Remaining() == 0 then None
      else if window == 0 then Some(buffer.Cut(1))
      else Some(buffer.Cut(if window > maxSegmentSize then maxSegmentSize else window))
    }

    function Handle(ack: uint32, newWindow: uint16): Sender {
      var b := buffer.Handle(ack);
      this.(buffer := b, window := newWindow,
            notified := if b.Remaining() == 0 then notified + 1 else notified)
    }

    function AckTo(p: nat, newWindow: uint16): Sender
      requires buffer.Valid() && p <= buffer.pos + buffer.Outstanding()
    {
      var b := buffer.AckTo(p);
      this.(buffer := b, window := newWindow,
            notified := if b.Outstanding() == 0 then notified + 1 else notified)
    }

    function Fail(error: Error): Sender {
      this.(failure := Some(error), notified := notified + 1)
    }

    // The three ways a Write or Close gets past the lock, and the panic of SetData and SetEOF.
    function StartResult(): StartOutcome {
      if buffer.sendEof then Refused(ErrClosedPipe)
      else if failure.Some? then Refused(failure.value)
      else if buffer.data != [] then Panics
      else Waiting(notified)
    }

    function Start(data: seq<byte>, close: bool): Sender {
      if !StartResult().Waiting? then this
      else if close then this.(buffer := buffer.(sendEof := true))
      else this.(buffer := buffer.(data := data))
    }

    // What a woken Write of `length` bytes reports.
    function FinishResult(length: nat): FinishOutcome {
      if failure.Some? then Stopped(length - |buffer.data|, failure.value) else Written(length)
    }
  }

  // What goes to the timer obeys the peer's window and the segment size and is otherwise as long
  // as it can be; a closed window is probed with one byte, and the end of stream goes alone.
  lemma NextObeysWindow(s: Sender)
    requires s.buffer.Valid() && |s.buffer.data| < SEQ_MOD
    ensures s.Next().Some? <==> s.buffer.Outstanding() != 0
    ensures s.Next().Some? ==>
              var g := s.Next().value;
              && g.start == Wrap(s.buffer.isn + s.buffer.pos) && (g.fin <==> s.buffer.sendEof)
              && g.data <= s.buffer.data && (g.fin ==> g.data == [])
              && (!g.fin && s.window == 0 ==> |g.data| == 1)
              && (!g.fin && s.window > 0 ==>
                    && |g.data| <= s.window && |g.data| <= s.maxSegmentSize
                    && (|g.data| < |s.buffer.data| ==> |g.data| == s.window || |g.data| == s.maxSegmentSize))
  {
  }

  // In particular what is sent in answer to a packet goes by the window that packet announced.
  lemma AnswerObeysWindow(s: Sender, ack: uint32, window: uint16)
    requires s.buffer.Valid() && |s.buffer.data| < SEQ_MOD
    ensures var t := s.Handle(ack, window);
            t.Next().Some? && !t.Next().value.fin ==>
              var d := t.Next().value.data;
              && |d| <= (if window == 0 then 1 else window)
              && (|d| < |t.buffer.data| ==> |d| == s.maxSegmentSize || |d| == if window == 0 then 1 else window)
  {
    NextObeysWindow(s.Handle(ack, window));
  }

  // With a buffer below 2^32 bytes the writer is woken exactly when nothing is outstanding.
  lemma HandleWakesWhenDrained(s: Sender, p: nat, window: uint16)
    requires s.buffer.Valid() && |s.buffer.data| < SEQ_MOD
    requires p <= s.buffer.pos + s.buffer.Outstanding()
    requires s.buffer.pos < p + SEQ_MOD - s.buffer.Outstanding()
    ensures s.Handle(Wrap(s.buffer.isn + p), window) == s.AckTo(p, window)
  {
    HandleReadsAck(s.buffer, p);
    AckToConserves(s.buffer, p);
  }

  // That is when position p is the end of what is outstanding, or nothing was.
  lemma DrainedWakes(s: Sender, p: nat, window: uint16)
    requires s.buffer.Valid() && p <= s.buffer.pos + s.buffer.Outstanding()
    ensures s.AckTo(p, window).notified ==
            s.notified + if p == s.buffer.pos + s.buffer.Outstanding() || s.buffer.Outstanding() == 0 then 1 else 0
  {
    AckToConserves(s.buffer, p);
  }

  const ErrClosedPipe: Error := "io: read/write on closed pipe"

  datatype StartOutcome = Refused(error: Error) | Waiting(ticket: nat) | Panics

  datatype FinishOutcome = Written(count: nat) | Stopped(partial: int, error: Error)
}

module TcpSender {
  import opened Bytes
  import opened Circular
  import opened Wrappers
  import opened Assembly
  import opened Receiving
  import opened Sending

  class TcpWriteBuffer {
    var sequence: uint32
    var sendEOF: bool
    var sentEOF: bool
    var buffer: seq<byte>

    ghost var isn: uint32
    ghost var pos: nat

    ghost predicate Valid()
      reads this
    {
      && sequence == Wrap(isn + pos)
      && Abs().Valid()
    }

    ghost function Abs(): WriteBuffer
      reads this
    {
      WriteBuffer(isn, pos, sendEOF, sentEOF, buffer)
    }

    constructor (seqNum: uint32)
      ensures Valid() && Abs() == WriteBuffer(seqNum, 0, false, false, [])
    {
      sequence, sendEOF, sentEOF, buffer := seqNum, false, false, [];
      isn, pos := seqNum, 0;
    }

    // Panics in the program unless nothing is being sent.
    method SetData(data: seq<byte>)
      requires Valid() && buffer == [] && !sendEOF
      modifies this
      ensures Valid() && Abs() == old(Abs()).(data := data)
    {
      buffer := data;
    }

    // Panics in the program unless the buffer is empty.
    method SetEOF()
      requires Valid() && buffer == []
      modifies this
      ensures Valid() && Abs() == old(Abs()).(sendEof := true)
    {
      sendEOF := true;
    }

    method Remaining() returns (n: uint32)
      requires Valid()
      ensures n == Abs().Remaining()
    {
      if sendEOF && !sentEOF {
        return 1;
      }
      return Wrap(|buffer|);
    }

    method Handle(ack: uint32)
      requires Valid()
      modifies this
      ensures Valid() && Abs() == old(Abs()).Handle(ack)
    {
      var offset := Wrap(ack - sequence);
      var remaining := Remaining();
      if offset > remaining {
        return;
      }
      if offset == remaining {
        Move(remaining);
        sentEOF := sendEOF;
        buffer := [];
      } else {
        Move(offset);
        buffer := buffer[offset..];
      }
    }

    method Move(n: nat)
      requires sequence == Wrap(isn + pos)
      modifies this`sequence, this`pos
      ensures sequence == Wrap(isn + pos) && pos == old(pos) + n
    {
      WrapAdd(isn + pos, n);
      sequence := Wrap(sequence + n);
      pos := pos + n;
    }

    // Panics in the program when nothing remains.
    method Segment(maxSize: uint16) returns (s: Segment)
      requires Valid() && Abs().Remaining() != 0
      ensures s == Abs().Cut(maxSize)
    {
      if sendEOF {
        return Assembly.Segment.Segment(sequence, [], true);
      }
      var data := buffer;
      if |data| > maxSize {
        data := data[..maxSize];
      }
      return Assembly.Segment.Segment(sequence, data, false);
    }
  }

  class SimpleTcpSend {
    const maxSegmentSize: uint16
    const writeBuf: TcpWriteBuffer
    var failErr: Option<Error>
    var window: uint16
    var notified: nat

    ghost predicate Valid()
      reads this, writeBuf
    {
      writeBuf.Valid()
    }

    ghost function Abs(): Sender
      reads this, writeBuf
    {
      Sender(writeBuf.Abs(), window, maxSegmentSize, failErr, notified)
    }

    constructor (startSeq: uint32, win: uint16, mss: uint16)
      ensures Valid() && fresh(writeBuf)
      ensures Abs() == Sender(WriteBuffer(startSeq, 0, false, false, []), win, mss, None, 0)
    {
      maxSegmentSize := mss;
      writeBuf := new TcpWriteBuffer(startSeq);
      failErr := None;
      window := win;
      notified := 0;
    }

    // Returns the segment given to the timer, to be sent now or, with a zero window, later.
    method SendNext() returns (segment: Option<Segment>)
      requires Valid()
      ensures segment == Abs().Next()
    {
      var remaining := writeBuf.Remaining();
      if remaining == 0 {
        return None;
      }
      if window == 0 {
        var probe := writeBuf.Segment(1);
        return Some(probe);
      }
      var max := window;
      if max > maxSegmentSize {
        max := maxSegmentSize;
      }
      var s := writeBuf.Segment(max);
      return Some(s);
    }

    // The part of Write and Close before the wait for a wake-up.
    method Start(data: seq<byte>, close: bool) returns (outcome: StartOutcome, segment: Option<Segment>)
      requires Valid()
      modifies writeBuf
      ensures Valid() && Abs() == old(Abs()).Start(data, close)
      ensures outcome == old(Abs()).StartResult()
      ensures segment == if outcome.Waiting? then Abs().Next() else None
    {
      if writeBuf.sendEOF {
        return Refused(ErrClosedPipe), None;
      } else if failErr.Some? {
        return Refused(failErr.value), None;
      }
      if |writeBuf.buffer| > 0 {
        return Panics, None;
      }
      if close {
        writeBuf.SetEOF();
      } else {
        writeBuf.SetData(data);
      }
      segment := SendNext();
      outcome := Waiting(notified);
    }

    // The part of Write and Close after the wake-up.
    method Finish(length: nat) returns (outcome: FinishOutcome)
      requires Valid()
      ensures outcome == Abs().FinishResult(length)
    {
      if failErr.Some? {
        return Stopped(length - |writeBuf.buffer|, failErr.value);
      }
      return Written(length);
    }

    method Handle(ack: uint32, newWindow: uint16) returns (segment: Option<Segment>)
      requires Valid()
      modifies this, writeBuf
      ensures Valid() && Abs() == old(Abs()).Handle(ack, newWindow)
      ensures segment == Abs().Next()
    {
      writeBuf.Handle(ack);
      window := newWindow;
      segment := SendNext();
      var remaining := writeBuf.Remaining();
      if remaining == 0 {
        notified := notified + 1;
      }
    }

    method Fail(err: Error)
      requires Valid()
      modifies this
      ensures Valid() && Abs() == old(Abs()).Fail(err)
    {
      failErr := Some(err);
      notified := notified + 1;
    }

    method Seq() returns (s: uint32)
      requires Valid()
      ensures s == Abs().buffer.Sequence()
    {
      s := writeBuf.sequence;
    }

    method Done() returns (done: bool)
      requires Valid()
      ensures done == Abs().Done()
    {
      done := writeBuf.sentEOF || failErr.Some?;
    }
  }
}
