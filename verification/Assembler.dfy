// Out-of-order reassembly of a TCP byte stream: a 65536-slot window that slides over
// unbounded stream positions, addressed through 32-bit sequence numbers.

// The stream-level reading of the assembler: which logical positions hold which bytes.
module Assembly {
  import opened Bytes
  import opened Circular
  import opened Wrappers

  const WINDOW: nat := 65536

  datatype Segment = Segment(start: uint32, data: seq<byte>, fin: bool)

  // isn is the sequence number of position 0, pos the first position not yet skimmed,
  // got the received bytes still in the window and fin the position of the end of stream.
  datatype Assembler = Assembler(isn: uint32, pos: nat, got: map<nat, byte>, fin: Option<nat>) {

    ghost predicate Valid() {
      && (forall p :: p in got ==> pos <= p < pos + WINDOW)
      && (fin.Some? ==> pos <= fin.value + 1 && fin.value <= pos + WINDOW)
    }

    function Sequence(): uint32 { Wrap(isn + pos) }

    // The end of the stream is already the next thing to read, or has been read.
    predicate Ended() { fin.Some? && fin.value <= pos }

    predicate FinAt(p: int) { fin.Some? && fin.value == p }

    predicate SeenEof() { fin.Some? && fin.value + 1 == pos }

    // Which byte of the segment, if any, lands on stream position p.
    function Index(s: Segment, p: int): uint32 {
      Wrap(Sequence() + (p - pos) - s.start)
    }

    function FinOffset(s: Segment): uint32 {
      Wrap(s.start + |s.data| - Sequence())
    }

    function Add(s: Segment): Assembler {
      if Ended() then this
      else
        Assembler(isn, pos,
                  map p: nat | pos <= p < pos + WINDOW && (Index(s, p) < |s.data| || p in got)
                    :: if Index(s, p) < |s.data| then s.data[Index(s, p)] else got[p],
                  if s.fin && FinOffset(s) <= WINDOW then Some(pos + FinOffset(s)) else fin)
    }

    // How many bytes a skim takes once the first i are taken.
    function RunFrom(max: nat, i: nat): (n: nat)
      requires i <= WINDOW && i <= max
      ensures i <= n <= WINDOW && n <= max
      ensures forall p :: pos + i <= p < pos + n ==> p in got && !FinAt(p)
      ensures n < WINDOW && n < max && !FinAt(pos + n) ==> pos + n !in got
      decreases WINDOW - i
    {
      if i == WINDOW || FinAt(pos + i) || i == max || pos + i !in got then i
      else RunFrom(max, i + 1)
    }

    function SkimLength(max: nat): (n: nat)
      ensures n <= WINDOW && n <= max
      ensures forall p :: pos <= p < pos + n ==> p in got && !FinAt(p)
    {
      if SeenEof() then 0 else RunFrom(max, 0)
    }

    function SkimEof(max: nat): bool {
      SeenEof() || (SkimLength(max) < WINDOW && FinAt(pos + SkimLength(max)))
    }

    function SkimData(max: nat): (data: seq<byte>)
      ensures |data| == SkimLength(max)
    {
      seq(SkimLength(max), j requires 0 <= j < SkimLength(max) => got[pos + j])
    }

    function Advance(n: nat): Assembler {
      this.(pos := pos + n, got := map p: nat | p in got && pos + n <= p :: got[p])
    }

    function Skim(max: nat): Assembler {
      if SeenEof() then this
      else Advance(SkimLength(max) + if SkimEof(max) then 1 else 0)
    }
  }

  lemma SameBytes(m: map<nat, byte>, n: map<nat, byte>)
    requires forall p: nat :: p in m <==> p in n
    requires forall p: nat :: p in m ==> m[p] == n[p]
    ensures m == n
  {
  }

  // Every position of the run of n is received and before the end of stream.
  ghost predicate IsRun(a: Assembler, n: nat) {
    forall p :: a.pos <= p < a.pos + n ==> p in a.got && !a.FinAt(p)
  }

  lemma SkimRuns(a: Assembler, max: nat, m: nat)
    requires !a.SeenEof() && m == a.SkimLength(max)
    ensures IsRun(a, m)
    ensures m < WINDOW && m < max ==> a.FinAt(a.pos + m) || a.pos + m !in a.got
  {
  }

  // A skim takes the longest contiguous received run that max and the end of stream allow.
  lemma SkimIsLongestRun(a: Assembler, max: nat, n: nat)
    requires a.Valid() && !a.SeenEof()
    requires n <= max && n <= WINDOW
    ensures n <= a.SkimLength(max) <==> IsRun(a, n)
  {
    var m := a.SkimLength(max);
    SkimRuns(a, max, m);
    LongestRun(a, n, m);
  }

  lemma LongestRun(a: Assembler, n: nat, m: nat)
    requires IsRun(a, m)
    requires m < n ==> a.FinAt(a.pos + m) || a.pos + m !in a.got
    ensures n <= m <==> IsRun(a, n)
  {
    assert m < n ==> a.pos <= a.pos + m < a.pos + n;
  }

  // A run that cannot be extended is what the skim takes.
  lemma SkimLengthIs(a: Assembler, max: nat, n: nat)
    requires a.Valid() && !a.SeenEof()
    requires n <= max && n <= WINDOW
    requires forall p :: a.pos <= p < a.pos + n ==> p in a.got
    requires a.fin.Some? ==> a.pos + n <= a.fin.value
    requires n == WINDOW || a.FinAt(a.pos + n) || n == max || a.pos + n !in a.got
    ensures a.SkimLength(max) == n
  {
    SkimIsLongestRun(a, max, n);
    if n < WINDOW && n < max {
      SkimIsLongestRun(a, max, n + 1);
    }
  }

  // End of stream is signalled exactly when every position before it has been received
  // and fits, whatever the limit on bytes, even zero.
  lemma {:induction false} EofExactlyAtFin(a: Assembler, max: nat)
    requires a.Valid() && max < WINDOW
    ensures a.SkimEof(max) <==>
            a.fin.Some? && a.fin.value - a.pos <= max
            && forall p :: a.pos <= p < a.fin.value ==> p in a.got
  {
    if a.fin.Some? && !a.SeenEof() {
      var d := a.fin.value - a.pos;
      if d <= max && (forall p :: a.pos <= p < a.fin.value ==> p in a.got) {
        SkimIsLongestRun(a, max, d);
        var n := a.SkimLength(max);
        assert d < n ==> !a.FinAt(a.pos + d);
      }
    }
  }

  lemma SkimKeepsValid(a: Assembler, max: nat)
    requires a.Valid()
    ensures a.Skim(max).Valid()
    ensures a.Skim(max).SeenEof() <==> a.SkimEof(max)
    ensures a.Skim(max).pos == a.pos + a.SkimLength(max)
                               + if a.SkimEof(max) && !a.SeenEof() then 1 else 0
  {
    if a.fin.Some? && !a.SeenEof() {
      var d := a.fin.value - a.pos;
      var n := a.SkimLength(max);
      assert d < n ==> !a.FinAt(a.pos + d);
    }
  }

  // A skim stops at its limit, at the end of stream or before a position not received.
  lemma SkimTakesAll(a: Assembler, max: nat)
    requires a.Valid()
    ensures a.SkimLength(max) == max || a.Skim(max).SeenEof() || a.Skim(max).pos !in a.Skim(max).got
  {
    SkimKeepsValid(a, max);
    if !a.SeenEof() {
      SkimRuns(a, max, a.SkimLength(max));
    }
  }

  // ----- The window as slots, relative to pos -----

  predicate Held(mask: seq<bool>, pos: nat, p: nat) {
    pos <= p < pos + |mask| && mask[p - pos]
  }

  // The stream-level state behind a byte window, its received-mask and a relative FIN index.
  function View(isn: uint32, pos: nat, buffer: seq<byte>, mask: seq<bool>, fin: int): (a: Assembler)
    requires |buffer| == |mask| == WINDOW
    requires fin <= WINDOW && 0 <= pos + (if fin <= -2 then 0 else fin)
    ensures a.Valid()
  {
    Assembler(isn, pos,
              map p: nat | pos <= p < pos + WINDOW && Held(mask, pos, p) :: buffer[p - pos],
              if fin <= -2 then None else Some(pos + fin))
  }

  lemma ViewAt(isn: uint32, pos: nat, buffer: seq<byte>, mask: seq<bool>, fin: int, i: nat)
    requires |buffer| == |mask| == WINDOW && i < WINDOW
    requires fin <= WINDOW && 0 <= pos + (if fin <= -2 then 0 else fin)
    ensures var a := View(isn, pos, buffer, mask, fin);
            (pos + i in a.got <==> mask[i]) && (mask[i] ==> a.got[pos + i] == buffer[i])
  {
    assert Held(mask, pos, pos + i) == mask[i];
  }

  // Adding a segment, at the position p of one slot: its byte i lands there or none does.
  lemma SlotAdd(a: Assembler, b: Assembler, s: Segment, p: nat, i: uint32, held: bool, x: byte, held': bool, x': byte)
    requires !a.Ended() && a.pos <= p < a.pos + WINDOW && i == a.Index(s, p)
    requires (p in a.got <==> held) && (held ==> a.got[p] == x)
    requires (p in b.got <==> held') && (held' ==> b.got[p] == x')
    requires held' <==> i < |s.data| || held
    requires x' == if i < |s.data| then s.data[i] else x
    ensures p in b.got <==> p in a.Add(s).got
    ensures p in b.got ==> b.got[p] == a.Add(s).got[p]
  {
  }

  lemma ViewAddAt(a: Assembler, b: Assembler, isn: uint32, pos: nat, buffer: seq<byte>, mask: seq<bool>, fin: int,
                  s: Segment, i: uint32, buffer': seq<byte>, mask': seq<bool>, fin': int, o: nat)
    requires |buffer| == |mask| == |buffer'| == |mask'| == WINDOW && o < WINDOW
    requires fin <= WINDOW && fin != 0 && fin != -1 && 0 <= pos + (if fin <= -2 then 0 else fin)
    requires fin' <= WINDOW && 0 <= pos + (if fin' <= -2 then 0 else fin')
    requires a == View(isn, pos, buffer, mask, fin) && b == View(isn, pos, buffer', mask', fin')
    requires i == a.Index(s, pos + o)
    requires mask'[o] <==> i < |s.data| || mask[o]
    requires buffer'[o] == if i < |s.data| then s.data[i] else buffer[o]
    ensures pos + o in b.got <==> pos + o in a.Add(s).got
    ensures pos + o in b.got ==> b.got[pos + o] == a.Add(s).got[pos + o]
  {
    ViewAt(isn, pos, buffer, mask, fin, o);
    ViewAt(isn, pos, buffer', mask', fin', o);
    SlotAdd(a, b, s, pos + o, i, mask[o], buffer[o], mask'[o], buffer'[o]);
  }

  // Slot by slot, adding a segment overwrites slot o with byte index[o] of the segment.
  lemma ViewAdd(isn: uint32, pos: nat, buffer: seq<byte>, mask: seq<bool>, fin: int, s: Segment,
                index: seq<uint32>, buffer': seq<byte>, mask': seq<bool>, fin': int)
    requires |buffer| == |mask| == |buffer'| == |mask'| == |index| == WINDOW
    requires fin <= WINDOW && fin != 0 && fin != -1 && 0 <= pos + (if fin <= -2 then 0 else fin)
    requires fin' == if s.fin && Wrap(s.start + |s.data| - Wrap(isn + pos)) <= WINDOW
                     then Wrap(s.start + |s.data| - Wrap(isn + pos)) else fin
    requires forall o :: 0 <= o < WINDOW ==> index[o] == Wrap(Wrap(isn + pos) + o - s.start)
    requires forall o :: 0 <= o < WINDOW ==> (mask'[o] <==> index[o] < |s.data| || mask[o])
    requires forall o :: 0 <= o < WINDOW ==>
               buffer'[o] == if index[o] < |s.data| then s.data[index[o]] else buffer[o]
    ensures View(isn, pos, buffer', mask', fin') == View(isn, pos, buffer, mask, fin).Add(s)
  {
    var a, b := View(isn, pos, buffer, mask, fin), View(isn, pos, buffer', mask', fin');
    forall p: nat
      ensures p in b.got <==> p in a.Add(s).got
      ensures p in b.got ==> b.got[p] == a.Add(s).got[p]
    {
      if pos <= p < pos + WINDOW {
        var o := p - pos;
        assert index[o] == a.Index(s, p);
        ViewAddAt(a, b, isn, pos, buffer, mask, fin, s, index[o], buffer', mask', fin', o);
      }
    }
    SameBytes(b.got, a.Add(s).got);
  }

  // Shifting n slots out at the front and n empty ones in at the back advances the window.
  lemma ViewSlide(isn: uint32, pos: nat, buffer: seq<byte>, mask: seq<bool>, fin: int, n: nat,
                  buffer': seq<byte>, mask': seq<bool>, pos': nat, fin': int)
    requires |buffer| == |mask| == |buffer'| == |mask'| == WINDOW && pos' == pos + n && fin' == fin - n
    requires fin <= WINDOW && fin != -1 && n <= WINDOW && (0 <= fin ==> n <= fin + 1)
    requires forall i :: 0 <= i < WINDOW - n ==> buffer'[i] == buffer[i + n] && mask'[i] == mask[i + n]
    requires forall i :: WINDOW - n <= i < WINDOW ==> !mask'[i]
    ensures View(isn, pos', buffer', mask', fin') == View(isn, pos, buffer, mask, fin).Advance(n)
  {
    var a, b := View(isn, pos, buffer, mask, fin), View(isn, pos', buffer', mask', fin');
    forall p: nat
      ensures p in b.got <==> p in a.Advance(n).got
      ensures p in b.got ==> b.got[p] == a.Advance(n).got[p]
    {
      if pos + n <= p < pos + n + WINDOW {
        ViewAt(isn, pos', buffer', mask', fin', p - pos');
        if p < pos + WINDOW {
          ViewAt(isn, pos, buffer, mask, fin, p - pos);
        }
      }
    }
    SameBytes(b.got, a.Advance(n).got);
  }

  // Where the skimming loop stops, and what it has collected by then.
  lemma ViewSkim(isn: uint32, pos: nat, buffer: seq<byte>, mask: seq<bool>, fin: int, max: nat, n: nat)
    requires |buffer| == |mask| == WINDOW
    requires fin <= WINDOW && fin != -1 && n <= WINDOW && n <= max && (0 <= fin ==> n <= fin)
    requires forall j :: 0 <= j < n ==> mask[j]
    requires n == WINDOW || fin == n || n == max || !mask[n]
    ensures var a := View(isn, pos, buffer, mask, fin);
            a.SkimData(max) == buffer[..n] && (a.SkimEof(max) <==> n < WINDOW && fin == n)
  {
    var a := View(isn, pos, buffer, mask, fin);
    ViewRun(isn, pos, buffer, mask, fin, n);
    if n < WINDOW {
      ViewAt(isn, pos, buffer, mask, fin, n);
    }
    SkimIs(a, max, buffer[..n]);
  }

  // A received run that cannot be extended is what the skim yields.
  lemma SkimIs(a: Assembler, max: nat, data: seq<byte>)
    requires a.Valid() && !a.SeenEof() && |data| <= max && |data| <= WINDOW
    requires forall p :: a.pos <= p < a.pos + |data| ==> p in a.got && a.got[p] == data[p - a.pos]
    requires a.fin.Some? ==> a.pos + |data| <= a.fin.value
    requires var next := a.pos + |data|;
             |data| == WINDOW || a.FinAt(next) || |data| == max || next !in a.got
    ensures a.SkimData(max) == data && (a.SkimEof(max) <==> |data| < WINDOW && a.FinAt(a.pos + |data|))
  {
    SkimLengthIs(a, max, |data|);
    SkimDataIs(a, max, data);
  }

  lemma ViewRun(isn: uint32, pos: nat, buffer: seq<byte>, mask: seq<bool>, fin: int, n: nat)
    requires |buffer| == |mask| == WINDOW && n <= WINDOW && forall j :: 0 <= j < n ==> mask[j]
    requires fin <= WINDOW && 0 <= pos + (if fin <= -2 then 0 else fin)
    ensures var a := View(isn, pos, buffer, mask, fin);
            forall p :: pos <= p < pos + n ==> p in a.got && a.got[p] == buffer[..n][p - pos]
  {
    forall p | pos <= p < pos + n
      ensures var a := View(isn, pos, buffer, mask, fin); p in a.got && a.got[p] == buffer[..n][p - pos]
    {
      ViewAt(isn, pos, buffer, mask, fin, p - pos);
    }
  }

  lemma SkimDataIs(a: Assembler, max: nat, data: seq<byte>)
    requires |data| == a.SkimLength(max)
    requires forall p :: a.pos <= p < a.pos + |data| ==> p in a.got && a.got[p] == data[p - a.pos]
    ensures a.SkimData(max) == data
  {
    forall j | 0 <= j < |data|
      ensures a.SkimData(max)[j] == data[j]
    {
      assert a.pos + j in a.got;
    }
  }

  // ----- Segments cut from one stream -----

  // The segment carries bytes of `stream` starting at position `at`, and its FIN, if any,
  // marks the end of the stream.
  ghost predicate CutFrom(s: Segment, at: nat, isn: uint32, stream: seq<byte>) {
    && s.start == Wrap(isn + at)
    && (s.data != [] || s.fin ==> at + |s.data| <= |stream| && s.data == stream[at..at + |s.data|])
    && (s.fin ==> at + |s.data| == |stream|)
  }

  // Close enough to the window for 32-bit offsets to be unambiguous: no byte lies more than
  // 2^32 - 65536 positions behind the window, and the segment does not run far ahead of it.
  ghost predicate InReach(s: Segment, at: nat, pos: nat) {
    && (s.data != [] ==> pos <= at + (SEQ_MOD - WINDOW))
    && at + |s.data| < pos + SEQ_MOD - WINDOW
  }

  // What the assembler holds agrees with the stream.
  ghost predicate Agrees(a: Assembler, stream: seq<byte>) {
    && a.Valid()
    && (forall p :: p in a.got ==> p < |stream| && a.got[p] == stream[p])
    && (a.fin.Some? ==> a.fin.value == |stream|)
    && (a.SeenEof() || a.pos <= |stream|)
  }

  lemma IndexOfPosition(a: Assembler, s: Segment, at: nat, stream: seq<byte>, p: nat)
    requires CutFrom(s, at, a.isn, stream) && InReach(s, at, a.pos)
    requires a.pos <= p < a.pos + WINDOW
    ensures a.Index(s, p) < |s.data| <==> at <= p < at + |s.data|
    ensures a.Index(s, p) < |s.data| ==> a.Index(s, p) == p - at
  {
    WrapOffset(a.isn, a.pos, p - a.pos, at);
    if s.data != [] && p < at {
      WrapBehind(p - at);
    }
  }

  lemma FinOffsetOfEnd(a: Assembler, s: Segment, at: nat, stream: seq<byte>)
    requires CutFrom(s, at, a.isn, stream) && InReach(s, at, a.pos)
    requires a.pos <= at + |s.data|
    ensures a.FinOffset(s) == at + |s.data| - a.pos
  {
    WrapOffset(a.isn, at, |s.data|, a.pos);
  }

  // Adding a segment of the stream stores exactly its bytes that fall inside the window.
  lemma AddStoresTheCut(a: Assembler, s: Segment, at: nat, stream: seq<byte>)
    requires Agrees(a, stream)
    requires CutFrom(s, at, a.isn, stream) && InReach(s, at, a.pos)
    ensures Agrees(a.Add(s), stream)
    ensures forall p: nat :: p in a.Add(s).got <==>
              p in a.got || (a.pos <= p < a.pos + WINDOW && at <= p < at + |s.data|)
    ensures a.Add(s).fin == if s.fin && |stream| <= a.pos + WINDOW then Some(|stream|) else a.fin
  {
    var b := a.Add(s);
    if a.Ended() {
      assert |stream| <= a.pos;
    } else {
      assert a.pos <= |stream|;
      forall p: nat
        ensures p in b.got <==>
                p in a.got || (a.pos <= p < a.pos + WINDOW && at <= p < at + |s.data|)
        ensures p in b.got ==> p < |stream| && b.got[p] == stream[p]
      {
        if a.pos <= p < a.pos + WINDOW {
          IndexOfPosition(a, s, at, stream, p);
        }
      }
      if s.fin {
        FinOffsetOfEnd(a, s, at, stream);
      }
    }
  }

  // ----- Order and repetition do not matter -----

  datatype Cut = Cut(segment: Segment, at: nat)

  ghost predicate AllCutFrom(cuts: seq<Cut>, isn: uint32, pos: nat, stream: seq<byte>) {
    forall c :: c in cuts ==> CutFrom(c.segment, c.at, isn, stream) && InReach(c.segment, c.at, pos)
  }

  function AddAll(a: Assembler, cuts: seq<Cut>): Assembler
    decreases |cuts|
  {
    if cuts == [] then a else AddAll(a.Add(cuts[0].segment), cuts[1..])
  }

  ghost predicate CoveredBy(cuts: seq<Cut>, p: nat) {
    exists c :: c in cuts && c.at <= p < c.at + |c.segment.data|
  }

  ghost predicate FinIn(cuts: seq<Cut>) {
    exists c :: c in cuts && c.segment.fin
  }

  lemma {:induction false} AddAllStoresTheCuts(a: Assembler, cuts: seq<Cut>, stream: seq<byte>)
    requires Agrees(a, stream) && AllCutFrom(cuts, a.isn, a.pos, stream)
    ensures var b := AddAll(a, cuts);
            && Agrees(b, stream) && b.isn == a.isn && b.pos == a.pos
            && (forall p: nat :: p in b.got <==>
                 p in a.got || (a.pos <= p < a.pos + WINDOW && CoveredBy(cuts, p)))
            && b.fin == if FinIn(cuts) && |stream| <= a.pos + WINDOW then Some(|stream|) else a.fin
    decreases |cuts|
  {
    if cuts != [] {
      var c, rest := cuts[0], cuts[1..];
      var a1 := a.Add(c.segment);
      AddStoresTheCut(a, c.segment, c.at, stream);
      AddAllStoresTheCuts(a1, rest, stream);
      assert forall d :: d in cuts <==> d == c || d in rest;
      assert c in cuts;
      assert FinIn(cuts) <==> c.segment.fin || FinIn(rest);
      forall p: nat
        ensures CoveredBy(cuts, p) <==> c.at <= p < c.at + |c.segment.data| || CoveredBy(rest, p)
      {
      }
    }
  }

  lemma SameElementsSameCover(cuts: seq<Cut>, others: seq<Cut>)
    requires forall c :: c in cuts <==> c in others
    ensures FinIn(cuts) <==> FinIn(others)
    ensures forall p: nat :: CoveredBy(cuts, p) <==> CoveredBy(others, p)
  {
  }

  // Any two arrivals of the same set of segments, in any order and with any repetition,
  // leave the assembler in the same state.
  lemma ArrivalOrderIrrelevant(a: Assembler, cuts: seq<Cut>, others: seq<Cut>, stream: seq<byte>)
    requires Agrees(a, stream) && AllCutFrom(cuts, a.isn, a.pos, stream)
    requires forall c :: c in cuts <==> c in others
    ensures AddAll(a, cuts) == AddAll(a, others)
  {
    AddAllStoresTheCuts(a, cuts, stream);
    AddAllStoresTheCuts(a, others, stream);
    SameElementsSameCover(cuts, others);
    SameBytesOfStream(AddAll(a, cuts), AddAll(a, others), stream);
  }

  lemma SameBytesOfStream(a: Assembler, b: Assembler, stream: seq<byte>)
    requires Agrees(a, stream) && Agrees(b, stream) && forall p: nat :: p in a.got <==> p in b.got
    ensures a.got == b.got
  {
    SameBytes(a.got, b.got);
  }

  // The segment-lifetime bound is exact: a byte behind the window is mistaken for a fresh one
  // exactly when it is more than 2^32 - 65536 (and at most 2^32) positions behind.
  lemma StaleByteBound(a: Assembler, at: nat, b: byte)
    requires a.Valid() && !a.Ended()
    requires at < a.pos <= at + SEQ_MOD
    ensures var s := Segment(Wrap(a.isn + at), [b], false);
            (exists p :: a.pos <= p < a.pos + WINDOW && a.Index(s, p) < |s.data|)
            <==> a.pos > at + (SEQ_MOD - WINDOW)
  {
    var s := Segment(Wrap(a.isn + at), [b], false);
    forall p | a.pos <= p < a.pos + WINDOW
      ensures a.Index(s, p) == Wrap(p - at)
    {
      WrapOffset(a.isn, a.pos, p - a.pos, at);
    }
    if a.pos > at + (SEQ_MOD - WINDOW) {
      var p := at + SEQ_MOD;
      WrapPeriodic(0, 1);
      assert a.Index(s, p) == 0;
    }
  }
}

// The arrays, the received mask and the sliding FIN index as the program keeps them.
module TcpAssembler {
  import opened Bytes
  import opened Circular
  import opened Wrappers
  import opened Assembly

  // The program's copy(a, a[n:]) for overlapping slices.
  method ShiftDown<T>(a: array<T>, n: nat)
    requires n <= a.Length
    modifies a
    ensures forall i :: 0 <= i < a.Length - n ==> a[i] == old(a[i + n])
    ensures forall i :: a.Length - n <= i < a.Length ==> a[i] == old(a[i])
  {
    var i := 0;
    while i < a.Length - n
      invariant 0 <= i <= a.Length - n
      invariant forall k :: 0 <= k < i ==> a[k] == old(a[k + n])
      invariant forall k :: i <= k < a.Length ==> a[k] == old(a[k])
    {
      a[i] := a[i + n];
      i := i + 1;
    }
  }

  class TcpAssembler {
    // Belongs to slot 0, the first byte not yet skimmed.
    var sequence: uint32
    const buffer: array<byte>
    const mask: array<bool>
    // -2 or less: no FIN seen; -1: end of stream delivered; otherwise its slot, maybe 65536.
    var fin: int

    ghost var isn: uint32
    ghost var pos: nat

    ghost predicate Valid()
      reads this
    {
      && buffer.Length == WINDOW && mask.Length == WINDOW
      && sequence == Wrap(isn + pos)
      && fin <= WINDOW
      && (fin == -1 ==> 1 <= pos)
    }

    ghost function Abs(): (a: Assembler)
      reads this, buffer, mask
      requires Valid()
      ensures a.Valid()
    {
      View(isn, pos, buffer[..], mask[..], fin)
    }

    constructor (seqNum: uint32)
      ensures Valid() && fresh(buffer) && fresh(mask)
      ensures Abs() == Assembler(seqNum, 0, map[], None)
    {
      sequence := seqNum;
      buffer := new byte[WINDOW](_ => 0);
      mask := new bool[WINDOW](_ => false);
      fin := -2;
      isn, pos := seqNum, 0;
    }

    // The loop of AddSegment: slot o receives byte index[o] of the segment, if there is one.
    method StoreBytes(s: Segment, ghost index: seq<uint32>)
      requires buffer.Length == WINDOW && mask.Length == WINDOW
      requires |s.data| <= SEQ_MOD && |index| == WINDOW
      requires forall o :: 0 <= o < WINDOW ==> index[o] == Wrap(sequence + o - s.start)
      modifies buffer, mask
      ensures forall o :: 0 <= o < WINDOW ==> (mask[o] <==> index[o] < |s.data| || old(mask[o]))
      ensures forall o :: 0 <= o < WINDOW ==>
                buffer[o] == if index[o] < |s.data| then s.data[index[o]] else old(buffer[o])
    {
      for i := 0 to |s.data|
        invariant forall o :: 0 <= o < WINDOW ==> (mask[o] <==> index[o] < i || old(mask[o]))
        invariant forall o :: 0 <= o < WINDOW ==>
                    buffer[o] == if index[o] < i then s.data[index[o]] else old(buffer[o])
      {
        var offset := Wrap(i + s.start - sequence);
        forall o | 0 <= o < WINDOW
          ensures index[o] == i <==> o == offset
        {
          WrapInverse(i, o, s.start, sequence);
        }
        if offset < buffer.Length {
          buffer[offset] := s.data[i];
          mask[offset] := true;
        }
      }
    }

    method AddSegment(s: Segment)
      requires Valid() && |s.data| <= SEQ_MOD
      modifies this, buffer, mask
      ensures Valid() && Abs() == old(Abs()).Add(s)
    {
      if fin == 0 || fin == -1 {
        return;
      }
      ghost var first := sequence;
      ghost var index := seq<uint32>(WINDOW, o => Wrap(first + o - s.start));
      ghost var buffer0, mask0, fin0 := buffer[..], mask[..], fin;
      StoreBytes(s, index);
      if s.fin {
        var finOffset := Wrap(s.start + Wrap(|s.data|) - sequence);
        WrapAdd(|s.data|, s.start - sequence);
        if finOffset <= buffer.Length {
          fin := finOffset;
        }
      }
      ViewAdd(isn, pos, buffer0, mask0, fin0, s, index, buffer[..], mask[..], fin);
    }

    // The first loop of Skim.
    method TakeRun(maxBytes: nat) returns (avail: seq<byte>, eof: bool)
      requires Valid() && fin != -1
      ensures avail == Abs().SkimData(maxBytes)
      ensures eof == Abs().SkimEof(maxBytes)
      ensures 0 <= fin ==> |avail| <= fin
      ensures eof ==> |avail| == fin && |avail| < WINDOW
    {
      avail, eof := [], false;
      var i := 0;
      while i < mask.Length
        invariant 0 <= i <= WINDOW && i <= maxBytes && (0 <= fin ==> i <= fin) && !eof
        invariant avail == buffer[..i]
        invariant forall j :: 0 <= j < i ==> mask[j]
      {
        if i == fin {
          eof := true;
          break;
        }
        if i == maxBytes || !mask[i] {
          break;
        }
        avail := avail + [buffer[i]];
        i := i + 1;
      }
      ViewSkim(isn, pos, buffer[..], mask[..], fin, maxBytes, i);
    }

    // The shifting half of Skim: n slots leave at the front, n empty ones enter at the back.
    method Slide(n: nat)
      requires buffer.Length == WINDOW && mask.Length == WINDOW && n <= WINDOW
      modifies buffer, mask
      ensures forall i :: 0 <= i < WINDOW - n ==> buffer[i] == old(buffer[i + n])
      ensures forall i :: 0 <= i < WINDOW - n ==> mask[i] == old(mask[i + n])
      ensures forall i :: WINDOW - n <= i < WINDOW ==> !mask[i]
    {
      ShiftDown(buffer, n);
      ShiftDown(mask, n);
      var i := mask.Length - n;
      while i < mask.Length
        modifies mask
        invariant WINDOW - n <= i <= WINDOW
        invariant forall k :: 0 <= k < WINDOW - n ==> mask[k] == old(mask[k + n])
        invariant forall k :: WINDOW - n <= k < i ==> !mask[k]
      {
        mask[i] := false;
        i := i + 1;
      }
    }

    // The window moves past n positions.
    method Drop(n: nat)
      requires Valid() && n <= WINDOW
      requires 0 <= fin ==> n <= fin + 1
      requires fin != -1
      modifies this, buffer, mask
      ensures Valid() && Abs() == old(Abs()).Advance(n)
    {
      ghost var buffer0, mask0, pos0, fin0 := buffer[..], mask[..], pos, fin;
      Slide(n);
      Move(n);
      ViewSlide(isn, pos0, buffer0, mask0, fin0, n, buffer[..], mask[..], pos, fin);
    }

    method Move(n: nat)
      requires sequence == Wrap(isn + pos)
      modifies this`sequence, this`fin, this`pos
      ensures sequence == Wrap(isn + pos) && fin == old(fin) - n && pos == old(pos) + n
    {
      WrapAdd(isn + pos, n);
      sequence := Wrap(sequence + n);
      fin := fin - n;
      pos := pos + n;
    }

    method Skim(maxBytes: nat) returns (avail: seq<byte>, eof: bool)
      requires Valid()
      modifies this, buffer, mask
      ensures Valid() && Abs() == old(Abs()).Skim(maxBytes)
      ensures avail == old(Abs()).SkimData(maxBytes)
      ensures eof == old(Abs()).SkimEof(maxBytes)
    {
      if fin == -1 {
        return [], true;
      }
      ghost var a := Abs();
      avail, eof := TakeRun(maxBytes);
      assert |avail| == a.SkimLength(maxBytes) && !a.SeenEof();
      var readSize := |avail| + if eof then 1 else 0;
      assert a.Skim(maxBytes) == a.Advance(readSize);
      Drop(readSize);
    }

    // The first sequence number not yet skimmed.
    method Seq() returns (s: uint32)
      requires Valid()
      ensures s == Abs().Sequence()
    {
      s := sequence;
    }
  }
}
