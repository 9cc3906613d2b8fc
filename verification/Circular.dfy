// 32-bit sequence numbers as residues of unbounded stream positions (section 3.3 of RFC 793).
module Circular {
  import opened Bytes

  const SEQ_MOD: int := 0x1_0000_0000

  // Conversion of any integer to uint32, as Go's unsigned arithmetic does it.
  function Wrap(x: int): (r: uint32)
    ensures 0 <= x < SEQ_MOD ==> r == x
  {
    x % 0x1_0000_0000
  }

  lemma WrapPeriodic(x: int, k: int)
    ensures Wrap(x + k * SEQ_MOD) == Wrap(x)
  {
    var q, r := x / SEQ_MOD, x % SEQ_MOD;
    assert x + k * SEQ_MOD == (q + k) * SEQ_MOD + r;
  }

  // A circular offset between two sequence numbers is the offset of the positions behind them.
  lemma WrapOffset(isn: int, p: int, d: int, q: int)
    ensures Wrap(Wrap(isn + p) + d - Wrap(isn + q)) == Wrap(p + d - q)
  {
    var a, b := (isn + p) / SEQ_MOD, (isn + q) / SEQ_MOD;
    assert Wrap(isn + p) + d - Wrap(isn + q) == (p + d - q) + (b - a) * SEQ_MOD;
    WrapPeriodic(p + d - q, b - a);
  }

  lemma WrapAdd(x: int, d: int)
    ensures Wrap(Wrap(x) + d) == Wrap(x + d)
  {
    assert Wrap(x) + d == (x + d) + (-(x / SEQ_MOD)) * SEQ_MOD;
    WrapPeriodic(x + d, -(x / SEQ_MOD));
  }

  lemma WrapBehind(x: int)
    requires -SEQ_MOD <= x < 0
    ensures Wrap(x) == x + SEQ_MOD
  {
    WrapPeriodic(x, 1);
  }

  // Offsets from a base and offsets from a start are inverse views of the same slot.
  lemma WrapInverse(i: uint32, o: uint32, start: uint32, sequence: uint32)
    ensures Wrap(i + start - sequence) == o <==> Wrap(sequence + o - start) == i
  {
    if Wrap(i + start - sequence) == o {
      var k := (i + start - sequence) / SEQ_MOD;
      assert sequence + o - start == i + (-k) * SEQ_MOD;
      WrapPeriodic(i, -k);
    }
    if Wrap(sequence + o - start) == i {
      var k := (sequence + o - start) / SEQ_MOD;
      assert i + start - sequence == o + (-k) * SEQ_MOD;
      WrapPeriodic(o, -k);
    }
  }
}
