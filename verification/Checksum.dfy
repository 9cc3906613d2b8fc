// The Internet checksum (section 4.1 of RFC 1071).
module Checksum {
  import opened Bytes

  // Sum of the big-endian 16-bit words of data, a trailing odd byte padded with zero.
  function WordSum(data: seq<byte>): nat {
    if |data| >= 2 then Word(data, 0) + WordSum(data[2..])
    else if |data| == 1 then 0x100 * (data[0] as int)
    else 0
  }

  // The one's complement value of a sum: its representative in 1..0xffff modulo 0xffff,
  // except that an all-zero sum stays zero.
  function OnesSum(sum: nat): uint16 {
    if sum == 0 then 0 else (sum - 1) % 0xffff + 1
  }

  lemma OnesSumIs(sum: nat)
    ensures OnesSum(sum) % 0xffff == sum % 0xffff && (OnesSum(sum) == 0 <==> sum == 0)
  {
  }

  // The checksum with the 32-bit accumulator of the program.
  function Sum32(data: seq<byte>): uint16 {
    0xffff - OnesSum(WordSum(data) % 0x1_0000_0000)
  }

  lemma {:induction false} WordSumBound(data: seq<byte>)
    ensures WordSum(data) <= 0xffff * ((|data| + 1) / 2)
  {
    if |data| >= 2 {
      WordSumBound(data[2..]);
    }
  }

  lemma OnesPeriodic(x: nat, k: nat)
    ensures (x + 0xffff * k) % 0xffff == x % 0xffff
  {
    var q, r := x / 0xffff, x % 0xffff;
    assert x + 0xffff * k == 0xffff * (q + k) + r;
  }

  // The 32-bit accumulator loses nothing.
  predicate Correct(data: seq<byte>) {
    Sum32(data) == 0xffff - OnesSum(WordSum(data))
  }

  lemma WordsBound(words: nat, sum: nat)
    requires words <= 65537 && sum <= 0xffff * words
    ensures sum < 0x1_0000_0000
  {
  }

  // Up to 131074 bytes it cannot overflow.
  lemma NoOverflow(data: seq<byte>)
    requires |data| <= 131074
    ensures WordSum(data) < 0x1_0000_0000
    ensures Sum32(data) == 0xffff - OnesSum(WordSum(data))
  {
    WordSumBound(data);
    WordsBound((|data| + 1) / 2, WordSum(data));
  }

  lemma WrapPeriodic(x: nat, h: nat)
    ensures (x + 0x1_0000_0000 * h) % 0xffff == (x + h) % 0xffff
  {
    OnesPeriodic(x + h, 65537 * h);
    assert x + 0x1_0000_0000 * h == x + h + 0xffff * (65537 * h);
  }

  lemma SameResidue(x: nat, h: nat)
    ensures (x + h) % 0xffff == x % 0xffff <==> h % 0xffff == 0
  {
    var q, r := x / 0xffff, x % 0xffff;
    var d, e := h / 0xffff, h % 0xffff;
    assert x + h == 0xffff * (q + d) + (r + e);
    OnesPeriodic(r + e, q + d);
  }

  // A sum of carry h beyond the accumulator, which keeps l.
  lemma WrapKeepsOnesSum(l: nat, h: nat)
    ensures OnesSum(l) == OnesSum(l + 0x1_0000_0000 * h) <==> h == 0 || (l != 0 && h % 0xffff == 0)
  {
    if l != 0 {
      WrapPeriodic(l - 1, h);
      SameResidue(l - 1, h);
    }
  }

  // The checksum is right exactly when nothing was carried out of the accumulator, or a multiple
  // of 0xffff was and something was left in it.
  lemma CorrectWhen(data: seq<byte>)
    ensures var carried, left := WordSum(data) / 0x1_0000_0000, WordSum(data) % 0x1_0000_0000;
            Correct(data) <==> carried == 0 || (left != 0 && carried % 0xffff == 0)
  {
    WrapKeepsOnesSum(WordSum(data) % 0x1_0000_0000, WordSum(data) / 0x1_0000_0000);
  }

  // Below eight gigabytes that is: exactly when the sum does not overflow.
  lemma CorrectWhenNoOverflow(data: seq<byte>)
    requires WordSum(data) < 0xffff * 0x1_0000_0000
    ensures Correct(data) <==> WordSum(data) < 0x1_0000_0000
  {
    CorrectWhen(data);
    var carried := WordSum(data) / 0x1_0000_0000;
    assert carried < 0xffff;
  }

  lemma {:induction false} WordSumJoin(a: seq<byte>, b: seq<byte>)
    requires |a| % 2 == 0
    ensures WordSum(a + b) == WordSum(a) + WordSum(b)
  {
    if a == [] {
      assert a + b == b;
    } else {
      assert (a + b)[2..] == a[2..] + b;
      WordSumJoin(a[2..], b);
    }
  }

  lemma {:induction false} WordSumOnes(n: nat)
    ensures WordSum(seq(2 * n, _ => 0xff)) == 0xffff * n
  {
    if n > 0 {
      var s := seq<byte>(2 * n, _ => 0xff);
      assert s[2..] == seq<byte>(2 * (n - 1), _ => 0xff);
      WordSumOnes(n - 1);
    }
  }

  lemma {:induction false} WordSumZeros(s: seq<byte>)
    requires forall b :: b in s ==> b == 0
    ensures WordSum(s) == 0
  {
    if |s| >= 2 {
      assert s[0] in s && s[1] in s && forall b :: b in s[2..] ==> b in s;
      WordSumZeros(s[2..]);
    } else if |s| == 1 {
      assert s[0] in s;
    }
  }

  // The bound is tight: from 131075 bytes on there is data of every length whose checksum is wrong.
  lemma SomeWrongBeyond(n: nat)
    requires n > 131074
    ensures exists data: seq<byte> :: |data| == n && !Correct(data)
  {
    var ones, rest := seq<byte>(2 * 65537, _ => 0xff), [0xff] + seq<byte>(n - 131075, _ => 0);
    WordSumOnes(65537);
    WordSumLead(rest);
    WordSumJoin(ones, rest);
    CorrectWhenNoOverflow(ones + rest);
  }

  lemma WordSumLead(rest: seq<byte>)
    requires |rest| > 0 && rest[0] == 0xff && forall i :: 1 <= i < |rest| ==> rest[i] == 0
    ensures WordSum(rest) == 0xff00
  {
    if |rest| >= 2 {
      WordSumZeros(rest[2..]);
    }
  }

  // Folding the carries back in keeps the one's complement value.
  lemma FoldKeepsOnesSum(sum: nat)
    requires sum >= 0x1_0000
    ensures var folded := sum % 0x1_0000 + sum / 0x1_0000;
            1 <= folded < sum && OnesSum(folded) == OnesSum(sum)
  {
    var h, l := sum / 0x1_0000, sum % 0x1_0000;
    assert sum - 1 == (h + l - 1) + 0xffff * h;
    OnesPeriodic(h + l - 1, h);
  }

  lemma WordSumStep(sum: nat, word: nat)
    ensures (sum % 0x1_0000_0000 + word) % 0x1_0000_0000 == (sum + word) % 0x1_0000_0000
  {
  }

  // The second loop of InternetChecksum.
  method FoldCarries(total: uint32) returns (folded: uint16)
    ensures folded == OnesSum(total)
  {
    var sum := total;
    while sum / 0x1_0000 != 0
      invariant OnesSum(sum) == OnesSum(total)
      decreases sum
    {
      FoldKeepsOnesSum(sum);
      sum := sum % 0x1_0000 + sum / 0x1_0000;
    }
    folded := sum;
  }

  // The first loop, and the odd byte behind it.
  method SumWords(data: seq<byte>) returns (sum: uint32)
    ensures sum == WordSum(data) % 0x1_0000_0000
  {
    sum := 0;
    var rest := data;
    ghost var done: nat := 0;
    while |rest| >= 2
      invariant WordSum(data) == done + WordSum(rest)
      invariant sum == done % 0x1_0000_0000
      decreases |rest|
    {
      var word := Word(rest, 0);
      WordSumStep(done, word);
      done := done + word;
      sum := (sum + word) % 0x1_0000_0000;
      rest := rest[2..];
    }
    if |rest| == 1 {
      var word := 0x100 * (rest[0] as int);
      WordSumStep(done, word);
      sum := (sum + word) % 0x1_0000_0000;
    }
  }

  method InternetChecksum(data: seq<byte>) returns (checksum: uint16)
    ensures checksum == Sum32(data)
    ensures |data| <= 131074 ==> checksum == 0xffff - OnesSum(WordSum(data))
  {
    var sum := SumWords(data);
    var folded := FoldCarries(sum);
    checksum := 0xffff - folded;
    if |data| <= 131074 {
      NoOverflow(data);
    }
  }

  // ----- Writing a checksum into the data it covers -----

  function PutWord(data: seq<byte>, i: nat, w: uint16): (r: seq<byte>)
    requires i + 1 < |data|
    ensures |r| == |data|
  {
    data[i := w / 0x100][i + 1 := w % 0x100]
  }

  lemma {:induction false} WordSumPut(data: seq<byte>, i: nat, w: uint16)
    requires i + 1 < |data| && i % 2 == 0
    ensures WordSum(PutWord(data, i, w)) == WordSum(data) - Word(data, i) + w
  {
    var r := PutWord(data, i, w);
    if i == 0 {
      assert r[2..] == data[2..];
    } else {
      assert r[2..] == PutWord(data[2..], i - 2, w);
      assert Word(data[2..], i - 2) == Word(data, i);
      WordSumPut(data[2..], i - 2, w);
    }
  }

  // The complement of a sum, added to it, is all ones; so is 0xffff in place of a zero complement.
  lemma ComplementCompletes(sum: nat, c: uint16)
    requires c == 0xffff - OnesSum(sum) || (c == 0xffff && OnesSum(sum) == 0xffff)
    ensures OnesSum(sum + c) == 0xffff
  {
    if sum > 0 {
      var q, r := (sum - 1) / 0xffff, (sum - 1) % 0xffff;
      assert sum == 0xffff * q + r + 1;
      if c == 0xffff - OnesSum(sum) {
        assert sum + c - 1 == 0xfffe + 0xffff * q;
        OnesPeriodic(0xfffe, q);
      } else {
        assert sum + c - 1 == 0xfffe + 0xffff * (q + 1);
        OnesPeriodic(0xfffe, q + 1);
      }
    }
  }

  // Data whose checksum field, at an even offset, was computed over a zeroed field verifies.
  lemma ChecksumVerifies(data: seq<byte>, i: nat, c: uint16)
    requires i + 1 < |data| <= 131074 && i % 2 == 0 && Word(data, i) == 0
    requires c == Sum32(data) || (c == 0xffff && Sum32(data) == 0)
    ensures Sum32(PutWord(data, i, c)) == 0
  {
    NoOverflow(data);
    NoOverflow(PutWord(data, i, c));
    WordSumPut(data, i, c);
    ComplementCompletes(WordSum(data), c);
  }
}
