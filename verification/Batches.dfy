// Lists of items encoded and decoded one after the other, whatever the items are.
module Batches {
  import opened Wrappers
  import opened Bytes
  import opened Wire

  // The items decoded before an error, if there was one, and where decoding stopped.
  datatype Batch<+T> = Batch(items: seq<T>, pos: nat, error: Option<DnsError>)

  // Writes an item; reads one at a position of some buffer, and gives the position after it.
  type Encoder<!T> = T -> Result<seq<byte>, DnsError>
  type Decoder<+T> = nat -> Result<(T, nat), DnsError>

  // How items of one kind are written, and read at a position of some buffer; the normal form is
  // what an item reads back as.
  datatype Codec<!T> = Codec(encode: Encoder<T>, decode: Decoder<T>,
                             normal: T -> T, endsEmpty: T -> bool)

  function EncodeItems<T>(encode: Encoder<T>, items: seq<T>): Result<seq<byte>, DnsError>
    decreases |items|
  {
    if items == [] then Ok([])
    else
      var first :- encode(items[0]);
      var rest :- EncodeItems(encode, items[1..]);
      Ok(first + rest)
  }

  function DecodeItems<T>(decode: Decoder<T>, pos: nat, n: nat): (b: Batch<T>)
    ensures |b.items| <= n && (b.error.None? <==> |b.items| == n)
    decreases n
  {
    if n == 0 then Batch([], pos, None)
    else
      match decode(pos)
      case Err(e) => Batch([], pos, Some(e))
      case Ok((item, next)) =>
        var rest := DecodeItems(decode, next, n - 1);
        Batch([item] + rest.items, rest.pos, rest.error)
  }

  // Section after section; an error leaves the later sections empty.
  function DecodeSections<T>(decode: Decoder<T>, pos: nat, counts: seq<nat>)
    : (b: Batch<seq<T>>)
    ensures |b.items| == |counts|
    decreases |counts|
  {
    if counts == [] then Batch([], pos, None)
    else
      var first := DecodeItems(decode, pos, counts[0]);
      if first.error.Some? then
        Batch([first.items] + seq(|counts| - 1, _ => []), first.pos, first.error)
      else
        var rest := DecodeSections(decode, first.pos, counts[1..]);
        Batch([first.items] + rest.items, rest.pos, rest.error)
  }

  // All gives these items and then what rest gives.
  ghost predicate Continues<T>(all: Batch<T>, items: seq<T>, rest: Batch<T>) {
    all.items == items + rest.items && all.pos == rest.pos && all.error == rest.error
  }

  lemma OneMoreItem<T(!new)>(all: Batch<T>, items: seq<T>, decode: Decoder<T>, pos: nat, n: nat, item: T, next: nat)
    requires n > 0 && Continues(all, items, DecodeItems(decode, pos, n)) && decode(pos) == Ok((item, next))
    ensures Continues(all, items + [item], DecodeItems(decode, next, n - 1))
  {
    var rest := DecodeItems(decode, next, n - 1).items;
    assert items + ([item] + rest) == items + [item] + rest;
  }

  lemma NoMoreItems<T(!new)>(all: Batch<T>, items: seq<T>, decode: Decoder<T>, pos: nat, n: nat)
    requires Continues(all, items, DecodeItems(decode, pos, n)) && (n > 0 ==> decode(pos).Err?)
    ensures all == Batch(items, pos, if n == 0 then None else Some(decode(pos).error))
  {
    assert items + [] == items;
  }

  lemma OneMoreSection<T(!new)>(all: Batch<seq<T>>, done: seq<seq<T>>, decode: Decoder<T>, pos: nat,
                                counts: seq<nat>, first: Batch<T>)
    requires counts != [] && first == DecodeItems(decode, pos, counts[0])
    requires Continues(all, done, DecodeSections(decode, pos, counts))
    ensures if first.error.None?
            then Continues(all, done + [first.items], DecodeSections(decode, first.pos, counts[1..]))
            else all.items == done + [first.items] + seq(|counts| - 1, _ => []) && all.error == first.error
  {
    var rest := DecodeSections(decode, pos, counts).items;
    assert rest == [first.items] + rest[1..];
    assert done + ([first.items] + rest[1..]) == done + [first.items] + rest[1..];
  }

  // Decoding from pos yields these items and arrives at end.
  ghost predicate Yields<T(!new)>(decode: Decoder<T>, pos: nat, items: seq<T>, end: nat)
    decreases |items|
  {
    if items == [] then pos == end
    else decode(pos).Ok? && decode(pos).value.0 == items[0] && Yields(decode, decode(pos).value.1, items[1..], end)
  }

  lemma YieldsCons<T(!new)>(decode: Decoder<T>, pos: nat, item: T, next: nat, rest: seq<T>, end: nat)
    requires decode(pos) == Ok((item, next)) && Yields(decode, next, rest, end)
    ensures Yields(decode, pos, [item] + rest, end)
  {
    assert ([item] + rest)[1..] == rest;
  }

  lemma {:induction false} YieldsItems<T(!new)>(decode: Decoder<T>, pos: nat, items: seq<T>, end: nat, n: nat)
    requires Yields(decode, pos, items, end) && |items| <= n
    ensures Continues(DecodeItems(decode, pos, n), items, DecodeItems(decode, end, n - |items|))
    decreases |items|
  {
    if items != [] {
      YieldsItems(decode, decode(pos).value.1, items[1..], end, n - 1);
    }
  }

  function Sum(counts: seq<nat>): nat {
    if counts == [] then 0 else counts[0] + Sum(counts[1..])
  }

  // Items dealt out to sections in order, each section taking as many as its count or all there are.
  function Chunk<T>(items: seq<T>, counts: seq<nat>): (sections: seq<seq<T>>)
    ensures |sections| == |counts|
    decreases |counts|
  {
    if counts == [] then []
    else
      var n := if counts[0] <= |items| then counts[0] else |items|;
      [items[..n]] + Chunk(items[n..], counts[1..])
  }

  lemma {:induction false} ChunkNothing<T>(counts: seq<nat>)
    ensures forall i :: 0 <= i < |counts| ==> Chunk<T>([], counts)[i] == []
    decreases |counts|
  {
    if counts != [] {
      ChunkNothing<T>(counts[1..]);
    }
  }

  lemma {:induction false} SplitItems<T>(decode: Decoder<T>, pos: nat, a: nat, b: nat)
    ensures var first := DecodeItems(decode, pos, a);
            if first.error.Some? then DecodeItems(decode, pos, a + b) == first
            else Continues(DecodeItems(decode, pos, a + b), first.items, DecodeItems(decode, first.pos, b))
    decreases a
  {
    if a > 0 && decode(pos).Ok? {
      SplitItems(decode, decode(pos).value.1, a - 1, b);
    }
  }

  // Decoding section by section is decoding all items and dealing them out.
  lemma {:induction false} SectionsAreChunks<T>(decode: Decoder<T>, pos: nat, counts: seq<nat>)
    ensures var b := DecodeItems(decode, pos, Sum(counts));
            DecodeSections(decode, pos, counts) == Batch(Chunk(b.items, counts), b.pos, b.error)
    decreases |counts|
  {
    if counts != [] {
      var n, rest := counts[0], counts[1..];
      var b, first := DecodeItems(decode, pos, Sum(counts)), DecodeItems(decode, pos, n);
      SplitItems(decode, pos, n, Sum(rest));
      if first.error.Some? {
        ChunkNothing<T>(rest);
        assert first.items[..|first.items|] == first.items && first.items[|first.items|..] == [];
      } else {
        SectionsAreChunks(decode, first.pos, rest);
        assert b.items[..n] == first.items && b.items[n..] == DecodeItems(decode, first.pos, Sum(rest)).items;
      }
    }
  }

  // ----- Encoding item by item -----

  // The first i items have been written, and are so far what the whole encoding begins with.
  ghost predicate EncodedSoFar<T>(encode: Encoder<T>, items: seq<T>, i: nat, written: seq<byte>) {
    && i <= |items|
    && match EncodeItems(encode, items[i..])
       case Ok(rest) => EncodeItems(encode, items) == Ok(written + rest)
       case Err(e) => EncodeItems(encode, items) == Err(e)
  }

  lemma NothingEncoded<T>(encode: Encoder<T>, items: seq<T>)
    ensures EncodedSoFar(encode, items, 0, [])
  {
    assert items[0..] == items;
    if EncodeItems(encode, items).Ok? {
      assert [] + EncodeItems(encode, items).value == EncodeItems(encode, items).value;
    }
  }

  lemma OneMoreEncoded<T>(encode: Encoder<T>, items: seq<T>, i: nat, written: seq<byte>)
    requires i < |items| && EncodedSoFar(encode, items, i, written)
    ensures match encode(items[i])
            case Ok(bytes) => EncodedSoFar(encode, items, i + 1, written + bytes)
            case Err(e) => EncodeItems(encode, items) == Err(e)
  {
    var rest := items[i..];
    assert rest[0] == items[i] && rest[1..] == items[i + 1..];
    if EncodeItems(encode, rest).Ok? {
      var a, b := encode(items[i]).value, EncodeItems(encode, items[i + 1..]).value;
      assert written + (a + b) == written + a + b;
    }
  }

  lemma AllEncoded<T>(encode: Encoder<T>, items: seq<T>, written: seq<byte>)
    requires EncodedSoFar(encode, items, |items|, written)
    ensures EncodeItems(encode, items) == Ok(written)
  {
    assert items[|items|..] == [] && written + [] == written;
  }

  // ----- Round trips of lists -----

  lemma {:induction false} EncodesAll<T(!new)>(encode: Encoder<T>, items: seq<T>)
    ensures EncodeItems(encode, items).Ok? <==> forall x :: x in items ==> encode(x).Ok?
    decreases |items|
  {
    if items != [] {
      assert items == [items[0]] + items[1..];
      EncodesAll(encode, items[1..]);
    }
  }

  lemma {:induction false} EncodesOrFails<T(!new)>(encode: Encoder<T>, items: seq<T>, e: DnsError)
    requires forall x :: x in items && encode(x).Err? ==> encode(x).error == e
    ensures EncodeItems(encode, items).Err? ==> EncodeItems(encode, items).error == e
    decreases |items|
  {
    if items != [] {
      assert items[0] in items && forall x :: x in items[1..] ==> x in items;
      EncodesOrFails(encode, items[1..], e);
    }
  }

  lemma {:induction false} EncodeItemsAppend<T>(encode: Encoder<T>, a: seq<T>, b: seq<T>)
    requires EncodeItems(encode, a).Ok? && EncodeItems(encode, b).Ok?
    ensures EncodeItems(encode, a + b) == Ok(EncodeItems(encode, a).value + EncodeItems(encode, b).value)
    decreases |a|
  {
    if a == [] {
      assert a + b == b;
      assert [] + EncodeItems(encode, b).value == EncodeItems(encode, b).value;
    } else {
      assert (a + b)[1..] == a[1..] + b;
      EncodeItemsAppend(encode, a[1..], b);
      var x, y, z := encode(a[0]).value, EncodeItems(encode, a[1..]).value, EncodeItems(encode, b).value;
      assert x + (y + z) == x + y + z;
    }
  }

  // Where bytes, the encoding of x, stand at p, x decodes to its normal form, except that an item
  // that ends in nothing does not decode at the very end.
  ghost predicate ReadsBackAt<T(!new)>(data: seq<byte>, c: Codec<T>, x: T, bytes: seq<byte>, p: nat) {
    c.decode(p) == if c.endsEmpty(x) && p + |bytes| == |data| then Err(BufferUnderflow)
                   else Ok((c.normal(x), p + |bytes|))
  }

  // x can be encoded, and reads back wherever that encoding stands.
  ghost predicate ReadsBack<T(!new)>(data: seq<byte>, c: Codec<T>, x: T) {
    && c.encode(x).Ok? && c.encode(x).value != []
    && forall p: nat :: At(data, p, c.encode(x).value) ==> ReadsBackAt(data, c, x, c.encode(x).value, p)
  }

  lemma MakeReadsBackAt<T(!new)>(data: seq<byte>, c: Codec<T>, x: T, bytes: seq<byte>, p: nat,
                                 got: Result<(T, nat), DnsError>, empty: bool, normal: T, end: nat)
    requires got == c.decode(p) && empty == c.endsEmpty(x) && normal == c.normal(x) && end == p + |bytes|
    requires empty && end == |data| ==> got == Err(BufferUnderflow)
    requires !(empty && end == |data|) ==> got == Ok((normal, end))
    ensures ReadsBackAt(data, c, x, bytes, p)
  {
  }

  lemma MakeReadsBack<T(!new)>(data: seq<byte>, c: Codec<T>, x: T, bytes: seq<byte>)
    requires c.encode(x) == Ok(bytes) && bytes != []
    requires forall p: nat :: At(data, p, bytes) ==> ReadsBackAt(data, c, x, bytes, p)
    ensures ReadsBack(data, c, x)
  {
  }

  function Map<T>(f: T -> T, items: seq<T>): (r: seq<T>)
    ensures |r| == |items| && forall i :: 0 <= i < |items| ==> r[i] == f(items[i])
  {
    if items == [] then [] else [f(items[0])] + Map(f, items[1..])
  }

  ghost predicate AllReadBack<T(!new)>(data: seq<byte>, c: Codec<T>, items: seq<T>) {
    forall x :: x in items ==> ReadsBack(data, c, x)
  }

  // Encoded items read back one after the other, unless the last one ends in nothing at the very end.
  lemma {:induction false} ItemsReadBack<T(!new)>(data: seq<byte>, c: Codec<T>, pos: nat, items: seq<T>, end: nat)
    requires AllReadBack(data, c, items)
    requires EncodeItems(c.encode, items).Ok? && At(data, pos, EncodeItems(c.encode, items).value)
    requires end == pos + |EncodeItems(c.encode, items).value|
    requires items != [] && c.endsEmpty(items[|items| - 1]) ==> end < |data|
    ensures Yields(c.decode, pos, Map(c.normal, items), end)
    decreases |items|
  {
    if items != [] {
      var x, rest := items[0], items[1..];
      assert ReadsBack(data, c, x) && forall y :: y in rest ==> y in items;
      var a, b := c.encode(x).value, EncodeItems(c.encode, rest).value;
      AtSplit(data, pos, a, b);
      if rest != [] {
        assert ReadsBack(data, c, rest[0]);
      }
      ItemsReadBack(data, c, pos + |a|, rest, end);
      YieldsCons(c.decode, pos, c.normal(x), pos + |a|, Map(c.normal, rest), end);
    }
  }

  // Then all items but the last read back, and decoding it reports that the buffer ended.
  lemma AllButLastReadBack<T(!new)>(data: seq<byte>, c: Codec<T>, pos: nat, init: seq<T>, last: T, end: nat)
    requires AllReadBack(data, c, init + [last]) && c.endsEmpty(last)
    requires EncodeItems(c.encode, init + [last]).Ok? && At(data, pos, EncodeItems(c.encode, init + [last]).value)
    requires pos + |EncodeItems(c.encode, init + [last]).value| == |data|
    requires EncodeItems(c.encode, init).Ok? && end == pos + |EncodeItems(c.encode, init).value|
    ensures Yields(c.decode, pos, Map(c.normal, init), end) && c.decode(end) == Err(BufferUnderflow)
  {
    assert last in init + [last] && forall x :: x in init ==> x in init + [last];
    assert ReadsBack(data, c, last);
    var b := c.encode(last).value;
    assert [last][1..] == [] && EncodeItems(c.encode, [last]) == Ok(b + []) && b + [] == b;
    EncodeItemsAppend(c.encode, init, [last]);
    AtSplit(data, pos, EncodeItems(c.encode, init).value, b);
    ItemsReadBack(data, c, pos, init, end);
  }

  lemma {:induction false} EncodeMapped<T(!new)>(encode: Encoder<T>, f: T -> T, items: seq<T>)
    requires forall x :: x in items ==> encode(f(x)) == encode(x)
    ensures EncodeItems(encode, Map(f, items)) == EncodeItems(encode, items)
    decreases |items|
  {
    if items != [] {
      assert items[0] in items && forall x :: x in items[1..] ==> x in items;
      EncodeMapped(encode, f, items[1..]);
    }
  }

  lemma {:induction false} MapAppend<T>(f: T -> T, a: seq<T>, b: seq<T>)
    ensures Map(f, a + b) == Map(f, a) + Map(f, b)
  {
  }

  // ----- Dealing out items -----

  function Flatten<T>(sections: seq<seq<T>>): seq<T> {
    if sections == [] then [] else sections[0] + Flatten(sections[1..])
  }

  lemma FlattenThree<T>(a: seq<T>, b: seq<T>, c: seq<T>)
    ensures Flatten([a, b, c]) == a + b + c
  {
    assert [a, b, c][1..] == [b, c] && [b, c][1..] == [c] && [c][1..] == [];
    assert Flatten([c]) == c + [] == c;
    assert a + (b + c) == a + b + c;
  }

  lemma {:induction false} FlattenChunk<T>(items: seq<T>, counts: seq<nat>)
    requires |items| <= Sum(counts)
    ensures Flatten(Chunk(items, counts)) == items
    decreases |counts|
  {
    if counts != [] {
      var n := if counts[0] <= |items| then counts[0] else |items|;
      FlattenChunk(items[n..], counts[1..]);
      assert items[..n] + items[n..] == items;
      assert Chunk(items, counts)[1..] == Chunk(items[n..], counts[1..]);
    }
  }

  lemma {:induction false} MapParts<T>(f: T -> T, items: seq<T>, n: nat)
    requires n <= |items|
    ensures Map(f, items[..n]) == Map(f, items)[..n] && Map(f, items[n..]) == Map(f, items)[n..]
  {
  }

  lemma {:induction false} ChunkMap<T>(f: T -> T, items: seq<T>, counts: seq<nat>)
    ensures forall i :: 0 <= i < |counts| ==> Chunk(Map(f, items), counts)[i] == Map(f, Chunk(items, counts)[i])
    decreases |counts|
  {
    if counts != [] {
      var n := if counts[0] <= |items| then counts[0] else |items|;
      MapParts(f, items, n);
      ChunkMap(f, items[n..], counts[1..]);
    }
  }

  // ----- What is true of every decoded item -----

  lemma {:induction false} ItemsSatisfy<T(!new)>(decode: Decoder<T>, p: T -> bool, pos: nat, n: nat)
    requires forall q: nat :: decode(q).Ok? ==> p(decode(q).value.0)
    ensures forall x :: x in DecodeItems(decode, pos, n).items ==> p(x)
    decreases n
  {
    if n > 0 && decode(pos).Ok? {
      ItemsSatisfy(decode, p, decode(pos).value.1, n - 1);
    }
  }

  // If items that end in nothing are never read at the very end, none of them is the last to be read there.
  lemma {:induction false} LastItemEnds<T(!new)>(decode: Decoder<T>, endsEmpty: T -> bool, pos: nat, n: nat, limit: nat)
    requires forall q: nat :: decode(q).Ok? && endsEmpty(decode(q).value.0) ==> decode(q).value.1 < limit
    requires n > 0 && DecodeItems(decode, pos, n).error.None? && DecodeItems(decode, pos, n).pos == limit
    ensures !endsEmpty(DecodeItems(decode, pos, n).items[n - 1])
    decreases n
  {
    assert decode(pos).Ok?;
    if n > 1 {
      LastItemEnds(decode, endsEmpty, decode(pos).value.1, n - 1, limit);
    }
  }
}
