// Encoding and decoding DNS messages are inverse to each other, as far as they can be.
module DnsTheorems {
  import opened Bytes
  import opened Wrappers
  import opened DomainNames
  import opened Wire
  import opened Batches
  import opened Messages

  // ----- One record -----

  lemma DecodeOfDomainBody(data: seq<byte>, start: nat, r: Record)
    requires r.DomainRecord? && WellTyped(r)
    requires At(data, start, Body(r))
    ensures DecodeBody(data, start, start + |Body(r)|, r.g.(data := Body(r))) == Ok(Normal(r))
  {
    DecodeOfEncodedFields(data, start, BodyFields(r));
    assert KindsOf(BodyFields(r)) == [NameKind];
  }

  lemma DecodeOfSoaBody(data: seq<byte>, start: nat, r: Record)
    requires r.SOARecord? && WellTyped(r)
    requires At(data, start, Body(r))
    ensures DecodeBody(data, start, start + |Body(r)|, r.g.(data := Body(r))) == Ok(Normal(r))
  {
    BodyEncodes(r);
    DecodeOfEncodedFields(data, start, SoaFields(r.soa));
    SoaKinds(r.soa);
  }

  lemma SoaKinds(s: Soa)
    ensures KindsOf(SoaFields(s)) == SOA_KINDS
  {
  }

  lemma DecodeOfEncodedBody(data: seq<byte>, start: nat, r: Record)
    requires WellTyped(r)
    requires At(data, start, Body(r))
    ensures DecodeBody(data, start, start + |Body(r)|, r.g.(data := Body(r))) == Ok(Normal(r))
  {
    BodyEncodes(r);
    match r
    case DomainRecord(_, _) => DecodeOfDomainBody(data, start, r);
    case SOARecord(_, _) => DecodeOfSoaBody(data, start, r);
    case _ =>
      assert r.g.(data := r.g.data) == r.g;
  }

  function BodyLength(r: Record): (n: uint16)
    requires WellFormed(r)
    ensures n == |Body(r)|
  {
    BodyEncodes(r);
    |Body(r)|
  }

  // The bytes written before a record's data.
  function Head(r: Record): seq<byte>
    requires WellFormed(r)
  {
    HeadEncodes(r.g, BodyLength(r));
    EncodeFields(HeadFields(r.g, BodyLength(r))).value
  }

  lemma RecordEncodes(r: Record)
    requires WellFormed(r)
    ensures EncodeRecord(r) == Ok(Head(r) + Body(r))
  {
    BodyEncodes(r);
    HeadEncodes(r.g, BodyLength(r));
  }

  lemma DecodeOfEncodedHead(data: seq<byte>, pos: nat, r: Record)
    requires WellFormed(r) && At(data, pos, Head(r))
    ensures DecodeFields(data, pos, HEAD_KINDS) == Ok((HeadFields(r.g, BodyLength(r)), pos + |Head(r)|))
  {
    HeadEncodes(r.g, BodyLength(r));
    HeadReadsBack(data, pos, HeadFields(r.g, BodyLength(r)), Head(r), r.g, BodyLength(r));
  }

  lemma HeadReadsBack(data: seq<byte>, pos: nat, fs: seq<Field>, bytes: seq<byte>, g: Generic, length: uint16)
    requires fs == HeadFields(g, length) && EncodeFields(fs) == Ok(bytes) && At(data, pos, bytes)
    ensures DecodeFields(data, pos, HEAD_KINDS) == Ok((fs, pos + |bytes|))
  {
    FieldsReadBack(data, pos, fs, bytes, pos + |bytes|);
    HeadKinds(g, length);
  }

  lemma HeadKinds(g: Generic, length: uint16)
    ensures KindsOf(HeadFields(g, length)) == HEAD_KINDS
  {
  }

  lemma RecordAfterHead(data: seq<byte>, pos: nat, g: Generic, length: uint16, start: nat)
    requires pos <= start <= |data|
    requires DecodeFields(data, pos, HEAD_KINDS) == Ok((HeadFields(g, length), start))
    ensures DecodeRecord(data, pos) == DecodeData(data, start, g.(data := []), length)
  {
  }

  lemma DataReads(data: seq<byte>, start: nat, r: Record, end: nat)
    requires WellFormed(r) && At(data, start, Body(r)) && end == start + |Body(r)|
    ensures start == |data| ==> DecodeData(data, start, r.g.(data := []), BodyLength(r)) == Err(BufferUnderflow)
    ensures start < |data| ==> DecodeData(data, start, r.g.(data := []), BodyLength(r)) == Ok((Normal(r), end))
  {
    DecodeOfEncodedBody(data, start, r);
    assert r.g.(data := []).(data := Body(r)) == r.g.(data := Body(r));
  }

  // A record reads back unless its data is empty and the buffer ends there.
  lemma DecodeOfEncodedRecord(data: seq<byte>, pos: nat, r: Record, start: nat, end: nat)
    requires WellFormed(r) && At(data, pos, Head(r)) && At(data, start, Body(r))
    requires start == pos + |Head(r)| && end == start + |Body(r)|
    ensures start == |data| ==> DecodeRecord(data, pos) == Err(BufferUnderflow)
    ensures start < |data| ==> DecodeRecord(data, pos) == Ok((Normal(r), end))
  {
    DecodeOfEncodedHead(data, pos, r);
    RecordAfterHead(data, pos, r.g, BodyLength(r), start);
    DataReads(data, start, r, end);
  }

  // ----- Messages -----

  function QuestionCodec(data: seq<byte>): Codec<Question> {
    Codec(EncodeQuestion, QuestionAt(data), (q: Question) => q, (q: Question) => false)
  }

  function RecordCodec(data: seq<byte>): Codec<Record> {
    Codec(EncodeRecord, RecordAt(data), Normal, EndsEmpty)
  }

  lemma QuestionReadsAt(data: seq<byte>, p: nat, q: Question, bytes: seq<byte>)
    requires EncodeQuestion(q) == Ok(bytes) && At(data, p, bytes)
    ensures ReadsBackAt(data, QuestionCodec(data), q, bytes, p)
  {
    DecodeOfEncodedQuestion(data, p, q);
    MakeReadsBackAt(data, QuestionCodec(data), q, bytes, p, QuestionAt(data)(p), false, q, p + |bytes|);
  }

  lemma QuestionReadsBack(data: seq<byte>, q: Question)
    requires ValidName(q.domain)
    ensures ReadsBack(data, QuestionCodec(data), q)
  {
    EncodesWhenNamesValid(QuestionFields(q));
    NameLength(q.domain);
    var bytes := EncodeQuestion(q).value;
    forall p: nat | At(data, p, bytes)
      ensures ReadsBackAt(data, QuestionCodec(data), q, bytes, p)
    {
      QuestionReadsAt(data, p, q, bytes);
    }
    MakeReadsBack(data, QuestionCodec(data), q, bytes);
  }

  lemma RecordReadsAt(data: seq<byte>, p: nat, r: Record, start: nat, end: nat)
    requires WellFormed(r) && At(data, p, Head(r)) && At(data, start, Body(r))
    requires start == p + |Head(r)| && end == start + |Body(r)|
    ensures EndsEmpty(r) && end == |data| ==> RecordAt(data)(p) == Err(BufferUnderflow)
    ensures !(EndsEmpty(r) && end == |data|) ==> RecordAt(data)(p) == Ok((Normal(r), end))
  {
    BodyEncodes(r);
    DecodeOfEncodedRecord(data, p, r, start, end);
  }

  lemma RecordReadsBackAt(data: seq<byte>, p: nat, r: Record, start: nat, end: nat, bytes: seq<byte>)
    requires WellFormed(r) && At(data, p, Head(r)) && At(data, start, Body(r))
    requires start == p + |Head(r)| && end == start + |Body(r)| == p + |bytes|
    ensures ReadsBackAt(data, RecordCodec(data), r, bytes, p)
  {
    RecordReadsAt(data, p, r, start, end);
    MakeReadsBackAt(data, RecordCodec(data), r, bytes, p, RecordAt(data)(p), EndsEmpty(r), Normal(r), end);
  }

  lemma RecordReadsBack(data: seq<byte>, r: Record)
    requires WellFormed(r)
    ensures ReadsBack(data, RecordCodec(data), r)
  {
    var bytes := Head(r) + Body(r);
    RecordEncodes(r);
    HeadNotEmpty(r);
    forall p: nat | At(data, p, bytes)
      ensures ReadsBackAt(data, RecordCodec(data), r, bytes, p)
    {
      AtSplit(data, p, Head(r), Body(r));
      RecordReadsBackAt(data, p, r, p + |Head(r)|, p + |bytes|, bytes);
    }
    MakeReadsBack(data, RecordCodec(data), r, bytes);
  }

  lemma HeadNotEmpty(r: Record)
    requires WellFormed(r)
    ensures Head(r) != []
  {
    HeadEncodes(r.g, BodyLength(r));
    assert HeadFields(r.g, BodyLength(r))[0] == NameField(r.g.name);
    NameLength(r.g.name);
  }
}
