// Whole DNS messages: what encoding and decoding keep.
module MessageTheorems {
  import opened Bytes
  import opened Wrappers
  import opened DomainNames
  import opened Wire
  import opened Batches
  import opened Messages
  import opened DnsTheorems

  // The header says how many questions and records there are; only a truncated message may have
  // fewer, and then they are missing at the end.
  predicate Counted(m: Message) {
    var total := Sum(Counts(m.header));
    && |m.questions| <= m.header.questionCount && |m.Records()| <= total
    && (|m.questions| < m.header.questionCount ==> m.Records() == [])
    && (|m.questions| < m.header.questionCount || |m.Records()| < total ==> m.header.truncated)
    && m.Sections() == Chunk(m.Records(), Counts(m.header))
  }

  predicate WellFormedMessage(m: Message) {
    && m.header.opcode < 16 && m.header.responseCode < 16
    && (forall q :: q in m.questions ==> ValidName(q.domain))
    && (forall r :: r in m.Records() ==> WellFormed(r))
    && Counted(m)
  }

  // The last thing a message holds is a record with nothing as its data.
  predicate LastEmpty(m: Message) {
    var rs := m.Records();
    rs != [] && EndsEmpty(rs[|rs| - 1])
  }

  function NormalWith(normal: Record -> Record, m: Message): Message {
    Message(m.header, m.questions, Map(normal, m.answers), Map(normal, m.authorities), Map(normal, m.additional))
  }

  function NormalMessage(m: Message): Message {
    NormalWith(Normal, m)
  }

  // Counts as AutoFill sets them are always right.
  lemma ExactCountsAreCounted(m: Message)
    requires |m.questions| == m.header.questionCount
    requires |m.answers| == m.header.answerCount && |m.authorities| == m.header.authorityCount
    requires |m.additional| == m.header.additionalCount
    ensures Counted(m)
  {
    var rs, cs := m.Records(), Counts(m.header);
    var a, b, c := m.answers, m.authorities, m.additional;
    assert rs[..|a|] == a && rs[|a|..] == b + c;
    assert (b + c)[..|b|] == b && (b + c)[|b|..] == c && c[..|c|] == c;
    assert cs[1..] == [cs[1], cs[2]] && cs[1..][1..] == [cs[2]] && cs[1..][1..][1..] == [];
    assert Sum([cs[2]]) == cs[2] && Sum(cs[1..]) == cs[1] + cs[2] && Sum(cs) == cs[0] + cs[1] + cs[2];
    assert Chunk(c, [cs[2]]) == [c];
    assert Chunk(b + c, cs[1..]) == [b, c];
    assert Chunk(rs, cs) == [a, b, c];
  }

  // So AutoFill makes a message encodable and decodable exactly when no list overflows its count.
  lemma FilledIsCounted(m: Message)
    ensures Counted(Filled(m)) <==> |m.questions| < 0x1_0000 && |m.answers| < 0x1_0000
                                    && |m.authorities| < 0x1_0000 && |m.additional| < 0x1_0000
  {
    var f := Filled(m);
    if |m.questions| < 0x1_0000 && |m.answers| < 0x1_0000 && |m.authorities| < 0x1_0000 && |m.additional| < 0x1_0000 {
      ExactCountsAreCounted(f);
    } else {
      var cs := Counts(f.header);
      assert Sum(cs[1..][1..]) == cs[2] && Sum(cs[1..]) == cs[1] + cs[2] && Sum(cs) == cs[0] + cs[1] + cs[2];
      ModBelow(|m.questions|);
      ModBelow(|m.answers|);
      ModBelow(|m.authorities|);
      ModBelow(|m.additional|);
    }
  }

  lemma ModBelow(n: nat)
    ensures n % 0x1_0000 <= n && (n >= 0x1_0000 ==> n % 0x1_0000 < n)
  {
  }

  // ----- Decoding what was encoded, for any codecs that read back -----

  ghost predicate Plain(c: Codec<Question>, qs: seq<Question>) {
    forall q :: q in qs ==> c.normal(q) == q && !c.endsEmpty(q)
  }

  lemma {:induction false} MapPlain(c: Codec<Question>, qs: seq<Question>)
    requires Plain(c, qs)
    ensures Map(c.normal, qs) == qs
  {
    forall i | 0 <= i < |qs|
      ensures Map(c.normal, qs)[i] == qs[i]
    {
      assert qs[i] in qs;
    }
  }

  lemma QuestionsReadBack(data: seq<byte>, c: Codec<Question>, pos: nat, qs: seq<Question>, mid: nat, n: nat)
    requires AllReadBack(data, c, qs) && Plain(c, qs) && |qs| <= n
    requires EncodeItems(c.encode, qs).Ok? && At(data, pos, EncodeItems(c.encode, qs).value)
    requires mid == pos + |EncodeItems(c.encode, qs).value|
    requires |qs| < n ==> c.decode(mid) == Err(BufferUnderflow)
    ensures DecodeItems(c.decode, pos, n) == Batch(qs, mid, if |qs| == n then None else Some(BufferUnderflow))
  {
    if qs != [] {
      assert qs[|qs| - 1] in qs;
    }
    ItemsReadBack(data, c, pos, qs, mid);
    MapPlain(c, qs);
    YieldsItems(c.decode, pos, qs, mid, n);
    assert qs + [] == qs;
  }

  lemma RecordsReadBack(data: seq<byte>, c: Codec<Record>, pos: nat, rs: seq<Record>, n: nat)
    requires AllReadBack(data, c, rs) && |rs| <= n && !(rs != [] && c.endsEmpty(rs[|rs| - 1]))
    requires EncodeItems(c.encode, rs).Ok? && At(data, pos, EncodeItems(c.encode, rs).value)
    requires pos + |EncodeItems(c.encode, rs).value| == |data| && c.decode(|data|) == Err(BufferUnderflow)
    ensures DecodeItems(c.decode, pos, n) ==
            Batch(Map(c.normal, rs), |data|, if |rs| == n then None else Some(BufferUnderflow))
  {
    ItemsReadBack(data, c, pos, rs, |data|);
    YieldsItems(c.decode, pos, Map(c.normal, rs), |data|, n);
    assert Map(c.normal, rs) + [] == Map(c.normal, rs);
  }

  lemma RecordsReadShort(data: seq<byte>, c: Codec<Record>, pos: nat, rs: seq<Record>, n: nat)
    requires AllReadBack(data, c, rs) && |rs| <= n && rs != [] && c.endsEmpty(rs[|rs| - 1])
    requires EncodeItems(c.encode, rs).Ok? && At(data, pos, EncodeItems(c.encode, rs).value)
    requires pos + |EncodeItems(c.encode, rs).value| == |data|
    ensures var b := DecodeItems(c.decode, pos, n);
            b.items == Map(c.normal, rs[..|rs| - 1]) && b.error == Some(BufferUnderflow)
  {
    var init, last := rs[..|rs| - 1], rs[|rs| - 1];
    assert rs == init + [last];
    EncodesAll(c.encode, rs);
    EncodesAll(c.encode, init);
    var end := pos + |EncodeItems(c.encode, init).value|;
    AllButLastReadBack(data, c, pos, init, last, end);
    YieldsItems(c.decode, pos, Map(c.normal, init), end, n);
    assert Map(c.normal, init) + [] == Map(c.normal, init);
  }

  // What decoding after the header amounts to, once the questions are read.
  lemma AfterQuestions(h: Header, questionAt: Decoder<Question>,
                       recordAt: Decoder<Record>, pos: nat, limit: nat,
                       qs: seq<Question>, mid: nat, b: Batch<Record>)
    requires DecodeItems(questionAt, pos, h.questionCount) == Batch(qs, mid, None)
    requires DecodeItems(recordAt, mid, Sum(Counts(h))) == b
    ensures var s := Chunk(b.items, Counts(h));
            var m := Message(h, qs, s[0], s[1], s[2]);
            DecodeAfterHeader(h, questionAt, recordAt, pos, limit) ==
              if b.error.Some? then StopAt(m, b.error.value)
              else if b.pos != limit then Err(ExcessData) else Ok(m)
  {
    SectionsAreChunks(recordAt, mid, Counts(h));
  }

  // The sections of a message decoded from normal forms are the normal forms of its sections.
  lemma NormalSections(m: Message, normal: Record -> Record)
    requires m.Sections() == Chunk(m.Records(), Counts(m.header))
    ensures var s := Chunk(Map(normal, m.Records()), Counts(m.header));
            Message(m.header, m.questions, s[0], s[1], s[2]) == NormalWith(normal, m)
  {
    ChunkMap(normal, m.Records(), Counts(m.header));
    var s := m.Sections();
    assert s[0] == m.answers && s[1] == m.authorities && s[2] == m.additional;
  }

  lemma AfterHeaderReadsBack(data: seq<byte>, qc: Codec<Question>, rc: Codec<Record>, pos: nat, m: Message,
                        q: seq<byte>, mid: nat, r: seq<byte>)
    requires Counted(m) && AllReadBack(data, qc, m.questions) && Plain(qc, m.questions)
    requires AllReadBack(data, rc, m.Records())
    requires EncodeItems(qc.encode, m.questions) == Ok(q) && At(data, pos, q) && mid == pos + |q|
    requires EncodeItems(rc.encode, m.Records()) == Ok(r) && At(data, mid, r) && mid + |r| == |data|
    requires qc.decode(|data|) == Err(BufferUnderflow) && rc.decode(|data|) == Err(BufferUnderflow)
    requires !(m.Records() != [] && rc.endsEmpty(m.Records()[|m.Records()| - 1]))
    ensures DecodeAfterHeader(m.header, qc.decode, rc.decode, pos, |data|) == Ok(NormalWith(rc.normal, m))
  {
    var qs, rs, n := m.questions, m.Records(), Sum(Counts(m.header));
    QuestionsReadBack(data, qc, pos, qs, mid, m.header.questionCount);
    if |qs| == m.header.questionCount {
      RecordsReadBack(data, rc, mid, rs, n);
      AfterQuestions(m.header, qc.decode, rc.decode, pos, |data|, qs, mid, DecodeItems(rc.decode, mid, n));
      NormalSections(m, rc.normal);
    }
  }

  // Otherwise the last record is lost: that is an error, unless the message is marked truncated.
  lemma AfterHeaderReadsShort(data: seq<byte>, qc: Codec<Question>, rc: Codec<Record>, pos: nat, m: Message,
                         q: seq<byte>, mid: nat, r: seq<byte>)
    requires Counted(m) && AllReadBack(data, qc, m.questions) && Plain(qc, m.questions)
    requires AllReadBack(data, rc, m.Records())
    requires EncodeItems(qc.encode, m.questions) == Ok(q) && At(data, pos, q) && mid == pos + |q|
    requires EncodeItems(rc.encode, m.Records()) == Ok(r) && At(data, mid, r) && mid + |r| == |data|
    requires m.Records() != [] && rc.endsEmpty(m.Records()[|m.Records()| - 1])
    ensures match DecodeAfterHeader(m.header, qc.decode, rc.decode, pos, |data|)
            case Ok(got) => m.header.truncated && |got.Records()| == |m.Records()| - 1
            case Err(e) => !m.header.truncated && e == BufferUnderflow
  {
    var qs, rs, n := m.questions, m.Records(), Sum(Counts(m.header));
    QuestionsReadBack(data, qc, pos, qs, mid, m.header.questionCount);
    RecordsReadShort(data, rc, mid, rs, n);
    var b := DecodeItems(rc.decode, mid, n);
    AfterQuestions(m.header, qc.decode, rc.decode, pos, |data|, qs, mid, b);
    RecordsOfChunk(m.header, qs, b.items);
  }

  lemma RecordsOfChunk(h: Header, qs: seq<Question>, rs: seq<Record>)
    requires |rs| <= Sum(Counts(h))
    ensures var s := Chunk(rs, Counts(h)); Message(h, qs, s[0], s[1], s[2]).Records() == rs
  {
    var s := Chunk(rs, Counts(h));
    FlattenChunk(rs, Counts(h));
    assert s == [s[0], s[1], s[2]];
    FlattenThree(s[0], s[1], s[2]);
  }

  // ----- The round trip of a message -----

  lemma MessageEncodes(m: Message)
    requires (forall q :: q in m.questions ==> ValidName(q.domain)) && forall r :: r in m.Records() ==> WellFormed(r)
    ensures EncodeItems(EncodeQuestion, m.questions).Ok? && EncodeItems(EncodeRecord, m.Records()).Ok?
    ensures EncodeMessage(m) == Ok(HeaderBytes(m.header) + EncodeItems(EncodeQuestion, m.questions).value
                                   + EncodeItems(EncodeRecord, m.Records()).value)
  {
    forall q | q in m.questions
      ensures EncodeQuestion(q).Ok?
    {
      QuestionReadsBack([], q);
    }
    forall r | r in m.Records()
      ensures EncodeRecord(r).Ok?
    {
      RecordReadsBack([], r);
    }
    EncodesAll(EncodeQuestion, m.questions);
    EncodesAll(EncodeRecord, m.Records());
  }

  // All names in a record can be written.
  predicate NamesValid(r: Record) {
    && ValidName(r.g.name)
    && match r
       case DomainRecord(_, d) => ValidName(d)
       case SOARecord(_, s) => ValidName(s.master) && ValidName(s.responsible)
       case _ => true
  }

  lemma RecordEncodesWhenNamesValid(r: Record)
    ensures EncodeRecord(r).Ok? <==> NamesValid(r)
    ensures EncodeRecord(r).Err? ==> EncodeRecord(r).error == InvalidName
  {
    EncodesWhenNamesValid(BodyFields(r));
    if r.SOARecord? {
      assert NameField(r.soa.master) in BodyFields(r) && NameField(r.soa.responsible) in BodyFields(r);
    } else if r.DomainRecord? {
      assert NameField(r.domain) in BodyFields(r);
    }
    if EncodeFields(BodyFields(r)).Ok? {
      HeadEncodes(r.g, |EncodeFields(BodyFields(r)).value| % 0x1_0000);
    }
  }

  lemma QuestionEncodesWhenNameValid(q: Question)
    ensures EncodeQuestion(q).Ok? <==> ValidName(q.domain)
    ensures EncodeQuestion(q).Err? ==> EncodeQuestion(q).error == InvalidName
  {
    EncodesWhenNamesValid(QuestionFields(q));
    assert NameField(q.domain) in QuestionFields(q);
  }

  // Any message encodes if and only if every name in it is valid; nothing else can fail.
  lemma MessageEncodesWhenNamesValid(m: Message)
    ensures EncodeMessage(m).Ok? <==>
            (forall q :: q in m.questions ==> ValidName(q.domain)) && forall r :: r in m.Records() ==> NamesValid(r)
    ensures EncodeMessage(m).Err? ==> EncodeMessage(m).error == InvalidName
  {
    EncodesWhenNamesValid(HeaderFields(m.header));
    forall q ensures EncodeQuestion(q).Ok? <==> ValidName(q.domain)
      ensures EncodeQuestion(q).Err? ==> EncodeQuestion(q).error == InvalidName
    {
      QuestionEncodesWhenNameValid(q);
    }
    forall r ensures EncodeRecord(r).Ok? <==> NamesValid(r)
      ensures EncodeRecord(r).Err? ==> EncodeRecord(r).error == InvalidName
    {
      RecordEncodesWhenNamesValid(r);
    }
    EncodesAll(EncodeQuestion, m.questions);
    EncodesAll(EncodeRecord, m.Records());
    EncodesOrFails(EncodeQuestion, m.questions, InvalidName);
    EncodesOrFails(EncodeRecord, m.Records(), InvalidName);
  }

  function HeaderBytes(h: Header): (b: seq<byte>)
    ensures EncodeFields(HeaderFields(h)) == Ok(b)
  {
    EncodesWhenNamesValid(HeaderFields(h));
    EncodeFields(HeaderFields(h)).value
  }

  lemma NothingAtEnd(data: seq<byte>)
    ensures QuestionAt(data)(|data|) == Err(BufferUnderflow) && RecordAt(data)(|data|) == Err(BufferUnderflow)
  {
  }

  lemma AllQuestionsReadBack(data: seq<byte>, qs: seq<Question>)
    requires forall q :: q in qs ==> ValidName(q.domain)
    ensures AllReadBack(data, QuestionCodec(data), qs) && Plain(QuestionCodec(data), qs)
  {
    forall q | q in qs
      ensures ReadsBack(data, QuestionCodec(data), q)
    {
      QuestionReadsBack(data, q);
    }
  }

  lemma AllRecordsReadBack(data: seq<byte>, rs: seq<Record>)
    requires forall r :: r in rs ==> WellFormed(r)
    ensures AllReadBack(data, RecordCodec(data), rs)
  {
    forall r | r in rs
      ensures ReadsBack(data, RecordCodec(data), r)
    {
      RecordReadsBack(data, r);
    }
  }

  // The three parts of an encoded message, where they stand.
  lemma PartsStand(data: seq<byte>, a: seq<byte>, b: seq<byte>, c: seq<byte>)
    requires data == a + b + c
    ensures At(data, 0, a) && At(data, |a|, b) && At(data, |a| + |b|, c) && |a| + |b| + |c| == |data|
  {
    AtSplit(data, 0, a + b, c);
    AtSplit(data, 0, a, b);
  }

  lemma DecodeStarts(data: seq<byte>, h: Header, end: nat)
    requires h.opcode < 16 && h.responseCode < 16 && At(data, 0, HeaderBytes(h)) && end == |HeaderBytes(h)|
    ensures DecodeMessage(data) == DecodeAfterHeader(h, QuestionAt(data), RecordAt(data), end, |data|)
  {
    DecodeOfEncodedHeader(data, 0, h);
  }

  lemma PartsReadBack(m: Message, data: seq<byte>, q: seq<byte>, r: seq<byte>, pos: nat)
    requires Counted(m) && (forall t :: t in m.questions ==> ValidName(t.domain))
    requires (forall t :: t in m.Records() ==> WellFormed(t)) && !LastEmpty(m)
    requires EncodeItems(EncodeQuestion, m.questions) == Ok(q) && At(data, pos, q)
    requires EncodeItems(EncodeRecord, m.Records()) == Ok(r) && At(data, pos + |q|, r) && pos + |q| + |r| == |data|
    ensures DecodeAfterHeader(m.header, QuestionAt(data), RecordAt(data), pos, |data|) == Ok(NormalMessage(m))
  {
    AllQuestionsReadBack(data, m.questions);
    AllRecordsReadBack(data, m.Records());
    NothingAtEnd(data);
    AfterHeaderReadsBack(data, QuestionCodec(data), RecordCodec(data), pos, m, q, pos + |q|, r);
  }

  lemma PartsReadShort(m: Message, data: seq<byte>, q: seq<byte>, r: seq<byte>, pos: nat)
    requires Counted(m) && (forall t :: t in m.questions ==> ValidName(t.domain))
    requires (forall t :: t in m.Records() ==> WellFormed(t)) && LastEmpty(m)
    requires EncodeItems(EncodeQuestion, m.questions) == Ok(q) && At(data, pos, q)
    requires EncodeItems(EncodeRecord, m.Records()) == Ok(r) && At(data, pos + |q|, r) && pos + |q| + |r| == |data|
    ensures match DecodeAfterHeader(m.header, QuestionAt(data), RecordAt(data), pos, |data|)
            case Ok(got) => m.header.truncated && |got.Records()| == |m.Records()| - 1
            case Err(e) => !m.header.truncated && e == BufferUnderflow
  {
    AllQuestionsReadBack(data, m.questions);
    AllRecordsReadBack(data, m.Records());
    AfterHeaderReadsShort(data, QuestionCodec(data), RecordCodec(data), pos, m, q, pos + |q|, r);
  }

  // An encoded message decodes to its normal form exactly when its last record has data.
  lemma DecodeOfEncodedMessage(m: Message)
    requires WellFormedMessage(m)
    ensures EncodeMessage(m).Ok?
    ensures DecodeMessage(EncodeMessage(m).value) == Ok(NormalMessage(m)) <==> !LastEmpty(m)
    ensures LastEmpty(m) && !m.header.truncated ==> DecodeMessage(EncodeMessage(m).value) == Err(BufferUnderflow)
  {
    MessageEncodes(m);
    var q, r := EncodeItems(EncodeQuestion, m.questions).value, EncodeItems(EncodeRecord, m.Records()).value;
    var data := EncodeMessage(m).value;
    PartsStand(data, HeaderBytes(m.header), q, r);
    var pos := |HeaderBytes(m.header)|;
    DecodeStarts(data, m.header, pos);
    if LastEmpty(m) {
      PartsReadShort(m, data, q, r, pos);
      assert |NormalMessage(m).Records()| == |m.Records()|;
    } else {
      PartsReadBack(m, data, q, r, pos);
    }
  }

  // For instance: a message whose only record has no data, as an empty TXT record would.
  lemma EmptyRecordDoesNotDecode(h: Header, g: Generic, m: Message)
    requires h.opcode < 16 && h.responseCode < 16 && !h.truncated
    requires h.questionCount == 0 && h.answerCount == 1 && h.authorityCount == 0 && h.additionalCount == 0
    requires ValidName(g.name) && g.data == [] && !CarriesName(g.rtype) && g.rtype != TYPE_SOA && g.rtype != TYPE_A
    requires m == Message(h, [], [GenericRecord(g)], [], [])
    ensures EncodeMessage(m).Ok? && DecodeMessage(EncodeMessage(m).value) == Err(BufferUnderflow)
  {
    ExactCountsAreCounted(m);
    assert m.Records() == [GenericRecord(g)];
    DecodeOfEncodedMessage(m);
  }

  // ----- What decoding gives -----

  lemma DecodedItemsAreGood(data: seq<byte>, pos: nat, n: nat)
    ensures forall q :: q in DecodeItems(QuestionAt(data), pos, n).items ==> ValidName(q.domain)
    ensures forall r :: r in DecodeItems(RecordAt(data), pos, n).items ==> WellFormed(r) && Wrapped(r)
  {
    var p, good := (q: Question) => ValidName(q.domain), (r: Record) => WellFormed(r) && Wrapped(r);
    ItemsSatisfy(QuestionAt(data), p, pos, n);
    ItemsSatisfy(RecordAt(data), good, pos, n);
    forall q | q in DecodeItems(QuestionAt(data), pos, n).items
      ensures ValidName(q.domain)
    {
      assert p(q);
    }
    forall r | r in DecodeItems(RecordAt(data), pos, n).items
      ensures WellFormed(r) && Wrapped(r)
    {
      assert good(r);
    }
  }

  // The questions and records of a decoded message are those decoded, in order.
  lemma AfterHeaderYields(h: Header, questionAt: Decoder<Question>,
                          recordAt: Decoder<Record>, pos: nat, limit: nat, m: Message)
    requires DecodeAfterHeader(h, questionAt, recordAt, pos, limit) == Ok(m)
    ensures var q := DecodeItems(questionAt, pos, h.questionCount);
            var b := DecodeItems(recordAt, q.pos, Sum(Counts(h)));
            && m.header == h && m.questions == q.items && Counted(m)
            && m.Records() == (if q.error.Some? then [] else b.items)
            && (!h.truncated ==> q.error.None? && b.error.None? && b.pos == limit)
  {
    var q := DecodeItems(questionAt, pos, h.questionCount);
    var b := DecodeItems(recordAt, q.pos, Sum(Counts(h)));
    if q.error.Some? {
      ChunkNothing<Record>(Counts(h));
      assert Chunk<Record>([], Counts(h)) == [[], [], []];
    } else {
      AfterQuestions(h, questionAt, recordAt, pos, limit, q.items, q.pos, b);
      RecordsOfChunk(h, q.items, b.items);
      var s := Chunk(b.items, Counts(h));
      assert s == [s[0], s[1], s[2]];
    }
  }

  // The first error in questions q or records b, but for a truncated message that merely runs out of
  // bytes; excess data when bytes are left; otherwise all that was read.
  ghost predicate IsOutcome(h: Header, q: Batch<Question>, b: Batch<Record>, limit: nat,
                            result: Result<Message, DnsError>) {
    var error := if q.error.Some? then q.error else b.error;
    match result
    case Ok(m) =>
      && m.header == h && m.questions == q.items && m.Records() == (if q.error.Some? then [] else b.items)
      && if error.Some? then h.truncated && error == Some(BufferUnderflow) else b.pos == limit
    case Err(e) =>
      if error.Some? then error == Some(e) && !(h.truncated && e == BufferUnderflow)
      else e == ExcessData && b.pos != limit
  }

  // What decoding comes back with, for every input with a header.
  lemma MessageOutcome(data: seq<byte>, h: Header, pos: nat)
    requires DecodeHeader(data, 0) == Ok((h, pos))
    ensures var q := DecodeItems(QuestionAt(data), pos, h.questionCount);
            var b := DecodeItems(RecordAt(data), q.pos, Sum(Counts(h)));
            IsOutcome(h, q, b, |data|, DecodeMessage(data))
  {
    AfterHeaderOutcome(h, QuestionAt(data), RecordAt(data), pos, |data|);
  }

  lemma AfterHeaderOutcome(h: Header, questionAt: Decoder<Question>, recordAt: Decoder<Record>, pos: nat, limit: nat)
    ensures var q := DecodeItems(questionAt, pos, h.questionCount);
            var b := DecodeItems(recordAt, q.pos, Sum(Counts(h)));
            IsOutcome(h, q, b, limit, DecodeAfterHeader(h, questionAt, recordAt, pos, limit))
  {
    var q := DecodeItems(questionAt, pos, h.questionCount);
    if q.error.None? {
      var b := DecodeItems(recordAt, q.pos, Sum(Counts(h)));
      AfterQuestions(h, questionAt, recordAt, pos, limit, q.items, q.pos, b);
      RecordsOfChunk(h, q.items, b.items);
    }
  }

  lemma DecodedLastHasData(data: seq<byte>, pos: nat, n: nat)
    requires n > 0 && DecodeItems(RecordAt(data), pos, n).error.None?
    requires DecodeItems(RecordAt(data), pos, n).pos == |data|
    ensures !EndsEmpty(DecodeItems(RecordAt(data), pos, n).items[n - 1])
  {
    LastItemEnds(RecordAt(data), EndsEmpty, pos, n, |data|);
  }

  // Whatever decodes is well formed, and with its truncated flag clear its last record has data.
  lemma DecodedMessageIsWellFormed(data: seq<byte>)
    requires DecodeMessage(data).Ok?
    ensures var m := DecodeMessage(data).value;
            && WellFormedMessage(m) && (forall r :: r in m.Records() ==> Wrapped(r))
            && (!m.header.truncated ==> !LastEmpty(m))
  {
    var m := DecodeMessage(data).value;
    var (h, pos) := DecodeHeader(data, 0).value;
    AfterHeaderYields(h, QuestionAt(data), RecordAt(data), pos, |data|, m);
    var q, total := DecodeItems(QuestionAt(data), pos, h.questionCount), Sum(Counts(h));
    DecodedItemsAreGood(data, pos, h.questionCount);
    DecodedItemsAreGood(data, q.pos, total);
    if !h.truncated && m.Records() != [] {
      DecodedLastHasData(data, q.pos, total);
    }
  }

  // ----- The message behind the bytes -----

  // A record without the raw data that a name-carrying record has besides its names.
  function Logical(r: Record): Record {
    match r
    case GenericRecord(_) => r
    case ARecord(_) => r
    case DomainRecord(g, d) => DomainRecord(g.(data := []), d)
    case SOARecord(g, s) => SOARecord(g.(data := []), s)
  }

  lemma {:induction false} NormalKeepsLogical(rs: seq<Record>)
    requires forall r :: r in rs ==> Wrapped(r)
    ensures Map(Logical, Map(Normal, rs)) == Map(Logical, rs)
  {
    forall i | 0 <= i < |rs|
      ensures Logical(Normal(rs[i])) == Logical(rs[i])
    {
      assert rs[i] in rs;
    }
  }

  // A decoded message encodes again; and with the truncated flag clear, that decodes to the same
  // message but for the raw data of records that carry names.
  lemma DecodedMessageReencodes(data: seq<byte>)
    requires DecodeMessage(data).Ok?
    ensures var m := DecodeMessage(data).value;
            && EncodeMessage(m).Ok?
            && (!m.header.truncated ==>
                 && DecodeMessage(EncodeMessage(m).value) == Ok(NormalMessage(m))
                 && NormalWith(Logical, NormalMessage(m)) == NormalWith(Logical, m))
  {
    var m := DecodeMessage(data).value;
    DecodedMessageIsWellFormed(data);
    DecodeOfEncodedMessage(m);
    assert forall r :: r in m.answers || r in m.authorities || r in m.additional ==> r in m.Records();
    NormalKeepsLogical(m.answers);
    NormalKeepsLogical(m.authorities);
    NormalKeepsLogical(m.additional);
  }

  // ----- Normal forms -----

  lemma NormalRecordEncodesTheSame(r: Record)
    requires WellFormed(r)
    ensures EncodeRecord(Normal(r)) == EncodeRecord(r)
  {
    assert BodyFields(Normal(r)) == BodyFields(r);
    assert forall length :: HeadFields(Normal(r).g, length) == HeadFields(r.g, length);
  }

  // Encoding what a message decodes to gives the very same bytes.
  lemma NormalMessageEncodesTheSame(m: Message)
    requires forall r :: r in m.Records() ==> WellFormed(r)
    ensures EncodeMessage(NormalMessage(m)) == EncodeMessage(m)
  {
    forall r | r in m.Records()
      ensures EncodeRecord(Normal(r)) == EncodeRecord(r)
    {
      NormalRecordEncodesTheSame(r);
    }
    EncodeMapped(EncodeRecord, Normal, m.Records());
    MapAppend(Normal, m.answers + m.authorities, m.additional);
    MapAppend(Normal, m.answers, m.authorities);
  }
}
