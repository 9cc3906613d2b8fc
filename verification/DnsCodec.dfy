// The program's encoder and decoder of DNS messages, over its reader and writer.
module DnsCodec {
  import opened Bytes
  import opened Wrappers
  import opened DomainNames
  import opened Wire
  import opened Transcoding
  import opened Batches
  import opened Messages

  // ----- Headers -----

  // The flag bits are disjoint, so or-ing them in is adding them.
  method EncodeHeader(h: Header, w: MessageWriter) returns (err: Option<DnsError>)
    modifies w
    ensures EncodeFields(HeaderFields(h)).Ok? && err == None
    ensures w.buf == old(w.buf) + EncodeFields(HeaderFields(h)).value
  {
    var flags := 0;
    if h.isResponse {
      flags := flags + 0x8000;
    }
    var opcode: int := h.opcode % 16;
    flags := flags + opcode * 0x800;
    if h.authoritative {
      flags := flags + 0x400;
    }
    if h.truncated {
      flags := flags + 0x200;
    }
    if h.recursionDesired {
      flags := flags + 0x100;
    }
    if h.recursionAvailable {
      flags := flags + 0x80;
    }
    var responseCode: int := h.responseCode % 16;
    flags := flags + responseCode;
    assert flags == Flags(h);
    EncodesWhenNamesValid(HeaderFields(h));
    err := w.WriteFields([Word16(h.identifier), Word16(flags), Word16(h.questionCount), Word16(h.answerCount),
                          Word16(h.authorityCount), Word16(h.additionalCount)]);
  }

  method DecodeHeader(m: MessageReader) returns (r: Result<Header, DnsError>)
    requires m.Valid()
    modifies m
    ensures m.Valid()
    ensures match Messages.DecodeHeader(m.data, old(m.pos))
            case Ok((h, end)) => r == Ok(h) && m.pos == end
            case Err(e) => r == Err(e)
  {
    var f :- m.ReadFields(HEADER_KINDS);
    assert forall i :: 0 <= i < 6 ==> Reads(f[i], HEADER_KINDS[i]);
    var flags := f[1].w;
    var h := Header(f[0].w, false, 0, false, false, false, false, 0, f[2].w, f[3].w, f[4].w, f[5].w);
    if flags / 0x8000 % 2 != 0 {
      h := h.(isResponse := true);
    }
    h := h.(opcode := flags / 0x800 % 16);
    if flags / 0x400 % 2 != 0 {
      h := h.(authoritative := true);
    }
    if flags / 0x200 % 2 != 0 {
      h := h.(truncated := true);
    }
    if flags / 0x100 % 2 != 0 {
      h := h.(recursionDesired := true);
    }
    if flags / 0x80 % 2 != 0 {
      h := h.(recursionAvailable := true);
    }
    h := h.(responseCode := flags % 16);
    return Ok(h);
  }

  // ----- Questions -----

  method EncodeQuestion(q: Question, w: MessageWriter) returns (err: Option<DnsError>)
    modifies w
    ensures match Messages.EncodeQuestion(q)
            case Ok(bytes) => err == None && w.buf == old(w.buf) + bytes
            case Err(e) => err == Some(e)
  {
    err := w.WriteFields([NameField(q.domain), Word16(q.qtype), Word16(q.qclass)]);
  }

  method DecodeQuestion(m: MessageReader) returns (r: Result<Question, DnsError>)
    requires m.Valid()
    modifies m
    ensures m.Valid()
    ensures match Messages.DecodeQuestion(m.data, old(m.pos))
            case Ok((q, end)) => r == Ok(q) && m.pos == end
            case Err(e) => r == Err(e)
  {
    var f :- m.ReadFields(QUESTION_KINDS);
    assert forall i :: 0 <= i < 3 ==> Reads(f[i], QUESTION_KINDS[i]);
    return Ok(Question(f[0].name, f[1].w, f[2].w));
  }

  // ----- Records -----

  lemma {:induction false} EncodeFieldsAppend(a: seq<Field>, b: seq<Field>)
    ensures EncodeFields(a).Ok? && EncodeFields(b).Ok? ==>
              EncodeFields(a + b) == Ok(EncodeFields(a).value + EncodeFields(b).value)
    decreases |a|
  {
    if a == [] {
      assert a + b == b;
      assert EncodeFields(b).Ok? ==> [] + EncodeFields(b).value == EncodeFields(b).value;
    } else {
      assert (a + b)[0] == a[0] && (a + b)[1..] == a[1..] + b;
      EncodeFieldsAppend(a[1..], b);
      if EncodeFields(a).Ok? && EncodeFields(b).Ok? {
        var x, y, z := EncodeField(a[0]).value, EncodeFields(a[1..]).value, EncodeFields(b).value;
        assert x + (y + z) == x + y + z;
      }
    }
  }

  function HeadStart(g: Generic): seq<Field> {
    [NameField(g.name), Word16(g.rtype), Word16(g.rclass), Word32(g.ttl)]
  }

  // Name, type, class and time to live; the length of the data; the data.
  lemma RecordInPieces(r: Record)
    ensures EncodeFields(HeadStart(r.g)).Err? ==> Messages.EncodeRecord(r) == Err(EncodeFields(HeadStart(r.g)).error)
    ensures EncodeFields(BodyFields(r)).Err? ==> Messages.EncodeRecord(r) == Err(EncodeFields(BodyFields(r)).error)
    ensures EncodeFields(HeadStart(r.g)).Ok? && EncodeFields(BodyFields(r)).Ok? ==>
              var a, b := EncodeFields(HeadStart(r.g)).value, EncodeFields(BodyFields(r)).value;
              Messages.EncodeRecord(r) == Ok(a + Bytes16(|b| % 0x1_0000) + b)
  {
    var start, body := HeadStart(r.g), BodyFields(r);
    EncodesWhenNamesValid(start);
    EncodesWhenNamesValid(body);
    assert NameField(r.g.name) in start;
    if EncodeFields(body).Ok? {
      var length: uint16 := |EncodeFields(body).value| % 0x1_0000;
      HeadEncodes(r.g, length);
      assert HeadFields(r.g, length) == start + [Word16(length)];
      assert EncodeFields([Word16(length)]) == Ok(Bytes16(length) + []) && Bytes16(length) + [] == Bytes16(length);
      EncodeFieldsAppend(start, [Word16(length)]);
    }
  }

  lemma RawFields(data: seq<byte>, length: uint16)
    ensures EncodeFields([Word16(length), Raw(data)]) == Ok(Bytes16(length) + data)
    ensures EncodeFields([Raw(data)]) == Ok(data)
  {
    var rest := [Raw(data)];
    assert rest[1..] == [] && data + [] == data;
    assert EncodeFields(rest) == Ok(data);
    assert [Word16(length), Raw(data)][1..] == rest;
  }

  method EncodeRecord(r: Record, w: MessageWriter) returns (err: Option<DnsError>)
    modifies w
    ensures match Messages.EncodeRecord(r)
            case Ok(bytes) => err == None && w.buf == old(w.buf) + bytes
            case Err(e) => err == Some(e)
  {
    RecordInPieces(r);
    ghost var front := w.buf;
    err := w.WriteFields([NameField(r.g.name), Word16(r.g.rtype), Word16(r.g.rclass), Word32(r.g.ttl)]);
    if err.Some? {
      return;
    }
    ghost var head := EncodeFields(HeadStart(r.g)).value;
    assert w.buf == front + head;
    err := EncodeBody(r, w);
    if err.None? {
      ghost var body := EncodeFields(BodyFields(r)).value;
      ThreeParts(front, head, Bytes16(|body| % 0x1_0000), body, w.buf);
    }
  }

  lemma ThreeParts(front: seq<byte>, a: seq<byte>, b: seq<byte>, c: seq<byte>, all: seq<byte>)
    requires all == front + a + b + c
    ensures all == front + (a + b + c)
  {
  }

  // The length of a record's data, and the data.
  method EncodeBody(r: Record, w: MessageWriter) returns (err: Option<DnsError>)
    modifies w
    ensures match EncodeFields(BodyFields(r))
            case Ok(body) => err == None && w.buf == old(w.buf) + Bytes16(|body| % 0x1_0000) + body
            case Err(e) => err == Some(e)
  {
    match r {
      case DomainRecord(_, d) =>
        err := w.WriteWithLength([NameField(d)]);
      case SOARecord(_, s) =>
        err := w.WriteWithLength([NameField(s.master), NameField(s.responsible), Word32(s.serial), Word32(s.refresh),
                                  Word32(s.retry), Word32(s.expire), Word32(s.minimum)]);
      case _ =>
        RawFields(r.g.data, |r.g.data| % 0x1_0000);
        ghost var front := w.buf;
        err := w.WriteFields([Word16(|r.g.data| % 0x1_0000), Raw(r.g.data)]);
        assert front + (Bytes16(|r.g.data| % 0x1_0000) + r.g.data) == front + Bytes16(|r.g.data| % 0x1_0000) + r.g.data;
    }
  }

  method DecodeRecord(m: MessageReader) returns (r: Result<Record, DnsError>)
    requires m.Valid()
    modifies m
    ensures m.Valid()
    ensures match Messages.DecodeRecord(m.data, old(m.pos))
            case Ok((record, end)) => r == Ok(record) && m.pos == end
            case Err(e) => r == Err(e)
  {
    var f :- m.ReadFields(HEAD_KINDS);
    ghost var start := m.pos;
    HeadRead(m.data, old(m.pos), f, start);
    var data :- m.ReadN(f[4].w);
    r := DecodeVariant(m, Generic(f[0].name, f[1].w, f[2].w, f[3].d, data), start);
  }

  lemma HeadRead(data: seq<byte>, pos: nat, f: seq<Field>, start: nat)
    requires pos <= |data| && DecodeFields(data, pos, HEAD_KINDS) == Ok((f, start))
    ensures |f| == 5 && f[0].NameField? && f[1].Word16? && f[2].Word16? && f[3].Word32? && f[4].Word16?
    ensures Messages.DecodeRecord(data, pos) ==
            DecodeData(data, start, Generic(f[0].name, f[1].w, f[2].w, f[3].d, []), f[4].w)
  {
    assert forall i :: 0 <= i < 5 ==> Reads(f[i], HEAD_KINDS[i]);
  }

  method DecodeVariant(m: MessageReader, g: Generic, ghost start: nat) returns (r: Result<Record, DnsError>)
    requires m.Valid() && m.pos == start + |g.data|
    modifies m
    ensures m.Valid() && r == DecodeBody(m.data, start, old(m.pos), g)
    ensures r.Ok? ==> m.pos == old(m.pos)
  {
    if g.rtype == TYPE_A {
      if |g.data| != 4 {
        return Err(InvalidRecord);
      }
      return Ok(ARecord(g));
    } else if g.rtype == TYPE_NS || g.rtype == TYPE_CNAME || g.rtype == TYPE_PTR {
      r := DecodeDomainRecord(m, g, start);
      return;
    } else if g.rtype == TYPE_SOA {
      r := DecodeSoaRecord(m, g, start);
      return;
    }
    return Ok(GenericRecord(g));
  }

  method DecodeDomainRecord(m: MessageReader, g: Generic, ghost start: nat) returns (r: Result<Record, DnsError>)
    requires m.Valid() && m.pos == start + |g.data| && CarriesName(g.rtype)
    modifies m
    ensures m.Valid() && r == DecodeBody(m.data, start, old(m.pos), g)
    ensures r.Ok? ==> m.pos == old(m.pos)
  {
    var f :- ReadAgain(m, |g.data|, [NameKind]);
    return Ok(DomainRecord(g, f[0].name));
  }

  method DecodeSoaRecord(m: MessageReader, g: Generic, ghost start: nat) returns (r: Result<Record, DnsError>)
    requires m.Valid() && m.pos == start + |g.data| && g.rtype == TYPE_SOA
    modifies m
    ensures m.Valid() && r == DecodeBody(m.data, start, old(m.pos), g)
    ensures r.Ok? ==> m.pos == old(m.pos)
  {
    var f :- ReadAgain(m, |g.data|, SOA_KINDS);
    SoaRead(m.data, start, old(m.pos), g, f);
    return Ok(SOARecord(g, Soa(f[0].name, f[1].name, f[2].d, f[3].d, f[4].d, f[5].d, f[6].d)));
  }

  lemma SoaRead(data: seq<byte>, start: nat, end: nat, g: Generic, f: seq<Field>)
    requires start <= end <= |data| && g.rtype == TYPE_SOA && DecodeFields(data, start, SOA_KINDS) == Ok((f, end))
    ensures |f| == 7 && f[0].NameField? && f[1].NameField? && f[2].Word32? && f[3].Word32? && f[4].Word32?
    ensures f[5].Word32? && f[6].Word32?
    ensures DecodeBody(data, start, end, g) ==
            Ok(SOARecord(g, Soa(f[0].name, f[1].name, f[2].d, f[3].d, f[4].d, f[5].d, f[6].d)))
  {
    assert forall i :: 0 <= i < 7 ==> Reads(f[i], SOA_KINDS[i]);
  }

  // Goes back over the raw data and reads fields from it, which must take up all of it.
  method ReadAgain(m: MessageReader, n: nat, kinds: seq<Kind>) returns (r: Result<seq<Field>, DnsError>)
    requires m.Valid() && n <= m.pos
    modifies m
    ensures m.Valid() && (r.Ok? ==> m.pos == old(m.pos))
    ensures r == match DecodeFields(m.data, old(m.pos) - n, kinds)
                 case Ok((f, end)) => if end == old(m.pos) then Ok(f) else Err(InvalidRecord)
                 case Err(_) => Err(InvalidRecord)
  {
    var oldOff := m.Offset();
    m.Backtrack(n);
    var f := m.ReadFields(kinds);
    if f.Err? || m.Offset() != oldOff {
      return Err(InvalidRecord);
    }
    return f;
  }

  // ----- Messages -----

  class DnsMessage {
    var header: Header
    var questions: seq<Question>
    var answers: seq<Record>
    var authorities: seq<Record>
    var additional: seq<Record>

    constructor (h: Header)
      ensures Value() == Message(h, [], [], [], [])
    {
      header := h;
      questions, answers, authorities, additional := [], [], [], [];
    }

    function Value(): Message
      reads this
    {
      Message(header, questions, answers, authorities, additional)
    }

    method AutoFill()
      modifies this
      ensures Value() == Filled(old(Value()))
    {
      header := header.(questionCount := |questions| % 0x1_0000);
      header := header.(answerCount := |answers| % 0x1_0000);
      header := header.(authorityCount := |authorities| % 0x1_0000);
      header := header.(additionalCount := |additional| % 0x1_0000);
    }

    // Appends to the section with this index.
    method Append(i: nat, r: Record)
      requires i < 3
      modifies this
      ensures Value().(answers := [], authorities := [], additional := []) ==
              old(Value()).(answers := [], authorities := [], additional := [])
      ensures Value().Sections() == old(Value().Sections())[i := old(Value().Sections())[i] + [r]]
    {
      if i == 0 {
        answers := answers + [r];
      } else if i == 1 {
        authorities := authorities + [r];
      } else {
        additional := additional + [r];
      }
    }

    method Encode() returns (r: Result<seq<byte>, DnsError>)
      ensures r == EncodeMessage(Value())
    {
      var w := new MessageWriter();
      var err := EncodeHeader(header, w);
      assert w.buf == EncodeFields(HeaderFields(header)).value;
      err := EncodeQuestions(questions, w);
      if err.Some? {
        return Err(err.value);
      }
      FlattenThree(answers, authorities, additional);
      err := EncodeSections([answers, authorities, additional], w, Messages.EncodeRecord);
      return if err.Some? then Err(err.value) else Ok(w.buf);
    }
  }

  method EncodeQuestions(qs: seq<Question>, w: MessageWriter) returns (err: Option<DnsError>)
    modifies w
    ensures match EncodeItems(Messages.EncodeQuestion, qs)
            case Ok(bytes) => err == None && w.buf == old(w.buf) + bytes
            case Err(e) => err == Some(e)
  {
    ghost var encode: Encoder<Question> := Messages.EncodeQuestion;
    ghost var written: seq<byte> := [];
    NothingEncoded(encode, qs);
    for i := 0 to |qs|
      invariant w.buf == old(w.buf) + written && EncodedSoFar(encode, qs, i, written)
    {
      err := EncodeQuestion(qs[i], w);
      OneMoreEncoded(encode, qs, i, written);
      if err.Some? {
        return;
      }
      written := written + encode(qs[i]).value;
    }
    AllEncoded(encode, qs, written);
    return None;
  }

  ghost predicate Writes(encode: Encoder<Record>) {
    forall r {:trigger Messages.EncodeRecord(r)} :: encode(r) == Messages.EncodeRecord(r)
  }

  // EncodeRecord, against any description of it.
  method WriteRecord(r: Record, w: MessageWriter, ghost encode: Encoder<Record>)
    returns (err: Option<DnsError>)
    requires Writes(encode)
    modifies w
    ensures match encode(r)
            case Ok(bytes) => err == None && w.buf == old(w.buf) + bytes
            case Err(e) => err == Some(e)
  {
    err := EncodeRecord(r, w);
  }

  method EncodeSections(sections: seq<seq<Record>>, w: MessageWriter, ghost encode: Encoder<Record>)
    returns (err: Option<DnsError>)
    requires Writes(encode)
    modifies w
    ensures match EncodeItems(encode, Flatten(sections))
            case Ok(bytes) => err == None && w.buf == old(w.buf) + bytes
            case Err(e) => err == Some(e)
  {
    ghost var rs, k := Flatten(sections), 0;
    ghost var written: seq<byte> := [];
    NothingEncoded(encode, rs);
    assert sections[0..] == sections;
    for i := 0 to |sections|
      invariant w.buf == old(w.buf) + written && EncodedSoFar(encode, rs, k, written)
      invariant rs[k..] == Flatten(sections[i..])
    {
      var records := sections[i];
      assert sections[i..][0] == records && sections[i..][1..] == sections[i + 1..];
      ghost var later := Flatten(sections[i + 1..]);
      for j := 0 to |records|
        invariant w.buf == old(w.buf) + written && EncodedSoFar(encode, rs, k, written)
        invariant rs[k..] == records[j..] + later
      {
        assert rs[k..][0] == records[j] && rs[k..][1..] == records[j + 1..] + later;
        err := WriteRecord(records[j], w, encode);
        OneMoreEncoded(encode, rs, k, written);
        if err.Some? {
          return;
        }
        written := written + encode(records[j]).value;
        k := k + 1;
      }
    }
    assert sections[|sections|..] == [] && rs[k..] == [];
    AllEncoded(encode, rs, written);
    return None;
  }

  ghost predicate ReadsQuestions(data: seq<byte>, questionAt: Decoder<Question>) {
    forall p {:trigger Messages.DecodeQuestion(data, p)} :: 0 <= p <= |data| ==>
      questionAt(p) == Messages.DecodeQuestion(data, p)
  }

  ghost predicate ReadsRecords(data: seq<byte>, recordAt: Decoder<Record>) {
    forall p {:trigger Messages.DecodeRecord(data, p)} :: 0 <= p <= |data| ==>
      recordAt(p) == Messages.DecodeRecord(data, p)
  }

  // The questions read before an error, if there is one.
  method DecodeQuestions(m: MessageReader, n: nat, ghost questionAt: Decoder<Question>)
    returns (questions: seq<Question>, err: Option<DnsError>)
    requires m.Valid() && ReadsQuestions(m.data, questionAt)
    modifies m
    ensures m.Valid()
    ensures var b := DecodeItems(questionAt, old(m.pos), n);
            questions == b.items && err == b.error && (err.None? ==> m.pos == b.pos)
  {
    ghost var all := DecodeItems(questionAt, m.pos, n);
    questions := [];
    assert [] + all.items == all.items;
    for i := 0 to n
      invariant m.Valid() && Continues(all, questions, DecodeItems(questionAt, m.pos, n - i))
    {
      ghost var here := m.pos;
      var question := DecodeQuestion(m);
      if question.Err? {
        NoMoreItems(all, questions, questionAt, here, n - i);
        return questions, Some(question.error);
      }
      OneMoreItem(all, questions, questionAt, here, n - i, question.value, m.pos);
      questions := questions + [question.value];
    }
    NoMoreItems(all, questions, questionAt, m.pos, 0);
    return questions, None;
  }

  // DecodeRecord, against any description of it.
  method NextRecord(m: MessageReader, ghost recordAt: Decoder<Record>) returns (r: Result<Record, DnsError>)
    requires m.Valid() && ReadsRecords(m.data, recordAt)
    modifies m
    ensures m.Valid()
    ensures match recordAt(old(m.pos))
            case Ok((record, end)) => r == Ok(record) && m.pos == end
            case Err(e) => r == Err(e)
  {
    r := DecodeRecord(m);
  }

  // Reads n records into one section of a message.
  method DecodeSection(m: MessageReader, msg: DnsMessage, i: nat, n: nat,
                       ghost recordAt: Decoder<Record>)
    returns (err: Option<DnsError>)
    requires m.Valid() && ReadsRecords(m.data, recordAt) && i < 3 && msg.Value().Sections()[i] == []
    modifies m, msg
    ensures m.Valid() && msg.header == old(msg.header) && msg.questions == old(msg.questions)
    ensures var b := DecodeItems(recordAt, old(m.pos), n);
            && msg.Value().Sections() == old(msg.Value().Sections())[i := b.items]
            && err == b.error && (err.None? ==> m.pos == b.pos)
  {
    ghost var all := DecodeItems(recordAt, m.pos, n);
    ghost var records: seq<Record> := [];
    assert [] + all.items == all.items;
    for j := 0 to n
      invariant m.Valid() && Continues(all, records, DecodeItems(recordAt, m.pos, n - j))
      invariant msg.header == old(msg.header) && msg.questions == old(msg.questions)
      invariant msg.Value().Sections() == old(msg.Value().Sections())[i := records]
    {
      ghost var here := m.pos;
      var record := NextRecord(m, recordAt);
      if record.Err? {
        NoMoreItems(all, records, recordAt, here, n - j);
        return Some(record.error);
      }
      OneMoreItem(all, records, recordAt, here, n - j, record.value, m.pos);
      msg.Append(i, record.value);
      records := records + [record.value];
    }
    NoMoreItems(all, records, recordAt, m.pos, 0);
    return None;
  }

  method DecodeMessage(data: seq<byte>) returns (r: Result<DnsMessage, DnsError>)
    ensures match Messages.DecodeMessage(data)
            case Ok(message) => r.Ok? && fresh(r.value) && r.value.Value() == message
            case Err(e) => r == Err(e)
  {
    var m := new MessageReader(data, 0);
    var header :- DecodeHeader(m);
    r := DecodeAfter(header, m, QuestionAt(data), RecordAt(data));
  }

  // Reads the three sections of a message one after the other.
  method DecodeAllSections(m: MessageReader, msg: DnsMessage, counts: seq<nat>,
                           ghost recordAt: Decoder<Record>) returns (err: Option<DnsError>)
    requires m.Valid() && ReadsRecords(m.data, recordAt) && |counts| == 3
    requires msg.Value().Sections() == [[], [], []]
    modifies m, msg
    ensures m.Valid() && msg.header == old(msg.header) && msg.questions == old(msg.questions)
    ensures var s := Batches.DecodeSections(recordAt, old(m.pos), counts);
            msg.Value().Sections() == s.items && err == s.error && (err.None? ==> m.pos == s.pos)
  {
    ghost var all := DecodeSections(recordAt, m.pos, counts);
    ghost var done: seq<seq<Record>> := [];
    assert counts[0..] == counts && [] + all.items == all.items;
    for i := 0 to 3
      invariant m.Valid() && msg.header == old(msg.header) && msg.questions == old(msg.questions)
      invariant |done| == i && msg.Value().Sections() == done + seq(3 - i, _ => [])
      invariant Continues(all, done, DecodeSections(recordAt, m.pos, counts[i..]))
    {
      ghost var first := DecodeItems(recordAt, m.pos, counts[i]);
      OneMoreSection(all, done, recordAt, m.pos, counts[i..], first);
      assert counts[i..][1..] == counts[i + 1..];
      err := DecodeSection(m, msg, i, counts[i], recordAt);
      done := done + [first.items];
      if err.Some? {
        return;
      }
    }
    assert done + [] == done;
    return None;
  }

  method DecodeAfter(header: Header, m: MessageReader, ghost questionAt: Decoder<Question>,
                     ghost recordAt: Decoder<Record>) returns (r: Result<DnsMessage, DnsError>)
    requires m.Valid() && ReadsQuestions(m.data, questionAt) && ReadsRecords(m.data, recordAt)
    modifies m
    ensures match DecodeAfterHeader(header, questionAt, recordAt, old(m.pos), |m.data|)
            case Ok(message) => r.Ok? && fresh(r.value) && r.value.Value() == message
            case Err(e) => r == Err(e)
  {
    var msg := new DnsMessage(header);
    var questions, err := DecodeQuestions(m, header.questionCount, questionAt);
    msg.questions := questions;
    if err.Some? {
      return if err.value == BufferUnderflow && header.truncated then Ok(msg) else Err(err.value);
    }
    err := DecodeAllSections(m, msg, Counts(header), recordAt);
    assert msg.Value().Sections()[0] == msg.answers && msg.Value().Sections()[1] == msg.authorities
        && msg.Value().Sections()[2] == msg.additional;
    if err.Some? {
      return if err.value == BufferUnderflow && header.truncated then Ok(msg) else Err(err.value);
    }
    if m.Remaining() != 0 {
      return Err(ExcessData);
    }
    return Ok(msg);
  }
}
