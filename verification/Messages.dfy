// DNS messages as values: headers, questions, records, and their encoding and decoding
// (section 4.1 of RFC 1035).
module Messages {
  import opened Bytes
  import opened Wrappers
  import opened DomainNames
  import opened Wire
  import opened Batches

  // ----- Header -----

  datatype Header = Header(identifier: uint16, isResponse: bool, opcode: byte,
                           authoritative: bool, truncated: bool,
                           recursionDesired: bool, recursionAvailable: bool, responseCode: byte,
                           questionCount: uint16, answerCount: uint16,
                           authorityCount: uint16, additionalCount: uint16)

  function Bit(b: bool, weight: nat): nat { if b then weight else 0 }

  // Opcode and response code are masked to four bits; the three reserved bits stay zero.
  function Flags(h: Header): uint16 {
    var opcode: int := h.opcode % 16;
    var responseCode: int := h.responseCode % 16;
    Bit(h.isResponse, 0x8000) + 0x800 * opcode + Bit(h.authoritative, 0x400) + Bit(h.truncated, 0x200)
    + Bit(h.recursionDesired, 0x100) + Bit(h.recursionAvailable, 0x80) + responseCode
  }

  function HeaderFields(h: Header): (fs: seq<Field>)
    ensures forall f :: f in fs ==> f.Word16?
  {
    [Word16(h.identifier), Word16(Flags(h)), Word16(h.questionCount), Word16(h.answerCount),
     Word16(h.authorityCount), Word16(h.additionalCount)]
  }

  const HEADER_KINDS: seq<Kind> := [Kind16, Kind16, Kind16, Kind16, Kind16, Kind16]

  function HeaderFrom(identifier: uint16, flags: uint16, questionCount: uint16, answerCount: uint16,
                      authorityCount: uint16, additionalCount: uint16): (h: Header)
    ensures h.opcode < 16 && h.responseCode < 16
  {
    Header(identifier, flags / 0x8000 % 2 == 1, flags / 0x800 % 16,
           flags / 0x400 % 2 == 1, flags / 0x200 % 2 == 1,
           flags / 0x100 % 2 == 1, flags / 0x80 % 2 == 1, flags % 16,
           questionCount, answerCount, authorityCount, additionalCount)
  }

  function DecodeHeader(data: seq<byte>, pos: nat): (r: Result<(Header, nat), DnsError>)
    requires pos <= |data|
    ensures r.Ok? ==> r.value.1 <= |data| && r.value.0.opcode < 16 && r.value.0.responseCode < 16
  {
    var (f, end) :- DecodeFields(data, pos, HEADER_KINDS);
    assert forall i :: 0 <= i < 6 ==> Reads(f[i], HEADER_KINDS[i]);
    Ok((HeaderFrom(f[0].w, f[1].w, f[2].w, f[3].w, f[4].w, f[5].w), end))
  }

  lemma FlagsReadBack(h: Header)
    requires h.opcode < 16 && h.responseCode < 16
    ensures HeaderFrom(h.identifier, Flags(h), h.questionCount, h.answerCount, h.authorityCount, h.additionalCount) == h
  {
    var a, b, c := Bit(h.isResponse, 1), Bit(h.authoritative, 1), Bit(h.truncated, 1);
    var d, e := Bit(h.recursionDesired, 1), Bit(h.recursionAvailable, 1);
    FlagsValue(h);
    var f := Flags(h);
    Digits(a, h.opcode, b, c, d, e, h.responseCode, f);
    BitsMakeHeader(h, f);
  }

  lemma FlagsValue(h: Header)
    requires h.opcode < 16 && h.responseCode < 16
    ensures var opcode: int, responseCode: int := h.opcode, h.responseCode;
            Flags(h) == 0x8000 * Bit(h.isResponse, 1) + 0x800 * opcode + 0x400 * Bit(h.authoritative, 1)
                        + 0x200 * Bit(h.truncated, 1) + 0x100 * Bit(h.recursionDesired, 1)
                        + 0x80 * Bit(h.recursionAvailable, 1) + responseCode
  {
    assert h.opcode % 16 == h.opcode && h.responseCode % 16 == h.responseCode;
  }

  // Only the low four bits of the two codes are written.
  lemma CodesAreMasked(h: Header)
    ensures Flags(h) == Flags(h.(opcode := h.opcode % 16, responseCode := h.responseCode % 16))
  {
    assert h.opcode % 16 % 16 == h.opcode % 16 && h.responseCode % 16 % 16 == h.responseCode % 16;
  }

  lemma BitsMakeHeader(h: Header, f: uint16)
    requires f / 0x8000 % 2 == Bit(h.isResponse, 1) && f / 0x800 % 16 == h.opcode
    requires f / 0x400 % 2 == Bit(h.authoritative, 1) && f / 0x200 % 2 == Bit(h.truncated, 1)
    requires f / 0x100 % 2 == Bit(h.recursionDesired, 1) && f / 0x80 % 2 == Bit(h.recursionAvailable, 1)
    requires f % 16 == h.responseCode
    ensures HeaderFrom(h.identifier, f, h.questionCount, h.answerCount, h.authorityCount, h.additionalCount) == h
  {
  }

  lemma Digits(a: nat, op: nat, b: nat, c: nat, d: nat, e: nat, rc: nat, f: nat)
    requires a < 2 && op < 16 && b < 2 && c < 2 && d < 2 && e < 2 && rc < 16
    requires f == 0x8000 * a + 0x800 * op + 0x400 * b + 0x200 * c + 0x100 * d + 0x80 * e + rc
    ensures f / 0x8000 % 2 == a && f / 0x800 % 16 == op && f / 0x400 % 2 == b && f / 0x200 % 2 == c
    ensures f / 0x100 % 2 == d && f / 0x80 % 2 == e && f % 16 == rc
  {
    assert f / 0x8000 == a;
    assert f / 0x800 == 16 * a + op;
    assert f / 0x400 == 32 * a + 2 * op + b;
    assert f / 0x200 == 64 * a + 4 * op + 2 * b + c;
    assert f / 0x100 == 128 * a + 8 * op + 4 * b + 2 * c + d;
    assert f / 0x80 == 256 * a + 16 * op + 8 * b + 4 * c + 2 * d + e;
    assert f == 16 * (0x800 * a + 0x80 * op + 0x40 * b + 0x20 * c + 0x10 * d + 8 * e) + rc;
  }

  lemma DecodeOfEncodedHeader(data: seq<byte>, pos: nat, h: Header)
    requires h.opcode < 16 && h.responseCode < 16
    requires EncodeFields(HeaderFields(h)).Ok? && At(data, pos, EncodeFields(HeaderFields(h)).value)
    ensures DecodeHeader(data, pos) == Ok((h, pos + |EncodeFields(HeaderFields(h)).value|))
  {
    DecodeOfEncodedFields(data, pos, HeaderFields(h));
    assert KindsOf(HeaderFields(h)) == HEADER_KINDS;
    FlagsReadBack(h);
  }

  // ----- Questions -----

  datatype Question = Question(domain: Name, qtype: uint16, qclass: uint16)

  function QuestionFields(q: Question): (fs: seq<Field>)
    ensures forall f :: f in fs ==> !f.Raw?
  {
    [NameField(q.domain), Word16(q.qtype), Word16(q.qclass)]
  }

  function EncodeQuestion(q: Question): Result<seq<byte>, DnsError> {
    EncodeFields(QuestionFields(q))
  }

  const QUESTION_KINDS: seq<Kind> := [NameKind, Kind16, Kind16]

  function DecodeQuestion(data: seq<byte>, pos: nat): (r: Result<(Question, nat), DnsError>)
    requires pos <= |data|
    ensures r.Ok? ==> pos < r.value.1 <= |data| && ValidName(r.value.0.domain)
  {
    var (f, end) :- DecodeFields(data, pos, QUESTION_KINDS);
    assert forall i :: 0 <= i < 3 ==> Reads(f[i], QUESTION_KINDS[i]);
    FieldsAdvance(data, pos, QUESTION_KINDS);
    Ok((Question(f[0].name, f[1].w, f[2].w), end))
  }

  lemma FieldsAdvance(data: seq<byte>, pos: nat, kinds: seq<Kind>)
    requires pos <= |data| && kinds != []
    ensures DecodeFields(data, pos, kinds).Ok? ==> pos < DecodeFields(data, pos, kinds).value.1
  {
  }

  lemma DecodeOfEncodedQuestion(data: seq<byte>, pos: nat, q: Question)
    requires EncodeFields(QuestionFields(q)).Ok? && At(data, pos, EncodeFields(QuestionFields(q)).value)
    ensures DecodeQuestion(data, pos) == Ok((q, pos + |EncodeFields(QuestionFields(q)).value|))
  {
    DecodeOfEncodedFields(data, pos, QuestionFields(q));
    assert KindsOf(QuestionFields(q)) == QUESTION_KINDS;
  }

  // ----- Records -----

  const TYPE_A: uint16 := 1
  const TYPE_NS: uint16 := 2
  const TYPE_CNAME: uint16 := 5
  const TYPE_SOA: uint16 := 6
  const TYPE_PTR: uint16 := 12

  predicate CarriesName(rtype: uint16) { rtype == TYPE_NS || rtype == TYPE_CNAME || rtype == TYPE_PTR }

  datatype Generic = Generic(name: Name, rtype: uint16, rclass: uint16, ttl: uint32, data: seq<byte>)

  datatype Soa = Soa(master: Name, responsible: Name, serial: uint32, refresh: uint32, retry: uint32,
                     expire: uint32, minimum: uint32)

  datatype Record =
    | GenericRecord(g: Generic)
    | ARecord(g: Generic)
    | DomainRecord(g: Generic, domain: Name)
    | SOARecord(g: Generic, soa: Soa)

  function BodyFields(r: Record): seq<Field> {
    match r
    case DomainRecord(_, d) => [NameField(d)]
    case SOARecord(_, s) => SoaFields(s)
    case _ => [Raw(r.g.data)]
  }

  function SoaFields(s: Soa): (fs: seq<Field>)
    ensures forall f :: f in fs ==> !f.Raw?
  {
    [NameField(s.master), NameField(s.responsible), Word32(s.serial), Word32(s.refresh),
     Word32(s.retry), Word32(s.expire), Word32(s.minimum)]
  }

  function HeadFields(g: Generic, length: uint16): (fs: seq<Field>)
    ensures forall f :: f in fs ==> !f.Raw?
  {
    [NameField(g.name), Word16(g.rtype), Word16(g.rclass), Word32(g.ttl), Word16(length)]
  }

  const HEAD_KINDS: seq<Kind> := [NameKind, Kind16, Kind16, Kind32, Kind16]
  const SOA_KINDS: seq<Kind> := [NameKind, NameKind, Kind32, Kind32, Kind32, Kind32, Kind32]

  function EncodeRecord(r: Record): Result<seq<byte>, DnsError> {
    var body :- EncodeFields(BodyFields(r));
    var head :- EncodeFields(HeadFields(r.g, |body| % 0x1_0000));
    Ok(head + body)
  }

  // The variant a record's type calls for, from its raw data at data[start..end].
  function DecodeBody(data: seq<byte>, start: nat, end: nat, g: Generic): (r: Result<Record, DnsError>)
    requires start <= end <= |data|
    ensures r.Ok? ==> r.value.g == g && WellTyped(r.value) && Wrapped(r.value)
  {
    if g.rtype == TYPE_A then
      if |g.data| != 4 then Err(InvalidRecord) else Ok(ARecord(g))
    else if CarriesName(g.rtype) then
      match DecodeFields(data, start, [NameKind])
      case Ok((f, e)) =>
        assert Reads(f[0], NameKind);
        if e != end then Err(InvalidRecord) else Ok(DomainRecord(g, f[0].name))
      case Err(_) => Err(InvalidRecord)
    else if g.rtype == TYPE_SOA then
      match DecodeFields(data, start, SOA_KINDS)
      case Ok((f, e)) =>
        assert forall i :: 0 <= i < 7 ==> Reads(f[i], SOA_KINDS[i]);
        if e != end then Err(InvalidRecord)
        else Ok(SOARecord(g, Soa(f[0].name, f[1].name, f[2].d, f[3].d, f[4].d, f[5].d, f[6].d)))
      case Err(_) => Err(InvalidRecord)
    else Ok(GenericRecord(g))
  }

  // The data of a record whose other fields are in g.
  function DecodeData(data: seq<byte>, start: nat, g: Generic, length: uint16): (r: Result<(Record, nat), DnsError>)
    requires start <= |data|
    ensures r.Ok? ==> start <= r.value.1 <= |data| && WellTyped(r.value.0) && Wrapped(r.value.0)
    ensures r.Ok? ==> r.value.0.g == g.(data := r.value.0.g.data) && |r.value.0.g.data| == length
    ensures r.Ok? && r.value.0.g.data == [] ==> r.value.1 < |data|
  {
    var bytes :- ReadBytes(data, start, length);
    var end := start + length;
    var record :- DecodeBody(data, start, end, g.(data := bytes));
    Ok((record, end))
  }

  function DecodeRecord(data: seq<byte>, pos: nat): (r: Result<(Record, nat), DnsError>)
    requires pos <= |data|
    ensures r.Ok? ==> pos < r.value.1 <= |data| && WellFormed(r.value.0) && Wrapped(r.value.0)
    ensures r.Ok? && r.value.0.g.data == [] ==> r.value.1 < |data|
  {
    var (f, start) :- DecodeFields(data, pos, HEAD_KINDS);
    assert forall i :: 0 <= i < 5 ==> Reads(f[i], HEAD_KINDS[i]);
    FieldsAdvance(data, pos, HEAD_KINDS);
    DecodeData(data, start, Generic(f[0].name, f[1].w, f[2].w, f[3].d, []), f[4].w)
  }

  // The variant fits the type, and names inside are valid.
  predicate WellTyped(r: Record) {
    match r
    case GenericRecord(g) =>
      !CarriesName(g.rtype) && g.rtype != TYPE_SOA && (g.rtype == TYPE_A ==> |g.data| == 4)
    case ARecord(g) => g.rtype == TYPE_A && |g.data| == 4
    case DomainRecord(g, d) => CarriesName(g.rtype) && ValidName(d)
    case SOARecord(g, s) => g.rtype == TYPE_SOA && ValidName(s.master) && ValidName(s.responsible)
  }

  // Decoding gives every record of type A the wrapper for it.
  predicate Wrapped(r: Record) {
    r.GenericRecord? ==> r.g.rtype != TYPE_A
  }

  predicate WellFormed(r: Record) {
    WellTyped(r) && ValidName(r.g.name) && ((r.GenericRecord? || r.ARecord?) ==> |r.g.data| < 0x1_0000)
  }

  lemma NameLength(d: Name)
    requires ValidName(d)
    ensures 1 <= |EncodeName(d)| <= 255
  {
    LabelsLength(d);
  }

  // The body of a well-formed record always fits its length field.
  lemma BodyEncodes(r: Record)
    requires WellTyped(r)
    ensures EncodeFields(BodyFields(r)).Ok?
    ensures var b := EncodeFields(BodyFields(r)).value;
            match r
            case DomainRecord(_, d) => b == EncodeName(d) && 1 <= |b| < 0x1_0000
            case SOARecord(_, s) => 1 <= |b| < 0x1_0000
            case _ => b == r.g.data
  {
    match r
    case DomainRecord(_, d) =>
      NameLength(d);
      assert [NameField(d)][1..] == [];
      assert EncodeName(d) + [] == EncodeName(d);
    case SOARecord(_, s) => SoaEncodes(s);
    case _ =>
      assert [Raw(r.g.data)][1..] == [];
      assert r.g.data + [] == r.g.data;
  }

  lemma SoaEncodes(s: Soa)
    requires ValidName(s.master) && ValidName(s.responsible)
    ensures EncodeFields(SoaFields(s)).Ok? && 1 <= |EncodeFields(SoaFields(s)).value| < 0x1_0000
  {
    EncodesWhenNamesValid(SoaFields(s));
    NameLength(s.master);
    NameLength(s.responsible);
    var tail := SoaFields(s)[2..];
    FieldsLength(tail);
    assert SoaFields(s)[1..][1..] == tail;
    assert SoaFields(s)[1..][0] == NameField(s.responsible);
  }

  lemma {:induction false} FieldsLength(fs: seq<Field>)
    requires forall f :: f in fs ==> f.Word32?
    ensures EncodeFields(fs).Ok? && |EncodeFields(fs).value| == 4 * |fs|
    decreases |fs|
  {
    if fs != [] {
      assert fs[0] in fs && forall f :: f in fs[1..] ==> f in fs;
      FieldsLength(fs[1..]);
    }
  }

  lemma HeadEncodes(g: Generic, length: uint16)
    ensures EncodeFields(HeadFields(g, length)).Ok? <==> ValidName(g.name)
    ensures EncodeFields(HeadFields(g, length)).Err? ==> EncodeFields(HeadFields(g, length)).error == InvalidName
  {
    EncodesWhenNamesValid(HeadFields(g, length));
    assert NameField(g.name) in HeadFields(g, length);
  }

  // The bytes written as a record's data.
  function Body(r: Record): seq<byte>
    requires WellTyped(r)
  {
    BodyEncodes(r);
    EncodeFields(BodyFields(r)).value
  }

  // What comes back for a record: the A wrapper where the type calls for it, and as raw data
  // what was actually written.
  function Normal(r: Record): Record {
    match r
    case GenericRecord(g) => if g.rtype == TYPE_A then ARecord(g) else r
    case ARecord(_) => r
    case DomainRecord(g, d) => if WellTyped(r) then DomainRecord(g.(data := Body(r)), d) else r
    case SOARecord(g, s) => if WellTyped(r) then SOARecord(g.(data := Body(r)), s) else r
  }

  // A record that is written without any data.
  predicate EndsEmpty(r: Record) {
    (r.GenericRecord? || r.ARecord?) && r.g.data == []
  }

  // ----- Messages -----

  datatype Message = Message(header: Header, questions: seq<Question>, answers: seq<Record>,
                             authorities: seq<Record>, additional: seq<Record>) {
    function Sections(): seq<seq<Record>> { [answers, authorities, additional] }

    function Records(): seq<Record> { answers + authorities + additional }
  }

  function EncodeMessage(m: Message): Result<seq<byte>, DnsError> {
    var header :- EncodeFields(HeaderFields(m.header));
    var questions :- EncodeItems(EncodeQuestion, m.questions);
    var records :- EncodeItems(EncodeRecord, m.Records());
    Ok(header + questions + records)
  }

  // Decoders take a position and give an item with the position after it.
  function QuestionAt(data: seq<byte>): Decoder<Question> {
    (pos: nat) => if pos <= |data| then DecodeQuestion(data, pos) else Err(BufferUnderflow)
  }

  function RecordAt(data: seq<byte>): Decoder<Record> {
    (pos: nat) => if pos <= |data| then DecodeRecord(data, pos) else Err(BufferUnderflow)
  }

  function Counts(h: Header): seq<nat> {
    [h.answerCount, h.authorityCount, h.additionalCount]
  }

  // The message with the counts of its header set from its lists, each modulo 2^16.
  function Filled(m: Message): Message {
    m.(header := m.header.(questionCount := |m.questions| % 0x1_0000, answerCount := |m.answers| % 0x1_0000,
                           authorityCount := |m.authorities| % 0x1_0000,
                           additionalCount := |m.additional| % 0x1_0000))
  }

  // A truncated message that runs out of bytes yields what was read; any other error is an error.
  function StopAt(m: Message, e: DnsError): Result<Message, DnsError> {
    if e == BufferUnderflow && m.header.truncated then Ok(m) else Err(e)
  }

  function DecodeMessage(data: seq<byte>): Result<Message, DnsError> {
    var (header, pos) :- DecodeHeader(data, 0);
    DecodeAfterHeader(header, QuestionAt(data), RecordAt(data), pos, |data|)
  }

  function DecodeAfterHeader(header: Header, questionAt: Decoder<Question>,
                             recordAt: Decoder<Record>, pos: nat, limit: nat)
    : Result<Message, DnsError>
  {
    var q := DecodeItems(questionAt, pos, header.questionCount);
    if q.error.Some? then StopAt(Message(header, q.items, [], [], []), q.error.value)
    else
      var s := DecodeSections(recordAt, q.pos, Counts(header));
      var m := Message(header, q.items, s.items[0], s.items[1], s.items[2]);
      if s.error.Some? then StopAt(m, s.error.value)
      else if s.pos != limit then Err(ExcessData)
      else Ok(m)
  }
}
