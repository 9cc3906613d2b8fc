// What decodes, byte for byte: headers, questions and records as they stand in a message, with
// names that may be compressed, in the data of a record as well (section 4.1 of RFC 1035).
module DnsRecords {
  import opened Bytes
  import opened Wrappers
  import opened DomainNames
  import opened Wire
  import opened Batches
  import opened Messages

  lemma NoFields(data: seq<byte>, pos: nat)
    requires pos <= |data|
    ensures DecodeFields(data, pos, []) == Ok(([], pos))
  {
  }

  // The fixed fields behind the name of a record.
  lemma FixedHead(data: seq<byte>, p: nat)
    requires p + 10 <= |data|
    ensures DecodeFields(data, p, HEAD_KINDS[1..]) ==
            Ok(([Word16(Word(data, p)), Word16(Word(data, p + 2)), Word32(Long(data, p + 4)),
                 Word16(Word(data, p + 8))], p + 10))
  {
    var k1 := HEAD_KINDS[1..];
    var k2, k3, k4 := k1[1..], k1[1..][1..], k1[1..][1..][1..];
    assert k1[0] == Kind16 && k2[0] == Kind16 && k3[0] == Kind32 && k4[0] == Kind16 && k4[1..] == [];
    var a, b, c, d := Word16(Word(data, p)), Word16(Word(data, p + 2)), Word32(Long(data, p + 4)),
                      Word16(Word(data, p + 8));
    NoFields(data, p + 10);
    DecodeFirstField(data, p + 8, k4, d, [], p + 10, p + 10);
    DecodeFirstField(data, p + 4, k3, c, [d] + [], p + 8, p + 10);
    DecodeFirstField(data, p + 2, k2, b, [c] + ([d] + []), p + 4, p + 10);
    DecodeFirstField(data, p, k1, a, [b] + ([c] + ([d] + [])), p + 2, p + 10);
    assert [a] + ([b] + ([c] + ([d] + []))) == [a, b, c, d];
  }

  // A name at pos, and the fixed fields of a record at p behind it.
  predicate HeadAt(data: seq<byte>, pos: nat, owner: Name, p: nat) {
    pos <= |data| && ReadName(data, pos) == Ok((owner, p)) && p + 10 <= |data|
  }

  function GenericAt(data: seq<byte>, owner: Name, p: nat): Generic
    requires p + 10 <= |data| && p + 10 + Word(data, p + 8) <= |data|
  {
    Generic(owner, Word(data, p), Word(data, p + 2), Long(data, p + 4), data[p + 10..p + 10 + Word(data, p + 8)])
  }

  lemma HeadDecodes(data: seq<byte>, pos: nat, owner: Name, p: nat)
    requires HeadAt(data, pos, owner, p)
    ensures DecodeRecord(data, pos) ==
            DecodeData(data, p + 10, Generic(owner, Word(data, p), Word(data, p + 2), Long(data, p + 4), []),
                       Word(data, p + 8))
  {
    FixedHead(data, p);
    var rest := DecodeFields(data, p, HEAD_KINDS[1..]).value.0;
    DecodeFirstField(data, pos, HEAD_KINDS, NameField(owner), rest, p, p + 10);
  }

  // The data is there; at the very end of the message even empty data is not.
  predicate DataAt(data: seq<byte>, p: nat) {
    p + 10 < |data| && p + 10 + Word(data, p + 8) <= |data|
  }

  lemma DataDecodes(data: seq<byte>, pos: nat, owner: Name, p: nat, end: nat)
    requires HeadAt(data, pos, owner, p) && DataAt(data, p) && end == p + 10 + Word(data, p + 8)
    ensures DecodeRecord(data, pos) ==
            match DecodeBody(data, p + 10, end, GenericAt(data, owner, p))
            case Ok(r) => Ok((r, end))
            case Err(e) => Err(e)
  {
    HeadDecodes(data, pos, owner, p);
  }

  lemma NameDecodes(data: seq<byte>, pos: nat)
    requires pos <= |data|
    ensures DecodeFields(data, pos, [NameKind]) ==
            match ReadName(data, pos)
            case Ok((d, end)) => Ok(([NameField(d)], end))
            case Err(e) => Err(e)
  {
    if ReadName(data, pos).Ok? {
      var (d, end) := ReadName(data, pos).value;
      NoFields(data, end);
      assert [NameKind][1..] == [];
      DecodeFirstField(data, pos, [NameKind], NameField(d), [], end, end);
      assert [NameField(d)] + [] == [NameField(d)];
    }
  }

  // A record of type NS, CNAME or PTR decodes exactly when the name in its data, read through the
  // whole message, ends where the data ends.
  lemma NameRecordDecodes(data: seq<byte>, pos: nat, owner: Name, p: nat, end: nat)
    requires HeadAt(data, pos, owner, p) && DataAt(data, p) && end == p + 10 + Word(data, p + 8)
    requires Word(data, p) == 2 || Word(data, p) == 5 || Word(data, p) == 12
    ensures DecodeRecord(data, pos) ==
            match ReadName(data, p + 10)
            case Ok((d, e)) => if e == end then Ok((DomainRecord(GenericAt(data, owner, p), d), end))
                               else Err(InvalidRecord)
            case Err(_) => Err(InvalidRecord)
  {
    DataDecodes(data, pos, owner, p, end);
    NameDecodes(data, p + 10);
  }

  // The n 32-bit numbers from q on.
  function Longs(data: seq<byte>, q: nat, n: nat): (fs: seq<Field>)
    requires q + 4 * n <= |data|
    ensures |fs| == n && forall i :: 0 <= i < n ==> fs[i] == Word32(Long(data, q + 4 * i))
    decreases n
  {
    if n == 0 then [] else Longs(data, q, n - 1) + [Word32(Long(data, q + 4 * (n - 1)))]
  }

  lemma LongsFront(data: seq<byte>, q: nat, n: nat)
    requires n > 0 && q + 4 * n <= |data|
    ensures Longs(data, q, n) == [Word32(Long(data, q))] + Longs(data, q + 4, n - 1)
  {
    var all, rest := Longs(data, q, n), Longs(data, q + 4, n - 1);
    assert forall i :: 1 <= i < n ==> all[i] == rest[i - 1];
  }

  lemma {:induction false} LongsDecode(data: seq<byte>, q: nat, n: nat, kinds: seq<Kind>)
    requires q <= |data| && |kinds| == n && forall k :: k in kinds ==> k == Kind32
    ensures DecodeFields(data, q, kinds) ==
            if q + 4 * n <= |data| then Ok((Longs(data, q, n), q + 4 * n)) else Err(BufferUnderflow)
    decreases n
  {
    if n > 0 {
      assert kinds[0] in kinds && forall k :: k in kinds[1..] ==> k in kinds;
      if q + 4 <= |data| {
        LongsDecode(data, q + 4, n - 1, kinds[1..]);
        if q + 4 * n <= |data| {
          LongsFront(data, q, n);
          var rest := Longs(data, q + 4, n - 1);
          assert DecodeFields(data, q + 4, kinds[1..]) == Ok((rest, q + 4 * n));
          DecodeFirstField(data, q, kinds, Word32(Long(data, q)), rest, q + 4, q + 4 * n);
        }
      }
    }
  }

  // The SOA data with its names ending at q1 and q.
  function SoaAt(data: seq<byte>, master: Name, responsible: Name, q: nat): Soa
    requires q + 20 <= |data|
  {
    Soa(master, responsible, Long(data, q), Long(data, q + 4), Long(data, q + 8), Long(data, q + 12),
        Long(data, q + 16))
  }

  // The two names and five numbers of SOA data, read one after the other from start on.
  function ReadSoa(data: seq<byte>, start: nat): Result<(Soa, nat), DnsError>
    requires start <= |data|
  {
    match ReadName(data, start)
    case Err(e) => Err(e)
    case Ok((master, q1)) =>
      match ReadName(data, q1)
      case Err(e) => Err(e)
      case Ok((responsible, q)) =>
        if q + 20 <= |data| then Ok((SoaAt(data, master, responsible, q), q + 20)) else Err(BufferUnderflow)
  }

  lemma SoaParts(data: seq<byte>, master: Name, responsible: Name, q: nat, all: seq<Field>, tail: seq<Field>)
    requires q + 20 <= |data| && all == SoaFields(SoaAt(data, master, responsible, q)) && tail == Longs(data, q, 5)
    ensures all == [NameField(master)] + ([NameField(responsible)] + tail)
  {
  }

  lemma SoaDecodes(data: seq<byte>, start: nat)
    requires start <= |data|
    ensures match ReadSoa(data, start)
            case Err(e) => DecodeFields(data, start, SOA_KINDS) == Err(e)
            case Ok((soa, end)) => DecodeFields(data, start, SOA_KINDS) == Ok((SoaFields(soa), end))
  {
    var k1, k2 := SOA_KINDS[1..], SOA_KINDS[1..][1..];
    assert k2 == [Kind32, Kind32, Kind32, Kind32, Kind32];
    if ReadName(data, start).Ok? {
      var (master, q1) := ReadName(data, start).value;
      if ReadName(data, q1).Ok? {
        var (responsible, q) := ReadName(data, q1).value;
        LongsDecode(data, q, 5, k2);
        if q + 20 <= |data| {
          var tail := Longs(data, q, 5);
          var all := SoaFields(SoaAt(data, master, responsible, q));
          SoaParts(data, master, responsible, q, all, tail);
          DecodeFirstField(data, q1, k1, NameField(responsible), tail, q, q + 20);
          DecodeFirstField(data, start, SOA_KINDS, NameField(master), [NameField(responsible)] + tail, q1, q + 20);
        }
      }
    }
  }

  // And of type SOA, when its two names and five numbers end there.
  lemma SoaRecordDecodes(data: seq<byte>, pos: nat, owner: Name, p: nat, end: nat)
    requires HeadAt(data, pos, owner, p) && DataAt(data, p) && end == p + 10 + Word(data, p + 8)
    requires Word(data, p) == 6
    ensures DecodeRecord(data, pos) ==
            match ReadSoa(data, p + 10)
            case Ok((soa, e)) => if e == end then Ok((SOARecord(GenericAt(data, owner, p), soa), end))
                                 else Err(InvalidRecord)
            case Err(_) => Err(InvalidRecord)
  {
    DataDecodes(data, pos, owner, p, end);
    SoaDecodes(data, p + 10);
    SoaBody(data, p + 10, end, GenericAt(data, owner, p));
  }

  lemma SoaBody(data: seq<byte>, start: nat, end: nat, g: Generic)
    requires start <= end <= |data| && g.rtype == TYPE_SOA
    requires match ReadSoa(data, start)
             case Err(e) => DecodeFields(data, start, SOA_KINDS) == Err(e)
             case Ok((soa, e)) => DecodeFields(data, start, SOA_KINDS) == Ok((SoaFields(soa), e))
    ensures DecodeBody(data, start, end, g) ==
            match ReadSoa(data, start)
            case Ok((soa, e)) => if e == end then Ok(SOARecord(g, soa)) else Err(InvalidRecord)
            case Err(_) => Err(InvalidRecord)
  {
  }

  // Any other record keeps its data as it is; an address has four bytes.
  lemma OtherRecordDecodes(data: seq<byte>, pos: nat, owner: Name, p: nat, end: nat)
    requires HeadAt(data, pos, owner, p) && DataAt(data, p) && end == p + 10 + Word(data, p + 8)
    requires Word(data, p) !in {2, 5, 6, 12}
    ensures DecodeRecord(data, pos) ==
            var g := GenericAt(data, owner, p);
            if Word(data, p) != 1 then Ok((GenericRecord(g), end))
            else if Word(data, p + 8) == 4 then Ok((ARecord(g), end)) else Err(InvalidRecord)
  {
    DataDecodes(data, pos, owner, p, end);
  }

  // Without its data a record underflows, and without its head as well.
  lemma ShortRecord(data: seq<byte>, pos: nat)
    requires pos <= |data|
    ensures match ReadName(data, pos)
            case Err(e) => DecodeRecord(data, pos) == Err(e)
            case Ok((owner, p)) =>
              p + 10 > |data| || !DataAt(data, p) ==> DecodeRecord(data, pos) == Err(BufferUnderflow)
  {
    if ReadName(data, pos).Ok? {
      var (owner, p) := ReadName(data, pos).value;
      if p + 10 <= |data| {
        HeadDecodes(data, pos, owner, p);
      } else {
        ShortHead(data, p);
      }
    }
  }

  lemma ShortHead(data: seq<byte>, p: nat)
    requires p <= |data| < p + 10
    ensures DecodeFields(data, p, HEAD_KINDS[1..]) == Err(BufferUnderflow)
  {
    var k1 := HEAD_KINDS[1..];
    var k2, k3, k4 := k1[1..], k1[1..][1..], k1[1..][1..][1..];
    assert k1[0] == Kind16 && k2[0] == Kind16 && k3[0] == Kind32 && k4[0] == Kind16;
    assert p + 8 <= |data| ==> DecodeFields(data, p + 8, k4) == Err(BufferUnderflow);
    assert p + 4 <= |data| ==> DecodeFields(data, p + 4, k3) == Err(BufferUnderflow);
    assert p + 2 <= |data| ==> DecodeFields(data, p + 2, k2) == Err(BufferUnderflow);
  }

  // At start stand the labels d1 and then, at here, a pointer to where d2 was written earlier.
  ghost predicate Compressed(data: seq<byte>, start: nat, d1: Name, here: nat, ptr: nat, d2: Name) {
    && ValidName(d1 + d2) && (forall l :: l in d1 ==> SizeOk(l)) && (forall l :: l in d2 ==> SizeOk(l))
    && At(data, start, EncodeLabels(d1)) && here == start + |EncodeLabels(d1)| && here + 2 <= |data|
    && ptr < 0x4000 && At(data, ptr, EncodeName(d2)) && ptr + |EncodeName(d2)| <= here
    && At(data, here, Bytes16(0xc000 + ptr))
  }

  lemma CompressedReads(data: seq<byte>, start: nat, d1: Name, here: nat, ptr: nat, d2: Name)
    requires Compressed(data, start, d1, here, ptr, d2)
    ensures ReadName(data, start) == Ok((d1 + d2, here + 2))
  {
    ReadOfCompressedName(data, start, d1, here, ptr, d2);
  }

  // So a record with such data carries the joined name.
  lemma CompressedRecordDecodes(data: seq<byte>, pos: nat, owner: Name, p: nat, start: nat, end: nat,
                                d1: Name, here: nat, ptr: nat, d2: Name)
    requires HeadAt(data, pos, owner, p) && (Word(data, p) == 2 || Word(data, p) == 5 || Word(data, p) == 12)
    requires start == p + 10 && end == start + Word(data, p + 8) == here + 2
    requires Compressed(data, start, d1, here, ptr, d2)
    ensures DecodeRecord(data, pos) == Ok((DomainRecord(GenericAt(data, owner, p), d1 + d2), end))
  {
    CompressedReads(data, start, d1, here, ptr, d2);
    NameRecordIs(data, pos, owner, p, start, end, d1 + d2);
  }

  lemma NameRecordIs(data: seq<byte>, pos: nat, owner: Name, p: nat, start: nat, end: nat, d: Name)
    requires HeadAt(data, pos, owner, p) && (Word(data, p) == 2 || Word(data, p) == 5 || Word(data, p) == 12)
    requires start == p + 10 && end == start + Word(data, p + 8) <= |data| && ReadName(data, start) == Ok((d, end))
    ensures DecodeRecord(data, pos) == Ok((DomainRecord(GenericAt(data, owner, p), d), end))
  {
    NameRecordDecodes(data, pos, owner, p, end);
  }

  // A question is a name and two words.
  lemma QuestionDecodes(data: seq<byte>, pos: nat)
    requires pos <= |data|
    ensures DecodeQuestion(data, pos) ==
            match ReadName(data, pos)
            case Err(e) => Err(e)
            case Ok((d, p)) =>
              if p + 4 <= |data| then Ok((Question(d, Word(data, p), Word(data, p + 2)), p + 4))
              else Err(BufferUnderflow)
  {
    var k1, k2 := QUESTION_KINDS[1..], QUESTION_KINDS[1..][1..];
    assert k1[0] == Kind16 && k2[0] == Kind16 && k2[1..] == [];
    if ReadName(data, pos).Ok? {
      var (d, p) := ReadName(data, pos).value;
      if p + 4 <= |data| {
        NoFields(data, p + 4);
        DecodeFirstField(data, p + 2, k2, Word16(Word(data, p + 2)), [], p + 4, p + 4);
        DecodeFirstField(data, p, k1, Word16(Word(data, p)), [Word16(Word(data, p + 2))] + [], p + 2, p + 4);
        DecodeFirstField(data, pos, QUESTION_KINDS, NameField(d),
                         [Word16(Word(data, p))] + ([Word16(Word(data, p + 2))] + []), p, p + 4);
      } else {
        assert p + 2 <= |data| ==> DecodeFields(data, p + 2, k2) == Err(BufferUnderflow);
      }
    }
  }

  // A header is six words, the second of which are the flags.
  lemma HeaderDecodes(data: seq<byte>, pos: nat)
    requires pos <= |data|
    ensures DecodeHeader(data, pos) ==
            if pos + 12 <= |data|
            then Ok((HeaderAt(data, pos), pos + 12)) else Err(BufferUnderflow)
  {
    WordsDecode(data, pos, 6, HEADER_KINDS);
    if pos + 12 <= |data| {
      FlagBytes(data[pos + 2], data[pos + 3], Word(data, pos + 2));
    }
  }

  // Its two flag bytes, from the top: response, opcode, authoritative, truncated, recursion desired;
  // recursion available, three unused bits, response code.
  function HeaderAt(data: seq<byte>, pos: nat): Header
    requires pos + 12 <= |data|
  {
    var a, b := data[pos + 2], data[pos + 3];
    Header(Word(data, pos), a >= 128, a / 8 % 16, a / 4 % 2 == 1, a / 2 % 2 == 1, a % 2 == 1,
           b >= 128, b % 16, Word(data, pos + 4), Word(data, pos + 6), Word(data, pos + 8), Word(data, pos + 10))
  }

  lemma FlagBytes(a: byte, b: byte, flags: uint16)
    requires flags == 0x100 * (a as int) + b
    ensures (flags / 0x8000 % 2 == 1 <==> a >= 128) && flags / 0x800 % 16 == a / 8 % 16
    ensures flags / 0x400 % 2 == a / 4 % 2 && flags / 0x200 % 2 == a / 2 % 2 && flags / 0x100 % 2 == a % 2
    ensures (flags / 0x80 % 2 == 1 <==> b >= 128) && flags % 16 == b % 16
  {
    var high: int, low: int := a, b;
    assert flags / 0x100 == high && flags / 0x8000 == high / 128 && flags / 0x800 == high / 8;
    assert flags / 0x400 == high / 4 && flags / 0x200 == high / 2;
    assert flags / 0x80 == 2 * high + low / 128;
    assert flags == 16 * (16 * high + low / 16) + low % 16;
  }

  // The n words from q on.
  function Words(data: seq<byte>, q: nat, n: nat): (fs: seq<Field>)
    requires q + 2 * n <= |data|
    ensures |fs| == n && forall i :: 0 <= i < n ==> fs[i] == Word16(Word(data, q + 2 * i))
    decreases n
  {
    if n == 0 then [] else Words(data, q, n - 1) + [Word16(Word(data, q + 2 * (n - 1)))]
  }

  lemma WordsFront(data: seq<byte>, q: nat, n: nat)
    requires n > 0 && q + 2 * n <= |data|
    ensures Words(data, q, n) == [Word16(Word(data, q))] + Words(data, q + 2, n - 1)
  {
    var all, rest := Words(data, q, n), Words(data, q + 2, n - 1);
    assert forall i :: 1 <= i < n ==> all[i] == rest[i - 1];
  }

  lemma {:induction false} WordsDecode(data: seq<byte>, q: nat, n: nat, kinds: seq<Kind>)
    requires q <= |data| && |kinds| == n && forall k :: k in kinds ==> k == Kind16
    ensures DecodeFields(data, q, kinds) ==
            if q + 2 * n <= |data| then Ok((Words(data, q, n), q + 2 * n)) else Err(BufferUnderflow)
    decreases n
  {
    if n > 0 {
      assert kinds[0] in kinds && forall k :: k in kinds[1..] ==> k in kinds;
      if q + 2 <= |data| {
        WordsDecode(data, q + 2, n - 1, kinds[1..]);
        if q + 2 * n <= |data| {
          WordsFront(data, q, n);
          var rest := Words(data, q + 2, n - 1);
          assert DecodeFields(data, q + 2, kinds[1..]) == Ok((rest, q + 2 * n));
          DecodeFirstField(data, q, kinds, Word16(Word(data, q)), rest, q + 2, q + 2 * n);
        }
      }
    }
  }

  // ----- Whole messages -----

  // A message of one answer and nothing else.
  lemma OneAnswerDecodes(data: seq<byte>, h: Header, r: Record)
    requires DecodeHeader(data, 0) == Ok((h, 12)) && h.questionCount == 0 && h.answerCount == 1
    requires h.authorityCount == 0 && h.additionalCount == 0
    requires 12 <= |data| && DecodeRecord(data, 12) == Ok((r, |data|))
    ensures DecodeMessage(data) == Ok(Message(h, [], [r], [], []))
  {
    var at := RecordAt(data);
    NothingLeft(QuestionAt(data), 12);
    SingleItem(at, 12, r, |data|);
    NothingLeft(at, |data|);
    SectionsOfOne(at, 12, r, |data|);
  }

  lemma NothingLeft<T>(decode: Decoder<T>, pos: nat)
    ensures DecodeItems(decode, pos, 0) == Batch([], pos, None)
  {
  }

  lemma SingleItem<T>(decode: Decoder<T>, pos: nat, item: T, end: nat)
    requires decode(pos) == Ok((item, end))
    ensures DecodeItems(decode, pos, 1) == Batch([item], end, None)
  {
    NothingLeft(decode, end);
  }

  lemma SectionsOfOne<T>(decode: Decoder<T>, pos: nat, item: T, end: nat)
    requires DecodeItems(decode, pos, 1) == Batch([item], end, None)
    ensures DecodeSections(decode, pos, [1, 0, 0]) == Batch([[item], [], []], end, None)
  {
  }

  // For instance: an authoritative answer, "a" is an alias of itself, with the second "a" a pointer
  // to the first.
  const ALIAS_ANSWER: seq<byte> :=
    [0, 1, 0x84, 0, 0, 0, 0, 1, 0, 0, 0, 0] + [1, 97, 0] + [0, 5, 0, 1, 0, 0, 0, 60, 0, 2] + [192, 12]

  lemma AliasAnswerDecodes(data: seq<byte>, a: Name)
    requires data == ALIAS_ANSWER && a == [[97]]
    ensures DecodeMessage(data) ==
            Ok(Message(Header(1, true, 0, true, false, false, false, 0, 0, 1, 0, 0), [],
                       [DomainRecord(Generic(a, 5, 1, 60, [192, 12]), a)], [], []))
  {
    AliasHeader(data);
    AliasRecord(data, a);
    OneAnswerDecodes(data, HeaderAt(data, 0), DomainRecord(Generic(a, 5, 1, 60, [192, 12]), a));
  }

  lemma AliasHeader(data: seq<byte>)
    requires data == ALIAS_ANSWER
    ensures |data| == 27 && HeaderAt(data, 0) == Header(1, true, 0, true, false, false, false, 0, 0, 1, 0, 0)
    ensures DecodeHeader(data, 0) == Ok((HeaderAt(data, 0), 12))
  {
    HeaderDecodes(data, 0);
  }

  lemma AliasFields(data: seq<byte>)
    requires data == ALIAS_ANSWER
    ensures |data| == 27 && data[12..15] == [1, 97, 0] && data[25..27] == [192, 12]
    ensures Word(data, 15) == 5 && Word(data, 17) == 1 && Long(data, 19) == 60 && Word(data, 23) == 2
  {
  }

  lemma AliasRecord(data: seq<byte>, a: Name)
    requires data == ALIAS_ANSWER && a == [[97]]
    ensures |data| == 27 && DecodeRecord(data, 12) == Ok((DomainRecord(Generic(a, 5, 1, 60, [192, 12]), a), 27))
  {
    AliasFields(data);
    NameA(a);
    PointsBack(data, a);
    CompressedRecordDecodes(data, 12, a, 15, 25, 27, [], 25, 12, a);
  }

  lemma PointsBack(data: seq<byte>, a: Name)
    requires ValidName(a) && |EncodeName(a)| == 3
    requires |data| == 27 && data[12..15] == EncodeName(a) && data[25..27] == [192, 12]
    ensures HeadAt(data, 12, a, 15) && Compressed(data, 25, [], 25, 12, a) && [] + a == a
  {
    assert EncodeLabels([]) == [] && data[25..25] == [] && [] + a == a;
    assert Bytes16(0xc000 + 12) == [192, 12];
    ReadOfEncodedName(data, 12, a);
  }

  lemma NameA(a: Name)
    requires a == [[97]]
    ensures ValidName(a) && EncodeName(a) == [1, 97, 0]
  {
    assert a[1..] == [] && a[0] == [97];
    assert EncodedLength(a) == 3;
    assert EncodeLabels(a) == [1, 97] + [];
  }
}
