// Reading and writing the fields of DNS messages, including compressed names
// (sections 3.1 and 4.1.4 of RFC 1035).
module Wire {
  import opened Bytes
  import opened Wrappers
  import opened DomainNames

  datatype DnsError = BufferUnderflow | InvalidNamePointer | InvalidLabelLength | InvalidName
                    | InvalidRecord | ExcessData

  // The values WriteFields takes, and the kinds of value ReadFields fills in.
  datatype Field = NameField(name: Name) | Word16(w: uint16) | Word32(d: uint32) | Raw(bytes: seq<byte>) {
    // The kind that reads this field back; raw bytes are read by length instead.
    function Kind(): Kind
      requires !Raw?
    {
      match this
      case NameField(_) => NameKind
      case Word16(_) => Kind16
      case Word32(_) => Kind32
    }
  }

  // What reading several fields gives, with the position after them.
  type FieldsRead = Result<(seq<Field>, nat), DnsError>

  datatype Kind = NameKind | Kind16 | Kind32

  // ----- Encodings -----

  function Bytes16(w: uint16): (b: seq<byte>)
    ensures |b| == 2
  {
    [w / 0x100, w % 0x100]
  }

  function Bytes32(d: uint32): (b: seq<byte>)
    ensures |b| == 4
  {
    Bytes16(d / 0x1_0000) + Bytes16(d % 0x1_0000)
  }

  function EncodeLabel(l: Label): (b: seq<byte>)
    requires SizeOk(l)
    ensures |b| == 1 + |l|
  {
    var size: byte := |l|;
    [size] + l
  }

  // One length byte and the label's own bytes for each label, without the final zero.
  function EncodeLabels(d: Name): seq<byte>
    requires forall l :: l in d ==> SizeOk(l)
  {
    if d == [] then []
    else
      assert d[0] in d;
      EncodeLabel(d[0]) + EncodeLabels(d[1..])
  }

  function EncodeName(d: Name): seq<byte>
    requires forall l :: l in d ==> SizeOk(l)
  {
    EncodeLabels(d) + [0]
  }

  function EncodeField(f: Field): Result<seq<byte>, DnsError> {
    match f
    case NameField(d) => if ValidName(d) then Ok(EncodeName(d)) else Err(InvalidName)
    case Word16(w) => Ok(Bytes16(w))
    case Word32(d) => Ok(Bytes32(d))
    case Raw(b) => Ok(b)
  }

  function EncodeFields(fs: seq<Field>): Result<seq<byte>, DnsError> {
    if fs == [] then Ok([])
    else
      var first :- EncodeField(fs[0]);
      var rest :- EncodeFields(fs[1..]);
      Ok(first + rest)
  }

  // What is written of fields, up to the first invalid name.
  function Written(fs: seq<Field>): (r: seq<byte>)
    ensures EncodeFields(fs).Ok? ==> r == EncodeFields(fs).value
  {
    if fs == [] || EncodeField(fs[0]).Err? then [] else EncodeField(fs[0]).value + Written(fs[1..])
  }

  // ----- Decodings, from a position in a buffer -----

  // A read of n bytes; at the very end of the buffer even a read of nothing fails.
  function ReadBytes(data: seq<byte>, pos: nat, n: nat): (r: Result<seq<byte>, DnsError>)
    ensures r.Ok? ==> pos + n <= |data| && r.value == data[pos..pos + n]
  {
    if pos < |data| && pos + n <= |data| then Ok(data[pos..pos + n]) else Err(BufferUnderflow)
  }

  function Checked(d: Name, end: nat): Result<(Name, nat), DnsError> {
    if ValidName(d) then Ok((d, end)) else Err(InvalidName)
  }

  // The labels at pos appended to acc. A pointer continues, in the bytes before itself, with a
  // name that is read to its end there.
  function ReadLabels(data: seq<byte>, pos: nat, acc: Name): (r: Result<(Name, nat), DnsError>)
    requires pos <= |data|
    ensures r.Ok? ==> ValidName(r.value.0) && pos < r.value.1 <= |data|
    decreases |data|, |data| - pos
  {
    if pos == |data| then Err(BufferUnderflow)
    else
      var length := data[pos];
      if 192 <= length then
        if pos + 1 == |data| then Err(BufferUnderflow)
        else
          var ptr: int := 0x100 * (length as int - 192) + data[pos + 1];
          if ptr >= pos then Err(InvalidNamePointer)
          else
            match ReadLabels(data[..pos], ptr, [])
            case Err(_) => Err(InvalidNamePointer)
            case Ok((name, _)) => Checked(acc + name, pos + 2)
      else if 64 <= length then Err(InvalidLabelLength)
      else if length == 0 then Checked(acc, pos + 1)
      else if pos + 1 < |data| && pos + 1 + length <= |data| then
        ReadLabels(data, pos + 1 + length, acc + [data[pos + 1..pos + 1 + length]])
      else Err(BufferUnderflow)
  }

  function ReadName(data: seq<byte>, pos: nat): (r: Result<(Name, nat), DnsError>)
    requires pos <= |data|
    ensures r.Ok? ==> ValidName(r.value.0) && pos < r.value.1 <= |data|
  {
    ReadLabels(data, pos, [])
  }

  // f is a value that reading a field of this kind can yield.
  predicate Reads(f: Field, kind: Kind) {
    !f.Raw? && f.Kind() == kind && (f.NameField? ==> ValidName(f.name))
  }

  function DecodeField(data: seq<byte>, pos: nat, kind: Kind): (r: Result<(Field, nat), DnsError>)
    requires pos <= |data|
    ensures r.Ok? ==> pos < r.value.1 <= |data| && Reads(r.value.0, kind)
  {
    match kind
    case NameKind =>
      var (d, end) :- ReadName(data, pos);
      Ok((NameField(d), end))
    case Kind16 =>
      if pos + 2 > |data| then Err(BufferUnderflow)
      else Ok((Word16(Word(data, pos)), pos + 2))
    case Kind32 =>
      if pos + 4 > |data| then Err(BufferUnderflow)
      else Ok((Word32(Long(data, pos)), pos + 4))
  }

  function DecodeFields(data: seq<byte>, pos: nat, kinds: seq<Kind>): (r: Result<(seq<Field>, nat), DnsError>)
    requires pos <= |data|
    ensures r.Ok? ==> pos <= r.value.1 <= |data| && |r.value.0| == |kinds|
    ensures r.Ok? ==> forall i :: 0 <= i < |kinds| ==> Reads(r.value.0[i], kinds[i])
    decreases |kinds|
  {
    if kinds == [] then Ok(([], pos))
    else
      var (first, next) :- DecodeField(data, pos, kinds[0]);
      var (rest, end) :- DecodeFields(data, next, kinds[1..]);
      Ok(([first] + rest, end))
  }

  // ----- Round trips -----

  ghost predicate At(data: seq<byte>, pos: nat, bytes: seq<byte>) {
    pos + |bytes| <= |data| && data[pos..pos + |bytes|] == bytes
  }

  lemma AtSplit(data: seq<byte>, pos: nat, a: seq<byte>, b: seq<byte>)
    ensures At(data, pos, a + b) <==> At(data, pos, a) && At(data, pos + |a|, b)
  {
    if pos + |a| + |b| <= |data| {
      assert data[pos..pos + |a + b|] == data[pos..pos + |a|] + data[pos + |a|..pos + |a| + |b|];
      assert (a + b)[..|a|] == a && (a + b)[|a|..] == b;
    }
  }

  lemma {:induction false} LabelsLength(d: Name)
    requires forall l :: l in d ==> SizeOk(l)
    ensures |EncodeLabels(d)| + 1 == EncodedLength(d)
  {
    if d != [] {
      assert forall l :: l in d[1..] ==> l in d;
      LabelsLength(d[1..]);
    }
  }

  // A name is valid exactly when its labels are and it takes at most 255 bytes on the wire.
  lemma ValidNameFits(d: Name)
    ensures ValidName(d) <==>
            (forall l :: l in d ==> 1 <= |l| <= 63 && MatchesPattern(l)) && |EncodeName(d)| <= 255
  {
    if forall l :: l in d ==> SizeOk(l) {
      LabelsLength(d);
    }
  }

  lemma ReadOneLabel(data: seq<byte>, pos: nat, l: Label, acc: Name, next: nat, longer: Name)
    requires SizeOk(l) && At(data, pos, EncodeLabel(l)) && next == pos + 1 + |l| && longer == acc + [l]
    ensures ReadLabels(data, pos, acc) == ReadLabels(data, next, longer)
  {
    var here := data[pos..next];
    assert data[pos] == here[0] == |l|;
    assert data[pos + 1..next] == here[1..] == l;
  }

  lemma LabelsSplit(data: seq<byte>, pos: nat, first: Label, rest: Name, d: Name)
    requires d != [] && first == d[0] && rest == d[1..]
    requires (forall l :: l in d ==> SizeOk(l)) && At(data, pos, EncodeLabels(d))
    ensures SizeOk(first) && forall l :: l in rest ==> SizeOk(l)
    ensures At(data, pos, EncodeLabel(first)) && At(data, pos + 1 + |first|, EncodeLabels(rest))
    ensures |EncodeLabels(d)| == 1 + |first| + |EncodeLabels(rest)|
  {
    assert first in d && forall l :: l in rest ==> l in d;
    AtSplit(data, pos, EncodeLabel(first), EncodeLabels(rest));
  }

  lemma ShiftLabel(acc: Name, d: Name)
    requires d != []
    ensures acc + [d[0]] + d[1..] == acc + d && forall l :: l in d[1..] ==> l in d
  {
  }

  lemma FirstLabelReads(data: seq<byte>, pos: nat, d: Name, acc: Name, next: nat, longer: Name)
    requires d != [] && next == pos + 1 + |d[0]| && longer == acc + [d[0]]
    requires (forall l :: l in d ==> SizeOk(l)) && At(data, pos, EncodeLabels(d))
    ensures ReadLabels(data, pos, acc) == ReadLabels(data, next, longer)
  {
    LabelsSplit(data, pos, d[0], d[1..], d);
    ReadOneLabel(data, pos, d[0], acc, next, longer);
  }

  // Reading walks over encoded labels one by one.
  lemma {:induction false} ReadOverLabels(data: seq<byte>, pos: nat, d: Name, acc: Name, end: nat)
    requires (forall l :: l in d ==> SizeOk(l)) && At(data, pos, EncodeLabels(d)) && end == pos + |EncodeLabels(d)|
    ensures ReadLabels(data, pos, acc) == ReadLabels(data, end, acc + d)
    decreases |d|
  {
    if d == [] {
      assert acc + d == acc;
    } else {
      var next, longer := pos + 1 + |d[0]|, acc + [d[0]];
      ShiftLabel(acc, d);
      LabelsSplit(data, pos, d[0], d[1..], d);
      FirstLabelReads(data, pos, d, acc, next, longer);
      ReadOverLabels(data, next, d[1..], longer, end);
    }
  }

  // An uncompressed name reads back, wherever it stands.
  lemma ReadOfEncodedName(data: seq<byte>, pos: nat, d: Name)
    requires ValidName(d) && At(data, pos, EncodeName(d))
    ensures ReadName(data, pos) == Ok((d, pos + |EncodeName(d)|))
  {
    AtSplit(data, pos, EncodeLabels(d), [0]);
    var end := pos + |EncodeLabels(d)|;
    ReadOverLabels(data, pos, d, [], end);
    assert data[end] == data[end..end + 1][0];
    assert [] + d == d;
  }

  lemma {:induction false} ValidSuffix(d1: Name, d2: Name)
    requires ValidName(d1 + d2)
    ensures ValidName(d2)
    decreases |d1|
  {
    if d1 == [] {
      assert d1 + d2 == d2;
    } else {
      assert (d1 + d2)[1..] == d1[1..] + d2;
      assert forall l :: l in (d1 + d2)[1..] ==> l in d1 + d2;
      ValidSuffix(d1[1..], d2);
    }
  }

  // What reads in a prefix of the buffer reads the same in the whole buffer.
  lemma {:induction false} ReadIsLocal(data: seq<byte>, m: nat, pos: nat, acc: Name)
    requires pos <= m <= |data| && ReadLabels(data[..m], pos, acc).Ok?
    ensures ReadLabels(data, pos, acc) == ReadLabels(data[..m], pos, acc)
    decreases m - pos
  {
    var before := data[..m];
    var length := before[pos];
    assert data[pos] == length;
    if 192 <= length {
      PointerIsLocal(data, before, pos, acc);
    } else if length != 0 {
      var next := pos + 1 + length;
      var longer := acc + [before[pos + 1..next]];
      SliceIsLocal(data, before, pos + 1, next);
      ReadIsLocal(data, m, next, longer);
    }
  }

  lemma SliceIsLocal(data: seq<byte>, before: seq<byte>, i: nat, j: nat)
    requires before <= data && i <= j <= |before|
    ensures data[i..j] == before[i..j]
  {
    assert forall k :: 0 <= k < j - i ==> data[i..j][k] == before[i + k];
  }

  lemma PointerIsLocal(data: seq<byte>, before: seq<byte>, pos: nat, acc: Name)
    requires before <= data && pos < |before| && 192 <= before[pos] && ReadLabels(before, pos, acc).Ok?
    ensures ReadLabels(data, pos, acc) == ReadLabels(before, pos, acc)
  {
    assert data[pos] == before[pos] && pos + 1 < |before|;
    assert data[pos + 1] == before[pos + 1] && data[..pos] == before[..pos];
  }

  lemma PointerBytes(data: seq<byte>, here: nat, ptr: nat)
    requires ptr < 0x4000 && here + 2 <= |data| && At(data, here, Bytes16(0xc000 + ptr))
    ensures 192 <= data[here] && 0x100 * (data[here] as int - 192) + data[here + 1] == ptr
  {
    var b := Bytes16(0xc000 + ptr);
    assert data[here] == data[here..here + 2][0] == b[0] && data[here + 1] == data[here..here + 2][1] == b[1];
  }

  // What is refused at the first byte: the end of the buffer, a length with one high bit set, and a
  // pointer that does not point back.
  lemma ReadRefuses(data: seq<byte>, pos: nat)
    requires pos <= |data|
    ensures pos == |data| ==> ReadName(data, pos) == Err(BufferUnderflow)
    ensures pos < |data| && 64 <= data[pos] < 192 ==> ReadName(data, pos) == Err(InvalidLabelLength)
    ensures pos + 1 < |data| && 192 <= data[pos] && 0x100 * (data[pos] as int - 192) + data[pos + 1] >= pos ==>
              ReadName(data, pos) == Err(InvalidNamePointer)
    ensures pos < |data| && 0 < data[pos] < 64 && pos + 1 + data[pos] > |data| ==>
              ReadName(data, pos) == Err(BufferUnderflow)
  {
  }

  // A compressed name: labels d1, then a pointer to where the bytes before it read as d2, itself
  // compressed or not.
  lemma ReadThroughPointer(data: seq<byte>, pos: nat, d1: Name, here: nat, ptr: nat, d2: Name, end: nat)
    requires (forall l :: l in d1 ==> SizeOk(l)) && At(data, pos, EncodeLabels(d1))
    requires here == pos + |EncodeLabels(d1)| && here + 2 <= |data|
    requires ptr < 0x4000 && ptr < here && At(data, here, Bytes16(0xc000 + ptr))
    requires ReadName(data[..here], ptr) == Ok((d2, end))
    ensures ReadName(data, pos) == if ValidName(d1 + d2) then Ok((d1 + d2, here + 2)) else Err(InvalidName)
  {
    ReadOverLabels(data, pos, d1, [], here);
    assert [] + d1 == d1;
    PointerBytes(data, here, ptr);
  }

  // In particular d2 may stand there as it is written.
  lemma ReadOfCompressedName(data: seq<byte>, pos: nat, d1: Name, here: nat, ptr: nat, d2: Name)
    requires ValidName(d1 + d2)
    requires (forall l :: l in d1 ==> SizeOk(l)) && forall l :: l in d2 ==> SizeOk(l)
    requires At(data, pos, EncodeLabels(d1)) && here == pos + |EncodeLabels(d1)| && here + 2 <= |data|
    requires ptr < 0x4000 && At(data, ptr, EncodeName(d2)) && ptr + |EncodeName(d2)| <= here
    requires At(data, here, Bytes16(0xc000 + ptr))
    ensures ReadName(data, pos) == Ok((d1 + d2, here + 2))
  {
    ValidSuffix(d1, d2);
    var before := data[..here];
    assert before[ptr..ptr + |EncodeName(d2)|] == data[ptr..ptr + |EncodeName(d2)|];
    ReadOfEncodedName(before, ptr, d2);
    ReadThroughPointer(data, pos, d1, here, ptr, d2, ptr + |EncodeName(d2)|);
  }

  lemma DecodeOfEncodedField(data: seq<byte>, pos: nat, f: Field)
    requires !f.Raw? && EncodeField(f).Ok? && At(data, pos, EncodeField(f).value)
    ensures DecodeField(data, pos, f.Kind()) == Ok((f, pos + |EncodeField(f).value|))
  {
    var b := EncodeField(f).value;
    match f
    case NameField(d) => ReadOfEncodedName(data, pos, d);
    case Word16(w) =>
      assert data[pos] == data[pos..pos + 2][0] && data[pos + 1] == data[pos..pos + 2][1];
    case Word32(d) =>
      var here := data[pos..pos + 4];
      assert here[0] == data[pos] && here[1] == data[pos + 1] && here[2] == data[pos + 2] && here[3] == data[pos + 3];
  }

  function KindsOf(fs: seq<Field>): (kinds: seq<Kind>)
    requires forall f :: f in fs ==> !f.Raw?
    ensures |kinds| == |fs|
  {
    seq(|fs|, i requires 0 <= i < |fs| => fs[i].Kind())
  }

  // Writing fails on an invalid name and on nothing else.
  lemma {:induction false} EncodesWhenNamesValid(fs: seq<Field>)
    ensures EncodeFields(fs).Ok? <==> forall f :: f in fs && f.NameField? ==> ValidName(f.name)
    ensures EncodeFields(fs).Err? ==> EncodeFields(fs).error == InvalidName
    decreases |fs|
  {
    if fs != [] {
      var rest := fs[1..];
      assert fs == [fs[0]] + rest;
      EncodesWhenNamesValid(rest);
    }
  }

  lemma DecodeFirstField(data: seq<byte>, pos: nat, kinds: seq<Kind>, f: Field, rest: seq<Field>, next: nat, end: nat)
    requires pos <= next <= |data| && kinds != [] && DecodeField(data, pos, kinds[0]) == Ok((f, next))
    requires DecodeFields(data, next, kinds[1..]) == Ok((rest, end))
    ensures DecodeFields(data, pos, kinds) == Ok(([f] + rest, end))
  {
  }

  lemma KindsOfCons(f: Field, rest: seq<Field>)
    requires !f.Raw? && forall g :: g in rest ==> !g.Raw?
    ensures KindsOf([f] + rest) == [f.Kind()] + KindsOf(rest)
    ensures KindsOf([f] + rest)[0] == f.Kind() && KindsOf([f] + rest)[1..] == KindsOf(rest)
  {
  }

  // Fields written one after the other read back as they were.
  lemma DecodeOfEncodedFields(data: seq<byte>, pos: nat, fs: seq<Field>)
    requires forall f :: f in fs ==> !f.Raw?
    requires EncodeFields(fs).Ok? && At(data, pos, EncodeFields(fs).value)
    ensures DecodeFields(data, pos, KindsOf(fs)) == Ok((fs, pos + |EncodeFields(fs).value|))
  {
    FieldsReadBack(data, pos, fs, EncodeFields(fs).value, pos + |EncodeFields(fs).value|);
  }

  lemma {:induction false} FieldsReadBack(data: seq<byte>, pos: nat, fs: seq<Field>, bytes: seq<byte>, end: nat)
    requires forall f :: f in fs ==> !f.Raw?
    requires EncodeFields(fs) == Ok(bytes) && At(data, pos, bytes) && end == pos + |bytes|
    ensures DecodeFields(data, pos, KindsOf(fs)) == Ok((fs, end))
    decreases |fs|
  {
    if fs != [] {
      var f, rest := fs[0], fs[1..];
      assert f in fs && forall g :: g in rest ==> g in fs;
      var first, more := EncodeField(f).value, EncodeFields(rest).value;
      AtSplit(data, pos, first, more);
      var next := pos + |first|;
      FieldsReadBack(data, next, rest, more, end);
      FirstReadsBack(data, pos, fs, f, rest, first, next, end);
    }
  }

  lemma FirstReadsBack(data: seq<byte>, pos: nat, fs: seq<Field>, f: Field, rest: seq<Field>, first: seq<byte>,
                       next: nat, end: nat)
    requires fs == [f] + rest && !f.Raw? && (forall g :: g in rest ==> !g.Raw?)
    requires EncodeField(f) == Ok(first) && At(data, pos, first) && next == pos + |first|
    requires DecodeFields(data, next, KindsOf(rest)) == Ok((rest, end))
    ensures DecodeFields(data, pos, KindsOf(fs)) == Ok((fs, end))
  {
    DecodeOfEncodedField(data, pos, f);
    KindsOfCons(f, rest);
    DecodeFirstField(data, pos, KindsOf(fs), f, rest, next, end);
  }
}

// The writer and the reader of the program: a growing buffer and a cursor.
module Transcoding {
  import opened Bytes
  import opened Wrappers
  import opened DomainNames
  import opened Wire

  class MessageWriter {
    var buf: seq<byte>

    constructor ()
      ensures buf == []
    {
      buf := [];
    }

    // Writes the fields in order; an invalid name stops it part way.
    method WriteFields(fields: seq<Field>) returns (err: Option<DnsError>)
      modifies this
      ensures match EncodeFields(fields)
              case Ok(bytes) => err == None && buf == old(buf) + bytes
              case Err(e) => err == Some(e) && buf == old(buf) + Written(fields)
    {
      ghost var done: seq<byte> := [];
      NothingWritten(fields);
      for i := 0 to |fields|
        invariant buf == old(buf) + done && WrittenSoFar(fields, i, done)
      {
        err := WriteField(fields[i]);
        OneMoreWritten(fields, i, done);
        if err.Some? {
          return;
        }
        done := done + EncodeField(fields[i]).value;
      }
      EverythingWritten(fields, done);
      return None;
    }

    method WriteField(field: Field) returns (err: Option<DnsError>)
      modifies this
      ensures match EncodeField(field)
              case Ok(bytes) => err == None && buf == old(buf) + bytes
              case Err(e) => err == Some(e) && buf == old(buf)
    {
      match field {
        case NameField(d) =>
          err := WriteDomain(d);
        case Word16(w) =>
          buf := buf + Bytes16(w);
          err := None;
        case Word32(d) =>
          buf := buf + Bytes32(d);
          err := None;
        case Raw(bytes) =>
          buf := buf + bytes;
          err := None;
      }
    }

    // Two placeholder bytes, the fields, and then the length put into the placeholder.
    method WriteWithLength(fields: seq<Field>) returns (err: Option<DnsError>)
      modifies this
      ensures match EncodeFields(fields)
              case Ok(bytes) => err == None && buf == old(buf) + Bytes16(|bytes| % 0x1_0000) + bytes
              case Err(e) => err == Some(e) && buf == old(buf) + [0, 0] + Written(fields)
    {
      buf := buf + [0];
      buf := buf + [0];
      var start := |buf|;
      err := WriteFields(fields);
      if err.Some? {
        return;
      }
      var length := |buf| - start;
      buf := buf[start - 2 := length / 0x100 % 0x100];
      buf := buf[start - 1 := length % 0x100];
      LengthBytes(length);
      Patched(old(buf), EncodeFields(fields).value, length / 0x100 % 0x100, length % 0x100);
    }

    method WriteDomain(d: Name) returns (err: Option<DnsError>)
      modifies this
      ensures if ValidName(d) then err == None && buf == old(buf) + EncodeName(d)
              else err == Some(InvalidName) && buf == old(buf)
    {
      var invalid := Validate(d);
      if invalid.Some? {
        return Some(InvalidName);
      }
      var i := 0;
      while i < |d|
        invariant 0 <= i <= |d|
        invariant buf + EncodeLabels(d[i..]) == old(buf) + EncodeLabels(d)
      {
        assert d[i] in d && d[i..][0] == d[i] && d[i..][1..] == d[i + 1..];
        var size: byte := |d[i]|;
        buf := buf + [size];
        buf := buf + d[i];
        assert [size] + d[i] == EncodeLabel(d[i]);
        i := i + 1;
      }
      assert d[i..] == [] && buf + [] == buf;
      buf := buf + [0];
      assert buf == old(buf) + EncodeName(d);
      return None;
    }
  }

  // A placeholder of two bytes filled in later.
  lemma Patched(front: seq<byte>, bytes: seq<byte>, high: byte, low: byte)
    ensures (front + [0] + [0] + bytes)[|front| := high][|front| + 1 := low] == front + [high, low] + bytes
  {
  }

  // The first i fields have been written, as the bytes done.
  ghost predicate WrittenSoFar(fields: seq<Field>, i: nat, done: seq<byte>)
    requires i <= |fields|
  {
    && Written(fields) == done + Written(fields[i..])
    && match EncodeFields(fields[i..])
       case Ok(rest) => EncodeFields(fields) == Ok(done + rest)
       case Err(e) => EncodeFields(fields) == Err(e)
  }

  lemma NothingWritten(fields: seq<Field>)
    ensures WrittenSoFar(fields, 0, [])
  {
    assert fields[0..] == fields && [] + Written(fields) == Written(fields);
    assert EncodeFields(fields).Ok? ==> [] + EncodeFields(fields).value == EncodeFields(fields).value;
  }

  lemma OneMoreWritten(fields: seq<Field>, i: nat, done: seq<byte>)
    requires i < |fields| && WrittenSoFar(fields, i, done)
    ensures match EncodeField(fields[i])
            case Ok(bytes) => WrittenSoFar(fields, i + 1, done + bytes)
            case Err(e) => EncodeFields(fields) == Err(e) && Written(fields) == done
  {
    var rest := fields[i..];
    assert rest[0] == fields[i] && rest[1..] == fields[i + 1..];
    match EncodeField(fields[i])
    case Ok(bytes) =>
      assert done + (bytes + Written(rest[1..])) == done + bytes + Written(rest[1..]);
      if EncodeFields(rest[1..]).Ok? {
        var more := EncodeFields(rest[1..]).value;
        assert done + (bytes + more) == done + bytes + more;
      }
    case Err(_) =>
      assert done + [] == done;
  }

  lemma EverythingWritten(fields: seq<Field>, done: seq<byte>)
    requires WrittenSoFar(fields, |fields|, done)
    ensures EncodeFields(fields) == Ok(done)
  {
    assert fields[|fields|..] == [] && done + [] == done;
  }

  class MessageReader {
    const data: seq<byte>
    var pos: nat

    ghost predicate Valid()
      reads this
    {
      pos <= |data|
    }

    constructor (bytes: seq<byte>, start: nat)
      requires start <= |bytes|
      ensures Valid() && data == bytes && pos == start
    {
      data := bytes;
      pos := start;
    }

    // Fills in one value per kind; what is read before an error is dropped by every caller.
    method ReadFields(kinds: seq<Kind>) returns (r: Result<seq<Field>, DnsError>)
      requires Valid()
      modifies this
      ensures Valid()
      ensures match DecodeFields(data, old(pos), kinds)
              case Ok((fields, end)) => r == Ok(fields) && pos == end
              case Err(e) => r == Err(e)
    {
      var fields: seq<Field> := [];
      var i := 0;
      ghost var all := DecodeFields(data, pos, kinds);
      assert kinds[0..] == kinds;
      NothingRead(all);
      while i < |kinds|
        invariant 0 <= i <= |kinds| && Valid() && ReadSoFar(all, fields, DecodeFields(data, pos, kinds[i..]))
      {
        ghost var here := pos;
        assert kinds[i..][0] == kinds[i] && kinds[i..][1..] == kinds[i + 1..];
        var field := ReadField(kinds[i]);
        if field.Err? {
          ReadingStops(all, fields, data, here, kinds[i..]);
          return Err(field.error);
        }
        OneMoreRead(all, fields, data, here, kinds[i..], field.value, pos);
        fields := fields + [field.value];
        i := i + 1;
      }
      assert kinds[i..] == [];
      EverythingRead(all, fields, data, pos);
      return Ok(fields);
    }

    method ReadField(kind: Kind) returns (r: Result<Field, DnsError>)
      requires Valid()
      modifies this
      ensures Valid()
      ensures match DecodeField(data, old(pos), kind)
              case Ok((field, end)) => r == Ok(field) && pos == end
              case Err(e) => r == Err(e)
    {
      match kind {
        case NameKind =>
          var d :- ReadDomain();
          return Ok(NameField(d));
        case Kind16 =>
          if pos + 2 > |data| {
            pos := |data|;
            return Err(BufferUnderflow);
          }
          pos := pos + 2;
          return Ok(Word16(Word(data, pos - 2)));
        case Kind32 =>
          if pos + 4 > |data| {
            pos := |data|;
            return Err(BufferUnderflow);
          }
          pos := pos + 4;
          return Ok(Word32(Long(data, pos - 4)));
      }
    }

    method ReadByte() returns (r: Result<byte, DnsError>)
      requires Valid()
      modifies this
      ensures Valid()
      ensures if old(pos) < |data| then r == Ok(data[old(pos)]) && pos == old(pos) + 1
              else r == Err(BufferUnderflow) && pos == old(pos)
    {
      if pos == |data| {
        return Err(BufferUnderflow);
      }
      pos := pos + 1;
      return Ok(data[pos - 1]);
    }

    // bytes.Reader reports the end of the buffer before it looks at how much is asked for.
    method ReadN(n: nat) returns (r: Result<seq<byte>, DnsError>)
      requires Valid()
      modifies this
      ensures Valid() && r == ReadBytes(data, old(pos), n)
      ensures pos == if old(pos) + n <= |data| then old(pos) + n else |data|
    {
      if pos >= |data| {
        return Err(BufferUnderflow);
      }
      var got := if n < |data| - pos then n else |data| - pos;
      var bytes := data[pos..pos + got];
      pos := pos + got;
      if got != n {
        return Err(BufferUnderflow);
      }
      return Ok(bytes);
    }

    function Offset(): nat
      requires Valid()
      reads this
    {
      |data| - Remaining()
    }

    function Remaining(): nat
      requires Valid()
      reads this
    {
      |data| - pos
    }

    method Backtrack(n: nat)
      requires Valid() && n <= pos
      modifies this
      ensures Valid() && pos == old(pos) - n
    {
      pos := pos - n;
    }

    method ReadDomain() returns (r: Result<Name, DnsError>)
      requires Valid()
      modifies this
      ensures Valid()
      ensures match ReadName(data, old(pos))
              case Ok((d, end)) => r == Ok(d) && pos == end
              case Err(e) => r == Err(e)
      decreases |data|
    {
      var result: Name := [];
      ghost var all := ReadName(data, pos);
      while true
        invariant Valid() && all == ReadLabels(data, pos, result)
        decreases |data| - pos
      {
        var length :- ReadByte();
        if length >= 192 {
          var length2 :- ReadByte();
          var ptr: int := 0x100 * (length as int - 192) + length2;
          if ptr >= pos - 2 {
            return Err(InvalidNamePointer);
          }
          var preReader := new MessageReader(data[..pos - 2], ptr);
          var ptrDomain := preReader.ReadDomain();
          if ptrDomain.Err? {
            return Err(InvalidNamePointer);
          }
          result := result + ptrDomain.value;
          var invalid := Validate(result);
          return if invalid.Some? then Err(InvalidName) else Ok(result);
        } else if length >= 64 {
          return Err(InvalidLabelLength);
        } else if length == 0 {
          var invalid := Validate(result);
          return if invalid.Some? then Err(InvalidName) else Ok(result);
        }
        var labelData :- ReadN(length);
        result := result + [labelData];
      }
    }
  }

  // These fields have been read, and rest is what reading the remaining ones gives.
  ghost predicate ReadSoFar(all: FieldsRead, fields: seq<Field>, rest: FieldsRead) {
    match rest
    case Ok((more, end)) => all == Ok((fields + more, end))
    case Err(e) => all == Err(e)
  }

  lemma NothingRead(all: FieldsRead)
    ensures ReadSoFar(all, [], all)
  {
    if all.Ok? {
      assert [] + all.value.0 == all.value.0;
    }
  }

  lemma OneMoreRead(all: FieldsRead, fields: seq<Field>, data: seq<byte>, pos: nat, kinds: seq<Kind>,
                    field: Field, next: nat)
    requires pos <= |data| && kinds != [] && ReadSoFar(all, fields, DecodeFields(data, pos, kinds))
    requires DecodeField(data, pos, kinds[0]) == Ok((field, next))
    ensures ReadSoFar(all, fields + [field], DecodeFields(data, next, kinds[1..]))
  {
    if DecodeFields(data, next, kinds[1..]).Ok? {
      var more := DecodeFields(data, next, kinds[1..]).value.0;
      assert fields + ([field] + more) == fields + [field] + more;
    }
  }

  lemma ReadingStops(all: FieldsRead, fields: seq<Field>, data: seq<byte>, pos: nat, kinds: seq<Kind>)
    requires pos <= |data| && kinds != [] && ReadSoFar(all, fields, DecodeFields(data, pos, kinds))
    requires DecodeField(data, pos, kinds[0]).Err?
    ensures all == Err(DecodeField(data, pos, kinds[0]).error)
  {
  }

  lemma EverythingRead(all: FieldsRead, fields: seq<Field>, data: seq<byte>, pos: nat)
    requires pos <= |data| && ReadSoFar(all, fields, DecodeFields(data, pos, []))
    ensures all == Ok((fields, pos))
  {
    assert fields + [] == fields;
  }
}
