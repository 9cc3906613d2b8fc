// Domain names as sequences of labels (section 3.1 of RFC 1035), with the program's label
// pattern: a letter, then letters, digits and hyphens, not ending in a hyphen.
module DomainNames {
  import opened Bytes
  import opened Wrappers

  const DOT: byte := 46
  const HYPHEN: byte := 45

  type Label = seq<byte>
  type Name = seq<Label>

  predicate IsLetter(c: byte) { 65 <= c <= 90 || 97 <= c <= 122 }

  predicate IsLetterOrDigit(c: byte) { IsLetter(c) || 48 <= c <= 57 }

  predicate MatchesPattern(l: Label) {
    && l != []
    && IsLetter(l[0]) && IsLetterOrDigit(l[|l| - 1])
    && forall i :: 0 <= i < |l| ==> IsLetterOrDigit(l[i]) || l[i] == HYPHEN
  }

  predicate Between(c: byte, low: char, high: char) {
    low as int <= c as int <= high as int
  }

  // The language of the label pattern: the first character a letter, the last a letter or digit,
  // those between letters, digits or hyphens.
  lemma PatternLanguage(l: Label)
    ensures MatchesPattern(l) <==>
            && l != []
            && (Between(l[0], 'a', 'z') || Between(l[0], 'A', 'Z'))
            && (forall i :: 1 <= i < |l| - 1 ==>
                  Between(l[i], 'a', 'z') || Between(l[i], 'A', 'Z') || Between(l[i], '0', '9') || l[i] == '-' as int)
            && (var z := l[|l| - 1]; Between(z, 'a', 'z') || Between(z, 'A', 'Z') || Between(z, '0', '9'))
  {
  }

  predicate SizeOk(l: Label) { 1 <= |l| <= 63 }

  // Bytes of the encoded name: a length byte per label and a final zero.
  function EncodedLength(d: Name): nat {
    if d == [] then 1 else |d[0]| + 1 + EncodedLength(d[1..])
  }

  predicate ValidName(d: Name) {
    && (forall l :: l in d ==> SizeOk(l) && MatchesPattern(l))
    && EncodedLength(d) <= 255
  }

  datatype NameError = InvalidLabelSize | InvalidLabel | NameTooLong

  lemma {:induction false} EncodedLengthAppend(d: Name, l: Label)
    ensures EncodedLength(d + [l]) == EncodedLength(d) + |l| + 1
  {
    if d != [] {
      assert (d + [l])[1..] == d[1..] + [l];
      EncodedLengthAppend(d[1..], l);
    }
  }

  // Nil means valid; label sizes are all checked before any pattern, and the total last.
  method Validate(d: Name) returns (err: Option<NameError>)
    ensures err.None? <==> ValidName(d)
    ensures err == Some(InvalidLabelSize) <==> exists l :: l in d && !SizeOk(l)
    ensures err == Some(NameTooLong) ==> forall l :: l in d ==> SizeOk(l) && MatchesPattern(l)
  {
    for i := 0 to |d|
      invariant forall k :: 0 <= k < i ==> SizeOk(d[k])
    {
      if |d[i]| > 63 || |d[i]| == 0 {
        assert d[i] in d;
        return Some(InvalidLabelSize);
      }
    }
    var globalLength := 1;
    for i := 0 to |d|
      invariant globalLength == EncodedLength(d[..i])
      invariant forall k :: 0 <= k < i ==> MatchesPattern(d[k])
    {
      assert d[..i + 1] == d[..i] + [d[i]];
      EncodedLengthAppend(d[..i], d[i]);
      globalLength := globalLength + |d[i]| + 1;
      if !MatchesPattern(d[i]) {
        assert d[i] in d;
        return Some(InvalidLabel);
      }
    }
    assert d[..|d|] == d;
    if globalLength > 255 {
      return Some(NameTooLong);
    }
    return None;
  }

  // ----- Text form -----

  // The maximal runs between dots; the empty text has one empty run.
  function Split(s: seq<byte>): (d: Name)
    ensures |d| >= 1
  {
    if s == [] then [[]]
    else if s[0] == DOT then [[]] + Split(s[1..])
    else
      var rest := Split(s[1..]);
      [[s[0]] + rest[0]] + rest[1..]
  }

  function Join(d: Name): seq<byte> {
    if d == [] then []
    else if |d| == 1 then d[0]
    else d[0] + [DOT] + Join(d[1..])
  }

  function WithoutTrailingDot(s: seq<byte>): seq<byte> {
    if s != [] && s[|s| - 1] == DOT then s[..|s| - 1] else s
  }

  function ParseDomainName(s: seq<byte>): Option<Name> {
    var parts := Split(WithoutTrailingDot(s));
    if ValidName(parts) then Some(parts) else None
  }

  lemma {:induction false} JoinOfSplit(s: seq<byte>)
    ensures Join(Split(s)) == s
  {
    if s != [] {
      JoinOfSplit(s[1..]);
      var rest := Split(s[1..]);
      if s[0] == DOT {
        assert ([[]] + rest)[1..] == rest;
        assert Split(s) == [[]] + rest;
      } else {
        var d := [[s[0]] + rest[0]] + rest[1..];
        assert d[1..] == rest[1..];
        assert Join(d) == [s[0]] + Join(rest);
      }
    }
  }

  lemma {:induction false} SplitRun(l: seq<byte>, s: seq<byte>)
    requires DOT !in l
    ensures Split(l + s) == [l + Split(s)[0]] + Split(s)[1..]
  {
    if l == [] {
      assert l + s == s && l + Split(s)[0] == Split(s)[0];
    } else {
      assert (l + s)[0] == l[0] && (l + s)[1..] == l[1..] + s;
      SplitRun(l[1..], s);
      assert [l[0]] + (l[1..] + Split(s)[0]) == l + Split(s)[0];
    }
  }

  lemma {:induction false} SplitOfJoin(d: Name)
    requires d != [] && forall l :: l in d ==> DOT !in l
    ensures Split(Join(d)) == d
  {
    assert d[0] in d;
    if |d| == 1 {
      SplitRun(d[0], []);
      assert d[0] + [] == d[0];
    } else {
      var rest := d[1..];
      assert forall l :: l in rest ==> l in d;
      SplitOfJoin(rest);
      SplitAtDot(d[0], Join(rest));
      assert d == [d[0]] + rest;
    }
  }

  // A dot ends the run before it.
  lemma SplitAtDot(l: seq<byte>, s: seq<byte>)
    requires DOT !in l
    ensures Split(l + [DOT] + s) == [l] + Split(s)
  {
    var tail := [DOT] + s;
    assert tail[1..] == s && l + [DOT] + s == l + tail;
    SplitRun(l, tail);
    assert Split(tail) == [[]] + Split(s) && l + [] == l;
  }

  lemma PatternHasNoDot(l: Label)
    requires MatchesPattern(l)
    ensures DOT !in l && l[|l| - 1] != DOT
  {
  }

  lemma {:induction false} JoinEndsInLabel(d: Name)
    requires d != [] && forall l :: l in d ==> l != [] && l[|l| - 1] != DOT
    ensures Join(d) != [] && Join(d)[|Join(d)| - 1] != DOT
  {
    assert d[0] in d;
    if |d| > 1 {
      var rest := d[1..];
      assert forall l :: l in rest ==> l in d;
      JoinEndsInLabel(rest);
      var j := d[0] + [DOT] + Join(rest);
      assert j[|j| - 1] == Join(rest)[|Join(rest)| - 1];
    }
  }

  // Printing and parsing are inverse exactly on the valid names with at least one label.
  lemma ParseOfJoin(d: Name)
    ensures ParseDomainName(Join(d)) == Some(d) <==> d != [] && ValidName(d)
    ensures d != [] && ValidName(d) ==> ParseDomainName(Join(d) + [DOT]) == Some(d)
  {
    if d != [] && ValidName(d) {
      forall l | l in d
        ensures DOT !in l && l[|l| - 1] != DOT
      {
        PatternHasNoDot(l);
      }
      SplitOfJoin(d);
      JoinEndsInLabel(d);
      assert (Join(d) + [DOT])[..|Join(d)|] == Join(d);
    }
    if d == [] {
      assert Split([]) == [[]];
    }
  }

  // A successful parse prints back to its input without a trailing dot.
  lemma JoinOfParse(s: seq<byte>)
    requires ParseDomainName(s).Some?
    ensures Join(ParseDomainName(s).value) == WithoutTrailingDot(s)
    ensures ValidName(ParseDomainName(s).value) && ParseDomainName(s).value != []
  {
    JoinOfSplit(WithoutTrailingDot(s));
  }
}
