/**
 * Character ranges of the `prs_*` generation: a triple `x-y` of two digits or
 * two letters becomes a half-open interval [start, end) of ASCII codes,
 * letters being stored in lower case with a flag recording upper case.
 */
module Ranges {
  import opened Options
  import opened CType
  import opened Errors
  import opened StringUtils

  const ASCII_DIGIT_START: nat := 48
  const ASCII_DIGIT_END: nat := 57
  const ASCII_LETTER_START: nat := 97
  const ASCII_LETTER_END: nat := 122

  /** `prs_Range`; `start` and `end` are `uint8_t` codes. */
  datatype PrsRange = PrsRange(uppercaseLetter: bool, start: nat, end: nat)

  /** A range as `calloc` hands it out: every field zero. */
  const ZERO_RANGE: PrsRange := PrsRange(false, 0, 0)

  /** The code lies in the half-open interval of the range. */
  predicate InRange(r: PrsRange, code: int) {
    r.start <= code < r.end
  }

  /** The code a call returns together with its out-parameter after the call. */
  datatype Filled = Filled(code: ErrCode, range: PrsRange)

  /**
   * createRange: the order of the bounds is checked first, then that both
   * lie in the class [asciiStart, asciiEnd]; on success the range covers
   * exactly x..y.
   */
  function CreateRange(range: PrsRange, x: nat, y: nat, asciiStart: nat, asciiEnd: nat): (r: Filled)
    requires x < 256 && y < 256 && asciiEnd < 255
    ensures r.code == InvalidRange <==> x > y
    ensures r.code == InvalidCharRange <==> x <= y && (x < asciiStart || y > asciiEnd)
    ensures r.code == Ok <==> x <= y && asciiStart <= x && y <= asciiEnd
    ensures r.code != Ok ==> r.range == range
    ensures r.code == Ok ==>
      && r.range.uppercaseLetter == range.uppercaseLetter
      && asciiStart <= r.range.start < r.range.end <= asciiEnd + 1
      && forall c :: InRange(r.range, c) <==> x <= c <= y
  {
    if x > y then Filled(InvalidRange, range)
    else if x < asciiStart || y > asciiEnd then Filled(InvalidCharRange, range)
    else Filled(Ok, range.(start := x, end := (y + 1) % 256))
  }

  /** prs_createDigitRange */
  function CreateDigitRange(range: PrsRange, n1: char, n2: char): (r: Filled)
    ensures r.code == Ok <==> ASCII_DIGIT_START <= Byte(n1) <= Byte(n2) <= ASCII_DIGIT_END
    ensures r.code == Ok ==> r.range.start == Byte(n1) && r.range.end == Byte(n2) + 1
    ensures r.code != Ok ==> r.range == range
  {
    CreateRange(range, Byte(n1), Byte(n2), ASCII_DIGIT_START, ASCII_DIGIT_END)
  }

  /**
   * prs_createLetterRange: the flag is stored whatever the outcome, and upper
   * case bounds are lowered before validation.
   */
  function CreateLetterRange(range: PrsRange, c1: char, c2: char, uppercase: bool): (r: Filled)
    ensures r.range.uppercaseLetter == uppercase
    ensures var a, b := (if uppercase then ToLower(c1) else c1), (if uppercase then ToLower(c2) else c2);
      && (r.code == Ok <==> ASCII_LETTER_START <= Byte(a) <= Byte(b) <= ASCII_LETTER_END)
      && (r.code == Ok ==> r.range.start == Byte(a) && r.range.end == Byte(b) + 1)
    ensures r.code != Ok ==> r.range == range.(uppercaseLetter := uppercase)
  {
    var flagged := range.(uppercaseLetter := uppercase);
    var a := if uppercase then ToLower(c1) else c1;
    var b := if uppercase then ToLower(c2) else c2;
    CreateRange(flagged, Byte(a), Byte(b), ASCII_LETTER_START, ASCII_LETTER_END)
  }

  /**
   * `sscanf(input, "%c-%c", ...)` assigns both characters exactly when the C
   * string holds at least three characters and the second is '-'.
   */
  predicate ScansTriple(s: seq<char>) {
    |s| >= 3 && s[1] == '-'
  }

  /** A well-formed triple: two digits, two lower-case or two upper-case letters, in order. */
  predicate ValidTriple(c1: char, c2: char) {
    || ('0' <= c1 <= c2 <= '9')
    || ('a' <= c1 <= c2 <= 'z')
    || ('A' <= c1 <= c2 <= 'Z')
  }

  /** prs_extractRange on the C string at `input`. */
  function ExtractRange(range: PrsRange, input: seq<char>): (r: Filled)
    ensures var s := CString(input);
      r.code == Ok <==> ScansTriple(s) && ValidTriple(s[0], s[2])
  {
    var s := CString(input);
    if !ScansTriple(s) then Filled(InvalidRangePattern, range)
    else
      var c1, c2 := s[0], s[2];
      if IsAlpha(c1) && IsAlpha(c2) then CreateLetterRange(range, c1, c2, IsUpper(c1) && IsUpper(c2))
      else if IsDigit(c1) && IsDigit(c2) then CreateDigitRange(range, c1, c2)
      else Filled(InvalidRangePattern, range)
  }

  /** A triple that succeeds covers exactly the lower-cased characters from the first to the last. */
  lemma ExtractRangeCovers(range: PrsRange, input: seq<char>, c: char)
    requires ExtractRange(range, input).code == Ok
    ensures var s, r := CString(input), ExtractRange(range, input).range;
      && (IsAlpha(s[0]) ==> r.uppercaseLetter == IsUpper(s[0]))
      && (IsDigit(s[0]) ==> r.uppercaseLetter == range.uppercaseLetter)
      && (InRange(r, c as int) <==> ToLower(s[0]) <= c <= ToLower(s[2]))
  {
  }

  /** The range read for triple i: prs_extractRange on a zeroed range at input + 3i. */
  function TripleAt(input: seq<char>, i: nat): Filled
    requires 3 * i <= |input|
  {
    ExtractRange(ZERO_RANGE, input[3 * i..])
  }

  /** The readings of triples 0..n-1, in order. */
  function Triples(input: seq<char>, n: nat): (fs: seq<Filled>)
    requires 3 * n <= |input|
    ensures |fs| == n
  {
    if n == 0 then [] else Triples(input, n - 1) + [TripleAt(input, n - 1)]
  }

  /** Reading i of Triples(input, n) is triple i. */
  lemma {:induction false} TriplesAt(input: seq<char>, n: nat, i: nat)
    requires i < n && 3 * n <= |input|
    ensures Triples(input, n)[i] == TripleAt(input, i)
  {
    if i < n - 1 {
      TriplesAt(input, n - 1, i);
      SnocAt(Triples(input, n - 1), TripleAt(input, n - 1), i);
    }
  }

  /** Element i of a sequence with x appended. */
  lemma SnocAt<T>(s: seq<T>, x: T, i: nat)
    requires i <= |s|
    ensures (s + [x])[i] == if i < |s| then s[i] else x
  {
  }

  /** Reading fewer triples gives a prefix of the readings. */
  lemma {:induction false} TriplesPrefix(input: seq<char>, m: nat, n: nat)
    requires m <= n && 3 * n <= |input|
    ensures Triples(input, n)[..m] == Triples(input, m)
  {
    if m < n {
      TriplesPrefix(input, m, n - 1);
      PrefixOfSnoc(Triples(input, n - 1), TripleAt(input, n - 1), m);
    } else {
      assert Triples(input, n)[..m] == Triples(input, n);
    }
  }

  /** A prefix that stops short of an appended element is a prefix of what it was appended to. */
  lemma PrefixOfSnoc<T>(s: seq<T>, x: T, m: nat)
    requires m <= |s|
    ensures (s + [x])[..m] == s[..m]
  {
  }

  /** The outcome of reading a number of triples. */
  datatype Outcome = Parsed(ranges: seq<PrsRange>) | Failed(code: ErrCode)

  /** Takes readings in order and stops at the first one that fails. */
  function Collect(fs: seq<Filled>): (o: Outcome)
    ensures o.Parsed? ==> |o.ranges| == |fs|
    ensures o.Failed? ==> o.code != Ok
  {
    if fs == [] then Parsed([])
    else
      match Collect(fs[..|fs| - 1])
      case Failed(c) => Failed(c)
      case Parsed(rs) =>
        var f := fs[|fs| - 1];
        if f.code != Ok then Failed(f.code) else Parsed(rs + [f.range])
  }

  /** The outcome is parsed exactly when every reading succeeds, and then holds their ranges in order. */
  lemma {:induction false} CollectMeaning(fs: seq<Filled>)
    ensures Collect(fs).Parsed? <==> forall i | 0 <= i < |fs| :: fs[i].code == Ok
    ensures Collect(fs).Parsed? ==> forall i | 0 <= i < |fs| :: Collect(fs).ranges[i] == fs[i].range
  {
    if fs != [] {
      var init := fs[..|fs| - 1];
      CollectMeaning(init);
      assert forall i | 0 <= i < |init| :: init[i] == fs[i];
    }
  }

  /** Collecting one more reading. */
  lemma CollectSnoc(fs: seq<Filled>, f: Filled)
    ensures Collect(fs + [f]) == match Collect(fs)
      case Failed(c) => Failed(c)
      case Parsed(rs) => if f.code != Ok then Failed(f.code) else Parsed(rs + [f.range])
  {
    assert (fs + [f])[..|fs|] == fs;
  }

  /** Once a prefix of the readings fails, the later readings do not matter. */
  lemma {:induction false} CollectFailureSticks(fs: seq<Filled>, m: nat)
    requires m <= |fs| && Collect(fs[..m]).Failed?
    ensures Collect(fs) == Collect(fs[..m])
  {
    if m < |fs| {
      assert fs[..|fs| - 1][..m] == fs[..m];
      CollectFailureSticks(fs[..|fs| - 1], m);
    } else {
      assert fs[..m] == fs;
    }
  }

  /** A failed outcome carries the code of the first failing reading. */
  lemma {:induction false} CollectFailedAt(fs: seq<Filled>)
    requires Collect(fs).Failed?
    ensures exists i | 0 <= i < |fs| ::
      && Collect(fs).code == fs[i].code
      && forall j | 0 <= j < i :: fs[j].code == Ok
  {
    var init := fs[..|fs| - 1];
    assert forall j | 0 <= j < |init| :: fs[j] == init[j];
    if Collect(init).Failed? {
      CollectFailedAt(init);
      var i :| 0 <= i < |init| && Collect(init).code == init[i].code
        && forall j | 0 <= j < i :: init[j].code == Ok;
      assert Collect(fs).code == fs[i].code && forall j | 0 <= j < i :: fs[j].code == Ok;
    } else {
      CollectMeaning(init);
      var i := |init|;
      assert Collect(fs).code == fs[i].code && forall j | 0 <= j < i :: fs[j].code == Ok;
    }
  }

  /** Conversely, the code of the first failing reading is the outcome. */
  lemma CollectFirstFailure(fs: seq<Filled>, i: nat)
    requires i < |fs| && fs[i].code != Ok
    requires forall j | 0 <= j < i :: fs[j].code == Ok
    ensures Collect(fs) == Failed(fs[i].code)
  {
    assert fs[..i + 1][..i] == fs[..i];
    CollectMeaning(fs[..i]);
    assert Collect(fs[..i]).Parsed?;
    CollectFailureSticks(fs, i + 1);
  }

  /** Reads triples 0..n-1 and stops at the first one that fails. */
  function ParseTriples(input: seq<char>, n: nat): Outcome
    requires 3 * n <= |input|
  {
    Collect(Triples(input, n))
  }

  /** Reading one more triple after a successful prefix. */
  lemma ParseTriplesStep(input: seq<char>, i: nat, rs: seq<PrsRange>)
    requires 3 * (i + 1) <= |input| && ParseTriples(input, i) == Parsed(rs)
    ensures var f := TripleAt(input, i);
      ParseTriples(input, i + 1) == if f.code != Ok then Failed(f.code) else Parsed(rs + [f.range])
  {
    CollectSnoc(Triples(input, i), TripleAt(input, i));
  }

  /** Once the first m triples fail, reading up to n keeps that failure. */
  lemma ParseTriplesFailureSticks(input: seq<char>, m: nat, n: nat)
    requires m <= n && 3 * n <= |input| && ParseTriples(input, m).Failed?
    ensures ParseTriples(input, n) == ParseTriples(input, m)
  {
    TriplesPrefix(input, m, n);
    CollectFailureSticks(Triples(input, n), m);
  }

  /** The text prs_extractRanges counts: the first `length` characters up to a NUL, without whitespace. */
  function Stripped(input: seq<char>, length: nat): seq<char>
    requires length <= |input|
  {
    StripWhitespace(CString(input[..length]))
  }

  /**
   * What prs_extractRanges returns, and what it stores in `*pRanges` (None:
   * left untouched). Triples are counted on the stripped text but read from
   * the original input.
   */
  function ExtractRangesResult(input: seq<char>, length: nat): (int, Option<seq<PrsRange>>)
    requires length <= |input|
  {
    var stripped := Stripped(input, length);
    if |stripped| == 0 then (0, None)
    else if |stripped| % 3 != 0 then (InvalidRangePattern.Value(), None)
    else
      match ParseTriples(input, |stripped| / 3)
      case Failed(c) => (c.Value(), None)
      case Parsed(rs) => (|rs|, Some(rs))
  }

  /**
   * The outcomes of prs_extractRanges: nothing stored for empty text or a
   * length not divisible by 3; otherwise either every triple reads and range
   * i is triple i, or the code of the first failing triple is returned.
   */
  lemma ExtractRangesOutcomes(input: seq<char>, length: nat)
    requires length <= |input|
    ensures var (ret, stored) := ExtractRangesResult(input, length);
      var n := |Stripped(input, length)|;
      && (n == 0 ==> ret == 0 && stored == None)
      && (n % 3 != 0 ==> ret == InvalidRangePattern.Value() && stored == None)
      && (stored.Some? <==> n > 0 && n % 3 == 0 && forall i | 0 <= i < n / 3 :: TripleAt(input, i).code == Ok)
      && (stored.Some? ==>
            && ret == n / 3 && |stored.value| == n / 3
            && forall i | 0 <= i < n / 3 :: stored.value[i] == TripleAt(input, i).range)
      && (n > 0 && n % 3 == 0 && stored.None? ==> exists i | 0 <= i < n / 3 ::
            && TripleAt(input, i).code != Ok && ret == TripleAt(input, i).code.Value()
            && forall j | 0 <= j < i :: TripleAt(input, j).code == Ok)
  {
    var n := |Stripped(input, length)|;
    assert n <= length by {
      assert |CString(input[..length])| <= length;
    }
    if n > 0 && n % 3 == 0 {
      ParseTriplesOutcomes(input, n / 3);
    }
  }

  /** Reading m triples succeeds exactly when each of them reads, and fails with the code of the first that does not. */
  lemma ParseTriplesOutcomes(input: seq<char>, m: nat)
    requires 3 * m <= |input|
    ensures var o := ParseTriples(input, m);
      && (o.Parsed? <==> forall i | 0 <= i < m :: TripleAt(input, i).code == Ok)
      && (o.Parsed? ==> |o.ranges| == m && forall i | 0 <= i < m :: o.ranges[i] == TripleAt(input, i).range)
      && (o.Failed? ==> exists i | 0 <= i < m ::
            && TripleAt(input, i).code != Ok && o.code == TripleAt(input, i).code
            && forall j | 0 <= j < i :: TripleAt(input, j).code == Ok)
  {
    var fs := Triples(input, m);
    CollectMeaning(fs);
    forall i | 0 <= i < m {
      TriplesAt(input, m, i);
    }
    if Collect(fs).Failed? {
      CollectFailedAt(fs);
    }
  }

  /** One turn of the prs_extractRanges loop: the reading of triple i extends the outcome, or is the final failure. */
  lemma ReadTurn(input: seq<char>, i: nat, n: nat, done: seq<PrsRange>, filled: Filled)
    requires i < n && 3 * n <= |input| && ParseTriples(input, i) == Parsed(done)
    requires filled == ExtractRange(ZERO_RANGE, input[3 * i..])
    ensures filled.code == Ok ==> ParseTriples(input, i + 1) == Parsed(done + [filled.range])
    ensures filled.code != Ok ==> ParseTriples(input, n) == Failed(filled.code)
  {
    ParseTriplesStep(input, i, done);
    if filled.code != Ok {
      ParseTriplesFailureSticks(input, i + 1, n);
    }
  }

  /**
   * The loop of prs_extractRanges: fills a zeroed array of `n` ranges from
   * the triples at offsets 0, 3, 6, ... and stops at the first failure.
   */
  method ReadTriples(input: seq<char>, n: nat) returns (code: ErrCode, ranges: array<PrsRange>)
    requires 3 * n <= |input|
    ensures fresh(ranges)
    ensures ParseTriples(input, n) == if code == Ok then Parsed(ranges[..]) else Failed(code)
  {
    ranges := new PrsRange[n](_ => ZERO_RANGE);
    var pos := 0;
    var i := 0;
    while i < n
      invariant 0 <= i <= n && pos == 3 * i
      invariant ParseTriples(input, i) == Parsed(ranges[..i])
    {
      // ranges[i] is still the zeroed range the allocation handed out
      var filled := ExtractRange(ZERO_RANGE, input[pos..]);
      ghost var done := ranges[..i];
      ReadTurn(input, i, n, done, filled);
      ranges[i] := filled.range;
      if filled.code != Ok {
        return filled.code, ranges;
      }
      assert ranges[..i + 1] == done + [filled.range];
      pos := pos + 3;
      i := i + 1;
    }
    assert ranges[..] == ranges[..i];
    code := Ok;
  }

  /**
   * prs_extractRanges: counts the stripped characters, allocates one zeroed
   * range per triple and fills them from the input; the array is stored
   * only when every triple reads.
   */
  method ExtractRanges(input: seq<char>, length: nat) returns (ret: int, stored: Option<array<PrsRange>>)
    requires length <= |input|
    ensures var (r, s) := ExtractRangesResult(input, length);
      && ret == r
      && (stored.None? <==> s.None?)
      && (stored.Some? ==> fresh(stored.value) && stored.value[..] == s.value)
  {
    var buffer := new char[length];
    var lengthWithoutSpaces := RemoveWhitespaces(buffer, input, length);
    if lengthWithoutSpaces == 0 {
      return 0, None;
    }
    if lengthWithoutSpaces % 3 != 0 {
      return InvalidRangePattern.Value(), None;
    }
    var rangesNumber := lengthWithoutSpaces / 3;
    assert 3 * rangesNumber <= length;
    var code, ranges := ReadTriples(input, rangesNumber);
    if code != Ok {
      return code.Value(), None;
    }
    stored := Some(ranges);
    ret := rangesNumber;
  }

  /** A single letter range: "A-B" is stored as [a, c) with the upper-case flag set. */
  lemma UppercaseLetterExample()
    ensures ExtractRange(ZERO_RANGE, "A-B") == Filled(Ok, PrsRange(true, 97, 99))
  {
    assert CString("A-B") == "A-B";
  }

  /**
   * The count returned on success shares its `int` with the error codes: one
   * range "a-z" and the out-of-class triple "A-z" both return 1, which is
   * PRS_INVALID_CHAR_RANGE.
   */
  lemma CountCollidesWithErrorCode()
    ensures ExtractRangesResult("a-z", 3) == (1, Some([PrsRange(false, 97, 123)]))
    ensures ExtractRangesResult("A-z", 3) == (InvalidCharRange.Value(), None)
    ensures InvalidCharRange.Value() == 1
  {
    LowerRangeCounted();
    MixedRangeRejected();
  }

  /** "a-z" is one range, the lower-case letters. */
  lemma LowerRangeCounted()
    ensures ExtractRangesResult("a-z", 3) == (1, Some([PrsRange(false, 97, 123)]))
  {
    assert "a-z"[0..] == "a-z" && CString("a-z") == "a-z";
    SingleTriple("a-z");
  }

  /** "A-z" runs from an upper-case to a lower-case letter and is rejected. */
  lemma MixedRangeRejected()
    ensures ExtractRangesResult("A-z", 3) == (InvalidCharRange.Value(), None)
  {
    assert "A-z"[0..] == "A-z" && CString("A-z") == "A-z";
    SingleTriple("A-z");
  }

  /** Three characters without NUL or whitespace are exactly one triple. */
  lemma SingleTriple(input: seq<char>)
    requires |input| == 3 && '\0' !in input && forall k | 0 <= k < 3 :: !IsSpace(input[k])
    ensures var f := TripleAt(input, 0);
      ExtractRangesResult(input, 3) == if f.code == Ok then (1, Some([f.range])) else (f.code.Value(), None)
  {
    assert input[..3] == input;
    CStringNoNul(input);
    StripWhitespaceIdentity(input);
    assert Stripped(input, 3) == input;
    var f := TripleAt(input, 0);
    assert Triples(input, 1) == [] + [f];
    CollectSnoc([], f);
    assert [] + [f.range] == [f.range];
  }

  /**
   * As written, the triples are read from the unstripped input: "a- z" is
   * counted as one triple ("a-z" once stripped) but read as "a- ", which is
   * rejected.
   */
  lemma SpacedTripleRejected()
    ensures Stripped("a- z", 4) == "a-z"
    ensures ExtractRangesResult("a- z", 4) == (InvalidRangePattern.Value(), None)
  {
    assert "a- z"[..4] == "a- z" && "a- z"[0..] == "a- z";
    assert CString("a- z") == "a- z";
    assert StripWhitespace("a- z") == "a-z" by {
      assert "a- z"[1..] == "- z";
      assert "- z"[1..] == " z";
      assert " z"[1..] == "z";
    }
    assert TripleAt("a- z", 0).code == InvalidRangePattern;
  }

  /** prs_extractRanges reading its triples from the stripped buffer it computes. */
  function ExtractRangesFromStripped(input: seq<char>, length: nat): (int, Option<seq<PrsRange>>)
    requires length <= |input|
  {
    var stripped := Stripped(input, length);
    if |stripped| == 0 then (0, None)
    else if |stripped| % 3 != 0 then (InvalidRangePattern.Value(), None)
    else
      match ParseTriples(stripped, |stripped| / 3)
      case Failed(c) => (c.Value(), None)
      case Parsed(rs) => (|rs|, Some(rs))
  }

  /**
   * Reading the stripped buffer makes the result independent of whitespace:
   * the input gives what its stripped text gives, and on success range i is
   * the i-th triple of the stripped text.
   */
  lemma ExtractRangesFromStrippedIgnoresWhitespace(input: seq<char>, length: nat)
    requires length <= |input|
    ensures var stripped := Stripped(input, length);
      && ExtractRangesFromStripped(input, length) == ExtractRangesFromStripped(stripped, |stripped|)
      && ExtractRangesFromStripped(stripped, |stripped|) == ExtractRangesResult(stripped, |stripped|)
  {
    var stripped := Stripped(input, length);
    StripWhitespaceNoNul(CString(input[..length]));
    assert stripped[..|stripped|] == stripped;
    CStringNoNul(stripped);
    StripWhitespaceIdentity(stripped);
    assert Stripped(stripped, |stripped|) == stripped;
  }
}
