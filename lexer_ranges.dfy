/**
 * Character ranges of the `lex_*` generation (lexer.c): the bounds of a range
 * are pointers into one of two static character tables, found with `strchr`.
 */
module LexRanges {
  import opened Options
  import opened CType
  import opened StringUtils
  import Ranges

  /** The two static tables, DIGITS and LETTERS. */
  datatype CharClass = Digits | Letters

  /** The code of the first character of a table. */
  function Base(k: CharClass): int {
    match k
    case Digits => '0' as int
    case Letters => 'a' as int
  }

  /** The number of characters of a table, its terminator excluded. */
  function Len(k: CharClass): nat {
    match k
    case Digits => 10
    case Letters => 26
  }

  /** The characters of a table: consecutive codes from Base(k). */
  function Table(k: CharClass): (t: string)
    ensures |t| == Len(k)
    ensures forall i | 0 <= i < |t| :: t[i] as int == Base(k) + i
  {
    seq(Len(k), i requires 0 <= i < Len(k) => (Base(k) + i) as char)
  }

  /** The tables are DIGITS and LETTERS of lexer.c. */
  lemma TablesAreTheStaticStrings()
    ensures Table(Digits) == "0123456789"
    ensures Table(Letters) == "abcdefghijklmnopqrstuvwxyz"
  {
  }

  /**
   * A `const char *` into a table: NULL, or an offset; offset |Table(k)| is
   * the table's NUL terminator and |Table(k)| + 1 is one past it.
   */
  datatype CharPtr = Null | Into(table: CharClass, offset: nat)

  /** `lex_RangeQuantifier`; `Unset` is the (unsigned) -1 stored when a token has no quantifier. */
  datatype Quantifier = Plus | QMark | Unset

  /** `lex_Range` */
  datatype LexRange = LexRange(uppercaseLetter: bool, start: CharPtr, end: CharPtr, quantifier: Quantifier)

  /** A range as `calloc` hands it out: false, NULL, NULL and enumerator 0 (LEX_PLUS_QUANTIFIER). */
  const ZERO_RANGE: LexRange := LexRange(false, Null, Null, Plus)

  /** `lex_RetCode` */
  datatype LexCode = LexOk | LexInvalidCharRange | LexInvalidRange | LexInvalidRangePattern

  datatype LexFilled = LexFilled(code: LexCode, range: LexRange)

  /** strchr(Table(k), c): the first occurrence of c; searching for NUL finds the terminator. */
  function StrChr(k: CharClass, c: char): (p: CharPtr)
    ensures p.Into? ==> p.table == k && p.offset <= |Table(k)|
    ensures c == '\0' ==> p == Into(k, |Table(k)|)
    ensures c != '\0' ==> (p.Null? <==> c !in Table(k))
    ensures c != '\0' && p.Into? ==> p.offset < |Table(k)| && Table(k)[p.offset] == c && c !in Table(k)[..p.offset]
  {
    if c == '\0' then Into(k, Len(k))
    else if Base(k) <= c as int < Base(k) + Len(k) then
      assert Table(k)[c as int - Base(k)] == c;
      Into(k, c as int - Base(k))
    else
      assert forall i | 0 <= i < Len(k) :: Table(k)[i] != c;
      Null
  }

  /** The characters a range covers: the table entries from start up to end. */
  predicate Covers(r: LexRange, c: char)
    requires r.start.Into? && r.end.Into? && r.start.table == r.end.table
    requires r.start.offset <= r.end.offset <= |Table(r.start.table)|
  {
    c in Table(r.start.table)[r.start.offset..r.end.offset]
  }

  /**
   * createRange: a character missing from the table is reported before the
   * order is checked; on success start points at x and end one past y.
   */
  function CreateRange(range: LexRange, x: char, y: char, k: CharClass): (r: LexFilled)
    ensures r.code == LexInvalidCharRange <==> StrChr(k, x).Null? || StrChr(k, y).Null?
    ensures r.code == LexInvalidRange <==>
      StrChr(k, x).Into? && StrChr(k, y).Into? && StrChr(k, x).offset > StrChr(k, y).offset
    ensures r.code != LexOk ==> r.range == range
    ensures r.code == LexOk ==>
      && r.range == range.(start := StrChr(k, x), end := Into(k, StrChr(k, y).offset + 1))
      && r.range.start.offset < r.range.end.offset
  {
    var start, end := StrChr(k, x), StrChr(k, y);
    if start.Null? || end.Null? then LexFilled(LexInvalidCharRange, range)
    else if start.offset > end.offset then LexFilled(LexInvalidRange, range)
    else LexFilled(LexOk, range.(start := start, end := Into(k, end.offset + 1)))
  }

  /** For two table characters, success means x <= y and the range covers exactly x..y. */
  lemma CreateRangeCovers(range: LexRange, x: char, y: char, k: CharClass, c: char)
    requires x in Table(k) && y in Table(k)
    ensures CreateRange(range, x, y, k).code == LexOk <==> x <= y
    ensures CreateRange(range, x, y, k).code == LexOk ==> (Covers(CreateRange(range, x, y, k).range, c) <==> x <= c <= y)
  {
    var i, j := StrChr(k, x).offset, StrChr(k, y).offset;
    if i <= j {
      var r := CreateRange(range, x, y, k).range;
      var t := Table(k)[i..j + 1];
      assert forall m | 0 <= m < |t| :: t[m] as int == x as int + m;
      if x <= c <= y {
        assert t[c as int - x as int] == c;
      }
    }
  }

  /** lex_createDigitRange */
  function CreateDigitRange(range: LexRange, n1: char, n2: char): (r: LexFilled)
    ensures n1 != '\0' && n2 != '\0' ==> (r.code == LexOk <==> '0' <= n1 <= n2 <= '9')
  {
    CreateRange(range, n1, n2, Digits)
  }

  /** lex_createLetterRange: the flag is stored first and upper-case bounds are lowered. */
  function CreateLetterRange(range: LexRange, c1: char, c2: char, uppercase: bool): (r: LexFilled)
    ensures r.range.uppercaseLetter == uppercase
    ensures var a, b := (if uppercase then ToLower(c1) else c1), (if uppercase then ToLower(c2) else c2);
      a != '\0' && b != '\0' ==> (r.code == LexOk <==> 'a' <= a <= b <= 'z')
  {
    var flagged := range.(uppercaseLetter := uppercase);
    var a := if uppercase then ToLower(c1) else c1;
    var b := if uppercase then ToLower(c2) else c2;
    CreateRange(flagged, a, b, Letters)
  }

  /** lex_extractRange on the C string at `input`. */
  function ExtractRange(range: LexRange, input: seq<char>): (r: LexFilled)
    ensures var s := CString(input);
      r.code == LexOk <==> Ranges.ScansTriple(s) && Ranges.ValidTriple(s[0], s[2])
  {
    var s := CString(input);
    if !Ranges.ScansTriple(s) then LexFilled(LexInvalidRangePattern, range)
    else
      var c1, c2 := s[0], s[2];
      if IsAlpha(c1) && IsAlpha(c2) then CreateLetterRange(range, c1, c2, IsUpper(c1) && IsUpper(c2))
      else if IsDigit(c1) && IsDigit(c2) then CreateDigitRange(range, c1, c2)
      else LexFilled(LexInvalidRangePattern, range)
  }

  /** The range read for triple i: lex_extractRange on a zeroed range at input + 3i. */
  function TripleAt(input: seq<char>, i: nat): LexFilled
    requires 3 * i <= |input|
  {
    ExtractRange(ZERO_RANGE, input[3 * i..])
  }

  /** The readings of triples 0..n-1, in order. */
  function Readings(input: seq<char>, n: nat): (fs: seq<LexFilled>)
    requires 3 * n <= |input|
    ensures |fs| == n
  {
    if n == 0 then [] else Readings(input, n - 1) + [TripleAt(input, n - 1)]
  }

  /** Reading i of Readings(input, n) is triple i. */
  lemma {:induction false} ReadingsAt(input: seq<char>, n: nat, i: nat)
    requires i < n && 3 * n <= |input|
    ensures Readings(input, n)[i] == TripleAt(input, i)
  {
    if i < n - 1 {
      ReadingsAt(input, n - 1, i);
    }
  }

  /** Reading fewer triples gives a prefix of the readings. */
  lemma {:induction false} ReadingsPrefix(input: seq<char>, m: nat, n: nat)
    requires m <= n && 3 * n <= |input|
    ensures Readings(input, n)[..m] == Readings(input, m)
  {
    if m < n {
      ReadingsPrefix(input, m, n - 1);
      Ranges.PrefixOfSnoc(Readings(input, n - 1), TripleAt(input, n - 1), m);
    } else {
      assert Readings(input, n)[..m] == Readings(input, n);
    }
  }

  /** The ranges of the readings in order, or None as soon as one of them fails. */
  function Gather(fs: seq<LexFilled>): (o: Option<seq<LexRange>>)
    ensures o.Some? ==> |o.value| == |fs|
  {
    if fs == [] then Some([])
    else
      match Gather(fs[..|fs| - 1])
      case None => None
      case Some(rs) =>
        var f := fs[|fs| - 1];
        if f.code != LexOk then None else Some(rs + [f.range])
  }

  /** Gathering succeeds exactly when every reading does, and then holds their ranges in order. */
  lemma {:induction false} GatherMeaning(fs: seq<LexFilled>)
    ensures Gather(fs).Some? <==> forall i | 0 <= i < |fs| :: fs[i].code == LexOk
    ensures Gather(fs).Some? ==> forall i | 0 <= i < |fs| :: Gather(fs).value[i] == fs[i].range
  {
    if fs != [] {
      var init := fs[..|fs| - 1];
      GatherMeaning(init);
      assert forall i | 0 <= i < |init| :: init[i] == fs[i];
    }
  }

  /** Once a prefix of the readings fails, the whole gathering fails. */
  lemma {:induction false} GatherFailureSticks(fs: seq<LexFilled>, m: nat)
    requires m <= |fs| && Gather(fs[..m]).None?
    ensures Gather(fs).None?
  {
    if m < |fs| {
      assert fs[..|fs| - 1][..m] == fs[..m];
      GatherFailureSticks(fs[..|fs| - 1], m);
    } else {
      assert fs[..m] == fs;
    }
  }

  /** Triples 0..n-1, or None when one of them fails. */
  function ParseTriples(input: seq<char>, n: nat): (o: Option<seq<LexRange>>)
    requires 3 * n <= |input|
    ensures o.Some? ==> |o.value| == n
  {
    Gather(Readings(input, n))
  }

  /** The triples parse exactly when each of them reads, and then range i is triple i. */
  lemma ParseTriplesMeaning(input: seq<char>, n: nat)
    requires 3 * n <= |input|
    ensures ParseTriples(input, n).Some? <==> forall i | 0 <= i < n :: TripleAt(input, i).code == LexOk
    ensures ParseTriples(input, n).Some? ==> forall i | 0 <= i < n :: ParseTriples(input, n).value[i] == TripleAt(input, i).range
  {
    GatherMeaning(Readings(input, n));
    forall i | 0 <= i < n {
      ReadingsAt(input, n, i);
    }
  }

  /** One turn of the lex_extractRanges loop: the reading of triple i extends the parse, or makes it fail. */
  lemma ParseTriplesStep(input: seq<char>, i: nat, n: nat, rs: seq<LexRange>, f: LexFilled)
    requires i < n && 3 * n <= |input| && ParseTriples(input, i) == Some(rs)
    requires f == ExtractRange(ZERO_RANGE, input[3 * i..])
    ensures f.code == LexOk ==> ParseTriples(input, i + 1) == Some(rs + [f.range])
    ensures f.code != LexOk ==> ParseTriples(input, n).None?
  {
    var fs := Readings(input, i + 1);
    assert fs[..i] == Readings(input, i);
    if f.code != LexOk {
      ReadingsPrefix(input, i + 1, n);
      GatherFailureSticks(Readings(input, n), i + 1);
    }
  }

  /**
   * What lex_extractRanges returns and stores in `*pRanges` (None: left
   * untouched): 0 for no text, -1 for a length not divisible by 3 or a bad
   * triple, else the number of ranges.
   */
  function ExtractRangesResult(input: seq<char>, length: nat): (r: (int, Option<seq<LexRange>>))
    requires length <= |input|
    ensures r.0 > 0 <==> r.1.Some?
    ensures r.1.Some? ==> r.0 == |r.1.value|
    ensures r.0 >= -1
  {
    var stripped := Ranges.Stripped(input, length);
    if |stripped| == 0 then (0, None)
    else if |stripped| % 3 != 0 then (-1, None)
    else
      match ParseTriples(input, |stripped| / 3)
      case None => (-1, None)
      case Some(rs) => (|rs|, Some(rs))
  }

  /**
   * The count lex_extractRanges returns: 0 exactly for a text without
   * anything but whitespace, one range per three characters on success, and
   * on success range i is triple i.
   */
  lemma ExtractRangesCount(input: seq<char>, length: nat)
    requires length <= |input|
    ensures var r := ExtractRangesResult(input, length);
      && (r.0 == 0 <==> Ranges.Stripped(input, length) == [])
      && (r.1.Some? ==> r.0 == |Ranges.Stripped(input, length)| / 3)
      && (r.1.Some? ==> forall i | 0 <= i < r.0 :: r.1.value[i] == TripleAt(input, i).range)
  {
    var n := |Ranges.Stripped(input, length)|;
    assert n <= length by {
      assert |CString(input[..length])| <= length;
    }
    if n > 0 && n % 3 == 0 {
      ParseTriplesMeaning(input, n / 3);
    }
  }

  /** The repository's case: "a-zA-Z0-9" gives its three ranges, lower-case, upper-case and digits. */
  lemma ThreeRangesCounted(input: seq<char>)
    requires input == "a-zA-Z0-9"
    ensures ExtractRangesResult(input, 9).0 == 3
  {
    LiteralStripped(input);
    LiteralTriplesRead(input);
    CountedWhenRead(input, 9, 3);
  }

  /** When the stripped text holds n triples and all n read, the count is n. */
  lemma CountedWhenRead(input: seq<char>, length: nat, n: nat)
    requires length <= |input| && 0 < n && 3 * n <= |input|
    requires |Ranges.Stripped(input, length)| == 3 * n && ParseTriples(input, n).Some?
    ensures ExtractRangesResult(input, length).0 == n
  {
  }

  lemma LiteralStripped(input: seq<char>)
    requires input == "a-zA-Z0-9"
    ensures |Ranges.Stripped(input, 9)| == 3 * 3
  {
    assert input[..9] == input;
    CStringNoNul(input);
    StripWhitespaceIdentity(input);
  }

  lemma LiteralTriplesRead(input: seq<char>)
    requires input == "a-zA-Z0-9"
    ensures 3 * 3 <= |input| && ParseTriples(input, 3).Some?
  {
    TripleAtReads(input, 0);
    TripleAtReads(input, 1);
    TripleAtReads(input, 2);
    ThreeTriplesParse(input);
  }

  lemma ThreeTriplesParse(input: seq<char>)
    requires 3 * 3 <= |input|
    requires TripleAt(input, 0).code == LexOk && TripleAt(input, 1).code == LexOk && TripleAt(input, 2).code == LexOk
    ensures ParseTriples(input, 3).Some?
  {
    NoTriplesParse(input);
    TripleExtends(input, 0, 3);
    TripleExtends(input, 1, 3);
    TripleExtends(input, 2, 3);
  }

  lemma NoTriplesParse(input: seq<char>)
    ensures ParseTriples(input, 0).Some?
  {
    assert Readings(input, 0) == [];
  }

  /** A parse of i triples extends to i + 1 when triple i reads. */
  lemma TripleExtends(input: seq<char>, i: nat, n: nat)
    requires i < n && 3 * n <= |input| && ParseTriples(input, i).Some? && TripleAt(input, i).code == LexOk
    ensures ParseTriples(input, i + 1).Some?
  {
    ParseTriplesStep(input, i, n, ParseTriples(input, i).value, TripleAt(input, i));
  }

  lemma TripleAtReads(input: seq<char>, i: nat)
    requires 3 * i + 3 <= |input| && '\0' !in input[3 * i..]
    requires Ranges.ScansTriple(input[3 * i..]) && Ranges.ValidTriple(input[3 * i], input[3 * i + 2])
    ensures TripleAt(input, i).code == LexOk
  {
    TripleReads(input[3 * i..]);
  }

  /** A NUL-free text that starts with a well-formed triple reads. */
  lemma TripleReads(t: seq<char>)
    requires '\0' !in t && Ranges.ScansTriple(t) && Ranges.ValidTriple(t[0], t[2])
    ensures ExtractRange(ZERO_RANGE, t).code == LexOk
  {
    CStringNoNul(t);
  }

  /** lex_extractRanges */
  method ExtractRanges(input: seq<char>, length: nat) returns (ret: int, stored: Option<array<LexRange>>)
    requires length <= |input|
    ensures var (r, s) := ExtractRangesResult(input, length);
      && ret == r
      && (stored.None? <==> s.None?)
      && (stored.Some? ==> fresh(stored.value) && stored.value[..] == s.value)
  {
    var buffer := new char[length];
    var lengthWithoutSpaces := RemoveWhitespaces(buffer, input, length);
    if lengthWithoutSpaces == 0 {
      return 0, None;
    }
    if lengthWithoutSpaces % 3 != 0 {
      return -1, None;
    }
    var rangesNumber := lengthWithoutSpaces / 3;
    assert 3 * rangesNumber <= length;
    var ranges := new LexRange[rangesNumber](_ => ZERO_RANGE);
    var ok := FillRanges(input, ranges);
    if !ok {
      return -1, None;
    }
    stored := Some(ranges);
    ret := rangesNumber;
  }

  /** The loop of lex_extractRanges: triple i is read into ranges[i] until one fails. */
  method FillRanges(input: seq<char>, ranges: array<LexRange>) returns (ok: bool)
    requires 3 * ranges.Length <= |input|
    modifies ranges
    ensures ok <==> ParseTriples(input, ranges.Length).Some?
    ensures ok ==> ParseTriples(input, ranges.Length) == Some(ranges[..])
  {
    var pos := 0;
    var i := 0;
    while i < ranges.Length
      invariant 0 <= i <= ranges.Length && pos == 3 * i
      invariant ParseTriples(input, i) == Some(ranges[..i])
    {
      // ranges[i] is still the zeroed range the allocation handed out
      var filled := ExtractRange(ZERO_RANGE, input[pos..]);
      ghost var done := ranges[..i];
      ParseTriplesStep(input, i, ranges.Length, done, filled);
      ranges[i] := filled.range;
      if filled.code != LexOk {
        return false;
      }
      assert ranges[..i + 1] == done + [filled.range];
      pos := pos + 3;
      i := i + 1;
    }
    assert ranges[..] == ranges[..i];
    return true;
  }
}
