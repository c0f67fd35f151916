/**
 * The scan shared by prs_extractGrammarItems and lex_extractGrammarItems:
 * the source is cut into string blocks (backtick to backtick, kept whole) and
 * the stretches between them, whose whitespace runs are collapsed before they
 * are split on spaces.
 */
module Extraction {
  import opened Options
  import opened CType
  import opened StringUtils

  /** The source handed to the extractors: a C string of exactly `length` characters. */
  predicate IsCString(source: string, length: nat) {
    length < |source| && source[length] == '\0' && '\0' !in source[..length]
  }

  /** What a scan appends to the item list, and whether it reached the end of the input. */
  datatype Scan = Scan(complete: bool, items: seq<string>)

  /** The items of a stretch outside string blocks: whitespace runs collapsed, then split on spaces. */
  function Words(s: string): seq<string> {
    SplitOn(CollapseSpaces(s), ' ')
  }

  /** What the scan finds at a position. */
  datatype Step =
    | Done                         // the whole input has been read
    | Tail                         // no backtick is left: the rest is one stretch
    | Unclosed(start: nat)         // a backtick opens at start and is never closed
    | Block(start: nat, end: nat)  // the next string block runs from start to end

  /** The two memchr searches of one turn of the extraction loop, bounded by the input. */
  function NextStep(source: string, length: nat, pos: nat): (st: Step)
    requires length <= |source|
    ensures st.Done? <==> pos >= length
    ensures st.Block? ==> pos <= st.start < st.end < length
  {
    if pos >= length then Done
    else match MemChr(source, pos, length, '`')
      case None => Tail
      case Some(start) =>
        match MemChr(source, start + 1, length, '`')
        case None => Unclosed(start)
        case Some(end) => Block(start, end)
  }

  /** The scan from next, when next is the index after e. */
  lemma ScanAfter(source: string, length: nat, e: nat, next: nat)
    requires length <= |source| && next == e + 1
    ensures ScanFrom(source, length, next) == ScanFrom(source, length, e + 1)
  {
  }

  /** A block lies between pos and the end of the input. */
  lemma BlockInside(source: string, length: nat, pos: nat, start: nat, end: nat)
    requires length <= |source| && NextStep(source, length, pos) == Block(start, end)
    ensures pos <= start < end < length
  {
  }

  /** What each kind of step means: where the backticks are, and where there are none. */
  lemma NextStepMeaning(source: string, length: nat, pos: nat)
    requires length <= |source|
    ensures NextStep(source, length, pos).Done? <==> pos >= length
    ensures NextStep(source, length, pos).Tail? ==> pos < length && '`' !in source[pos..length]
    ensures match NextStep(source, length, pos)
            case Unclosed(start) =>
              pos <= start < length && source[start] == '`' && '`' !in source[pos..start] && '`' !in source[start + 1..length]
            case Block(start, end) =>
              source[start] == '`' && source[end] == '`' && '`' !in source[pos..start] && '`' !in source[start + 1..end]
            case _ => true
  {
    if pos < length {
      MemChrMeaning(source, pos, length, '`');
      match MemChr(source, pos, length, '`')
      case None =>
      case Some(start) =>
        MemChrMeaning(source, start + 1, length, '`');
    }
  }

  /**
   * The scan from position pos of the first `length` characters of source.
   * With no backtick left, the rest (up to the terminator) is one stretch.
   * Otherwise the stretch before the opening backtick and the block itself
   * are emitted, unless the block opens at pos itself, in which case nothing
   * is emitted for it; the scan goes on after the closing backtick. An
   * opening backtick without a closing one ends the scan, incomplete.
   */
  function ScanFrom(source: string, length: nat, pos: nat): Scan
    requires length <= |source|
    decreases length - pos
  {
    match NextStep(source, length, pos)
    case Done => Scan(true, [])
    case Tail => Scan(true, Words(CString(source[pos..])))
    case Unclosed(_) => Scan(false, [])
    case Block(start, end) =>
      var rest := ScanFrom(source, length, end + 1);
      Scan(rest.complete, Emitted(source, pos, start, end) + rest.items)
  }

  /**
   * What one block step emits: the items of the stretch before the block and
   * the block itself, backticks included; nothing when the block opens at pos.
   */
  function Emitted(source: string, pos: nat, start: nat, end: nat): seq<string>
    requires pos <= start < end < |source|
  {
    if start != pos then Words(source[pos..start]) + [source[start..end + 1]] else []
  }

  /** The scan at a block step: what the block step emits, then the scan after the block. */
  lemma ScanBlock(source: string, length: nat, pos: nat, start: nat, end: nat)
    requires length <= |source| && NextStep(source, length, pos) == Block(start, end)
    ensures ScanFrom(source, length, pos)
         == Scan(ScanFrom(source, length, end + 1).complete, Emitted(source, pos, start, end) + ScanFrom(source, length, end + 1).items)
  {
    var st := NextStep(source, length, pos);
    assert st.start == start && st.end == end;
  }

  /** The scan at a step whose backtick is never closed: nothing more, incomplete. */
  lemma ScanUnclosed(source: string, length: nat, pos: nat, start: nat)
    requires length <= |source| && NextStep(source, length, pos) == Unclosed(start)
    ensures ScanFrom(source, length, pos) == Scan(false, [])
  {
  }

  /** The scan at the end of the input: nothing more, complete. */
  lemma ScanDone(source: string, length: nat, pos: nat)
    requires length <= |source| && NextStep(source, length, pos) == Done
    ensures ScanFrom(source, length, pos) == Scan(true, [])
  {
  }

  /** The scan at a tail step: the items of the rest of the input, complete. */
  lemma ScanTail(source: string, length: nat, pos: nat)
    requires length <= |source| && NextStep(source, length, pos) == Tail
    ensures ScanFrom(source, length, pos) == Scan(true, Words(CString(source[pos..])))
  {
  }

  /** In a C string of length `length`, strlen from pos is length - pos. */
  lemma TailIsRest(source: string, length: nat, pos: nat)
    requires IsCString(source, length) && pos <= length
    ensures CString(source[pos..]) == source[pos..length]
  {
    var s := source[pos..];
    var r := CString(s);
    assert s[length - pos] == '\0';
    forall k | 0 <= k < length - pos ensures s[k] != '\0' {
      assert s[k] == source[..length][pos + k];
    }
  }

  /** An item as the scan emits it: non-empty, and without whitespace unless it is a string block. */
  predicate WellFormedItem(x: string) {
    x != [] && (x[0] != '`' ==> forall k | 0 <= k < |x| :: !IsSpace(x[k]))
  }

  predicate AllWellFormed(xs: seq<string>) {
    forall i | 0 <= i < |xs| :: WellFormedItem(xs[i])
  }

  lemma AllWellFormedAppend(a: seq<string>, b: seq<string>)
    requires AllWellFormed(a) && AllWellFormed(b)
    ensures AllWellFormed(a + b)
  {
    forall i | 0 <= i < |a + b| ensures WellFormedItem((a + b)[i]) {
      if i >= |a| {
        assert (a + b)[i] == b[i - |a|];
      } else {
        assert (a + b)[i] == a[i];
      }
    }
  }

  /** Every item a scan emits is well formed. */
  lemma {:induction false} ScanItems(source: string, length: nat, pos: nat)
    requires length <= |source|
    ensures AllWellFormed(ScanFrom(source, length, pos).items)
    decreases length - pos
  {
    match NextStep(source, length, pos)
    case Block(start, end) =>
      ScanItems(source, length, end + 1);
      BlockItems(source, length, pos, start, end);
    case Tail =>
      ScanTail(source, length, pos);
      WordsItems(CString(source[pos..]));
    case Unclosed(start) =>
      ScanUnclosed(source, length, pos, start);
    case Done =>
      ScanDone(source, length, pos);
  }

  /** A block step keeps the items well formed, given that the scan after the block does. */
  lemma BlockItems(source: string, length: nat, pos: nat, start: nat, end: nat)
    requires length <= |source| && NextStep(source, length, pos) == Block(start, end)
    requires AllWellFormed(ScanFrom(source, length, end + 1).items)
    ensures AllWellFormed(ScanFrom(source, length, pos).items)
  {
    var here, rest := Emitted(source, pos, start, end), ScanFrom(source, length, end + 1).items;
    ScanBlock(source, length, pos, start, end);
    NextStepMeaning(source, length, pos);
    EmittedItems(source, pos, start, end);
    AllWellFormedAppend(here, rest);
  }

  /** What a block step emits is well formed. */
  lemma EmittedItems(source: string, pos: nat, start: nat, end: nat)
    requires pos <= start < end < |source| && source[start] == '`'
    ensures AllWellFormed(Emitted(source, pos, start, end))
  {
    if start != pos {
      WordsItems(source[pos..start]);
      assert WellFormedItem(source[start..end + 1]);
      AllWellFormedAppend(Words(source[pos..start]), [source[start..end + 1]]);
    }
  }

  /** The items of a stretch are non-empty and hold no whitespace. */
  lemma WordsItems(s: string)
    ensures AllWellFormed(Words(s))
  {
    var c := CollapseSpaces(s);
    SplitOnItems(c, ' ');
    SplitOnNoSpace(c, ' ');
  }

  /** Splitting on the only whitespace character a string holds leaves items without whitespace. */
  lemma {:induction false} SplitOnNoSpace(s: string, sep: char)
    requires forall k | 0 <= k < |s| :: IsSpace(s[k]) ==> s[k] == sep
    ensures forall i, k | 0 <= i < |SplitOn(s, sep)| && 0 <= k < |SplitOn(s, sep)[i]| :: !IsSpace(SplitOn(s, sep)[i][k])
    decreases |s|
  {
    var n := Span(s, sep);
    if n < |s| {
      SplitOnNoSpace(s[n + 1..], sep);
    }
  }

  /**
   * The result of a scan depends on the first `length` characters only: the
   * search for a closing backtick never looks past the terminator.
   */
  lemma {:induction false} ScanReadsInputOnly(s1: string, s2: string, length: nat, pos: nat)
    requires IsCString(s1, length) && IsCString(s2, length) && s1[..length] == s2[..length]
    ensures ScanFrom(s1, length, pos) == ScanFrom(s2, length, pos)
    decreases length - pos
  {
    NextStepInput(s1, s2, length, pos);
    match NextStep(s1, length, pos)
    case Done =>
    case Tail =>
      TailInput(s1, s2, length, pos);
    case Unclosed(_) =>
    case Block(start, end) =>
      ScanReadsInputOnly(s1, s2, length, end + 1);
      BlockInput(s1, s2, length, pos, start, end);
  }

  /** A block step of two inputs that agree on their first `length` characters. */
  lemma BlockInput(s1: string, s2: string, length: nat, pos: nat, start: nat, end: nat)
    requires length <= |s1| && length <= |s2| && s1[..length] == s2[..length]
    requires NextStep(s1, length, pos) == NextStep(s2, length, pos) == Block(start, end)
    requires ScanFrom(s1, length, end + 1) == ScanFrom(s2, length, end + 1)
    ensures ScanFrom(s1, length, pos) == ScanFrom(s2, length, pos)
  {
    ScanBlock(s1, length, pos, start, end);
    ScanBlock(s2, length, pos, start, end);
    EmittedInput(s1, s2, length, pos, start, end);
  }

  lemma TailInput(s1: string, s2: string, length: nat, pos: nat)
    requires IsCString(s1, length) && IsCString(s2, length) && s1[..length] == s2[..length] && pos <= length
    ensures CString(s1[pos..]) == CString(s2[pos..])
  {
    TailIsRest(s1, length, pos);
    TailIsRest(s2, length, pos);
    assert s1[pos..length] == s1[..length][pos..];
    assert s2[pos..length] == s2[..length][pos..];
  }

  lemma EmittedInput(s1: string, s2: string, length: nat, pos: nat, start: nat, end: nat)
    requires pos <= start < end < length <= |s1| && length <= |s2| && s1[..length] == s2[..length]
    ensures Emitted(s1, pos, start, end) == Emitted(s2, pos, start, end)
  {
    SliceOfPrefix(s1, length, pos, start);
    SliceOfPrefix(s2, length, pos, start);
    SliceOfPrefix(s1, length, start, end + 1);
    SliceOfPrefix(s2, length, start, end + 1);
  }

  /** A slice within the first `length` characters is a slice of that prefix. */
  lemma SliceOfPrefix(s: string, length: nat, i: nat, j: nat)
    requires i <= j <= length <= |s|
    ensures s[i..j] == s[..length][i..j]
  {
    assert forall k | 0 <= k < j - i :: s[i..j][k] == s[..length][i..j][k];
  }

  /** Both searches of a step look at the first `length` characters only. */
  lemma NextStepInput(s1: string, s2: string, length: nat, pos: nat)
    requires length <= |s1| && length <= |s2| && s1[..length] == s2[..length]
    ensures NextStep(s1, length, pos) == NextStep(s2, length, pos)
  {
    if pos < length {
      MemChrInput(s1, s2, length, pos, '`');
      match MemChr(s1, pos, length, '`')
      case None =>
      case Some(start) =>
        MemChrInput(s1, s2, length, start + 1, '`');
    }
  }

  lemma {:induction false} MemChrInput(s1: string, s2: string, length: nat, from: nat, c: char)
    requires from <= length <= |s1| && length <= |s2| && s1[..length] == s2[..length]
    ensures MemChr(s1, from, length, c) == MemChr(s2, from, length, c)
    decreases length - from
  {
    if from < length {
      assert s1[from] == s1[..length][from] == s2[from];
      MemChrInput(s1, s2, length, from + 1, c);
    }
  }

  // ---------------------------------------------------------------------------
  // The copy buffer
  // ---------------------------------------------------------------------------

  /** Characters in the copy buffer as the extractors allocate it (parser.c:51, lexer.c:144). */
  function AsWrittenBufferSize(length: nat): nat { length }

  /** Characters in the copy buffer of this model: room for the whole input and its terminator. */
  function BufferSize(length: nat): nat { length + 1 }

  /** The stretch str_removeMultipleSpaces copies into the buffer when the scan is at pos. */
  function Stretch(source: string, length: nat, pos: nat): string
    requires pos < length < |source|
  {
    match NextStep(source, length, pos)
    case Unclosed(start) => source[pos..start]
    case Block(start, _) => source[pos..start]
    case _ => CString(source[pos..])
  }

  /**
   * As written, the buffer is one character short: for "ab" the stretch is the
   * whole input, its collapsed copy has two characters, and the terminator
   * goes to index 2 of a two-character buffer.
   */
  lemma BufferOverflowAsWritten()
    ensures var source := "ab\0";
            |CollapseSpaces(Stretch(source, 2, 0))| == AsWrittenBufferSize(2)
  {
    var source := "ab\0";
    assert source[0..2] == "ab";
    assert NextStep(source, 2, 0) == Tail;
    TailIsRest(source, 2, 0);
    assert Stretch(source, 2, 0) == "ab";
    NoRunsUnchanged("ab");
  }

  /** With the corrected size, the collapsed stretch and its terminator always fit. */
  lemma StretchFits(source: string, length: nat, pos: nat)
    requires IsCString(source, length) && pos < length
    ensures |CollapseSpaces(Stretch(source, length, pos))| < BufferSize(length)
    ensures pos > 0 ==> |CollapseSpaces(Stretch(source, length, pos))| < AsWrittenBufferSize(length)
  {
    TailIsRest(source, length, pos);
  }

  // ---------------------------------------------------------------------------
  // The search for the closing backtick
  // ---------------------------------------------------------------------------

  /**
   * One past the last character the closing-backtick search reads as written
   * (parser.c:69, lexer.c:163): it starts after the opening backtick at start
   * and reads length - (start - pos + 1) characters.
   */
  function AsWrittenClosingEnd(length: nat, pos: nat, start: nat): int {
    start + 1 + (length - (start - pos + 1))
  }

  /**
   * For "`a``b" the scan resumes at 3 after the first block, finds an opening
   * backtick there, and the search for its closing backtick as written runs to
   * index 8, past the terminator at index 5 and the end of the six-character
   * buffer.
   */
  lemma ClosingSearchOverreads()
    ensures var source := "`a``b\0";
            && NextStep(source, 5, 0) == Block(0, 2)
            && NextStep(source, 5, 3) == Unclosed(3)
            && AsWrittenClosingEnd(5, 3, 3) == 8 > |source|
  {
    var source := "`a``b\0";
    assert source[0..5][..0] == [];
    assert source[1..5][..1] == "a";
    assert source[3..5][..0] == [];
    assert source[4..5] == "b";
  }
}
