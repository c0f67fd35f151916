/**
 * The item list of the prs generation (parser.c): items carry their text and
 * their position in the source. The list is modelled as a sequence and the
 * list iterator as an index into it.
 */
module ParserItems {
  import opened Options
  import opened CType
  import StringUtils
  import opened Delimiters
  import opened Extraction

  /** prs_StringItem: an item's text and its 1-based line and column, -1 while unknown. */
  datatype StringItem = StringItem(text: string, line: int, column: int)

  /** The position value of an item whose position is not known. */
  const UNKNOWN: int := -1

  /** The texts of a list of items. */
  function Texts(xs: seq<StringItem>): (ts: seq<string>)
    ensures |ts| == |xs| && forall i | 0 <= i < |xs| :: ts[i] == xs[i].text
    decreases |xs|
  {
    if xs == [] then [] else [xs[0].text] + Texts(xs[1..])
  }

  /** New items for a list of texts, their positions unknown. */
  function Fresh(texts: seq<string>): (xs: seq<StringItem>)
    ensures |xs| == |texts|
    decreases |texts|
  {
    if texts == [] then [] else [StringItem(texts[0], UNKNOWN, UNKNOWN)] + Fresh(texts[1..])
  }

  /** Item i of the new items carries text i, at an unknown position. */
  lemma {:induction false} FreshAt(texts: seq<string>, i: nat)
    requires i < |texts|
    ensures Fresh(texts)[i] == StringItem(texts[i], UNKNOWN, UNKNOWN)
    decreases i
  {
    if i > 0 {
      FreshAt(texts[1..], i - 1);
    }
  }

  lemma {:induction false} FreshAppend(a: seq<string>, b: seq<string>)
    ensures Fresh(a + b) == Fresh(a) + Fresh(b)
    decreases |a|
  {
    if a == [] {
      assert a + b == b;
    } else {
      assert (a + b)[1..] == a[1..] + b;
      FreshAppend(a[1..], b);
    }
  }

  /** New items are exactly the items with unknown positions, and their texts are given back. */
  lemma FreshTexts(texts: seq<string>)
    ensures Texts(Fresh(texts)) == texts
  {
  }

  // ---------------------------------------------------------------------------
  // splitItems
  // ---------------------------------------------------------------------------

  /** A prefix one longer is the prefix and then the next element. */
  lemma TakeOneMore<T>(s: seq<T>, i: nat)
    requires i < |s|
    ensures s[..i + 1] == s[..i] + [s[i]]
  {
  }

  /**
   * splitItems: the items of the first `length` characters of source, split
   * on spaces, appended as new items; returns how many were appended.
   */
  method SplitItems(dest: seq<StringItem>, source: string, length: nat) returns (result: int, list: seq<StringItem>)
    requires length <= |source|
    ensures list == dest + Fresh(StringUtils.SplitOn(source[..length], ' '))
    ensures result == |list| - |dest|
  {
    var raw;
    result, raw := StringUtils.SplitItems(source, length, [], ' ');
    assert raw == StringUtils.SplitOn(source[..length], ' ');
    list := dest;
    var i := 0;
    while i < |raw|
      invariant i <= |raw|
      invariant list == dest + Fresh(raw[..i])
    {
      TakeOneMore(raw, i);
      FreshAppend(raw[..i], [raw[i]]);
      list := list + [StringItem(raw[i], UNKNOWN, UNKNOWN)];
      i := i + 1;
    }
    assert raw[..i] == raw;
  }

  // ---------------------------------------------------------------------------
  // prs_splitDelimiters
  // ---------------------------------------------------------------------------

  /**
   * The items one item becomes: when it is cut, the part kept in place loses
   * its line (parser.c:425 writes -1 into the original item's line), and the
   * new item after it has no column; C leaves the new item's line unset, which
   * the model takes as unknown. The new item is then split in its turn.
   */
  function SplitItem(si: StringItem, delims: string): seq<StringItem>
    decreases |si.text|
  {
    match Cut(si.text, delims)
    case None => [si]
    case Some(q) =>
      [StringItem(si.text[..q], UNKNOWN, si.column)] + SplitItem(StringItem(si.text[q..], UNKNOWN, UNKNOWN), delims)
  }

  /** The items a whole list becomes. */
  function ExpandItems(xs: seq<StringItem>, delims: string): seq<StringItem>
    decreases |xs|
  {
    if xs == [] then [] else SplitItem(xs[0], delims) + ExpandItems(xs[1..], delims)
  }

  /** The texts of the items one item becomes are the pieces of its text. */
  lemma {:induction false} SplitItemTexts(si: StringItem, delims: string)
    ensures Texts(SplitItem(si, delims)) == Pieces(si.text, delims)
    decreases |si.text|
  {
    match Cut(si.text, delims)
    case None =>
    case Some(q) =>
      var rest := StringItem(si.text[q..], UNKNOWN, UNKNOWN);
      SplitItemTexts(rest, delims);
      assert Texts(SplitItem(si, delims)) == [si.text[..q]] + Texts(SplitItem(rest, delims));
  }

  /**
   * Positions after splitting: an item left whole is unchanged; an item that
   * is cut keeps its column on the first piece, every piece has an unknown
   * line and the later pieces an unknown column.
   */
  lemma {:induction false} SplitItemPositions(si: StringItem, delims: string)
    ensures Cut(si.text, delims).None? ==> SplitItem(si, delims) == [si]
    ensures Cut(si.text, delims).Some? ==>
              var ps := SplitItem(si, delims);
              |ps| >= 2 && ps[0].column == si.column
              && (forall i | 0 <= i < |ps| :: ps[i].line == UNKNOWN)
              && (forall i | 1 <= i < |ps| :: ps[i].column == UNKNOWN)
    decreases |si.text|
  {
    match Cut(si.text, delims)
    case None =>
    case Some(q) =>
      var rest := StringItem(si.text[q..], UNKNOWN, UNKNOWN);
      SplitItemPositions(rest, delims);
      var tail := SplitItem(rest, delims);
      assert tail[0].line == UNKNOWN && tail[0].column == UNKNOWN;
  }

  lemma {:induction false} ExpandItemsAppend(a: seq<StringItem>, b: seq<StringItem>, delims: string)
    ensures ExpandItems(a + b, delims) == ExpandItems(a, delims) + ExpandItems(b, delims)
    decreases |a|
  {
    if a == [] {
      assert a + b == b;
    } else {
      assert (a + b)[1..] == a[1..] + b;
      ExpandItemsAppend(a[1..], b, delims);
    }
  }

  /** The texts of the expanded list are the expanded texts. */
  lemma {:induction false} ExpandItemsTexts(xs: seq<StringItem>, delims: string)
    ensures Texts(ExpandItems(xs, delims)) == Expand(Texts(xs), delims)
    decreases |xs|
  {
    if xs != [] {
      ExpandItemsTexts(xs[1..], delims);
      SplitItemTexts(xs[0], delims);
      TextsAppend(SplitItem(xs[0], delims), ExpandItems(xs[1..], delims));
      assert Texts(xs)[1..] == Texts(xs[1..]);
    }
  }

  lemma TextsAppend(a: seq<StringItem>, b: seq<StringItem>)
    ensures Texts(a + b) == Texts(a) + Texts(b)
  {
  }

  /**
   * After prs_splitDelimiters: the texts keep their order and concatenation,
   * every item is atomic (a string block, one character, or free of
   * delimiters), and the list never shrinks.
   */
  lemma ExpandItemsProperties(xs: seq<StringItem>, delims: string)
    ensures Concat(Texts(ExpandItems(xs, delims))) == Concat(Texts(xs))
    ensures forall i | 0 <= i < |ExpandItems(xs, delims)| :: Atomic(ExpandItems(xs, delims)[i].text, delims)
    ensures |ExpandItems(xs, delims)| >= |xs|
  {
    ExpandItemsTexts(xs, delims);
    ExpandProperties(Texts(xs), delims);
    var ys := ExpandItems(xs, delims);
    forall i | 0 <= i < |ys| ensures Atomic(ys[i].text, delims) {
      assert Texts(ys)[i] == ys[i].text;
    }
  }

  /** The expansion of the list from i, when item i is cut at q. */
  lemma ExpandItemsCutStep(xs: seq<StringItem>, i: nat, q: nat, delims: string)
    requires i < |xs| && Cut(xs[i].text, delims) == Some(q)
    ensures ExpandItems(xs[i..], delims)
         == [StringItem(xs[i].text[..q], UNKNOWN, xs[i].column)]
            + ExpandItems([StringItem(xs[i].text[q..], UNKNOWN, UNKNOWN)] + xs[i + 1..], delims)
  {
    assert xs[i..][1..] == xs[i + 1..];
    var second := StringItem(xs[i].text[q..], UNKNOWN, UNKNOWN);
    assert ([second] + xs[i + 1..])[1..] == xs[i + 1..];
  }

  /** The expansion of the list from i, when item i is left whole. */
  lemma ExpandItemsKeepStep(xs: seq<StringItem>, i: nat, delims: string)
    requires i < |xs| && Cut(xs[i].text, delims).None?
    ensures ExpandItems(xs[i..], delims) == [xs[i]] + ExpandItems(xs[i + 1..], delims)
  {
    assert xs[i..][1..] == xs[i + 1..];
  }

  /** One turn of the splitting loop keeps its invariant when item i is cut at q. */
  lemma SplitCutTurn(list: seq<StringItem>, i: nat, q: nat, delims: string, whole: seq<StringItem>)
    requires i < |list| && Cut(list[i].text, delims) == Some(q)
    requires list[..i] + ExpandItems(list[i..], delims) == whole
    ensures var si := list[i];
            var next := list[..i] + [StringItem(si.text[..q], UNKNOWN, si.column), StringItem(si.text[q..], UNKNOWN, UNKNOWN)] + list[i + 1..];
            next[..i + 1] + ExpandItems(next[i + 1..], delims) == whole
  {
    var si := list[i];
    var first, second := StringItem(si.text[..q], UNKNOWN, si.column), StringItem(si.text[q..], UNKNOWN, UNKNOWN);
    var next := list[..i] + [first, second] + list[i + 1..];
    ExpandItemsCutStep(list, i, q, delims);
    assert next[..i + 1] == list[..i] + [first];
    assert next[i + 1..] == [second] + list[i + 1..];
  }

  /** One turn of the splitting loop keeps its invariant when item i is left whole. */
  lemma SplitKeepTurn(list: seq<StringItem>, i: nat, delims: string, whole: seq<StringItem>)
    requires i < |list| && Cut(list[i].text, delims).None?
    requires list[..i] + ExpandItems(list[i..], delims) == whole
    ensures list[..i + 1] + ExpandItems(list[i + 1..], delims) == whole
  {
    ExpandItemsKeepStep(list, i, delims);
    assert list[..i + 1] == list[..i] + [list[i]];
  }

  /** While items remain after the cursor, the cursor is short of the final length. */
  lemma CursorBound(list: seq<StringItem>, i: nat, delims: string, whole: seq<StringItem>)
    requires i < |list| && list[..i] + ExpandItems(list[i..], delims) == whole
    ensures i < |whole|
  {
    ExpandItemsProperties(list[i..], delims);
  }

  /**
   * prs_splitDelimiters on an iterator at the front of the list: every item is
   * cut at its first delimiter until all are atomic; the new items are spliced
   * in right after the item they come from. Returns how many were inserted.
   */
  method SplitDelimiters(items: seq<StringItem>, delims: string) returns (inserted: int, list: seq<StringItem>)
    ensures list == ExpandItems(items, delims)
    ensures inserted == |list| - |items|
  {
    ghost var whole := ExpandItems(items, delims);
    list := items;
    inserted := 0;
    var i := 0;
    while i < |list|
      invariant i <= |list|
      invariant list[..i] + ExpandItems(list[i..], delims) == whole
      invariant inserted == |list| - |items|
      decreases |whole| - i
    {
      CursorBound(list, i, delims, whole);
      var si := list[i];
      if Head(si.text) == '`' {
        // a string block is never split
        SplitKeepTurn(list, i, delims, whole);
        i := i + 1;
        continue;
      }
      var ptr := FindDelimiter(si.text, delims);
      if ptr.Some? && |si.text| > 1 {
        var q := if ptr.value == 0 then 1 else ptr.value;
        SplitCutTurn(list, i, q, delims, whole);
        list := list[..i] + [StringItem(si.text[..q], UNKNOWN, si.column), StringItem(si.text[q..], UNKNOWN, UNKNOWN)] + list[i + 1..];
        inserted := inserted + 1;
      } else {
        SplitKeepTurn(list, i, delims, whole);
      }
      i := i + 1;
    }
    assert list[i..] == [];
    assert list[..i] == list;
  }

  // ---------------------------------------------------------------------------
  // prs_extractGrammarItems
  // ---------------------------------------------------------------------------

  /** The list prs_extractGrammarItems leaves: the scanned items appended, then everything split on delimiters. */
  function Extracted(source: string, length: nat, itemList: seq<StringItem>): seq<StringItem>
    requires length <= |source|
  {
    ExpandItems(itemList + Fresh(ScanFrom(source, length, 0).items), GRAMMAR_DELIMITERS)
  }

  /**
   * A block step of the extraction loop keeps its invariant: once what the
   * step emits is appended, the scan goes on after the closing backtick.
   */
  lemma ExtractBlockTurn(source: string, length: nat, pos: nat, start: nat, end: nat,
                         list: seq<StringItem>, whole: seq<StringItem>)
    requires length <= |source| && NextStep(source, length, pos) == Block(start, end)
    requires list + Fresh(ScanFrom(source, length, pos).items) == whole
    ensures (list + Fresh(Emitted(source, pos, start, end))) + Fresh(ScanFrom(source, length, end + 1).items) == whole
    ensures ScanFrom(source, length, end + 1).complete == ScanFrom(source, length, pos).complete
  {
    var rest := ScanFrom(source, length, end + 1).items;
    var here := Emitted(source, pos, start, end);
    ScanBlock(source, length, pos, start, end);
    FreshAppend(here, rest);
    StringUtils.Regroup(list, Fresh(here), Fresh(rest));
  }

  /** An unclosed string block ends the extraction: the list is all there is, incomplete. */
  lemma ExtractUnclosedTurn(source: string, length: nat, pos: nat, start: nat, list: seq<StringItem>, whole: seq<StringItem>)
    requires length <= |source| && NextStep(source, length, pos) == Unclosed(start)
    requires list + Fresh(ScanFrom(source, length, pos).items) == whole
    ensures list == whole && !ScanFrom(source, length, pos).complete
  {
    ScanUnclosed(source, length, pos, start);
    assert list + Fresh([]) == list;
  }

  /**
   * The copy-and-split both branches of the extraction loop do: the
   * `count` characters of source from pos, whitespace runs collapsed into the
   * buffer (str_removeMultipleSpaces), are split on spaces and appended
   * (splitItems).
   */
  method AppendStretch(buffer: array<char>, list: seq<StringItem>, source: string, length: nat, pos: nat, count: nat)
    returns (result: int, list': seq<StringItem>)
    requires IsCString(source, length) && pos + count <= length && buffer.Length == BufferSize(length)
    modifies buffer
    ensures list' == list + Fresh(Words(source[pos..pos + count]))
    ensures result == |list'| - |list|
  {
    assert source[pos..][..count] == source[pos..pos + count];
    var blockLength := StringUtils.RemoveMultipleSpaces(buffer, source[pos..], count);
    assert buffer[..][..blockLength] == buffer[..blockLength];
    result, list' := SplitItems(list, buffer[..], blockLength);
  }

  /**
   * One turn of the extraction loop at a block: the words of the stretch
   * before the block, then the block itself as one item, are appended.
   */
  method ExtractBlock(buffer: array<char>, list: seq<StringItem>, source: string, length: nat, pos: nat, start: nat, end: nat,
                      ghost whole: seq<StringItem>)
    returns (added: int, list': seq<StringItem>)
    requires IsCString(source, length) && buffer.Length == BufferSize(length)
    requires NextStep(source, length, pos) == Block(start, end)
    requires list + Fresh(ScanFrom(source, length, pos).items) == whole
    modifies buffer
    ensures list' == list + Fresh(Emitted(source, pos, start, end))
    ensures list' + Fresh(ScanFrom(source, length, end + 1).items) == whole
    ensures ScanFrom(source, length, end + 1).complete == ScanFrom(source, length, pos).complete
    ensures added == |list'| - |list|
  {
    ExtractBlockTurn(source, length, pos, start, end, list, whole);
    if pos != start {
      var count := start - pos;
      var block := source[start..end + 1];
      assert source[pos..pos + count] == source[pos..start];
      added, list' := AppendStretch(buffer, list, source, length, pos, count);
      list' := list' + [StringItem(block, UNKNOWN, UNKNOWN)];
      added := added + 1;
      FreshAppend(Words(source[pos..start]), [block]);
    } else {
      added, list' := 0, list;
      assert list + Fresh([]) == list;
    }
  }

  /** The block branch of ExtractTurn: the scan goes on after the closing backtick. */
  method ContinueAfterBlock(buffer: array<char>, list: seq<StringItem>, source: string, length: nat, pos: nat, start: nat,
                            end: nat, ghost whole: seq<StringItem>)
    returns (added: int, list': seq<StringItem>, next: nat)
    requires IsCString(source, length) && buffer.Length == BufferSize(length)
    requires NextStep(source, length, pos) == Block(start, end)
    requires list + Fresh(ScanFrom(source, length, pos).items) == whole
    modifies buffer
    ensures next == end + 1 && pos < next <= length
    ensures list' + Fresh(ScanFrom(source, length, end + 1).items) == whole
    ensures ScanFrom(source, length, end + 1).complete == ScanFrom(source, length, pos).complete
    ensures added == |list'| - |list|
  {
    BlockInside(source, length, pos, start, end);
    added, list' := ExtractBlock(buffer, list, source, length, pos, start, end, whole);
    next := end + 1;
  }

  /**
   * The last turn of the extraction loop, when no backtick is left: the
   * words of the rest of the input are appended.
   */
  method ExtractTail(buffer: array<char>, list: seq<StringItem>, source: string, length: nat, pos: nat,
                     ghost whole: seq<StringItem>)
    returns (added: int, list': seq<StringItem>)
    requires IsCString(source, length) && buffer.Length == BufferSize(length)
    requires NextStep(source, length, pos) == Tail
    requires list + Fresh(ScanFrom(source, length, pos).items) == whole
    modifies buffer
    ensures list' == whole && ScanFrom(source, length, pos).complete
    ensures added == |list'| - |list|
  {
    NextStepMeaning(source, length, pos);
    var tailLength := |StringUtils.CString(source[pos..])|;
    TailIsRest(source, length, pos);
    added, list' := AppendStretch(buffer, list, source, length, pos, tailLength);
    ScanTail(source, length, pos);
  }

  /**
   * One turn of the extraction loop of prs_extractGrammarItems at pos: the
   * two backtick searches, then what the step they find appends. `unclosed`
   * reports a string block that never closes (the loop returns -1), `last`
   * the turn without a backtick (the loop breaks); otherwise the scan goes on
   * at `next`.
   */
  method ExtractTurn(buffer: array<char>, list: seq<StringItem>, source: string, length: nat, pos: nat,
                     ghost whole: seq<StringItem>)
    returns (added: int, list': seq<StringItem>, next: nat, unclosed: bool, last: bool)
    requires IsCString(source, length) && buffer.Length == BufferSize(length) && pos < length
    requires list + Fresh(ScanFrom(source, length, pos).items) == whole
    modifies buffer
    ensures unclosed ==> list' == whole && !ScanFrom(source, length, pos).complete
    ensures last ==> list' == whole && ScanFrom(source, length, pos).complete
    ensures !unclosed && !last ==> pos < next <= length && list' + Fresh(ScanFrom(source, length, next).items) == whole
    ensures !unclosed && !last ==> ScanFrom(source, length, next).complete == ScanFrom(source, length, pos).complete
    ensures added == |list'| - |list|
  {
    unclosed, last, next := false, false, pos;
    var step := NextStep(source, length, pos);
    match step
    case Unclosed(start) =>
      ExtractUnclosedTurn(source, length, pos, start, list, whole);
      added, list', unclosed := 0, list, true;
    case Block(start, end) =>
      added, list', next := ContinueAfterBlock(buffer, list, source, length, pos, start, end, whole);
      ScanAfter(source, length, end, next);
    case Tail =>
      added, list' := ExtractTail(buffer, list, source, length, pos, whole);
      last := true;
  }

  /**
   * prs_extractGrammarItems: appends the items of the C string source of
   * `length` characters to the list, then splits the whole list on the
   * grammar delimiters; returns how many items the list gained. An unclosed
   * string block returns -1 and leaves the items appended before it,
   * unsplit.
   */
  method ExtractGrammarItems(source: string, length: nat, itemList: seq<StringItem>) returns (ret: int, list: seq<StringItem>)
    requires IsCString(source, length)
    ensures ScanFrom(source, length, 0).complete ==> list == Extracted(source, length, itemList) && ret == |list| - |itemList|
    ensures !ScanFrom(source, length, 0).complete ==> list == itemList + Fresh(ScanFrom(source, length, 0).items) && ret == -1
  {
    ghost var whole := itemList + Fresh(ScanFrom(source, length, 0).items);
    var buffer := new char[BufferSize(length)];
    var sourcePos := 0;
    var extractedItems := 0;
    list := itemList;
    while sourcePos < length
      invariant sourcePos <= length
      invariant list + Fresh(ScanFrom(source, length, sourcePos).items) == whole
      invariant ScanFrom(source, length, sourcePos).complete == ScanFrom(source, length, 0).complete
      invariant extractedItems == |list| - |itemList|
      decreases length - sourcePos
    {
      buffer[0] := '\0';
      var added, next, unclosed, last;
      added, list, next, unclosed, last := ExtractTurn(buffer, list, source, length, sourcePos, whole);
      if unclosed {
        ret := -1;
        return;
      }
      extractedItems := extractedItems + added;
      if last {
        break;
      }
      sourcePos := next;
    }
    if sourcePos == length {
      ScanDone(source, length, sourcePos);
      assert list + Fresh([]) == list;
    }
    assert list == whole && ScanFrom(source, length, 0).complete;
    var inserted;
    inserted, list := SplitDelimiters(list, GRAMMAR_DELIMITERS);
    ret := extractedItems + inserted;
  }
}
