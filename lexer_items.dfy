/**
 * The item list of the lex generation (lexer.c): items are plain strings. The
 * list is modelled as a sequence and the list iterator as an index into it.
 */
module LexerItems {
  import opened Options
  import opened CType
  import StringUtils
  import opened Delimiters
  import opened Extraction
  import ParserItems

  // ---------------------------------------------------------------------------
  // lex_splitDelimiters
  // ---------------------------------------------------------------------------

  /** One turn of the splitting loop keeps its invariant when item i is cut at q. */
  lemma CutTurn(list: seq<string>, i: nat, q: nat, delims: string, whole: seq<string>)
    requires i < |list| && Cut(list[i], delims) == Some(q)
    requires list[..i] + Expand(list[i..], delims) == whole
    ensures var next := list[..i] + [list[i][..q], list[i][q..]] + list[i + 1..];
            next[..i + 1] + Expand(next[i + 1..], delims) == whole
  {
    var first, second := list[i][..q], list[i][q..];
    var next := list[..i] + [first, second] + list[i + 1..];
    ExpandCutStep(list, i, q, delims);
    assert next[..i + 1] == list[..i] + [first];
    assert next[i + 1..] == [second] + list[i + 1..];
  }

  /** One turn of the splitting loop keeps its invariant when item i is left whole. */
  lemma KeepTurn(list: seq<string>, i: nat, delims: string, whole: seq<string>)
    requires i < |list| && Cut(list[i], delims).None?
    requires list[..i] + Expand(list[i..], delims) == whole
    ensures list[..i + 1] + Expand(list[i + 1..], delims) == whole
  {
    ExpandKeepStep(list, i, delims);
    assert list[..i + 1] == list[..i] + [list[i]];
  }

  /** While items remain after the cursor, the cursor is short of the final length. */
  lemma CursorBound(list: seq<string>, i: nat, delims: string, whole: seq<string>)
    requires i < |list| && list[..i] + Expand(list[i..], delims) == whole
    ensures i < |whole|
  {
    ExpandProperties(list[i..], delims);
  }

  /**
   * lex_splitDelimiters on an iterator at the front of the list, with the
   * first delimitersCount characters of delimiters as the set: every item is
   * cut at its first delimiter until all are atomic, the new items spliced in
   * right after the item they come from. Returns how many were inserted.
   */
  method SplitDelimiters(items: seq<string>, delimiters: string, delimitersCount: nat) returns (inserted: int, list: seq<string>)
    requires delimitersCount <= |delimiters|
    ensures list == Expand(items, delimiters[..delimitersCount])
    ensures inserted == |list| - |items|
  {
    var delims := delimiters[..delimitersCount];
    ghost var whole := Expand(items, delims);
    list := items;
    inserted := 0;
    var i := 0;
    while i < |list|
      invariant i <= |list|
      invariant list[..i] + Expand(list[i..], delims) == whole
      invariant inserted == |list| - |items|
      decreases |whole| - i
    {
      CursorBound(list, i, delims, whole);
      var item := list[i];
      if Head(item) == '`' {
        // a string block is never split
        KeepTurn(list, i, delims, whole);
        i := i + 1;
        continue;
      }
      var ptr := FindDelimiter(item, delims);
      if ptr.Some? && |item| > 1 {
        var q := if ptr.value == 0 then 1 else ptr.value;
        CutTurn(list, i, q, delims, whole);
        list := list[..i] + [item[..q], item[q..]] + list[i + 1..];
        inserted := inserted + 1;
      } else {
        KeepTurn(list, i, delims, whole);
      }
      i := i + 1;
    }
    assert list[i..] == [];
    assert list[..i] == list;
  }

  // ---------------------------------------------------------------------------
  // lex_extractGrammarItems
  // ---------------------------------------------------------------------------

  /** The list lex_extractGrammarItems leaves: the scanned items appended, then everything split on delimiters. */
  function Extracted(source: string, length: nat, itemList: seq<string>): seq<string>
    requires length <= |source|
  {
    Expand(itemList + ScanFrom(source, length, 0).items, GRAMMAR_DELIMITERS)
  }

  /**
   * A block step of the extraction loop keeps its invariant: once what the
   * step emits is appended, the scan goes on after the closing backtick.
   */
  lemma BlockTurn(source: string, length: nat, pos: nat, start: nat, end: nat, list: seq<string>, whole: seq<string>)
    requires length <= |source| && NextStep(source, length, pos) == Block(start, end)
    requires list + ScanFrom(source, length, pos).items == whole
    ensures (list + Emitted(source, pos, start, end)) + ScanFrom(source, length, end + 1).items == whole
    ensures ScanFrom(source, length, end + 1).complete == ScanFrom(source, length, pos).complete
  {
    var here, rest := Emitted(source, pos, start, end), ScanFrom(source, length, end + 1).items;
    ScanBlock(source, length, pos, start, end);
    assert list + (here + rest) == (list + here) + rest;
  }

  /** An unclosed string block ends the extraction: the list is all there is, incomplete. */
  lemma UnclosedTurn(source: string, length: nat, pos: nat, start: nat, list: seq<string>, whole: seq<string>)
    requires length <= |source| && NextStep(source, length, pos) == Unclosed(start)
    requires list + ScanFrom(source, length, pos).items == whole
    ensures list == whole && !ScanFrom(source, length, pos).complete
  {
    ScanUnclosed(source, length, pos, start);
    assert list + [] == list;
  }

  /**
   * The copy-and-split both branches of the extraction loop do: the `count`
   * characters of source from pos, whitespace runs collapsed into the buffer
   * (str_removeMultipleSpaces), are split on spaces and appended
   * (str_splitItems).
   */
  method AppendStretch(buffer: array<char>, list: seq<string>, source: string, length: nat, pos: nat, count: nat)
    returns (result: int, list': seq<string>)
    requires IsCString(source, length) && pos + count <= length && buffer.Length == BufferSize(length)
    modifies buffer
    ensures list' == list + Words(source[pos..pos + count])
    ensures result == |list'| - |list|
  {
    assert source[pos..][..count] == source[pos..pos + count];
    var blockLength := StringUtils.RemoveMultipleSpaces(buffer, source[pos..], count);
    assert buffer[..][..blockLength] == buffer[..blockLength];
    result, list' := StringUtils.SplitItems(buffer[..], blockLength, list, ' ');
  }

  /**
   * One turn of the extraction loop at a block: the words of the stretch
   * before the block, then the block itself as one item, are appended.
   */
  method ExtractBlock(buffer: array<char>, list: seq<string>, source: string, length: nat, pos: nat, start: nat, end: nat, ghost whole: seq<string>)
    returns (added: int, list': seq<string>)
    requires IsCString(source, length) && buffer.Length == BufferSize(length)
    requires NextStep(source, length, pos) == Block(start, end)
    requires list + ScanFrom(source, length, pos).items == whole
    modifies buffer
    ensures list' == list + Emitted(source, pos, start, end)
    ensures list' + ScanFrom(source, length, end + 1).items == whole
    ensures ScanFrom(source, length, end + 1).complete == ScanFrom(source, length, pos).complete
    ensures added == |list'| - |list|
  {
    BlockTurn(source, length, pos, start, end, list, whole);
    if pos != start {
      var count := start - pos;
      assert source[pos..pos + count] == source[pos..start];
      added, list' := AppendStretch(buffer, list, source, length, pos, count);
      list' := list' + [source[start..end + 1]];
      added := added + 1;
    } else {
      added, list' := 0, list;
      assert list + [] == list;
    }
  }

  /**
   * The last turn of the extraction loop, when no backtick is left: the
   * words of the rest of the input are appended.
   */
  method ExtractTail(buffer: array<char>, list: seq<string>, source: string, length: nat, pos: nat, ghost whole: seq<string>)
    returns (added: int, list': seq<string>)
    requires IsCString(source, length) && buffer.Length == BufferSize(length)
    requires NextStep(source, length, pos) == Tail
    requires list + ScanFrom(source, length, pos).items == whole
    modifies buffer
    ensures list' == whole && ScanFrom(source, length, pos).complete
    ensures added == |list'| - |list|
  {
    NextStepMeaning(source, length, pos);
    var tailLength := |StringUtils.CString(source[pos..])|;
    TailIsRest(source, length, pos);
    added, list' := AppendStretch(buffer, list, source, length, pos, tailLength);
    ScanTail(source, length, pos);
  }

  /**
   * One turn of the extraction loop of lex_extractGrammarItems at pos: the
   * two backtick searches, then what the step they find appends. `unclosed`
   * reports a string block that never closes (the loop returns -1), `last`
   * the turn without a backtick (the loop breaks); otherwise the scan goes on
   * at `next`.
   */
  method ExtractTurn(buffer: array<char>, list: seq<string>, source: string, length: nat, pos: nat, ghost whole: seq<string>)
    returns (added: int, list': seq<string>, next: nat, unclosed: bool, last: bool)
    requires IsCString(source, length) && buffer.Length == BufferSize(length) && pos < length
    requires list + ScanFrom(source, length, pos).items == whole
    modifies buffer
    ensures unclosed ==> list' == whole && !ScanFrom(source, length, pos).complete
    ensures last ==> list' == whole && ScanFrom(source, length, pos).complete
    ensures !unclosed && !last ==> pos < next <= length
    ensures !unclosed && !last ==> var rest := ScanFrom(source, length, next);
              list' + rest.items == whole && rest.complete == ScanFrom(source, length, pos).complete
    ensures added == |list'| - |list|
  {
    unclosed, last, next := false, false, pos;
    var step := NextStep(source, length, pos);
    match step
    case Unclosed(start) =>
      UnclosedTurn(source, length, pos, start, list, whole);
      added, list', unclosed := 0, list, true;
    case Block(start, end) =>
      added, list', next := ContinueAfterBlock(buffer, list, source, length, pos, start, end, whole);
      ScanAfter(source, length, end, next);
    case Tail =>
      added, list' := ExtractTail(buffer, list, source, length, pos, whole);
      last := true;
  }

  /** The block branch of ExtractTurn: the scan goes on after the closing backtick. */
  method ContinueAfterBlock(buffer: array<char>, list: seq<string>, source: string, length: nat, pos: nat, start: nat, end: nat,
                          ghost whole: seq<string>)
    returns (added: int, list': seq<string>, next: nat)
    requires IsCString(source, length) && buffer.Length == BufferSize(length)
    requires NextStep(source, length, pos) == Block(start, end)
    requires list + ScanFrom(source, length, pos).items == whole
    modifies buffer
    ensures next == end + 1 && pos < next <= length
    ensures list' + ScanFrom(source, length, end + 1).items == whole
    ensures ScanFrom(source, length, end + 1).complete == ScanFrom(source, length, pos).complete
    ensures added == |list'| - |list|
  {
    BlockInside(source, length, pos, start, end);
    added, list' := ExtractBlock(buffer, list, source, length, pos, start, end, whole);
    next := end + 1;
  }

  /**
   * lex_extractGrammarItems: appends the items of the C string source of
   * `length` characters to the list, then splits the whole list on the
   * grammar delimiters; returns how many items the list gained. An unclosed
   * string block returns -1 and leaves the items appended before it,
   * unsplit.
   */
  method ExtractGrammarItems(source: string, length: nat, itemList: seq<string>) returns (ret: int, list: seq<string>)
    requires IsCString(source, length)
    ensures ScanFrom(source, length, 0).complete ==> list == Extracted(source, length, itemList) && ret == |list| - |itemList|
    ensures !ScanFrom(source, length, 0).complete ==> list == itemList + ScanFrom(source, length, 0).items && ret == -1
  {
    ghost var whole := itemList + ScanFrom(source, length, 0).items;
    var buffer := new char[BufferSize(length)];
    var sourcePos := 0;
    var extractedItems := 0;
    list := itemList;
    while sourcePos < length
      invariant sourcePos <= length
      invariant list + ScanFrom(source, length, sourcePos).items == whole
      invariant ScanFrom(source, length, sourcePos).complete == ScanFrom(source, length, 0).complete
      invariant extractedItems == |list| - |itemList|
      decreases length - sourcePos
    {
      buffer[0] := '\0';
      var added, next, unclosed, last;
      added, list, next, unclosed, last := ExtractTurn(buffer, list, source, length, sourcePos, whole);
      if unclosed {
        ret := -1;
        return;
      }
      extractedItems := extractedItems + added;
      if last {
        break;
      }
      sourcePos := next;
    }
    if sourcePos == length {
      ScanDone(source, length, sourcePos);
      assert list + [] == list;
    }
    assert list == whole && ScanFrom(source, length, 0).complete;
    var inserted;
    inserted, list := SplitDelimiters(list, GRAMMAR_DELIMITERS, |GRAMMAR_DELIMITERS|);
    assert GRAMMAR_DELIMITERS[..|GRAMMAR_DELIMITERS|] == GRAMMAR_DELIMITERS;
    ret := extractedItems + inserted;
  }

  // ---------------------------------------------------------------------------
  // The two generations
  // ---------------------------------------------------------------------------

  /**
   * The lex generation produces the texts of the prs generation's items: on
   * the same input and item texts, both extractions agree item for item.
   */
  lemma GenerationsAgree(source: string, length: nat, itemList: seq<ParserItems.StringItem>)
    requires length <= |source|
    ensures ParserItems.Texts(ParserItems.Extracted(source, length, itemList))
         == Extracted(source, length, ParserItems.Texts(itemList))
  {
    var scanned := ScanFrom(source, length, 0).items;
    var newItems := ParserItems.Fresh(scanned);
    ParserItems.ExpandItemsTexts(itemList + newItems, GRAMMAR_DELIMITERS);
    ParserItems.TextsAppend(itemList, newItems);
    ParserItems.FreshTexts(scanned);
  }
}
