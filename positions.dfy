/**
 * prs_computeItemsPosition and prs_stringItemEquals (parser.c): every item is
 * looked up in what is left of the source (strstr) and given the line and
 * column where it is found.
 */
module Positions {
  import opened Options
  import opened ParserItems

  /** A 1-based line and column. */
  datatype Pos = Pos(line: int, column: int)

  /** p comes strictly before q: an earlier line, or the same line and an earlier column. */
  predicate Before(p: Pos, q: Pos) {
    p.line < q.line || (p.line == q.line && p.column < q.column)
  }

  /** The cursor after one character: a newline starts the next line at column 1. */
  function Step(c: char, p: Pos): Pos {
    if c == '\n' then Pos(p.line + 1, 1) else Pos(p.line, p.column + 1)
  }

  /** The cursor after walking over seg from p. */
  function Advance(seg: string, p: Pos): Pos
    decreases |seg|
  {
    if seg == [] then p else Step(seg[|seg| - 1], Advance(seg[..|seg| - 1], p))
  }

  /** The line and column of offset `at` of src. */
  function LineCol(src: string, at: nat): Pos
    requires at <= |src|
  {
    Advance(src[..at], Pos(1, 1))
  }

  lemma {:induction false} AdvanceAppend(a: string, b: string, p: Pos)
    ensures Advance(a + b, p) == Advance(b, Advance(a, p))
    decreases |b|
  {
    if b == [] {
      assert a + b == a;
    } else {
      var b' := b[..|b| - 1];
      assert (a + b)[..|a + b| - 1] == a + b';
      AdvanceAppend(a, b', p);
    }
  }

  /** Walking on from offset `from` to offset `to` gives the line and column of `to`. */
  lemma LineColAdvance(src: string, from: nat, to: nat)
    requires from <= to <= |src|
    ensures Advance(src[from..to], LineCol(src, from)) == LineCol(src, to)
  {
    assert src[..to] == src[..from] + src[from..to];
    AdvanceAppend(src[..from], src[from..to], Pos(1, 1));
  }

  /** The line and column one character further on. */
  lemma LineColStep(src: string, at: nat)
    requires at < |src|
    ensures LineCol(src, at + 1) == Step(src[at], LineCol(src, at))
  {
    assert src[..at + 1][..at] == src[..at];
  }

  /** Lines and columns stay 1-based. */
  lemma {:induction false} AdvancePositive(seg: string, p: Pos)
    requires p.line >= 1 && p.column >= 1
    ensures Advance(seg, p).line >= 1 && Advance(seg, p).column >= 1
    decreases |seg|
  {
    if seg != [] {
      AdvancePositive(seg[..|seg| - 1], p);
    }
  }

  /** Walking over at least one character moves the cursor strictly forward. */
  lemma {:induction false} AdvanceMoves(seg: string, p: Pos)
    ensures seg != [] ==> Before(p, Advance(seg, p))
    ensures seg == [] ==> Advance(seg, p) == p
    decreases |seg|
  {
    if seg != [] {
      AdvanceMoves(seg[..|seg| - 1], p);
    }
  }

  /** A later offset has a strictly later line and column. */
  lemma LineColIncreasing(src: string, a: nat, b: nat)
    requires a < b <= |src|
    ensures Before(LineCol(src, a), LineCol(src, b))
  {
    LineColAdvance(src, a, b);
    AdvanceMoves(src[a..b], LineCol(src, a));
  }

  /** Without a newline, walking over seg only adds its length to the column. */
  lemma {:induction false} AdvanceFlat(seg: string, p: Pos)
    requires '\n' !in seg
    ensures Advance(seg, p) == Pos(p.line, p.column + |seg|)
    decreases |seg|
  {
    if seg != [] {
      assert seg[|seg| - 1] in seg;
      assert forall c | c in seg[..|seg| - 1] :: c in seg;
      AdvanceFlat(seg[..|seg| - 1], p);
    }
  }

  // ---------------------------------------------------------------------------
  // strstr
  // ---------------------------------------------------------------------------

  /** needle occurs in s at offset k. */
  predicate OccursAt(s: string, needle: string, k: nat) {
    k + |needle| <= |s| && s[k..k + |needle|] == needle
  }

  /** The first offset from k on where needle occurs in s. */
  function FindFrom(s: string, needle: string, k: nat): (r: Option<nat>)
    ensures r.Some? ==> k <= r.value && r.value + |needle| <= |s|
    decreases |s| - k
  {
    if k + |needle| > |s| then None
    else if OccursAt(s, needle, k) then Some(k)
    else FindFrom(s, needle, k + 1)
  }

  /** strstr: the offset of the first occurrence of needle in s. */
  function Find(s: string, needle: string): (r: Option<nat>)
    ensures r.Some? ==> r.value + |needle| <= |s|
  {
    FindFrom(s, needle, 0)
  }

  lemma {:induction false} FindFromMeaning(s: string, needle: string, k: nat)
    ensures FindFrom(s, needle, k).Some? ==>
              var r := FindFrom(s, needle, k).value;
              k <= r && OccursAt(s, needle, r) && forall j | k <= j < r :: !OccursAt(s, needle, j)
    ensures FindFrom(s, needle, k).None? ==> forall j | k <= j :: !OccursAt(s, needle, j)
    decreases |s| - k
  {
    if k + |needle| <= |s| && !OccursAt(s, needle, k) {
      FindFromMeaning(s, needle, k + 1);
    }
  }

  /** Where strstr succeeds, the needle is there. */
  lemma {:induction false} FindFromOccurs(s: string, needle: string, k: nat)
    requires FindFrom(s, needle, k).Some?
    ensures OccursAt(s, needle, FindFrom(s, needle, k).value)
    decreases |s| - k
  {
    if !OccursAt(s, needle, k) {
      FindFromOccurs(s, needle, k + 1);
    }
  }

  /** strstr finds the first occurrence, and fails exactly when there is none. */
  lemma FindMeaning(s: string, needle: string)
    ensures Find(s, needle).Some? ==>
              var r := Find(s, needle).value;
              OccursAt(s, needle, r) && forall j | 0 <= j < r :: !OccursAt(s, needle, j)
    ensures Find(s, needle).None? <==> forall j | 0 <= j :: !OccursAt(s, needle, j)
  {
    FindFromMeaning(s, needle, 0);
  }

  // ---------------------------------------------------------------------------
  // prs_computeItemsPosition
  // ---------------------------------------------------------------------------

  /**
   * The items placed from offset `from` of src: each item is looked up after
   * the previous one and gets the line and column of the offset where it is
   * found. The first item not found makes the result false and leaves it and
   * the items after it as they were.
   */
  function Placement(src: string, items: seq<StringItem>, from: nat): (bool, seq<StringItem>)
    requires from <= |src|
    decreases |items|
  {
    if items == [] then (true, [])
    else match Find(src[from..], items[0].text)
      case None => (false, items)
      case Some(k) =>
        var at := from + k;
        var lc := LineCol(src, at);
        var rest := Placement(src, items[1..], at + |items[0].text|);
        (rest.0, [StringItem(items[0].text, lc.line, lc.column)] + rest.1)
  }

  /** Only positions change: the list keeps its length and its texts. */
  lemma {:induction false} PlacementTexts(src: string, items: seq<StringItem>, from: nat)
    requires from <= |src|
    ensures Texts(Placement(src, items, from).1) == Texts(items)
    decreases |items|
  {
    if items != [] {
      match Find(src[from..], items[0].text)
      case None =>
      case Some(k) =>
        var rest := Placement(src, items[1..], from + k + |items[0].text|);
        PlacementTexts(src, items[1..], from + k + |items[0].text|);
        assert Texts(items)[1..] == Texts(items[1..]);
    }
  }

  /** Placement when the next item is found k characters on. */
  lemma PlacementFound(src: string, items: seq<StringItem>, from: nat, k: nat, lc: Pos)
    requires from <= |src| && items != [] && Find(src[from..], items[0].text) == Some(k)
    requires from + k <= |src| && lc == LineCol(src, from + k)
    ensures from + k + |items[0].text| <= |src|
    ensures var rest := Placement(src, items[1..], from + k + |items[0].text|);
            Placement(src, items, from) == (rest.0, [StringItem(items[0].text, lc.line, lc.column)] + rest.1)
  {
  }

  /**
   * A placement r of items from offset `from` that succeeded keeps one
   * position per item, every line and column 1-based, every item at or after
   * `from`, and an item with a non-empty text strictly before the next one.
   */
  predicate InOrder(src: string, items: seq<StringItem>, from: nat, r: (bool, seq<StringItem>))
    requires from <= |src|
  {
    r.0 ==>
      |r.1| == |items|
      && (forall i | 0 <= i < |r.1| :: r.1[i].line >= 1 && r.1[i].column >= 1)
      && (forall i | 0 <= i < |r.1| :: !Before(Pos(r.1[i].line, r.1[i].column), LineCol(src, from)))
      && (forall i | 0 <= i < |r.1| - 1 :: items[i].text != [] ==>
            Before(Pos(r.1[i].line, r.1[i].column), Pos(r.1[i + 1].line, r.1[i + 1].column)))
  }

  /** One step of PlacementOrdered: the first item found at `at`, the rest placed in order after it. */
  lemma InOrderStep(src: string, items: seq<StringItem>, from: nat, at: nat, lc: Pos, rest: (bool, seq<StringItem>),
                    r: (bool, seq<StringItem>))
    requires from <= at && items != [] && at + |items[0].text| <= |src| && lc == LineCol(src, at)
    requires InOrder(src, items[1..], at + |items[0].text|, rest)
    requires r == (rest.0, [StringItem(items[0].text, lc.line, lc.column)] + rest.1)
    ensures InOrder(src, items, from, r)
  {
    var after := at + |items[0].text|;
    AdvancePositive(src[..at], Pos(1, 1));
    if from < at {
      LineColIncreasing(src, from, at);
    }
    if r.0 {
      if at < after {
        LineColIncreasing(src, at, after);
      }
      forall i | 0 <= i < |r.1|
        ensures !Before(Pos(r.1[i].line, r.1[i].column), LineCol(src, from))
      {
        if i > 0 {
          assert r.1[i] == rest.1[i - 1];
        }
      }
      forall i | 0 <= i < |r.1| - 1 && items[i].text != []
        ensures Before(Pos(r.1[i].line, r.1[i].column), Pos(r.1[i + 1].line, r.1[i + 1].column))
      {
        if i > 0 {
          assert r.1[i] == rest.1[i - 1] && r.1[i + 1] == rest.1[i];
          assert items[i] == items[1..][i - 1];
        } else {
          assert r.1[1] == rest.1[0];
        }
      }
    }
  }

  /** The first item found k characters on: if the rest is placed in order, so is the whole. */
  lemma FoundInOrder(src: string, items: seq<StringItem>, from: nat, k: nat)
    requires from <= |src| && items != [] && Find(src[from..], items[0].text) == Some(k)
    requires var after := from + k + |items[0].text|;
             after <= |src| && InOrder(src, items[1..], after, Placement(src, items[1..], after))
    ensures InOrder(src, items, from, Placement(src, items, from))
  {
    var at := from + k;
    var lc := LineCol(src, at);
    var rest := Placement(src, items[1..], at + |items[0].text|);
    PlacementFound(src, items, from, k, lc);
    InOrderStep(src, items, from, at, lc, rest, Placement(src, items, from));
  }

  /** A placement that succeeds puts the items in order (see InOrder). */
  lemma {:induction false} PlacementOrdered(src: string, items: seq<StringItem>, from: nat)
    requires from <= |src|
    ensures InOrder(src, items, from, Placement(src, items, from))
    decreases |items|
  {
    if items != [] {
      var found := Find(src[from..], items[0].text);
      if found.Some? {
        var at := from + found.value;
        var after := at + |items[0].text|;
        PlacementOrdered(src, items[1..], after);
        FoundInOrder(src, items, from, found.value);
      }
    }
  }

  /**
   * The invariant of the placement loop: the first i items are placed, and
   * placing the rest from offset `from` completes the whole result.
   */
  predicate PlacedUpTo(src: string, list: seq<StringItem>, i: nat, from: nat, whole: (bool, seq<StringItem>)) {
    i <= |list| && from <= |src|
    && list[..i] + Placement(src, list[i..], from).1 == whole.1
    && Placement(src, list[i..], from).0 == whole.0
  }

  /** A turn of the placement loop that finds item i keeps the loop's invariant. */
  lemma FoundTurn(src: string, list: seq<StringItem>, next: seq<StringItem>, i: nat, from: nat, k: nat, after: nat,
                  whole: (bool, seq<StringItem>))
    requires PlacedUpTo(src, list, i, from, whole) && i < |list|
    requires Find(src[from..], list[i].text) == Some(k)
    requires after == from + k + |list[i].text|
    requires next == list[i := StringItem(list[i].text, LineCol(src, from + k).line, LineCol(src, from + k).column)]
    ensures PlacedUpTo(src, next, i + 1, after, whole)
  {
    var items := list[i..];
    var placed := next[i];
    assert items[0] == list[i] && items[1..] == list[i + 1..] == next[i + 1..];
    PlacementFound(src, items, from, k, LineCol(src, from + k));
    var rest := Placement(src, next[i + 1..], after);
    assert Placement(src, items, from) == (rest.0, [placed] + rest.1);
    assert next[..i + 1] == list[..i] + [placed];
    PlacedJoin(list[..i], placed, rest.1, next[..i + 1]);
    assert whole.0 == rest.0;
  }

  /** The items placed so far, the one just placed, and the rest. */
  lemma PlacedJoin(done: seq<StringItem>, placed: StringItem, rest: seq<StringItem>, upTo: seq<StringItem>)
    requires upTo == done + [placed]
    ensures done + ([placed] + rest) == upTo + rest
  {
  }

  /** A turn of the placement loop that does not find item i ends with the list as it is. */
  lemma MissingTurn(src: string, list: seq<StringItem>, i: nat, from: nat, whole: (bool, seq<StringItem>))
    requires PlacedUpTo(src, list, i, from, whole) && i < |list|
    requires Find(src[from..], list[i].text).None?
    ensures (false, list) == whole
  {
    assert list[i..][0] == list[i];
    assert Placement(src, list[i..], from) == (false, list[i..]);
    assert list[..i] + list[i..] == list;
  }

  /** The placement loop ends with every item placed. */
  lemma LastTurn(src: string, list: seq<StringItem>, from: nat, whole: (bool, seq<StringItem>))
    requires PlacedUpTo(src, list, |list|, from, whole)
    ensures (true, list) == whole
  {
    assert list[|list|..] == [] && list[..|list|] == list;
    assert Placement(src, list[|list|..], from) == (true, []);
    assert list + [] == list;
  }

  /** The placement loop starts with nothing placed. */
  lemma FirstTurn(src: string, list: seq<StringItem>)
    ensures PlacedUpTo(src, list, 0, 0, Placement(src, list, 0))
  {
    assert list[..0] + Placement(src, list, 0).1 == Placement(src, list, 0).1;
    assert list[0..] == list;
  }

  /**
   * The inner walk of prs_computeItemsPosition: the cursor moved over
   * source[from..to], a newline going to column 1 of the next line, lands on
   * the line and column of `to`.
   */
  method Walk(source: string, from: nat, to: nat, line: int, column: int) returns (line': int, column': int)
    requires from <= to <= |source| && Pos(line, column) == LineCol(source, from)
    ensures Pos(line', column') == LineCol(source, to)
  {
    line', column' := line, column;
    var curr := from;
    while curr != to
      invariant from <= curr <= to
      invariant Pos(line', column') == LineCol(source, curr)
    {
      LineColStep(source, curr);
      if source[curr] == '\n' {
        column' := 1;
        line' := line' + 1;
      } else {
        column' := column' + 1;
      }
      curr := curr + 1;
    }
  }

  /**
   * One turn of prs_computeItemsPosition's loop: item i is looked up after
   * offset `from`; when found it gets the line and column where it starts and
   * the cursor moves past it, otherwise the whole result is the list as it is.
   */
  method PlaceItem(source: string, list: seq<StringItem>, i: nat, from: nat, line: int, column: int,
                   ghost whole: (bool, seq<StringItem>))
    returns (found: bool, list': seq<StringItem>, from': nat, line': int, column': int)
    requires PlacedUpTo(source, list, i, from, whole) && i < |list|
    requires Pos(line, column) == LineCol(source, from)
    ensures found ==> PlacedUpTo(source, list', i + 1, from', whole) && |list'| == |list|
    ensures found ==> Pos(line', column') == LineCol(source, from')
    ensures !found ==> (false, list') == whole
  {
    var si := list[i];
    var k := Find(source[from..], si.text);
    if k.None? {
      MissingTurn(source, list, i, from, whole);
      return false, list, from, line, column;
    }
    var start := from + k.value;
    line', column' := Walk(source, from, start, line, column);
    list' := list[i := StringItem(si.text, line', column')];
    from' := start + |si.text|;
    FoundTurn(source, list, list', i, from, k.value, from', whole);
    line', column' := Walk(source, start, from', line', column');
    found := true;
  }

  /**
   * prs_computeItemsPosition over the items from the iterator on: each
   * item gets the line and column where it is found in what is left of the
   * source; false as soon as an item is not found, the earlier items keeping
   * their new positions. After an item the cursor walks over the item's own
   * text (see PlacementAsWritten for the code's `column += strlen`).
   */
  method ComputeItemsPosition(source: string, items: seq<StringItem>) returns (ok: bool, list: seq<StringItem>)
    ensures (ok, list) == Placement(source, items, 0)
  {
    ghost var whole := Placement(source, items, 0);
    var line, column := 1, 1;
    var from: nat := 0;
    list := items;
    var i := 0;
    FirstTurn(source, list);
    while i < |list|
      invariant PlacedUpTo(source, list, i, from, whole)
      invariant Pos(line, column) == LineCol(source, from)
      decreases |list| - i
    {
      var found;
      found, list, from, line, column := PlaceItem(source, list, i, from, line, column, whole);
      if !found {
        ok := false;
        return;
      }
      i := i + 1;
    }
    LastTurn(source, list, from, whole);
    ok := true;
  }

  /**
   * The placement as parser.c:209-210 writes it: after an item the column
   * grows by the item's length, on the same line, whatever the item holds.
   */
  function PlacementAsWritten(src: string, items: seq<StringItem>, from: nat, p: Pos): (bool, seq<StringItem>)
    requires from <= |src|
    decreases |items|
  {
    if items == [] then (true, [])
    else match Find(src[from..], items[0].text)
      case None => (false, items)
      case Some(k) =>
        var at := from + k;
        var lc := Advance(src[from..at], p);
        var rest := PlacementAsWritten(src, items[1..], at + |items[0].text|, Pos(lc.line, lc.column + |items[0].text|));
        (rest.0, [StringItem(items[0].text, lc.line, lc.column)] + rest.1)
  }

  /** The placement as written when the next item is found k characters on. */
  lemma AsWrittenFound(src: string, items: seq<StringItem>, from: nat, p: Pos, k: nat, lc: Pos)
    requires from <= |src| && items != [] && Find(src[from..], items[0].text) == Some(k)
    requires from + k <= |src| && lc == Advance(src[from..from + k], p)
    ensures from + k + |items[0].text| <= |src|
    ensures var t := items[0].text;
            var rest := PlacementAsWritten(src, items[1..], from + k + |t|, Pos(lc.line, lc.column + |t|));
            PlacementAsWritten(src, items, from, p) == (rest.0, [StringItem(t, lc.line, lc.column)] + rest.1)
  {
  }

  /** An item without a newline found at offset `at` ends on its own line, |t| columns on. */
  lemma FlatItemEnd(src: string, from: nat, k: nat, t: string)
    requires from <= |src| && Find(src[from..], t) == Some(k) && '\n' !in t
    ensures from + k + |t| <= |src|
    ensures Advance(src[from..from + k], LineCol(src, from)) == LineCol(src, from + k)
    ensures Pos(LineCol(src, from + k).line, LineCol(src, from + k).column + |t|) == LineCol(src, from + k + |t|)
  {
    var at := from + k;
    FindFromOccurs(src[from..], t, 0);
    LineColAdvance(src, from, at);
    LineColAdvance(src, at, at + |t|);
    assert src[from..][k..k + |t|] == src[at..at + |t|];
    AdvanceFlat(t, LineCol(src, at));
  }

  /** One step of AsWrittenAgrees: a newline-free item found k characters on. */
  lemma AsWrittenStep(src: string, items: seq<StringItem>, from: nat, k: nat)
    requires from <= |src| && items != [] && Find(src[from..], items[0].text) == Some(k)
    requires '\n' !in items[0].text
    requires var after := from + k + |items[0].text|;
             PlacementAsWritten(src, items[1..], after, LineCol(src, after)) == Placement(src, items[1..], after)
    ensures PlacementAsWritten(src, items, from, LineCol(src, from)) == Placement(src, items, from)
  {
    var t := items[0].text;
    var after := from + k + |t|;
    FlatItemEnd(src, from, k, t);
    var lc := LineCol(src, from + k);
    AsWrittenFound(src, items, from, LineCol(src, from), k, lc);
    PlacementFound(src, items, from, k, LineCol(src, from + k));
  }

  /** While no item holds a newline, the code as written places every item where it is. */
  lemma {:induction false} AsWrittenAgrees(src: string, items: seq<StringItem>, from: nat)
    requires from <= |src|
    requires forall i | 0 <= i < |items| :: '\n' !in items[i].text
    ensures PlacementAsWritten(src, items, from, LineCol(src, from)) == Placement(src, items, from)
    decreases |items|
  {
    if items != [] {
      var found := Find(src[from..], items[0].text);
      if found.Some? {
        var after := from + found.value + |items[0].text|;
        assert forall i | 0 <= i < |items[1..]| :: '\n' !in items[1..][i].text by {
          forall i | 0 <= i < |items[1..]| ensures '\n' !in items[1..][i].text {
            assert items[1..][i] == items[i + 1];
          }
        }
        AsWrittenAgrees(src, items[1..], after);
        AsWrittenStep(src, items, from, found.value);
      }
    }
  }

  /** A needle whose first character differs from s[k] does not occur at k. */
  lemma NotAt(s: string, needle: string, k: nat)
    requires needle != [] && k < |s| && s[k] != needle[0]
    ensures !OccursAt(s, needle, k)
  {
    if k + |needle| <= |s| {
      assert s[k..k + |needle|][0] == s[k] != needle[0];
    }
  }

  /** Offset 0 is line 1, column 1. */
  lemma LineColStart(src: string)
    ensures LineCol(src, 0) == Pos(1, 1)
  {
    assert src[..0] == [];
  }

  /** Where strstr finds the two items of "`a\nb` X". */
  lemma MultiLineFinds()
    ensures var src := "`a\nb` X";
            Find(src[0..], "`a\nb`") == Some(0) && Find(src[5..], "X") == Some(1)
  {
    var src := "`a\nb` X";
    assert src[0..][0..5] == "`a\nb`";
    assert OccursAt(src[0..], "`a\nb`", 0);
    var tail := src[5..];
    assert tail == " X";
    NotAt(tail, "X", 0);
    assert tail[1..2] == "X";
    assert FindFrom(tail, "X", 1) == Some(1);
  }

  /** The line and column of the X in "`a\nb` X", after a newline. */
  lemma MultiLineColumns()
    ensures LineCol("`a\nb` X", 6) == Pos(2, 4)
  {
    var src := "`a\nb` X";
    LineColStart(src);
    LineColStep(src, 0);
    LineColStep(src, 1);
    LineColStep(src, 2);
    LineColStep(src, 3);
    LineColStep(src, 4);
    LineColStep(src, 5);
  }

  /**
   * A string block spanning two lines: the item after it is placed at line
   * 1, column 7 by the code as written, but sits at line 2, column 4.
   */
  lemma MultiLineBlockMisplaces()
    ensures var src := "`a\nb` X";
            var items := [StringItem("`a\nb`", UNKNOWN, UNKNOWN), StringItem("X", UNKNOWN, UNKNOWN)];
            var asWritten := PlacementAsWritten(src, items, 0, Pos(1, 1)).1;
            var placed := Placement(src, items, 0).1;
            |asWritten| == 2 && asWritten[1] == StringItem("X", 1, 7)
            && |placed| == 2 && placed[1] == StringItem("X", 2, 4)
  {
    var src := "`a\nb` X";
    var block, x := StringItem("`a\nb`", UNKNOWN, UNKNOWN), StringItem("X", UNKNOWN, UNKNOWN);
    var items := [block, x];
    assert items[1..] == [x] && items[1..][1..] == [];
    MultiLineFinds();
    // the code as written
    AsWrittenFound(src, items, 0, Pos(1, 1), 0, Advance(src[0..0], Pos(1, 1)));
    assert src[0..0] == [];
    AsWrittenFound(src, items[1..], 5, Pos(1, 6), 1, Advance(src[5..6], Pos(1, 6)));
    assert src[5..6] == " " && " "[..0] == [];
    // the corrected walk
    PlacementFound(src, items, 0, 0, LineCol(src, 0));
    PlacementFound(src, items[1..], 5, 1, LineCol(src, 6));
    MultiLineColumns();
  }

  /** Where strstr finds the three items of " TOKEN1\n\n`hello`;". */
  lemma ThreeItemsFinds()
    ensures var src := " TOKEN1\n\n`hello`;";
            Find(src[0..], "TOKEN1") == Some(1) && Find(src[7..], "`hello`") == Some(2) && Find(src[16..], ";") == Some(0)
  {
    var src := " TOKEN1\n\n`hello`;";
    assert src[0..] == src;
    NotAt(src, "TOKEN1", 0);
    assert src[1..7] == "TOKEN1";
    assert FindFrom(src, "TOKEN1", 1) == Some(1);
    var mid := src[7..];
    assert mid == "\n\n`hello`;";
    NotAt(mid, "`hello`", 0);
    NotAt(mid, "`hello`", 1);
    assert mid[2..9] == "`hello`";
    assert FindFrom(mid, "`hello`", 2) == Some(2);
    assert FindFrom(mid, "`hello`", 1) == Some(2);
    var last := src[16..];
    assert last == ";";
    assert last[0..1] == ";";
  }

  /** The lines and columns of offsets 1, 9 and 16 of " TOKEN1\n\n`hello`;". */
  lemma ThreeItemsColumns()
    ensures var src := " TOKEN1\n\n`hello`;";
            LineCol(src, 1) == Pos(1, 2) && LineCol(src, 9) == Pos(3, 1) && LineCol(src, 16) == Pos(3, 8)
  {
    var src := " TOKEN1\n\n`hello`;";
    LineColStart(src);
    LineColStep(src, 0);
    assert src[1..7] == "TOKEN1";
    LineColAdvance(src, 1, 7);
    AdvanceFlat("TOKEN1", Pos(1, 2));
    LineColStep(src, 7);
    LineColStep(src, 8);
    assert src[9..16] == "`hello`";
    LineColAdvance(src, 9, 16);
    AdvanceFlat("`hello`", Pos(3, 1));
  }

  /** The last two items of ThreeItemsExample, placed from offset 7. */
  lemma ThreeItemsTail()
    ensures Placement(" TOKEN1\n\n`hello`;", [StringItem("`hello`", UNKNOWN, UNKNOWN), StringItem(";", UNKNOWN, UNKNOWN)], 7)
         == (true, [StringItem("`hello`", 3, 1), StringItem(";", 3, 8)])
  {
    var src := " TOKEN1\n\n`hello`;";
    var hello, semi := StringItem("`hello`", UNKNOWN, UNKNOWN), StringItem(";", UNKNOWN, UNKNOWN);
    var items := [hello, semi];
    assert items[1..] == [semi] && [semi][1..] == [];
    ThreeItemsFinds();
    ThreeItemsColumns();
    assert Placement(src, [], 17) == (true, []);
    PlacementFound(src, [semi], 16, 0, Pos(3, 8));
    var last := [StringItem(";", 3, 8)];
    assert last + [] == last;
    assert Placement(src, [semi], 16) == (true, last);
    PlacementFound(src, items, 7, 2, Pos(3, 1));
    assert [StringItem("`hello`", 3, 1)] + last == [StringItem("`hello`", 3, 1), StringItem(";", 3, 8)];
  }

  /** The example of the repository's tests: " TOKEN1\n\n`hello`;" places its three items at (1,2), (3,1), (3,8). */
  lemma ThreeItemsExample()
    ensures var r := Placement(" TOKEN1\n\n`hello`;", [StringItem("TOKEN1", UNKNOWN, UNKNOWN),
                                                        StringItem("`hello`", UNKNOWN, UNKNOWN),
                                                        StringItem(";", UNKNOWN, UNKNOWN)], 0);
            r.0 && |r.1| == 3
            && r.1[0] == StringItem("TOKEN1", 1, 2)
            && r.1[1] == StringItem("`hello`", 3, 1)
            && r.1[2] == StringItem(";", 3, 8)
  {
    var src := " TOKEN1\n\n`hello`;";
    var token, hello, semi := StringItem("TOKEN1", UNKNOWN, UNKNOWN), StringItem("`hello`", UNKNOWN, UNKNOWN), StringItem(";", UNKNOWN, UNKNOWN);
    var items := [token, hello, semi];
    assert items[1..] == [hello, semi];
    ThreeItemsFinds();
    ThreeItemsColumns();
    ThreeItemsTail();
    PlacementFound(src, items, 0, 1, Pos(1, 2));
  }

  // ---------------------------------------------------------------------------
  // prs_stringItemEquals
  // ---------------------------------------------------------------------------

  /**
   * prs_stringItemEquals: the same item, or the same line, column and text
   * (strcmp). With items as values the two cases are one: equality of items.
   */
  function StringItemEquals(si1: StringItem, si2: StringItem): (r: bool)
    ensures r <==> si1 == si2
  {
    si1.line == si2.line && si1.column == si2.column && si1.text == si2.text
  }
}
