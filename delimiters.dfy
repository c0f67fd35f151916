/**
 * Delimiter splitting, shared by prs_splitDelimiters and lex_splitDelimiters:
 * where an item is cut, the pieces one item becomes, and what the pieces of a
 * whole list keep.
 */
module Delimiters {
  import opened Options

  /** The delimiter set both generations pass in. */
  const GRAMMAR_DELIMITERS: string := "+|?;="

  /** No character of s is a delimiter. */
  predicate DelimiterFree(s: string, delims: string) {
    forall k | 0 <= k < |s| :: s[k] !in delims
  }

  /**
   * strpbrk (and str_findDelimiter, whose documented result is the same): the
   * index of the first character of s that belongs to the delimiter set.
   */
  function FindDelimiter(s: string, delims: string): (r: Option<nat>)
    ensures r.None? <==> DelimiterFree(s, delims)
    ensures r.Some? ==> r.value < |s| && s[r.value] in delims && DelimiterFree(s[..r.value], delims)
    decreases |s|
  {
    if s == [] then None
    else if s[0] in delims then Some(0)
    else match FindDelimiter(s[1..], delims)
      case None => None
      case Some(k) =>
        assert s[..k + 1] == [s[0]] + s[1..][..k];
        Some(k + 1)
  }

  /**
   * An item the splitter leaves whole: a string block (first character a
   * backtick), an item of at most one character, or one without delimiters.
   */
  predicate Atomic(x: string, delims: string) {
    (x != [] && x[0] == '`') || |x| <= 1 || DelimiterFree(x, delims)
  }

  /**
   * Where one pass of the splitter cuts item x: the length of the part kept
   * in the item, the rest becoming a new item after it.
   */
  function Cut(x: string, delims: string): (q: Option<nat>)
    ensures q.None? <==> Atomic(x, delims)
    ensures q.Some? ==> 0 < q.value < |x|
    // the kept part is either the leading delimiter alone, or free of delimiters
    // and followed by the delimiter that ends it
    ensures q.Some? ==> (q.value == 1 && x[0] in delims) || (DelimiterFree(x[..q.value], delims) && x[q.value] in delims)
  {
    if x != [] && x[0] == '`' then None
    else match FindDelimiter(x, delims)
      case None => None
      case Some(p) => if |x| <= 1 then None else Some(if p == 0 then 1 else p)
  }

  /** The items x ends up as once the splitter has cut it and every new item after it. */
  function Pieces(x: string, delims: string): seq<string>
    decreases |x|
  {
    match Cut(x, delims)
    case None => [x]
    case Some(q) => [x[..q]] + Pieces(x[q..], delims)
  }

  /** The items a whole list ends up as. */
  function Expand(xs: seq<string>, delims: string): seq<string>
    decreases |xs|
  {
    if xs == [] then [] else Pieces(xs[0], delims) + Expand(xs[1..], delims)
  }

  /** The texts of a list, end to end. */
  function Concat(xs: seq<string>): string
    decreases |xs|
  {
    if xs == [] then [] else xs[0] + Concat(xs[1..])
  }

  lemma {:induction false} ConcatAppend(a: seq<string>, b: seq<string>)
    ensures Concat(a + b) == Concat(a) + Concat(b)
    decreases |a|
  {
    if a == [] {
      assert a + b == b;
    } else {
      assert (a + b)[1..] == a[1..] + b;
      ConcatAppend(a[1..], b);
    }
  }

  /** Splitting an item keeps its text: the pieces put back together are the item. */
  lemma {:induction false} PiecesConcat(x: string, delims: string)
    ensures Concat(Pieces(x, delims)) == x
    decreases |x|
  {
    match Cut(x, delims)
    case None =>
      assert Concat([x]) == x + Concat([]);
    case Some(q) =>
      PiecesConcat(x[q..], delims);
      ConcatAppend([x[..q]], Pieces(x[q..], delims));
      assert Concat([x[..q]]) == x[..q] + Concat([]);
      assert x[..q] + x[q..] == x;
  }

  /** Every piece is atomic, and none is empty unless the item was. */
  lemma {:induction false} PiecesAtomic(x: string, delims: string)
    ensures |Pieces(x, delims)| >= 1
    ensures forall i | 0 <= i < |Pieces(x, delims)| :: Atomic(Pieces(x, delims)[i], delims)
    ensures x != [] ==> forall i | 0 <= i < |Pieces(x, delims)| :: Pieces(x, delims)[i] != []
    decreases |x|
  {
    match Cut(x, delims)
    case None =>
    case Some(q) =>
      PiecesAtomic(x[q..], delims);
      var head := x[..q];
      assert Atomic(head, delims) by {
        if q == 1 {
          assert |head| <= 1;
        } else {
          assert DelimiterFree(head, delims);
        }
      }
  }

  /** An atomic item is left as it is. */
  lemma AtomicPieces(x: string, delims: string)
    requires Atomic(x, delims)
    ensures Pieces(x, delims) == [x]
  {
  }

  lemma {:induction false} ExpandAppend(a: seq<string>, b: seq<string>, delims: string)
    ensures Expand(a + b, delims) == Expand(a, delims) + Expand(b, delims)
    decreases |a|
  {
    if a == [] {
      assert a + b == b;
    } else {
      assert (a + b)[1..] == a[1..] + b;
      ExpandAppend(a[1..], b, delims);
    }
  }

  /**
   * The list after splitting: same text in the same order, every item atomic,
   * no empty item made out of a non-empty one, and never fewer items.
   */
  lemma {:induction false} ExpandProperties(xs: seq<string>, delims: string)
    ensures Concat(Expand(xs, delims)) == Concat(xs)
    ensures forall i | 0 <= i < |Expand(xs, delims)| :: Atomic(Expand(xs, delims)[i], delims)
    ensures (forall i | 0 <= i < |xs| :: xs[i] != []) ==> forall i | 0 <= i < |Expand(xs, delims)| :: Expand(xs, delims)[i] != []
    ensures |Expand(xs, delims)| >= |xs|
    decreases |xs|
  {
    if xs != [] {
      ExpandProperties(xs[1..], delims);
      PiecesConcat(xs[0], delims);
      PiecesAtomic(xs[0], delims);
      ConcatAppend(Pieces(xs[0], delims), Expand(xs[1..], delims));
      assert Concat(xs) == xs[0] + Concat(xs[1..]);
      if forall i | 0 <= i < |xs| :: xs[i] != [] {
        assert forall i | 0 <= i < |xs[1..]| :: xs[1..][i] != [] by {
          forall i | 0 <= i < |xs[1..]| ensures xs[1..][i] != [] {
            assert xs[1..][i] == xs[i + 1];
          }
        }
        assert xs[0] != [];
      }
    }
  }

  /** A list of atomic items is left as it is. */
  lemma {:induction false} ExpandAtomic(xs: seq<string>, delims: string)
    requires forall i | 0 <= i < |xs| :: Atomic(xs[i], delims)
    ensures Expand(xs, delims) == xs
    decreases |xs|
  {
    if xs != [] {
      AtomicPieces(xs[0], delims);
      assert forall i | 0 <= i < |xs[1..]| :: Atomic(xs[1..][i], delims) by {
        forall i | 0 <= i < |xs[1..]| ensures Atomic(xs[1..][i], delims) {
          assert xs[1..][i] == xs[i + 1];
        }
      }
      ExpandAtomic(xs[1..], delims);
    }
  }

  /** Splitting a list a second time changes nothing. */
  lemma ExpandIdempotent(xs: seq<string>, delims: string)
    ensures Expand(Expand(xs, delims), delims) == Expand(xs, delims)
  {
    ExpandProperties(xs, delims);
    ExpandAtomic(Expand(xs, delims), delims);
  }

  /** The pieces of the list from position i, when item i is cut at q. */
  lemma ExpandCutStep(xs: seq<string>, i: nat, q: nat, delims: string)
    requires i < |xs| && Cut(xs[i], delims) == Some(q)
    ensures Expand(xs[i..], delims)
         == [xs[i][..q]] + Expand([xs[i][q..]] + xs[i + 1..], delims)
  {
    assert xs[i..][1..] == xs[i + 1..];
    assert ([xs[i][q..]] + xs[i + 1..])[1..] == xs[i + 1..];
  }

  /** The pieces of the list from position i, when item i is left whole. */
  lemma ExpandKeepStep(xs: seq<string>, i: nat, delims: string)
    requires i < |xs| && Cut(xs[i], delims).None?
    ensures Expand(xs[i..], delims) == [xs[i]] + Expand(xs[i + 1..], delims)
  {
    assert xs[i..][1..] == xs[i + 1..];
  }
}
