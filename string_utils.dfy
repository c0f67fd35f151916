/**
 * String helpers of the grammar reader: the decimal width of an `int`,
 * whitespace removal, collapsing of whitespace runs and splitting on a
 * separator character.
 *
 * A C buffer is a `seq<char>`; a C string is the part of a buffer before its
 * first NUL character (`CString`).
 */
module StringUtils {
  import opened Options
  import opened CType

  const INT_MIN: int := -0x8000_0000
  const INT_MAX: int := 0x7FFF_FFFF

  /** The characters a C string function sees in a buffer: everything before the first NUL. */
  function CString(s: seq<char>): (r: seq<char>)
    ensures |r| <= |s| && r == s[..|r|]
    ensures '\0' !in r
    ensures |r| < |s| ==> s[|r|] == '\0'
  {
    if s == [] || s[0] == '\0' then [] else [s[0]] + CString(s[1..])
  }

  // ---------------------------------------------------------------------------
  // str_numberLength
  // ---------------------------------------------------------------------------

  function Pow10(k: nat): (p: nat)
    ensures p >= 1
  {
    if k == 0 then 1 else 10 * Pow10(k - 1)
  }

  /** Number of decimal digits of a natural number; 0 is written with one digit. */
  function DigitCount(m: nat): (d: nat)
    ensures d >= 1
  {
    if m < 10 then 1 else 1 + DigitCount(m / 10)
  }

  /** DigitCount(m) is the number of digits: m lies in [10^(d-1), 10^d), or d == 1 and m < 10. */
  lemma {:induction false} DigitCountBounds(m: nat)
    ensures m < Pow10(DigitCount(m))
    ensures DigitCount(m) > 1 ==> Pow10(DigitCount(m) - 1) <= m
  {
    if m >= 10 {
      var q := m / 10;
      DigitCountBounds(q);
      assert m <= 10 * q + 9;
      assert q + 1 <= Pow10(DigitCount(q));
      assert 10 * (q + 1) <= 10 * Pow10(DigitCount(q));
      if DigitCount(q) > 1 {
        assert 10 * Pow10(DigitCount(q) - 1) <= 10 * q;
      }
    }
  }

  /** The number of characters `printf("%d", n)` writes: the digits of |n| and a minus sign for n < 0. */
  function DecimalWidth(n: int): nat {
    if n < 0 then 1 + DigitCount(-n) else DigitCount(n)
  }

  /**
   * str_numberLength. The negation of a negative argument is only defined for
   * a C `int` other than INT_MIN.
   */
  method NumberLength(n: int) returns (length: int)
    requires INT_MIN < n <= INT_MAX
    ensures length == DecimalWidth(n)
  {
    length := 0;
    var m := n;
    if m < 0 {
      length := length + 1;
      m := -m;
    }
    while m >= 10
      invariant 0 <= m
      invariant length + DigitCount(m) == DecimalWidth(n)
    {
      length := length + 1;
      m := m / 10;
    }
    length := length + 1;
  }

  /** 0 is one character wide, 9634 four and -7 two. */
  lemma DecimalWidthExamples()
    ensures DecimalWidth(0) == 1 && DecimalWidth(9634) == 4 && DecimalWidth(-7) == 2
  {
  }

  // ---------------------------------------------------------------------------
  // str_removeWhitespaces
  // ---------------------------------------------------------------------------

  /** The characters of s that are not whitespace, in order. */
  function StripWhitespace(s: seq<char>): (r: seq<char>)
    ensures |r| <= |s|
    ensures forall k | 0 <= k < |r| :: !IsSpace(r[k])
  {
    if s == [] then []
    else (if IsSpace(s[0]) then [] else [s[0]]) + StripWhitespace(s[1..])
  }

  /** Stripping distributes over concatenation. */
  lemma {:induction false} StripWhitespaceAppend(a: seq<char>, b: seq<char>)
    ensures StripWhitespace(a + b) == StripWhitespace(a) + StripWhitespace(b)
  {
    if a == [] {
      assert a + b == b;
    } else {
      assert (a + b)[0] == a[0];
      assert (a + b)[1..] == a[1..] + b;
      StripWhitespaceAppend(a[1..], b);
      var h := if IsSpace(a[0]) then [] else [a[0]];
      calc {
        StripWhitespace(a + b);
        h + StripWhitespace(a[1..] + b);
        h + (StripWhitespace(a[1..]) + StripWhitespace(b));
        (h + StripWhitespace(a[1..])) + StripWhitespace(b);
      }
    }
  }

  /** A string without whitespace is left unchanged, and conversely. */
  lemma {:induction false} StripWhitespaceIdentity(s: seq<char>)
    ensures StripWhitespace(s) == s <==> forall k | 0 <= k < |s| :: !IsSpace(s[k])
  {
    if s != [] {
      StripWhitespaceIdentity(s[1..]);
      if IsSpace(s[0]) {
        assert |StripWhitespace(s)| <= |s[1..]| < |s|;
      }
    }
  }

  /** Stripping never introduces a NUL. */
  lemma {:induction false} StripWhitespaceNoNul(s: seq<char>)
    requires '\0' !in s
    ensures '\0' !in StripWhitespace(s)
  {
    if s != [] {
      StripWhitespaceNoNul(s[1..]);
    }
  }

  /** A buffer without NUL is its own C string. */
  lemma {:induction false} CStringNoNul(s: seq<char>)
    requires '\0' !in s
    ensures CString(s) == s
  {
    if s != [] {
      CStringNoNul(s[1..]);
    }
  }

  /** One step of stripping: the character at i is kept unless it is whitespace. */
  lemma StripStep(t: seq<char>, i: nat, kept: seq<char>)
    requires i < |t|
    ensures IsSpace(t[i]) ==> kept + StripWhitespace(t[i..]) == kept + StripWhitespace(t[i + 1..])
    ensures !IsSpace(t[i]) ==> kept + StripWhitespace(t[i..]) == (kept + [t[i]]) + StripWhitespace(t[i + 1..])
  {
    assert t[i..][1..] == t[i + 1..];
  }

  /** Where the C string of a buffer ends: at the first NUL or at the end. */
  lemma CStringAt(s: seq<char>, i: nat)
    requires i < |s| && i <= |CString(s)|
    ensures s[i] == '\0' ==> |CString(s)| == i
    ensures s[i] != '\0' ==> i < |CString(s)| && CString(s)[i] == s[i]
  {
  }

  /**
   * str_removeWhitespaces: copies the non-whitespace characters of the first
   * `length` characters of source, stopping early at a NUL, into dest and
   * returns how many were copied. No terminator is written.
   */
  method RemoveWhitespaces(dest: array<char>, source: seq<char>, length: nat) returns (count: nat)
    requires length <= |source|
    requires |StripWhitespace(CString(source[..length]))| <= dest.Length
    modifies dest
    ensures count == |StripWhitespace(CString(source[..length]))|
    ensures dest[..count] == StripWhitespace(CString(source[..length]))
    ensures forall k | count <= k < dest.Length :: dest[k] == old(dest[k])
  {
    ghost var t := CString(source[..length]);
    ghost var kept: seq<char> := [];
    var i := 0;
    count := 0;
    while i != length
      invariant i <= |t| && i <= length
      invariant count == |kept|
      invariant kept + StripWhitespace(t[i..]) == StripWhitespace(t)
      invariant dest[..count] == kept
      invariant forall k | count <= k < dest.Length :: dest[k] == old(dest[k])
    {
      CStringAt(source[..length], i);
      if source[i] == '\0' {
        break;
      }
      StripStep(t, i, kept);
      if !IsSpace(source[i]) {
        dest[count] := source[i];
        assert dest[..count + 1] == dest[..count] + [source[i]];
        kept := kept + [source[i]];
        count := count + 1;
      }
      i := i + 1;
    }
    if i == length {
      assert |t| == length;
    }
    assert t[i..] == [];
  }

  // ---------------------------------------------------------------------------
  // str_removeMultipleSpaces
  // ---------------------------------------------------------------------------

  /**
   * Every run of whitespace characters becomes one space; other characters
   * are kept. A whitespace character followed by whitespace is dropped, the
   * last one of a run is written as ' '.
   */
  function CollapseSpaces(s: seq<char>): (r: seq<char>)
    ensures |r| <= |s|
    ensures forall k | 0 <= k < |r| :: IsSpace(r[k]) ==> r[k] == ' '
  {
    if s == [] then []
    else if IsSpace(s[0]) && |s| > 1 && IsSpace(s[1]) then CollapseSpaces(s[1..])
    else [if IsSpace(s[0]) then ' ' else s[0]] + CollapseSpaces(s[1..])
  }

  /** The first character of CollapseSpaces(s) is whitespace exactly when that of s is. */
  lemma {:induction false} CollapseSpacesHead(s: seq<char>)
    ensures |CollapseSpaces(s)| > 0 <==> |s| > 0
    ensures |s| > 0 ==> (IsSpace(CollapseSpaces(s)[0]) <==> IsSpace(s[0]))
  {
    if s != [] && IsSpace(s[0]) && |s| > 1 && IsSpace(s[1]) {
      CollapseSpacesHead(s[1..]);
    }
  }

  /** The result never holds two whitespace characters in a row. */
  lemma {:induction false} CollapseSpacesNoAdjacent(s: seq<char>)
    ensures forall k | 0 <= k < |CollapseSpaces(s)| - 1 ::
      !(IsSpace(CollapseSpaces(s)[k]) && IsSpace(CollapseSpaces(s)[k + 1]))
  {
    if s != [] {
      CollapseSpacesNoAdjacent(s[1..]);
      if !(IsSpace(s[0]) && |s| > 1 && IsSpace(s[1])) {
        CollapseSpacesHead(s[1..]);
        var r := CollapseSpaces(s);
        assert r[1..] == CollapseSpaces(s[1..]);
      }
    }
  }

  /** Collapsing keeps every non-whitespace character, in order. */
  lemma {:induction false} CollapseSpacesKeepsText(s: seq<char>)
    ensures StripWhitespace(CollapseSpaces(s)) == StripWhitespace(s)
  {
    if s != [] {
      CollapseSpacesKeepsText(s[1..]);
      if !(IsSpace(s[0]) && |s| > 1 && IsSpace(s[1])) {
        var c := if IsSpace(s[0]) then ' ' else s[0];
        StripWhitespaceAppend([c], CollapseSpaces(s[1..]));
      }
    }
  }

  /** Collapsing is idempotent. */
  lemma {:induction false} CollapseSpacesIdempotent(s: seq<char>)
    ensures CollapseSpaces(CollapseSpaces(s)) == CollapseSpaces(s)
  {
    CollapseSpacesNoAdjacent(s);
    NoRunsUnchanged(CollapseSpaces(s));
  }

  /** A string whose only whitespace is single spaces is its own collapse. */
  lemma {:induction false} NoRunsUnchanged(s: seq<char>)
    requires forall k | 0 <= k < |s| :: IsSpace(s[k]) ==> s[k] == ' '
    requires forall k | 0 <= k < |s| - 1 :: !(IsSpace(s[k]) && IsSpace(s[k + 1]))
    ensures CollapseSpaces(s) == s
  {
    if s != [] {
      NoRunsUnchanged(s[1..]);
    }
  }

  /** The repository's cases: a run of mixed whitespace becomes one space, and runs around words shrink to one. */
  lemma CollapseSpacesExamples()
    ensures CollapseSpaces(" \n\t") == " "
    ensures CollapseSpaces("  hello world  ") == " hello world "
  {
    var r := " \n\t";
    CollapseSpacesStep(r);
    CollapseSpacesStep(r[1..]);
    CollapseSpacesStep(r[2..]);
    assert r[1..][1..] == r[2..] && r[2..][1..] == [];
    var w1, w2 := "hello", "world";
    CollapseSpaced(w2, "  ");
    CollapseSpacesStep("  ");
    assert "  "[1..] == " ";
    CollapseSpaced(w1, [' '] + w2 + "  ");
    HelloWorldParts();
  }

  /** The two strings of CollapseSpacesExamples, as a space, a word, a space, a word and spaces. */
  lemma HelloWorldParts()
    ensures "  hello world  " == [' '] + ([' '] + "hello" + ([' '] + "world" + "  "))
    ensures " hello world " == [' '] + "hello" + ([' '] + "world" + " ")
  {
  }

  /** A single space before a word is kept, and so is the word. */
  lemma CollapseSpaced(w: seq<char>, t: seq<char>)
    requires w != [] && forall k | 0 <= k < |w| :: !IsSpace(w[k])
    ensures CollapseSpaces([' '] + w + t) == [' '] + w + CollapseSpaces(t)
  {
    CollapseSpacesStep([' '] + w + t);
    assert ([' '] + w + t)[1..] == w + t;
    CollapseWord(w, t);
  }

  /** The characters of a word are copied as they are. */
  lemma {:induction false} CollapseWord(w: seq<char>, t: seq<char>)
    requires forall k | 0 <= k < |w| :: !IsSpace(w[k])
    ensures CollapseSpaces(w + t) == w + CollapseSpaces(t)
  {
    if w != [] {
      CollapseSpacesStep(w + t);
      assert (w + t)[1..] == w[1..] + t;
      CollapseWord(w[1..], t);
      Regroup([w[0]], w[1..], CollapseSpaces(t));
      assert w == [w[0]] + w[1..];
    } else {
      assert w + t == t;
    }
  }

  /** One step of CollapseSpaces on a non-empty string. */
  lemma CollapseSpacesStep(u: seq<char>)
    requires u != []
    ensures IsSpace(u[0]) && |u| > 1 && IsSpace(u[1]) ==> CollapseSpaces(u) == CollapseSpaces(u[1..])
    ensures !(IsSpace(u[0]) && |u| > 1 && IsSpace(u[1])) ==>
      CollapseSpaces(u) == [if IsSpace(u[0]) then ' ' else u[0]] + CollapseSpaces(u[1..])
  {
  }

  /** The inner loop of str_removeMultipleSpaces: a whitespace followed by whitespace is skipped. */
  lemma CollapseSkip(t: seq<char>, i: nat)
    requires i + 1 < |t| && IsSpace(t[i]) && IsSpace(t[i + 1])
    ensures CollapseSpaces(t[i..]) == CollapseSpaces(t[i + 1..])
  {
    CollapseSpacesStep(t[i..]);
    assert t[i..][1..] == t[i + 1..];
  }

  /** One turn of the str_removeMultipleSpaces loop keeps the collapsed output on track. */
  lemma CollapseAdvance(t: seq<char>, from: nat, i: nat, written: seq<char>)
    requires from <= i < |t| && !(IsSpace(t[i]) && i + 1 < |t| && IsSpace(t[i + 1]))
    requires CollapseSpaces(t[i..]) == CollapseSpaces(t[from..])
    requires written + CollapseSpaces(t[from..]) == CollapseSpaces(t)
    ensures (written + [if IsSpace(t[i]) then ' ' else t[i]]) + CollapseSpaces(t[i + 1..]) == CollapseSpaces(t)
  {
    CollapseEmit(t, i, written);
  }

  /** The write of str_removeMultipleSpaces: the character at i, whitespace as ' ', comes next. */
  lemma CollapseEmit(t: seq<char>, i: nat, written: seq<char>)
    requires i < |t| && !(IsSpace(t[i]) && i + 1 < |t| && IsSpace(t[i + 1]))
    ensures written + CollapseSpaces(t[i..])
         == (written + [if IsSpace(t[i]) then ' ' else t[i]]) + CollapseSpaces(t[i + 1..])
  {
    CollapseSpacesStep(t[i..]);
    assert t[i..][1..] == t[i + 1..];
  }

  /**
   * The inner loop of str_removeMultipleSpaces: past every whitespace that
   * another whitespace follows, which leaves the collapse of the rest unchanged.
   */
  method SkipSpaceRun(source: seq<char>, length: nat, from: nat) returns (i: nat)
    requires from < length <= |source|
    ensures from <= i < length
    ensures !(IsSpace(source[i]) && i + 1 != length && IsSpace(source[i + 1]))
    ensures CollapseSpaces(source[..length][i..]) == CollapseSpaces(source[..length][from..])
  {
    ghost var t := source[..length];
    i := from;
    while i != length && IsSpace(source[i]) && i + 1 != length && IsSpace(source[i + 1])
      invariant from <= i < length
      invariant CollapseSpaces(t[i..]) == CollapseSpaces(t[from..])
    {
      CollapseSkip(t, i);
      i := i + 1;
    }
  }

  /**
   * str_removeMultipleSpaces: writes the collapse of the first `length`
   * characters of source (NUL characters included: the loop only stops at
   * `length`) into dest, terminates it with NUL and returns its length.
   */
  method RemoveMultipleSpaces(dest: array<char>, source: seq<char>, length: nat) returns (count: nat)
    requires length <= |source|
    requires |CollapseSpaces(source[..length])| < dest.Length
    modifies dest
    ensures count == |CollapseSpaces(source[..length])|
    ensures dest[..count] == CollapseSpaces(source[..length])
    ensures dest[count] == '\0'
    ensures forall k | count < k < dest.Length :: dest[k] == old(dest[k])
  {
    ghost var t := source[..length];
    ghost var written: seq<char> := [];
    var i := 0;
    count := 0;
    while i != length
      invariant i <= length
      invariant count == |written| < dest.Length
      invariant dest[..count] == written
      invariant written + CollapseSpaces(t[i..]) == CollapseSpaces(t)
      invariant forall k | count <= k < dest.Length :: dest[k] == old(dest[k])
    {
      ghost var from := i;
      i := SkipSpaceRun(source, length, i);
      var c := if IsSpace(source[i]) then ' ' else source[i];
      CollapseAdvance(t, from, i, written);
      dest[count] := c;
      assert dest[..count + 1] == dest[..count] + [c];
      written := written + [c];
      count := count + 1;
      i := i + 1;
    }
    assert t[i..] == [];
    dest[count] := '\0';
  }

  // ---------------------------------------------------------------------------
  // str_splitItems
  // ---------------------------------------------------------------------------

  /** The length of the longest prefix of s free of c: the index of the first c, or |s|. */
  function Span(s: seq<char>, c: char): (n: nat)
    ensures n <= |s| && c !in s[..n]
    ensures n < |s| ==> s[n] == c
  {
    if s == [] || s[0] == c then 0
    else
      assert s[..1 + Span(s[1..], c)] == [s[0]] + s[1..][..Span(s[1..], c)];
      1 + Span(s[1..], c)
  }

  /** Any index with the properties of Span is Span. */
  lemma SpanUnique(s: seq<char>, c: char, k: nat)
    requires k <= |s| && c !in s[..k] && (k < |s| ==> s[k] == c)
    ensures Span(s, c) == k
  {
  }

  /**
   * The items of s: the maximal non-empty runs of characters other than sep,
   * in order. An empty run (two separators in a row, or one at either end)
   * yields no item.
   */
  function SplitOn(s: seq<char>, sep: char): (items: seq<seq<char>>)
    decreases |s|
  {
    var n := Span(s, sep);
    if n == |s| then (if s == [] then [] else [s])
    else (if n == 0 then [] else [s[..n]]) + SplitOn(s[n + 1..], sep)
  }

  /** SplitOn on a string whose first separator is at index k. */
  lemma SplitOnStep(u: seq<char>, sep: char, k: nat)
    requires k < |u| && u[k] == sep && sep !in u[..k]
    ensures SplitOn(u, sep) == (if k == 0 then [] else [u[..k]]) + SplitOn(u[k + 1..], sep)
  {
    SpanUnique(u, sep, k);
  }

  /** A non-empty string without the separator is a single item. */
  lemma SplitOnSingle(u: seq<char>, sep: char)
    requires u != [] && sep !in u
    ensures SplitOn(u, sep) == [u]
  {
    SpanUnique(u, sep, |u|);
  }

  /** Every item is non-empty and free of the separator. */
  lemma {:induction false} SplitOnItems(s: seq<char>, sep: char)
    ensures forall i | 0 <= i < |SplitOn(s, sep)| :: SplitOn(s, sep)[i] != [] && sep !in SplitOn(s, sep)[i]
    decreases |s|
  {
    var n := Span(s, sep);
    if n < |s| {
      SplitOnItems(s[n + 1..], sep);
    }
  }

  /** The concatenation of the items of s, with no separators in between. */
  function Flatten(xs: seq<seq<char>>): seq<char> {
    if xs == [] then [] else xs[0] + Flatten(xs[1..])
  }

  /** s without its occurrences of c. */
  function Without(s: seq<char>, c: char): (r: seq<char>)
    ensures c !in r
  {
    if s == [] then [] else (if s[0] == c then [] else [s[0]]) + Without(s[1..], c)
  }

  lemma {:induction false} WithoutAppend(a: seq<char>, b: seq<char>, c: char)
    ensures Without(a + b, c) == Without(a, c) + Without(b, c)
  {
    if a == [] {
      assert a + b == b;
    } else {
      assert (a + b)[0] == a[0];
      assert (a + b)[1..] == a[1..] + b;
      WithoutAppend(a[1..], b, c);
      var h := if a[0] == c then [] else [a[0]];
      calc {
        Without(a + b, c);
        h + Without(a[1..] + b, c);
        h + (Without(a[1..], c) + Without(b, c));
        (h + Without(a[1..], c)) + Without(b, c);
      }
    }
  }

  lemma {:induction false} WithoutAbsent(s: seq<char>, c: char)
    requires c !in s
    ensures Without(s, c) == s
  {
    if s != [] {
      WithoutAbsent(s[1..], c);
    }
  }

  lemma FlattenCons(x: seq<char>, ys: seq<seq<char>>)
    ensures Flatten([x] + ys) == x + Flatten(ys)
  {
    assert ([x] + ys)[1..] == ys;
  }

  /** Removing the separators from a string whose first separator is at index k. */
  lemma WithoutAtSeparator(s: seq<char>, sep: char, k: nat)
    requires k < |s| && s[k] == sep && sep !in s[..k]
    ensures Without(s, sep) == s[..k] + Without(s[k + 1..], sep)
  {
    var pre, rest := s[..k], s[k + 1..];
    assert s == pre + ([sep] + rest);
    WithoutAppend(pre, [sep] + rest, sep);
    WithoutAbsent(pre, sep);
    assert ([sep] + rest)[1..] == rest;
  }

  /** No character other than the separator is lost or reordered by splitting. */
  lemma {:induction false} SplitOnKeepsText(s: seq<char>, sep: char)
    ensures Flatten(SplitOn(s, sep)) == Without(s, sep)
    decreases |s|
  {
    if s != [] {
      if sep !in s {
        WithoutAbsent(s, sep);
        SplitOnSingle(s, sep);
      } else {
        var k := Span(s, sep);
        SplitOnKeepsText(s[k + 1..], sep);
        WithoutAtSeparator(s, sep, k);
        SplitOnStep(s, sep, k);
        if k != 0 {
          FlattenCons(s[..k], SplitOn(s[k + 1..], sep));
        } else {
          assert SplitOn(s, sep) == SplitOn(s[k + 1..], sep);
          assert Without(s, sep) == Without(s[k + 1..], sep);
        }
      }
    }
  }

  /** The items joined with one separator between consecutive ones. */
  function Join(xs: seq<seq<char>>, sep: char): seq<char> {
    if xs == [] then [] else if |xs| == 1 then xs[0] else xs[0] + [sep] + Join(xs[1..], sep)
  }

  /** Splitting undoes joining when the items are non-empty and separator-free. */
  lemma {:induction false} SplitOnJoin(xs: seq<seq<char>>, sep: char)
    requires forall i | 0 <= i < |xs| :: xs[i] != [] && sep !in xs[i]
    ensures SplitOn(Join(xs, sep), sep) == xs
  {
    if |xs| == 1 {
      SplitOnSingle(xs[0], sep);
    } else if |xs| > 1 {
      var s := Join(xs, sep);
      var x := xs[0];
      assert s == x + [sep] + Join(xs[1..], sep);
      assert s[|x|] == sep && s[..|x|] == x;
      SplitOnStep(s, sep, |x|);
      assert s[|x| + 1..] == Join(xs[1..], sep);
      SplitOnJoin(xs[1..], sep);
    }
  }

  /** The repository's case: separators at either end and in a row yield no item, and spaces are kept. */
  lemma SplitOnExample(s: seq<char>)
    requires s == ",hello,world,,,  "
    ensures SplitOn(s, ',') == ["hello", "world", "  "]
  {
    CommaParts();
    SplitTwoWords("hello", "world", "  ", ',');
  }

  /** Leading, doubled and tripled separators give no empty piece between two words and a tail. */
  lemma SplitTwoWords(h: seq<char>, w: seq<char>, sp: seq<char>, sep: char)
    requires h != [] && w != [] && sp != [] && sep !in h && sep !in w && sep !in sp
    ensures SplitOn([sep] + (h + [sep] + (w + [sep] + ([sep] + ([sep] + sp)))), sep) == [h, w, sp]
  {
    var t3 := w + [sep] + ([sep] + ([sep] + sp));
    var u := h + [sep] + t3;
    SplitWordTail(w, sp, sep);
    SplitOnWord(h, t3, sep);
    SplitOnLead(u, sep);
    assert SplitOn([sep] + u, sep) == [h] + [w, sp] == [h, w, sp];
  }

  /** A word, three separators and a tail split into the word and the tail. */
  lemma SplitWordTail(w: seq<char>, sp: seq<char>, sep: char)
    requires w != [] && sp != [] && sep !in w && sep !in sp
    ensures SplitOn(w + [sep] + ([sep] + ([sep] + sp)), sep) == [w, sp]
  {
    var t1 := [sep] + sp;
    SplitOnSingle(sp, sep);
    SplitOnLead(sp, sep);
    SplitOnLead(t1, sep);
    SplitOnWord(w, [sep] + t1, sep);
    assert [w] + [sp] == [w, sp];
  }

  /** The string of SplitOnExample, as separators, words and trailing spaces. */
  lemma CommaParts()
    ensures ",hello,world,,,  " == [','] + ("hello" + [','] + ("world" + [','] + ([','] + ([','] + "  "))))
  {
  }

  /** A leading separator yields no item. */
  lemma SplitOnLead(t: seq<char>, sep: char)
    ensures SplitOn([sep] + t, sep) == SplitOn(t, sep)
  {
    SplitOnStep([sep] + t, sep, 0);
    assert ([sep] + t)[1..] == t;
  }

  /** A non-empty run before a separator is the first item. */
  lemma SplitOnWord(w: seq<char>, t: seq<char>, sep: char)
    requires w != [] && sep !in w
    ensures SplitOn(w + [sep] + t, sep) == [w] + SplitOn(t, sep)
  {
    var u := w + [sep] + t;
    assert u[..|w|] == w && u[|w|] == sep;
    SplitOnStep(u, sep, |w|);
    assert u[|w| + 1..] == t;
  }

  /** memchr over source[from..limit]: the absolute index of the first c there, if any. */
  function MemChr(source: seq<char>, from: nat, limit: nat, c: char): (r: Option<nat>)
    requires from <= limit <= |source|
    ensures r.Some? ==> from <= r.value < limit
    decreases limit - from
  {
    if from == limit then None
    else if source[from] == c then Some(from)
    else MemChr(source, from + 1, limit, c)
  }

  /** memchr finds the first c of source[from..limit], and reports none only when there is none. */
  lemma {:induction false} MemChrMeaning(source: seq<char>, from: nat, limit: nat, c: char)
    requires from <= limit <= |source|
    ensures MemChr(source, from, limit, c).None? ==> c !in source[from..limit]
    ensures (match MemChr(source, from, limit, c)
             case Some(i) => source[i] == c && c !in source[from..i]
             case None => true)
    decreases limit - from
  {
    if from < limit && source[from] != c {
      MemChrMeaning(source, from + 1, limit, c);
      assert source[from..limit] == [source[from]] + source[from + 1..limit];
      match MemChr(source, from + 1, limit, c)
      case Some(i) =>
        assert source[from..i] == [source[from]] + source[from + 1..i];
      case None =>
    }
  }

  /** A hit of MemChr is the first occurrence at or after `from`. */
  lemma MemChrFound(source: seq<char>, from: nat, limit: nat, c: char, at: nat)
    requires from <= limit <= |source| && MemChr(source, from, limit, c) == Some(at)
    ensures from <= at < limit && source[at] == c && c !in source[from..at]
  {
    MemChrMeaning(source, from, limit, c);
  }

  /** A miss of MemChr means the range holds no `c`. */
  lemma MemChrMissed(source: seq<char>, from: nat, limit: nat, c: char)
    requires from <= limit <= |source| && MemChr(source, from, limit, c).None?
    ensures c !in source[from..limit]
  {
    MemChrMeaning(source, from, limit, c);
  }

  /** SplitOn of the suffix of t from `from`, when the next separator is at `at`. */
  lemma SplitOnSuffix(t: seq<char>, sep: char, from: nat, at: nat)
    requires from <= at < |t| && t[at] == sep && sep !in t[from..at]
    ensures SplitOn(t[from..], sep) == (if at == from then [] else [t[from..at]]) + SplitOn(t[at + 1..], sep)
  {
    var u, k := t[from..], at - from;
    SuffixSlices(t, from, at);
    SplitOnStep(u, sep, k);
    SplitOnSame(u[k + 1..], t[at + 1..], sep);
  }

  /** The slices of a suffix, as slices of the whole. */
  lemma SuffixSlices<T>(t: seq<T>, from: nat, at: nat)
    requires from <= at < |t|
    ensures t[from..][..at - from] == t[from..at] && t[from..][at - from + 1..] == t[at + 1..]
    ensures t[from..][at - from] == t[at]
  {
  }

  /** Equal strings split alike. */
  lemma SplitOnSame(a: seq<char>, b: seq<char>, sep: char)
    requires a == b
    ensures SplitOn(a, sep) == SplitOn(b, sep)
  {
  }

  /** SplitOn of a suffix of t free of the separator. */
  lemma SplitOnTail(t: seq<char>, sep: char, from: nat)
    requires from <= |t| && sep !in t[from..]
    ensures SplitOn(t[from..], sep) == if from == |t| then [] else [t[from..]]
  {
    if from < |t| {
      SplitOnSingle(t[from..], sep);
    } else {
      assert t[from..] == [];
    }
  }

  /** Concatenation regrouped. */
  lemma Regroup<T>(a: seq<T>, b: seq<T>, c: seq<T>)
    ensures a + (b + c) == (a + b) + c
  {
  }

  /** One iteration of the str_splitItems loop: the separator at `at` ends the run from `cur`. */
  lemma SplitItemsStep(source: seq<char>, length: nat, items: seq<seq<char>>, items': seq<seq<char>>, sep: char, cur: nat, at: nat)
    requires cur < length <= |source| && MemChr(source, cur, length, sep) == Some(at)
    requires items' == items + (if at == cur then [] else [source[cur..at]])
    ensures items + SplitOn(source[..length][cur..], sep) == items' + SplitOn(source[..length][at + 1..], sep)
  {
    MemChrFound(source, cur, length, sep, at);
    var rest := SplitOn(source[..length][at + 1..], sep);
    SplitItemsRun(source, length, sep, cur, at);
    if at != cur {
      Regroup(items, [source[cur..at]], rest);
    }
  }

  /** The items from `cur` when the first separator from there is at `at`. */
  lemma SplitItemsRun(source: seq<char>, length: nat, sep: char, cur: nat, at: nat)
    requires cur <= at < length <= |source| && source[at] == sep && sep !in source[cur..at]
    ensures SplitOn(source[..length][cur..], sep)
         == (if at == cur then [] else [source[cur..at]]) + SplitOn(source[..length][at + 1..], sep)
  {
    var t := source[..length];
    assert t[cur..at] == source[cur..at];
    SplitOnSuffix(t, sep, cur, at);
  }

  /** After the str_splitItems loop: the rest, if any, is one item. */
  lemma SplitItemsTail(source: seq<char>, length: nat, items: seq<seq<char>>, sep: char, cur: nat)
    requires cur <= length <= |source|
    requires cur < length ==> MemChr(source, cur, length, sep).None?
    ensures items + SplitOn(source[..length][cur..], sep)
         == items + (if cur < length then [source[cur..length]] else [])
  {
    if cur < length {
      MemChrMissed(source, cur, length, sep);
    }
    var t := source[..length];
    assert t[cur..] == source[cur..length];
    SplitOnTail(t, sep, cur);
  }

  /**
   * str_splitItems: appends the items of the first `length` characters of
   * source to the list and returns how many were appended.
   */
  method SplitItems(source: seq<char>, length: nat, itemList: seq<seq<char>>, separator: char)
    returns (appended: int, items: seq<seq<char>>)
    requires length <= |source|
    ensures items == itemList + SplitOn(source[..length], separator)
    ensures appended == |items| - |itemList|
  {
    ghost var t := source[..length];
    ghost var goal := itemList + SplitOn(t, separator);
    items := itemList;
    var currentPos := 0;
    assert t[currentPos..] == t;
    var found := if currentPos < length then MemChr(source, currentPos, length, separator) else None;
    while found.Some?
      invariant currentPos <= length
      invariant found == if currentPos < length then MemChr(source, currentPos, length, separator) else None
      invariant items + SplitOn(t[currentPos..], separator) == goal
      decreases length - currentPos
    {
      items, currentPos, found := SplitItemsNext(source, length, items, separator, currentPos, found.value);
    }
    SplitItemsTail(source, length, items, separator, currentPos);
    if currentPos < length {
      items := items + [source[currentPos..length]];
    }
    appended := |items| - |itemList|;
  }

  /** One turn of the str_splitItems loop: take the item before the separator found at `at`. */
  method SplitItemsNext(source: seq<char>, length: nat, items: seq<seq<char>>, separator: char, cur: nat, at: nat)
    returns (items': seq<seq<char>>, next: nat, found: Option<nat>)
    requires cur < length <= |source| && MemChr(source, cur, length, separator) == Some(at)
    ensures next <= length && length - next < length - cur
    ensures found == if next < length then MemChr(source, next, length, separator) else None
    ensures items + SplitOn(source[..length][cur..], separator) == items' + SplitOn(source[..length][next..], separator)
  {
    var itemLength := at - cur;
    items' := items;
    if itemLength > 0 {
      items' := items + [source[cur..at]];
    }
    SplitItemsStep(source, length, items, items', separator, cur, at);
    next := at + 1;
    found := if next < length then MemChr(source, next, length, separator) else None;
  }

}
