/**
 * Token declarations (formal_grammar.c): fg_extractToken reads the items that
 * follow a token's name through the shared list iterator and fills a token
 * structure field by field; fg_freeToken releases what it filled. The item
 * list is a sequence of texts and the iterator the index of the next item.
 */
module FormalGrammar {
  import opened Options
  import opened CType
  import opened Errors
  import opened LexRanges
  import opened ParserItems

  /** fg_TokenType; enumerator 0, what a zeroed token holds, is FG_RANGE_TOKEN. */
  datatype TokenKind = RangeToken | RefToken | StringToken

  /**
   * fg_RefToken: the item naming the token referred to, and the link to it
   * once resolved, as the key of the token in the grammar's table.
   */
  datatype Reference = Reference(symbol: StringItem, link: Option<string>)

  /**
   * The fields of a token as values: its type, its name (NULL until the
   * extraction succeeds), the text of a string token, the ranges of a range
   * token and their number, and what a reference token refers to.
   */
  datatype TokenData = TokenData(kind: TokenKind, name: Option<string>, str: Option<string>,
                                 ranges: Option<seq<LexRange>>, rangesNumber: int, ref: Option<Reference>)

  /** A token as `memset(token, 0, ...)` leaves it. */
  const ZERO_TOKEN: TokenData := TokenData(RangeToken, None, None, None, 0, None)

  /** fg_Token: the structure fg_extractToken fills in place. */
  class Token {
    var kind: TokenKind
    var name: Option<string>
    var str: Option<string>
    var ranges: Option<array<LexRange>>
    var rangesNumber: int
    var ref: Option<Reference>

    /** A zeroed token, as the callers allocate it. */
    constructor Zeroed()
      ensures Data() == ZERO_TOKEN
    {
      kind, name, str, ranges, rangesNumber, ref := RangeToken, None, None, None, 0, None;
    }

    /** The token's fields, the ranges array read as its contents. */
    function Data(): TokenData
      reads this, if ranges.Some? then {ranges.value} else {}
    {
      TokenData(kind, name, str, if ranges.Some? then Some(ranges.value[..]) else None, rangesNumber, ref)
    }
  }

  /** The outcome of fg_extractToken: its return value, where the iterator stops, and the token's fields. */
  datatype TokenStep = TokenStep(code: int, next: nat, token: TokenData)

  /** The return value FG_OK. */
  const OK: int := Ok.Value()

  /**
   * A string block value is at least its two backticks: fg_extractToken copies
   * strlen - 2 characters, so a lone backtick is out of its domain.
   */
  predicate ValueFits(items: seq<string>, pos: nat) {
    pos + 1 < |items| && Head(items[pos + 1]) == '`' ==> |items[pos + 1]| >= 2
  }

  /** Every range of rs with its quantifier set to q. */
  function Quantified(rs: seq<LexRange>, q: Quantifier): (qs: seq<LexRange>)
    ensures |qs| == |rs|
    ensures forall i | 0 <= i < |rs| :: qs[i] == rs[i].(quantifier := q)
  {
    seq(|rs|, i requires 0 <= i < |rs| => rs[i].(quantifier := q))
  }

  /**
   * The quantifier fg_extractToken writes into every range for the item that
   * ends the value: `+` and `?` give theirs; anything else leaves the local at
   * -1, and since lex_RangeQuantifier has no negative enumerator the `>= 0`
   * test holds all the same and that value is written.
   */
  function QuantifierOf(end: string): Quantifier {
    if Head(end) == '+' then Plus else if Head(end) == '?' then QMark else Unset
  }

  /**
   * The end of a token after its value, from item p on: `+`, `?` or `;` ends
   * it (the `;` after a quantifier is not consumed); any other item must be
   * followed by `;`. On success the quantifier goes on every range and the
   * name is copied.
   */
  function EndStep(items: seq<string>, p: nat, tokenName: string, t: TokenData): (r: TokenStep)
    requires p <= |items|
    ensures p <= r.next <= |items|
    ensures r.code != OK ==> r.token == t
    ensures r.code == OK ==> r.token.name == Some(tokenName)
  {
    if p == |items| then TokenStep(TokenMissingEnd.Value(), p, t)
    else
      var c := Head(items[p]);
      if c != '+' && c != '?' && c != ';' && (p + 1 == |items| || Head(items[p + 1]) != ';') then
        TokenStep(TokenMissingEnd.Value(), if p + 1 == |items| then p + 1 else p + 2, t)
      else
        var next := if c == '+' || c == '?' || c == ';' then p + 1 else p + 2;
        var rs := if t.ranges.Some? && t.rangesNumber == |t.ranges.value|
                  then Some(Quantified(t.ranges.value, QuantifierOf(items[p]))) else t.ranges;
        TokenStep(OK, next, t.(ranges := rs, name := Some(tokenName)))
  }

  /**
   * fg_extractToken with the iterator at item pos, just after the token's
   * name: `=`, then a value (a string block or a bracketed range list), then
   * the end. Each item looked at is consumed. Returns an FG code, or -1 when
   * the range list yields no range.
   */
  function ExtractTokenStep(items: seq<string>, pos: nat, tokenName: string, t: TokenData): (r: TokenStep)
    requires pos <= |items| && ValueFits(items, pos)
    ensures pos <= r.next <= |items|
    ensures r.code != OK ==> r.token.name == t.name
    ensures r.code == OK ==> r.token.name == Some(tokenName)
  {
    if pos == |items| then TokenStep(TokenInvalid.Value(), pos, t)
    else if Head(items[pos]) != '=' then TokenStep(TokenInvalid.Value(), pos + 1, t)
    else if pos + 1 == |items| then TokenStep(TokenMissingValue.Value(), pos + 1, t)
    else
      var v := items[pos + 1];
      if Head(v) == ';' then TokenStep(TokenMissingValue.Value(), pos + 2, t)
      else if Head(v) == '`' then
        EndStep(items, pos + 2, tokenName, t.(kind := StringToken, str := Some(v[1..|v| - 1])))
      else if Head(v) == '[' then
        // a lone "[" makes strlen - 2 wrap around; the allocation of that size fails and -1 comes back
        var (n, rs) := RangeList(v);
        if n <= 0 then TokenStep(-1, pos + 2, t.(kind := RangeToken))
        else EndStep(items, pos + 2, tokenName, t.(kind := RangeToken, ranges := rs, rangesNumber := n))
      else TokenStep(TokenUnknownValueType.Value(), pos + 2, t)
  }

  /**
   * lex_extractRanges on the text between the brackets of the range list v
   * (strlen - 2 characters from v + 1); a lone "[" makes that length wrap
   * around, its allocation fails and -1 comes back.
   */
  function RangeList(v: string): (r: (int, Option<seq<LexRange>>))
    requires Head(v) == '['
    ensures r.0 > 0 <==> r.1.Some?
    ensures r.1.Some? ==> r.0 == |r.1.value|
  {
    if |v| < 2 then (-1, None) else ExtractRangesResult(v[1..], |v| - 2)
  }

  /** The range list read into fresh storage, as RangeList describes it. */
  method ReadRangeList(v: string) returns (n: int, stored: Option<array<LexRange>>)
    requires Head(v) == '['
    ensures n == RangeList(v).0
    ensures stored.None? <==> RangeList(v).1.None?
    ensures stored.Some? ==> fresh(stored.value) && stored.value[..] == RangeList(v).1.value
  {
    if |v| < 2 {
      n, stored := -1, None;
    } else {
      n, stored := ExtractRanges(v[1..], |v| - 2);
    }
  }

  /** Sets the quantifier of the first n ranges of the token's array. */
  method SetQuantifier(ranges: array<LexRange>, n: int, q: Quantifier)
    requires n == ranges.Length
    modifies ranges
    ensures ranges[..] == Quantified(old(ranges[..]), q)
  {
    var i := 0;
    while i < n
      invariant 0 <= i <= n
      invariant forall k | 0 <= k < i :: ranges[k] == old(ranges[k]).(quantifier := q)
      invariant forall k | i <= k < n :: ranges[k] == old(ranges[k])
    {
      ranges[i] := ranges[i].(quantifier := q);
      i := i + 1;
    }
  }

  /** The end of the token, as EndStep describes it. */
  method ExtractEnd(token: Token, items: seq<string>, p: nat, tokenName: string) returns (code: int, next: nat)
    requires p <= |items|
    requires token.ranges.Some? ==> token.rangesNumber == token.ranges.value.Length
    requires token.ranges.None? ==> token.rangesNumber == 0
    modifies token, if token.ranges.Some? then {token.ranges.value} else {}
    ensures var r := EndStep(items, p, tokenName, old(token.Data()));
            code == r.code && next == r.next && token.Data() == r.token
  {
    if p == |items| {
      return TokenMissingEnd.Value(), p;
    }
    var c := Head(items[p]);
    next := p + 1;
    var quantifier := Unset;
    if c == '+' {
      quantifier := Plus;
    } else if c == '?' {
      quantifier := QMark;
    } else if c != ';' {
      // expectCharFromIt(it, ';', FG_TOKEN_MISSING_END)
      if next == |items| {
        return TokenMissingEnd.Value(), next;
      }
      next := next + 1;
      if Head(items[p + 1]) != ';' {
        return TokenMissingEnd.Value(), next;
      }
    }
    if token.ranges.Some? {
      SetQuantifier(token.ranges.value, token.rangesNumber, quantifier);
    }
    token.name := Some(tokenName);
    code := OK;
  }

  /**
   * fg_extractToken: reads the token after its name from the items at pos
   * on, into a token whose ranges are not yet set (the callers pass a zeroed
   * one), and returns the code and the iterator's new position.
   */
  method ExtractToken(token: Token, items: seq<string>, pos: nat, tokenName: string) returns (code: int, next: nat)
    requires pos <= |items| && ValueFits(items, pos)
    requires token.ranges.None? && token.rangesNumber == 0
    modifies token
    ensures var r := ExtractTokenStep(items, pos, tokenName, old(token.Data()));
            code == r.code && next == r.next && token.Data() == r.token
  {
    // expectCharFromIt(it, '=', FG_TOKEN_INVALID)
    if pos == |items| {
      return TokenInvalid.Value(), pos;
    }
    if Head(items[pos]) != '=' {
      return TokenInvalid.Value(), pos + 1;
    }
    if pos + 1 == |items| {
      return TokenMissingValue.Value(), pos + 1;
    }
    var tokenValue := items[pos + 1];
    if Head(tokenValue) == ';' {
      return TokenMissingValue.Value(), pos + 2;
    }
    if Head(tokenValue) == '`' {
      token.kind := StringToken;
      token.str := Some(tokenValue[1..|tokenValue| - 1]);
    } else if Head(tokenValue) == '[' {
      token.kind := RangeToken;
      var extractedRanges, stored := ReadRangeList(tokenValue);
      if extractedRanges <= 0 {
        return -1, pos + 2;
      }
      token.ranges := stored;
      token.rangesNumber := extractedRanges;
    } else {
      return TokenUnknownValueType.Value(), pos + 2;
    }
    code, next := ExtractEnd(token, items, pos + 2, tokenName);
  }

  /** fg_freeToken: name, string and ranges released and nulled, no range left. */
  method FreeToken(token: Token?)
    modifies token
    ensures token != null ==> token.name.None? && token.str.None? && token.ranges.None? && token.rangesNumber == 0
    ensures token != null ==> token.kind == old(token.kind) && token.ref == old(token.ref)
  {
    if token != null {
      token.name, token.str := None, None;
      token.ranges := None;
      token.rangesNumber := 0;
    }
  }

  // ---------------------------------------------------------------------------
  // Properties of the token extraction
  // ---------------------------------------------------------------------------

  /** What a token declaration says after its name: a value and how it ends. */
  datatype TokenValue = StringValue(text: string) | RangesValue(text: string)
  datatype TokenEnd = Semicolon | PlusEnd | QMarkEnd
  datatype TokenDecl = TokenDecl(value: TokenValue, end: TokenEnd)

  /** The item a value is written as: a string block, or a bracketed range list. */
  function ValueItem(v: TokenValue): string {
    match v
    case StringValue(s) => "`" + s + "`"
    case RangesValue(s) => "[" + s + "]"
  }

  function EndItem(e: TokenEnd): string {
    match e
    case Semicolon => ";"
    case PlusEnd => "+"
    case QMarkEnd => "?"
  }

  /** The items that follow a token's name in its declaration. */
  function Render(d: TokenDecl): seq<string> {
    ["=", ValueItem(d.value), EndItem(d.end)]
  }

  /** lex_extractRanges on the text between the brackets of a range list. */
  function RangesOf(s: string): (int, Option<seq<LexRange>>) {
    ExtractRangesResult(s + "]", |s|)
  }

  /** A declaration whose range list, if it has one, yields at least one range. */
  predicate Readable(d: TokenDecl) {
    d.value.RangesValue? ==> RangesOf(d.value.text).0 > 0
  }

  function QuantifierOfEnd(e: TokenEnd): Quantifier {
    match e
    case Semicolon => Unset
    case PlusEnd => Plus
    case QMarkEnd => QMark
  }

  /** The token a declaration describes. */
  function Declared(d: TokenDecl, name: string): TokenData
    requires Readable(d)
  {
    match d.value
    case StringValue(s) => TokenData(StringToken, Some(name), Some(s), None, 0, None)
    case RangesValue(s) =>
      var rs := RangesOf(s).1.value;
      TokenData(RangeToken, Some(name), None, Some(Quantified(rs, QuantifierOfEnd(d.end))), |rs|, None)
  }

  /**
   * Reading back a rendered declaration, whatever precedes and follows it,
   * gives the token it describes and stops right after its three items: the
   * `;` that follows a quantifier is left for the caller.
   */
  lemma TokenRoundTrip(before: seq<string>, d: TokenDecl, rest: seq<string>, name: string)
    requires Readable(d)
    ensures ValueFits(before + Render(d) + rest, |before|)
    ensures var r := ExtractTokenStep(before + Render(d) + rest, |before|, name, ZERO_TOKEN);
            r.code == OK && r.next == |before| + 3 && r.token == Declared(d, name)
  {
    var items := before + Render(d) + rest;
    var p := |before|;
    RenderedAt(before, d, rest);
    if d.value.StringValue? {
      StringDeclRead(items, p, d, name);
    } else {
      RangesDeclRead(items, p, d, name);
    }
  }

  /** The three rendered items sit right after `before`. */
  lemma RenderedAt(before: seq<string>, d: TokenDecl, rest: seq<string>)
    ensures var items, p := before + Render(d) + rest, |before|;
            && p + 3 <= |items|
            && items[p] == "=" && items[p + 1] == ValueItem(d.value) && items[p + 2] == EndItem(d.end)
  {
  }

  /** An end item is one of the three the end step accepts alone, and gives its quantifier. */
  lemma EndItemReads(e: TokenEnd)
    ensures Head(EndItem(e)) in {';', '+', '?'} && QuantifierOf(EndItem(e)) == QuantifierOfEnd(e)
  {
  }

  /** A rendered string declaration is read back. */
  lemma StringDeclRead(items: seq<string>, p: nat, d: TokenDecl, name: string)
    requires d.value.StringValue? && p + 3 <= |items|
    requires items[p] == "=" && items[p + 1] == ValueItem(d.value) && items[p + 2] == EndItem(d.end)
    ensures ValueFits(items, p)
    ensures var r := ExtractTokenStep(items, p, name, ZERO_TOKEN);
            r.code == OK && r.next == p + 3 && r.token == Declared(d, name)
  {
    var v := ValueItem(d.value);
    assert v[1..|v| - 1] == d.value.text;
    EndItemReads(d.end);
  }

  /** A rendered range declaration that yields ranges is read back. */
  lemma RangesDeclRead(items: seq<string>, p: nat, d: TokenDecl, name: string)
    requires d.value.RangesValue? && Readable(d) && p + 3 <= |items|
    requires items[p] == "=" && items[p + 1] == ValueItem(d.value) && items[p + 2] == EndItem(d.end)
    ensures ValueFits(items, p)
    ensures var r := ExtractTokenStep(items, p, name, ZERO_TOKEN);
            r.code == OK && r.next == p + 3 && r.token == Declared(d, name)
  {
    RenderedRangeList(d.value.text);
    EndItemReads(d.end);
  }

  /** The range list of a rendered declaration is the text between its brackets. */
  lemma RenderedRangeList(s: string)
    ensures Head("[" + s + "]") == '[' && RangeList("[" + s + "]") == RangesOf(s)
  {
    var v := "[" + s + "]";
    assert v[1..] == s + "]" && |v| - 2 == |s|;
  }

  /** The end step on a token with no name yet: the name set exactly on success, the ranges quantified. */
  lemma EndOutcome(items: seq<string>, p: nat, name: string, t: TokenData)
    requires p <= |items| && t.name.None?
    requires t.ranges.Some? ==> t.rangesNumber == |t.ranges.value|
    ensures var r := EndStep(items, p, name, t);
            && (r.code == OK <==> r.token.name == Some(name))
            && (r.code != OK ==> r.token == t)
            && (r.code == OK ==>
                  && (r.next == p + 1 || r.next == p + 2)
                  && r.token == t.(name := Some(name), ranges := r.token.ranges)
                  && (t.ranges.Some? ==> r.token.ranges == Some(Quantified(t.ranges.value, QuantifierOf(items[p])))))
  {
  }

  /**
   * The shape of every outcome, from a token with no name yet: the name is
   * set exactly when the extraction succeeds, and a failure leaves it NULL;
   * a success consumed `=`, the value and one or two end items.
   */
  lemma ExtractTokenOutcome(items: seq<string>, pos: nat, name: string, t: TokenData)
    requires pos <= |items| && ValueFits(items, pos)
    requires t.name.None? && t.ranges.None? && t.rangesNumber == 0
    ensures var r := ExtractTokenStep(items, pos, name, t);
            && (r.code == OK <==> r.token.name == Some(name))
            && (r.code != OK ==> r.token.name.None?)
            && (r.code == OK ==> (r.next == pos + 3 || r.next == pos + 4) && Head(items[pos]) == '=')
  {
    if pos + 1 < |items| && Head(items[pos]) == '=' {
      var v := items[pos + 1];
      if Head(v) == '`' {
        EndOutcome(items, pos + 2, name, t.(kind := StringToken, str := Some(v[1..|v| - 1])));
      } else if Head(v) == '[' {
        var (n, rs) := RangeList(v);
        if n > 0 {
          EndOutcome(items, pos + 2, name, t.(kind := RangeToken, ranges := rs, rangesNumber := n));
        }
      }
    }
  }

  /**
   * A range token that is read holds at least one range, all of them
   * carrying the quantifier of the item after the value.
   */
  lemma ExtractRangeTokenValue(items: seq<string>, pos: nat, name: string, t: TokenData)
    requires pos <= |items| && ValueFits(items, pos)
    requires t.name.None? && t.ranges.None? && t.rangesNumber == 0
    ensures var r := ExtractTokenStep(items, pos, name, t);
            r.code == OK && r.token.kind == RangeToken ==>
              && r.token.ranges.Some? && r.token.rangesNumber == |r.token.ranges.value| > 0
              && forall i | 0 <= i < r.token.rangesNumber ::
                   r.token.ranges.value[i].quantifier == QuantifierOf(items[pos + 2])
  {
    var r := ExtractTokenStep(items, pos, name, t);
    if r.code == OK && r.token.kind == RangeToken {
      RangeTokenRead(items, pos, name, t);
      var (n, rs) := RangeList(items[pos + 1]);
      var read := t.(kind := RangeToken, ranges := rs, rangesNumber := n);
      assert r == EndStep(items, pos + 2, name, read);
      EndOutcome(items, pos + 2, name, read);
    }
  }

  /** A range token comes only from `=` followed by a range list that yields ranges. */
  lemma RangeTokenRead(items: seq<string>, pos: nat, name: string, t: TokenData)
    requires pos <= |items| && ValueFits(items, pos)
    requires var r := ExtractTokenStep(items, pos, name, t); r.code == OK && r.token.kind == RangeToken
    ensures pos + 1 < |items| && Head(items[pos]) == '=' && Head(items[pos + 1]) == '['
    ensures RangeList(items[pos + 1]).0 > 0
  {
  }


  /** A string token that is read holds the text between the backticks of its value. */
  lemma ExtractStringTokenValue(items: seq<string>, pos: nat, name: string, t: TokenData)
    requires pos <= |items| && ValueFits(items, pos)
    requires t.name.None? && t.ranges.None? && t.rangesNumber == 0
    ensures var r := ExtractTokenStep(items, pos, name, t);
            r.code == OK && r.token.kind == StringToken ==>
              r.token.str == Some(items[pos + 1][1..|items[pos + 1]| - 1])
  {
    if pos + 1 < |items| && Head(items[pos]) == '=' && Head(items[pos + 1]) == '`' {
      var v := items[pos + 1];
      EndOutcome(items, pos + 2, name, t.(kind := StringToken, str := Some(v[1..|v| - 1])));
    }
  }

  /**
   * The repository's cases for fg_extractToken after a name: no value,
   * `=` missing, nothing after the name, a string token with a quantifier
   * (the final `;` left), and "`hello`" read as the string hello.
   */
  lemma TokenExamples(name: string)
    ensures ExtractTokenStep(["=", ";"], 0, name, ZERO_TOKEN).code == TokenMissingValue.Value()
    ensures ExtractTokenStep(["`FUNC`", ";"], 0, name, ZERO_TOKEN).code == TokenInvalid.Value()
    ensures ExtractTokenStep([], 0, name, ZERO_TOKEN).code == TokenInvalid.Value()
    ensures var r := ExtractTokenStep(["=", "`FUNC`", "+", ";"], 0, name, ZERO_TOKEN);
            r.code == OK && r.next == 3 && r.token.str == Some("FUNC") && r.token.kind == StringToken
    ensures var r := ExtractTokenStep(["=", "`hello`", ";"], 0, name, ZERO_TOKEN);
            r.code == OK && r.token == TokenData(StringToken, Some(name), Some("hello"), None, 0, None)
  {
    TokenRoundTrip([], TokenDecl(StringValue("FUNC"), PlusEnd), [";"], name);
    assert ValueItem(StringValue("FUNC")) == "`FUNC`";
    assert [] + Render(TokenDecl(StringValue("FUNC"), PlusEnd)) + [";"] == ["=", "`FUNC`", "+", ";"];
    TokenRoundTrip([], TokenDecl(StringValue("hello"), Semicolon), [], name);
    assert ValueItem(StringValue("hello")) == "`hello`";
    assert [] + Render(TokenDecl(StringValue("hello"), Semicolon)) + [] == ["=", "`hello`", ";"];
  }

  /**
   * A value that is neither a string block nor a range list is refused as
   * of unknown type, before the end is looked at: "FUNC" after `=` gives
   * FG_TOKEN_UNKNOWN_VALUE_TYPE, whatever follows.
   */
  lemma UnknownValueType(v: string, rest: seq<string>, name: string)
    requires Head(v) !in {';', '`', '['}
    ensures var r := ExtractTokenStep(["=", v] + rest, 0, name, ZERO_TOKEN);
            r.code == TokenUnknownValueType.Value() && r.next == 2 && r.token == ZERO_TOKEN
  {
    assert (["=", v] + rest)[1] == v;
  }
}
