/**
 * lex_parseGrammarItems (lexer.c): the older reader of the item list, over
 * plain strings. A declaration's name is its own item (no `%`); tokens are
 * read by fg_extractToken and, unlike prs_parseGrammarItems, a name that is
 * declared again replaces the earlier declaration.
 */
module LexerGrammar {
  import opened Options
  import opened CType
  import opened FormalGrammar
  import opened Errors
  import opened ParserItems
  import opened Grammars
  import opened Resolution

  /**
   * What lex_parseGrammarItems returns: LEXER_OK, its unknown-item code, or
   * the code of the reader that failed.
   */
  datatype LexStatus = LexParsed | LexUnknownItem | LexExtractError(code: int)

  /** Every string block item has its two backticks (fg_extractToken's domain). */
  predicate BlocksClosed(items: seq<string>) {
    forall i | 0 <= i < |items| :: Head(items[i]) == '`' ==> |items[i]| >= 2
  }

  /** The outcome and the tables reached. */
  datatype LexTables = LexTables(status: LexStatus, tokens: map<string, TokenData>, rules: map<string, Rule>)

  /**
   * lex_parseGrammarItems from item pos on: an item that does not start with
   * a letter stops the reading; an upper-case one is a token read by
   * fg_extractToken into a zeroed token, a lower-case one a rule read by the
   * rule reader re. A failed read stops the reading; a successful one is
   * stored under its name, replacing any earlier entry of that name.
   */
  function LexParse(items: seq<string>, pos: nat, tokens: map<string, TokenData>, rules: map<string, Rule>,
                    re: (seq<string>, nat, string) -> Extracted<Rule>): LexTables
    requires pos <= |items| && BlocksClosed(items) && Advances(re)
    decreases |items| - pos
  {
    if pos == |items| then LexTables(LexParsed, tokens, rules)
    else
      var item := items[pos];
      if !IsAlpha(Head(item)) then LexTables(LexUnknownItem, tokens, rules)
      else if IsUpper(Head(item)) then
        var r := ExtractTokenStep(items, pos + 1, item, ZERO_TOKEN);
        if r.code != OK then LexTables(LexExtractError(r.code), tokens, rules)
        else LexParse(items, r.next, tokens[item := r.token], rules, re)
      else
        var r := re(items, pos + 1, item);
        if r.code != OK then LexTables(LexExtractError(r.code), tokens, rules)
        else LexParse(items, r.next, tokens, rules[r.value.name := r.value], re)
  }

  /**
   * The token branch of lex_parseGrammarItems: a freshly zeroed fg_Token is
   * read from items[pos..], released on failure and inserted under its name
   * on success.
   */
  method LexTokenTurn(g: Grammar, items: seq<string>, pos: nat, item: string) returns (code: int, next: nat)
    requires pos <= |items| && ValueFits(items, pos)
    modifies g
    ensures var r := ExtractTokenStep(items, pos, item, ZERO_TOKEN);
            && code == r.code && next == r.next
            && g.tokens == (if code == OK then old(g.tokens)[item := r.token] else old(g.tokens))
            && g.rules == old(g.rules) && g.entry == old(g.entry)
  {
    var token := new Token.Zeroed();
    code, next := ExtractToken(token, items, pos, item);
    if code != OK {
      FreeToken(token);
      return;
    }
    ExtractTokenOutcome(items, pos, item, ZERO_TOKEN);
    g.tokens := g.tokens[token.name.value := token.Data()];
  }

  /**
   * lex_parseGrammarItems on grammar g: each token is read into a freshly
   * zeroed fg_Token, released on failure, and inserted under its name on
   * success. The tables end as LexParse says; the entry rule is not touched.
   */
  method LexParseGrammarItems(g: Grammar, items: seq<string>, re: (seq<string>, nat, string) -> Extracted<Rule>)
    returns (status: LexStatus)
    requires BlocksClosed(items) && Advances(re)
    modifies g
    ensures var r := LexParse(items, 0, old(g.tokens), old(g.rules), re);
            status == r.status && g.tokens == r.tokens && g.rules == r.rules && g.entry == old(g.entry)
  {
    ghost var whole := LexParse(items, 0, g.tokens, g.rules, re);
    var pos := 0;
    while pos < |items|
      invariant pos <= |items|
      invariant LexParse(items, pos, g.tokens, g.rules, re) == whole
      invariant g.entry == old(g.entry)
      decreases |items| - pos
    {
      var item := items[pos];
      pos := pos + 1;
      if !IsAlpha(Head(item)) {
        return LexUnknownItem;
      }
      if IsUpper(Head(item)) {
        // it should be a token
        var code, next := LexTokenTurn(g, items, pos, item);
        if code != OK {
          return LexExtractError(code);
        }
        pos := next;
      } else {
        // it should be a rule
        var r := re(items, pos, item);
        if r.code != OK {
          return LexExtractError(r.code);
        }
        g.rules := g.rules[r.value.name := r.value];
        pos := r.next;
      }
    }
    return LexParsed;
  }

  // ---------------------------------------------------------------------------
  // Properties of lex_parseGrammarItems
  // ---------------------------------------------------------------------------

  /** Whatever the outcome, every token and rule stays stored under its own name. */
  lemma {:induction false} LexKeyed(items: seq<string>, pos: nat, tokens: map<string, TokenData>, rules: map<string, Rule>,
                                    re: (seq<string>, nat, string) -> Extracted<Rule>)
    requires pos <= |items| && BlocksClosed(items) && Advances(re)
    requires KeyedByName(tokens, rules)
    ensures var r := LexParse(items, pos, tokens, rules, re);
            KeyedByName(r.tokens, r.rules)
    decreases |items| - pos
  {
    if pos < |items| && IsAlpha(Head(items[pos])) {
      var item := items[pos];
      if IsUpper(Head(item)) {
        var r := ExtractTokenStep(items, pos + 1, item, ZERO_TOKEN);
        if r.code == OK {
          ExtractTokenOutcome(items, pos + 1, item, ZERO_TOKEN);
          LexKeyed(items, r.next, tokens[item := r.token], rules, re);
        }
      } else {
        var r := re(items, pos + 1, item);
        if r.code == OK {
          LexKeyed(items, r.next, tokens, rules[r.value.name := r.value], re);
        }
      }
    }
  }

  /** The items of a token declared with a name. */
  function TokenItems(name: string, d: TokenDecl): seq<string> {
    [name] + Render(d)
  }

  /** A declaration ending in `;` rendered after its name is fg_extractToken's whole domain. */
  lemma TokenItemsClosed(name: string, d: TokenDecl)
    requires IsUpper(Head(name))
    ensures BlocksClosed(TokenItems(name, d))
  {
    var items := TokenItems(name, d);
    assert items[0] == name && items[1] == "=" && items[2] == ValueItem(d.value) && items[3] == EndItem(d.end);
    assert |ValueItem(d.value)| >= 2;
  }

  /** Two lists whose string blocks are closed join into one. */
  lemma ClosedJoin(a: seq<string>, b: seq<string>)
    requires BlocksClosed(a) && BlocksClosed(b)
    ensures BlocksClosed(a + b)
  {
    forall i | 0 <= i < |a + b| && Head((a + b)[i]) == '`'
      ensures |(a + b)[i]| >= 2
    {
      if i < |a| { assert (a + b)[i] == a[i]; } else { assert (a + b)[i] == b[i - |a|]; }
    }
  }

  /** A declared token in the middle of the items is read and stored, and the reading goes on after it. */
  lemma DeclaredTurn(before: seq<string>, name: string, d: TokenDecl, rest: seq<string>,
                     tokens: map<string, TokenData>, rules: map<string, Rule>, re: (seq<string>, nat, string) -> Extracted<Rule>)
    requires IsUpper(Head(name)) && Readable(d) && Advances(re)
    requires BlocksClosed(before + TokenItems(name, d) + rest)
    ensures |before| + 4 <= |before + TokenItems(name, d) + rest|
    ensures var items := before + TokenItems(name, d) + rest;
            LexParse(items, |before|, tokens, rules, re)
            == LexParse(items, |before| + 4, tokens[name := Declared(d, name)], rules, re)
  {
    var items := before + TokenItems(name, d) + rest;
    assert items == (before + [name]) + Render(d) + rest;
    TokenRoundTrip(before + [name], d, rest, name);
    assert items[|before|] == name;
  }

  /**
   * A name declared twice: the reading succeeds and the token table holds
   * the second declaration only. (prs_parseGrammarItems stops with
   * FG_TOKEN_EXISTS instead; see Grammars.DuplicateToken.)
   */
  lemma LexRedeclaration(name: string, d1: TokenDecl, d2: TokenDecl, re: (seq<string>, nat, string) -> Extracted<Rule>)
    requires IsUpper(Head(name)) && Readable(d1) && Readable(d2)
    requires d1.end.Semicolon? && d2.end.Semicolon?
    requires Advances(re)
    ensures BlocksClosed(TokenItems(name, d1) + TokenItems(name, d2))
    ensures LexParse(TokenItems(name, d1) + TokenItems(name, d2), 0, map[], map[], re)
            == LexTables(LexParsed, map[name := Declared(d2, name)], map[])
  {
    var first, second := TokenItems(name, d1), TokenItems(name, d2);
    TokenItemsClosed(name, d1);
    TokenItemsClosed(name, d2);
    ClosedJoin(first, second);
    var t1, t2 := Declared(d1, name), Declared(d2, name);
    TwoDeclarations(first + second, name, d1, d2, re);
    assert map[name := t1][name := t2] == map[name := t2];
  }

  /** The reading of two declarations, one after the other, with nothing after them. */
  lemma TwoDeclarations(items: seq<string>, name: string, d1: TokenDecl, d2: TokenDecl, re: (seq<string>, nat, string) -> Extracted<Rule>)
    requires IsUpper(Head(name)) && Readable(d1) && Readable(d2) && Advances(re)
    requires items == TokenItems(name, d1) + TokenItems(name, d2) && BlocksClosed(items)
    ensures LexParse(items, 0, map[], map[], re)
            == LexTables(LexParsed, map[name := Declared(d1, name)][name := Declared(d2, name)], map[])
  {
    var first, second := TokenItems(name, d1), TokenItems(name, d2);
    var t1, t2 := Declared(d1, name), Declared(d2, name);
    assert items == [] + first + second;
    DeclaredTurn([], name, d1, second, map[], map[], re);
    assert items == first + second + [];
    DeclaredTurn(first, name, d2, [], map[name := t1], map[], re);
    ParseAtEnd(items, map[name := t1][name := t2], map[], re);
  }

  /** At the end of the items the reading is done. */
  lemma ParseAtEnd(items: seq<string>, tokens: map<string, TokenData>, rules: map<string, Rule>, re: (seq<string>, nat, string) -> Extracted<Rule>)
    requires BlocksClosed(items) && Advances(re)
    ensures LexParse(items, |items|, tokens, rules, re) == LexTables(LexParsed, tokens, rules)
  {
  }

  /**
   * A quantified token closed by `;`, as the repository's grammars write it:
   * fg_extractToken stops after the quantifier, so the `;` is read next as
   * an item of its own, and lex_parseGrammarItems stops there with its
   * unknown-item code, the token already stored.
   */
  lemma QuantifiedTokenStops(name: string, d: TokenDecl, re: (seq<string>, nat, string) -> Extracted<Rule>)
    requires IsUpper(Head(name)) && Readable(d) && !d.end.Semicolon?
    requires Advances(re)
    ensures BlocksClosed(TokenItems(name, d) + [";"])
    ensures LexParse(TokenItems(name, d) + [";"], 0, map[], map[], re)
            == LexTables(LexUnknownItem, map[name := Declared(d, name)], map[])
  {
    var items := TokenItems(name, d) + [";"];
    TokenItemsClosed(name, d);
    assert items[4] == ";";
    assert BlocksClosed(items) by {
      forall i | 0 <= i < |items| && Head(items[i]) == '`'
        ensures |items[i]| >= 2
      {
        if i < 4 { assert items[i] == TokenItems(name, d)[i]; }
      }
    }
    assert items == [name] + Render(d) + [";"];
    TokenRoundTrip([name], d, [";"], name);
    assert !IsAlpha(Head(items[4]));
  }

  // ---------------------------------------------------------------------------
  // lex_resolveSymbols
  // ---------------------------------------------------------------------------

  /**
   * resolveProductionRulesSymbols of lexer.c on one production rule: the
   * same lookups as the parser's, stopping at the first item whose name is
   * not a key, and nothing written.
   */
  method LexPRCode(pr: seq<PRItem>, tokenKeys: set<string>, ruleKeys: set<string>) returns (code: int)
    ensures code == ResolvePR(pr, tokenKeys, ruleKeys, None).code
  {
    var i := 0;
    while i < |pr|
      invariant i <= |pr|
      invariant FirstUnresolved(pr, 0, tokenKeys, ruleKeys) == FirstUnresolved(pr, i, tokenKeys, ruleKeys)
      decreases |pr| - i
    {
      var prItem := pr[i];
      if prItem.kind == RuleItem && prItem.symbol.text !in ruleKeys {
        return UnknownRule.Value();
      } else if prItem.kind == TokenItem && prItem.symbol.text !in tokenKeys {
        return UnknownToken.Value();
      }
      i := i + 1;
    }
    return OK;
  }

  /** ll_forEachItem over a rule's production rules: the code of the last one that failed. */
  method LexRuleCode(rule: Rule, tokenKeys: set<string>, ruleKeys: set<string>) returns (code: int)
    ensures var prs := rule.productionRules;
            code == LastFailure(prs, |prs|, tokenKeys, ruleKeys, None).0
  {
    var prs := rule.productionRules;
    code := OK;
    var j := 0;
    while j < |prs|
      invariant j <= |prs|
      invariant code == LastFailure(prs, j, tokenKeys, ruleKeys, None).0
      decreases |prs| - j
    {
      var c := LexPRCode(prs[j], tokenKeys, ruleKeys);
      if c != OK {
        code := c;
      }
      j := j + 1;
    }
  }

  /**
   * lex_resolveSymbols on grammar g, its tables walked in the given orders:
   * it returns what prs_resolveSymbols returns on the same grammar, and
   * changes nothing.
   */
  method LexResolveSymbols(g: Grammar, tokenOrder: seq<string>, ruleOrder: seq<string>) returns (code: int)
    requires Lists(tokenOrder, g.tokens.Keys) && Lists(ruleOrder, g.rules.Keys) && RefsNamed(g.tokens)
    ensures code == Resolve(g.tokens, g.rules, tokenOrder, ruleOrder, None).code
  {
    TokensFrom(g.tokens, tokenOrder, 0, None);
    var k := 0;
    while k < |tokenOrder|
      invariant k <= |tokenOrder|
      invariant forall i | 0 <= i < k :: RefResolves(g.tokens[tokenOrder[i]], g.tokens.Keys)
      decreases |tokenOrder| - k
    {
      var token := g.tokens[tokenOrder[k]];
      if token.kind == RefToken && token.ref.value.symbol.text !in g.tokens {
        return UnknownToken.Value();
      }
      k := k + 1;
    }
    var t := ResolveTokensFrom(g.tokens, tokenOrder, 0, None);
    RulesFromShape(g.rules, ruleOrder, 0, g.tokens.Keys, g.rules.Keys, t.errorAt);
    RulesFrom(g.rules, ruleOrder, 0, g.tokens.Keys, g.rules.Keys, t.errorAt);
    RulesFromLinked(g.rules, ruleOrder, 0, g.tokens.Keys, g.rules.Keys, t.errorAt);
    k := 0;
    while k < |ruleOrder|
      invariant k <= |ruleOrder|
      invariant forall i | 0 <= i < k :: RuleOk(g.rules[ruleOrder[i]], g.tokens.Keys, g.rules.Keys)
      decreases |ruleOrder| - k
    {
      var rule := g.rules[ruleOrder[k]];
      code := LexRuleCode(rule, g.tokens.Keys, g.rules.Keys);
      LastFailureMeaning(rule.productionRules, |rule.productionRules|, g.tokens.Keys, g.rules.Keys, None);
      if code != OK {
        RulesFirstFailure(g.rules, ruleOrder, 0, k, g.tokens.Keys, g.rules.Keys, t.errorAt);
        return code;
      }
      k := k + 1;
    }
    return OK;
  }
}
