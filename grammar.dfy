/**
 * The grammar the declarations are read into, and the two readers of the
 * item list: prs_parseGrammarItems (parser.c) and lex_parseGrammarItems
 * (lexer.c). The grammar's token and rule tables are hash tables keyed by
 * name; here they are maps (what ht_insertElement and ht_getValue make of
 * a table), and every link is the key of the entry it points to.
 */
module Grammars {
  import opened Options
  import opened CType
  import opened Errors
  import opened ParserItems
  import opened FormalGrammar

  /** fg_PrItemType */
  datatype PrItemKind = RuleItem | StringLiteral | TokenItem

  /** fg_PRItem: an item of a production rule, the item naming it, and its link once resolved. */
  datatype PRItem = PRItem(kind: PrItemKind, symbol: StringItem, link: Option<string>)

  /** fg_Rule: a name and its production rules, each a list of items. */
  datatype Rule = Rule(name: string, productionRules: seq<seq<PRItem>>)

  /** fg_Grammar: the token table, the rule table and the entry rule (by its key). */
  class Grammar {
    var tokens: map<string, TokenData>
    var rules: map<string, Rule>
    var entry: Option<string>

    /** A grammar with both tables empty and no entry rule. */
    constructor Empty()
      ensures tokens == map[] && rules == map[] && entry.None?
    {
      tokens, rules, entry := map[], map[], None;
    }
  }

  /**
   * What a declaration reader (fg_extractToken, fg_extractRule) hands back:
   * its return value, where it left the iterator, what it read, and the
   * item it recorded in the error state, if any.
   */
  datatype Extracted<T> = Extracted(code: int, next: nat, value: T, errorAt: Option<StringItem>)

  /** A reader only moves the iterator forward, and not past the end. */
  ghost predicate Advances<I(!new), T>(f: (seq<I>, nat, I) -> Extracted<T>) {
    forall items: seq<I>, pos: nat, nameItem: I | pos <= |items| ::
      pos <= f(items, pos, nameItem).next <= |items|
  }

  /** A token reader that succeeds has set the token's name. */
  ghost predicate NamesTokens<I(!new)>(f: (seq<I>, nat, I) -> Extracted<TokenData>) {
    forall items: seq<I>, pos: nat, nameItem: I | pos <= |items| ::
      f(items, pos, nameItem).code == OK ==> f(items, pos, nameItem).value.name.Some?
  }

  // ---------------------------------------------------------------------------
  // prs_parseGrammarItems
  // ---------------------------------------------------------------------------

  /** The item that may open a declaration: `%` then a letter. */
  predicate IsDeclarationItem(text: string) {
    |text| >= 2 && text[0] == '%' && IsAlpha(text[1])
  }

  /** The tables as the reading goes, and the first rule this call inserted. */
  datatype ParseState = ParseState(tokens: map<string, TokenData>, rules: map<string, Rule>, first: Option<string>)

  /** The return value, the tables reached, and the error state. */
  datatype ParseResult = ParseResult(code: int, state: ParseState, errorAt: Option<StringItem>)

  /** The error state after a failed rule: kept if the rule reader or an earlier failure set it. */
  function RuleErrorState(read: Option<StringItem>, err: Option<StringItem>, item: StringItem): Option<StringItem> {
    if read.Some? then read else if err.Some? then err else Some(item)
  }

  /**
   * prs_parseGrammarItems from item pos on: every declaration opens with a
   * `%` item, upper case for a token and lower case for a rule, whose reader
   * takes the items after it. A reader's failure, or a name already in its
   * table, stops the reading; otherwise the declaration is inserted under its
   * name and the first rule inserted is remembered. `err` is the error state
   * on entry.
   */
  function Parse(items: seq<StringItem>, pos: nat, st: ParseState, err: Option<StringItem>,
                 te: (seq<StringItem>, nat, StringItem) -> Extracted<TokenData>,
                 re: (seq<StringItem>, nat, StringItem) -> Extracted<Rule>): ParseResult
    requires pos <= |items| && Advances(te) && Advances(re) && NamesTokens(te)
    decreases |items| - pos
  {
    if pos == |items| then ParseResult(OK, st, err)
    else
      var si := items[pos];
      if !IsDeclarationItem(si.text) then ParseResult(UnknownItem.Value(), st, Some(si))
      else if IsUpper(si.text[1]) then
        var r := te(items, pos + 1, si);
        if r.code != OK then ParseResult(r.code, st, Some(si))
        else if r.value.name.value in st.tokens then ParseResult(TokenExists.Value(), st, Some(si))
        else Parse(items, r.next, st.(tokens := st.tokens[r.value.name.value := r.value]), err, te, re)
      else
        var r := re(items, pos + 1, si);
        if r.code != OK then ParseResult(r.code, st, RuleErrorState(r.errorAt, err, si))
        else if r.value.name in st.rules then ParseResult(RuleExists.Value(), st, Some(si))
        else
          var first := if st.first.None? then Some(r.value.name) else st.first;
          Parse(items, r.next, st.(rules := st.rules[r.value.name := r.value], first := first), err, te, re)
  }

  /**
   * prs_parseGrammarItems on grammar g: reads the whole list, leaves in the
   * tables what Parse reaches, and writes the entry rule (NULL when no rule
   * was read) only when it returns FG_OK. The token and rule readers are
   * parameters: fg_extractRule's body is not part of this model, and the
   * fg_extractToken of formal_grammar.c reads lists of plain strings, not
   * the prs_StringItem lists this function walks.
   */
  method ParseGrammarItems(g: Grammar, items: seq<StringItem>, err: Option<StringItem>,
                           te: (seq<StringItem>, nat, StringItem) -> Extracted<TokenData>,
                           re: (seq<StringItem>, nat, StringItem) -> Extracted<Rule>)
    returns (code: int, err': Option<StringItem>)
    requires Advances(te) && Advances(re) && NamesTokens(te)
    modifies g
    ensures var r := Parse(items, 0, ParseState(old(g.tokens), old(g.rules), None), err, te, re);
            && code == r.code && err' == r.errorAt
            && g.tokens == r.state.tokens && g.rules == r.state.rules
            && g.entry == (if code == OK then r.state.first else old(g.entry))
  {
    ghost var whole := Parse(items, 0, ParseState(g.tokens, g.rules, None), err, te, re);
    var entryRule: Option<string> := None;
    var pos := 0;
    while pos < |items|
      invariant pos <= |items|
      invariant Parse(items, pos, ParseState(g.tokens, g.rules, entryRule), err, te, re) == whole
      invariant g.entry == old(g.entry)
      decreases |items| - pos
    {
      var stringItem := items[pos];
      pos := pos + 1;
      if !IsDeclarationItem(stringItem.text) {
        return UnknownItem.Value(), Some(stringItem);
      }
      if IsUpper(stringItem.text[1]) {
        // it should be a token
        var r := te(items, pos, stringItem);
        if r.code != OK {
          return r.code, Some(stringItem);
        }
        if r.value.name.value in g.tokens {
          return TokenExists.Value(), Some(stringItem);
        }
        g.tokens := g.tokens[r.value.name.value := r.value];
        pos := r.next;
      } else {
        // it should be a rule
        var r := re(items, pos, stringItem);
        if r.code != OK {
          return r.code, RuleErrorState(r.errorAt, err, stringItem);
        }
        if r.value.name in g.rules {
          return RuleExists.Value(), Some(stringItem);
        }
        g.rules := g.rules[r.value.name := r.value];
        if entryRule.None? {
          entryRule := Some(r.value.name);
        }
        pos := r.next;
      }
    }
    g.entry := entryRule;
    return OK, err;
  }

  // ---------------------------------------------------------------------------
  // Properties of prs_parseGrammarItems
  // ---------------------------------------------------------------------------

  /** Every token is stored under its own name, every rule under its own name. */
  predicate KeyedByName(tokens: map<string, TokenData>, rules: map<string, Rule>) {
    && (forall n | n in tokens :: tokens[n].name == Some(n))
    && (forall n | n in rules :: rules[n].name == n)
  }

  /** b holds every entry of a, unchanged. */
  predicate Extends<V(==)>(a: map<string, V>, b: map<string, V>) {
    forall n | n in a :: n in b && b[n] == a[n]
  }

  /**
   * Nothing is ever overwritten: whatever the outcome, every token and rule
   * already in the tables is still there, unchanged, and every entry stays
   * keyed by its own name.
   */
  lemma {:induction false} ParseKeeps(items: seq<StringItem>, pos: nat, st: ParseState, err: Option<StringItem>,
                                      te: (seq<StringItem>, nat, StringItem) -> Extracted<TokenData>,
                                      re: (seq<StringItem>, nat, StringItem) -> Extracted<Rule>)
    requires pos <= |items| && Advances(te) && Advances(re) && NamesTokens(te)
    ensures var r := Parse(items, pos, st, err, te, re);
            Extends(st.tokens, r.state.tokens) && Extends(st.rules, r.state.rules)
            && (KeyedByName(st.tokens, st.rules) ==> KeyedByName(r.state.tokens, r.state.rules))
    decreases |items| - pos
  {
    if pos < |items| && IsDeclarationItem(items[pos].text) {
      var si := items[pos];
      if IsUpper(si.text[1]) {
        var r := te(items, pos + 1, si);
        if r.code == OK && r.value.name.value !in st.tokens {
          ParseKeeps(items, r.next, st.(tokens := st.tokens[r.value.name.value := r.value]), err, te, re);
        }
      } else {
        var r := re(items, pos + 1, si);
        if r.code == OK && r.value.name !in st.rules {
          var first := if st.first.None? then Some(r.value.name) else st.first;
          ParseKeeps(items, r.next, st.(rules := st.rules[r.value.name := r.value], first := first), err, te, re);
        }
      }
    }
  }

  /**
   * The entry rule is the first rule inserted: once one is remembered it
   * stays; if none was before, none is remembered exactly when no rule was
   * inserted, and one that is remembered is a rule that was not in the table
   * before.
   */
  lemma {:induction false} ParseFirstRule(items: seq<StringItem>, pos: nat, st: ParseState, err: Option<StringItem>,
                                          te: (seq<StringItem>, nat, StringItem) -> Extracted<TokenData>,
                                          re: (seq<StringItem>, nat, StringItem) -> Extracted<Rule>)
    requires pos <= |items| && Advances(te) && Advances(re) && NamesTokens(te)
    ensures var r := Parse(items, pos, st, err, te, re);
            && (st.first.Some? ==> r.state.first == st.first)
            && (st.first.None? && r.state.first.None? ==> r.state.rules == st.rules)
            && (st.first.None? && r.state.first.Some? ==> r.state.first.value in r.state.rules && r.state.first.value !in st.rules)
    decreases |items| - pos
  {
    if pos < |items| && IsDeclarationItem(items[pos].text) {
      var si := items[pos];
      if IsUpper(si.text[1]) {
        var r := te(items, pos + 1, si);
        if r.code == OK && r.value.name.value !in st.tokens {
          ParseFirstRule(items, r.next, st.(tokens := st.tokens[r.value.name.value := r.value]), err, te, re);
        }
      } else {
        var r := re(items, pos + 1, si);
        if r.code == OK && r.value.name !in st.rules {
          var first := if st.first.None? then Some(r.value.name) else st.first;
          var st' := st.(rules := st.rules[r.value.name := r.value], first := first);
          ParseFirstRule(items, r.next, st', err, te, re);
          ParseKeeps(items, r.next, st', err, te, re);
        }
      }
    }
  }

  /**
   * Declaring a token whose name is taken: FG_TOKEN_EXISTS, the error state
   * on the declaration's item, and the tables as they were before it.
   */
  lemma DuplicateToken(items: seq<StringItem>, pos: nat, st: ParseState, err: Option<StringItem>,
                       te: (seq<StringItem>, nat, StringItem) -> Extracted<TokenData>,
                       re: (seq<StringItem>, nat, StringItem) -> Extracted<Rule>)
    requires pos < |items| && Advances(te) && Advances(re) && NamesTokens(te)
    requires IsDeclarationItem(items[pos].text) && IsUpper(items[pos].text[1])
    requires te(items, pos + 1, items[pos]).code == OK && te(items, pos + 1, items[pos]).value.name.value in st.tokens
    ensures Parse(items, pos, st, err, te, re) == ParseResult(TokenExists.Value(), st, Some(items[pos]))
  {
  }

  /**
   * Declaring a rule whose name is taken: FG_RULE_EXISTS, the error state on
   * the declaration's item, and the tables as they were before it.
   */
  lemma DuplicateRule(items: seq<StringItem>, pos: nat, st: ParseState, err: Option<StringItem>,
                      te: (seq<StringItem>, nat, StringItem) -> Extracted<TokenData>,
                      re: (seq<StringItem>, nat, StringItem) -> Extracted<Rule>)
    requires pos < |items| && Advances(te) && Advances(re) && NamesTokens(te)
    requires IsDeclarationItem(items[pos].text) && !IsUpper(items[pos].text[1])
    requires re(items, pos + 1, items[pos]).code == OK && re(items, pos + 1, items[pos]).value.name in st.rules
    ensures Parse(items, pos, st, err, te, re) == ParseResult(RuleExists.Value(), st, Some(items[pos]))
  {
  }

  /** An item that cannot open a declaration: PRS_UNKNOWN_ITEM on that item, tables as they were. */
  lemma UnknownItemStops(items: seq<StringItem>, pos: nat, st: ParseState, err: Option<StringItem>,
                         te: (seq<StringItem>, nat, StringItem) -> Extracted<TokenData>,
                         re: (seq<StringItem>, nat, StringItem) -> Extracted<Rule>)
    requires pos < |items| && Advances(te) && Advances(re) && NamesTokens(te)
    requires |items[pos].text| < 2 || items[pos].text[0] != '%' || !IsAlpha(items[pos].text[1])
    ensures Parse(items, pos, st, err, te, re) == ParseResult(UnknownItem.Value(), st, Some(items[pos]))
  {
  }
}
