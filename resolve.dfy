/**
 * Symbol resolution: prs_resolveSymbols (parser.c) links every reference
 * of the grammar to the entry it names, and lex_resolveSymbols (lexer.c)
 * makes the same lookups without writing anything. The two tables are
 * walked in their iterator's order, which depends on the hash function and
 * the bucket layout; here each order is a parameter that lists every key
 * once.
 */
module Resolution {
  import opened Options
  import opened Errors
  import opened ParserItems
  import opened FormalGrammar
  import opened Grammars

  /** order lists every key of the table exactly once, as a table iterator does. */
  predicate Enumerates(order: seq<string>, keys: set<string>) {
    && (forall i | 0 <= i < |order| :: order[i] in keys)
    && (forall n | n in keys :: n in order)
    && (forall i, j | 0 <= i < j < |order| :: order[i] != order[j])
  }

  /** order lists keys of the table, each once. */
  predicate Lists(order: seq<string>, keys: set<string>) {
    && (forall i | 0 <= i < |order| :: order[i] in keys)
    && (forall i, j | 0 <= i < j < |order| :: order[i] != order[j])
  }

  /** Every reference token carries the item naming the token it refers to. */
  predicate RefsNamed(tokens: map<string, TokenData>) {
    forall n | n in tokens :: tokens[n].kind == RefToken ==> tokens[n].ref.Some?
  }

  // ---------------------------------------------------------------------------
  // Tokens
  // ---------------------------------------------------------------------------

  /** A token other than a reference, or a reference to a token of the table. */
  predicate RefResolves(t: TokenData, tokenKeys: set<string>)
    requires t.kind == RefToken ==> t.ref.Some?
  {
    t.kind == RefToken ==> t.ref.value.symbol.text in tokenKeys
  }

  /** A reference token linked to the token its item names; any other token as it is. */
  function LinkToken(t: TokenData): TokenData
    requires t.kind == RefToken ==> t.ref.Some?
  {
    if t.kind == RefToken then t.(ref := Some(t.ref.value.(link := Some(t.ref.value.symbol.text)))) else t
  }

  /** A token with its link forgotten. */
  function StripToken(t: TokenData): TokenData {
    if t.ref.Some? then t.(ref := Some(t.ref.value.(link := None))) else t
  }

  /** The outcome of a walk: its return value, the table reached, the error state. */
  datatype Outcome<T> = Outcome(code: int, value: T, errorAt: Option<StringItem>)

  /**
   * The token loop of prs_resolveSymbols from the k-th token of order on:
   * a reference whose name is not a key stops it with FG_UNKNOWN_TOKEN and
   * the error state on the reference's item; otherwise the reference is
   * linked.
   */
  function ResolveTokensFrom(tokens: map<string, TokenData>, order: seq<string>, k: nat, err: Option<StringItem>)
    : Outcome<map<string, TokenData>>
    requires k <= |order| && Lists(order, tokens.Keys) && RefsNamed(tokens)
    decreases |order| - k
  {
    if k == |order| then Outcome(OK, tokens, err)
    else
      var t := tokens[order[k]];
      if t.kind != RefToken then ResolveTokensFrom(tokens, order, k + 1, err)
      else if t.ref.value.symbol.text !in tokens then Outcome(UnknownToken.Value(), tokens, Some(t.ref.value.symbol))
      else
        var tokens' := tokens[order[k] := LinkToken(t)];
        assert tokens'.Keys == tokens.Keys;
        ResolveTokensFrom(tokens', order, k + 1, err)
  }

  /**
   * What the token walk from the k-th token on achieves: only links change;
   * the walk succeeds exactly when every token left in order resolves, and
   * then each of them is linked and every other token kept; a failure is
   * FG_UNKNOWN_TOKEN with the error state set.
   */
  predicate TokensWalked(tokens: map<string, TokenData>, order: seq<string>, k: nat, err: Option<StringItem>,
                         r: Outcome<map<string, TokenData>>)
    requires k <= |order| && RefsNamed(tokens)
  {
    && r.value.Keys == tokens.Keys
    && (forall n | n in tokens :: StripToken(r.value[n]) == StripToken(tokens[n]))
    && (r.code == OK <==> forall i | k <= i < |order| :: order[i] in tokens && RefResolves(tokens[order[i]], tokens.Keys))
    && (r.code == OK ==> forall i | k <= i < |order| :: order[i] in tokens && r.value[order[i]] == LinkToken(tokens[order[i]]))
    && (r.code == OK ==> forall n | n in tokens && n !in order[k..] :: r.value[n] == tokens[n])
    && (r.code == OK ==> r.errorAt == err)
    && (r.code != OK ==> r.code == UnknownToken.Value() && r.errorAt.Some?)
  }

  /** The token walk from the k-th token on does what TokensWalked says. */
  lemma {:induction false} TokensFrom(tokens: map<string, TokenData>, order: seq<string>, k: nat, err: Option<StringItem>)
    requires k <= |order| && Lists(order, tokens.Keys) && RefsNamed(tokens)
    ensures TokensWalked(tokens, order, k, err, ResolveTokensFrom(tokens, order, k, err))
    decreases |order| - k
  {
    if k < |order| {
      var t := tokens[order[k]];
      if t.kind != RefToken {
        TokensFrom(tokens, order, k + 1, err);
        PlainTokenStep(tokens, order, k, err);
      } else if t.ref.value.symbol.text in tokens {
        var tokens' := tokens[order[k] := LinkToken(t)];
        assert tokens'.Keys == tokens.Keys;
        TokensFrom(tokens', order, k + 1, err);
        LinkedTokenStep(tokens, order, k, err);
      }
    }
  }

  /** A token other than a reference is passed over. */
  lemma PlainTokenStep(tokens: map<string, TokenData>, order: seq<string>, k: nat, err: Option<StringItem>)
    requires k < |order| && Lists(order, tokens.Keys) && RefsNamed(tokens)
    requires tokens[order[k]].kind != RefToken
    requires TokensWalked(tokens, order, k + 1, err, ResolveTokensFrom(tokens, order, k + 1, err))
    ensures TokensWalked(tokens, order, k, err, ResolveTokensFrom(tokens, order, k, err))
  {
    assert forall n | n !in order[k + 1..] && n != order[k] :: n !in order[k..];
  }

  /** A reference to a key is linked, and the walk goes on with the linked table. */
  lemma LinkedTokenStep(tokens: map<string, TokenData>, order: seq<string>, k: nat, err: Option<StringItem>)
    requires k < |order| && Lists(order, tokens.Keys) && RefsNamed(tokens)
    requires tokens[order[k]].kind == RefToken && tokens[order[k]].ref.value.symbol.text in tokens
    requires var tokens' := tokens[order[k] := LinkToken(tokens[order[k]])];
             TokensWalked(tokens', order, k + 1, err, ResolveTokensFrom(tokens', order, k + 1, err))
    ensures TokensWalked(tokens, order, k, err, ResolveTokensFrom(tokens, order, k, err))
  {
    var tokens' := tokens[order[k] := LinkToken(tokens[order[k]])];
    assert tokens'.Keys == tokens.Keys;
    assert forall i | k < i < |order| :: tokens'[order[i]] == tokens[order[i]];
    assert forall n | n !in order[k + 1..] && n != order[k] :: n !in order[k..];
  }

  // ---------------------------------------------------------------------------
  // Production rules
  // ---------------------------------------------------------------------------

  /** A rule item that names a rule, a token item that names a token, or a string. */
  predicate ItemResolves(it: PRItem, tokenKeys: set<string>, ruleKeys: set<string>) {
    match it.kind
    case RuleItem => it.symbol.text in ruleKeys
    case TokenItem => it.symbol.text in tokenKeys
    case StringLiteral => true
  }

  /** A rule or token item linked to the entry its item names; a string as it is. */
  function Linked(it: PRItem): PRItem {
    if it.kind == StringLiteral then it else it.(link := Some(it.symbol.text))
  }

  /** The code for an item that does not resolve. */
  function UnknownCode(it: PRItem): int {
    if it.kind == RuleItem then UnknownRule.Value() else UnknownToken.Value()
  }

  /** The first item from `from` on that does not resolve, or |pr| if there is none. */
  function FirstUnresolved(pr: seq<PRItem>, from: nat, tokenKeys: set<string>, ruleKeys: set<string>): (b: nat)
    requires from <= |pr|
    ensures from <= b <= |pr|
    ensures forall j | from <= j < b :: ItemResolves(pr[j], tokenKeys, ruleKeys)
    ensures b < |pr| ==> !ItemResolves(pr[b], tokenKeys, ruleKeys)
    decreases |pr| - from
  {
    if from == |pr| || !ItemResolves(pr[from], tokenKeys, ruleKeys) then from
    else FirstUnresolved(pr, from + 1, tokenKeys, ruleKeys)
  }

  /** pr with its first n items linked. */
  function LinkUpTo(pr: seq<PRItem>, n: nat): (r: seq<PRItem>)
    requires n <= |pr|
    ensures |r| == |pr|
  {
    seq(|pr|, j requires 0 <= j < |pr| => if j < n then Linked(pr[j]) else pr[j])
  }

  /** A production rule with its items linked up to the first that does not resolve. */
  function Walked(pr: seq<PRItem>, tokenKeys: set<string>, ruleKeys: set<string>): seq<PRItem> {
    LinkUpTo(pr, FirstUnresolved(pr, 0, tokenKeys, ruleKeys))
  }

  /**
   * resolveProductionRulesSymbols on one production rule: its items are
   * linked in turn up to the first that does not resolve, which stops it with
   * FG_UNKNOWN_RULE or FG_UNKNOWN_TOKEN and the error state on that item.
   */
  function ResolvePR(pr: seq<PRItem>, tokenKeys: set<string>, ruleKeys: set<string>, err: Option<StringItem>)
    : Outcome<seq<PRItem>>
  {
    var b := FirstUnresolved(pr, 0, tokenKeys, ruleKeys);
    if b == |pr| then Outcome(OK, Walked(pr, tokenKeys, ruleKeys), err)
    else Outcome(UnknownCode(pr[b]), Walked(pr, tokenKeys, ruleKeys), Some(pr[b].symbol))
  }

  /** A production rule whose items all resolve. */
  predicate PROk(pr: seq<PRItem>, tokenKeys: set<string>, ruleKeys: set<string>) {
    forall i | 0 <= i < |pr| :: ItemResolves(pr[i], tokenKeys, ruleKeys)
  }

  /** pr with every item linked. */
  function LinkAll(pr: seq<PRItem>): (r: seq<PRItem>)
    ensures |r| == |pr|
  {
    seq(|pr|, j requires 0 <= j < |pr| => Linked(pr[j]))
  }

  /** An item with its link forgotten. */
  function StripItem(it: PRItem): PRItem { it.(link := None) }

  /** A production rule with its links forgotten. */
  function StripPR(pr: seq<PRItem>): (r: seq<PRItem>)
    ensures |r| == |pr|
  {
    seq(|pr|, j requires 0 <= j < |pr| => StripItem(pr[j]))
  }

  /**
   * One production rule: it succeeds exactly when all its items resolve, and
   * then every item is linked; only links change; a failure is
   * FG_UNKNOWN_RULE or FG_UNKNOWN_TOKEN with the error state set.
   */
  lemma PRMeaning(pr: seq<PRItem>, tokenKeys: set<string>, ruleKeys: set<string>, err: Option<StringItem>)
    ensures var r := ResolvePR(pr, tokenKeys, ruleKeys, err);
            && (r.code == OK <==> PROk(pr, tokenKeys, ruleKeys))
            && (r.code == OK ==> r.value == LinkAll(pr) && r.errorAt == err)
            && StripPR(r.value) == StripPR(pr)
            && (r.code != OK ==> (r.code == UnknownRule.Value() || r.code == UnknownToken.Value()) && r.errorAt.Some?)
  {
    var b := FirstUnresolved(pr, 0, tokenKeys, ruleKeys);
    var r := ResolvePR(pr, tokenKeys, ruleKeys, err);
    assert StripPR(r.value) == StripPR(pr) by {
      forall j | 0 <= j < |pr| ensures StripItem(r.value[j]) == StripItem(pr[j]) {}
    }
    if b == |pr| {
      assert r.value == LinkAll(pr);
    }
  }

  /**
   * The error code and state after the first n production rules of a rule:
   * resolverArg.errCode keeps the code of the last one that failed, and the
   * error state the item it failed on.
   */
  function LastFailure(prs: seq<seq<PRItem>>, n: nat, tokenKeys: set<string>, ruleKeys: set<string>, err: Option<StringItem>)
    : (int, Option<StringItem>)
    requires n <= |prs|
  {
    if n == 0 then (OK, err)
    else
      var acc := LastFailure(prs, n - 1, tokenKeys, ruleKeys, err);
      var r := ResolvePR(prs[n - 1], tokenKeys, ruleKeys, acc.1);
      if r.code != OK then (r.code, r.errorAt) else acc
  }

  /** One more production rule walked: its failure, if any, replaces the last one; it is walked in any case. */
  lemma LastFailureStep(prs: seq<seq<PRItem>>, j: nat, tokenKeys: set<string>, ruleKeys: set<string>, err: Option<StringItem>,
                        acc: (int, Option<StringItem>), r: Outcome<seq<PRItem>>)
    requires j < |prs| && acc == LastFailure(prs, j, tokenKeys, ruleKeys, err)
    requires r == ResolvePR(prs[j], tokenKeys, ruleKeys, acc.1)
    ensures LastFailure(prs, j + 1, tokenKeys, ruleKeys, err) == if r.code != OK then (r.code, r.errorAt) else acc
    ensures r.value == Walked(prs[j], tokenKeys, ruleKeys)
  {
  }

  /**
   * ll_forEachItem over the production rules of a rule: every production
   * rule is walked, each up to its first failure.
   */
  function ResolveRule(rule: Rule, tokenKeys: set<string>, ruleKeys: set<string>, err: Option<StringItem>): Outcome<Rule> {
    var prs := rule.productionRules;
    var last := LastFailure(prs, |prs|, tokenKeys, ruleKeys, err);
    var prs' := seq(|prs|, j requires 0 <= j < |prs| => Walked(prs[j], tokenKeys, ruleKeys));
    Outcome(last.0, rule.(productionRules := prs'), last.1)
  }

  /** A rule whose production rules all resolve. */
  predicate RuleOk(rule: Rule, tokenKeys: set<string>, ruleKeys: set<string>) {
    forall j | 0 <= j < |rule.productionRules| :: PROk(rule.productionRules[j], tokenKeys, ruleKeys)
  }

  /** A rule with every item of every production rule linked. */
  function LinkRule(rule: Rule): Rule {
    var prs := rule.productionRules;
    rule.(productionRules := seq(|prs|, j requires 0 <= j < |prs| => LinkAll(prs[j])))
  }

  /** A rule with its links forgotten. */
  function StripRule(rule: Rule): Rule {
    var prs := rule.productionRules;
    rule.(productionRules := seq(|prs|, j requires 0 <= j < |prs| => StripPR(prs[j])))
  }

  /**
   * The code after the first n production rules is FG_OK exactly when they
   * all resolve, and otherwise one of the two unknown-symbol codes with the
   * error state set.
   */
  lemma {:induction false} LastFailureMeaning(prs: seq<seq<PRItem>>, n: nat, tokenKeys: set<string>, ruleKeys: set<string>, err: Option<StringItem>)
    requires n <= |prs|
    ensures var last := LastFailure(prs, n, tokenKeys, ruleKeys, err);
            && (last.0 == OK <==> forall j | 0 <= j < n :: PROk(prs[j], tokenKeys, ruleKeys))
            && (last.0 == OK ==> last.1 == err)
            && (last.0 != OK ==> (last.0 == UnknownRule.Value() || last.0 == UnknownToken.Value()) && last.1.Some?)
  {
    if n > 0 {
      LastFailureMeaning(prs, n - 1, tokenKeys, ruleKeys, err);
      var acc := LastFailure(prs, n - 1, tokenKeys, ruleKeys, err);
      PRMeaning(prs[n - 1], tokenKeys, ruleKeys, acc.1);
    }
  }

  /**
   * One rule: it succeeds exactly when all its production rules resolve, and
   * then every item is linked; only links change.
   */
  lemma RuleMeaning(rule: Rule, tokenKeys: set<string>, ruleKeys: set<string>, err: Option<StringItem>)
    ensures var r := ResolveRule(rule, tokenKeys, ruleKeys, err);
            && (r.code == OK <==> RuleOk(rule, tokenKeys, ruleKeys))
            && (r.code == OK ==> r.value == LinkRule(rule) && r.errorAt == err)
            && StripRule(r.value) == StripRule(rule)
            && (r.code != OK ==> (r.code == UnknownRule.Value() || r.code == UnknownToken.Value()) && r.errorAt.Some?)
  {
    var prs := rule.productionRules;
    LastFailureMeaning(prs, |prs|, tokenKeys, ruleKeys, err);
    var r := ResolveRule(rule, tokenKeys, ruleKeys, err);
    forall j | 0 <= j < |prs|
      ensures StripPR(r.value.productionRules[j]) == StripPR(prs[j])
      ensures PROk(prs[j], tokenKeys, ruleKeys) ==> r.value.productionRules[j] == LinkAll(prs[j])
    {
      PRMeaning(prs[j], tokenKeys, ruleKeys, err);
    }
    assert StripRule(r.value) == StripRule(rule);
    if r.code == OK {
      assert r.value == LinkRule(rule);
    }
  }

  /**
   * The rule loop of prs_resolveSymbols from the k-th rule of order on: each
   * rule is walked, and the first one that fails stops the loop with its
   * code.
   */
  function ResolveRulesFrom(rules: map<string, Rule>, order: seq<string>, k: nat,
                            tokenKeys: set<string>, ruleKeys: set<string>, err: Option<StringItem>)
    : (r: Outcome<map<string, Rule>>)
    requires k <= |order| && Lists(order, rules.Keys)
    ensures r.value.Keys == rules.Keys
    decreases |order| - k
  {
    if k == |order| then Outcome(OK, rules, err)
    else
      var r := ResolveRule(rules[order[k]], tokenKeys, ruleKeys, err);
      var rules' := rules[order[k] := r.value];
      assert rules'.Keys == rules.Keys;
      if r.code != OK then Outcome(r.code, rules', r.errorAt)
      else ResolveRulesFrom(rules', order, k + 1, tokenKeys, ruleKeys, r.errorAt)
  }

  /**
   * What a rule walk achieves: only links change and the keys stay; a
   * failure is one of the two unknown-symbol codes with the error state set,
   * a success keeps the error state.
   */
  predicate RulesShaped(rules: map<string, Rule>, err: Option<StringItem>, r: Outcome<map<string, Rule>>) {
    && r.value.Keys == rules.Keys
    && (forall n | n in rules :: StripRule(r.value[n]) == StripRule(rules[n]))
    && (r.code == OK ==> r.errorAt == err)
    && (r.code != OK ==> (r.code == UnknownRule.Value() || r.code == UnknownToken.Value()) && r.errorAt.Some?)
  }

  /** The rule loop of prs_resolveSymbols from the k-th rule on does what RulesShaped says. */
  lemma {:induction false} RulesFromShape(rules: map<string, Rule>, order: seq<string>, k: nat,
                                          tokenKeys: set<string>, ruleKeys: set<string>, err: Option<StringItem>)
    requires k <= |order| && Lists(order, rules.Keys)
    ensures RulesShaped(rules, err, ResolveRulesFrom(rules, order, k, tokenKeys, ruleKeys, err))
    decreases |order| - k
  {
    if k < |order| {
      var r := ResolveRule(rules[order[k]], tokenKeys, ruleKeys, err);
      var rules' := rules[order[k] := r.value];
      assert rules'.Keys == rules.Keys;
      if r.code == OK {
        RulesFromShape(rules', order, k + 1, tokenKeys, ruleKeys, r.errorAt);
      }
      RuleShapeStep(rules, order, k, tokenKeys, ruleKeys, err);
    }
  }

  /** One rule walked, then the walk of the rest: the shape carries over. */
  lemma RuleShapeStep(rules: map<string, Rule>, order: seq<string>, k: nat,
                      tokenKeys: set<string>, ruleKeys: set<string>, err: Option<StringItem>)
    requires k < |order| && Lists(order, rules.Keys)
    requires var r := ResolveRule(rules[order[k]], tokenKeys, ruleKeys, err);
             var rules' := rules[order[k] := r.value];
             r.code == OK ==> RulesShaped(rules', r.errorAt, ResolveRulesFrom(rules', order, k + 1, tokenKeys, ruleKeys, r.errorAt))
    ensures RulesShaped(rules, err, ResolveRulesFrom(rules, order, k, tokenKeys, ruleKeys, err))
  {
    var rule := rules[order[k]];
    RuleMeaning(rule, tokenKeys, ruleKeys, err);
    var r := ResolveRule(rule, tokenKeys, ruleKeys, err);
    var rules' := rules[order[k] := r.value];
    assert rules'.Keys == rules.Keys;
  }

  /** From the k-th rule on: the loop succeeds exactly when every rule left in order resolves. */
  lemma {:induction false} RulesFrom(rules: map<string, Rule>, order: seq<string>, k: nat,
                                     tokenKeys: set<string>, ruleKeys: set<string>, err: Option<StringItem>)
    requires k <= |order| && Lists(order, rules.Keys)
    ensures ResolveRulesFrom(rules, order, k, tokenKeys, ruleKeys, err).code == OK
        <==> forall i | k <= i < |order| :: RuleOk(rules[order[i]], tokenKeys, ruleKeys)
    decreases |order| - k
  {
    if k < |order| {
      var rule := rules[order[k]];
      RuleMeaning(rule, tokenKeys, ruleKeys, err);
      var r := ResolveRule(rule, tokenKeys, ruleKeys, err);
      var rules' := rules[order[k] := r.value];
      assert rules'.Keys == rules.Keys;
      if r.code == OK {
        RulesFrom(rules', order, k + 1, tokenKeys, ruleKeys, r.errorAt);
        assert forall i | k < i < |order| :: rules'[order[i]] == rules[order[i]];
      }
    }
  }

  /**
   * From the k-th rule on: when the loop succeeds, each rule left in order is
   * linked and the others are kept.
   */
  lemma {:induction false} RulesFromLinked(rules: map<string, Rule>, order: seq<string>, k: nat,
                                           tokenKeys: set<string>, ruleKeys: set<string>, err: Option<StringItem>)
    requires k <= |order| && Lists(order, rules.Keys)
    ensures var r := ResolveRulesFrom(rules, order, k, tokenKeys, ruleKeys, err);
            && (r.code == OK ==> forall i | k <= i < |order| :: r.value[order[i]] == LinkRule(rules[order[i]]))
            && (r.code == OK ==> forall n | n in rules && n !in order[k..] :: r.value[n] == rules[n])
    decreases |order| - k
  {
    if k < |order| {
      var rule := rules[order[k]];
      RuleMeaning(rule, tokenKeys, ruleKeys, err);
      var r := ResolveRule(rule, tokenKeys, ruleKeys, err);
      var rules' := rules[order[k] := r.value];
      assert rules'.Keys == rules.Keys;
      if r.code == OK {
        RulesFromLinked(rules', order, k + 1, tokenKeys, ruleKeys, r.errorAt);
        assert forall i | k < i < |order| :: rules'[order[i]] == rules[order[i]];
        assert forall n | n !in order[k + 1..] && n != order[k] :: n !in order[k..];
      }
    }
  }

  /** The code after the first n production rules does not depend on the error state on entry. */
  lemma {:induction false} LastCodeIgnoresState(prs: seq<seq<PRItem>>, n: nat, tokenKeys: set<string>, ruleKeys: set<string>,
                                                e1: Option<StringItem>, e2: Option<StringItem>)
    requires n <= |prs|
    ensures LastFailure(prs, n, tokenKeys, ruleKeys, e1).0 == LastFailure(prs, n, tokenKeys, ruleKeys, e2).0
  {
    if n > 0 {
      LastCodeIgnoresState(prs, n - 1, tokenKeys, ruleKeys, e1, e2);
    }
  }

  /**
   * When the rules of order from k on resolve up to the m-th, which does not,
   * the rule loop stops there, with that rule's code.
   */
  lemma {:induction false} RulesFirstFailure(rules: map<string, Rule>, order: seq<string>, k: nat, m: nat,
                                             tokenKeys: set<string>, ruleKeys: set<string>, err: Option<StringItem>)
    requires k <= m < |order| && Lists(order, rules.Keys)
    requires forall i | k <= i < m :: RuleOk(rules[order[i]], tokenKeys, ruleKeys)
    requires !RuleOk(rules[order[m]], tokenKeys, ruleKeys)
    ensures var prs := rules[order[m]].productionRules;
            ResolveRulesFrom(rules, order, k, tokenKeys, ruleKeys, err).code == LastFailure(prs, |prs|, tokenKeys, ruleKeys, None).0
    decreases m - k
  {
    var rule := rules[order[k]];
    RuleMeaning(rule, tokenKeys, ruleKeys, err);
    if k == m {
      LastCodeIgnoresState(rule.productionRules, |rule.productionRules|, tokenKeys, ruleKeys, err, None);
    } else {
      var r := ResolveRule(rule, tokenKeys, ruleKeys, err);
      var rules' := rules[order[k] := r.value];
      assert rules'.Keys == rules.Keys;
      assert forall i | k < i < |order| :: rules'[order[i]] == rules[order[i]];
      RulesFirstFailure(rules', order, k + 1, m, tokenKeys, ruleKeys, r.errorAt);
    }
  }

  // ---------------------------------------------------------------------------
  // The whole resolution
  // ---------------------------------------------------------------------------

  /** The return value, both tables, and the error state. */
  datatype Resolved = Resolved(code: int, tokens: map<string, TokenData>, rules: map<string, Rule>, errorAt: Option<StringItem>)

  /**
   * prs_resolveSymbols: the token loop, then, if it succeeded, the rule
   * loop. Lookups are by key, and keys never change, so every lookup is
   * made in the tables as they were on entry.
   */
  function Resolve(tokens: map<string, TokenData>, rules: map<string, Rule>,
                   tokenOrder: seq<string>, ruleOrder: seq<string>, err: Option<StringItem>): Resolved
    requires Lists(tokenOrder, tokens.Keys) && Lists(ruleOrder, rules.Keys) && RefsNamed(tokens)
  {
    var t := ResolveTokensFrom(tokens, tokenOrder, 0, err);
    if t.code != OK then Resolved(t.code, t.value, rules, t.errorAt)
    else
      var r := ResolveRulesFrom(rules, ruleOrder, 0, tokens.Keys, rules.Keys, t.errorAt);
      Resolved(r.code, t.value, r.value, r.errorAt)
  }

  /** Every reference of the grammar names an entry of the right table. */
  predicate Resolvable(tokens: map<string, TokenData>, rules: map<string, Rule>)
    requires RefsNamed(tokens)
  {
    && (forall n | n in tokens :: RefResolves(tokens[n], tokens.Keys))
    && (forall n | n in rules :: RuleOk(rules[n], tokens.Keys, rules.Keys))
  }

  /** The token loop over a whole table: FG_OK exactly when every reference resolves, and then all are linked. */
  lemma TokensWhole(tokens: map<string, TokenData>, order: seq<string>, err: Option<StringItem>)
    requires Enumerates(order, tokens.Keys) && RefsNamed(tokens)
    ensures var r := ResolveTokensFrom(tokens, order, 0, err);
            && r.value.Keys == tokens.Keys
            && (forall n | n in tokens :: StripToken(r.value[n]) == StripToken(tokens[n]))
            && (r.code == OK <==> forall n | n in tokens :: RefResolves(tokens[n], tokens.Keys))
            && (r.code == OK ==> forall n | n in tokens :: r.value[n] == LinkToken(tokens[n]))
            && (r.code == OK ==> r.errorAt == err)
            && (r.code != OK ==> r.code == UnknownToken.Value() && r.errorAt.Some?)
  {
    TokensFrom(tokens, order, 0, err);
    var r := ResolveTokensFrom(tokens, order, 0, err);
    forall n | n in tokens
      ensures exists i :: 0 <= i < |order| && order[i] == n
    {
    }
  }

  /** The rule loop over a whole table: FG_OK exactly when every rule resolves, and then all are linked. */
  lemma RulesWhole(rules: map<string, Rule>, order: seq<string>, tokenKeys: set<string>, err: Option<StringItem>)
    requires Enumerates(order, rules.Keys)
    ensures var r := ResolveRulesFrom(rules, order, 0, tokenKeys, rules.Keys, err);
            && r.value.Keys == rules.Keys
            && (forall n | n in rules :: StripRule(r.value[n]) == StripRule(rules[n]))
            && (r.code == OK <==> forall n | n in rules :: RuleOk(rules[n], tokenKeys, rules.Keys))
            && (r.code == OK ==> forall n | n in rules :: r.value[n] == LinkRule(rules[n]))
            && (r.code == OK ==> r.errorAt == err)
            && (r.code != OK ==> (r.code == UnknownRule.Value() || r.code == UnknownToken.Value()) && r.errorAt.Some?)
  {
    RulesFromShape(rules, order, 0, tokenKeys, rules.Keys, err);
    RulesFrom(rules, order, 0, tokenKeys, rules.Keys, err);
    RulesFromLinked(rules, order, 0, tokenKeys, rules.Keys, err);
    forall n | n in rules
      ensures exists i :: 0 <= i < |order| && order[i] == n
    {
    }
  }

  /**
   * The whole resolution, whatever the iteration orders: it returns FG_OK
   * exactly when every reference resolves, and then every token and rule is
   * linked; in every case only links change and the keys stay; a failure is
   * one of the two unknown-symbol codes with the error state set.
   */
  lemma ResolveMeaning(tokens: map<string, TokenData>, rules: map<string, Rule>,
                       tokenOrder: seq<string>, ruleOrder: seq<string>, err: Option<StringItem>)
    requires Enumerates(tokenOrder, tokens.Keys) && Enumerates(ruleOrder, rules.Keys) && RefsNamed(tokens)
    ensures var r := Resolve(tokens, rules, tokenOrder, ruleOrder, err);
            && (r.code == OK <==> Resolvable(tokens, rules))
            && r.tokens.Keys == tokens.Keys && r.rules.Keys == rules.Keys
            && (forall n | n in tokens :: StripToken(r.tokens[n]) == StripToken(tokens[n]))
            && (forall n | n in rules :: StripRule(r.rules[n]) == StripRule(rules[n]))
            && (r.code == OK ==> forall n | n in tokens :: r.tokens[n] == LinkToken(tokens[n]))
            && (r.code == OK ==> forall n | n in rules :: r.rules[n] == LinkRule(rules[n]))
            && (r.code == OK ==> r.errorAt == err)
            && (r.code != OK ==> (r.code == UnknownRule.Value() || r.code == UnknownToken.Value()) && r.errorAt.Some?)
  {
    TokensWhole(tokens, tokenOrder, err);
    RulesWhole(rules, ruleOrder, tokens.Keys, err);
  }

  // ---------------------------------------------------------------------------
  // prs_resolveSymbols
  // ---------------------------------------------------------------------------

  /**
   * resolveProductionRulesSymbols on one production rule, the table keys
   * given: links each rule or token item in turn and stops at the first
   * whose name is not a key.
   */
  method ResolvePRItems(pr: seq<PRItem>, tokenKeys: set<string>, ruleKeys: set<string>, err: Option<StringItem>)
    returns (code: int, pr': seq<PRItem>, err': Option<StringItem>)
    ensures Outcome(code, pr', err') == ResolvePR(pr, tokenKeys, ruleKeys, err)
  {
    pr' := pr;
    var i := 0;
    while i < |pr|
      invariant i <= |pr|
      invariant pr' == LinkUpTo(pr, i)
      invariant FirstUnresolved(pr, 0, tokenKeys, ruleKeys) == FirstUnresolved(pr, i, tokenKeys, ruleKeys)
      decreases |pr| - i
    {
      var prItem := pr[i];
      if prItem.kind == RuleItem {
        if prItem.symbol.text !in ruleKeys {
          return UnknownRule.Value(), pr', Some(prItem.symbol);
        }
        pr' := pr'[i := prItem.(link := Some(prItem.symbol.text))];
      } else if prItem.kind == TokenItem {
        if prItem.symbol.text !in tokenKeys {
          return UnknownToken.Value(), pr', Some(prItem.symbol);
        }
        pr' := pr'[i := prItem.(link := Some(prItem.symbol.text))];
      }
      i := i + 1;
    }
    return OK, pr', err;
  }

  /**
   * ll_forEachItem(resolveProductionRulesSymbols) over a rule's production
   * rules: every production rule is walked; the code and error state are
   * those of the last one that failed.
   */
  method ResolveRuleItems(rule: Rule, tokenKeys: set<string>, ruleKeys: set<string>, err: Option<StringItem>)
    returns (code: int, rule': Rule, err': Option<StringItem>)
    ensures Outcome(code, rule', err') == ResolveRule(rule, tokenKeys, ruleKeys, err)
  {
    var prs := rule.productionRules;
    var prs' := prs;
    code, err' := OK, err;
    var j := 0;
    while j < |prs|
      invariant j <= |prs| && |prs'| == |prs|
      invariant (code, err') == LastFailure(prs, j, tokenKeys, ruleKeys, err)
      invariant forall m | 0 <= m < j :: prs'[m] == Walked(prs[m], tokenKeys, ruleKeys)
      decreases |prs| - j
    {
      ghost var acc := (code, err');
      var c, pr, e := ResolvePRItems(prs[j], tokenKeys, ruleKeys, err');
      LastFailureStep(prs, j, tokenKeys, ruleKeys, err, acc, Outcome(c, pr, e));
      if c != OK {
        code, err' := c, e;
      }
      prs' := prs'[j := pr];
      j := j + 1;
    }
    rule' := rule.(productionRules := prs');
    RuleWalked(rule, prs', tokenKeys, ruleKeys, err, code, err');
  }

  /** Every production rule walked, the last failure kept: the outcome ResolveRule says. */
  lemma RuleWalked(rule: Rule, prs': seq<seq<PRItem>>, tokenKeys: set<string>, ruleKeys: set<string>, err: Option<StringItem>,
                   code: int, err': Option<StringItem>)
    requires |prs'| == |rule.productionRules|
    requires forall m | 0 <= m < |prs'| :: prs'[m] == Walked(rule.productionRules[m], tokenKeys, ruleKeys)
    requires (code, err') == LastFailure(rule.productionRules, |prs'|, tokenKeys, ruleKeys, err)
    ensures Outcome(code, rule.(productionRules := prs'), err') == ResolveRule(rule, tokenKeys, ruleKeys, err)
  {
    var prs := rule.productionRules;
    assert prs' == seq(|prs|, m requires 0 <= m < |prs| => Walked(prs[m], tokenKeys, ruleKeys));
  }

  /**
   * prs_resolveSymbols on grammar g, its tables walked in the given orders:
   * the tables end as Resolve says, and the entry rule is not touched.
   */
  method ResolveSymbols(g: Grammar, tokenOrder: seq<string>, ruleOrder: seq<string>, err: Option<StringItem>)
    returns (code: int, err': Option<StringItem>)
    requires Lists(tokenOrder, g.tokens.Keys) && Lists(ruleOrder, g.rules.Keys) && RefsNamed(g.tokens)
    modifies g
    ensures var r := Resolve(old(g.tokens), old(g.rules), tokenOrder, ruleOrder, err);
            && code == r.code && err' == r.errorAt
            && g.tokens == r.tokens && g.rules == r.rules && g.entry == old(g.entry)
  {
    ghost var whole := Resolve(g.tokens, g.rules, tokenOrder, ruleOrder, err);
    ghost var tokenKeys, ruleKeys := g.tokens.Keys, g.rules.Keys;
    ghost var tokensOutcome := ResolveTokensFrom(g.tokens, tokenOrder, 0, err);
    var k := 0;
    while k < |tokenOrder|
      invariant k <= |tokenOrder| && g.tokens.Keys == tokenKeys && RefsNamed(g.tokens)
      invariant ResolveTokensFrom(g.tokens, tokenOrder, k, err) == tokensOutcome
      invariant g.rules == old(g.rules) && g.entry == old(g.entry)
      decreases |tokenOrder| - k
    {
      var token := g.tokens[tokenOrder[k]];
      if token.kind == RefToken {
        var refTokenValue := token.ref.value;
        if refTokenValue.symbol.text !in g.tokens {
          return UnknownToken.Value(), Some(refTokenValue.symbol);
        }
        g.tokens := g.tokens[tokenOrder[k] := token.(ref := Some(refTokenValue.(link := Some(refTokenValue.symbol.text))))];
      }
      k := k + 1;
    }
    ghost var rulesOutcome := ResolveRulesFrom(g.rules, ruleOrder, 0, tokenKeys, ruleKeys, err);
    err' := err;
    k := 0;
    while k < |ruleOrder|
      invariant k <= |ruleOrder| && g.rules.Keys == ruleKeys && g.tokens.Keys == tokenKeys
      invariant ResolveRulesFrom(g.rules, ruleOrder, k, tokenKeys, ruleKeys, err') == rulesOutcome
      invariant g.tokens == tokensOutcome.value && g.entry == old(g.entry)
      decreases |ruleOrder| - k
    {
      var c, rule, e := ResolveRuleItems(g.rules[ruleOrder[k]], g.tokens.Keys, g.rules.Keys, err');
      g.rules := g.rules[ruleOrder[k] := rule];
      err' := e;
      if c != OK {
        return c, err';
      }
      k := k + 1;
    }
    return OK, err';
  }
}
