/** What a merge achieves, what it leaves alone, and how resolution changes. */
module MerchantMergeProperties {
  import opened Outcomes
  import opened JsonText
  import opened RuleLanguage
  import opened RuleEvaluation
  import opened MerchantRewrite
  import opened MerchantMerge

  // ---- rules ----

  lemma {:induction false} RewrittenRules(gate: Rule -> bool, rules: seq<Rule>, source: Text, target: Text, n: nat)
    requires n <= |rules| && RewriteRules(gate, rules, source, target, n).Some?
    ensures var r := RewriteRules(gate, rules, source, target, n).value;
            forall i :: 0 <= i < n ==> gate(rules[i]) && r[i] == RewriteIfParsed(rules[i], source, target)
  {
    if n > 0 {
      RewrittenRules(gate, rules, source, target, n - 1);
    }
  }

  lemma {:induction false} RewritingIsGated(gate: Rule -> bool, rules: seq<Rule>, source: Text, target: Text, n: nat)
    requires n <= |rules|
    ensures RewriteRules(gate, rules, source, target, n).Some? <==> forall i :: 0 <= i < n ==> gate(rules[i])
  {
    if n > 0 {
      RewritingIsGated(gate, rules, source, target, n - 1);
    }
  }

  predicate RuleFree(rule: Rule, id: Text) {
    && (rule.conditions.Some? ==> NodeFree(rule.conditions.value, id))
    && (rule.actions.Some? ==> ActionsFree(rule.actions.value, id))
  }

  lemma RewrittenRuleIsFree(rule: Rule, source: Text, target: Text)
    requires rule.conditions.Some? && rule.actions.Some? && source != target
    ensures RuleFree(RewriteRule(rule, source, target), source)
  {
    RewriteFreesNode(rule.conditions.value, source, target);
    RewriteIsIdempotent(rule.conditions.value, rule.actions.value, source, target);
  }

  lemma FreeRuleStays(rule: Rule, source: Text, target: Text)
    requires RuleFree(rule, source) && source != target
    ensures RewriteIfParsed(rule, source, target) == rule
  {
    if rule.conditions.Some? && rule.actions.Some? {
      RewriteFixesFree(rule.conditions.value, source, target);
      var operations := rule.actions.value;
      assert RewriteActions(operations, source, target) == operations;
    }
  }

  /** Rewriting leaves the categories a rule sets alone. */
  lemma CategoriesStay(checks: Checks, rule: Rule, source: Text, target: Text)
    requires rule.conditions.Some? && rule.actions.Some?
    ensures CategoriesVisible(checks, RewriteRule(rule, source, target)) <==> CategoriesVisible(checks, rule)
  {
    var before := rule.actions.value;
    var after := RewriteActions(before, source, target);
    assert forall i :: 0 <= i < |before| ==>
        (after[i].SetCategory? <==> before[i].SetCategory?) && (before[i].SetCategory? ==> after[i] == before[i]);
  }

  /**
   A stored rule goes through exactly when it is valid and, if it names the source, every category it sets is
   active and visible.
   */
  lemma WritableExactly(checks: Checks, rule: Rule, source: Text, target: Text)
    requires IsUuid(checks.formats, target) && source != target
    ensures Writable(checks, source, target, rule) <==>
            RuleValid(checks.formats, rule) && (RuleFree(rule, source) || CategoriesVisible(checks, rule))
  {
    if RuleValid(checks.formats, rule) {
      RewriteKeepsValidity(checks.formats, rule.conditions.value, rule.actions.value, source, target);
      CategoriesStay(checks, rule, source, target);
      RewrittenRuleIsFree(rule, source, target);
      if RuleFree(rule, source) {
        FreeRuleStays(rule, source, target);
      }
    }
  }

  // ---- decisions ----

  /** Two decisions on one transaction and input, one by the source and one by the target. */
  predicate Collide(source: Text, target: Text, a: Decision, b: Decision) {
    && a.source.ByMerchant? && a.reference == source && b.source.ByMerchant? && b.reference == target
    && a.transaction == b.transaction && a.fingerprint == b.fingerprint
  }

  predicate DecisionsCollideIn(decisions: map<nat, Decision>, source: Text, target: Text) {
    exists a, b :: a in decisions && b in decisions && Collide(source, target, decisions[a], decisions[b])
  }

  /** Redirected, the decisions keep their unique key exactly when no two of them collide. */
  lemma RedirectedDecisionsAreUnique(decisions: map<nat, Decision>, source: Text, target: Text)
    requires UniqueDecisions(decisions) && source != target
    ensures UniqueDecisions(RedirectDecisions(decisions, source, target))
            <==> !DecisionsCollideIn(decisions, source, target)
  {
    var after := RedirectDecisions(decisions, source, target);
    if a, b :| a in decisions && b in decisions && Collide(source, target, decisions[a], decisions[b]) {
      assert SameEvaluation(after[a], after[b]) && a != b;
    }
    if a, b :| a in after && b in after && a != b && SameEvaluation(after[a], after[b]) {
      assert !SameEvaluation(decisions[a], decisions[b]);
      assert Collide(source, target, decisions[a], decisions[b]) || Collide(source, target, decisions[b], decisions[a]);
    }
  }

  // ---- when a merge commits ----

  /**
   A merge commits exactly when no guard refuses it, no transaction carries a decision by the source and one by
   the target on the same input, and every stored rule is valid and, if it names the source, sets only
   categories that are active and visible.
   */
  lemma MergeSucceedsExactly(checks: Checks, t: Tables, source: Text, target: Text, actorId: string)
    requires UuidKeys(checks.formats, t) && UniqueDecisions(t.decisions)
    ensures Merged(checks, t, source, target, actorId).Ok? <==>
            && Refusal(checks, t, source, target, actorId).None?
            && !DecisionsCollideIn(t.decisions, source, target)
            && forall i :: 0 <= i < |t.rules| ==>
                 && RuleValid(checks.formats, t.rules[i])
                 && (RuleFree(t.rules[i], source) || CategoriesVisible(checks, t.rules[i]))
  {
    if Refusal(checks, t, source, target, actorId).None? {
      RedirectedDecisionsAreUnique(t.decisions, source, target);
      RulesGoThrough(checks, t.rules, source, target);
    }
  }

  lemma RulesGoThrough(checks: Checks, rules: seq<Rule>, source: Text, target: Text)
    requires IsUuid(checks.formats, target) && source != target
    ensures RewriteRules(Gate(checks, source, target), rules, source, target, |rules|).Some? <==>
            forall i :: 0 <= i < |rules| ==>
              && RuleValid(checks.formats, rules[i])
              && (RuleFree(rules[i], source) || CategoriesVisible(checks, rules[i]))
  {
    var gate := Gate(checks, source, target);
    RewritingIsGated(gate, rules, source, target, |rules|);
    forall i | 0 <= i < |rules|
      ensures gate(rules[i]) <==>
              && RuleValid(checks.formats, rules[i])
              && (RuleFree(rules[i], source) || CategoriesVisible(checks, rules[i]))
    {
      WritableExactly(checks, rules[i], source, target);
    }
  }

  // ---- no reference to the source is left ----

  ghost predicate ColumnFree(column: map<nat, Option<Text>>, id: Text) {
    forall k :: k in column ==> column[k] != Some(id)
  }

  /** No table names the merchant. */
  ghost predicate Unnamed(t: Tables, id: Text) {
    && id !in t.merchants
    && (forall k :: k in t.aliases ==> t.aliases[k].merchantId != id)
    && ColumnFree(t.transactions, id) && ColumnFree(t.installments, id) && ColumnFree(t.recurring, id)
    && (forall k :: k in t.states ==> t.states[k].merchant.value != Some(id))
    && (forall k :: k in t.decisions ==> t.decisions[k].merchantId != Some(id)
                                         && (t.decisions[k].source.ByMerchant? ==> t.decisions[k].reference != id))
    && (forall i :: 0 <= i < |t.rules| ==> RuleFree(t.rules[i], id))
  }

  lemma RulesAreFree(checks: Checks, rules: seq<Rule>, source: Text, target: Text)
    requires source != target && RewriteRules(Gate(checks, source, target), rules, source, target, |rules|).Some?
    ensures forall i :: 0 <= i < |rules| ==>
              RuleFree(RewriteRules(Gate(checks, source, target), rules, source, target, |rules|).value[i], source)
  {
    RewrittenRules(Gate(checks, source, target), rules, source, target, |rules|);
    forall i | 0 <= i < |rules|
      ensures RuleFree(RewriteIfParsed(rules[i], source, target), source)
    {
      assert Gate(checks, source, target)(rules[i]);
      RewrittenRuleIsFree(rules[i], source, target);
    }
  }

  /** After a merge nothing names the source. */
  lemma MergeLeavesNoReference(checks: Checks, t: Tables, source: Text, target: Text, actorId: string)
    requires Merged(checks, t, source, target, actorId).Ok?
    ensures Unnamed(Merged(checks, t, source, target, actorId).value, source)
  {
    RulesAreFree(checks, t.rules, source, target);
  }

  // ---- everything else stays ----

  ghost predicate ColumnKept(before: map<nat, Option<Text>>, after: map<nat, Option<Text>>, source: Text,
                             target: Text) {
    && after.Keys == before.Keys
    && forall k :: k in before ==> after[k] == if before[k] == Some(source) then Some(target) else before[k]
  }

  /** A decision keeps all but the source's id, in its merchant and, if a merchant made it, in its reference. */
  ghost predicate DecisionsKept(before: map<nat, Decision>, after: map<nat, Decision>, source: Text, target: Text) {
    && after.Keys == before.Keys
    && forall k :: k in before ==>
         after[k] == before[k].(
           merchantId := RenamedOption(before[k].merchantId, source, target),
           reference := if before[k].source.ByMerchant? && before[k].reference == source then target
                        else before[k].reference)
  }

  /** Other states stay; a redirected override keeps everything else and counts one version. */
  ghost predicate StatesKept(before: map<nat, U.State>, after: map<nat, U.State>, source: Text, target: Text) {
    && after.Keys == before.Keys
    && (forall k :: k in before && before[k].merchant.value != Some(source) ==> after[k] == before[k])
    && (forall k :: k in before && before[k].merchant.value == Some(source) ==>
          after[k] == before[k].(merchant := U.Override(before[k].merchant.enabled, Some(target)),
                                 version := before[k].version + 1))
  }

  /** The alias of the source's own key is the target's and live; every other one keeps all but the source's id. */
  ghost predicate AliasesKept(before: map<Text, Alias>, after: map<Text, Alias>, own: Text, source: Text,
                              target: Text) {
    && after.Keys == before.Keys + {own}
    && after[own] == Alias(target, if own in before then before[own].matchType else Exact, true, true, true)
    && forall k :: k in before && k != own ==>
         after[k] == before[k].(merchantId := Renamed(before[k].merchantId, source, target))
  }

  /** The source row goes; the target gains at most a tax number that only the source had; no other row changes. */
  ghost predicate MerchantsKept(before: map<Text, Merchant>, after: map<Text, Merchant>, source: Text, target: Text)
    requires source in before && target in before
  {
    && after.Keys == before.Keys - {source} && target in after
    && (forall id :: id in after && id != target ==> after[id] == before[id])
    && after[target] == before[target].(cnpj := if before[target].cnpj.Some? then before[target].cnpj
                                        else before[source].cnpj)
  }

  lemma RowsRedirected(t: Tables, source: Text, target: Text)
    requires source != target
    ensures ColumnKept(t.transactions, RedirectColumn(t.transactions, source, target), source, target)
    ensures ColumnKept(t.installments, RedirectColumn(t.installments, source, target), source, target)
    ensures ColumnKept(t.recurring, RedirectColumn(t.recurring, source, target), source, target)
    ensures StatesKept(t.states, M.RedirectAll(t.states, source, target), source, target)
    ensures DecisionsKept(t.decisions, RedirectDecisions(t.decisions, source, target), source, target)
  {
  }

  lemma AliasesRedirected(aliases: map<Text, Alias>, own: Text, source: Text, target: Text)
    requires source != target
    ensures AliasesKept(aliases, RedirectAliases(aliases, own, source, target), own, source, target)
  {
    assert Renamed(target, source, target) == target;
  }

  lemma MerchantsRedirected(merchants: map<Text, Merchant>, source: Text, target: Text)
    requires source in merchants && target in merchants && source != target
    ensures MerchantsKept(merchants, MergedMerchants(merchants, source, target), source, target)
  {
  }

  /** Every row of every table is the row before with the source's id replaced, but for what is said of its kind. */
  lemma MergeRedirectsOnly(checks: Checks, t: Tables, source: Text, target: Text, actorId: string)
    requires Merged(checks, t, source, target, actorId).Ok?
    ensures var after := Merged(checks, t, source, target, actorId).value;
            && ColumnKept(t.transactions, after.transactions, source, target)
            && ColumnKept(t.installments, after.installments, source, target)
            && ColumnKept(t.recurring, after.recurring, source, target)
            && StatesKept(t.states, after.states, source, target)
            && DecisionsKept(t.decisions, after.decisions, source, target)
            && AliasesKept(t.aliases, after.aliases, t.merchants[source].normalizedKey, source, target)
            && MerchantsKept(t.merchants, after.merchants, source, target)
            && after.audit == t.audit + [AuditEntry(actorId, target, source)]
  {
    RowsRedirected(t, source, target);
    AliasesRedirected(t.aliases, t.merchants[source].normalizedKey, source, target);
    MerchantsRedirected(t.merchants, source, target);
  }

  /** A rule that does not name the source is stored as it was. */
  lemma MergeKeepsOtherRules(checks: Checks, t: Tables, source: Text, target: Text, actorId: string)
    requires Merged(checks, t, source, target, actorId).Ok?
    ensures var after := Merged(checks, t, source, target, actorId).value;
            && |after.rules| == |t.rules|
            && (forall i :: 0 <= i < |t.rules| && RuleFree(t.rules[i], source) ==> after.rules[i] == t.rules[i])
  {
    RewrittenRules(Gate(checks, source, target), t.rules, source, target, |t.rules|);
    forall i | 0 <= i < |t.rules| && RuleFree(t.rules[i], source)
      ensures RewriteIfParsed(t.rules[i], source, target) == t.rules[i]
    {
      FreeRuleStays(t.rules[i], source, target);
    }
  }

  lemma AliasesStayOwned(aliases: map<Text, Alias>, merchants: map<Text, Merchant>, own: Text, source: Text,
                         target: Text)
    requires AliasesRefer(aliases, merchants.Keys) && target in merchants && source != target
    ensures AliasesRefer(RedirectAliases(aliases, own, source, target), merchants.Keys - {source})
  {
  }

  lemma RowsStayOwned(t: Tables, source: Text, target: Text)
    requires Referential(t) && target in t.merchants && source != target
    ensures ColumnRefers(RedirectColumn(t.transactions, source, target), t.merchants.Keys - {source})
    ensures StatesRefer(M.RedirectAll(t.states, source, target), t.merchants.Keys - {source})
    ensures DecisionsRefer(RedirectDecisions(t.decisions, source, target), t.merchants.Keys - {source})
    ensures ColumnRefers(RedirectColumn(t.installments, source, target), t.merchants.Keys - {source})
    ensures ColumnRefers(RedirectColumn(t.recurring, source, target), t.merchants.Keys - {source})
  {
  }

  lemma MerchantsStayUnique(merchants: map<Text, Merchant>, source: Text, target: Text)
    requires UniqueMerchants(merchants) && source in merchants && target in merchants && source != target
    ensures UniqueMerchants(MergedMerchants(merchants, source, target))
    ensures MergedMerchants(merchants, source, target).Keys == merchants.Keys - {source}
  {
    var after := MergedMerchants(merchants, source, target);
    assert forall id :: id in after ==> after[id].normalizedKey == merchants[id].normalizedKey;
    assert forall id :: id in after && id != target ==> after[id] == merchants[id];
  }

  /** Foreign keys and unique indexes hold again. */
  lemma MergeKeepsReferential(checks: Checks, t: Tables, source: Text, target: Text, actorId: string)
    requires Referential(t) && Merged(checks, t, source, target, actorId).Ok?
    ensures Referential(Merged(checks, t, source, target, actorId).value)
  {
    AliasesStayOwned(t.aliases, t.merchants, t.merchants[source].normalizedKey, source, target);
    RowsStayOwned(t, source, target);
    MerchantsStayUnique(t.merchants, source, target);
  }

  // ---- resolution ----

  lemma KeyOwnerIs(t: Tables, key: Text)
    requires Referential(t)
    ensures KeyOwner(t, key).Some? ==>
              KeyOwner(t, key).value in t.merchants && t.merchants[KeyOwner(t, key).value].normalizedKey == key
    ensures forall id :: id in t.merchants && t.merchants[id].normalizedKey == key ==> KeyOwner(t, key) == Some(id)
  {
    forall id | id in t.merchants && t.merchants[id].normalizedKey == key
      ensures OwnersIn(t.merchants, key) == {id}
    {
    }
    if KeyOwner(t, key).Some? {
      assert KeyOwner(t, key).value in OwnersIn(t.merchants, key) by {
        if OwnersIn(t.merchants, key) != {} {
          var id :| id in OwnersIn(t.merchants, key);
          assert OwnersIn(t.merchants, key) == {id};
        }
      }
    }
  }

  lemma OwnersAfter(merchants: map<Text, Merchant>, source: Text, target: Text, key: Text)
    requires source in merchants && target in merchants && source != target && key != merchants[source].normalizedKey
    ensures OwnersIn(MergedMerchants(merchants, source, target), key) == OwnersIn(merchants, key)
  {
    var after := MergedMerchants(merchants, source, target);
    MerchantsRedirected(merchants, source, target);
    assert forall id :: id in after ==> after[id].normalizedKey == merchants[id].normalizedKey;
  }

  lemma KeyOwnerAfter(checks: Checks, t: Tables, source: Text, target: Text, actorId: string, key: Text)
    requires Referential(t) && Merged(checks, t, source, target, actorId).Ok?
    requires key != t.merchants[source].normalizedKey
    ensures KeyOwner(Merged(checks, t, source, target, actorId).value, key) == KeyOwner(t, key) != Some(source)
  {
    KeyOwnerIs(t, key);
    OwnersAfter(t.merchants, source, target, key);
  }

  lemma AliasAfter(checks: Checks, t: Tables, source: Text, target: Text, actorId: string, key: Text)
    requires Merged(checks, t, source, target, actorId).Ok?
    ensures var after, own := Merged(checks, t, source, target, actorId).value, t.merchants[source].normalizedKey;
            && (LiveAlias(after, key) <==> key == own || LiveAlias(t, key))
            && (key == own ==> after.aliases[key].merchantId == target)
            && (LiveAlias(t, key) ==>
                after.aliases[key].merchantId == Renamed(t.aliases[key].merchantId, source, target))
  {
  }

  /** The alias the merge adds for the source's key is met before any alias that was live. */
  predicate NewAliasWins(t: Tables, own: Text, keys: seq<Text>) {
    keys != [] && !LiveAlias(t, keys[0]) && (keys[0] == own || NewAliasWins(t, own, keys[1..]))
  }

  lemma {:induction false} AliasStageAfter(checks: Checks, t: Tables, source: Text, target: Text, actorId: string,
                                           keys: seq<Text>)
    requires Merged(checks, t, source, target, actorId).Ok?
    ensures FirstAlias(Merged(checks, t, source, target, actorId).value, keys) ==
            if NewAliasWins(t, t.merchants[source].normalizedKey, keys) then Some(target)
            else RenamedOption(FirstAlias(t, keys), source, target)
  {
    if keys != [] {
      AliasAfter(checks, t, source, target, actorId, keys[0]);
      AliasStageAfter(checks, t, source, target, actorId, keys[1..]);
    }
  }

  lemma {:induction false} KeyStageAfter(checks: Checks, t: Tables, source: Text, target: Text, actorId: string,
                                         keys: seq<Text>)
    requires Referential(t) && Merged(checks, t, source, target, actorId).Ok?
    requires FirstAlias(t, keys).None? && !NewAliasWins(t, t.merchants[source].normalizedKey, keys)
    ensures FirstKey(Merged(checks, t, source, target, actorId).value, keys) == FirstKey(t, keys) != Some(source)
  {
    if keys != [] {
      KeyOwnerAfter(checks, t, source, target, actorId, keys[0]);
      KeyStageAfter(checks, t, source, target, actorId, keys[1..]);
    }
  }

  /** Resolution after a merge, for any candidate keys. */
  lemma ResolutionAfterMerge(checks: Checks, t: Tables, source: Text, target: Text, actorId: string, keys: seq<Text>)
    requires Referential(t) && Merged(checks, t, source, target, actorId).Ok?
    ensures Resolved(Merged(checks, t, source, target, actorId).value, keys) ==
            if NewAliasWins(t, t.merchants[source].normalizedKey, keys) then Some(target)
            else RenamedOption(Resolved(t, keys), source, target)
  {
    AliasStageAfter(checks, t, source, target, actorId, keys);
    if FirstAlias(t, keys).None? && !NewAliasWins(t, t.merchants[source].normalizedKey, keys) {
      KeyStageAfter(checks, t, source, target, actorId, keys);
    }
  }

  /** One key always resolves as before, with the source renamed. */
  lemma SingleKeyResolution(checks: Checks, t: Tables, source: Text, target: Text, actorId: string, key: Text)
    requires Referential(t) && Merged(checks, t, source, target, actorId).Ok?
    ensures Resolved(Merged(checks, t, source, target, actorId).value, [key])
            == RenamedOption(Resolved(t, [key]), source, target)
  {
    ResolutionAfterMerge(checks, t, source, target, actorId, [key]);
    OwnKeyResolves(t, source, key);
  }

  lemma OwnKeyResolves(t: Tables, source: Text, key: Text)
    requires Referential(t) && source in t.merchants
    ensures NewAliasWins(t, t.merchants[source].normalizedKey, [key]) ==> Resolved(t, [key]) == Some(source)
  {
    KeyOwnerIs(t, key);
    var own, rest := t.merchants[source].normalizedKey, [key][1..];
    assert rest == [] && !NewAliasWins(t, own, rest) && FirstAlias(t, rest).None?;
    assert own == key ==> KeyOwner(t, key) == Some(source);
    assert own == key && !LiveAlias(t, key) ==> FirstAlias(t, [key]).None? && FirstKey(t, [key]) == Some(source);
  }

  /** Several keys do, unless the new alias overtakes a key that led to a third merchant or to none. */
  lemma ManyKeysResolution(checks: Checks, t: Tables, source: Text, target: Text, actorId: string, keys: seq<Text>)
    requires Referential(t) && Merged(checks, t, source, target, actorId).Ok?
    ensures Resolved(Merged(checks, t, source, target, actorId).value, keys)
            == RenamedOption(Resolved(t, keys), source, target) <==>
            !NewAliasWins(t, t.merchants[source].normalizedKey, keys)
            || Resolved(t, keys) == Some(source) || Resolved(t, keys) == Some(target)
  {
    ResolutionAfterMerge(checks, t, source, target, actorId, keys);
  }

  /** Three merchants without aliases, with keys "a", "b" and "c". */
  function ThreeMerchants(a: Text, b: Text, c: Text): Tables {
    Tables(map[a := Merchant([97], None), b := Merchant([98], None), c := Merchant([99], None)],
           map[], map[], map[], map[], map[], map[], [], [])
  }

  lemma ThreeKeys(a: Text, b: Text, c: Text)
    requires a != b && a != c && b != c
    ensures var merchants := ThreeMerchants(a, b, c).merchants;
            && merchants.Keys == {a, b, c} && UniqueMerchants(merchants)
            && merchants[a] == Merchant([97], None) && merchants[b] == Merchant([98], None)
               && merchants[c] == Merchant([99], None)
  {
    var ka: Text, kb: Text, kc: Text := [97], [98], [99];
    assert ka[0] == 97 && kb[0] == 98 && kc[0] == 99;
  }

  lemma ThreeMerchantsMerge(checks: Checks, actorId: string, a: Text, b: Text, c: Text)
    requires ActorValid(checks, actorId) && a != b && a != c && b != c
    ensures Referential(ThreeMerchants(a, b, c)) && Merged(checks, ThreeMerchants(a, b, c), a, b, actorId).Ok?
  {
    ThreeKeys(a, b, c);
  }

  lemma ThirdMerchantBefore(a: Text, b: Text, c: Text)
    requires a != b && a != c && b != c
    ensures Resolved(ThreeMerchants(a, b, c), [[99], [97]]) == Some(c)
  {
    var t, keys: seq<Text> := ThreeMerchants(a, b, c), [[99], [97]];
    ThreeKeys(a, b, c);
    KeyOwnerIs(t, [99]);
    assert keys[0] == [99] && keys[1..] == [[97]] && keys[1..][1..] == [];
    assert FirstAlias(t, keys[1..][1..]) == None && FirstAlias(t, keys[1..]) == None;
  }

  /** Before, the first key names the third merchant; afterwards the source's key, now an alias, wins. */
  lemma ThirdMerchantIsOvertaken(checks: Checks, actorId: string, a: Text, b: Text, c: Text)
    requires ActorValid(checks, actorId) && a != b && a != c && b != c
    requires IsUuid(checks.formats, a) && IsUuid(checks.formats, b) && IsUuid(checks.formats, c)
    ensures UuidKeys(checks.formats, ThreeMerchants(a, b, c)) && Referential(ThreeMerchants(a, b, c))
    ensures Merged(checks, ThreeMerchants(a, b, c), a, b, actorId).Ok?
    ensures Resolved(ThreeMerchants(a, b, c), [[99], [97]]) == Some(c)
    ensures Resolved(Merged(checks, ThreeMerchants(a, b, c), a, b, actorId).value, [[99], [97]]) == Some(b)
  {
    ThreeKeys(a, b, c);
    ThreeMerchantsMerge(checks, actorId, a, b, c);
    ThirdMerchantBefore(a, b, c);
    var t, keys: seq<Text> := ThreeMerchants(a, b, c), [[99], [97]];
    assert keys[0] == [99] && keys[1..] == [[97]];
    assert NewAliasWins(t, [97], keys[1..]);
    assert NewAliasWins(t, [97], keys);
    ResolutionAfterMerge(checks, t, a, b, actorId, keys);
  }
}
