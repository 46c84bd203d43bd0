/** Merges that the database stops although every check of the code passes: one input for each cause. */
module MerchantMergeAborts {
  import opened Outcomes
  import opened JsonText
  import opened RuleLanguage
  import opened RuleEvaluation
  import opened MerchantRewrite
  import opened MerchantMerge
  import opened MerchantMergeProperties

  /** Two merchants with keys "a" and "b", and nothing else but the given decisions and rules. */
  function TwoMerchants(a: Text, b: Text, decisions: map<nat, Decision>, rules: seq<Rule>): Tables {
    Tables(map[a := Merchant([97], None), b := Merchant([98], None)],
           map[], map[], map[], decisions, map[], map[], rules, [])
  }

  lemma TwoMerchantsMayMerge(checks: Checks, actorId: string, a: Text, b: Text, decisions: map<nat, Decision>,
                             rules: seq<Rule>)
    requires ActorValid(checks, actorId) && a != b && IsUuid(checks.formats, a) && IsUuid(checks.formats, b)
    requires UniqueDecisions(decisions) && DecisionsRefer(decisions, {a, b})
    ensures var t := TwoMerchants(a, b, decisions, rules);
            && UuidKeys(checks.formats, t) && Referential(t) && Refusal(checks, t, a, b, actorId).None?
  {
    var ka: Text, kb: Text := [97], [98];
    assert ka[0] != kb[0];
    assert TwoMerchants(a, b, decisions, rules).merchants.Keys == {a, b};
  }

  // ---- decisions that collide ----

  /** Each merchant's decision on the same transaction and input. */
  function TwoDecisions(a: Text, b: Text, transaction: nat, fingerprint: Text): map<nat, Decision> {
    map[0 := Decision(transaction, ByMerchant, a, fingerprint, Some(a)),
        1 := Decision(transaction, ByMerchant, b, fingerprint, Some(b))]
  }

  /** The tables are in order, the code refuses nothing, and the unique key on decisions stops the merge. */
  lemma CollidingDecisionsAbort(checks: Checks, actorId: string, a: Text, b: Text, transaction: nat, fingerprint: Text)
    requires ActorValid(checks, actorId) && a != b && IsUuid(checks.formats, a) && IsUuid(checks.formats, b)
    ensures var t := TwoMerchants(a, b, TwoDecisions(a, b, transaction, fingerprint), []);
            && UuidKeys(checks.formats, t) && Referential(t) && Refusal(checks, t, a, b, actorId).None?
            && Merged(checks, t, a, b, actorId) == Err(DecisionsCollide)
  {
    var decisions := TwoDecisions(a, b, transaction, fingerprint);
    TwoMerchantsMayMerge(checks, actorId, a, b, decisions, []);
    assert Collide(a, b, decisions[0], decisions[1]);
    RedirectedDecisionsAreUnique(decisions, a, b);
  }

  // ---- a rule that the trigger stops ----

  /** A rule for transactions of the merchant that sets the category. */
  function CategoryRule(merchant: Text, category: Text): Rule {
    Rule([114], Some(0), Some(0), false, Some(MerchantIs(Eq, merchant)), Some([SetCategory(category)]))
  }

  lemma CategoryRuleIsValid(formats: Formats, merchant: Text, category: Text)
    requires IsUuid(formats, merchant) && IsUuid(formats, category)
    ensures RuleValid(formats, CategoryRule(merchant, category))
  {
    var root, operations := MerchantIs(Eq, merchant), [SetCategory(category)];
    UuidBytes(formats, merchant);
    UuidBytes(formats, category);
    BoundsAreHeightAndSize(formats, root);
    assert operations[1..] == [];
    assert ActionsBytes(operations) == ActionBytes(operations[0]) + 1 + ActionsBytes(operations[1..]);
  }

  /** The rule is valid as stored, but the update that would redirect it meets a category no longer visible. */
  lemma HiddenCategoryAborts(checks: Checks, actorId: string, a: Text, b: Text, category: Text)
    requires ActorValid(checks, actorId) && a != b && IsUuid(checks.formats, a) && IsUuid(checks.formats, b)
    requires IsUuid(checks.formats, category) && !checks.visible(category)
    ensures var t := TwoMerchants(a, b, map[], [CategoryRule(a, category)]);
            && UuidKeys(checks.formats, t) && Referential(t) && Refusal(checks, t, a, b, actorId).None?
            && RuleValid(checks.formats, t.rules[0])
            && Merged(checks, t, a, b, actorId) == Err(RuleRefused)
  {
    var rule := CategoryRule(a, category);
    TwoMerchantsMayMerge(checks, actorId, a, b, map[], [rule]);
    CategoryRuleIsValid(checks.formats, a, category);
    assert rule.actions.value[0] == SetCategory(category);
    assert !RuleFree(rule, a) && !CategoriesVisible(checks, rule);
    RedirectedDecisionsAreUnique(map[], a, b);
    RulesGoThrough(checks, [rule], a, b);
    assert [rule][0] == rule;
  }
}
