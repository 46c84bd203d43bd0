/** What the `contributed` flag of a matched rule says about the result as a whole. */
module RuleContribution {
  import opened Outcomes
  import opened JsonText
  import opened RuleLanguage
  import opened ConditionEvaluation
  import opened Sorting
  import opened Sequences
  import opened RuleEvaluation
  import opened RuleEvaluationProperties

  predicate DistinctRules(matched: seq<Rule>) {
    forall i, j :: 0 <= i < j < |matched| ==> matched[i].id != matched[j].id
  }

  /** The value applied to the slot is this rule's. */
  predicate Won(actions: Actions, slot: Slot, ruleId: Text) {
    var held := Held(actions, slot);
    held.Some? && held.value.ruleId == ruleId
  }

  // ---- the block of one rule among all mentions ----

  lemma {:induction false} WinnerStays(a: seq<Mention>, b: seq<Mention>, slot: Slot)
    requires Winner(a, slot).Some?
    ensures Winner(a + b, slot) == Winner(a, slot)
  {
    if b == [] {
      AppendNothing(a);
    } else {
      LastOfJoin(a, b);
      WinnerStays(a, b[..|b| - 1], slot);
      WinnerNext(a + b[..|b| - 1], b[|b| - 1], slot);
    }
  }

  /** The mentions up to the rule's operation `i`. */
  lemma UpToOperation(before: seq<Mention>, x: seq<Mention>, after: seq<Mention>, i: nat)
    requires i < |x|
    ensures (before + x + after)[..|before| + i] == before + x[..i]
    ensures before + x + after == (before + x[..i] + [x[i]]) + (x[i + 1..] + after)
  {
  }

  lemma {:induction false} MentionsOfPrefix(ruleId: Text, operations: seq<Action>, i: nat)
    requires i <= |operations|
    ensures |RuleMentions(ruleId, operations)| == |operations|
    ensures RuleMentions(ruleId, operations)[..i] == RuleMentions(ruleId, operations[..i])
  {
    RuleMentionsAre(ruleId, operations);
    RuleMentionsAre(ruleId, operations[..i]);
  }

  /** A new operation that does not stop wins its slot for good. */
  lemma NewOperationWins(before: seq<Mention>, rule: Rule, after: seq<Mention>, i: nat)
    requires i < |Operations(rule)| && IsNew(before, rule.id, Operations(rule), i) && !Operations(rule)[i].Stop?
    ensures Won(ActionsOf(before + RuleMentions(rule.id, Operations(rule)) + after), SlotOf(Operations(rule)[i]),
                rule.id)
  {
    var x := RuleMentions(rule.id, Operations(rule));
    var slot := SlotOf(Operations(rule)[i]);
    RuleMentionsAre(rule.id, Operations(rule));
    MentionsOfPrefix(rule.id, Operations(rule), i);
    UpToOperation(before, x, after, i);
    WinnerNext(before + x[..i], x[i], slot);
    WinnerStays(before + x[..i] + [x[i]], x[i + 1..] + after, slot);
    HeldIsWinner(before + x + after, slot);
  }

  /** A first mention within the rule's block is a new operation of the rule. */
  lemma FirstInBlockIsNew(before: seq<Mention>, rule: Rule, after: seq<Mention>, k: nat)
    requires var x := RuleMentions(rule.id, Operations(rule));
             |before| <= k < |before| + |x| && IsFirst(before + x + after, k)
    ensures k - |before| < |Operations(rule)| && IsNew(before, rule.id, Operations(rule), k - |before|)
  {
    var x := RuleMentions(rule.id, Operations(rule));
    var ms, i := before + x + after, k - |before|;
    RuleMentionsAre(rule.id, Operations(rule));
    MentionsOfPrefix(rule.id, Operations(rule), i);
    UpToOperation(before, x, after, i);
    assert ms[k] == x[i];
    forall j | 0 <= j < |before + x[..i]|
      ensures SlotOf((before + x[..i])[j].action) != SlotOf(ms[k].action)
    {
      assert ms[j] == ms[..k][j];
    }
    NoWinner(before + x[..i], SlotOf(ms[k].action));
  }

  lemma OtherRulesMention(matched: seq<Rule>, p: nat, m: Mention)
    requires DistinctRules(matched) && p < |matched|
    requires m in Mentions(matched[..p]) || m in Mentions(matched[p + 1..])
    ensures m.ruleId != matched[p].id
  {
    if m in Mentions(matched[..p]) {
      var q := MentionHasRule(matched[..p], m);
      assert matched[..p][q] == matched[q];
    } else {
      var q := MentionHasRule(matched[p + 1..], m);
      assert matched[p + 1..][q] == matched[p + 1 + q];
    }
  }

  /** With distinct ids, the mentions under a rule's id are in its block. */
  lemma MentionIsInBlock(matched: seq<Rule>, p: nat, k: nat)
    requires DistinctRules(matched) && p < |matched|
    requires var before, x := Mentions(matched[..p]), RuleMentions(matched[p].id, Operations(matched[p]));
             var ms := before + x + Mentions(matched[p + 1..]);
             k < |ms| && ms[k].ruleId == matched[p].id
    ensures |Mentions(matched[..p])| <= k
    ensures k < |Mentions(matched[..p])| + |RuleMentions(matched[p].id, Operations(matched[p]))|
  {
    var before, x, after := Mentions(matched[..p]), RuleMentions(matched[p].id, Operations(matched[p])),
                            Mentions(matched[p + 1..]);
    forall m | m in before || m in after
      ensures m.ruleId != matched[p].id
    {
      OtherRulesMention(matched, p, m);
    }
    if !(|before| <= k < |before| + |x|) {
      OutsideTheMiddle(before, x, after, k);
    }
  }

  lemma MentionsOfBlocks(matched: seq<Rule>, p: nat)
    requires p < |matched|
    ensures Mentions(matched) ==
            Mentions(matched[..p]) + RuleMentions(matched[p].id, Operations(matched[p])) + Mentions(matched[p + 1..])
  {
    SplitAt(matched, p);
    MentionsAround(matched[..p], matched[p], matched[p + 1..]);
  }

  // ---- the flag ----

  lemma ContributionWins(matched: seq<Rule>, p: nat) returns (slot: Slot)
    requires p < |matched| && !HasStop(Operations(matched[p]))
    requires FlagOf(Mentions(matched[..p]), matched[p]).contributed
    ensures Won(ActionsOf(Mentions(matched)), slot, matched[p].id)
  {
    var before, rule := Mentions(matched[..p]), matched[p];
    var i :| 0 <= i < |Operations(rule)| && (Operations(rule)[i].Stop? || IsNew(before, rule.id, Operations(rule), i));
    slot := SlotOf(Operations(rule)[i]);
    NewOperationWins(before, rule, Mentions(matched[p + 1..]), i);
    MentionsOfBlocks(matched, p);
  }

  lemma WinnerContributed(matched: seq<Rule>, p: nat, slot: Slot)
    requires DistinctRules(matched) && p < |matched| && Won(ActionsOf(Mentions(matched)), slot, matched[p].id)
    ensures FlagOf(Mentions(matched[..p]), matched[p]).contributed
  {
    var before, after := Mentions(matched[..p]), Mentions(matched[p + 1..]);
    MentionsOfBlocks(matched, p);
    HeldIsWinner(Mentions(matched), slot);
    var k := WinnerIsFirst(Mentions(matched), slot);
    MentionIsInBlock(matched, p, k);
    FirstInBlockIsNew(before, matched[p], after, k);
  }

  /**
   What an evaluation reports at place `p` of its matched rules is about this rule, and tells whether it
   contributed.
   */
  ghost predicate Tells(result: Evaluation, p: nat, rule: Rule)
    requires p < |result.matchedRules|
  {
    && result.matchedRules[p].ruleId == rule.id
    && (result.matchedRules[p].contributed <==>
        HasStop(Operations(rule)) || exists slot :: Won(result.actions, slot, rule.id))
  }

  /**
   Among matched rules with distinct ids: a rule contributed exactly when it stops or some applied value is
   its own.
   */
  lemma FlagsTellWinners(matched: seq<Rule>, p: nat)
    requires DistinctRules(matched) && p < |matched|
    ensures |Flags(matched)| == |matched| && Tells(Summarize(matched), p, matched[p])
  {
    FlagAt(FlagOf, matched, p);
    if i :| 0 <= i < |Operations(matched[p])| && Operations(matched[p])[i].Stop? {
      assert Contributes(Mentions(matched[..p]), matched[p].id, Operations(matched[p]), |Operations(matched[p])|);
    } else if Flags(matched)[p].contributed {
      var slot := ContributionWins(matched, p);
    }
    if slot :| Won(ActionsOf(Mentions(matched)), slot, matched[p].id) {
      WinnerContributed(matched, p, slot);
    }
  }

  lemma MatchedAreDistinct(rules: seq<Rule>, judge: Rule -> Result<bool, RuleError>)
    requires WellFormed(rules) && Matched(judge, Sort(rules, Precedes)).Ok?
    ensures DistinctRules(Matched(judge, Sort(rules, Precedes)).value)
    ensures forall x :: x in Matched(judge, Sort(rules, Precedes)).value ==> x in rules
  {
    var s := Sort(rules, Precedes);
    var m := Matched(judge, s).value;
    PrecedesIsStrict();
    DistinctIdsHaveNoTies(rules);
    SortSorts(rules, Precedes);
    SortKeeps(rules, Precedes);
    SameMembers(s, rules);
    MatchedStaySorted(judge, s);
    forall x | x in m
      ensures x in rules
    {
      MatchedAreJudged(judge, s, x);
    }
    forall i, j | 0 <= i < j < |m|
      ensures m[i].id != m[j].id
    {
      if m[i].id == m[j].id {
        SameIdSameRule(rules, m[i], m[j]);
      }
    }
  }

  lemma ResultSummarizes(formats: Formats, rules: seq<Rule>, facts: Facts) returns (matched: seq<Rule>)
    requires Evaluated(formats, rules, facts).Ok?
    ensures Evaluated(formats, rules, facts).value == Summarize(matched)
    ensures DistinctRules(matched) && forall x :: x in matched ==> x in rules
  {
    HeaderErrorDecides(rules, |rules|);
    MatchedAreDistinct(rules, Judge(formats, facts));
    matched := Matched(Judge(formats, facts), Sort(rules, Precedes)).value;
  }

  /**
   In every evaluation a matched rule is reported as having contributed exactly when it carries a
   stop or one of the applied values and tags bears its id.
   */
  lemma ContributedExactly(formats: Formats, rules: seq<Rule>, facts: Facts, p: nat) returns (rule: Rule)
    requires Evaluated(formats, rules, facts).Ok? && p < |Evaluated(formats, rules, facts).value.matchedRules|
    ensures rule in rules && Tells(Evaluated(formats, rules, facts).value, p, rule)
  {
    var matched := ResultSummarizes(formats, rules, facts);
    FlagsLength(FlagOf, matched);
    rule := matched[p];
    FlagsTellWinners(matched, p);
  }
}
