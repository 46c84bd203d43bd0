/**
 Evaluating an ordered list of rules.  The code folds over operations with mutable winners, tag
 maps and conflicts; the meaning is given by the sequence of mentions the matched rules make.
 */
module RuleEvaluation {
  import opened Outcomes
  import opened JsonText
  import opened RuleLanguage
  import opened ConditionEvaluation
  import opened Sequences
  import opened Sorting

  /** A stored rule; None where the stored value is not an integer, an instant or a document of the right shape. */
  datatype Rule = Rule(
    id: Text,
    priority: Option<int>,
    createdAt: Option<int>,
    stopProcessing: bool,
    conditions: Option<Node>,
    actions: Option<seq<Action>>)

  datatype RuleError = BadId | BadPriority | BadCreatedAt | BadConditions | BadActions | Failed(error: EvaluationError)

  // ---- order ----

  predicate Int32(o: Option<int>) {
    o.Some? && -2_147_483_648 <= o.value <= 2_147_483_647
  }

  ghost predicate WellFormed(rules: seq<Rule>) {
    && (forall i :: 0 <= i < |rules| ==> rules[i].id != [] && Int32(rules[i].priority) && rules[i].createdAt.Some?)
    && (forall i, j :: 0 <= i < j < |rules| ==> rules[i].id != rules[j].id)
  }

  /** The complaint about one rule, given the rules before it. */
  function HeaderErrorAt(rules: seq<Rule>, n: nat): Option<RuleError>
    requires n < |rules|
  {
    if rules[n].id == [] || exists i :: 0 <= i < n && rules[i].id == rules[n].id then Some(BadId)
    else if !Int32(rules[n].priority) then Some(BadPriority)
    else if rules[n].createdAt.None? then Some(BadCreatedAt)
    else None
  }

  /** The first complaint among the first `n` rules. */
  function HeaderError(rules: seq<Rule>, n: nat): Option<RuleError>
    requires n <= |rules|
  {
    if n == 0 then None
    else
      var earlier := HeaderError(rules, n - 1);
      if earlier.Some? then earlier else HeaderErrorAt(rules, n - 1)
  }

  lemma {:induction false} HeaderErrorDecides(rules: seq<Rule>, n: nat)
    requires n <= |rules|
    ensures HeaderError(rules, n).None? <==>
            && (forall i :: 0 <= i < n ==> rules[i].id != [] && Int32(rules[i].priority) && rules[i].createdAt.Some?)
            && (forall i, j :: 0 <= i < j < n ==> rules[i].id != rules[j].id)
  {
    if n > 0 {
      HeaderErrorDecides(rules, n - 1);
    }
  }

  lemma {:induction false} FirstHeaderError(rules: seq<Rule>, n: nat, m: nat)
    requires n <= m <= |rules| && HeaderError(rules, n).Some?
    ensures HeaderError(rules, m) == HeaderError(rules, n)
  {
    if n < m {
      FirstHeaderError(rules, n, m - 1);
    }
  }

  function OrZero(o: Option<int>): int {
    if o.Some? then o.value else 0
  }

  /** Higher priority first, then older, then smaller id. */
  predicate Precedes(l: Rule, r: Rule) {
    var p, q := OrZero(l.priority), OrZero(r.priority);
    var s, t := OrZero(l.createdAt), OrZero(r.createdAt);
    p > q || (p == q && (s < t || (s == t && Below(l.id, r.id))))
  }

  lemma PrecedesIsStrict()
    ensures StrictOrder(Precedes)
  {
    forall a, b, c | Precedes(a, b) && Precedes(b, c)
      ensures Precedes(a, c)
    {
      if Below(a.id, b.id) && Below(b.id, c.id) {
        BelowTransitive(a.id, b.id, c.id);
      }
    }
    forall a
      ensures !Precedes(a, a)
    {
      BelowTotal(a.id, a.id);
    }
  }

  lemma DistinctIdsHaveNoTies(rules: seq<Rule>)
    requires WellFormed(rules)
    ensures NoTies(rules, Precedes)
  {
    forall i, j | 0 <= i < j < |rules|
      ensures Precedes(rules[i], rules[j]) || Precedes(rules[j], rules[i])
    {
      BelowTotal(rules[i].id, rules[j].id);
    }
  }

  /** The validation loop of orderedRules. */
  method CheckHeaders(rules: seq<Rule>) returns (error: Option<RuleError>)
    ensures error == HeaderError(rules, |rules|)
  {
    var ids: set<Text> := {};
    error := None;
    for i := 0 to |rules|
      invariant HeaderError(rules, i) == None == error
      invariant forall id :: id in ids <==> exists k :: 0 <= k < i && rules[k].id == id
    {
      if rules[i].id == [] || rules[i].id in ids {
        error := Some(BadId);
      } else {
        ids := ids + {rules[i].id};
        if !Int32(rules[i].priority) {
          error := Some(BadPriority);
        } else if rules[i].createdAt.None? {
          error := Some(BadCreatedAt);
        }
      }
      if error.Some? {
        FirstHeaderError(rules, i + 1, |rules|);
        return;
      }
    }
  }

  /** orderedRules */
  method OrderedRules(rules: seq<Rule>) returns (r: Result<seq<Rule>, RuleError>)
    ensures r == match HeaderError(rules, |rules|) case Some(error) => Err(error) case None => Ok(Sort(rules, Precedes))
    ensures r.Ok? <==> WellFormed(rules)
    ensures r.Ok? ==> Sorted(r.value, Precedes) && multiset(r.value) == multiset(rules)
  {
    HeaderErrorDecides(rules, |rules|);
    var error := CheckHeaders(rules);
    if error.Some? {
      return Err(error.value);
    }
    PrecedesIsStrict();
    DistinctIdsHaveNoTies(rules);
    SortSorts(rules, Precedes);
    SortKeeps(rules, Precedes);
    r := Ok(Sort(rules, Precedes));
  }

  // ---- mentions ----

  /** One operation of a matched rule. */
  datatype Mention = Mention(ruleId: Text, action: Action)

  /** A later mention that disagrees with the winner of its slot. */
  datatype Conflict = Conflict(winner: Mention, loser: Mention)

  function RuleMentions(ruleId: Text, operations: seq<Action>): seq<Mention> {
    if operations == [] then []
    else RuleMentions(ruleId, operations[..|operations| - 1]) + [Mention(ruleId, operations[|operations| - 1])]
  }

  function Operations(rule: Rule): seq<Action> {
    if rule.actions.Some? then rule.actions.value else []
  }

  function Mentions(matched: seq<Rule>): seq<Mention> {
    if matched == [] then []
    else
      var last := matched[|matched| - 1];
      Mentions(matched[..|matched| - 1]) + RuleMentions(last.id, Operations(last))
  }

  /** The first mention of a slot. */
  function Winner(ms: seq<Mention>, slot: Slot): Option<Mention> {
    if ms == [] then None
    else
      var earlier := Winner(ms[..|ms| - 1], slot);
      if earlier.Some? then earlier
      else if SlotOf(ms[|ms| - 1].action) == slot then Some(ms[|ms| - 1]) else None
  }

  predicate ChangesTag(action: Action, adding: bool) {
    if adding then action.AddTag? else action.RemoveTag?
  }

  /** Tags whose first mention adds, or removes, them; in order of that mention. */
  function Tags(ms: seq<Mention>, adding: bool): seq<Mention> {
    if ms == [] then []
    else
      var front, m := ms[..|ms| - 1], ms[|ms| - 1];
      Tags(front, adding) + if ChangesTag(m.action, adding) && Winner(front, SlotOf(m.action)).None? then [m] else []
  }

  /** Mentions that disagree with an earlier winner, in order. */
  function Conflicts(ms: seq<Mention>): seq<Conflict> {
    if ms == [] then []
    else
      var front, m := ms[..|ms| - 1], ms[|ms| - 1];
      Conflicts(front) + Disagreement(Winner(front, SlotOf(m.action)), m)
  }

  function Disagreement(winner: Option<Mention>, m: Mention): seq<Conflict> {
    if winner.Some? && winner.value.action != m.action then [Conflict(winner.value, m)] else []
  }

  /** Operation `i` is the first to mention its slot. */
  predicate IsNew(before: seq<Mention>, ruleId: Text, operations: seq<Action>, i: nat)
    requires i < |operations|
  {
    Winner(before + RuleMentions(ruleId, operations[..i]), SlotOf(operations[i])).None?
  }

  /** One of the first `n` operations stops or is new. */
  predicate Contributes(before: seq<Mention>, ruleId: Text, operations: seq<Action>, n: nat)
    requires n <= |operations|
  {
    exists i :: 0 <= i < n && (operations[i].Stop? || IsNew(before, ruleId, operations, i))
  }

  predicate HasStop(operations: seq<Action>) {
    exists i :: 0 <= i < |operations| && operations[i].Stop?
  }

  predicate Stops(rule: Rule) {
    rule.stopProcessing || HasStop(Operations(rule))
  }

  datatype MatchedRule = MatchedRule(contributed: bool, ruleId: Text, stopped: bool)

  function FlagOf(before: seq<Mention>, rule: Rule): MatchedRule {
    MatchedRule(Contributes(before, rule.id, Operations(rule), |Operations(rule)|), rule.id, Stops(rule))
  }

  /** Each rule flagged in view of the mentions before it. */
  function FlagsBy(flag: (seq<Mention>, Rule) -> MatchedRule, matched: seq<Rule>): seq<MatchedRule> {
    if matched == [] then []
    else
      var front, last := matched[..|matched| - 1], matched[|matched| - 1];
      FlagsBy(flag, front) + [flag(Mentions(front), last)]
  }

  function Flags(matched: seq<Rule>): seq<MatchedRule> {
    FlagsBy(FlagOf, matched)
  }

  datatype Actions = Actions(
    category: Option<Mention>,
    merchant: Option<Mention>,
    role: Option<Mention>,
    spend: Option<Mention>,
    recurring: Option<Mention>,
    addedTags: seq<Mention>,
    removedTags: seq<Mention>)

  datatype Evaluation = Evaluation(
    actions: Actions, conflicts: seq<Conflict>, matchedRules: seq<MatchedRule>, stoppedBy: Option<Text>)

  function ActionsOf(ms: seq<Mention>): Actions {
    Actions(Winner(ms, CategorySlot), Winner(ms, MerchantSlot), Winner(ms, RoleSlot), Winner(ms, SpendSlot),
            Winner(ms, RecurringSlot), Tags(ms, true), Tags(ms, false))
  }

  function Stopper(matched: seq<Rule>): Option<Text> {
    if matched != [] && Stops(matched[|matched| - 1]) then Some(matched[|matched| - 1].id) else None
  }

  /** What the matched rules amount to. */
  function Summarize(matched: seq<Rule>): Evaluation {
    var ms := Mentions(matched);
    Evaluation(ActionsOf(ms), Conflicts(ms), Flags(matched), Stopper(matched))
  }

  // ---- matching ----

  /** Parsing and matching one rule: None when it is skipped. */
  function Matches(formats: Formats, rule: Rule, facts: Facts): Result<bool, RuleError> {
    if rule.conditions.None? || !ConditionsValid(formats, rule.conditions.value) then Err(BadConditions)
    else if rule.actions.None? || !ActionsValid(formats, rule.actions.value) then Err(BadActions)
    else
      match EvaluateNode(formats, rule.conditions.value, facts)
      case Err(error) => Err(Failed(error))
      case Ok(holds) => Ok(holds)
  }

  function Judge(formats: Formats, facts: Facts): Rule -> Result<bool, RuleError> {
    (rule: Rule) => Matches(formats, rule, facts)
  }

  /** The matched rules of an ordered list, up to and including the first stopper. */
  function Matched(judge: Rule -> Result<bool, RuleError>, rules: seq<Rule>): Result<seq<Rule>, RuleError> {
    if rules == [] then Ok([])
    else
      match judge(rules[0])
      case Err(error) => Err(error)
      case Ok(false) => Matched(judge, rules[1..])
      case Ok(true) =>
        if Stops(rules[0]) then Ok([rules[0]]) else After([rules[0]], Matched(judge, rules[1..]))
  }

  function After(first: seq<Rule>, r: Result<seq<Rule>, RuleError>): Result<seq<Rule>, RuleError> {
    match r
    case Ok(rest) => Ok(first + rest)
    case Err(_) => r
  }

  /** What the evaluation returns. */
  function Evaluated(formats: Formats, rules: seq<Rule>, facts: Facts): Result<Evaluation, RuleError> {
    match HeaderError(rules, |rules|)
    case Some(error) => Err(error)
    case None => Summarized(Matched(Judge(formats, facts), Sort(rules, Precedes)))
  }

  // ---- the code ----

  /** Map.get on a map kept in insertion order. */
  function Find(tags: seq<Mention>, slot: Slot): Option<Mention> {
    if tags == [] then None else if SlotOf(tags[0].action) == slot then Some(tags[0]) else Find(tags[1..], slot)
  }

  function FirstOr(current: Option<Mention>, m: Mention): Option<Mention> {
    if current.Some? then current else Some(m)
  }

  lemma {:induction false} FindLast(tags: seq<Mention>, m: Mention, slot: Slot)
    ensures Find(tags + [m], slot) ==
            if Find(tags, slot).Some? then Find(tags, slot) else if SlotOf(m.action) == slot then Some(m) else None
  {
    if tags != [] {
      FindLast(tags[1..], m, slot);
      assert (tags + [m])[1..] == tags[1..] + [m];
    }
  }

  /** A tag is in a tag map exactly when its winner has that map's direction. */
  lemma {:induction false} FindTag(ms: seq<Mention>, adding: bool, tagId: Text)
    ensures Find(Tags(ms, adding), TagSlot(tagId)) ==
            match Winner(ms, TagSlot(tagId)) case Some(w) => (if ChangesTag(w.action, adding) then Some(w)
                                                              else None) case None => None
  {
    if ms != [] {
      var front, m := ms[..|ms| - 1], ms[|ms| - 1];
      FindTag(front, adding, tagId);
      FindLast(Tags(front, adding), m, TagSlot(tagId));
      AppendNothing(Tags(front, adding));
    }
  }

  lemma {:induction false} WinnerHasSlot(ms: seq<Mention>, slot: Slot)
    ensures Winner(ms, slot).Some? ==> SlotOf(Winner(ms, slot).value.action) == slot
  {
    if ms != [] {
      WinnerHasSlot(ms[..|ms| - 1], slot);
    }
  }

  lemma WinnerNext(ms: seq<Mention>, m: Mention, slot: Slot)
    ensures Winner(ms + [m], slot) == if SlotOf(m.action) == slot then FirstOr(Winner(ms, slot), m)
            else Winner(ms, slot)
  {
    FrontOfSnoc(ms, m);
  }

  lemma TagsNext(ms: seq<Mention>, m: Mention, adding: bool)
    ensures Tags(ms + [m], adding) ==
            if ChangesTag(m.action, adding) && Winner(ms, SlotOf(m.action)).None? then Tags(ms, adding) + [m]
            else Tags(ms, adding)
  {
    FrontOfSnoc(ms, m);
    AppendNothing(Tags(ms, adding));
  }

  lemma ConflictsNext(ms: seq<Mention>, m: Mention)
    ensures Conflicts(ms + [m]) == Conflicts(ms) + Disagreement(Winner(ms, SlotOf(m.action)), m)
  {
    FrontOfSnoc(ms, m);
  }

  /** The winner the actions hold for a slot; a stop leaves none. */
  function Held(actions: Actions, slot: Slot): Option<Mention> {
    match slot
    case CategorySlot => actions.category
    case MerchantSlot => actions.merchant
    case RoleSlot => actions.role
    case SpendSlot => actions.spend
    case RecurringSlot => actions.recurring
    case StopSlot => None
    case TagSlot(_) =>
      var added := Find(actions.addedTags, slot);
      if added.Some? then added else Find(actions.removedTags, slot)
  }

  /** What one more mention does to the actions. */
  function Act(actions: Actions, m: Mention): Actions {
    match m.action
    case SetCategory(_) => actions.(category := FirstOr(actions.category, m))
    case SetMerchant(_) => actions.(merchant := FirstOr(actions.merchant, m))
    case SetRole(_) => actions.(role := FirstOr(actions.role, m))
    case SetSpend(_) => actions.(spend := FirstOr(actions.spend, m))
    case MarkRecurring => actions.(recurring := FirstOr(actions.recurring, m))
    case AddTag(_) => if Held(actions, SlotOf(m.action)).Some? then actions
                      else actions.(addedTags := actions.addedTags + [m])
    case RemoveTag(_) => if Held(actions, SlotOf(m.action)).Some? then actions
                         else actions.(removedTags := actions.removedTags + [m])
    case Stop => actions
  }

  /** A tag is in at most one of the two maps, under an operation of that map's direction. */
  predicate OneSided(actions: Actions, slot: Slot) {
    slot.TagSlot? ==>
      var added, removed := Find(actions.addedTags, slot), Find(actions.removedTags, slot);
      && (added.Some? ==> added.value.action == AddTag(slot.tagId) && removed.None?)
      && (removed.Some? ==> removed.value.action == RemoveTag(slot.tagId))
  }

  lemma TagsAreOneSided(ms: seq<Mention>, slot: Slot)
    ensures OneSided(ActionsOf(ms), slot)
  {
    if slot.TagSlot? {
      FindTag(ms, true, slot.tagId);
      FindTag(ms, false, slot.tagId);
      WinnerHasSlot(ms, slot);
    }
  }

  lemma HeldIsWinner(ms: seq<Mention>, slot: Slot)
    ensures Held(ActionsOf(ms), slot) == if slot.StopSlot? then None else Winner(ms, slot)
  {
    if slot.TagSlot? {
      FindTag(ms, true, slot.tagId);
      FindTag(ms, false, slot.tagId);
      WinnerHasSlot(ms, slot);
    }
  }

  lemma ActionsNext(ms: seq<Mention>, m: Mention)
    ensures ActionsOf(ms + [m]) == Act(ActionsOf(ms), m)
  {
    HeldIsWinner(ms, SlotOf(m.action));
    WinnerNext(ms, m, CategorySlot);
    WinnerNext(ms, m, MerchantSlot);
    WinnerNext(ms, m, RoleSlot);
    WinnerNext(ms, m, SpendSlot);
    WinnerNext(ms, m, RecurringSlot);
    TagsNext(ms, m, true);
    TagsNext(ms, m, false);
  }

  class Evaluator {
    var category: Option<Mention>
    var merchant: Option<Mention>
    var role: Option<Mention>
    var spend: Option<Mention>
    var recurring: Option<Mention>
    var addedTags: seq<Mention>
    var removedTags: seq<Mention>
    var conflicts: seq<Conflict>

    function Current(): Actions
      reads this
    {
      Actions(category, merchant, role, spend, recurring, addedTags, removedTags)
    }

    /** The state after the given mentions. */
    ghost predicate Reflects(ms: seq<Mention>)
      reads this
    {
      Current() == ActionsOf(ms) && conflicts == Conflicts(ms)
    }

    constructor ()
      ensures Reflects([])
    {
      category, merchant, role, spend, recurring := None, None, None, None, None;
      addedTags, removedTags, conflicts := [], [], [];
    }

    /** applySingleton: the first setting wins; a different later one is a conflict. */
    method ApplySingleton(current: Option<Mention>, candidate: Mention)
      returns (value: Option<Mention>, contributed: bool)
      modifies this`conflicts
      ensures value == FirstOr(current, candidate)
      ensures contributed <==> current.None?
      ensures conflicts == old(conflicts) + Disagreement(current, candidate)
    {
      if current.None? {
        return Some(candidate), true;
      }
      if current.value.action != candidate.action {
        conflicts := conflicts + [Conflict(current.value, candidate)];
      }
      return current, false;
    }

    method ApplyTag(m: Mention, adding: bool) returns (contributed: bool)
      requires ChangesTag(m.action, adding) && OneSided(Current(), SlotOf(m.action))
      modifies this
      ensures Current() == Act(old(Current()), m)
      ensures conflicts == old(conflicts) + Disagreement(Held(old(Current()), SlotOf(m.action)), m)
      ensures contributed <==> Held(old(Current()), SlotOf(m.action)).None?
    {
      var own := if adding then addedTags else removedTags;
      var opposite := if adding then removedTags else addedTags;
      var existingOpposite := Find(opposite, SlotOf(m.action));
      contributed := false;
      if existingOpposite.Some? {
        conflicts := conflicts + [Conflict(existingOpposite.value, m)];
      } else if Find(own, SlotOf(m.action)).None? {
        if adding {
          addedTags := addedTags + [m];
        } else {
          removedTags := removedTags + [m];
        }
        contributed := true;
      } else {
        AppendNothing(conflicts);
      }
    }

    method ApplyField(m: Mention) returns (contributed: bool)
      requires !m.action.Stop? && !SlotOf(m.action).TagSlot?
      modifies this
      ensures Current() == Act(old(Current()), m)
      ensures conflicts == old(conflicts) + Disagreement(Held(old(Current()), SlotOf(m.action)), m)
      ensures contributed <==> Held(old(Current()), SlotOf(m.action)).None?
    {
      match m.action {
        case SetCategory(_) => category, contributed := ApplySingleton(category, m);
        case SetMerchant(_) => merchant, contributed := ApplySingleton(merchant, m);
        case SetRole(_) => role, contributed := ApplySingleton(role, m);
        case SetSpend(_) => spend, contributed := ApplySingleton(spend, m);
        case MarkRecurring => recurring, contributed := ApplySingleton(recurring, m);
      }
    }

    /** One operation of a matched rule. */
    method Apply(m: Mention) returns (contributed: bool)
      requires OneSided(Current(), SlotOf(m.action))
      modifies this
      ensures Current() == Act(old(Current()), m)
      ensures conflicts == old(conflicts) + Disagreement(Held(old(Current()), SlotOf(m.action)), m)
      ensures contributed <==> m.action.Stop? || Held(old(Current()), SlotOf(m.action)).None?
    {
      if m.action.Stop? {
        AppendNothing(conflicts);
        contributed := true;
      } else if m.action.AddTag? || m.action.RemoveTag? {
        contributed := ApplyTag(m, m.action.AddTag?);
      } else {
        contributed := ApplyField(m);
      }
    }

    /** The loop over one rule's operations. */
    method ApplyRule(rule: Rule, ghost before: seq<Mention>) returns (contributed: bool, actionStops: bool)
      requires Reflects(before)
      modifies this
      ensures Reflects(before + RuleMentions(rule.id, Operations(rule)))
      ensures contributed <==> Contributes(before, rule.id, Operations(rule), |Operations(rule)|)
      ensures actionStops <==> HasStop(Operations(rule))
    {
      var operations := Operations(rule);
      contributed, actionStops := false, false;
      assert before + [] == before;
      for k := 0 to |operations|
        invariant Reflects(before + RuleMentions(rule.id, operations[..k]))
        invariant contributed <==> Contributes(before, rule.id, operations, k)
        invariant actionStops <==> HasStop(operations[..k])
      {
        OperationNext(before, rule.id, operations, k);
        ContributesNext(before, rule.id, operations, k);
        var c := Apply(Mention(rule.id, operations[k]));
        contributed := contributed || c;
        if operations[k].Stop? {
          actionStops := true;
        }
      }
      assert operations[..|operations|] == operations;
    }
  }

  /** One more mention, seen through what the actions hold. */
  lemma MentionNext(ms: seq<Mention>, m: Mention)
    ensures OneSided(ActionsOf(ms), SlotOf(m.action))
    ensures ActionsOf(ms + [m]) == Act(ActionsOf(ms), m)
    ensures Conflicts(ms + [m]) == Conflicts(ms) + Disagreement(Held(ActionsOf(ms), SlotOf(m.action)), m)
    ensures !m.action.Stop? ==> Held(ActionsOf(ms), SlotOf(m.action)) == Winner(ms, SlotOf(m.action))
  {
    HeldIsWinner(ms, SlotOf(m.action));
    TagsAreOneSided(ms, SlotOf(m.action));
    WinnerHasSlot(ms, SlotOf(m.action));
    ActionsNext(ms, m);
    ConflictsNext(ms, m);
  }

  /** One more operation of a rule. */
  lemma OperationNext(before: seq<Mention>, ruleId: Text, operations: seq<Action>, k: nat)
    requires k < |operations|
    ensures var ms, m := before + RuleMentions(ruleId, operations[..k]), Mention(ruleId, operations[k]);
            var after := before + RuleMentions(ruleId, operations[..k + 1]);
            && OneSided(ActionsOf(ms), SlotOf(m.action))
            && ActionsOf(after) == Act(ActionsOf(ms), m)
            && Conflicts(after) == Conflicts(ms) + Disagreement(Held(ActionsOf(ms), SlotOf(m.action)), m)
  {
    var ms, m := before + RuleMentions(ruleId, operations[..k]), Mention(ruleId, operations[k]);
    PrefixOfPrefix(operations, k + 1, k);
    Associate(before, RuleMentions(ruleId, operations[..k]), [m]);
    MentionNext(ms, m);
  }

  lemma ContributesNext(before: seq<Mention>, ruleId: Text, operations: seq<Action>, k: nat)
    requires k < |operations|
    ensures var ms := before + RuleMentions(ruleId, operations[..k]);
            Contributes(before, ruleId, operations, k + 1) <==>
            || Contributes(before, ruleId, operations, k) || operations[k].Stop?
            || Held(ActionsOf(ms), SlotOf(operations[k])).None?
    ensures HasStop(operations[..k + 1]) <==> HasStop(operations[..k]) || operations[k].Stop?
  {
    HeldIsWinner(before + RuleMentions(ruleId, operations[..k]), SlotOf(operations[k]));
    StopNext(operations, k);
    assert IsNew(before, ruleId, operations, k) <==>
           Winner(before + RuleMentions(ruleId, operations[..k]), SlotOf(operations[k])).None?;
  }

  lemma StopNext(operations: seq<Action>, k: nat)
    requires k < |operations|
    ensures HasStop(operations[..k + 1]) <==> HasStop(operations[..k]) || operations[k].Stop?
  {
    if HasStop(operations[..k]) {
      var i :| 0 <= i < k && operations[..k][i].Stop?;
      assert operations[..k + 1][i].Stop?;
    }
    if operations[k].Stop? {
      assert operations[..k + 1][k].Stop?;
    }
    if HasStop(operations[..k + 1]) {
      var i :| 0 <= i < k + 1 && operations[..k + 1][i].Stop?;
      assert i < k ==> operations[..k][i].Stop?;
    }
  }

  /** evaluateClassificationRules */
  method EvaluateClassificationRules(formats: Formats, rules: seq<Rule>, facts: Facts)
    returns (r: Result<Evaluation, RuleError>)
    ensures r == Evaluated(formats, rules, facts)
  {
    var ordered := OrderedRules(rules);
    if ordered.Err? {
      return Err(ordered.error);
    }
    r := EvaluateOrdered(Judge(formats, facts), ordered.value);
  }

  function Summarized(matched: Result<seq<Rule>, RuleError>): Result<Evaluation, RuleError> {
    match matched
    case Err(error) => Err(error)
    case Ok(rules) => Ok(Summarize(rules))
  }

  /** One matched rule: its operations, and its entry in the list of matched rules. */
  method ApplyMatched(evaluator: Evaluator, rule: Rule, ghost matched: seq<Rule>) returns (flag: MatchedRule)
    requires evaluator.Reflects(Mentions(matched))
    modifies evaluator
    ensures evaluator.Reflects(Mentions(matched + [rule]))
    ensures Flags(matched + [rule]) == Flags(matched) + [flag]
    ensures flag.stopped <==> Stops(rule)
    ensures Stopper(matched + [rule]) == if flag.stopped then Some(rule.id) else None
  {
    var contributed, actionStops := evaluator.ApplyRule(rule, Mentions(matched));
    flag := MatchedRule(contributed, rule.id, rule.stopProcessing || actionStops);
  }

  /** The loop over the ordered rules, left at the first stopper or error. */
  method RunRules(judge: Rule -> Result<bool, RuleError>, sorted: seq<Rule>, evaluator: Evaluator)
    returns (error: Option<RuleError>, matchedRules: seq<MatchedRule>, stoppedBy: Option<Text>,
             ghost matched: seq<Rule>)
    requires evaluator.Reflects([])
    modifies evaluator
    ensures error.Some? ==> Matched(judge, sorted) == Err(error.value)
    ensures error.None? ==>
              && Matched(judge, sorted) == Ok(matched)
              && evaluator.Reflects(Mentions(matched)) && matchedRules == Flags(matched)
                 && stoppedBy == Stopper(matched)
  {
    error, matchedRules, stoppedBy, matched := None, [], None, [];
    AfterNothing(Matched(judge, sorted));
    assert sorted[0..] == sorted;
    for i := 0 to |sorted|
      invariant error.None? && stoppedBy.None? && Stopper(matched).None?
      invariant evaluator.Reflects(Mentions(matched)) && matchedRules == Flags(matched)
      invariant Matched(judge, sorted) == After(matched, Matched(judge, sorted[i..]))
    {
      var rule := sorted[i];
      MatchedStep(judge, sorted, i, matched);
      var holds := judge(rule);
      if holds.Err? {
        error := Some(holds.error);
        return;
      }
      if holds.value {
        var flag := ApplyMatched(evaluator, rule, matched);
        matchedRules := matchedRules + [flag];
        matched := matched + [rule];
        if flag.stopped {
          stoppedBy := Some(rule.id);
          return;
        }
      }
    }
    AppendNothing(matched);
  }

  method EvaluateOrdered(judge: Rule -> Result<bool, RuleError>, sorted: seq<Rule>)
    returns (r: Result<Evaluation, RuleError>)
    ensures r == Summarized(Matched(judge, sorted))
  {
    var evaluator := new Evaluator();
    var error, matchedRules, stoppedBy;
    ghost var matched;
    error, matchedRules, stoppedBy, matched := RunRules(judge, sorted, evaluator);
    r := if error.Some? then Err(error.value)
         else Ok(Evaluation(evaluator.Current(), evaluator.conflicts, matchedRules, stoppedBy));
  }

  lemma MentionsNext(matched: seq<Rule>, rule: Rule)
    ensures Mentions(matched + [rule]) == Mentions(matched) + RuleMentions(rule.id, Operations(rule))
  {
    FrontOfSnoc(matched, rule);
  }

  /** One more rule of the list. */
  lemma MatchedStep(judge: Rule -> Result<bool, RuleError>, sorted: seq<Rule>, i: nat, matched: seq<Rule>)
    requires i < |sorted|
    requires Matched(judge, sorted) == After(matched, Matched(judge, sorted[i..]))
    ensures match judge(sorted[i])
            case Err(error) => Matched(judge, sorted) == Err(error)
            case Ok(false) => Matched(judge, sorted) == After(matched, Matched(judge, sorted[i + 1..]))
            case Ok(true) =>
              if Stops(sorted[i]) then Matched(judge, sorted) == Ok(matched + [sorted[i]])
              else Matched(judge, sorted) == After(matched + [sorted[i]], Matched(judge, sorted[i + 1..]))
  {
    assert sorted[i..][0] == sorted[i] && sorted[i..][1..] == sorted[i + 1..];
    AfterOne(matched, sorted[i], Matched(judge, sorted[i + 1..]));
  }

  lemma AfterNothing(r: Result<seq<Rule>, RuleError>)
    ensures After([], r) == r
  {
    assert r.Ok? ==> [] + r.value == r.value;
  }

  lemma AfterOne(matched: seq<Rule>, rule: Rule, r: Result<seq<Rule>, RuleError>)
    ensures After(matched, After([rule], r)) == After(matched + [rule], r)
  {
    assert r.Ok? ==> matched + ([rule] + r.value) == matched + [rule] + r.value;
  }
}
