/** What the evaluation of a rule list means, and how it reacts to reordering and deleting rules. */
module RuleEvaluationProperties {
  import opened Outcomes
  import opened JsonText
  import opened RuleLanguage
  import opened ConditionEvaluation
  import opened Sorting
  import opened RuleEvaluation
  import opened Sequences

  // ---- winners, tags and conflicts by position ----

  /** Mention `k` is the first of its slot. */
  predicate IsFirst(ms: seq<Mention>, k: nat)
    requires k < |ms|
  {
    forall j :: 0 <= j < k ==> SlotOf(ms[j].action) != SlotOf(ms[k].action)
  }

  lemma {:induction false} NoWinner(ms: seq<Mention>, slot: Slot)
    ensures Winner(ms, slot).None? <==> forall k :: 0 <= k < |ms| ==> SlotOf(ms[k].action) != slot
  {
    if ms != [] {
      var n := |ms| - 1;
      NoWinner(ms[..n], slot);
      assert forall k :: 0 <= k < n ==> ms[..n][k] == ms[k];
    }
  }

  /** The winner of a slot is the first mention of it. */
  lemma {:induction false} WinnerIsFirst(ms: seq<Mention>, slot: Slot) returns (k: nat)
    requires Winner(ms, slot).Some?
    ensures k < |ms| && IsFirst(ms, k) && ms[k] == Winner(ms, slot).value && SlotOf(ms[k].action) == slot
  {
    var n := |ms| - 1;
    if Winner(ms[..n], slot).Some? {
      k := WinnerIsFirst(ms[..n], slot);
      FirstInFront(ms, k);
    } else {
      NoWinner(ms[..n], slot);
      FirstAtEnd(ms);
      k := n;
    }
  }

  lemma FirstInFront(ms: seq<Mention>, k: nat)
    requires k < |ms| - 1
    ensures IsFirst(ms[..|ms| - 1], k) <==> IsFirst(ms, k)
  {
    var front := ms[..|ms| - 1];
    assert forall j :: 0 <= j <= k ==> front[j] == ms[j];
  }

  /** The last mention is first of its slot exactly when nothing before it won the slot. */
  lemma FirstAtEnd(ms: seq<Mention>)
    requires ms != []
    ensures IsFirst(ms, |ms| - 1) <==> Winner(ms[..|ms| - 1], SlotOf(ms[|ms| - 1].action)).None?
  {
    var n := |ms| - 1;
    NoWinner(ms[..n], SlotOf(ms[n].action));
    assert forall j :: 0 <= j < n ==> ms[..n][j] == ms[j];
  }

  lemma FirstIsUnique(ms: seq<Mention>, j: nat, k: nat)
    requires j < |ms| && k < |ms| && IsFirst(ms, j) && IsFirst(ms, k) && SlotOf(ms[j].action) == SlotOf(ms[k].action)
    ensures j == k
  {
  }

  predicate FirstChange(ms: seq<Mention>, adding: bool, m: Mention, k: nat) {
    k < |ms| && ms[k] == m && IsFirst(ms, k) && ChangesTag(m.action, adding)
  }

  /** The applied tag changes are the first mentions of each tag, in the direction of that mention. */
  lemma {:induction false} TagsAreFirstMentions(ms: seq<Mention>, adding: bool, m: Mention)
    ensures m in Tags(ms, adding) <==> exists k: nat :: FirstChange(ms, adding, m, k)
  {
    if ms != [] {
      var n := |ms| - 1;
      var front := ms[..n];
      TagsAreFirstMentions(front, adding, m);
      FirstAtEnd(ms);
      if k: nat :| FirstChange(front, adding, m, k) {
        FirstInFront(ms, k);
        assert FirstChange(ms, adding, m, k);
      }
      if k: nat :| FirstChange(ms, adding, m, k) {
        if k < n {
          FirstInFront(ms, k);
          assert FirstChange(front, adding, m, k);
        }
      }
      assert m == ms[n] && m in Tags(ms, adding) && m !in Tags(front, adding) ==> FirstChange(ms, adding, m, n);
    }
  }

  /** No tag is both added and removed. */
  lemma TagsAreDisjoint(ms: seq<Mention>, a: Mention, r: Mention)
    requires a in Tags(ms, true) && r in Tags(ms, false)
    ensures SlotOf(a.action) != SlotOf(r.action)
  {
    TagsAreFirstMentions(ms, true, a);
    TagsAreFirstMentions(ms, false, r);
    var j: nat :| FirstChange(ms, true, a, j);
    var k: nat :| FirstChange(ms, false, r, k);
    if SlotOf(a.action) == SlotOf(r.action) {
      FirstIsUnique(ms, j, k);
    }
  }

  /** Mention `k` disagrees with the winner `j` of its slot. */
  predicate Disagrees(ms: seq<Mention>, j: nat, k: nat, c: Conflict) {
    && j < k < |ms| && IsFirst(ms, j) && SlotOf(ms[j].action) == SlotOf(ms[k].action)
    && ms[j].action != ms[k].action && c == Conflict(ms[j], ms[k])
  }

  lemma DisagreesInFront(ms: seq<Mention>, j: nat, k: nat, c: Conflict)
    requires ms != [] && k < |ms| - 1
    ensures Disagrees(ms, j, k, c) <==> Disagrees(ms[..|ms| - 1], j, k, c)
  {
    var front := ms[..|ms| - 1];
    if j < k {
      assert IsFirst(ms, j) <==> IsFirst(front, j);
    }
  }

  /** The conflicts are exactly the later mentions that disagree with the first of their slot. */
  lemma {:induction false} ConflictsAreDisagreements(ms: seq<Mention>, c: Conflict)
    ensures c in Conflicts(ms) <==> exists j: nat, k: nat :: Disagrees(ms, j, k, c)
  {
    if ms != [] {
      var n := |ms| - 1;
      ConflictsAreDisagreements(ms[..n], c);
      LastDisagreement(ms, n, c);
      if j: nat, k: nat :| Disagrees(ms[..n], j, k, c) {
        DisagreesInFront(ms, j, k, c);
      }
      if j: nat, k: nat :| Disagrees(ms, j, k, c) && k < n {
        DisagreesInFront(ms, j, k, c);
      }
    }
  }

  lemma LastDisagreement(ms: seq<Mention>, n: nat, c: Conflict)
    requires n + 1 == |ms|
    ensures c in Disagreement(Winner(ms[..n], SlotOf(ms[n].action)), ms[n]) <==> exists j: nat :: Disagrees(ms, j, n, c)
  {
    var slot := SlotOf(ms[n].action);
    if Winner(ms[..n], slot).Some? {
      var i := WinnerIsFirst(ms[..n], slot);
      FirstInFront(ms, i);
      if c in Disagreement(Winner(ms[..n], slot), ms[n]) {
        assert Disagrees(ms, i, n, c);
      }
      if j: nat :| Disagrees(ms, j, n, c) {
        FirstIsUnique(ms, i, j);
      }
    } else {
      NoWinner(ms[..n], slot);
      forall j: nat
        ensures !Disagrees(ms, j, n, c)
      {
        assert j < n ==> ms[..n][j] == ms[j];
      }
    }
  }

  // ---- concatenation ----

  lemma {:induction false} MentionsJoin(p: seq<Rule>, q: seq<Rule>)
    ensures Mentions(p + q) == Mentions(p) + Mentions(q)
  {
    if q == [] {
      AppendNothing(p);
      AppendNothing(Mentions(p));
    } else {
      var front, last := q[..|q| - 1], q[|q| - 1];
      var tail := RuleMentions(last.id, Operations(last));
      LastOfJoin(p, q);
      calc {
        Mentions(p + q);
        { MentionsNext(p + front, last); }
        Mentions(p + front) + tail;
        { MentionsJoin(p, front); }
        (Mentions(p) + Mentions(front)) + tail;
        { Associate(Mentions(p), Mentions(front), tail); }
        Mentions(p) + (Mentions(front) + tail);
        { MentionsNext(front, last); }
        Mentions(p) + Mentions(q);
      }
    }
  }

  /** Every slot `x` mentions already has a winner in `a`. */
  predicate Covered(a: seq<Mention>, x: seq<Mention>) {
    forall i :: 0 <= i < |x| ==> Winner(a, SlotOf(x[i].action)).Some?
  }

  lemma CoveredNext(a: seq<Mention>, x: seq<Mention>, m: Mention)
    requires Covered(a, x) && Winner(a, SlotOf(m.action)).Some?
    ensures Covered(a, x + [m])
  {
  }

  lemma {:induction false} CoveredChangesNothing(a: seq<Mention>, x: seq<Mention>)
    requires Covered(a, x)
    ensures forall slot :: Winner(a + x, slot) == Winner(a, slot)
    ensures forall adding :: Tags(a + x, adding) == Tags(a, adding)
  {
    if x == [] {
      AppendNothing(a);
    } else {
      var front, last := x[..|x| - 1], x[|x| - 1];
      CoveredChangesNothing(a, front);
      LastOfJoin(a, x);
      assert Winner(a, SlotOf(x[|x| - 1].action)).Some?;
      forall slot
        ensures Winner(a + x, slot) == Winner(a, slot)
      {
        WinnerNext(a + front, last, slot);
      }
      TagsNext(a + front, last, true);
      TagsNext(a + front, last, false);
    }
  }

  lemma {:induction false} SameAfter(a: seq<Mention>, a': seq<Mention>, b: seq<Mention>)
    requires forall slot :: Winner(a, slot) == Winner(a', slot)
    requires forall adding :: Tags(a, adding) == Tags(a', adding)
    ensures forall slot :: Winner(a + b, slot) == Winner(a' + b, slot)
    ensures forall adding :: Tags(a + b, adding) == Tags(a' + b, adding)
  {
    if b == [] {
      AppendNothing(a);
      AppendNothing(a');
    } else {
      var front, last := b[..|b| - 1], b[|b| - 1];
      SameAfter(a, a', front);
      LastOfJoin(a, b);
      LastOfJoin(a', b);
      forall slot
        ensures Winner(a + b, slot) == Winner(a' + b, slot)
      {
        WinnerNext(a + front, last, slot);
        WinnerNext(a' + front, last, slot);
      }
      forall adding
        ensures Tags(a + b, adding) == Tags(a' + b, adding)
      {
        TagsNext(a + front, last, adding);
        TagsNext(a' + front, last, adding);
      }
    }
  }

  /** If none of a rule's operations is new, all its slots were won before the rule. */
  lemma {:induction false} SilentRuleIsCovered(before: seq<Mention>, ruleId: Text, operations: seq<Action>, n: nat)
    requires n <= |operations| && !Contributes(before, ruleId, operations, |operations|)
    ensures Covered(before, RuleMentions(ruleId, operations[..n]))
  {
    if n > 0 {
      SilentRuleIsCovered(before, ruleId, operations, n - 1);
      CoveredChangesNothing(before, RuleMentions(ruleId, operations[..n - 1]));
      assert !IsNew(before, ruleId, operations, n - 1);
      PrefixOfPrefix(operations, n, n - 1);
      CoveredNext(before, RuleMentions(ruleId, operations[..n - 1]), Mention(ruleId, operations[n - 1]));
    }
  }

  // ---- conflicts run from earlier rules to later ones ----

  predicate Mentioned(rule: Rule, m: Mention) {
    m.ruleId == rule.id && m.action in Operations(rule)
  }

  lemma {:induction false} RuleMentionsAre(ruleId: Text, operations: seq<Action>)
    ensures |RuleMentions(ruleId, operations)| == |operations|
    ensures forall i :: 0 <= i < |operations| ==> RuleMentions(ruleId, operations)[i] == Mention(ruleId, operations[i])
  {
    if operations != [] {
      RuleMentionsAre(ruleId, operations[..|operations| - 1]);
    }
  }

  lemma {:induction false} MentionHasRule(matched: seq<Rule>, m: Mention) returns (p: nat)
    requires m in Mentions(matched)
    ensures p < |matched| && Mentioned(matched[p], m)
  {
    var n := |matched| - 1;
    RuleMentionsAre(matched[n].id, Operations(matched[n]));
    if m in Mentions(matched[..n]) {
      p := MentionHasRule(matched[..n], m);
    } else {
      var i :| 0 <= i < |Operations(matched[n])| && m == RuleMentions(matched[n].id, Operations(matched[n]))[i];
      p := n;
    }
  }

  /** What a rule's operation meets was said before the rule, as a rule decides each slot once. */
  lemma WinnerIsOlder(before: seq<Mention>, rule: Rule, n: nat)
    requires n < |Operations(rule)| && DistinctSlots(Operations(rule))
    ensures var w := Winner(before + RuleMentions(rule.id, Operations(rule)[..n]), SlotOf(Operations(rule)[n]));
            w.Some? ==> w.value in before
  {
    var ops := Operations(rule);
    var all, slot := before + RuleMentions(rule.id, ops[..n]), SlotOf(ops[n]);
    RuleMentionsAre(rule.id, ops[..n]);
    forall k | |before| <= k < |all|
      ensures SlotOf(all[k].action) != slot
    {
      assert all[k].action == ops[k - |before|];
    }
    if Winner(all, slot).Some? {
      var k := WinnerIsFirst(all, slot);
    }
  }

  lemma NewConflict(ms: seq<Mention>, m: Mention, c: Conflict)
    requires c in Conflicts(ms + [m]) && c !in Conflicts(ms)
    ensures Winner(ms, SlotOf(m.action)) == Some(c.winner) && c.loser == m
  {
    ConflictsNext(ms, m);
  }

  lemma OneMoreMention(before: seq<Mention>, ruleId: Text, operations: seq<Action>, n: nat)
    requires n < |operations|
    ensures before + RuleMentions(ruleId, operations[..n + 1])
            == (before + RuleMentions(ruleId, operations[..n])) + [Mention(ruleId, operations[n])]
  {
    PrefixOfPrefix(operations, n + 1, n);
    Associate(before, RuleMentions(ruleId, operations[..n]), [Mention(ruleId, operations[n])]);
  }

  /** A conflict that a rule adds is with an earlier rule. */
  lemma {:induction false} RuleConflicts(before: seq<Mention>, rule: Rule, n: nat, c: Conflict)
    requires DistinctSlots(Operations(rule)) && n <= |Operations(rule)|
    requires c in Conflicts(before + RuleMentions(rule.id, Operations(rule)[..n])) && c !in Conflicts(before)
    ensures c.winner in before && Mentioned(rule, c.loser)
  {
    var ops := Operations(rule);
    if n == 0 {
      assert ops[..n] == [];
      AppendNothing(before);
    } else {
      assert ops[n - 1] in ops;
      var ms := before + RuleMentions(rule.id, ops[..n - 1]);
      OneMoreMention(before, rule.id, ops, n - 1);
      if c in Conflicts(ms) {
        RuleConflicts(before, rule, n - 1, c);
      } else {
        NewConflict(ms, Mention(rule.id, ops[n - 1]), c);
        WinnerIsOlder(before, rule, n - 1);
      }
    }
  }

  /** The winner of a conflict comes from a strictly earlier rule than the loser. */
  lemma {:induction false} ConflictsPointBack(matched: seq<Rule>, c: Conflict) returns (p: nat, q: nat)
    requires forall i :: 0 <= i < |matched| ==> DistinctSlots(Operations(matched[i]))
    requires c in Conflicts(Mentions(matched))
    ensures p < q < |matched| && Mentioned(matched[p], c.winner) && Mentioned(matched[q], c.loser)
  {
    var n := |matched| - 1;
    var rule := matched[n];
    if c in Conflicts(Mentions(matched[..n])) {
      p, q := ConflictsPointBack(matched[..n], c);
    } else {
      assert Operations(rule)[..|Operations(rule)|] == Operations(rule);
      RuleConflicts(Mentions(matched[..n]), rule, |Operations(rule)|, c);
      p := MentionHasRule(matched[..n], c.winner);
      q := n;
    }
  }

  // ---- which rules are matched ----

  /** The matched ones among rules that all parse and evaluate. */
  function Filter(judge: Rule -> Result<bool, RuleError>, rules: seq<Rule>): seq<Rule> {
    if rules == [] then []
    else (if judge(rules[0]) == Ok(true) then [rules[0]] else []) + Filter(judge, rules[1..])
  }

  predicate StopsHere(judge: Rule -> Result<bool, RuleError>, rule: Rule) {
    judge(rule) == Ok(true) && Stops(rule)
  }

  /** Evaluation reads the rules up to the first matched stopper, all of which parse, and keeps those that match. */
  lemma {:induction false} MatchedIsFilter(judge: Rule -> Result<bool, RuleError>, rules: seq<Rule>) returns (n: nat)
    requires Matched(judge, rules).Ok?
    ensures n <= |rules| && Matched(judge, rules).value == Filter(judge, rules[..n])
    ensures forall i :: 0 <= i < n ==> judge(rules[i]).Ok?
    ensures forall i :: 0 <= i < n - 1 ==> !StopsHere(judge, rules[i])
    ensures n < |rules| ==> n > 0 && StopsHere(judge, rules[n - 1])
  {
    n := 0;
    if rules != [] {
      if StopsHere(judge, rules[0]) {
        n := 1;
        assert rules[..1][1..] == [];
        assert [rules[0]] + [] == [rules[0]];
      } else {
        var m := MatchedIsFilter(judge, rules[1..]);
        n := m + 1;
        TailOfPrefix(rules, n);
      }
    }
  }

  // ---- reordering ----

  lemma {:induction false} OccursOnce(rules: seq<Rule>, x: Rule)
    requires forall i, j :: 0 <= i < j < |rules| ==> rules[i].id != rules[j].id
    ensures multiset(rules)[x] <= 1
  {
    if rules != [] {
      TailMultiset(rules);
      OccursOnce(rules[1..], x);
      assert forall i :: 0 <= i < |rules[1..]| ==> rules[1..][i] == rules[i + 1];
      assert rules[0] !in rules[1..];
    }
  }

  lemma TwiceCounts(rules: seq<Rule>, i: nat, j: nat)
    requires i < j < |rules| && rules[i] == rules[j]
    ensures multiset(rules)[rules[i]] >= 2
  {
    assert rules == rules[..i] + [rules[i]] + rules[i + 1..j] + [rules[j]] + rules[j + 1..];
  }

  lemma SubsetIsWellFormed(a: seq<Rule>, b: seq<Rule>)
    requires WellFormed(a) && multiset(b) <= multiset(a)
    ensures WellFormed(b)
  {
    forall i | 0 <= i < |b|
      ensures b[i] in a
    {
      assert b[i] in multiset(b);
      assert b[i] in multiset(a);
    }
    forall i, j | 0 <= i < j < |b|
      ensures b[i].id != b[j].id
    {
      assert b[i] in a && b[j] in a;
      if b[i].id == b[j].id {
        SameIdSameRule(a, b[i], b[j]);
        TwiceCounts(b, i, j);
        OccursOnce(a, b[i]);
      }
    }
  }

  lemma SameIdSameRule(a: seq<Rule>, x: Rule, y: Rule)
    requires WellFormed(a) && x in a && y in a && x.id == y.id
    ensures x == y
  {
  }

  /** The order in which rules are supplied is irrelevant. */
  lemma OrderOfRulesIsIrrelevant(formats: Formats, a: seq<Rule>, b: seq<Rule>, facts: Facts)
    requires WellFormed(a) && multiset(a) == multiset(b)
    ensures Evaluated(formats, a, facts) == Evaluated(formats, b, facts)
  {
    SubsetIsWellFormed(a, b);
    PrecedesIsStrict();
    DistinctIdsHaveNoTies(a);
    DistinctIdsHaveNoTies(b);
    SortOfPermutation(a, b, Precedes);
    HeaderErrorDecides(a, |a|);
    HeaderErrorDecides(b, |b|);
  }

  // ---- deleting ----

  lemma WithoutFirst<T>(s: seq<T>)
    requires s != []
    ensures Without(s, 0) == s[1..]
  {
  }

  lemma WithoutLater<T>(x: T, s: seq<T>, k: nat)
    requires 0 < k <= |s|
    ensures Without([x] + s, k) == [x] + Without(s, k - 1)
  {
  }

  lemma WithoutTail<T>(s: seq<T>, k: nat)
    requires 0 < k < |s|
    ensures Without(s, k)[0] == s[0] && Without(s, k)[1..] == Without(s[1..], k - 1)
  {
  }

  lemma {:induction false} SkippedRuleIsInvisible(judge: Rule -> Result<bool, RuleError>, s: seq<Rule>, k: nat)
    requires k < |s|
    requires judge(s[k]) == Ok(false) || exists j :: 0 <= j < k && StopsHere(judge, s[j])
    ensures Matched(judge, Without(s, k)) == Matched(judge, s)
  {
    if k == 0 {
      WithoutFirst(s);
    } else if !StopsHere(judge, s[0]) {
      WithoutTail(s, k);
      if j :| 0 <= j < k && StopsHere(judge, s[j]) {
        assert StopsHere(judge, s[1..][j - 1]);
      }
      SkippedRuleIsInvisible(judge, s[1..], k - 1);
    } else {
      WithoutTail(s, k);
    }
  }

  lemma {:induction false} MatchedRuleDrops(judge: Rule -> Result<bool, RuleError>, s: seq<Rule>, p: nat)
    returns (k: nat)
    requires Matched(judge, s).Ok? && p < |Matched(judge, s).value|
    requires !Stops(Matched(judge, s).value[p])
    ensures k < |s| && s[k] == Matched(judge, s).value[p]
    ensures Matched(judge, Without(s, k)) == Ok(Without(Matched(judge, s).value, p))
  {
    var m := Matched(judge, s).value;
    var rest := s[1..];
    if judge(s[0]) == Ok(true) {
      var tail := Matched(judge, rest).value;
      assert m == [s[0]] + tail;
      if p == 0 {
        k := 0;
        WithoutFirst(s);
        WithoutFirst(m);
      } else {
        var i := MatchedRuleDrops(judge, rest, p - 1);
        k := i + 1;
        WithoutTail(s, k);
        WithoutLater(s[0], tail, p);
      }
    } else {
      var i := MatchedRuleDrops(judge, rest, p);
      k := i + 1;
      WithoutTail(s, k);
    }
  }

  lemma DeletedFrom(a: seq<Rule>, b: seq<Rule>, x: Rule) returns (k: nat)
    requires WellFormed(a) && multiset(a) == multiset(b) + multiset{x}
    ensures WellFormed(b) && HeaderError(a, |a|).None? && HeaderError(b, |b|).None?
    ensures k < |Sort(a, Precedes)| && Sort(a, Precedes)[k] == x && Sort(b, Precedes) == Without(Sort(a, Precedes), k)
    ensures Sorted(Sort(a, Precedes), Precedes) && multiset(Sort(a, Precedes)) == multiset(a)
  {
    SubsetIsWellFormed(a, b);
    HeaderErrorDecides(a, |a|);
    HeaderErrorDecides(b, |b|);
    PrecedesIsStrict();
    DistinctIdsHaveNoTies(a);
    DistinctIdsHaveNoTies(b);
    SortSorts(a, Precedes);
    SortKeeps(a, Precedes);
    k := SortWithout(a, b, x, Precedes);
  }

  /** Deleting a rule that does not match, or one ordered after a matched stopper, changes nothing. */
  lemma IrrelevantRuleCanGo(formats: Formats, a: seq<Rule>, b: seq<Rule>, x: Rule, facts: Facts)
    requires WellFormed(a) && multiset(a) == multiset(b) + multiset{x}
    requires Matches(formats, x, facts) == Ok(false)
             || exists y :: y in a && Matches(formats, y, facts) == Ok(true) && Stops(y) && Precedes(y, x)
    ensures Evaluated(formats, b, facts) == Evaluated(formats, a, facts)
  {
    var k := DeletedFrom(a, b, x);
    var s := Sort(a, Precedes);
    var judge := Judge(formats, facts);
    if y :| y in a && Matches(formats, y, facts) == Ok(true) && Stops(y) && Precedes(y, x) {
      SameMembers(s, a);
      var j :| 0 <= j < |s| && s[j] == y;
      EarlierInOrder(s, j, k);
      assert StopsHere(judge, s[j]);
    }
    SkippedRuleIsInvisible(judge, s, k);
  }

  lemma EarlierInOrder(s: seq<Rule>, j: nat, k: nat)
    requires Sorted(s, Precedes) && j < |s| && k < |s| && Precedes(s[j], s[k])
    ensures j < k
  {
    PrecedesIsStrict();
    var x, y := s[j], s[k];
    assert k < j ==> Precedes(y, x);
    OneWay(x, y, Precedes);
  }

  lemma MentionsAround(before: seq<Rule>, rule: Rule, after: seq<Rule>)
    ensures Mentions(before + [rule] + after)
            == Mentions(before) + RuleMentions(rule.id, Operations(rule)) + Mentions(after)
  {
    MentionsJoin(before + [rule], after);
    MentionsNext(before, rule);
  }

  lemma {:induction false} FlagsLength(flag: (seq<Mention>, Rule) -> MatchedRule, matched: seq<Rule>)
    ensures |FlagsBy(flag, matched)| == |matched|
  {
    if matched != [] {
      FlagsLength(flag, matched[..|matched| - 1]);
    }
  }

  /** Each flag is decided by the mentions of the rules before. */
  lemma {:induction false} FlagAt(flag: (seq<Mention>, Rule) -> MatchedRule, matched: seq<Rule>, p: nat)
    requires p < |matched|
    ensures |FlagsBy(flag, matched)| == |matched|
            && FlagsBy(flag, matched)[p] == flag(Mentions(matched[..p]), matched[p])
    decreases |matched|
  {
    var n := |matched| - 1;
    FlagsLength(flag, matched);
    FlagsLength(flag, matched[..n]);
    if p < n {
      FlagAt(flag, matched[..n], p);
      PrefixOfPrefix(matched, n, p);
    }
  }

  lemma SilentRuleSummary(before: seq<Rule>, rule: Rule, after: seq<Rule>)
    requires !FlagOf(Mentions(before), rule).contributed
    ensures ActionsOf(Mentions(before + after)) == ActionsOf(Mentions(before + [rule] + after))
  {
    MentionsAround(before, rule, after);
    MentionsJoin(before, after);
    SilentBlock(Mentions(before), rule, Mentions(after));
  }

  lemma SilentBlock(a: seq<Mention>, rule: Rule, b: seq<Mention>)
    requires !FlagOf(a, rule).contributed
    ensures ActionsOf(a + RuleMentions(rule.id, Operations(rule)) + b) == ActionsOf(a + b)
  {
    var x := RuleMentions(rule.id, Operations(rule));
    assert Operations(rule)[..|Operations(rule)|] == Operations(rule);
    SilentRuleIsCovered(a, rule.id, Operations(rule), |Operations(rule)|);
    CoveredChangesNothing(a, x);
    SameAfter(a + x, a, b);
  }

  lemma StopperIsLast(matched: seq<Rule>, p: nat)
    requires p < |matched| && !Stops(matched[p])
    requires forall i :: 0 <= i < |matched| - 1 ==> !Stops(matched[i])
    ensures Stopper(Without(matched, p)) == Stopper(matched)
  {
    var w := Without(matched, p);
    if w != [] {
      assert w[|w| - 1] == if p == |matched| - 1 then matched[p - 1] else matched[|matched| - 1];
    }
  }

  lemma {:induction false} OnlyTheLastStops(judge: Rule -> Result<bool, RuleError>, s: seq<Rule>)
    requires Matched(judge, s).Ok?
    ensures forall i :: 0 <= i < |Matched(judge, s).value| - 1 ==> !Stops(Matched(judge, s).value[i])
  {
    if s != [] && !StopsHere(judge, s[0]) {
      OnlyTheLastStops(judge, s[1..]);
    }
  }

  /** Deleting a matched rule that neither contributed nor stopped keeps the actions and the stopper. */
  lemma SilentRuleCanGo(formats: Formats, a: seq<Rule>, b: seq<Rule>, x: Rule, facts: Facts)
    requires WellFormed(a) && multiset(a) == multiset(b) + multiset{x}
    requires Evaluated(formats, a, facts).Ok?
    requires MatchedRule(false, x.id, false) in Evaluated(formats, a, facts).value.matchedRules
    ensures Evaluated(formats, b, facts).Ok?
    ensures Evaluated(formats, b, facts).value.actions == Evaluated(formats, a, facts).value.actions
    ensures Evaluated(formats, b, facts).value.stoppedBy == Evaluated(formats, a, facts).value.stoppedBy
  {
    var k := DeletedFrom(a, b, x);
    var s := Sort(a, Precedes);
    var judge := Judge(formats, facts);
    var m := Matched(judge, s).value;
    FlagsLength(FlagOf, m);
    var p :| 0 <= p < |m| && Flags(m)[p] == MatchedRule(false, x.id, false);
    FlagAt(FlagOf, m, p);
    OnlyTheLastStops(judge, s);
    SilentMatchedRule(m, p, x.id);
    var i := MatchedRuleDrops(judge, s, p);
    SamePosition(a, s, i, k);
  }

  lemma SilentMatchedRule(matched: seq<Rule>, p: nat, id: Text)
    requires p < |matched| && FlagOf(Mentions(matched[..p]), matched[p]) == MatchedRule(false, id, false)
    requires forall i :: 0 <= i < |matched| - 1 ==> !Stops(matched[i])
    ensures matched[p].id == id && !Stops(matched[p])
    ensures ActionsOf(Mentions(Without(matched, p))) == ActionsOf(Mentions(matched))
    ensures Stopper(Without(matched, p)) == Stopper(matched)
  {
    SplitAt(matched, p);
    SilentRuleSummary(matched[..p], matched[p], matched[p + 1..]);
    StopperIsLast(matched, p);
  }

  lemma SamePosition(a: seq<Rule>, s: seq<Rule>, i: nat, k: nat)
    requires WellFormed(a) && multiset(s) == multiset(a) && Sorted(s, Precedes)
    requires i < |s| && k < |s| && s[i].id == s[k].id
    ensures i == k
  {
    SubsetIsWellFormed(a, s);
  }

  // ---- conflicts and the rule order ----

  lemma {:induction false} MatchedAreJudged(judge: Rule -> Result<bool, RuleError>, s: seq<Rule>, x: Rule)
    requires Matched(judge, s).Ok? && x in Matched(judge, s).value
    ensures x in s && judge(x) == Ok(true)
  {
    if judge(s[0]) == Ok(true) && x == s[0] {
    } else {
      MatchedAreJudged(judge, s[1..], x);
    }
  }

  lemma {:induction false} MatchedStaySorted(judge: Rule -> Result<bool, RuleError>, s: seq<Rule>)
    requires Matched(judge, s).Ok? && Sorted(s, Precedes)
    ensures Sorted(Matched(judge, s).value, Precedes)
  {
    if s != [] && !StopsHere(judge, s[0]) {
      MatchedStaySorted(judge, s[1..]);
      var tail := Matched(judge, s[1..]).value;
      forall j | 0 <= j < |tail|
        ensures Precedes(s[0], tail[j])
      {
        MatchedAreJudged(judge, s[1..], tail[j]);
        var i :| 0 <= i < |s[1..]| && s[1..][i] == tail[j];
        assert s[i + 1] == tail[j];
      }
    }
  }

  /** In every reported conflict the winning rule is ordered strictly before the losing one. */
  lemma ConflictsFollowTheOrder(formats: Formats, rules: seq<Rule>, facts: Facts, c: Conflict)
    returns (w: Rule, l: Rule)
    requires Evaluated(formats, rules, facts).Ok? && c in Evaluated(formats, rules, facts).value.conflicts
    ensures w in rules && l in rules && Precedes(w, l)
    ensures Mentioned(w, c.winner) && Mentioned(l, c.loser)
  {
    var judge := Judge(formats, facts);
    var s := Sort(rules, Precedes);
    var m := Matched(judge, s).value;
    HeaderErrorDecides(rules, |rules|);
    PrecedesIsStrict();
    DistinctIdsHaveNoTies(rules);
    SortSorts(rules, Precedes);
    SortKeeps(rules, Precedes);
    SameMembers(s, rules);
    MatchedStaySorted(judge, s);
    forall i | 0 <= i < |m|
      ensures m[i] in s && DistinctSlots(Operations(m[i]))
    {
      MatchedAreJudged(judge, s, m[i]);
    }
    var p, q := ConflictsPointBack(m, c);
    w, l := m[p], m[q];
  }
}
