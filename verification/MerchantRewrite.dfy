/** Redirecting merchant references inside stored rules: what the rewriting keeps and what it means. */
module MerchantRewrite {
  import opened Outcomes
  import opened JsonText
  import opened RuleLanguage
  import opened ConditionEvaluation

  function ReplaceScalar(v: Scalar, source: Text, target: Text): Scalar {
    if v == Word(source) then Word(target) else v
  }

  function ReplaceScalars(vs: seq<Scalar>, source: Text, target: Text): (r: seq<Scalar>)
    ensures |r| == |vs| && forall i :: 0 <= i < |vs| ==> r[i] == ReplaceScalar(vs[i], source, target)
  {
    if vs == [] then [] else [ReplaceScalar(vs[0], source, target)] + ReplaceScalars(vs[1..], source, target)
  }

  /** replaceMerchantPredicateValue */
  function ReplaceOperand(operand: Operand, source: Text, target: Text): Operand {
    match operand
    case One(v) => One(ReplaceScalar(v, source, target))
    case Many(vs) => Many(ReplaceScalars(vs, source, target))
  }

  /** replaceMerchantReferences on a condition tree. */
  function RewriteNode(node: Node, source: Text, target: Text): Node {
    match node
    case Predicate(field, operator, operand) =>
      Predicate(field, operator, if field == MerchantId then ReplaceOperand(operand, source, target) else operand)
    case Group(every, conditions) => Group(every, RewriteNodes(conditions, source, target))
  }

  function RewriteNodes(nodes: seq<Node>, source: Text, target: Text): (r: seq<Node>)
    ensures |r| == |nodes| && forall i :: 0 <= i < |nodes| ==> r[i] == RewriteNode(nodes[i], source, target)
  {
    if nodes == [] then [] else [RewriteNode(nodes[0], source, target)] + RewriteNodes(nodes[1..], source, target)
  }

  function RewriteAction(action: Action, source: Text, target: Text): Action {
    if action == SetMerchant(source) then SetMerchant(target) else action
  }

  /** replaceMerchantReferences on an action list. */
  function RewriteActions(operations: seq<Action>, source: Text, target: Text): (r: seq<Action>)
    ensures |r| == |operations| && forall i :: 0 <= i < |operations| ==>
              r[i] == RewriteAction(operations[i], source, target)
  {
    if operations == [] then []
    else [RewriteAction(operations[0], source, target)] + RewriteActions(operations[1..], source, target)
  }

  // ---- idempotence, and no reference left ----

  predicate OperandFree(operand: Operand, source: Text) {
    match operand
    case One(v) => v != Word(source)
    case Many(vs) => Word(source) !in vs
  }

  /** No condition on the merchant mentions `source`. */
  predicate NodeFree(node: Node, source: Text) {
    match node
    case Predicate(field, _, operand) => field == MerchantId ==> OperandFree(operand, source)
    case Group(_, conditions) => forall i :: 0 <= i < |conditions| ==> NodeFree(conditions[i], source)
  }

  predicate ActionsFree(operations: seq<Action>, source: Text) {
    SetMerchant(source) !in operations
  }

  lemma {:induction false} RewriteFreesNode(node: Node, source: Text, target: Text)
    requires source != target
    ensures NodeFree(RewriteNode(node, source, target), source)
  {
    if node.Group? {
      forall i | 0 <= i < |node.conditions|
        ensures NodeFree(RewriteNodes(node.conditions, source, target)[i], source)
      {
        RewriteFreesNode(node.conditions[i], source, target);
      }
    }
  }

  /** A tree is left alone exactly when it does not mention the source (for a real change of merchant). */
  lemma {:induction false} RewriteFixesFree(node: Node, source: Text, target: Text)
    requires source != target
    ensures RewriteNode(node, source, target) == node <==> NodeFree(node, source)
  {
    match node
    case Group(_, conditions) =>
      forall i | 0 <= i < |conditions|
        ensures RewriteNode(conditions[i], source, target) == conditions[i] <==> NodeFree(conditions[i], source)
      {
        RewriteFixesFree(conditions[i], source, target);
      }
      var r := RewriteNodes(conditions, source, target);
      assert r == conditions <==> forall i :: 0 <= i < |conditions| ==> r[i] == conditions[i];
    case Predicate(_, _, operand) =>
      if operand.Many? {
        var r := ReplaceScalars(operand.vs, source, target);
        assert r == operand.vs <==> forall i :: 0 <= i < |r| ==> r[i] == operand.vs[i];
      }
  }

  lemma RewriteIsIdempotent(node: Node, operations: seq<Action>, source: Text, target: Text)
    requires source != target
    ensures RewriteNode(RewriteNode(node, source, target), source, target) == RewriteNode(node, source, target)
    ensures RewriteActions(RewriteActions(operations, source, target), source, target)
            == RewriteActions(operations, source, target)
    ensures ActionsFree(RewriteActions(operations, source, target), source)
  {
    RewriteFreesNode(node, source, target);
    RewriteFixesFree(RewriteNode(node, source, target), source, target);
    var once := RewriteActions(operations, source, target);
    assert RewriteActions(once, source, target) == once;
  }

  // ---- validity ----

  lemma {:induction false} AsciiBytes(s: Text)
    requires forall i :: 0 <= i < |s| ==> 32 <= s[i] < 0x80 && s[i] != QUOTE && s[i] != BACKSLASH
    ensures Escape(s) == s && Utf8Bytes(s) == |s|
  {
    if s != [] {
      AsciiBytes(s[1..]);
      assert s == [s[0]] + s[1..];
    }
  }

  lemma {:induction false} Utf8Join(s: Text, t: Text)
    ensures Utf8Bytes(s + t) == Utf8Bytes(s) + Utf8Bytes(t)
  {
    if s == [] {
      assert s + t == t;
    } else {
      Utf8Join(s[1..], t);
      assert (s + t)[1..] == s[1..] + t;
    }
  }

  /** Every UUID takes 38 bytes in a document. */
  lemma UuidBytes(formats: Formats, s: Text)
    requires IsUuid(formats, s)
    ensures ScalarBytes(Word(s)) == 38
  {
    AsciiBytes(s);
    Utf8Join([QUOTE] + s, [QUOTE]);
    Utf8Join([QUOTE], s);
    assert Utf8Bytes([QUOTE]) == 1 + Utf8Bytes([QUOTE][1..]);
  }

  lemma ReplacedScalar(formats: Formats, v: Scalar, source: Text, target: Text)
    requires ScalarValid(formats, MerchantId, v) && IsUuid(formats, target)
    ensures ScalarValid(formats, MerchantId, ReplaceScalar(v, source, target))
    ensures ScalarBytes(ReplaceScalar(v, source, target)) == ScalarBytes(v)
  {
    UuidBytes(formats, v.s);
    UuidBytes(formats, target);
  }

  lemma {:induction false} ReplacedScalars(formats: Formats, vs: seq<Scalar>, source: Text, target: Text)
    requires IsUuid(formats, target) && forall i :: 0 <= i < |vs| ==> ScalarValid(formats, MerchantId, vs[i])
    ensures forall i :: 0 <= i < |vs| ==> ScalarValid(formats, MerchantId, ReplaceScalars(vs, source, target)[i])
    ensures ScalarsBytes(ReplaceScalars(vs, source, target)) == ScalarsBytes(vs)
  {
    if vs != [] {
      ReplacedScalar(formats, vs[0], source, target);
      ReplacedScalars(formats, vs[1..], source, target);
      var rest := ReplaceScalars(vs[1..], source, target);
      assert ReplaceScalars(vs, source, target) == [ReplaceScalar(vs[0], source, target)] + rest;
      assert forall i :: 0 < i < |vs| ==> ReplaceScalars(vs, source, target)[i] == rest[i - 1];
    }
  }

  lemma {:induction false} RewrittenNode(formats: Formats, node: Node, source: Text, target: Text)
    requires NodeValid(formats, node) && IsUuid(formats, target)
    ensures NodeValid(formats, RewriteNode(node, source, target))
    ensures NodeBytes(RewriteNode(node, source, target)) == NodeBytes(node)
    ensures Height(RewriteNode(node, source, target)) == Height(node)
    ensures Size(RewriteNode(node, source, target)) == Size(node)
    decreases node, 1
  {
    match node
    case Group(_, conditions) => RewrittenNodes(formats, conditions, source, target);
    case Predicate(field, operator, operand) =>
      if field == MerchantId {
        ReplacedOperand(formats, operator, operand, source, target);
      }
  }

  lemma {:induction false} RewrittenNodes(formats: Formats, nodes: seq<Node>, source: Text, target: Text)
    requires IsUuid(formats, target) && forall i :: 0 <= i < |nodes| ==> NodeValid(formats, nodes[i])
    ensures forall i :: 0 <= i < |nodes| ==> NodeValid(formats, RewriteNodes(nodes, source, target)[i])
    ensures NodesBytes(RewriteNodes(nodes, source, target)) == NodesBytes(nodes)
    ensures HeightAll(RewriteNodes(nodes, source, target)) == HeightAll(nodes)
    ensures SizeAll(RewriteNodes(nodes, source, target)) == SizeAll(nodes)
    decreases nodes, 0
  {
    if nodes != [] {
      RewrittenNode(formats, nodes[0], source, target);
      RewrittenNodes(formats, nodes[1..], source, target);
      var rest := RewriteNodes(nodes[1..], source, target);
      assert RewriteNodes(nodes, source, target) == [RewriteNode(nodes[0], source, target)] + rest;
      assert forall i :: 0 < i < |nodes| ==> RewriteNodes(nodes, source, target)[i] == rest[i - 1];
    }
  }

  lemma {:induction false} RewrittenActions(formats: Formats, operations: seq<Action>, source: Text, target: Text)
    requires IsUuid(formats, target) && forall i :: 0 <= i < |operations| ==> ActionValid(formats, operations[i])
    ensures ActionsBytes(RewriteActions(operations, source, target)) == ActionsBytes(operations)
  {
    if operations != [] {
      if operations[0] == SetMerchant(source) {
        UuidBytes(formats, source);
        UuidBytes(formats, target);
      }
      RewrittenActions(formats, operations[1..], source, target);
      assert RewriteActions(operations, source, target)[1..] == RewriteActions(operations[1..], source, target);
    }
  }

  /** Rewriting a valid rule gives a valid rule, so the parse after it never fails. */
  lemma RewriteKeepsValidity(formats: Formats, root: Node, operations: seq<Action>, source: Text, target: Text)
    requires IsUuid(formats, target)
    ensures ConditionsValid(formats, root) ==> ConditionsValid(formats, RewriteNode(root, source, target))
    ensures ActionsValid(formats, operations) ==> ActionsValid(formats, RewriteActions(operations, source, target))
    ensures ConditionsValid(formats, root) ==> NodeBytes(RewriteNode(root, source, target)) == NodeBytes(root)
    ensures ActionsValid(formats, operations) ==>
              ActionsBytes(RewriteActions(operations, source, target)) == ActionsBytes(operations)
  {
    if ConditionsValid(formats, root) {
      RewrittenNode(formats, root, source, target);
      BoundsAreHeightAndSize(formats, root);
      BoundsAreHeightAndSize(formats, RewriteNode(root, source, target));
    }
    if ActionsValid(formats, operations) {
      RewrittenActions(formats, operations, source, target);
      var r := RewriteActions(operations, source, target);
      forall i | 0 <= i < |r|
        ensures ActionValid(formats, r[i]) && SlotOf(r[i]) == SlotOf(operations[i])
      {
      }
    }
  }

  // ---- meaning ----

  lemma CompareWords(s: Text, t: Text)
    ensures Compare(Word(s), Word(t)) == 0 <==> s == t
  {
    BelowTotal(s, t);
  }

  lemma {:induction false} EqualScalars(actual: Text, vs: seq<Scalar>)
    ensures AnyEqual(Word(actual), vs) <==> Word(actual) in vs
  {
    forall i | 0 <= i < |vs|
      ensures Compare(Word(actual), vs[i]) == 0 <==> vs[i] == Word(actual)
    {
      if vs[i].Word? {
        CompareWords(actual, vs[i].s);
      }
    }
  }

  /** What a condition on the merchant says about a known merchant. */
  predicate MerchantHolds(operator: Operator, operand: Operand, id: Text) {
    if operator == Neq then operand != One(Word(id))
    else if operator == Eq then operand == One(Word(id))
    else operand.Many? && Word(id) in operand.vs
  }

  lemma WordCondition(formats: Formats, operator: Operator, operand: Operand, id: Text)
    requires Supports(UuidKind, operator) && OperandValid(formats, MerchantId, operator, operand)
    ensures EvaluateActual(formats, operator, operand, Word(id)) == Ok(MerchantHolds(operator, operand, id))
  {
    if operator == In {
      EqualScalars(id, operand.vs);
    } else {
      CompareWords(id, operand.v.s);
    }
  }

  lemma MerchantCondition(formats: Formats, operator: Operator, operand: Operand, facts: Facts)
    requires Supports(UuidKind, operator) && OperandValid(formats, MerchantId, operator, operand)
    requires facts.merchantId.Some?
    ensures EvaluatePredicate(formats, MerchantId, operator, operand, facts)
            == Ok(MerchantHolds(operator, operand, facts.merchantId.value))
  {
    assert ActualValue(facts, MerchantId) == Some(Word(facts.merchantId.value));
    WordCondition(formats, operator, operand, facts.merchantId.value);
  }

  lemma ReplacedOperand(formats: Formats, operator: Operator, operand: Operand, source: Text, target: Text)
    requires Supports(UuidKind, operator) && OperandValid(formats, MerchantId, operator, operand)
             && IsUuid(formats, target)
    ensures OperandValid(formats, MerchantId, operator, ReplaceOperand(operand, source, target))
    ensures OperandBytes(ReplaceOperand(operand, source, target)) == OperandBytes(operand)
  {
    match operand
    case One(v) => ReplacedScalar(formats, v, source, target);
    case Many(vs) => ReplacedScalars(formats, vs, source, target);
  }

  lemma ReplacedMembership(vs: seq<Scalar>, source: Text, target: Text, id: Text)
    ensures Word(id) in ReplaceScalars(vs, source, target) <==>
            (Word(id) in vs && id != source) || (id == target && Word(source) in vs)
  {
    var r := ReplaceScalars(vs, source, target);
    forall i | 0 <= i < |vs|
      ensures r[i] == ReplaceScalar(vs[i], source, target)
    {
    }
    if Word(id) in vs && id != source {
      var i :| 0 <= i < |vs| && vs[i] == Word(id);
      assert r[i] == Word(id);
    }
    if id == target && Word(source) in vs {
      var i :| 0 <= i < |vs| && vs[i] == Word(source);
      assert r[i] == Word(id);
    }
  }

  lemma OtherMerchantCondition(formats: Formats, operator: Operator, operand: Operand, facts: Facts, source: Text,
                               target: Text)
    requires Supports(UuidKind, operator) && OperandValid(formats, MerchantId, operator, operand)
             && IsUuid(formats, target)
    requires facts.merchantId.Some? ==> facts.merchantId.value != source && facts.merchantId.value != target
    ensures EvaluatePredicate(formats, MerchantId, operator, ReplaceOperand(operand, source, target), facts)
            == EvaluatePredicate(formats, MerchantId, operator, operand, facts)
  {
    if facts.merchantId.Some? {
      ReplacedOperand(formats, operator, operand, source, target);
      MerchantCondition(formats, operator, operand, facts);
      MerchantCondition(formats, operator, ReplaceOperand(operand, source, target), facts);
      ThirdMerchantHolds(operator, operand, source, target, facts.merchantId.value);
    } else {
      assert ActualValue(facts, MerchantId).None?;
    }
  }

  lemma ThirdMerchantHolds(operator: Operator, operand: Operand, source: Text, target: Text, id: Text)
    requires id != source && id != target
    ensures MerchantHolds(operator, ReplaceOperand(operand, source, target), id) == MerchantHolds(operator, operand, id)
  {
    if operand.Many? {
      ReplacedMembership(operand.vs, source, target, id);
    }
  }

  lemma OtherMerchantPredicate(formats: Formats, field: Field, operator: Operator, operand: Operand, facts: Facts,
                               source: Text, target: Text)
    requires Supports(KindOf(field), operator) && OperandValid(formats, field, operator, operand)
             && IsUuid(formats, target)
    requires facts.merchantId.Some? ==> facts.merchantId.value != source && facts.merchantId.value != target
    ensures var rewritten := if field == MerchantId then ReplaceOperand(operand, source, target) else operand;
            EvaluatePredicate(formats, field, operator, rewritten, facts)
              == EvaluatePredicate(formats, field, operator, operand, facts)
  {
    if field == MerchantId {
      OtherMerchantCondition(formats, operator, operand, facts, source, target);
    }
  }

  /** A fact about neither merchant is judged as before. */
  lemma {:induction false} OtherMerchantsUnaffected(formats: Formats, node: Node, facts: Facts, source: Text,
                                                    target: Text)
    requires NodeValid(formats, node) && IsUuid(formats, target)
    requires facts.merchantId.Some? ==> facts.merchantId.value != source && facts.merchantId.value != target
    ensures EvaluateNode(formats, RewriteNode(node, source, target), facts) == EvaluateNode(formats, node, facts)
    decreases node, 1
  {
    match node
    case Group(every, conditions) =>
      OtherMerchantsUnaffectedAll(formats, every, conditions, facts, source, target);
    case Predicate(field, operator, operand) =>
      OtherMerchantPredicate(formats, field, operator, operand, facts, source, target);
  }

  lemma {:induction false} OtherMerchantsUnaffectedAll(formats: Formats, every: bool, nodes: seq<Node>, facts: Facts,
                                                       source: Text, target: Text)
    requires IsUuid(formats, target) && forall i :: 0 <= i < |nodes| ==> NodeValid(formats, nodes[i])
    requires facts.merchantId.Some? ==> facts.merchantId.value != source && facts.merchantId.value != target
    ensures EvaluateGroup(formats, every, RewriteNodes(nodes, source, target), facts)
            == EvaluateGroup(formats, every, nodes, facts)
    decreases nodes, 0
  {
    if nodes != [] {
      OtherMerchantsUnaffected(formats, nodes[0], facts, source, target);
      OtherMerchantsUnaffectedAll(formats, every, nodes[1..], facts, source, target);
      assert RewriteNodes(nodes, source, target)[1..] == RewriteNodes(nodes[1..], source, target);
    }
  }

  function Moved(facts: Facts, target: Text): Facts {
    facts.(merchantId := Some(target))
  }

  lemma MovedKeepsOthers(facts: Facts, target: Text, field: Field)
    requires field != MerchantId
    ensures ActualValue(Moved(facts, target), field) == ActualValue(facts, field)
  {
    match field
    case ProviderType | MerchantKey | ProviderCategory =>
    case AccountAmount | InstallmentTotal =>
    case _ =>
  }

  lemma OtherFieldsStay(formats: Formats, field: Field, operator: Operator, operand: Operand, facts: Facts,
                        target: Text)
    requires field != MerchantId
    ensures EvaluatePredicate(formats, field, operator, operand, Moved(facts, target))
            == EvaluatePredicate(formats, field, operator, operand, facts)
  {
    MovedKeepsOthers(facts, target, field);
  }

  // ---- what a merge makes of a tree, read off the tree before it ----

  /** A condition on the merchant, read for both merchants at once: one is enough, unless it excludes. */
  predicate PairHolds(operator: Operator, operand: Operand, source: Text, target: Text) {
    if operator == Neq then MerchantHolds(operator, operand, source) && MerchantHolds(operator, operand, target)
    else MerchantHolds(operator, operand, source) || MerchantHolds(operator, operand, target)
  }

  /** The stored tree on the unmoved facts, its conditions on the merchant read for both merchants at once. */
  function PairReading(formats: Formats, node: Node, facts: Facts, source: Text,
                       target: Text): Result<bool, EvaluationError>
    decreases node, 1
  {
    match node
    case Predicate(field, operator, operand) =>
      if field == MerchantId then Ok(PairHolds(operator, operand, source, target))
      else EvaluatePredicate(formats, field, operator, operand, facts)
    case Group(every, conditions) => PairReadingGroup(formats, every, conditions, facts, source, target)
  }

  function PairReadingGroup(formats: Formats, every: bool, nodes: seq<Node>, facts: Facts, source: Text, target: Text):
    Result<bool, EvaluationError>
    decreases nodes, 0
  {
    if nodes == [] then Ok(every)
    else
      match PairReading(formats, nodes[0], facts, source, target)
      case Err(error) => Err(error)
      case Ok(holds) =>
        if holds == every then PairReadingGroup(formats, every, nodes[1..], facts, source, target) else Ok(holds)
  }

  lemma ReplacedHolds(operator: Operator, operand: Operand, source: Text, target: Text)
    requires source != target && Supports(UuidKind, operator) && (operator == In <==> operand.Many?)
    ensures MerchantHolds(operator, ReplaceOperand(operand, source, target), target)
            == PairHolds(operator, operand, source, target)
  {
    if operand.Many? {
      ReplacedMembership(operand.vs, source, target, target);
    }
  }

  lemma MergedCondition(formats: Formats, operator: Operator, operand: Operand, facts: Facts, source: Text,
                        target: Text)
    requires Supports(UuidKind, operator) && OperandValid(formats, MerchantId, operator, operand)
    requires IsUuid(formats, target) && source != target
    ensures EvaluatePredicate(formats, MerchantId, operator, ReplaceOperand(operand, source, target),
                              Moved(facts, target))
            == Ok(PairHolds(operator, operand, source, target))
  {
    ReplacedOperand(formats, operator, operand, source, target);
    MerchantCondition(formats, operator, ReplaceOperand(operand, source, target), Moved(facts, target));
    ReplacedHolds(operator, operand, source, target);
  }

  lemma MergedPredicate(formats: Formats, field: Field, operator: Operator, operand: Operand, facts: Facts,
                        source: Text, target: Text)
    requires Supports(KindOf(field), operator) && OperandValid(formats, field, operator, operand)
    requires IsUuid(formats, target) && source != target
    ensures var rewritten := if field == MerchantId then ReplaceOperand(operand, source, target) else operand;
            EvaluatePredicate(formats, field, operator, rewritten, Moved(facts, target))
            == PairReading(formats, Predicate(field, operator, operand), facts, source, target)
  {
    if field == MerchantId {
      MergedCondition(formats, operator, operand, facts, source, target);
    } else {
      OtherFieldsStay(formats, field, operator, operand, facts, target);
    }
  }

  /**
   The rewritten tree judges a transaction of the target as the stored tree, read for both, judges it:
   exactly, failures included.
   */
  lemma {:induction false} MergeReadsThePair(formats: Formats, node: Node, facts: Facts, source: Text, target: Text)
    requires NodeValid(formats, node) && IsUuid(formats, target) && source != target
    ensures EvaluateNode(formats, RewriteNode(node, source, target), Moved(facts, target))
            == PairReading(formats, node, facts, source, target)
    decreases node, 1
  {
    match node
    case Group(every, conditions) =>
      MergeReadsThePairAll(formats, every, conditions, facts, source, target);
    case Predicate(field, operator, operand) =>
      MergedPredicate(formats, field, operator, operand, facts, source, target);
  }

  lemma {:induction false} MergeReadsThePairAll(formats: Formats, every: bool, nodes: seq<Node>, facts: Facts,
                                                source: Text, target: Text)
    requires IsUuid(formats, target) && source != target && forall i :: 0 <= i < |nodes| ==>
               NodeValid(formats, nodes[i])
    ensures EvaluateGroup(formats, every, RewriteNodes(nodes, source, target), Moved(facts, target))
            == PairReadingGroup(formats, every, nodes, facts, source, target)
    decreases nodes, 0
  {
    if nodes != [] {
      MergeReadsThePair(formats, nodes[0], facts, source, target);
      MergeReadsThePairAll(formats, every, nodes[1..], facts, source, target);
      assert RewriteNodes(nodes, source, target)[1..] == RewriteNodes(nodes[1..], source, target);
    }
  }

  /**
   A rule that matched a transaction of either merchant still matches it as the target's,
   exactly when its stored tree, read for both merchants at once, holds of it.
   */
  lemma MatchSurvivesExactly(formats: Formats, root: Node, facts: Facts, source: Text, target: Text)
    requires ConditionsValid(formats, root) && IsUuid(formats, target) && source != target
    requires facts.merchantId == Some(source) || facts.merchantId == Some(target)
    requires EvaluateNode(formats, root, facts) == Ok(true)
    ensures ConditionsValid(formats, RewriteNode(root, source, target))
    ensures EvaluateNode(formats, RewriteNode(root, source, target), Moved(facts, target)) == Ok(true)
            <==> PairReading(formats, root, facts, source, target) == Ok(true)
  {
    RewriteKeepsValidity(formats, root, [], source, target);
    MergeReadsThePair(formats, root, facts, source, target);
  }

  // ---- a simple condition under which every match survives ----

  /** A condition that excludes one of the two merchants. */
  predicate Excludes(field: Field, operator: Operator, operand: Operand, source: Text, target: Text) {
    field == MerchantId && operator == Neq && (operand == One(Word(source)) || operand == One(Word(target)))
  }

  predicate NoExclusion(node: Node, source: Text, target: Text) {
    match node
    case Predicate(field, operator, operand) => !Excludes(field, operator, operand, source, target)
    case Group(_, conditions) => forall i :: 0 <= i < |conditions| ==> NoExclusion(conditions[i], source, target)
  }

  /**
   A valid condition, seen from the merged merchant, allows whatever it allowed either merchant,
   exactly when it excludes neither of the two.
   */
  lemma MergedConditionExactly(operator: Operator, operand: Operand, source: Text, target: Text)
    requires source != target && Supports(UuidKind, operator) && (operator == In <==> operand.Many?)
    ensures (forall id :: (id == source || id == target) && MerchantHolds(operator, operand, id) ==>
               MerchantHolds(operator, ReplaceOperand(operand, source, target), target))
            <==> !Excludes(MerchantId, operator, operand, source, target)
  {
    ReplacedHolds(operator, operand, source, target);
    assert Excludes(MerchantId, operator, operand, source, target) ==>
             MerchantHolds(operator, operand, source) || MerchantHolds(operator, operand, target);
  }

  lemma PairAllows(operator: Operator, operand: Operand, id: Text, source: Text, target: Text)
    requires !Excludes(MerchantId, operator, operand, source, target)
    requires (id == source || id == target) && MerchantHolds(operator, operand, id)
    ensures PairHolds(operator, operand, source, target)
  {
  }

  lemma ConditionAllowsThePair(formats: Formats, operator: Operator, operand: Operand, facts: Facts, source: Text,
                               target: Text)
    requires Supports(UuidKind, operator) && OperandValid(formats, MerchantId, operator, operand) && source != target
    requires !Excludes(MerchantId, operator, operand, source, target)
    requires facts.merchantId == Some(source) || facts.merchantId == Some(target)
    requires EvaluatePredicate(formats, MerchantId, operator, operand, facts) == Ok(true)
    ensures PairHolds(operator, operand, source, target)
  {
    MerchantCondition(formats, operator, operand, facts);
    PairAllows(operator, operand, facts.merchantId.value, source, target);
  }

  /**
   Without exclusions the reading for both holds wherever the tree held for one, if no text is too long for
   its pattern.
   */
  lemma {:induction false} PairReadingAllows(formats: Formats, node: Node, facts: Facts, source: Text, target: Text)
    requires NodeValid(formats, node) && source != target && NoExclusion(node, source, target)
             && PatternsFit(node, facts)
    requires facts.merchantId == Some(source) || facts.merchantId == Some(target)
    ensures PairReading(formats, node, facts, source, target).Ok?
    ensures EvaluateNode(formats, node, facts) == Ok(true) ==>
              PairReading(formats, node, facts, source, target) == Ok(true)
    decreases node, 1
  {
    FittingPatternsEvaluate(formats, node, facts);
    match node
    case Group(every, conditions) =>
      PairReadingAllowsAll(formats, every, conditions, facts, source, target);
    case Predicate(field, operator, operand) =>
      if field == MerchantId && EvaluateNode(formats, node, facts) == Ok(true) {
        ConditionAllowsThePair(formats, operator, operand, facts, source, target);
      }
  }

  lemma {:induction false} PairReadingAllowsAll(formats: Formats, every: bool, nodes: seq<Node>, facts: Facts,
                                                source: Text, target: Text)
    requires source != target && forall i :: 0 <= i < |nodes| ==>
               NodeValid(formats, nodes[i]) && NoExclusion(nodes[i], source, target) && PatternsFit(nodes[i], facts)
    requires facts.merchantId == Some(source) || facts.merchantId == Some(target)
    ensures PairReadingGroup(formats, every, nodes, facts, source, target).Ok?
    ensures EvaluateGroup(formats, every, nodes, facts) == Ok(true) ==>
              PairReadingGroup(formats, every, nodes, facts, source, target) == Ok(true)
    decreases nodes, 0
  {
    if nodes != [] {
      PairReadingAllows(formats, nodes[0], facts, source, target);
      FittingPatternsEvaluate(formats, nodes[0], facts);
      PairReadingAllowsAll(formats, every, nodes[1..], facts, source, target);
    }
  }

  /**
   A transaction of either merchant that matched still matches as the target's, if no condition
   excludes one of the two and no text is too long for the pattern it meets.
   */
  lemma MatchesSurviveMerge(formats: Formats, node: Node, facts: Facts, source: Text, target: Text)
    requires NodeValid(formats, node) && IsUuid(formats, target) && source != target
    requires NoExclusion(node, source, target) && PatternsFit(node, facts)
    requires facts.merchantId == Some(source) || facts.merchantId == Some(target)
    requires EvaluateNode(formats, node, facts) == Ok(true)
    ensures EvaluateNode(formats, RewriteNode(node, source, target), Moved(facts, target)) == Ok(true)
  {
    PairReadingAllows(formats, node, facts, source, target);
    MergeReadsThePair(formats, node, facts, source, target);
  }

  function MerchantIs(operator: Operator, id: Text): Node {
    Predicate(MerchantId, operator, One(Word(id)))
  }

  lemma MerchantIsMeans(formats: Formats, operator: Operator, id: Text, facts: Facts)
    requires IsUuid(formats, id) && (operator == Eq || operator == Neq) && facts.merchantId.Some?
    ensures NodeValid(formats, MerchantIs(operator, id))
    ensures EvaluateNode(formats, MerchantIs(operator, id), facts)
            == Ok((facts.merchantId.value == id) == (operator == Eq))
  {
    MerchantCondition(formats, operator, One(Word(id)), facts);
  }

  /** An exclusion of the source is the exception: it held for the target and no longer does. */
  lemma ExclusionsDoNotSurvive(formats: Formats, facts: Facts, source: Text, target: Text)
    requires IsUuid(formats, source) && IsUuid(formats, target) && source != target
    requires facts.merchantId == Some(target)
    ensures NodeValid(formats, MerchantIs(Neq, source))
    ensures EvaluateNode(formats, MerchantIs(Neq, source), facts) == Ok(true)
    ensures EvaluateNode(formats, RewriteNode(MerchantIs(Neq, source), source, target), Moved(facts, target))
            == Ok(false)
  {
    MerchantIsMeans(formats, Neq, source, facts);
    MerchantIsMeans(formats, Neq, target, Moved(facts, target));
    assert RewriteNode(MerchantIs(Neq, source), source, target) == MerchantIs(Neq, target);
  }

  lemma PairOfConditions(formats: Formats, every: bool, a: Node, b: Node, facts: Facts)
    ensures EvaluateNode(formats, Group(every, [a, b]), facts) ==
            if EvaluateNode(formats, a, facts) == Ok(every) then EvaluateNode(formats, b, facts)
            else EvaluateNode(formats, a, facts)
  {
    assert [a, b][1..] == [b];
    assert EvaluateGroup(formats, every, [b], facts) ==
           match EvaluateNode(formats, b, facts) case Err(e) => Err(e) case Ok(holds) => Ok(holds);
  }

  lemma RewrittenPair(every: bool, a: Node, b: Node, source: Text, target: Text)
    ensures RewriteNode(Group(every, [a, b]), source, target)
            == Group(every, [RewriteNode(a, source, target), RewriteNode(b, source, target)])
  {
    assert RewriteNodes([a, b], source, target) == [RewriteNode(a, source, target), RewriteNode(b, source, target)];
  }

  /** ANY of: the source with a description that matches, or the target. */
  function GuardedPattern(source: Text, target: Text, pattern: Text): Node {
    Group(false, [Guard(source, pattern), MerchantIs(Eq, target)])
  }

  function Guard(id: Text, pattern: Text): Node {
    Group(true, [MerchantIs(Eq, id), Matching(pattern)])
  }

  function Matching(pattern: Text): Node {
    Predicate(Description, RegexSafe, One(Word(pattern)))
  }

  lemma RewrittenGuard(source: Text, target: Text, pattern: Text)
    ensures RewriteNode(GuardedPattern(source, target, pattern), source, target)
            == Group(false, [Guard(target, pattern), MerchantIs(Eq, target)])
  {
    RewrittenPair(true, MerchantIs(Eq, source), Matching(pattern), source, target);
    RewrittenPair(false, Guard(source, pattern), MerchantIs(Eq, target), source, target);
    assert RewriteNode(MerchantIs(Eq, source), source, target) == MerchantIs(Eq, target);
    assert RewriteNode(MerchantIs(Eq, target), source, target) == MerchantIs(Eq, target);
    assert RewriteNode(Matching(pattern), source, target) == Matching(pattern);
  }

  /** So is a description too long for the matcher, which a condition on the source used to keep from it. */
  lemma LongInputsDoNotSurvive(formats: Formats, facts: Facts, source: Text, target: Text, pattern: Text)
    requires IsUuid(formats, source) && IsUuid(formats, target) && source != target
    requires PatternValid(formats, Word(pattern)) && |facts.description| > MAX_PATTERN_INPUT
    requires facts.merchantId == Some(target)
    ensures NodeValid(formats, GuardedPattern(source, target, pattern))
            && NoExclusion(GuardedPattern(source, target, pattern), source, target)
    ensures EvaluateNode(formats, GuardedPattern(source, target, pattern), facts) == Ok(true)
    ensures EvaluateNode(formats, RewriteNode(GuardedPattern(source, target, pattern), source, target),
                         Moved(facts, target))
            == Err(PatternInputTooLong)
  {
    var moved := Moved(facts, target);
    MerchantIsMeans(formats, Eq, source, facts);
    MerchantIsMeans(formats, Eq, target, facts);
    MerchantIsMeans(formats, Eq, target, moved);
    TooLongToMatch(formats, pattern, moved);
    PairOfConditions(formats, true, MerchantIs(Eq, source), Matching(pattern), facts);
    PairOfConditions(formats, false, Guard(source, pattern), MerchantIs(Eq, target), facts);
    RewrittenGuard(source, target, pattern);
    PairOfConditions(formats, true, MerchantIs(Eq, target), Matching(pattern), moved);
    PairOfConditions(formats, false, Guard(target, pattern), MerchantIs(Eq, target), moved);
    ValidPair(formats, true, MerchantIs(Eq, source), Matching(pattern), source, target);
    ValidPair(formats, false, Guard(source, pattern), MerchantIs(Eq, target), source, target);
  }

  lemma TooLongToMatch(formats: Formats, pattern: Text, facts: Facts)
    requires PatternValid(formats, Word(pattern)) && |facts.description| > MAX_PATTERN_INPUT
    ensures NodeValid(formats, Matching(pattern))
    ensures EvaluateNode(formats, Matching(pattern), facts) == Err(PatternInputTooLong)
  {
  }

  lemma ValidPair(formats: Formats, every: bool, a: Node, b: Node, source: Text, target: Text)
    ensures NodeValid(formats, Group(every, [a, b])) <==> NodeValid(formats, a) && NodeValid(formats, b)
    ensures NoExclusion(Group(every, [a, b]), source, target)
            <==> NoExclusion(a, source, target) && NoExclusion(b, source, target)
  {
    assert [a, b][0] == a && [a, b][1] == b;
  }
}
