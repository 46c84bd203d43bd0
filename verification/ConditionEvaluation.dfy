/** Evaluating condition trees: exact decimal comparison and short-circuit groups. */
module ConditionEvaluation {
  import opened Outcomes
  import opened Digits
  import opened JsonText
  import opened RuleLanguage

  datatype Facts = Facts(
    merchantId: Option<Text>,
    merchantKey: Option<Text>,
    providerCategory: Option<Text>,
    accountCurrency: Text,
    accountAmount: Option<Decimal>,
    accountId: Text,
    accountType: Text,
    description: Text,
    installmentTotal: Option<int>,
    providerAmount: Decimal,
    providerCurrency: Text,
    providerType: Option<Text>,
    direction: Text,
    role: Text,
    localDate: Text)

  function Worded(s: Option<Text>): Option<Scalar> {
    match s
    case None => None
    case Some(word) => Some(Word(word))
  }

  function ActualValue(facts: Facts, field: Field): Option<Scalar> {
    match field
    case Description => Some(Word(facts.description))
    case SystemDirection => Some(Word(facts.direction))
    case SystemRole => Some(Word(facts.role))
    case ProviderType => Worded(facts.providerType)
    case ProviderAmount => Some(Amount(facts.providerAmount))
    case ProviderCurrency => Some(Word(facts.providerCurrency))
    case AccountAmount => if facts.accountAmount.None? then None else Some(Amount(facts.accountAmount.value))
    case AccountCurrency => Some(Word(facts.accountCurrency))
    case AccountId => Some(Word(facts.accountId))
    case AccountType => Some(Word(facts.accountType))
    case LocalDate => Some(Word(facts.localDate))
    case InstallmentTotal => if facts.installmentTotal.None? then None else Some(Count(facts.installmentTotal.value))
    case MerchantId => Worded(facts.merchantId)
    case MerchantKey => Worded(facts.merchantKey)
    case ProviderCategory => Worded(facts.providerCategory)
  }

  // ---- decimals ----

  /** padEnd(6, '0') */
  function PadEnd(fraction: string): (padded: string)
    requires AllDigits(fraction)
    ensures AllDigits(padded)
  {
    fraction + Zeros(if |fraction| >= 6 then 0 else 6 - |fraction|)
  }

  /** Millionths, as decimalUnits counts them. */
  function DecimalUnits(d: Decimal): int {
    UnitsOf(E.Parse(d).value)
  }

  function UnitsOf(token: E.Token): int
    requires E.Well(token)
  {
    var units: int := Number(token.integer) * 1_000_000 + Number(PadEnd(token.fraction));
    if token.negative then 0 - units else units
  }

  lemma {:induction false} NumberOfJoin(a: string, b: string)
    requires AllDigits(a) && AllDigits(b)
    ensures AllDigits(a + b) && Number(a + b) == TimesTens(Number(a), |b|) + Number(b)
  {
    if b == "" {
      assert a + b == a;
    } else {
      NumberOfJoin(a, b[..|b| - 1]);
      assert (a + b)[..|a + b| - 1] == a + b[..|b| - 1];
    }
  }

  lemma {:induction false} ShiftSum(x: real, y: real, e: int)
    ensures Shift(x + y, e) == Shift(x, e) + Shift(y, e)
    decreases if e < 0 then -e else e
  {
    if e > 0 {
      ShiftSum(x, y, e - 1);
    } else if e < 0 {
      ShiftSum(x, y, e + 1);
    }
  }

  lemma {:induction false} ShiftDown(x: real, k: nat)
    requires x >= 0.0
    ensures Shift(x, 0 - k) <= x && (k > 0 && Shift(x, 0 - k) == x ==> x == 0.0)
  {
    if k > 0 {
      ShiftDown(x, k - 1);
    }
  }

  lemma MillionTimes(x: nat)
    ensures TimesTens(x, 6) == x * 1_000_000
  {
    assert TimesTens(x, 1) == 10 * x;
    assert TimesTens(x, 2) == 100 * x;
    assert TimesTens(x, 3) == 1_000 * x;
    assert TimesTens(x, 4) == 10_000 * x;
    assert TimesTens(x, 5) == 100_000 * x;
  }

  /** The unsigned count. */
  function Millionths(integer: string, fraction: string): nat
    requires AllDigits(integer) && AllDigits(fraction)
  {
    Number(integer) * 1_000_000 + Number(PadEnd(fraction))
  }

  lemma PaddedJoin(integer: string, fraction: string)
    requires AllDigits(integer) && AllDigits(fraction) && |fraction| <= 6
    ensures AllDigits(integer + fraction)
    ensures AllDigits(integer + PadEnd(fraction)) && |PadEnd(fraction)| == 6
    ensures Number(integer + PadEnd(fraction)) == TimesTens(Number(integer + fraction), 6 - |fraction|)
  {
    var n := 6 - |fraction|;
    PadRight(integer + fraction, n);
    assert PadEnd(fraction) == fraction + Zeros(n);
    assert integer + PadEnd(fraction) == (integer + fraction) + Zeros(n);
  }

  lemma MillionthsAreDigits(integer: string, padded: string)
    requires AllDigits(integer) && AllDigits(padded) && |padded| == 6
    ensures AllDigits(integer + padded) && Number(integer) * 1_000_000 + Number(padded) == Number(integer + padded)
  {
    NumberOfJoin(integer, padded);
    MillionTimes(Number(integer));
  }

  lemma ShortMillionths(integer: string, fraction: string)
    requires AllDigits(integer) && AllDigits(fraction) && |fraction| <= 6
    ensures AllDigits(integer + fraction)
    ensures Millionths(integer, fraction) == TimesTens(Number(integer + fraction), 6 - |fraction|)
  {
    PaddedJoin(integer, fraction);
    MillionthsAreDigits(integer, PadEnd(fraction));
  }

  lemma ShortFraction(integer: string, fraction: string)
    requires AllDigits(integer) && AllDigits(fraction) && |fraction| <= 6
    ensures AllDigits(integer + fraction)
    ensures Millionths(integer, fraction) as real == Shift(Number(integer + fraction) as real, 6 - |fraction|)
  {
    ShortMillionths(integer, fraction);
    var all, n: nat := Number(integer + fraction), 6 - |fraction|;
    ShiftNatural(all, n);
  }

  lemma LongFraction(integer: string, fraction: string)
    requires AllDigits(integer) && AllDigits(fraction) && |fraction| > 6
    ensures AllDigits(integer + fraction)
    ensures Millionths(integer, fraction) as real == Shift(Number(integer + fraction) as real, 6 - |fraction|)
            <==> Number(fraction) == 0
  {
    var n := |fraction|;
    var i, f := Number(integer), Number(fraction);
    assert PadEnd(fraction) == fraction;
    NumberOfJoin(integer, fraction);
    assert Number(integer + fraction) as real == TimesTens(i, n) as real + f as real;
    ShiftSum(TimesTens(i, n) as real, f as real, 6 - n);
    ShiftNatural(i, n);
    ShiftAdd(i as real, n, 6 - n);
    ShiftNatural(i, 6);
    MillionTimes(i);
    ShiftDown(f as real, n - 6);
    ShiftSign(f as real, 6 - n);
  }

  lemma FractionInMillionths(integer: string, fraction: string)
    requires AllDigits(integer) && AllDigits(fraction) && AllDigits(integer + fraction)
    ensures Millionths(integer, fraction) as real == Shift(Number(integer + fraction) as real, 6 - |fraction|)
            <==> |fraction| <= 6 || Number(fraction) == 0
  {
    if |fraction| <= 6 {
      ShortFraction(integer, fraction);
    } else {
      LongFraction(integer, fraction);
    }
  }

  lemma MagnitudeInMillionths(integer: string, fraction: string, places: nat)
    requires AllDigits(integer) && AllDigits(fraction) && AllDigits(integer + fraction) && places == 6
    ensures Millionths(integer, fraction) as real == Shift(E.Magnitude(integer + fraction, 0 - |fraction|), places)
            <==> |fraction| <= 6 || Number(fraction) == 0
  {
    MagnitudeShifts(integer + fraction, 0 - |fraction|, places);
    FractionInMillionths(integer, fraction);
  }

  lemma MagnitudeShifts(digits: string, exponent: int, places: nat)
    requires AllDigits(digits)
    ensures Shift(E.Magnitude(digits, exponent), places) == Shift(Number(digits) as real, exponent + places)
  {
    ShiftAdd(Number(digits) as real, exponent, places);
  }

  lemma UnitsOfToken(token: E.Token)
    requires E.Well(token) && token.exponent == 0
    ensures UnitsOf(token) as real == Shift(E.TokenValue(token), 6)
            <==> |token.fraction| <= 6 || Number(token.fraction) == 0
  {
    MagnitudeInMillionths(token.integer, token.fraction, 6);
    ShiftNegate(E.TokenMagnitude(token), 6);
  }

  /** The units are the exact value in millionths exactly when no digit lies beyond the sixth. */
  lemma UnitsAreExact(d: Decimal)
    ensures DecimalUnits(d) as real == Shift(E.Value(d), 6) <==>
            |E.Parse(d).value.fraction| <= 6 || Number(E.Parse(d).value.fraction) == 0
  {
    UnitsOfToken(E.Parse(d).value);
  }

  lemma {:induction false} ShiftNegate(x: real, e: nat)
    ensures Shift(-x, e) == -Shift(x, e)
  {
    if e > 0 {
      ShiftNegate(x, e - 1);
    }
  }

  /** Digits that numeric columns and the rule schema allow. */
  predicate SixDigits(d: Decimal) {
    |E.Parse(d).value.fraction| <= 6
  }

  lemma {:induction false} ShiftKeepsOrder(x: real, y: real, e: nat)
    ensures x < y <==> Shift(x, e) < Shift(y, e)
  {
    if e > 0 {
      ShiftKeepsOrder(x, y, e - 1);
    }
  }

  function Sign(difference: int): int {
    if difference < 0 then -1 else if difference > 0 then 1 else 0
  }

  /** compare; operands of different shapes never reach it from a valid rule. */
  function Compare(left: Scalar, right: Scalar): (order: int)
    ensures -1 <= order <= 1
  {
    match (left, right)
    case (Amount(l), Amount(r)) => Sign(DecimalUnits(l) - DecimalUnits(r))
    case (Count(l), Count(r)) => Sign(l - r)
    case (Word(l), Word(r)) => if Below(l, r) then -1 else if Below(r, l) then 1 else 0
    case _ => 1
  }

  /** Amounts of at most six fraction digits are compared by their exact values. */
  lemma AmountsCompareExactly(l: Decimal, r: Decimal)
    requires SixDigits(l) && SixDigits(r)
    ensures Compare(Amount(l), Amount(r)) < 0 <==> E.Value(l) < E.Value(r)
    ensures Compare(Amount(l), Amount(r)) > 0 <==> E.Value(l) > E.Value(r)
  {
    UnitsKeepOrder(l, r);
    UnitsKeepOrder(r, l);
    AmountsCompareUnits(l, r);
  }

  lemma AmountsCompareUnits(l: Decimal, r: Decimal)
    ensures Compare(Amount(l), Amount(r)) < 0 <==> DecimalUnits(l) < DecimalUnits(r)
    ensures Compare(Amount(l), Amount(r)) > 0 <==> DecimalUnits(r) < DecimalUnits(l)
  {
    assert Compare(Amount(l), Amount(r)) == Sign(DecimalUnits(l) - DecimalUnits(r));
  }

  lemma UnitsKeepOrder(l: Decimal, r: Decimal)
    requires SixDigits(l) && SixDigits(r)
    ensures DecimalUnits(l) < DecimalUnits(r) <==> E.Value(l) < E.Value(r)
  {
    TokensCompare(E.Parse(l).value, E.Parse(r).value);
  }

  lemma TokensCompare(l: E.Token, r: E.Token)
    requires E.Well(l) && l.exponent == 0 && |l.fraction| <= 6
    requires E.Well(r) && r.exponent == 0 && |r.fraction| <= 6
    ensures UnitsOf(l) < UnitsOf(r) <==> E.TokenValue(l) < E.TokenValue(r)
  {
    UnitsOfToken(l);
    UnitsOfToken(r);
    ShiftKeepsOrder(E.TokenValue(l), E.TokenValue(r), 6);
  }

  // ---- predicates ----

  datatype EvaluationError = PatternInputTooLong

  predicate StartsWithAt(s: Text, t: Text, i: nat) {
    i + |t| <= |s| && s[i..i + |t|] == t
  }

  predicate Includes(s: Text, t: Text) {
    exists i :: 0 <= i <= |s| && StartsWithAt(s, t, i)
  }

  predicate AnyEqual(actual: Scalar, candidates: seq<Scalar>) {
    exists i :: 0 <= i < |candidates| && Compare(actual, candidates[i]) == 0
  }

  function OrderHolds(operator: Operator, order: int): bool {
    match operator
    case Eq => order == 0
    case Neq => order != 0
    case Gt => order > 0
    case Gte => order >= 0
    case Lt => order < 0
    case Lte => order <= 0
    case _ => false
  }

  /** A predicate on a value that is present. */
  function EvaluateActual(formats: Formats, operator: Operator, operand: Operand,
                          actual: Scalar): Result<bool, EvaluationError> {
    match operand
    case Many(vs) =>
      if operator == In then Ok(AnyEqual(actual, vs))
      else Ok(operator == Between && |vs| == 2 && Compare(actual, vs[0]) >= 0 && Compare(actual, vs[1]) <= 0)
    case One(v) =>
      if operator in {Contains, StartsWith, RegexSafe} then
        if !(actual.Word? && v.Word?) then Ok(false)
        else if operator == Contains then Ok(Includes(actual.s, v.s))
        else if operator == StartsWith then Ok(StartsWithAt(actual.s, v.s, 0))
        else if |actual.s| > MAX_PATTERN_INPUT then Err(PatternInputTooLong)
        else Ok(formats.matches(v.s, actual.s))
      else Ok(OrderHolds(operator, Compare(actual, v)))
  }

  /** A predicate on a missing value is false, whatever the operator. */
  function EvaluatePredicate(formats: Formats, field: Field, operator: Operator, operand: Operand,
                             facts: Facts): Result<bool, EvaluationError> {
    match ActualValue(facts, field)
    case None => Ok(false)
    case Some(actual) => EvaluateActual(formats, operator, operand, actual)
  }

  // ---- trees ----

  function EvaluateNode(formats: Formats, node: Node, facts: Facts): Result<bool, EvaluationError>
    decreases node, 1
  {
    match node
    case Predicate(field, operator, operand) => EvaluatePredicate(formats, field, operator, operand, facts)
    case Group(every, conditions) => EvaluateGroup(formats, every, conditions, facts)
  }

  /** every stops at the first false child, some at the first true one; a failure before that escapes. */
  function EvaluateGroup(formats: Formats, every: bool, conditions: seq<Node>,
                         facts: Facts): Result<bool, EvaluationError>
    decreases conditions, 0
  {
    if conditions == [] then Ok(every)
    else
      match EvaluateNode(formats, conditions[0], facts)
      case Err(error) => Err(error)
      case Ok(holds) => if holds == every then EvaluateGroup(formats, every, conditions[1..], facts) else Ok(holds)
  }

  /** Child `k` is the first that decides the group. */
  predicate DecidedAt(formats: Formats, every: bool, conditions: seq<Node>, facts: Facts, k: nat) {
    && k < |conditions| && EvaluateNode(formats, conditions[k], facts) == Ok(!every)
    && forall i :: 0 <= i < k ==> EvaluateNode(formats, conditions[i], facts) == Ok(every)
  }

  lemma DecidedLater(formats: Formats, every: bool, conditions: seq<Node>, facts: Facts, k: nat)
    requires conditions != [] && EvaluateNode(formats, conditions[0], facts) == Ok(every)
    ensures DecidedAt(formats, every, conditions[1..], facts, k)
            <==> DecidedAt(formats, every, conditions, facts, k + 1)
  {
    var rest := conditions[1..];
    if DecidedAt(formats, every, rest, facts, k) {
      forall i | 0 <= i < k + 1
        ensures EvaluateNode(formats, conditions[i], facts) == Ok(every)
      {
        assert i > 0 ==> conditions[i] == rest[i - 1];
      }
    }
    if DecidedAt(formats, every, conditions, facts, k + 1) {
      forall i | 0 <= i < k
        ensures EvaluateNode(formats, rest[i], facts) == Ok(every)
      {
        assert rest[i] == conditions[i + 1];
      }
    }
  }

  lemma {:induction false} DeciderOf(formats: Formats, every: bool, conditions: seq<Node>, facts: Facts)
    returns (k: nat)
    requires EvaluateGroup(formats, every, conditions, facts) == Ok(!every)
    ensures DecidedAt(formats, every, conditions, facts, k)
  {
    GroupUnfolds(formats, every, conditions, facts);
    k := 0;
    if EvaluateNode(formats, conditions[0], facts) == Ok(every) {
      var i := DeciderOf(formats, every, conditions[1..], facts);
      DecidedLater(formats, every, conditions, facts, i);
      k := i + 1;
    }
  }

  /** A group that goes the other way is decided by its first child or by the rest. */
  lemma GroupUnfolds(formats: Formats, every: bool, conditions: seq<Node>, facts: Facts)
    requires EvaluateGroup(formats, every, conditions, facts) == Ok(!every)
    ensures conditions != []
    ensures EvaluateNode(formats, conditions[0], facts) == Ok(every) ==>
              EvaluateGroup(formats, every, conditions[1..], facts) == Ok(!every)
    ensures EvaluateNode(formats, conditions[0], facts) != Ok(every) ==>
              DecidedAt(formats, every, conditions, facts, 0)
  {
    assert conditions != [];
  }

  lemma DecidedFirst(formats: Formats, every: bool, conditions: seq<Node>, facts: Facts)
    requires DecidedAt(formats, every, conditions, facts, 0)
    ensures EvaluateGroup(formats, every, conditions, facts) == Ok(!every)
  {
    assert EvaluateNode(formats, conditions[0], facts) == Ok(!every);
  }

  lemma PassedFirst(formats: Formats, every: bool, conditions: seq<Node>, facts: Facts, k: nat)
    requires k > 0 && DecidedAt(formats, every, conditions, facts, k)
    ensures DecidedAt(formats, every, conditions[1..], facts, k - 1)
    ensures EvaluateGroup(formats, every, conditions, facts) == EvaluateGroup(formats, every, conditions[1..], facts)
  {
    assert EvaluateNode(formats, conditions[0], facts) == Ok(every);
    DecidedLater(formats, every, conditions, facts, k - 1);
  }

  lemma {:induction false} DeciderDecides(formats: Formats, every: bool, conditions: seq<Node>, facts: Facts, k: nat)
    requires DecidedAt(formats, every, conditions, facts, k)
    ensures EvaluateGroup(formats, every, conditions, facts) == Ok(!every)
    decreases k
  {
    if k == 0 {
      DecidedFirst(formats, every, conditions, facts);
    } else {
      PassedFirst(formats, every, conditions, facts, k);
      DeciderDecides(formats, every, conditions[1..], facts, k - 1);
    }
  }

  /** Three-valued reading: a group goes the other way exactly at the first child that decides it. */
  lemma GroupDecides(formats: Formats, every: bool, conditions: seq<Node>, facts: Facts)
    ensures EvaluateGroup(formats, every, conditions, facts) == Ok(!every) <==>
            exists k: nat :: DecidedAt(formats, every, conditions, facts, k)
  {
    if EvaluateGroup(formats, every, conditions, facts) == Ok(!every) {
      var k := DeciderOf(formats, every, conditions, facts);
    }
    if k: nat :| DecidedAt(formats, every, conditions, facts, k) {
      DeciderDecides(formats, every, conditions, facts, k);
    }
  }

  /** It keeps its own value exactly when no child decides it and none fails. */
  lemma {:induction false} GroupAgrees(formats: Formats, every: bool, conditions: seq<Node>, facts: Facts)
    ensures EvaluateGroup(formats, every, conditions, facts) == Ok(every) <==>
            forall i :: 0 <= i < |conditions| ==> EvaluateNode(formats, conditions[i], facts) == Ok(every)
  {
    if conditions != [] {
      GroupAgrees(formats, every, conditions[1..], facts);
      assert forall i :: 0 < i < |conditions| ==> conditions[i] == conditions[1..][i - 1];
      assert forall i :: 0 <= i < |conditions[1..]| ==> conditions[1..][i] == conditions[i + 1];
    }
  }

  /** Every text that a pattern of the tree meets fits the matcher. */
  predicate PatternsFit(node: Node, facts: Facts) {
    match node
    case Predicate(field, operator, _) => operator == RegexSafe ==> Fits(ActualValue(facts, field))
    case Group(_, conditions) => forall i :: 0 <= i < |conditions| ==> PatternsFit(conditions[i], facts)
  }

  predicate Fits(actual: Option<Scalar>) {
    actual.Some? && actual.value.Word? ==> |actual.value.s| <= MAX_PATTERN_INPUT
  }

  /** Nothing but a text too long for a pattern makes an evaluation fail. */
  lemma {:induction false} FittingPatternsEvaluate(formats: Formats, node: Node, facts: Facts)
    requires PatternsFit(node, facts)
    ensures EvaluateNode(formats, node, facts).Ok?
    decreases node, 1
  {
    if node.Group? {
      FittingGroupEvaluates(formats, node.every, node.conditions, facts);
    }
  }

  lemma {:induction false} FittingGroupEvaluates(formats: Formats, every: bool, nodes: seq<Node>, facts: Facts)
    requires forall i :: 0 <= i < |nodes| ==> PatternsFit(nodes[i], facts)
    ensures EvaluateGroup(formats, every, nodes, facts).Ok?
    decreases nodes, 0
  {
    if nodes != [] {
      FittingPatternsEvaluate(formats, nodes[0], facts);
      FittingGroupEvaluates(formats, every, nodes[1..], facts);
    }
  }
}
