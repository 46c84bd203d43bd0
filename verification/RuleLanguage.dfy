/**
 The classification rule language: condition trees over fixed transaction fields, action lists,
 and the bounds a stored rule must satisfy.  Patterns, identifiers, enumerations and dates are
 checked by given predicates; lengths, counts, decimals and document sizes are computed.
 */
module RuleLanguage {
  import E = ExactNumber
  import opened JsonText

  datatype Field =
    | Description | SystemDirection | SystemRole | ProviderType | ProviderAmount | ProviderCurrency
    | AccountAmount | AccountCurrency | AccountId | AccountType | LocalDate | InstallmentTotal
    | MerchantId | MerchantKey | ProviderCategory

  datatype Kind = DateKind | DecimalKind | EnumKind | IntegerKind | StringKind | UuidKind

  datatype Operator = Eq | Neq | Contains | StartsWith | In | Between | Gt | Gte | Lt | Lte | RegexSafe

  /** A string of digits with an optional minus sign and fraction, as numeric columns print. */
  predicate PlainDecimal(s: string) {
    E.Parse(s).Ok? && s == E.Spell(E.Parse(s).value) && E.Parse(s).value.exponent == 0
  }

  lemma ZeroIsPlain()
    ensures PlainDecimal("0")
  {
    E.ParseSpell(E.Token(false, "0", "", 0));
  }

  type Decimal = s: string | PlainDecimal(s) ghost witness (ZeroIsPlain(); "0")

  /** One JSON value of a predicate; `Other` is any value that is not of these shapes. */
  datatype Scalar = Word(s: Text) | Amount(d: Decimal) | Count(n: int) | Other

  datatype Operand = One(v: Scalar) | Many(vs: seq<Scalar>)

  datatype Node =
    | Predicate(field: Field, operator: Operator, operand: Operand)
    | Group(every: bool, conditions: seq<Node>)

  datatype Action =
    | SetCategory(categoryId: Text)
    | SetMerchant(merchantId: Text)
    | SetRole(role: Text)
    | SetSpend(included: bool)
    | AddTag(tagId: Text)
    | RemoveTag(tagId: Text)
    | MarkRecurring
    | Stop

  const MAX_DEPTH: int := 4
  const MAX_NODES: int := 50
  const MAX_GROUP: int := 20
  const MAX_ACTIONS: int := 20
  const MAX_IN_VALUES: int := 50
  const MAX_BYTES: int := 20_000
  const MAX_PATTERN: int := 256
  const MAX_PATTERN_INPUT: int := 1_000

  /** Checks this model does not open: UUID digits, enumeration members and dates, RE2. */
  datatype Formats = Formats(
    uuid: Text -> bool,
    listed: (Field, Text) -> bool,
    role: Text -> bool,
    compiles: Text -> bool,
    matches: (Text, Text) -> bool)

  // ---- one value ----

  function KindOf(field: Field): Kind {
    match field
    case Description | MerchantKey | ProviderCategory => StringKind
    case ProviderAmount | AccountAmount => DecimalKind
    case AccountId | MerchantId => UuidKind
    case LocalDate => DateKind
    case InstallmentTotal => IntegerKind
    case _ => EnumKind
  }

  predicate Supports(kind: Kind, operator: Operator) {
    match kind
    case DateKind | DecimalKind | IntegerKind => operator in {Eq, Neq, In, Between, Gt, Gte, Lt, Lte}
    case EnumKind | UuidKind => operator in {Eq, Neq, In}
    case StringKind => operator in {Eq, Neq, Contains, StartsWith, In, RegexSafe}
  }

  predicate Printable(s: Text) {
    forall i :: 0 <= i < |s| ==> s[i] > 31 && s[i] != 127
  }

  predicate IsUuid(formats: Formats, s: Text) {
    && |s| == 36
    && (forall i :: 0 <= i < 36 ==> s[i] == 45 || 48 <= s[i] <= 57 || 65 <= s[i] <= 70 || 97 <= s[i] <= 102)
    && formats.uuid(s)
  }

  /** At most 14 integer digits without a superfluous zero and at most 6 fraction digits. */
  predicate BoundedDecimal(d: Decimal) {
    var token := E.Parse(d).value;
    && (token.integer == "0" || (token.integer[0] != '0' && |token.integer| <= 14))
    && |token.fraction| <= 6
  }

  predicate ScalarValid(formats: Formats, field: Field, v: Scalar) {
    match KindOf(field)
    case StringKind => v.Word? && 1 <= |v.s| <= (if field == Description then 1_000 else 200) && Printable(v.s)
    case UuidKind => v.Word? && IsUuid(formats, v.s)
    case EnumKind | DateKind => v.Word? && formats.listed(field, v.s)
    case DecimalKind => v.Amount? && BoundedDecimal(v.d)
    case IntegerKind => v.Count? && 1 <= v.n <= 999
  }

  predicate PatternValid(formats: Formats, v: Scalar) {
    v.Word? && 1 <= |v.s| <= MAX_PATTERN && Printable(v.s) && formats.compiles(v.s)
  }

  predicate OperandValid(formats: Formats, field: Field, operator: Operator, operand: Operand) {
    match operator
    case In =>
      && operand.Many? && 1 <= |operand.vs| <= MAX_IN_VALUES
      && forall i :: 0 <= i < |operand.vs| ==> ScalarValid(formats, field, operand.vs[i])
    case Between =>
      && operand.Many? && |operand.vs| == 2
      && ScalarValid(formats, field, operand.vs[0]) && ScalarValid(formats, field, operand.vs[1])
    case RegexSafe => operand.One? && PatternValid(formats, operand.v)
    case _ => operand.One? && ScalarValid(formats, field, operand.v)
  }

  // ---- condition trees ----

  predicate NodeValid(formats: Formats, node: Node) {
    match node
    case Predicate(field, operator, operand) =>
      Supports(KindOf(field), operator) && OperandValid(formats, field, operator, operand)
    case Group(_, conditions) =>
      1 <= |conditions| <= MAX_GROUP && forall i :: 0 <= i < |conditions| ==> NodeValid(formats, conditions[i])
  }

  function Max(a: int, b: int): int {
    if a > b then a else b
  }

  datatype Summary = Summary(depth: nat, nodes: nat)

  /** inspectConditionTree: a fold that carries the depth of the current node downwards. */
  function Inspect(node: Node, depth: nat): Summary {
    match node
    case Predicate(_, _, _) => Summary(depth, 1)
    case Group(_, conditions) => InspectAll(conditions, depth + 1, Summary(depth, 1))
  }

  function InspectAll(conditions: seq<Node>, depth: nat, summary: Summary): Summary {
    if conditions == [] then summary
    else
      var child := Inspect(conditions[0], depth);
      InspectAll(conditions[1..], depth,
                 Summary(Max(child.depth, summary.depth), summary.nodes + child.nodes))
  }

  /** Levels below a node and nodes in it, without the accumulators. */
  function Height(node: Node): (h: nat)
    decreases node, 1
  {
    if node.Predicate? then 0 else HeightAll(node.conditions)
  }

  /** One more than the highest of the nodes; 0 when there is none. */
  function HeightAll(nodes: seq<Node>): (h: nat)
    decreases nodes, 0
  {
    if nodes == [] then 0 else Max(Height(nodes[0]) + 1, HeightAll(nodes[1..]))
  }

  function Size(node: Node): nat
    decreases node, 1
  {
    if node.Predicate? then 1 else 1 + SizeAll(node.conditions)
  }

  function SizeAll(nodes: seq<Node>): nat
    decreases nodes, 0
  {
    if nodes == [] then 0 else Size(nodes[0]) + SizeAll(nodes[1..])
  }

  /** The fold measures height and size. */
  lemma {:induction false} InspectMeasures(node: Node, depth: nat)
    ensures Inspect(node, depth) == Summary(depth + Height(node), Size(node))
    decreases node, 1
  {
    if node.Group? {
      InspectAllMeasures(node.conditions, depth + 1, Summary(depth, 1));
    }
  }

  lemma {:induction false} InspectAllMeasures(nodes: seq<Node>, depth: nat, summary: Summary)
    requires summary.depth + 1 >= depth
    ensures InspectAll(nodes, depth, summary) ==
            Summary(Max(depth + HeightAll(nodes) - 1, summary.depth), summary.nodes + SizeAll(nodes))
    decreases nodes, 0
  {
    if nodes != [] {
      InspectMeasures(nodes[0], depth);
      var child := Inspect(nodes[0], depth);
      InspectAllMeasures(nodes[1..], depth,
                         Summary(Max(child.depth, summary.depth), summary.nodes + child.nodes));
    }
  }

  // ---- document sizes, in UTF-8 bytes of the JSON text ----

  function UnitBytes(u: Unit): nat {
    if u < 0x80 then 1 else if u < 0x800 || HighSurrogate(u) || LowSurrogate(u) then 2 else 3
  }

  function Utf8Bytes(s: Text): nat {
    if s == [] then 0 else UnitBytes(s[0]) + Utf8Bytes(s[1..])
  }

  function IntegerBytes(n: int): nat
    decreases if n < 0 then 1 - n else n
  {
    if n < 0 then 1 + IntegerBytes(0 - n) else if n < 10 then 1 else 1 + IntegerBytes(n / 10)
  }

  function ScalarBytes(v: Scalar): nat {
    match v
    case Word(s) => Utf8Bytes(Quote(s))
    case Amount(d) => |d| + 2
    case Count(n) => IntegerBytes(n)
    case Other => 0
  }

  /** Values joined by commas, in brackets. */
  function ScalarsBytes(vs: seq<Scalar>): nat {
    if vs == [] then 1 else ScalarBytes(vs[0]) + 1 + ScalarsBytes(vs[1..])
  }

  function OperandBytes(operand: Operand): nat {
    match operand
    case One(v) => ScalarBytes(v)
    case Many(vs) => if vs == [] then 2 else ScalarsBytes(vs)
  }

  function FieldName(field: Field): string {
    match field
    case Description => "transaction.descriptionNormalized"
    case SystemDirection => "transaction.systemDirection"
    case SystemRole => "transaction.systemFinancialRole"
    case ProviderType => "transaction.providerType"
    case ProviderAmount => "transaction.providerAmountSigned"
    case ProviderCurrency => "transaction.providerCurrency"
    case AccountAmount => "transaction.accountCurrencyAmountSigned"
    case AccountCurrency => "transaction.accountCurrency"
    case AccountId => "transaction.accountId"
    case AccountType => "transaction.accountType"
    case LocalDate => "transaction.transactionLocalDate"
    case InstallmentTotal => "transaction.installmentTotal"
    case MerchantId => "merchant.id"
    case MerchantKey => "merchant.normalizedKey"
    case ProviderCategory => "provider.categoryId"
  }

  function OperatorName(operator: Operator): string {
    match operator
    case Eq => "eq"
    case Neq => "neq"
    case Contains => "contains"
    case StartsWith => "starts_with"
    case In => "in"
    case Between => "between"
    case Gt => "gt"
    case Gte => "gte"
    case Lt => "lt"
    case Lte => "lte"
    case RegexSafe => "regex_safe"
  }

  function NodeBytes(node: Node): nat
    decreases node, 1
  {
    match node
    case Predicate(field, operator, operand) => 54 + |FieldName(field)| + |OperatorName(operator)|
                                                + OperandBytes(operand)
    case Group(_, conditions) => 50 + NodesBytes(conditions)
  }

  function NodesBytes(nodes: seq<Node>): nat
    decreases nodes, 0
  {
    if nodes == [] then 0 else NodeBytes(nodes[0]) + 1 + NodesBytes(nodes[1..])
  }

  /** classificationRuleConditionsSchema. */
  predicate ConditionsValid(formats: Formats, root: Node) {
    && NodeValid(formats, root)
    && Inspect(root, 1).depth <= MAX_DEPTH
    && Inspect(root, 1).nodes <= MAX_NODES
    && 23 + NodeBytes(root) <= MAX_BYTES
  }

  /** The bounds say: at most three levels below the root and fifty nodes in all. */
  lemma BoundsAreHeightAndSize(formats: Formats, root: Node)
    ensures ConditionsValid(formats, root) <==>
            NodeValid(formats, root) && Height(root) <= 3 && Size(root) <= 50 && 23 + NodeBytes(root) <= MAX_BYTES
  {
    InspectMeasures(root, 1);
  }

  // ---- actions ----

  /** What an action decides; STOP_PROCESSING counts as a kind of its own. */
  datatype Slot = CategorySlot | MerchantSlot | RoleSlot | SpendSlot | RecurringSlot | StopSlot | TagSlot(tagId: Text)

  function SlotOf(action: Action): Slot {
    match action
    case SetCategory(_) => CategorySlot
    case SetMerchant(_) => MerchantSlot
    case SetRole(_) => RoleSlot
    case SetSpend(_) => SpendSlot
    case AddTag(tagId) => TagSlot(tagId)
    case RemoveTag(tagId) => TagSlot(tagId)
    case MarkRecurring => RecurringSlot
    case Stop => StopSlot
  }

  predicate ActionValid(formats: Formats, action: Action) {
    match action
    case SetCategory(id) => IsUuid(formats, id)
    case SetMerchant(id) => IsUuid(formats, id)
    case SetRole(role) => formats.role(role)
    case AddTag(id) => IsUuid(formats, id)
    case RemoveTag(id) => IsUuid(formats, id)
    case _ => true
  }

  function ActionBytes(action: Action): nat {
    match action
    case SetCategory(id) => 37 + Utf8Bytes(Quote(id))
    case SetMerchant(id) => 37 + Utf8Bytes(Quote(id))
    case SetRole(role) => 46 + Utf8Bytes(Quote(role))
    case SetSpend(_) => 52
    case AddTag(id) => 27 + Utf8Bytes(Quote(id))
    case RemoveTag(id) => 30 + Utf8Bytes(Quote(id))
    case MarkRecurring => 35
    case Stop => 26
  }

  function ActionsBytes(operations: seq<Action>): nat {
    if operations == [] then 0 else ActionBytes(operations[0]) + 1 + ActionsBytes(operations[1..])
  }

  /** No two operations of a rule decide the same thing. */
  predicate DistinctSlots(operations: seq<Action>) {
    forall i, j :: 0 <= i < j < |operations| ==> SlotOf(operations[i]) != SlotOf(operations[j])
  }

  /** classificationRuleActionsSchema. */
  predicate ActionsValid(formats: Formats, operations: seq<Action>) {
    && 1 <= |operations| <= MAX_ACTIONS
    && (forall i :: 0 <= i < |operations| ==> ActionValid(formats, operations[i]))
    && DistinctSlots(operations)
    && 30 + ActionsBytes(operations) <= MAX_BYTES
  }

  /** The schema's uniqueness loop: one set for singleton types and one each for added and removed tags. */
  method CheckUniqueness(operations: seq<Action>) returns (ok: bool)
    ensures ok <==> DistinctSlots(operations)
  {
    ok := true;
    var singletonTypes: set<Slot> := {};
    var addedTags: set<Text> := {};
    var removedTags: set<Text> := {};
    for index := 0 to |operations|
      invariant ok <==> DistinctSlots(operations[..index])
      invariant forall slot :: slot in singletonTypes <==> !slot.TagSlot? && Decides(operations[..index], slot)
      invariant forall tag :: tag in addedTags || tag in removedTags <==> Decides(operations[..index], TagSlot(tag))
    {
      var action := operations[index];
      ghost var before := operations[..index];
      assert operations[..index + 1] == before + [action];
      if action.AddTag? {
        if action.tagId in addedTags || action.tagId in removedTags {
          ok := false;
        }
        addedTags := addedTags + {action.tagId};
      } else if action.RemoveTag? {
        if action.tagId in removedTags || action.tagId in addedTags {
          ok := false;
        }
        removedTags := removedTags + {action.tagId};
      } else {
        if SlotOf(action) in singletonTypes {
          ok := false;
        }
        singletonTypes := singletonTypes + {SlotOf(action)};
      }
      DistinctExtends(before, action);
      DecidesNext(before, action);
    }
    assert operations[..|operations|] == operations;
  }

  /** Some operation is about the slot. */
  predicate Decides(operations: seq<Action>, slot: Slot) {
    exists i :: 0 <= i < |operations| && SlotOf(operations[i]) == slot
  }

  lemma DecidesNext(before: seq<Action>, action: Action)
    ensures forall slot :: Decides(before + [action], slot) <==> Decides(before, slot) || SlotOf(action) == slot
  {
    var all := before + [action];
    forall slot
      ensures Decides(all, slot) <==> Decides(before, slot) || SlotOf(action) == slot
    {
      assert all[|before|] == action;
      assert forall i :: 0 <= i < |before| ==> all[i] == before[i];
    }
  }

  lemma DistinctExtends(before: seq<Action>, action: Action)
    ensures DistinctSlots(before + [action]) <==> DistinctSlots(before) && !Decides(before, SlotOf(action))
  {
    var all, n := before + [action], |before|;
    assert forall i :: 0 <= i < n ==> all[i] == before[i];
    if DistinctSlots(all) {
      assert forall i, j :: 0 <= i < j < n ==> SlotOf(all[i]) != SlotOf(all[j]);
      assert forall i :: 0 <= i < n ==> SlotOf(all[i]) != SlotOf(all[n]);
    }
    if DistinctSlots(before) && forall i :: 0 <= i < n ==> SlotOf(before[i]) != SlotOf(action) {
      forall i, j | 0 <= i < j < |all|
        ensures SlotOf(all[i]) != SlotOf(all[j])
      {
        assert j < n ==> SlotOf(before[i]) != SlotOf(before[j]);
      }
    }
  }
}
