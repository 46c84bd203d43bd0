/**
 The rewriting as the code does it, on untyped JSON documents, agrees with the rewriting of rules:
 encoding a valid rule and replacing references in the document is encoding the rewritten rule.
 */
module RuleDocument {
  import opened Outcomes
  import opened JsonText
  import opened RuleLanguage
  import opened MerchantRewrite

  /**
   Strings of the language's own vocabulary, and decimals, are words; the others are texts, among them all
   identifiers.
   */
  datatype Doc =
    | DocNull | DocWord(w: string) | DocText(s: Text) | DocNumber(n: int)
    | DocArray(items: seq<Doc>) | DocObject(members: seq<Entry>)

  datatype Entry = Entry(key: string, value: Doc)

  // ---- the code ----

  function Get(members: seq<Entry>, key: string): Option<Doc> {
    if members == [] then None else if members[0].key == key then Some(members[0].value) else Get(members[1..], key)
  }

  function Put(members: seq<Entry>, key: string, value: Doc): seq<Entry> {
    if members == [] then [Entry(key, value)]
    else if members[0].key == key then [Entry(key, value)] + members[1..]
    else [members[0]] + Put(members[1..], key, value)
  }

  function ReplaceText(doc: Doc, source: Text, target: Text): Doc {
    if doc == DocText(source) then DocText(target) else doc
  }

  function ReplaceTexts(items: seq<Doc>, source: Text, target: Text): seq<Doc> {
    if items == [] then [] else [ReplaceText(items[0], source, target)] + ReplaceTexts(items[1..], source, target)
  }

  /** replaceMerchantPredicateValue */
  function ReplaceValue(doc: Doc, source: Text, target: Text): Doc {
    match doc
    case DocText(_) => ReplaceText(doc, source, target)
    case DocArray(items) => DocArray(ReplaceTexts(items, source, target))
    case _ => doc
  }

  predicate IsMerchantPredicate(members: seq<Entry>) {
    Get(members, "type") == Some(DocWord("PREDICATE")) && Get(members, "field") == Some(DocWord("merchant.id"))
  }

  /** replaceMerchantReferences: every merchantId member, and the value of every predicate on the merchant. */
  function Replace(doc: Doc, source: Text, target: Text): Doc {
    match doc
    case DocArray(items) => DocArray(ReplaceItems(items, source, target))
    case DocObject(members) =>
      var replaced := ReplaceMembers(members, source, target);
      var value := Get(members, "value");
      if IsMerchantPredicate(members) && value.Some?
      then DocObject(Put(replaced, "value", ReplaceValue(value.value, source, target))) else DocObject(replaced)
    case _ => doc
  }

  function ReplaceItems(items: seq<Doc>, source: Text, target: Text): seq<Doc> {
    if items == [] then [] else [Replace(items[0], source, target)] + ReplaceItems(items[1..], source, target)
  }

  function ReplaceMembers(members: seq<Entry>, source: Text, target: Text): seq<Entry> {
    if members == [] then []
    else
      var value := members[0].value;
      [Entry(members[0].key,
             if members[0].key == "merchantId" && value == DocText(source) then DocText(target)
             else Replace(value, source, target))]
      + ReplaceMembers(members[1..], source, target)
  }

  // ---- documents of rules ----

  function ScalarDoc(v: Scalar): Doc {
    match v
    case Word(s) => DocText(s)
    case Amount(d) => DocWord(d)
    case Count(n) => DocNumber(n)
    case Other => DocNull
  }

  function ScalarDocs(vs: seq<Scalar>): seq<Doc> {
    if vs == [] then [] else [ScalarDoc(vs[0])] + ScalarDocs(vs[1..])
  }

  function OperandDoc(operand: Operand): Doc {
    match operand
    case One(v) => ScalarDoc(v)
    case Many(vs) => DocArray(ScalarDocs(vs))
  }

  function PredicateEntries(field: string, operator: string, value: Doc): seq<Entry> {
    [Entry("type", DocWord("PREDICATE"))]
      + ([Entry("field", DocWord(field))] + ([Entry("operator", DocWord(operator))] + [Entry("value", value)]))
  }

  function NodeDoc(node: Node): Doc
    decreases node, 1
  {
    match node
    case Predicate(field, operator, operand) =>
      DocObject(PredicateEntries(FieldName(field), OperatorName(operator), OperandDoc(operand)))
    case Group(every, conditions) =>
      DocObject([Entry("type", DocWord("GROUP")), Entry("combinator", DocWord(if every then "ALL" else "ANY")),
                 Entry("conditions", DocArray(NodeDocs(conditions)))])
  }

  function NodeDocs(nodes: seq<Node>): seq<Doc>
    decreases nodes, 0
  {
    if nodes == [] then [] else [NodeDoc(nodes[0])] + NodeDocs(nodes[1..])
  }

  function ActionDoc(action: Action): Doc {
    match action
    case SetCategory(id) => Typed("SET_CATEGORY", "categoryId", id)
    case SetMerchant(id) => Typed("SET_MERCHANT", "merchantId", id)
    case SetRole(role) => Typed("SET_FINANCIAL_ROLE", "financialRole", role)
    case SetSpend(included) =>
      DocObject([Entry("type", DocWord("SET_SPEND_INCLUSION")),
                 Entry("inclusion", DocWord(if included then "INCLUDE" else "EXCLUDE"))])
    case AddTag(id) => Typed("ADD_TAG", "tagId", id)
    case RemoveTag(id) => Typed("REMOVE_TAG", "tagId", id)
    case MarkRecurring => DocObject([Entry("type", DocWord("MARK_RECURRING_CANDIDATE"))])
    case Stop => DocObject([Entry("type", DocWord("STOP_PROCESSING"))])
  }

  function Typed(kind: string, key: string, value: Text): Doc {
    DocObject([Entry("type", DocWord(kind)), Entry(key, DocText(value))])
  }

  function ActionDocs(operations: seq<Action>): seq<Doc> {
    if operations == [] then [] else [ActionDoc(operations[0])] + ActionDocs(operations[1..])
  }

  // ---- agreement ----

  lemma {:induction false} ScalarsReplaced(vs: seq<Scalar>, source: Text, target: Text)
    requires forall i :: 0 <= i < |vs| ==> vs[i].Word?
    ensures ReplaceTexts(ScalarDocs(vs), source, target) == ScalarDocs(ReplaceScalars(vs, source, target))
  {
    if vs != [] {
      ScalarsReplaced(vs[1..], source, target);
      assert ScalarDocs(vs)[1..] == ScalarDocs(vs[1..]);
      assert ReplaceScalars(vs, source, target)[1..] == ReplaceScalars(vs[1..], source, target);
    }
  }

  lemma OperandReplaced(formats: Formats, operator: Operator, operand: Operand, source: Text, target: Text)
    requires Supports(UuidKind, operator) && OperandValid(formats, MerchantId, operator, operand)
    ensures ReplaceValue(OperandDoc(operand), source, target) == OperandDoc(ReplaceOperand(operand, source, target))
  {
    if operand.Many? {
      ScalarsReplaced(operand.vs, source, target);
    }
  }

  lemma {:induction false} ScalarsUntouched(vs: seq<Scalar>, source: Text, target: Text)
    ensures ReplaceItems(ScalarDocs(vs), source, target) == ScalarDocs(vs)
  {
    if vs != [] {
      ScalarsUntouched(vs[1..], source, target);
    }
  }

  lemma OperandUntouched(operand: Operand, source: Text, target: Text)
    ensures Replace(OperandDoc(operand), source, target) == OperandDoc(operand)
  {
    if operand.Many? {
      ScalarsUntouched(operand.vs, source, target);
    }
  }

  lemma MembersOne(e: Entry, source: Text, target: Text)
    requires e.key != "merchantId"
    ensures ReplaceMembers([e], source, target) == [Entry(e.key, Replace(e.value, source, target))]
  {
    assert [e][1..] == [];
  }

  lemma MembersNext(e: Entry, rest: seq<Entry>, source: Text, target: Text)
    requires e.key != "merchantId"
    ensures ReplaceMembers([e] + rest, source, target)
            == [Entry(e.key, Replace(e.value, source, target))] + ReplaceMembers(rest, source, target)
  {
    assert ([e] + rest)[1..] == rest;
  }

  lemma GetPastOther(e: Entry, rest: seq<Entry>, key: string)
    ensures Get([e] + rest, key) == if e.key == key then Some(e.value) else Get(rest, key)
  {
    assert ([e] + rest)[1..] == rest;
  }

  lemma PutPastOther(e: Entry, rest: seq<Entry>, key: string, value: Doc)
    requires e.key != key
    ensures Put([e] + rest, key, value) == [e] + Put(rest, key, value)
  {
    assert ([e] + rest)[1..] == rest;
  }

  lemma PredicateMembers(field: string, operator: string, value: Doc, other: Doc, source: Text, target: Text)
    requires Replace(value, source, target) == value
    ensures ReplaceMembers(PredicateEntries(field, operator, value), source, target)
            == PredicateEntries(field, operator, value)
    ensures Get(PredicateEntries(field, operator, value), "type") == Some(DocWord("PREDICATE"))
    ensures Get(PredicateEntries(field, operator, value), "field") == Some(DocWord(field))
    ensures Get(PredicateEntries(field, operator, value), "value") == Some(value)
    ensures Put(PredicateEntries(field, operator, value), "value", other) == PredicateEntries(field, operator, other)
  {
    var t, f, o, v := Entry("type", DocWord("PREDICATE")), Entry("field", DocWord(field)),
                      Entry("operator", DocWord(operator)), Entry("value", value);
    MembersNext(t, [f] + ([o] + [v]), source, target);
    MembersNext(f, [o] + [v], source, target);
    MembersNext(o, [v], source, target);
    MembersOne(v, source, target);
    GetPastOther(t, [f] + ([o] + [v]), "type");
    GetPastOther(t, [f] + ([o] + [v]), "field");
    GetPastOther(f, [o] + [v], "field");
    GetPastOther(t, [f] + ([o] + [v]), "value");
    GetPastOther(f, [o] + [v], "value");
    GetPastOther(o, [v], "value");
    PutPastOther(t, [f] + ([o] + [v]), "value", other);
    PutPastOther(f, [o] + [v], "value", other);
    PutPastOther(o, [v], "value", other);
    assert Put([v], "value", other) == [Entry("value", other)] + [v][1..];
  }

  lemma GroupMembers(every: bool, conditions: Doc, source: Text, target: Text)
    ensures var members :=
      [Entry("type", DocWord("GROUP")), Entry("combinator", DocWord(if every then "ALL" else "ANY")),
                            Entry("conditions", conditions)];
            && Get(members, "type") == Some(DocWord("GROUP"))
            && ReplaceMembers(members, source, target)
               == members[2 := Entry("conditions", Replace(conditions, source, target))]
  {
    var t, c, n := Entry("type", DocWord("GROUP")), Entry("combinator", DocWord(if every then "ALL" else "ANY")),
                   Entry("conditions", conditions);
    assert [t, c, n] == [t] + [c, n] && [c, n] == [c] + [n];
    MembersNext(t, [c, n], source, target);
    MembersNext(c, [n], source, target);
    MembersOne(n, source, target);
  }

  lemma PredicateDocument(field: string, operator: string, value: Doc, source: Text, target: Text)
    requires Replace(value, source, target) == value
    ensures Replace(DocObject(PredicateEntries(field, operator, value)), source, target)
            == DocObject(PredicateEntries(field, operator, if field == "merchant.id"
                                          then ReplaceValue(value, source, target) else value))
  {
    PredicateMembers(field, operator, value, ReplaceValue(value, source, target), source, target);
  }

  lemma PredicateDocumentAgrees(formats: Formats, field: Field, operator: Operator, operand: Operand, source: Text,
                                target: Text)
    requires Supports(KindOf(field), operator) && OperandValid(formats, field, operator, operand)
    ensures Replace(NodeDoc(Predicate(field, operator, operand)), source, target)
            == NodeDoc(RewriteNode(Predicate(field, operator, operand), source, target))
  {
    OperandUntouched(operand, source, target);
    PredicateDocument(FieldName(field), OperatorName(operator), OperandDoc(operand), source, target);
    if field == MerchantId {
      OperandReplaced(formats, operator, operand, source, target);
    }
  }

  /** Replacing references in the document of a valid tree gives the document of the rewritten tree. */
  lemma {:induction false} NodeDocumentsAgree(formats: Formats, node: Node, source: Text, target: Text)
    requires NodeValid(formats, node)
    ensures Replace(NodeDoc(node), source, target) == NodeDoc(RewriteNode(node, source, target))
    decreases node, 1
  {
    match node
    case Predicate(field, operator, operand) =>
      PredicateDocumentAgrees(formats, field, operator, operand, source, target);
    case Group(every, conditions) =>
      GroupMembers(every, DocArray(NodeDocs(conditions)), source, target);
      NodesDocumentsAgree(formats, conditions, source, target);
  }

  lemma {:induction false} NodesDocumentsAgree(formats: Formats, nodes: seq<Node>, source: Text, target: Text)
    requires forall i :: 0 <= i < |nodes| ==> NodeValid(formats, nodes[i])
    ensures ReplaceItems(NodeDocs(nodes), source, target) == NodeDocs(RewriteNodes(nodes, source, target))
    decreases nodes, 0
  {
    if nodes != [] {
      NodeDocumentsAgree(formats, nodes[0], source, target);
      NodesDocumentsAgree(formats, nodes[1..], source, target);
      assert RewriteNodes(nodes, source, target)[1..] == RewriteNodes(nodes[1..], source, target);
    }
  }

  lemma TypedAgrees(kind: string, key: string, value: Text, source: Text, target: Text)
    requires |kind| != |"PREDICATE"| && key != "value" && key != "field" && key != "type"
    ensures Replace(Typed(kind, key, value), source, target)
            == Typed(kind, key, if key == "merchantId" && value == source then target else value)
  {
    var t, v := Entry("type", DocWord(kind)), Entry(key, DocText(value));
    assert [t, v] == [t] + [v] && [v][1..] == [];
    MembersNext(t, [v], source, target);
  }

  lemma InclusionAgrees(included: bool, source: Text, target: Text)
    ensures Replace(ActionDoc(SetSpend(included)), source, target) == ActionDoc(SetSpend(included))
  {
    var t, v := Entry("type", DocWord("SET_SPEND_INCLUSION")),
                Entry("inclusion", DocWord(if included then "INCLUDE" else "EXCLUDE"));
    assert [t, v] == [t] + [v] && [v][1..] == [];
    MembersNext(t, [v], source, target);
    MembersOne(v, source, target);
  }

  lemma PlainAgrees(kind: string, source: Text, target: Text)
    ensures Replace(DocObject([Entry("type", DocWord(kind))]), source, target)
            == DocObject([Entry("type", DocWord(kind))])
  {
    var t := Entry("type", DocWord(kind));
    MembersOne(t, source, target);
    assert [t][1..] == [] && Get([t], "field").None?;
  }

  lemma ActionAgrees(action: Action, source: Text, target: Text)
    ensures Replace(ActionDoc(action), source, target) == ActionDoc(RewriteAction(action, source, target))
  {
    match action
    case SetCategory(id) => TypedAgrees("SET_CATEGORY", "categoryId", id, source, target);
    case SetMerchant(id) => TypedAgrees("SET_MERCHANT", "merchantId", id, source, target);
    case SetRole(role) => TypedAgrees("SET_FINANCIAL_ROLE", "financialRole", role, source, target);
    case SetSpend(included) =>
      InclusionAgrees(included, source, target);
    case AddTag(id) => TypedAgrees("ADD_TAG", "tagId", id, source, target);
    case RemoveTag(id) => TypedAgrees("REMOVE_TAG", "tagId", id, source, target);
    case MarkRecurring => PlainAgrees("MARK_RECURRING_CANDIDATE", source, target);
    case Stop => PlainAgrees("STOP_PROCESSING", source, target);
  }

  /** The same for action lists. */
  lemma {:induction false} ActionDocumentsAgree(operations: seq<Action>, source: Text, target: Text)
    ensures ReplaceItems(ActionDocs(operations), source, target)
            == ActionDocs(RewriteActions(operations, source, target))
  {
    if operations != [] {
      ActionAgrees(operations[0], source, target);
      ActionDocumentsAgree(operations[1..], source, target);
      assert RewriteActions(operations, source, target)[1..] == RewriteActions(operations[1..], source, target);
    }
  }
}
