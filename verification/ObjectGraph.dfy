/**
 Serialising live objects: a depth-first walk over a finite graph of arrays and objects that
 carries the set of ancestors and rejects a value that contains itself.
 */
module ObjectGraph {
  import opened Outcomes
  import opened ExactNumber
  import opened CanonicalNumber
  import opened JsonText
  import opened CanonicalJson

  datatype Value<D> =
    | NullValue
    | BoolValue(b: bool)
    | StringValue(s: Text)
    | NumberValue(d: D)
    | NonFinite
    | LosslessValue(token: string)
    | Unsupported
    | Reference(ref: nat)

  /** An array slot may be a hole; `extras` counts an array's own non-index properties. */
  datatype Node<D> =
    | ArrayNode(slots: seq<Option<Value<D>>>, extras: nat)
    | ObjectNode(plain: bool, properties: seq<Member<Value<D>>>)

  type Graph<D> = map<nat, Node<D>>

  datatype SerializeError =
    | BadNumber(error: NumberError) | NonFiniteNumber | UnsupportedType | CyclicValue | SparseArray | NotPlain

  function Holes<D>(slots: seq<Option<Value<D>>>): (n: nat)
    ensures n <= |slots|
  {
    if slots == [] then 0 else (if slots[0].None? then 1 else 0) + Holes(slots[1..])
  }

  /** Object.keys(value).length !== value.length. */
  predicate CountsMatch<D>(node: Node<D>)
    requires node.ArrayNode?
  {
    |node.slots| - Holes(node.slots) + node.extras == |node.slots|
  }

  /** References stay inside the graph and an object has each key once. */
  ghost predicate WellFormed<D>(g: Graph<D>) {
    forall r :: r in g ==>
      match g[r]
      case ArrayNode(slots, _) => forall i :: 0 <= i < |slots| && slots[i].Some? ==> Within(g, slots[i].value)
      case ObjectNode(_, properties) =>
        DistinctKeys(properties) && forall i :: 0 <= i < |properties| ==> Within(g, properties[i].value)
  }

  predicate Within<D>(g: Graph<D>, v: Value<D>) {
    v.Reference? ==> v.ref in g
  }

  // ---- what the walk returns ----

  function Leaf<D>(doubles: Doubles<D>, v: Value<D>): Result<Text, SerializeError>
    requires !v.Reference?
  {
    match v
    case NullValue => Ok(NULL_TEXT)
    case BoolValue(b) => Ok(if b then TRUE_TEXT else FALSE_TEXT)
    case StringValue(s) => Ok(Quote(s))
    case NumberValue(d) => Ok(AsciiText(doubles.spell(d)))
    case NonFinite => Err(NonFiniteNumber)
    case LosslessValue(token) =>
      (match CanonicalizeToken(doubles, token)
       case Ok(s) => Ok(AsciiText(s))
       case Err(error) => Err(BadNumber(error)))
    case Unsupported => Err(UnsupportedType)
  }

  function Walk<D>(doubles: Doubles<D>, g: Graph<D>, v: Value<D>, ancestors: set<nat>): Result<Text, SerializeError>
    decreases g.Keys - ancestors, 0
  {
    if !v.Reference? then Leaf(doubles, v)
    else if v.ref !in g then Err(UnsupportedType)
    else if v.ref in ancestors then Err(CyclicValue)
    else
      assert v.ref in g.Keys - ancestors && v.ref !in g.Keys - (ancestors + {v.ref});
      match g[v.ref]
      case ArrayNode(slots, _) =>
        if !CountsMatch(g[v.ref]) then Err(SparseArray)
        else Prefixed([OPEN_BRACKET], WalkSlots(doubles, g, slots, ancestors + {v.ref}))
      case ObjectNode(plain, properties) =>
        if !plain then Err(NotPlain)
        else Prefixed([OPEN_BRACE], WalkMembers(doubles, g, SortMembers(properties), ancestors + {v.ref}))
  }

  function Prefixed(prefix: Text, r: Result<Text, SerializeError>): Result<Text, SerializeError> {
    match r
    case Ok(text) => Ok(prefix + text)
    case Err(_) => r
  }

  /** A hole joins as the empty string. */
  function WalkSlot<D>(doubles: Doubles<D>, g: Graph<D>, slot: Option<Value<D>>,
                       ancestors: set<nat>): Result<Text, SerializeError>
    decreases g.Keys - ancestors, 1
  {
    if slot.None? then Ok([]) else Walk(doubles, g, slot.value, ancestors)
  }

  /** Elements in index order; the first failure wins. */
  function WalkSlots<D>(doubles: Doubles<D>, g: Graph<D>, slots: seq<Option<Value<D>>>,
                        ancestors: set<nat>): Result<Text, SerializeError>
    decreases g.Keys - ancestors, 2, |slots|, 0
  {
    if slots == [] then Ok([CLOSE_BRACKET])
    else
      match WalkSlot(doubles, g, slots[0], ancestors)
      case Err(e) => Err(e)
      case Ok(text) => Prefixed(text, WalkMoreSlots(doubles, g, slots[1..], ancestors))
  }

  function WalkMoreSlots<D>(doubles: Doubles<D>, g: Graph<D>, slots: seq<Option<Value<D>>>,
                            ancestors: set<nat>): Result<Text, SerializeError>
    decreases g.Keys - ancestors, 2, |slots|, 1
  {
    if slots == [] then Ok([CLOSE_BRACKET]) else Prefixed([COMMA], WalkSlots(doubles, g, slots, ancestors))
  }

  /** Members in the order given; the first failure wins. */
  function WalkMembers<D>(doubles: Doubles<D>, g: Graph<D>, members: seq<Member<Value<D>>>,
                          ancestors: set<nat>): Result<Text, SerializeError>
    decreases g.Keys - ancestors, 2, |members|, 0
  {
    if members == [] then Ok([CLOSE_BRACE])
    else
      match Walk(doubles, g, members[0].value, ancestors)
      case Err(e) => Err(e)
      case Ok(text) =>
        Prefixed(Quote(members[0].key),
                 Prefixed([COLON], Prefixed(text, WalkMoreMembers(doubles, g, members[1..], ancestors))))
  }

  function WalkMoreMembers<D>(doubles: Doubles<D>, g: Graph<D>, members: seq<Member<Value<D>>>,
                              ancestors: set<nat>): Result<Text, SerializeError>
    decreases g.Keys - ancestors, 2, |members|, 1
  {
    if members == [] then Ok([CLOSE_BRACE]) else Prefixed([COMMA], WalkMembers(doubles, g, members, ancestors))
  }

  // ---- the code ----

  class Serializer<D> {
    const doubles: Doubles<D>
    const graph: Graph<D>
    var ancestors: set<nat>

    constructor (doubles: Doubles<D>, graph: Graph<D>)
      ensures this.doubles == doubles && this.graph == graph && ancestors == {}
    {
      this.doubles, this.graph, ancestors := doubles, graph, {};
    }

    /** canonicalizeValue: adds the value to the ancestors, walks it, and takes it out again on every exit. */
    method Value(v: Value<D>) returns (r: Result<Text, SerializeError>)
      modifies this
      ensures r == Walk(doubles, graph, v, old(ancestors))
      ensures ancestors == old(ancestors)
      decreases graph.Keys - ancestors, 0
    {
      if !v.Reference? {
        return Leaf(doubles, v);
      }
      if v.ref !in graph {
        return Err(UnsupportedType);
      }
      if v.ref in ancestors {
        return Err(CyclicValue);
      }
      ghost var before := ancestors;
      ancestors := ancestors + {v.ref};
      assert v.ref in graph.Keys - before && v.ref !in graph.Keys - ancestors;
      match graph[v.ref] {
        case ArrayNode(slots, _) =>
          if !CountsMatch(graph[v.ref]) {
            r := Err(SparseArray);
          } else {
            r := Slots(slots);
            r := Prefixed([OPEN_BRACKET], r);
          }
        case ObjectNode(plain, properties) =>
          if !plain {
            r := Err(NotPlain);
          } else {
            r := Members(SortMembers(properties));
            r := Prefixed([OPEN_BRACE], r);
          }
      }
      ancestors := ancestors - {v.ref};
    }

    method Slots(slots: seq<Option<Value<D>>>) returns (r: Result<Text, SerializeError>)
      modifies this
      ensures r == WalkSlots(doubles, graph, slots, old(ancestors))
      ensures ancestors == old(ancestors)
      decreases graph.Keys - ancestors, 2, |slots|, 0
    {
      if slots == [] {
        return Ok([CLOSE_BRACKET]);
      }
      var first: Result<Text, SerializeError> := Ok([]);
      if slots[0].Some? {
        first := Value(slots[0].value);
      }
      if first.Err? {
        return first;
      }
      if |slots| == 1 {
        r := Ok([CLOSE_BRACKET]);
      } else {
        r := Slots(slots[1..]);
        r := Prefixed([COMMA], r);
      }
      r := Prefixed(first.value, r);
    }

    method Members(members: seq<Member<Value<D>>>) returns (r: Result<Text, SerializeError>)
      modifies this
      ensures r == WalkMembers(doubles, graph, members, old(ancestors))
      ensures ancestors == old(ancestors)
      decreases graph.Keys - ancestors, 2, |members|, 0
    {
      if members == [] {
        return Ok([CLOSE_BRACE]);
      }
      var first := Value(members[0].value);
      if first.Err? {
        return first;
      }
      if |members| == 1 {
        r := Ok([CLOSE_BRACE]);
      } else {
        r := Members(members[1..]);
        r := Prefixed([COMMA], r);
      }
      r := Prefixed(Quote(members[0].key), Prefixed([COLON], Prefixed(first.value, r)));
    }
  }

  /** canonicalizeJson. */
  method CanonicalizeValue<D>(doubles: Doubles<D>, graph: Graph<D>, v: Value<D>)
    returns (r: Result<Text, SerializeError>)
    ensures r == Walk(doubles, graph, v, {})
  {
    var serializer := new Serializer<D>(doubles, graph);
    r := serializer.Value(v);
  }
}
