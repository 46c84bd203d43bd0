/**
 Canonical serialisation of JSON trees: members sorted by key, numbers in canonical form, no
 white space.  Printing decides equality up to member order and numeric equality.
 */
module CanonicalJson {
  import opened ExactNumber
  import opened CanonicalNumber
  import opened JsonText
  import S = Sorting

  datatype Json<D> =
    | Null
    | Bool(b: bool)
    | Str(s: Text)
    | Native(d: D)
    | Lossless(token: string)
    | Arr(items: seq<Json>)
    | Obj(members: seq<Member<Json<D>>>)

  datatype Member<+V> = Member(key: Text, value: V)

  function Keys<V>(members: seq<Member<V>>): set<Text> {
    set i | 0 <= i < |members| :: members[i].key
  }

  predicate DistinctKeys<V>(members: seq<Member<V>>) {
    forall i, j :: 0 <= i < j < |members| ==> members[i].key != members[j].key
  }

  /** Number tokens are accepted and no object repeats a key. */
  predicate Admissible<D>(j: Json<D>) {
    match j
    case Lossless(token) => Accepted(token)
    case Arr(items) => forall i :: 0 <= i < |items| ==> Admissible(items[i])
    case Obj(members) => DistinctKeys(members) && forall i :: 0 <= i < |members| ==> Admissible(members[i].value)
    case _ => true
  }

  // ---- what the output is supposed to identify ----

  predicate IsNumber<D>(j: Json<D>) {
    j.Native? || j.Lossless?
  }

  function SpelledNumber<D>(doubles: Doubles<D>, j: Json<D>): string
    requires IsNumber(j)
  {
    if j.Native? then doubles.spell(j.d) else j.token
  }

  ghost predicate SameNumber<D(!new)>(doubles: Doubles<D>, a: Json<D>, b: Json<D>)
    requires IsNumber(a) && IsNumber(b)
  {
    var s, t := SpelledNumber(doubles, a), SpelledNumber(doubles, b);
    Parse(s).Ok? && Parse(t).Ok? && Value(s) == Value(t)
  }

  /** Equality up to the order of object members and the spelling of numbers. */
  ghost predicate Equivalent<D(!new)>(doubles: Doubles<D>, a: Json<D>, b: Json<D>) {
    if IsNumber(a) && IsNumber(b) then SameNumber(doubles, a, b)
    else match a
      case Arr(items) =>
        b.Arr? && |items| == |b.items| && forall i :: 0 <= i < |items| ==> Equivalent(doubles, items[i], b.items[i])
      case Obj(members) =>
        && b.Obj?
        && Keys(members) == Keys(b.members)
        && (forall i, j :: 0 <= i < |members| && 0 <= j < |b.members| && members[i].key == b.members[j].key ==>
                             Equivalent(doubles, members[i].value, b.members[j].value))
      case _ => a == b
  }

  // ---- sorting ----

  predicate KeyBelow<V>(a: Member<V>, b: Member<V>) {
    Below(a.key, b.key)
  }

  ghost predicate Sorted<V>(members: seq<Member<V>>) {
    S.Sorted(members, KeyBelow)
  }

  /** Object.keys(...).sort(), each key with its value. */
  function SortMembers<V>(members: seq<Member<V>>): seq<Member<V>> {
    S.Sort(members, KeyBelow)
  }

  /** The tree with every object's members in key order. */
  function SortAll<D>(j: Json<D>): Json<D> {
    match j
    case Arr(items) => Arr(SortItems(items))
    case Obj(members) => Obj(SortMembers(SortValues(members)))
    case _ => j
  }

  function SortItems<D>(items: seq<Json<D>>): (sorted: seq<Json<D>>)
    ensures |sorted| == |items|
    ensures forall i :: 0 <= i < |items| ==> sorted[i] == SortAll(items[i])
  {
    if items == [] then [] else [SortAll(items[0])] + SortItems(items[1..])
  }

  function SortValues<D>(members: seq<Member<Json<D>>>): (sorted: seq<Member<Json<D>>>)
    ensures |sorted| == |members|
    ensures forall i :: 0 <= i < |members| ==> sorted[i] == Member(members[i].key, SortAll(members[i].value))
  {
    if members == [] then [] else [Member(members[0].key, SortAll(members[0].value))] + SortValues(members[1..])
  }

  lemma KeyOrderIsStrict<V(!new)>()
    ensures S.StrictOrder<Member<V>>(KeyBelow)
  {
    forall a: Member<V>, b: Member<V>, c: Member<V> | KeyBelow(a, b) && KeyBelow(b, c)
      ensures KeyBelow(a, c)
    {
      BelowTransitive(a.key, b.key, c.key);
    }
    forall a: Member<V>
      ensures !KeyBelow(a, a)
    {
      BelowTotal(a.key, a.key);
    }
  }

  lemma SortMembersSorts<V(!new)>(members: seq<Member<V>>)
    requires DistinctKeys(members)
    ensures Sorted(SortMembers(members))
    ensures forall x :: x in SortMembers(members) <==> x in members
  {
    KeyOrderIsStrict<V>();
    forall i, j | 0 <= i < j < |members|
      ensures KeyBelow(members[i], members[j]) || KeyBelow(members[j], members[i])
    {
      BelowTotal(members[i].key, members[j].key);
    }
    S.SortSorts(members, KeyBelow);
    S.SortKeeps(members, KeyBelow);
    var sorted := S.Sort(members, KeyBelow);
    assert S.Sorted(sorted, KeyBelow);
    assert SortMembers(members) == sorted;
    S.SameMembers(sorted, members);
  }

  lemma TailKeys<V>(a: seq<Member<V>>)
    requires Sorted(a) && a != []
    ensures Keys(a[1..]) == Keys(a) - {a[0].key}
  {
    forall key | key in Keys(a) - {a[0].key}
      ensures key in Keys(a[1..])
    {
      var i :| 0 <= i < |a| && a[i].key == key;
      assert a[1..][i - 1] == a[i];
    }
    forall key | key in Keys(a[1..])
      ensures key in Keys(a) - {a[0].key}
    {
      var i :| 0 <= i < |a[1..]| && a[1..][i].key == key;
      assert a[1..][i] == a[i + 1];
      BelowTotal(a[0].key, a[i + 1].key);
    }
  }

  /** A sorted sequence is determined by its key set. */
  lemma {:induction false} SortedByKeys<V>(a: seq<Member<V>>, b: seq<Member<V>>)
    requires Sorted(a) && Sorted(b) && Keys(a) == Keys(b)
    ensures |a| == |b| && forall i :: 0 <= i < |a| ==> a[i].key == b[i].key
  {
    assert a != [] ==> a[0].key in Keys(a);
    assert b != [] ==> b[0].key in Keys(b);
    if a != [] && b != [] {
      BelowTotal(a[0].key, b[0].key);
      TailKeys(a);
      TailKeys(b);
      SortedByKeys(a[1..], b[1..]);
      forall i | 0 <= i < |a|
        ensures a[i].key == b[i].key
      {
        assert i > 0 ==> a[i] == a[1..][i - 1] && b[i] == b[1..][i - 1];
      }
    }
  }

  // ---- printing ----

  const NULL_TEXT: Text := [110, 117, 108, 108]
  const TRUE_TEXT: Text := [116, 114, 117, 101]
  const FALSE_TEXT: Text := [102, 97, 108, 115, 101]
  const COMMA: Unit := 44
  const COLON: Unit := 58
  const OPEN_BRACKET: Unit := 91
  const CLOSE_BRACKET: Unit := 93
  const OPEN_BRACE: Unit := 123
  const CLOSE_BRACE: Unit := 125

  function PrintNumber<D>(doubles: Doubles<D>, j: Json<D>): Text
    requires IsNumber(j)
  {
    if j.Native? then AsciiText(doubles.spell(j.d))
    else match CanonicalizeToken(doubles, j.token)
      case Ok(s) => AsciiText(s)
      case Err(_) => []
  }

  function Print<D>(doubles: Doubles<D>, j: Json<D>): Text
    decreases j, 2
  {
    match j
    case Null => NULL_TEXT
    case Bool(b) => if b then TRUE_TEXT else FALSE_TEXT
    case Str(s) => Quote(s)
    case Arr(items) => [OPEN_BRACKET] + PrintItems(doubles, items)
    case Obj(members) => [OPEN_BRACE] + PrintMembers(doubles, members)
    case _ => PrintNumber(doubles, j)
  }

  /** Elements joined by commas, and the closing bracket. */
  function PrintItems<D>(doubles: Doubles<D>, items: seq<Json<D>>): Text
    decreases items, 0
  {
    if items == [] then [CLOSE_BRACKET] else Print(doubles, items[0]) + PrintMoreItems(doubles, items[1..])
  }

  function PrintMoreItems<D>(doubles: Doubles<D>, items: seq<Json<D>>): Text
    decreases items, 1
  {
    if items == [] then [CLOSE_BRACKET] else [COMMA] + PrintItems(doubles, items)
  }

  /** Members joined by commas, and the closing brace. */
  function PrintMembers<D>(doubles: Doubles<D>, members: seq<Member<Json<D>>>): Text
    decreases members, 0
  {
    if members == [] then [CLOSE_BRACE]
    else Quote(members[0].key)
         + ([COLON] + (Print(doubles, members[0].value) + PrintMoreMembers(doubles, members[1..])))
  }

  function PrintMoreMembers<D>(doubles: Doubles<D>, members: seq<Member<Json<D>>>): Text
    decreases members, 1
  {
    if members == [] then [CLOSE_BRACE] else [COMMA] + PrintMembers(doubles, members)
  }

  /** canonicalizeJson on a tree. */
  function Canonicalize<D>(doubles: Doubles<D>, j: Json<D>): Text {
    Print(doubles, SortAll(j))
  }
}
