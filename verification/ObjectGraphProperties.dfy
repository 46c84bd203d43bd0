/**
 When the walk succeeds, and with what: it accepts exactly the values that unfold to a finite
 admissible tree, prints that tree canonically, and fails only on an inadmissible value or a cycle
 that a path from the root reaches.
 */
module ObjectGraphProperties {
  import opened Outcomes
  import opened CanonicalNumber
  import opened JsonText
  import opened CanonicalJson
  import opened CanonicalJsonEquality
  import opened ObjectGraph
  import opened Sequences

  // ---- children and their outcomes ----

  /** The values a node's walk visits. */
  ghost predicate Child<D>(node: Node<D>, v: Value<D>) {
    match node
    case ArrayNode(slots, _) => Some(v) in slots
    case ObjectNode(_, properties) => exists i :: 0 <= i < |properties| && properties[i].value == v
  }

  /** The node's own checks, apart from its children. */
  predicate NodeShape<D>(node: Node<D>) {
    match node
    case ArrayNode(_, _) => CountsMatch(node)
    case ObjectNode(plain, _) => plain
  }

  lemma {:induction false} SlotsOutcome<D>(doubles: Doubles<D>, g: Graph<D>, slots: seq<Option<Value<D>>>,
                                           ancestors: set<nat>)
    ensures WalkSlots(doubles, g, slots, ancestors).Ok? <==>
            forall i :: 0 <= i < |slots| ==> WalkSlot(doubles, g, slots[i], ancestors).Ok?
    ensures WalkSlots(doubles, g, slots, ancestors).Err? ==>
              exists i :: 0 <= i < |slots|
                          && WalkSlot(doubles, g, slots[i], ancestors) == WalkSlots(doubles, g, slots, ancestors)
  {
    if slots != [] {
      SlotsOutcome(doubles, g, slots[1..], ancestors);
      assert forall i :: 0 < i < |slots| ==> slots[i] == slots[1..][i - 1];
      assert forall i :: 0 <= i < |slots[1..]| ==> slots[1..][i] == slots[i + 1];
    }
  }

  lemma {:induction false} MembersOutcome<D>(doubles: Doubles<D>, g: Graph<D>, members: seq<Member<Value<D>>>,
                                             ancestors: set<nat>)
    ensures WalkMembers(doubles, g, members, ancestors).Ok? <==>
            forall i :: 0 <= i < |members| ==> Walk(doubles, g, members[i].value, ancestors).Ok?
    ensures WalkMembers(doubles, g, members, ancestors).Err? ==>
              exists i :: 0 <= i < |members|
                          && Walk(doubles, g, members[i].value, ancestors)
                             == WalkMembers(doubles, g, members, ancestors)
  {
    if members != [] {
      MembersOutcome(doubles, g, members[1..], ancestors);
      assert forall i :: 0 < i < |members| ==> members[i] == members[1..][i - 1];
      assert forall i :: 0 <= i < |members[1..]| ==> members[1..][i] == members[i + 1];
    }
  }

  /** A reference is accepted exactly when it is new, its node is in shape and its children are accepted. */
  lemma NodeOutcome<D(!new)>(doubles: Doubles<D>, g: Graph<D>, r: nat, ancestors: set<nat>)
    requires WellFormed(g) && r in g
    ensures Walk(doubles, g, Reference(r), ancestors).Ok? <==>
            && r !in ancestors && NodeShape(g[r])
            && forall v :: Child(g[r], v) ==> Walk(doubles, g, v, ancestors + {r}).Ok?
    ensures Walk(doubles, g, Reference(r), ancestors).Err? && r !in ancestors && NodeShape(g[r]) ==>
              exists v :: Child(g[r], v)
                          && Walk(doubles, g, v, ancestors + {r}) == Walk(doubles, g, Reference(r), ancestors)
  {
    match g[r]
    case ArrayNode(slots, _) =>
      SlotsOutcome(doubles, g, slots, ancestors + {r});
      forall i | 0 <= i < |slots|
        ensures WalkSlot(doubles, g, slots[i], ancestors + {r}).Err? ==> slots[i].Some? && Child(g[r], slots[i].value)
      {
      }
    case ObjectNode(_, properties) =>
      var sorted := SortMembers(properties);
      MembersOutcome(doubles, g, sorted, ancestors + {r});
      SortMembersSorts(properties);
      forall i | 0 <= i < |sorted|
        ensures Child(g[r], sorted[i].value)
      {
        assert sorted[i] in sorted;
      }
      forall i | 0 <= i < |properties|
        ensures exists p :: 0 <= p < |sorted| && sorted[p] == properties[i]
      {
        assert properties[i] in sorted;
      }
  }

  // ---- paths ----

  ghost predicate Edge<D>(g: Graph<D>, r: nat, s: nat) {
    r in g && Child(g[r], Reference(s))
  }

  ghost predicate Path<D>(g: Graph<D>, p: seq<nat>) {
    p != [] && forall i :: 0 <= i < |p| - 1 ==> Edge(g, p[i], p[i + 1])
  }

  predicate Simple(p: seq<nat>) {
    forall i, j :: 0 <= i < j < |p| ==> p[i] != p[j]
  }

  /** In shape, and every leaf child can be serialised. */
  ghost predicate NodeAdmissible<D(!new)>(doubles: Doubles<D>, g: Graph<D>, r: nat) {
    r in g && NodeShape(g[r]) && forall v :: Child(g[r], v) && !v.Reference? ==> Leaf(doubles, v).Ok?
  }

  /** No path from `r` repeats a node, meets an ancestor or ends in an inadmissible node. */
  ghost predicate PathsAreGood<D(!new)>(doubles: Doubles<D>, g: Graph<D>, r: nat, ancestors: set<nat>) {
    forall p :: Path(g, p) && p[0] == r ==> GoodPath(doubles, g, p, ancestors)
  }

  ghost predicate GoodPath<D(!new)>(doubles: Doubles<D>, g: Graph<D>, p: seq<nat>, ancestors: set<nat>)
    requires p != []
  {
    Simple(p) && (forall i :: 0 <= i < |p| ==> p[i] !in ancestors) && NodeAdmissible(doubles, g, p[|p| - 1])
  }

  lemma Prepend<D>(g: Graph<D>, r: nat, q: seq<nat>)
    requires Path(g, q) && Edge(g, r, q[0])
    ensures Path(g, [r] + q)
  {
    var p := [r] + q;
    forall i | 0 <= i < |p| - 1
      ensures Edge(g, p[i], p[i + 1])
    {
      assert i > 0 ==> p[i] == q[i - 1] && p[i + 1] == q[i];
    }
  }

  lemma PathTail<D>(g: Graph<D>, p: seq<nat>)
    requires Path(g, p) && |p| > 1
    ensures Path(g, p[1..]) && Edge(g, p[0], p[1])
  {
    forall i | 0 <= i < |p[1..]| - 1
      ensures Edge(g, p[1..][i], p[1..][i + 1])
    {
      assert Edge(g, p[i + 1], p[i + 2]);
    }
  }

  lemma GoodTail<D(!new)>(doubles: Doubles<D>, g: Graph<D>, r: nat, q: seq<nat>, ancestors: set<nat>)
    requires q != [] && GoodPath(doubles, g, [r] + q, ancestors)
    ensures GoodPath(doubles, g, q, ancestors + {r})
  {
    var p := [r] + q;
    forall i | 0 <= i < |q|
      ensures q[i] !in ancestors + {r}
    {
      assert p[0] != p[i + 1] && p[i + 1] == q[i];
    }
    forall i, j | 0 <= i < j < |q|
      ensures q[i] != q[j]
    {
      assert p[i + 1] != p[j + 1];
    }
    assert p[|p| - 1] == q[|q| - 1];
  }

  /** If all paths are good the walk succeeds. */
  lemma {:induction false} GoodPathsSucceed<D(!new)>(doubles: Doubles<D>, g: Graph<D>, r: nat, ancestors: set<nat>)
    requires WellFormed(g) && PathsAreGood(doubles, g, r, ancestors)
    ensures Walk(doubles, g, Reference(r), ancestors).Ok?
    decreases g.Keys - ancestors
  {
    assert Path(g, [r]);
    assert [r][|[r]| - 1] == r;
    assert GoodPath(doubles, g, [r], ancestors) && [r][0] !in ancestors;
    NodeOutcome(doubles, g, r, ancestors);
    assert r in g.Keys - ancestors && r !in g.Keys - (ancestors + {r});
    forall v | Child(g[r], v)
      ensures Walk(doubles, g, v, ancestors + {r}).Ok?
    {
      if v.Reference? {
        forall q | Path(g, q) && q[0] == v.ref
          ensures GoodPath(doubles, g, q, ancestors + {r})
        {
          Prepend(g, r, q);
          assert ([r] + q)[0] == r;
          GoodTail(doubles, g, r, q, ancestors);
        }
        GoodPathsSucceed(doubles, g, v.ref, ancestors + {r});
      }
    }
  }

  /** If the walk succeeds every path is good. */
  lemma {:induction false} SuccessMakesGood<D(!new)>(doubles: Doubles<D>, g: Graph<D>, p: seq<nat>, ancestors: set<nat>)
    requires WellFormed(g) && Path(g, p)
    requires Walk(doubles, g, Reference(p[0]), ancestors).Ok?
    ensures GoodPath(doubles, g, p, ancestors)
    decreases |p|
  {
    var r := p[0];
    NodeOutcome(doubles, g, r, ancestors);
    if |p| == 1 {
      forall v | Child(g[r], v) && !v.Reference?
        ensures Leaf(doubles, v).Ok?
      {
        assert Walk(doubles, g, v, ancestors + {r}).Ok?;
      }
    } else {
      PathTail(g, p);
      assert Child(g[r], Reference(p[1]));
      SuccessMakesGood(doubles, g, p[1..], ancestors + {r});
      forall i | 0 < i < |p|
        ensures p[i] !in ancestors + {r}
      {
        assert p[1..][i - 1] == p[i];
      }
      forall i, j | 0 <= i < j < |p|
        ensures p[i] != p[j]
      {
        assert i > 0 ==> p[1..][i - 1] == p[i] && p[1..][j - 1] == p[j];
      }
      assert p[1..][|p| - 2] == p[|p| - 1];
    }
  }

  /**
   A reference is accepted exactly when everything reachable is admissible and no cycle is
   reachable; a node shared by several acyclic paths is fine.
   */
  lemma AcceptedIffNoCycle<D(!new)>(doubles: Doubles<D>, g: Graph<D>, r: nat)
    requires WellFormed(g)
    ensures Walk(doubles, g, Reference(r), {}).Ok? <==>
            forall p :: Path(g, p) && p[0] == r ==> Simple(p) && NodeAdmissible(doubles, g, p[|p| - 1])
  {
    if Walk(doubles, g, Reference(r), {}).Ok? {
      forall p | Path(g, p) && p[0] == r
        ensures Simple(p) && NodeAdmissible(doubles, g, p[|p| - 1])
      {
        SuccessMakesGood(doubles, g, p, {});
      }
    }
    if forall p :: Path(g, p) && p[0] == r ==> Simple(p) && NodeAdmissible(doubles, g, p[|p| - 1]) {
      forall p | Path(g, p) && p[0] == r
        ensures GoodPath(doubles, g, p, {})
      {
      }
      GoodPathsSucceed(doubles, g, r, {});
    }
  }

  /** The error names its cause: a path that runs back into an ancestor, or one to an inadmissible node. */
  lemma {:induction false} FailureHasWitness<D(!new)>(doubles: Doubles<D>, g: Graph<D>, r: nat, ancestors: set<nat>)
    returns (p: seq<nat>)
    requires WellFormed(g) && r in g && Walk(doubles, g, Reference(r), ancestors).Err?
    ensures Path(g, p) && p[0] == r
    ensures if Walk(doubles, g, Reference(r), ancestors) == Err(CyclicValue)
            then p[|p| - 1] in ancestors || exists i :: 0 <= i < |p| - 1 && p[i] == p[|p| - 1]
            else !NodeAdmissible(doubles, g, p[|p| - 1])
    decreases g.Keys - ancestors
  {
    var e := Walk(doubles, g, Reference(r), ancestors);
    NodeOutcome(doubles, g, r, ancestors);
    p := [r];
    if r !in ancestors && NodeShape(g[r]) {
      var v :| Child(g[r], v) && Walk(doubles, g, v, ancestors + {r}) == e;
      if v.Reference? {
        assert Within(g, v);
        assert r in g.Keys - ancestors && r !in g.Keys - (ancestors + {r});
        var q := FailureHasWitness(doubles, g, v.ref, ancestors + {r});
        Prepend(g, r, q);
        p := [r] + q;
        var n := |p| - 1;
        assert p[n] == q[|q| - 1];
        if e == Err(CyclicValue) && p[n] !in ancestors {
          if p[n] == r {
            assert p[0] == p[n];
          } else {
            var i :| 0 <= i < |q| - 1 && q[i] == q[|q| - 1];
            assert p[i + 1] == p[n];
          }
        }
      }
    }
  }

  /** When every reachable node is admissible, the walk fails exactly on a reachable cycle and says so. */
  lemma CycleIsTheOnlyFailure<D(!new)>(doubles: Doubles<D>, g: Graph<D>, r: nat)
    requires WellFormed(g) && r in g
    requires forall p :: Path(g, p) && p[0] == r ==> NodeAdmissible(doubles, g, p[|p| - 1])
    ensures Walk(doubles, g, Reference(r), {}).Err? <==> exists p :: Path(g, p) && p[0] == r && !Simple(p)
    ensures Walk(doubles, g, Reference(r), {}).Err? ==> Walk(doubles, g, Reference(r), {}) == Err(CyclicValue)
  {
    AcceptedIffNoCycle(doubles, g, r);
    if Walk(doubles, g, Reference(r), {}).Err? {
      var p := FailureHasWitness(doubles, g, r, {});
    }
  }

  // ---- trees ----

  /** `j` is the finite unfolding of `v`. */
  ghost predicate Denotes<D(!new)>(g: Graph<D>, v: Value<D>, j: Json<D>)
    decreases j
  {
    match j
    case Null => v.NullValue?
    case Bool(b) => v == BoolValue(b)
    case Str(s) => v == StringValue(s)
    case Native(d) => v == NumberValue(d)
    case Lossless(token) => v == LosslessValue(token)
    case Arr(items) =>
      && v.Reference? && v.ref in g && g[v.ref].ArrayNode? && g[v.ref].extras == 0
      && |items| == |g[v.ref].slots|
      && forall i :: 0 <= i < |items| ==> g[v.ref].slots[i].Some? && Denotes(g, g[v.ref].slots[i].value, items[i])
    case Obj(members) =>
      && v.Reference? && v.ref in g && g[v.ref].ObjectNode? && g[v.ref].plain
      && |members| == |g[v.ref].properties|
      && forall i :: 0 <= i < |members| ==>
           members[i].key == g[v.ref].properties[i].key && Denotes(g, g[v.ref].properties[i].value, members[i].value)
  }

  lemma {:induction false} DenotesUnique<D(!new)>(g: Graph<D>, v: Value<D>, j: Json<D>, k: Json<D>)
    requires Denotes(g, v, j) && Denotes(g, v, k)
    ensures j == k
    decreases j
  {
    match j
    case Arr(items) =>
      forall i | 0 <= i < |items|
        ensures items[i] == k.items[i]
      {
        DenotesUnique(g, g[v.ref].slots[i].value, items[i], k.items[i]);
      }
      assert items == k.items;
    case Obj(members) =>
      forall i | 0 <= i < |members|
        ensures members[i] == k.members[i]
      {
        DenotesUnique(g, g[v.ref].properties[i].value, members[i].value, k.members[i].value);
      }
      assert members == k.members;
    case _ =>
  }

  function Height<D>(j: Json<D>): (h: nat)
    decreases j, 1
  {
    match j
    case Arr(items) => 1 + ItemsHeight(items)
    case Obj(members) => 1 + MembersHeight(members)
    case _ => 0
  }

  function ItemsHeight<D>(items: seq<Json<D>>): (h: nat)
    ensures forall i :: 0 <= i < |items| ==> Height(items[i]) <= h
    decreases items, 0
  {
    if items == [] then 0
    else
      var rest := ItemsHeight(items[1..]);
      assert forall i :: 0 < i < |items| ==> items[i] == items[1..][i - 1];
      if Height(items[0]) > rest then Height(items[0]) else rest
  }

  function MembersHeight<D>(members: seq<Member<Json<D>>>): (h: nat)
    ensures forall i :: 0 <= i < |members| ==> Height(members[i].value) <= h
    decreases members, 0
  {
    if members == [] then 0
    else
      var rest := MembersHeight(members[1..]);
      assert forall i :: 0 < i < |members| ==> members[i] == members[1..][i - 1];
      if Height(members[0].value) > rest then Height(members[0].value) else rest
  }

  /** Every ancestor unfolds to a higher tree. */
  ghost predicate HigherAncestors<D(!new)>(g: Graph<D>, ancestors: set<nat>, h: nat) {
    forall a :: a in ancestors ==> HasHigherTree(g, a, h)
  }

  ghost predicate HasHigherTree<D(!new)>(g: Graph<D>, a: nat, h: nat) {
    exists k: Json<D> :: Denotes(g, Reference(a), k) && Height(k) > h
  }

  lemma EnterNode<D(!new)>(g: Graph<D>, r: nat, j: Json<D>, h: nat, ancestors: set<nat>)
    requires Denotes(g, Reference(r), j) && h < Height(j) && HigherAncestors(g, ancestors, Height(j))
    ensures r !in ancestors && HigherAncestors(g, ancestors + {r}, h)
  {
    if r in ancestors {
      var k :| Denotes(g, Reference(r), k) && Height(k) > Height(j);
      DenotesUnique(g, Reference(r), j, k);
    }
    forall a | a in ancestors + {r}
      ensures HasHigherTree(g, a, h)
    {
      if a == r {
        assert Denotes(g, Reference(a), j);
      } else {
        var k :| Denotes(g, Reference(a), k) && Height(k) > Height(j);
      }
    }
  }

  lemma {:induction false} NoHoles<D>(slots: seq<Option<Value<D>>>)
    ensures Holes(slots) == 0 <==> forall i :: 0 <= i < |slots| ==> slots[i].Some?
  {
    if slots != [] {
      NoHoles(slots[1..]);
      assert forall i :: 0 < i < |slots| ==> slots[i] == slots[1..][i - 1];
      assert forall i :: 0 <= i < |slots[1..]| ==> slots[1..][i] == slots[i + 1];
    }
  }

  // ---- printing the unfolded tree ----

  lemma {:induction false} SlotsPrint<D>(doubles: Doubles<D>, g: Graph<D>, slots: seq<Option<Value<D>>>,
                                         items: seq<Json<D>>, ancestors: set<nat>)
    requires |slots| == |items|
    requires forall i :: 0 <= i < |slots| ==>
               slots[i].Some? && Walk(doubles, g, slots[i].value, ancestors) == Ok(Print(doubles, items[i]))
    ensures WalkSlots(doubles, g, slots, ancestors) == Ok(PrintItems(doubles, items))
  {
    if slots != [] {
      SlotsPrint(doubles, g, slots[1..], items[1..], ancestors);
    }
  }

  lemma {:induction false} MembersPrint<D>(doubles: Doubles<D>, g: Graph<D>, properties: seq<Member<Value<D>>>,
                                           members: seq<Member<Json<D>>>, ancestors: set<nat>)
    requires Paired(properties, members, (v, j) => Walk(doubles, g, v, ancestors) == Ok(Print(doubles, j)))
    ensures WalkMembers(doubles, g, properties, ancestors) == Ok(PrintMembers(doubles, members))
  {
    if properties != [] {
      MembersPrint(doubles, g, properties[1..], members[1..], ancestors);
    }
  }

  /** Same keys at the same places, with related values. */
  ghost predicate Paired<V, W>(a: seq<Member<V>>, b: seq<Member<W>>, related: (V, W) -> bool) {
    |a| == |b| && forall i :: 0 <= i < |a| ==> a[i].key == b[i].key && related(a[i].value, b[i].value)
  }

  lemma {:induction false} InsertPaired<V, W>(m: Member<V>, n: Member<W>, a: seq<Member<V>>, b: seq<Member<W>>,
                                              related: (V, W) -> bool)
    requires m.key == n.key && related(m.value, n.value) && Paired(a, b, related)
    ensures Paired(S.Insert(m, a, KeyBelow), S.Insert(n, b, KeyBelow), related)
  {
    if a != [] && !Below(m.key, a[0].key) {
      InsertPaired(m, n, a[1..], b[1..], related);
    }
  }

  /** Sorting looks only at keys, so it keeps pairs together. */
  lemma {:induction false} SortPaired<V, W>(a: seq<Member<V>>, b: seq<Member<W>>, related: (V, W) -> bool)
    requires Paired(a, b, related)
    ensures Paired(SortMembers(a), SortMembers(b), related)
  {
    if a != [] {
      SortPaired(a[1..], b[1..], related);
      InsertPaired(a[0], b[0], SortMembers(a[1..]), SortMembers(b[1..]), related);
    }
  }

  lemma ArrayWalks<D(!new)>(doubles: Doubles<D>, g: Graph<D>, r: nat, items: seq<Json<D>>, ancestors: set<nat>)
    requires Denotes(g, Reference(r), Arr(items)) && r !in ancestors
    requires forall i :: 0 <= i < |items| ==>
               Walk(doubles, g, g[r].slots[i].value, ancestors + {r}) == Ok(Canonicalize(doubles, items[i]))
    ensures Walk(doubles, g, Reference(r), ancestors) == Ok(Canonicalize(doubles, Arr(items)))
  {
    NoHoles(g[r].slots);
    SlotsPrint(doubles, g, g[r].slots, SortItems(items), ancestors + {r});
  }

  lemma ObjectWalks<D(!new)>(doubles: Doubles<D>, g: Graph<D>, r: nat, members: seq<Member<Json<D>>>,
                             ancestors: set<nat>)
    requires Denotes(g, Reference(r), Obj(members)) && r !in ancestors
    requires forall i :: 0 <= i < |members| ==>
               Walk(doubles, g, g[r].properties[i].value, ancestors + {r})
                 == Ok(Canonicalize(doubles, members[i].value))
    ensures Walk(doubles, g, Reference(r), ancestors) == Ok(Canonicalize(doubles, Obj(members)))
  {
    var related := (v, j) => Walk(doubles, g, v, ancestors + {r}) == Ok(Print(doubles, j));
    SortPaired(g[r].properties, SortValues(members), related);
    MembersPrint(doubles, g, SortMembers(g[r].properties), SortMembers(SortValues(members)), ancestors + {r});
  }

  lemma {:induction false} TreeGivesWalk<D(!new)>(doubles: Doubles<D>, g: Graph<D>, v: Value<D>, j: Json<D>,
                                                  ancestors: set<nat>)
    requires Faithful(doubles) && Denotes(g, v, j) && Admissible(j) && HigherAncestors(g, ancestors, Height(j))
    ensures Walk(doubles, g, v, ancestors) == Ok(Canonicalize(doubles, j))
    decreases j
  {
    match j
    case Arr(items) =>
      EnterNode(g, v.ref, j, ItemsHeight(items), ancestors);
      forall i | 0 <= i < |items|
        ensures Walk(doubles, g, g[v.ref].slots[i].value, ancestors + {v.ref}) == Ok(Canonicalize(doubles, items[i]))
      {
        LowerHeight(g, ancestors + {v.ref}, ItemsHeight(items), Height(items[i]));
        TreeGivesWalk(doubles, g, g[v.ref].slots[i].value, items[i], ancestors + {v.ref});
      }
      ArrayWalks(doubles, g, v.ref, items, ancestors);
    case Obj(members) =>
      EnterNode(g, v.ref, j, MembersHeight(members), ancestors);
      forall i | 0 <= i < |members|
        ensures Walk(doubles, g, g[v.ref].properties[i].value, ancestors + {v.ref})
                == Ok(Canonicalize(doubles, members[i].value))
      {
        LowerHeight(g, ancestors + {v.ref}, MembersHeight(members), Height(members[i].value));
        TreeGivesWalk(doubles, g, g[v.ref].properties[i].value, members[i].value, ancestors + {v.ref});
      }
      ObjectWalks(doubles, g, v.ref, members, ancestors);
    case Lossless(token) => CanonicalizeTokenIsExact(doubles, token);
    case _ =>
  }

  lemma LowerHeight<D(!new)>(g: Graph<D>, ancestors: set<nat>, h: nat, lower: nat)
    requires HigherAncestors(g, ancestors, h) && lower <= h
    ensures HigherAncestors(g, ancestors, lower)
  {
    forall a | a in ancestors
      ensures HasHigherTree(g, a, lower)
    {
      var k :| Denotes(g, Reference(a), k) && Height(k) > h;
    }
  }

  // ---- accepted values are trees ----

  /** The array does not hide as many holes as it has properties of its own. */
  predicate DenseNode<D>(node: Node<D>) {
    node.ArrayNode? && CountsMatch(node) ==> node.extras == 0
  }

  /** No array reachable from the value hides holes. */
  ghost predicate Dense<D>(g: Graph<D>, v: Value<D>) {
    forall p :: Path(g, p) && v == Reference(p[0]) && p[|p| - 1] in g ==> DenseNode(g[p[|p| - 1]])
  }

  lemma DenseRoot<D(!new)>(g: Graph<D>, r: nat)
    requires Dense(g, Reference(r)) && r in g
    ensures DenseNode(g[r])
  {
    assert Path(g, [r]);
  }

  lemma DenseChild<D(!new)>(g: Graph<D>, r: nat, v: Value<D>)
    requires Dense(g, Reference(r)) && r in g && Child(g[r], v)
    ensures Dense(g, v)
  {
    forall p | Path(g, p) && v == Reference(p[0]) && p[|p| - 1] in g
      ensures DenseNode(g[p[|p| - 1]])
    {
      assert Edge(g, r, p[0]);
      Prepend(g, r, p);
      assert ([r] + p)[|[r] + p| - 1] == p[|p| - 1];
    }
  }

  lemma {:induction false} WalkGivesTree<D(!new)>(doubles: Doubles<D>, g: Graph<D>, v: Value<D>, ancestors: set<nat>)
    returns (j: Json<D>)
    requires Faithful(doubles) && WellFormed(g) && Dense(g, v) && Walk(doubles, g, v, ancestors).Ok?
    ensures Denotes(g, v, j) && Admissible(j)
    decreases g.Keys - ancestors, 1
  {
    match v
    case NullValue => j := Null;
    case BoolValue(b) => j := Bool(b);
    case StringValue(s) => j := Str(s);
    case NumberValue(d) => j := Native(d);
    case LosslessValue(token) =>
      CanonicalizeTokenIsExact(doubles, token);
      j := Lossless(token);
    case Reference(r) =>
      NodeOutcome(doubles, g, r, ancestors);
      assert r in g.Keys - ancestors && r !in g.Keys - (ancestors + {r});
      DenseRoot(g, r);
      match g[r] {
        case ArrayNode(slots, _) =>
          NoHoles(slots);
          forall i | 0 <= i < |slots|
            ensures Walk(doubles, g, slots[i].value, ancestors + {r}).Ok? && Dense(g, slots[i].value)
          {
            assert Child(g[r], slots[i].value);
            DenseChild(g, r, slots[i].value);
          }
          var items := SlotsGiveTrees(doubles, g, slots, ancestors + {r});
          SlotsDenote(g, r, items);
          j := Arr(items);
        case ObjectNode(_, properties) =>
          forall i | 0 <= i < |properties|
            ensures Walk(doubles, g, properties[i].value, ancestors + {r}).Ok? && Dense(g, properties[i].value)
          {
            assert Child(g[r], properties[i].value);
            DenseChild(g, r, properties[i].value);
          }
          var members := PropertiesGiveTrees(doubles, g, properties, ancestors + {r});
          PairedDenotes(g, r, members);
          j := Obj(members);
      }
  }

  lemma PairedDenotes<D(!new)>(g: Graph<D>, r: nat, members: seq<Member<Json<D>>>)
    requires WellFormed(g) && r in g && g[r].ObjectNode? && g[r].plain
    requires Paired(g[r].properties, members, (v, j) => Denotes(g, v, j) && Admissible(j))
    ensures Denotes(g, Reference(r), Obj(members)) && Admissible(Obj(members))
  {
  }

  ghost predicate SlotDenotes<D(!new)>(g: Graph<D>, slot: Option<Value<D>>, j: Json<D>) {
    slot.Some? && Denotes(g, slot.value, j) && Admissible(j)
  }

  lemma {:induction false} SlotsGiveTrees<D(!new)>(doubles: Doubles<D>, g: Graph<D>, slots: seq<Option<Value<D>>>,
                                                   ancestors: set<nat>)
    returns (items: seq<Json<D>>)
    requires Faithful(doubles) && WellFormed(g)
    requires forall i :: 0 <= i < |slots| ==>
               slots[i].Some? && Walk(doubles, g, slots[i].value, ancestors).Ok? && Dense(g, slots[i].value)
    ensures |items| == |slots|
    ensures forall i :: 0 <= i < |items| ==> SlotDenotes(g, slots[i], items[i])
    decreases g.Keys - ancestors, 2, |slots|
  {
    items := [];
    if slots != [] {
      var first := WalkGivesTree(doubles, g, slots[0].value, ancestors);
      var rest := SlotsGiveTrees(doubles, g, slots[1..], ancestors);
      items := [first] + rest;
      assert items[1..] == rest;
      PointwiseTail(slots, items, (slot, j) => SlotDenotes(g, slot, j));
    }
  }

  lemma SlotsDenote<D(!new)>(g: Graph<D>, r: nat, items: seq<Json<D>>)
    requires r in g && g[r].ArrayNode? && g[r].extras == 0 && |items| == |g[r].slots|
    requires forall i :: 0 <= i < |items| ==> SlotDenotes(g, g[r].slots[i], items[i])
    ensures Denotes(g, Reference(r), Arr(items)) && Admissible(Arr(items))
  {
    forall i | 0 <= i < |items|
      ensures g[r].slots[i].Some? && Denotes(g, g[r].slots[i].value, items[i]) && Admissible(items[i])
    {
      assert SlotDenotes(g, g[r].slots[i], items[i]);
    }
  }

  lemma {:induction false} PropertiesGiveTrees<D(!new)>(doubles: Doubles<D>, g: Graph<D>,
                                                        properties: seq<Member<Value<D>>>, ancestors: set<nat>)
    returns (members: seq<Member<Json<D>>>)
    requires Faithful(doubles) && WellFormed(g)
    requires forall i :: 0 <= i < |properties| ==>
               Walk(doubles, g, properties[i].value, ancestors).Ok? && Dense(g, properties[i].value)
    ensures Paired(properties, members, (v, j) => Denotes(g, v, j) && Admissible(j))
    decreases g.Keys - ancestors, 2, |properties|
  {
    members := [];
    if properties != [] {
      var first := WalkGivesTree(doubles, g, properties[0].value, ancestors);
      var rest := PropertiesGiveTrees(doubles, g, properties[1..], ancestors);
      members := [Member(properties[0].key, first)] + rest;
      assert members[1..] == rest;
      PairedCons(properties, members, (v, j) => Denotes(g, v, j) && Admissible(j));
    }
  }

  lemma PairedCons<V, W>(a: seq<Member<V>>, b: seq<Member<W>>, related: (V, W) -> bool)
    requires a != [] && b != [] && Paired(a[1..], b[1..], related)
    requires a[0].key == b[0].key && related(a[0].value, b[0].value)
    ensures Paired(a, b, related)
  {
    forall i | 0 <= i < |a|
      ensures a[i].key == b[i].key && related(a[i].value, b[i].value)
    {
      assert i > 0 ==> a[i] == a[1..][i - 1] && b[i] == b[1..][i - 1];
    }
  }

  lemma TreePrints<D(!new)>(doubles: Doubles<D>, g: Graph<D>, v: Value<D>, j: Json<D>)
    requires Faithful(doubles) && Denotes(g, v, j) && Admissible(j)
    ensures Walk(doubles, g, v, {}) == Ok(Canonicalize(doubles, j))
  {
    TreeGivesWalk(doubles, g, v, j, {});
  }

  lemma PrintedTree<D(!new)>(doubles: Doubles<D>, g: Graph<D>, v: Value<D>) returns (j: Json<D>)
    requires Faithful(doubles) && WellFormed(g) && Dense(g, v) && Walk(doubles, g, v, {}).Ok?
    ensures Denotes(g, v, j) && Admissible(j) && Walk(doubles, g, v, {}) == Ok(Canonicalize(doubles, j))
  {
    j := WalkGivesTree(doubles, g, v, {});
    TreeGivesWalk(doubles, g, v, j, {});
  }

  /** The text is that of the finite admissible tree the value unfolds to. */
  ghost predicate PrintsAs<D(!new)>(doubles: Doubles<D>, g: Graph<D>, v: Value<D>, j: Json<D>, text: Text) {
    Denotes(g, v, j) && Admissible(j) && text == Canonicalize(doubles, j)
  }

  /** Where a value unfolds to a tree, no array on the way hides holes. */
  lemma TreeIsDense<D(!new)>(g: Graph<D>, v: Value<D>, j: Json<D>)
    requires Denotes(g, v, j)
    ensures Dense(g, v)
  {
    forall p | Path(g, p) && v == Reference(p[0]) && p[|p| - 1] in g
      ensures DenseNode(g[p[|p| - 1]])
    {
      PathMeetsDenseNodes(g, p, j);
    }
  }

  lemma {:induction false} PathMeetsDenseNodes<D(!new)>(g: Graph<D>, p: seq<nat>, j: Json<D>)
    requires Path(g, p) && p[|p| - 1] in g && Denotes(g, Reference(p[0]), j)
    ensures DenseNode(g[p[|p| - 1]])
    decreases |p|
  {
    if |p| > 1 {
      PathTail(g, p);
      var k := ChildTree(g, p[0], p[1], j);
      PathMeetsDenseNodes(g, p[1..], k);
    }
  }

  /** The tree of a node contains the tree of each node it refers to. */
  lemma ChildTree<D(!new)>(g: Graph<D>, r: nat, s: nat, j: Json<D>) returns (k: Json<D>)
    requires Denotes(g, Reference(r), j) && Edge(g, r, s)
    ensures Denotes(g, Reference(s), k)
  {
    match j
    case Arr(items) =>
      var i :| 0 <= i < |g[r].slots| && g[r].slots[i] == Some(Reference(s));
      k := items[i];
    case Obj(members) =>
      var i :| 0 <= i < |g[r].properties| && g[r].properties[i].value == Reference(s);
      k := members[i].value;
  }

  /**
   The output is the canonical text of the finite admissible tree the value unfolds to; without one there is
   an error.
   */
  lemma WalkPrintsTheTree<D(!new)>(doubles: Doubles<D>, g: Graph<D>, v: Value<D>, text: Text)
    requires Faithful(doubles) && WellFormed(g)
    ensures Walk(doubles, g, v, {}) == Ok(text) && Dense(g, v) <==> exists j :: PrintsAs(doubles, g, v, j, text)
  {
    if Walk(doubles, g, v, {}) == Ok(text) && Dense(g, v) {
      var j := PrintedTree(doubles, g, v);
      assert PrintsAs(doubles, g, v, j, text);
    }
    if j :| PrintsAs(doubles, g, v, j, text) {
      TreePrints(doubles, g, v, j);
      TreeIsDense(g, v, j);
    }
  }

  /** An accepted value unfolds to a tree exactly when no reachable array hides holes. */
  lemma AcceptedTreesAreDense<D(!new)>(doubles: Doubles<D>, g: Graph<D>, v: Value<D>)
    requires Faithful(doubles) && WellFormed(g) && Walk(doubles, g, v, {}).Ok?
    ensures Dense(g, v) <==> IsTree(g, v)
  {
    if Dense(g, v) {
      var j := PrintedTree(doubles, g, v);
    }
    if IsTree(g, v) {
      var j :| Denotes(g, v, j);
      TreeIsDense(g, v, j);
    }
  }

  ghost predicate IsTree<D(!new)>(g: Graph<D>, v: Value<D>) {
    exists j :: Denotes(g, v, j)
  }

  /** Two accepted values print alike exactly when their trees are equivalent. */
  lemma FingerprintDecidesEquality<D(!new)>(doubles: Doubles<D>, g: Graph<D>, v: Value<D>, h: Graph<D>, w: Value<D>,
                                            j: Json<D>, k: Json<D>)
    requires Faithful(doubles) && Denotes(g, v, j) && Admissible(j) && Denotes(h, w, k) && Admissible(k)
    ensures Walk(doubles, g, v, {}) == Walk(doubles, h, w, {}) <==> Equivalent(doubles, j, k)
  {
    TreeGivesWalk(doubles, g, v, j, {});
    TreeGivesWalk(doubles, h, w, k, {});
    CanonicalTextDecidesEquality(doubles, j, k);
  }

  /** The count check misses a sparse or decorated array exactly when its own properties make up for the holes. */
  lemma SparseArrayPasses<D>(node: Node<D>)
    requires node.ArrayNode?
    ensures CountsMatch(node) && !(node.extras == 0 && forall i :: 0 <= i < |node.slots| ==> node.slots[i].Some?)
            <==> node.extras == Holes(node.slots) > 0
    ensures node.extras == 0 && (forall i :: 0 <= i < |node.slots| ==> node.slots[i].Some?) ==> CountsMatch(node)
  {
    NoHoles(node.slots);
  }

  /** So an array of one hole with one property of its own prints like the empty array. */
  lemma SparseArrayCollides<D>(doubles: Doubles<D>)
    ensures var g: Graph<D> := map[0 := ArrayNode([None], 1), 1 := ArrayNode([], 0)];
            Walk(doubles, g, Reference(0), {}) == Walk(doubles, g, Reference(1), {})
              == Ok([OPEN_BRACKET, CLOSE_BRACKET])
  {
    var g: Graph<D> := map[0 := ArrayNode([None], 1), 1 := ArrayNode([], 0)];
    var none: set<nat> := {};
    var holed: seq<Option<Value<D>>> := [None];
    assert Holes(holed) == 1 + Holes(holed[1..]);
    assert holed[1..] == [] && CountsMatch(g[0]) && CountsMatch(g[1]);
    assert [OPEN_BRACKET] + [CLOSE_BRACKET] == [OPEN_BRACKET, CLOSE_BRACKET];
    var empty: Text := [];
    assert WalkSlot(doubles, g, holed[0], none + {0}) == Ok(empty);
    assert WalkMoreSlots(doubles, g, holed[1..], none + {0}) == Ok([CLOSE_BRACKET]);
    assert WalkSlots(doubles, g, holed, none + {0}) == Ok(empty + [CLOSE_BRACKET]);
    assert empty + [CLOSE_BRACKET] == [CLOSE_BRACKET];
    assert Walk(doubles, g, Reference(0), none) == Ok([OPEN_BRACKET, CLOSE_BRACKET]);
    assert WalkSlots(doubles, g, [], none + {1}) == Ok([CLOSE_BRACKET]);
  }
}
