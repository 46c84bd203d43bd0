/** Canonical text is the same for two trees exactly when they are equivalent. */
module CanonicalJsonEquality {
  import opened CanonicalNumber
  import opened JsonText
  import opened CanonicalJson
  import opened CanonicalJsonDecoding

  // ---- what sorting an object does ----

  function SortedObject<D>(members: seq<Member<Json<D>>>): seq<Member<Json<D>>> {
    SortMembers(SortValues(members))
  }

  lemma SortedObjectSorts<D(!new)>(members: seq<Member<Json<D>>>)
    requires DistinctKeys(members)
    ensures Sorted(SortedObject(members))
    ensures forall x :: x in SortedObject(members) <==> x in SortValues(members)
  {
    SortMembersSorts(SortValues(members));
  }

  lemma PlaceOf<D(!new)>(members: seq<Member<Json<D>>>, i: nat) returns (p: nat)
    requires DistinctKeys(members) && i < |members|
    ensures p < |SortedObject(members)|
    ensures SortedObject(members)[p] == Member(members[i].key, SortAll(members[i].value))
  {
    SortedObjectSorts(members);
    assert SortValues(members)[i] in SortValues(members);
    p :| 0 <= p < |SortedObject(members)| && SortedObject(members)[p] == SortValues(members)[i];
  }

  lemma OriginOf<D(!new)>(members: seq<Member<Json<D>>>, p: nat) returns (i: nat)
    requires DistinctKeys(members) && p < |SortedObject(members)|
    ensures i < |members|
    ensures SortedObject(members)[p] == Member(members[i].key, SortAll(members[i].value))
  {
    SortedObjectSorts(members);
    assert SortedObject(members)[p] in SortedObject(members);
    i :| 0 <= i < |members| && SortedObject(members)[p] == SortValues(members)[i];
  }

  lemma SortedObjectKeys<D(!new)>(members: seq<Member<Json<D>>>)
    requires DistinctKeys(members)
    ensures Keys(SortedObject(members)) == Keys(members)
  {
    var sorted := SortedObject(members);
    forall key | key in Keys(members)
      ensures key in Keys(sorted)
    {
      var i :| 0 <= i < |members| && members[i].key == key;
      var p := PlaceOf(members, i);
      assert sorted[p].key == key;
    }
    forall key | key in Keys(sorted)
      ensures key in Keys(members)
    {
      var p :| 0 <= p < |sorted| && sorted[p].key == key;
      var i := OriginOf(members, p);
      assert members[i].key == key;
    }
  }

  lemma SamePlace<V>(members: seq<Member<V>>, p: nat, q: nat)
    requires Sorted(members) && p < |members| && q < |members| && members[p].key == members[q].key
    ensures p == q
  {
    BelowTotal(members[p].key, members[q].key);
  }

  lemma {:induction false} SortingKeepsAdmissible<D(!new)>(j: Json<D>)
    requires Admissible(j)
    ensures Admissible(SortAll(j))
  {
    match j
    case Arr(items) =>
      forall i | 0 <= i < |items|
        ensures Admissible(SortItems(items)[i])
      {
        SortingKeepsAdmissible(items[i]);
      }
    case Obj(members) =>
      var sorted := SortedObject(members);
      SortedObjectSorts(members);
      forall p, q | 0 <= p < q < |sorted|
        ensures sorted[p].key != sorted[q].key
      {
        BelowTotal(sorted[p].key, sorted[q].key);
      }
      forall p | 0 <= p < |sorted|
        ensures Admissible(sorted[p].value)
      {
        var i := OriginOf(members, p);
        SortingKeepsAdmissible(members[i].value);
      }
    case _ =>
  }

  // ---- equal trees print alike ----

  lemma {:induction false} AlikePrintsAlike<D(!new)>(doubles: Doubles<D>, a: Json<D>, b: Json<D>)
    requires Faithful(doubles) && Admissible(a) && Admissible(b) && Alike(doubles, a, b)
    ensures Print(doubles, a) == Print(doubles, b)
    decreases a, 1
  {
    if IsNumber(a) && IsNumber(b) {
      SpelledIsExact(doubles, a);
      SpelledIsExact(doubles, b);
      SpelledDecides(doubles, a, b);
    } else if a.Arr? {
      AlikeItems(doubles, a.items, b.items);
    } else if a.Obj? {
      AlikeMembers(doubles, a.members, b.members);
    }
  }

  lemma {:induction false} AlikeItems<D(!new)>(doubles: Doubles<D>, a: seq<Json<D>>, b: seq<Json<D>>)
    requires Faithful(doubles) && |a| == |b|
    requires forall i :: 0 <= i < |a| ==> Admissible(a[i]) && Admissible(b[i]) && Alike(doubles, a[i], b[i])
    ensures PrintItems(doubles, a) == PrintItems(doubles, b)
    decreases a, 0
  {
    if a != [] {
      AlikePrintsAlike(doubles, a[0], b[0]);
      AlikeItems(doubles, a[1..], b[1..]);
    }
  }

  lemma {:induction false} AlikeMembers<D(!new)>(doubles: Doubles<D>, a: seq<Member<Json<D>>>, b: seq<Member<Json<D>>>)
    requires Faithful(doubles) && |a| == |b|
    requires forall i :: 0 <= i < |a| ==> Admissible(a[i].value) && Admissible(b[i].value)
    requires forall i :: 0 <= i < |a| ==> a[i].key == b[i].key && Alike(doubles, a[i].value, b[i].value)
    ensures PrintMembers(doubles, a) == PrintMembers(doubles, b)
    decreases a, 0
  {
    if a != [] {
      AlikePrintsAlike(doubles, a[0].value, b[0].value);
      AlikeMembers(doubles, a[1..], b[1..]);
    }
  }

  // ---- sorting turns equivalence into likeness ----

  lemma {:induction false} SortedAlikeIsEquivalent<D(!new)>(doubles: Doubles<D>, a: Json<D>, b: Json<D>)
    requires Admissible(a) && Admissible(b)
    ensures Alike(doubles, SortAll(a), SortAll(b)) <==> Equivalent(doubles, a, b)
    decreases a, 1
  {
    if a.Arr? && b.Arr? && |a.items| == |b.items| {
      forall i | 0 <= i < |a.items|
        ensures Alike(doubles, SortAll(a.items[i]), SortAll(b.items[i]))
                <==> Equivalent(doubles, a.items[i], b.items[i])
      {
        SortedAlikeIsEquivalent(doubles, a.items[i], b.items[i]);
      }
    } else if a.Obj? && b.Obj? {
      forall i, j | 0 <= i < |a.members| && 0 <= j < |b.members|
        ensures Alike(doubles, SortAll(a.members[i].value), SortAll(b.members[j].value))
                <==> Equivalent(doubles, a.members[i].value, b.members[j].value)
      {
        SortedAlikeIsEquivalent(doubles, a.members[i].value, b.members[j].value);
      }
      ObjectsMatch(doubles, a.members, b.members);
    }
  }

  /** Members match up by key. */
  ghost predicate MatchByKey<D(!new)>(doubles: Doubles<D>, a: seq<Member<Json<D>>>, b: seq<Member<Json<D>>>) {
    && Keys(a) == Keys(b)
    && forall i, j :: 0 <= i < |a| && 0 <= j < |b| && a[i].key == b[j].key ==>
                        Alike(doubles, SortAll(a[i].value), SortAll(b[j].value))
  }

  /** Members match up by position. */
  ghost predicate MatchByPlace<D(!new)>(doubles: Doubles<D>, a: seq<Member<Json<D>>>, b: seq<Member<Json<D>>>) {
    && |a| == |b|
    && forall i :: 0 <= i < |a| ==> a[i].key == b[i].key && Alike(doubles, a[i].value, b[i].value)
  }

  lemma ObjectsMatch<D(!new)>(doubles: Doubles<D>, a: seq<Member<Json<D>>>, b: seq<Member<Json<D>>>)
    requires DistinctKeys(a) && DistinctKeys(b)
    ensures MatchByPlace(doubles, SortedObject(a), SortedObject(b)) <==> MatchByKey(doubles, a, b)
  {
    SortedObjectKeys(a);
    SortedObjectKeys(b);
    if MatchByPlace(doubles, SortedObject(a), SortedObject(b)) {
      PlaceGivesKey(doubles, a, b);
    }
    if MatchByKey(doubles, a, b) {
      KeyGivesPlace(doubles, a, b);
    }
  }

  lemma PlaceGivesKey<D(!new)>(doubles: Doubles<D>, a: seq<Member<Json<D>>>, b: seq<Member<Json<D>>>)
    requires DistinctKeys(a) && DistinctKeys(b)
    requires MatchByPlace(doubles, SortedObject(a), SortedObject(b))
    ensures MatchByKey(doubles, a, b)
  {
    var x, y := SortedObject(a), SortedObject(b);
    SortedObjectKeys(a);
    SortedObjectKeys(b);
    assert Keys(x) == Keys(y) by {
      forall key | key in Keys(x)
        ensures key in Keys(y)
      {
        var p :| 0 <= p < |x| && x[p].key == key;
        assert y[p].key == key;
      }
      forall key | key in Keys(y)
        ensures key in Keys(x)
      {
        var p :| 0 <= p < |y| && y[p].key == key;
        assert x[p].key == key;
      }
    }
    forall i, j | 0 <= i < |a| && 0 <= j < |b| && a[i].key == b[j].key
      ensures Alike(doubles, SortAll(a[i].value), SortAll(b[j].value))
    {
      var p := PlaceOf(a, i);
      var q := PlaceOf(b, j);
      SortedObjectSorts(b);
      assert x[p].key == y[p].key;
      SamePlace(y, p, q);
    }
  }

  lemma KeyGivesPlace<D(!new)>(doubles: Doubles<D>, a: seq<Member<Json<D>>>, b: seq<Member<Json<D>>>)
    requires DistinctKeys(a) && DistinctKeys(b)
    requires MatchByKey(doubles, a, b)
    ensures MatchByPlace(doubles, SortedObject(a), SortedObject(b))
  {
    var x, y := SortedObject(a), SortedObject(b);
    SortedObjectKeys(a);
    SortedObjectKeys(b);
    SortedObjectSorts(a);
    SortedObjectSorts(b);
    SortedByKeys(x, y);
    forall p | 0 <= p < |x|
      ensures x[p].key == y[p].key && Alike(doubles, x[p].value, y[p].value)
    {
      var i := OriginOf(a, p);
      var j := OriginOf(b, p);
      assert a[i].key == b[j].key;
    }
  }

  /** Injective and order-blind: the text is equal exactly when the values are. */
  lemma CanonicalTextDecidesEquality<D(!new)>(doubles: Doubles<D>, a: Json<D>, b: Json<D>)
    requires Faithful(doubles) && Admissible(a) && Admissible(b)
    ensures Canonicalize(doubles, a) == Canonicalize(doubles, b) <==> Equivalent(doubles, a, b)
  {
    SortedAlikeIsEquivalent(doubles, a, b);
    SortingKeepsAdmissible(a);
    SortingKeepsAdmissible(b);
    if Alike(doubles, SortAll(a), SortAll(b)) {
      AlikePrintsAlike(doubles, SortAll(a), SortAll(b));
    }
    if Canonicalize(doubles, a) == Canonicalize(doubles, b) {
      PrintDecodes(doubles, SortAll(a), SortAll(b), [], []);
    }
  }

  /** Texts written one after another, each followed by a delimiter, can be told apart again. */
  lemma CanonicalTextIsSelfDelimiting<D(!new)>(doubles: Doubles<D>, a: Json<D>, b: Json<D>, x: Text, y: Text)
    requires Faithful(doubles) && Admissible(a) && Admissible(b) && Delimited(x) && Delimited(y)
    ensures Canonicalize(doubles, a) + x == Canonicalize(doubles, b) + y <==> Equivalent(doubles, a, b) && x == y
  {
    CanonicalTextDecidesEquality(doubles, a, b);
    SortedAlikeIsEquivalent(doubles, a, b);
    SortingKeepsAdmissible(a);
    SortingKeepsAdmissible(b);
    if Canonicalize(doubles, a) + x == Canonicalize(doubles, b) + y {
      PrintDecodes(doubles, SortAll(a), SortAll(b), x, y);
    }
  }
}
