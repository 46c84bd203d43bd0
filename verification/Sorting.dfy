/** Insertion into sorted sequences under a strict order; for rows without ties the outcome is unique. */
module Sorting {

  ghost predicate Transitive<T(!new)>(less: (T, T) -> bool) {
    forall a, b, c {:trigger less(a, b), less(b, c)} :: less(a, b) && less(b, c) ==> less(a, c)
  }

  ghost predicate Irreflexive<T(!new)>(less: (T, T) -> bool) {
    forall a {:trigger less(a, a)} :: !less(a, a)
  }

  ghost predicate StrictOrder<T(!new)>(less: (T, T) -> bool) {
    Transitive(less) && Irreflexive(less)
  }

  /** No element occurs twice and any two are ordered one way or the other. */
  ghost predicate NoTies<T>(s: seq<T>, less: (T, T) -> bool) {
    forall i, j :: 0 <= i < j < |s| ==> less(s[i], s[j]) || less(s[j], s[i])
  }

  ghost predicate Sorted<T>(s: seq<T>, less: (T, T) -> bool) {
    forall i, j :: 0 <= i < j < |s| ==> less(s[i], s[j])
  }

  function Insert<T>(x: T, s: seq<T>, less: (T, T) -> bool): seq<T> {
    if s == [] || less(x, s[0]) then [x] + s else [s[0]] + Insert(x, s[1..], less)
  }

  function Sort<T>(s: seq<T>, less: (T, T) -> bool): seq<T> {
    if s == [] then [] else Insert(s[0], Sort(s[1..], less), less)
  }

  lemma {:induction false} InsertKeeps<T>(x: T, s: seq<T>, less: (T, T) -> bool)
    ensures multiset(Insert(x, s, less)) == multiset(s) + multiset{x}
  {
    if s != [] && !less(x, s[0]) {
      InsertKeeps(x, s[1..], less);
      assert s == [s[0]] + s[1..];
    }
  }

  /** Sorting permutes. */
  lemma {:induction false} SortKeeps<T>(s: seq<T>, less: (T, T) -> bool)
    ensures multiset(Sort(s, less)) == multiset(s)
  {
    if s != [] {
      SortKeeps(s[1..], less);
      InsertKeeps(s[0], Sort(s[1..], less), less);
      assert s == [s[0]] + s[1..];
    }
  }

  lemma SameMembers<T>(a: seq<T>, b: seq<T>)
    requires multiset(a) == multiset(b)
    ensures forall x :: x in a <==> x in b
  {
    forall x
      ensures x in a <==> x in b
    {
      assert x in a <==> x in multiset(a);
      assert x in b <==> x in multiset(b);
    }
  }

  lemma {:induction false} InsertSorts<T(!new)>(x: T, s: seq<T>, less: (T, T) -> bool)
    requires StrictOrder(less) && Sorted(s, less) && forall y :: y in s ==> less(x, y) || less(y, x)
    ensures Sorted(Insert(x, s, less), less)
  {
    if s == [] {
    } else if less(x, s[0]) {
      forall j | 0 <= j < |s|
        ensures less(x, s[j])
      {
        assert j > 0 ==> less(s[0], s[j]);
      }
    } else {
      InsertSorts(x, s[1..], less);
      var rest := Insert(x, s[1..], less);
      InsertKeeps(x, s[1..], less);
      forall j | 0 <= j < |rest|
        ensures less(s[0], rest[j])
      {
        assert rest[j] in multiset(rest);
        assert rest[j] == x || rest[j] in s[1..];
        assert s[0] in s;
      }
    }
  }

  lemma {:induction false} SortSorts<T(!new)>(s: seq<T>, less: (T, T) -> bool)
    requires StrictOrder(less) && NoTies(s, less)
    ensures Sorted(Sort(s, less), less)
  {
    if s != [] {
      assert NoTies(s[1..], less) by {
        forall i, j | 0 <= i < j < |s[1..]|
          ensures less(s[1..][i], s[1..][j]) || less(s[1..][j], s[1..][i])
        {
          assert less(s[i + 1], s[j + 1]) || less(s[j + 1], s[i + 1]);
        }
      }
      SortSorts(s[1..], less);
      SortKeeps(s[1..], less);
      SameMembers(Sort(s[1..], less), s[1..]);
      forall y | y in Sort(s[1..], less)
        ensures less(s[0], y) || less(y, s[0])
      {
        var j :| 0 <= j < |s[1..]| && s[1..][j] == y;
        assert s[j + 1] == y;
      }
      InsertSorts(s[0], Sort(s[1..], less), less);
    }
  }

  lemma OneWay<T(!new)>(x: T, y: T, less: (T, T) -> bool)
    requires StrictOrder(less)
    ensures !(less(x, y) && less(y, x))
  {
    assert less(x, y) && less(y, x) ==> less(x, x);
  }

  lemma TailMultiset<T>(a: seq<T>)
    requires a != []
    ensures multiset(a) == multiset(a[1..]) + multiset{a[0]}
  {
    assert a == [a[0]] + a[1..];
  }

  lemma Cancel<T>(a: multiset<T>, b: multiset<T>, c: multiset<T>)
    requires a + c == b + c
    ensures a == b
  {
    assert a == (a + c) - c && b == (b + c) - c;
  }

  /** Two sorted sequences with the same elements are the same. */
  lemma {:induction false} SortedUnique<T(!new)>(a: seq<T>, b: seq<T>, less: (T, T) -> bool)
    requires StrictOrder(less) && Sorted(a, less) && Sorted(b, less) && multiset(a) == multiset(b)
    ensures a == b
  {
    assert |a| == |multiset(a)| && |b| == |multiset(b)|;
    if a == [] {
    } else {
      SameMembers(a, b);
      assert a[0] in a && b[0] in b;
      TailMultiset(a);
      TailMultiset(b);
      Cancel(multiset(a[1..]), multiset(b[1..]), multiset{a[0]});
      SortedUnique(a[1..], b[1..], less);
      assert a == [a[0]] + a[1..] && b == [b[0]] + b[1..];
    }
  }

  /** The result depends only on which elements there are. */
  lemma SortOfPermutation<T(!new)>(a: seq<T>, b: seq<T>, less: (T, T) -> bool)
    requires StrictOrder(less) && NoTies(a, less) && NoTies(b, less) && multiset(a) == multiset(b)
    ensures Sort(a, less) == Sort(b, less)
  {
    SortSorts(a, less);
    SortSorts(b, less);
    SortKeeps(a, less);
    SortKeeps(b, less);
    SortedUnique(Sort(a, less), Sort(b, less), less);
  }

  function Without<T>(s: seq<T>, k: nat): seq<T>
    requires k < |s|
  {
    s[..k] + s[k + 1..]
  }

  lemma WithoutMultiset<T>(s: seq<T>, k: nat)
    requires k < |s|
    ensures multiset(s) == multiset(Without(s, k)) + multiset{s[k]}
  {
    assert s == s[..k] + ([s[k]] + s[k + 1..]);
  }

  lemma CutOut<T(!new)>(s: seq<T>, t: seq<T>, x: T, less: (T, T) -> bool) returns (k: nat)
    requires StrictOrder(less) && Sorted(s, less) && Sorted(t, less) && multiset(s) == multiset(t) + multiset{x}
    ensures k < |s| && s[k] == x && t == Without(s, k)
  {
    assert x in multiset(s);
    k :| 0 <= k < |s| && s[k] == x;
    WithoutMultiset(s, k);
    Cancel(multiset(t), multiset(Without(s, k)), multiset{x});
    SortedUnique(t, Without(s, k), less);
  }

  /** One element fewer: the same sequence with that element cut out. */
  lemma SortWithout<T(!new)>(a: seq<T>, b: seq<T>, x: T, less: (T, T) -> bool) returns (k: nat)
    requires StrictOrder(less) && NoTies(a, less) && NoTies(b, less) && multiset(a) == multiset(b) + multiset{x}
    ensures k < |Sort(a, less)| && Sort(a, less)[k] == x && Sort(b, less) == Without(Sort(a, less), k)
  {
    SortSorts(a, less);
    SortSorts(b, less);
    SortKeeps(a, less);
    SortKeeps(b, less);
    k := CutOut(Sort(a, less), Sort(b, less), x, less);
  }
}
