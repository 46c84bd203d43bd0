/** Equalities between sequences cut and joined at different places. */
module Sequences {

  lemma SplitAt<T>(s: seq<T>, k: nat)
    requires k < |s|
    ensures s == s[..k] + [s[k]] + s[k + 1..]
  {
  }

  lemma AppendNothing<T>(s: seq<T>)
    ensures s + [] == s && [] + s == s
  {
  }

  lemma Associate<T>(a: seq<T>, b: seq<T>, c: seq<T>)
    ensures (a + b) + c == a + (b + c)
  {
  }

  /** The last element of the second part is the last element of the whole. */
  lemma LastOfJoin<T>(p: seq<T>, q: seq<T>)
    requires q != []
    ensures p + q == (p + q[..|q| - 1]) + [q[|q| - 1]]
    ensures q == q[..|q| - 1] + [q[|q| - 1]]
  {
  }

  lemma PrefixOfPrefix<T>(s: seq<T>, n: nat, k: nat)
    requires k <= n <= |s|
    ensures s[..n][..k] == s[..k]
    ensures forall i :: 0 <= i < n ==> s[..n][i] == s[i]
  {
  }

  lemma TailOfPrefix<T>(s: seq<T>, n: nat)
    requires 0 < n <= |s|
    ensures s[..n][1..] == s[1..][..n - 1] && s[..n][0] == s[0]
    ensures forall i :: 0 < i < |s| ==> s[i] == s[1..][i - 1]
  {
  }

  /** What relates the heads and the tails relates every place. */
  lemma PointwiseTail<S, T>(a: seq<S>, b: seq<T>, related: (S, T) -> bool)
    requires a != [] && |a| == |b| && related(a[0], b[0])
    requires forall i :: 0 <= i < |a[1..]| ==> related(a[1..][i], b[1..][i])
    ensures forall i :: 0 <= i < |a| ==> related(a[i], b[i])
  {
    forall i | 0 <= i < |a|
      ensures related(a[i], b[i])
    {
      assert i > 0 ==> a[i] == a[1..][i - 1] && b[i] == b[1..][i - 1];
    }
  }

  /** What stands outside the middle part occurs in an outer one. */
  lemma OutsideTheMiddle<T>(a: seq<T>, b: seq<T>, c: seq<T>, k: nat)
    requires k < |a + b + c| && !(|a| <= k < |a| + |b|)
    ensures (a + b + c)[k] in a || (a + b + c)[k] in c
  {
    assert (a + b + c)[k] == if k < |a| then a[k] else c[k - |a| - |b|];
  }

  lemma FrontOfSnoc<T>(s: seq<T>, x: T)
    ensures (s + [x])[..|s|] == s && (s + [x])[|s|] == x && |s + [x]| == |s| + 1
  {
  }
}
