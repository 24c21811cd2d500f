/** Counting the elements of a sequence that satisfy a predicate. */
module Counting {

  function Count<T>(s: seq<T>, p: T -> bool): nat
  {
    if s == [] then 0
    else Count(s[..|s| - 1], p) + (if p(s[|s| - 1]) then 1 else 0)
  }

  lemma {:induction false} CountUpdate<T>(s: seq<T>, i: nat, v: T, p: T -> bool)
    requires i < |s|
    ensures Count(s[i := v], p) == Count(s, p) - (if p(s[i]) then 1 else 0) + (if p(v) then 1 else 0)
  {
    var n := |s| - 1;
    if i == n {
      assert s[i := v][..n] == s[..n];
    } else {
      assert s[i := v][..n] == s[..n][i := v];
      CountUpdate(s[..n], i, v, p);
    }
  }

  lemma {:induction false} CountBounds<T>(s: seq<T>, p: T -> bool)
    ensures Count(s, p) <= |s|
    ensures Count(s, p) == 0 <==> forall i :: 0 <= i < |s| ==> !p(s[i])
    ensures Count(s, p) == |s| <==> forall i :: 0 <= i < |s| ==> p(s[i])
  {
    if s != [] {
      var n := |s| - 1;
      CountBounds(s[..n], p);
      assert forall i :: 0 <= i < n ==> s[..n][i] == s[i];
    }
  }

  /** An element outside the counted ones bounds the count strictly. */
  lemma CountStrict<T>(s: seq<T>, i: nat, p: T -> bool)
    requires i < |s| && !p(s[i])
    ensures Count(s, p) < |s|
  {
    CountBounds(s, p);
  }

  /** Two distinct positions that satisfy the predicate are both counted. */
  lemma {:induction false} CountPair<T>(s: seq<T>, i: nat, j: nat, p: T -> bool)
    requires i < j < |s| && p(s[i]) && p(s[j])
    ensures Count(s, p) >= 2
  {
    var n := |s| - 1;
    if j == n {
      CountBounds(s[..n], p);
      assert s[..n][i] == s[i];
    } else {
      CountPair(s[..n], i, j, p);
    }
  }

  lemma {:induction false} CountConcat<T>(a: seq<T>, b: seq<T>, p: T -> bool)
    ensures Count(a + b, p) == Count(a, p) + Count(b, p)
  {
    if b == [] {
      assert a + b == a;
    } else {
      var n := |b| - 1;
      assert (a + b)[..|a| + n] == a + b[..n];
      CountConcat(a, b[..n], p);
    }
  }

  /** Pigeonhole: a duplicate-free sequence of numbers below n has at most n elements. */
  lemma {:induction false} Pigeonhole(s: seq<nat>, n: nat)
    requires forall i :: 0 <= i < |s| ==> s[i] < n
    requires forall i, j :: 0 <= i < j < |s| ==> s[i] != s[j]
    ensures |s| <= n
  {
    if s == [] {
      return;
    }
    assert s[0] < n;
    if n - 1 in s {
      var k :| 0 <= k < |s| && s[k] == n - 1;
      var t := s[..k] + s[k + 1..];
      assert forall i :: 0 <= i < |t| ==> t[i] == if i < k then s[i] else s[i + 1];
      Pigeonhole(t, n - 1);
    } else {
      Pigeonhole(s, n - 1);
    }
  }

  /** Elements leave the count exactly where the second predicate holds. */
  lemma {:induction false} CountSplit<T>(s: seq<T>, r: seq<T>, p: T -> bool, leaves: T -> bool)
    requires |r| == |s|
    requires forall i :: 0 <= i < |s| ==> p(r[i]) == (p(s[i]) && !leaves(s[i]))
    requires forall i :: 0 <= i < |s| && leaves(s[i]) ==> p(s[i])
    ensures Count(r, p) + Count(s, leaves) == Count(s, p)
  {
    if s != [] {
      var n := |s| - 1;
      CountSplit(s[..n], r[..n], p, leaves);
    }
  }

  lemma {:induction false} CountSame<T>(s: seq<T>, r: seq<T>, p: T -> bool)
    requires |r| == |s| && forall i :: 0 <= i < |s| ==> p(r[i]) == p(s[i])
    ensures Count(r, p) == Count(s, p)
  {
    if s != [] {
      var n := |s| - 1;
      CountSame(s[..n], r[..n], p);
    }
  }

  lemma {:induction false} CountAlike<T>(s: seq<T>, p: T -> bool, q: T -> bool)
    requires forall i :: 0 <= i < |s| ==> p(s[i]) == q(s[i])
    ensures Count(s, p) == Count(s, q)
  {
    if s != [] {
      CountAlike(s[..|s| - 1], p, q);
    }
  }
}
