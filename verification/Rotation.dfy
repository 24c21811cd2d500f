/** Circular order on duplicate-free sequences of task ids. */
module Rotation {

  predicate Distinct(s: seq<nat>) { forall i, j :: 0 <= i < j < |s| ==> s[i] != s[j] }

  function IndexOf(s: seq<nat>, x: nat): (i: nat)
    ensures i <= |s|
    ensures i < |s| ==> s[i] == x
    ensures forall j :: 0 <= j < i ==> s[j] != x
    ensures x in s ==> i < |s|
  {
    if s == [] || s[0] == x then 0 else 1 + IndexOf(s[1..], x)
  }

  lemma IndexOfAt(s: seq<nat>, i: nat)
    requires Distinct(s) && i < |s|
    ensures IndexOf(s, s[i]) == i
  {
  }

  /** The circle read from just after position p, ending with position p itself. */
  function From(s: seq<nat>, p: nat): seq<nat>
    requires p < |s|
  {
    s[p + 1..] + s[..p + 1]
  }

  /** The circle read from just after x. */
  function After(s: seq<nat>, x: nat): seq<nat>
    requires x in s
  {
    From(s, IndexOf(s, x))
  }

  lemma FromIndex(s: seq<nat>, p: nat, k: nat)
    requires p < |s| && k < |s|
    ensures From(s, p)[k] == if p + 1 + k < |s| then s[p + 1 + k] else s[p + 1 + k - |s|]
  {
  }

  lemma AfterHolds(s: seq<nat>, x: nat, y: nat)
    requires Distinct(s) && x in s
    ensures y in After(s, x) <==> y in s
    ensures Distinct(After(s, x)) && |After(s, x)| == |s| && After(s, x)[|s| - 1] == x
  {
    var p := IndexOf(s, x);
    assert s == s[..p + 1] + s[p + 1..];
  }

  /** Going on from the k-th element turns the circle by k + 1. */
  lemma Turn(s: seq<nat>, x: nat, k: nat)
    requires Distinct(s) && x in s && k < |s|
    ensures After(s, x)[k] in s
    ensures After(s, After(s, x)[k]) == After(s, x)[k + 1..] + After(s, x)[..k + 1]
  {
    AfterHolds(s, x, x);
    var p := IndexOf(s, x);
    FromIndex(s, p, k);
    var q := if p + 1 + k < |s| then p + 1 + k else p + 1 + k - |s|;
    IndexOfAt(s, q);
    if p + 1 + k < |s| {
      TurnShort(s, p, k);
    } else {
      TurnLong(s, p, k);
    }
  }

  lemma TurnShort(s: seq<nat>, p: nat, k: nat)
    requires p + 1 + k < |s|
    ensures From(s, p + 1 + k) == From(s, p)[k + 1..] + From(s, p)[..k + 1]
  {
    assert From(s, p)[k + 1..] == s[p + k + 2..] + s[..p + 1];
    assert From(s, p)[..k + 1] == s[p + 1..p + k + 2];
    assert s[..p + k + 2] == s[..p + 1] + s[p + 1..p + k + 2];
  }

  lemma TurnLong(s: seq<nat>, p: nat, k: nat)
    requires p < |s| <= p + 1 + k && k < |s|
    ensures From(s, p + 1 + k - |s|) == From(s, p)[k + 1..] + From(s, p)[..k + 1]
  {
    var q := p + 1 + k - |s|;
    assert From(s, p)[k + 1..] == s[q + 1..p + 1];
    assert From(s, p)[..k + 1] == s[p + 1..] + s[..q + 1];
    assert s[q + 1..] == s[q + 1..p + 1] + s[p + 1..];
  }

  /** An element beyond the k-th is k + 1 closer after the turn. */
  lemma TurnCloser(s: seq<nat>, x: nat, k: nat, y: nat)
    requires Distinct(s) && x in s && y in s && k < IndexOf(After(s, x), y)
    ensures y in After(s, x) && k < |s| && After(s, x)[k] in s
    ensures IndexOf(After(s, After(s, x)[k]), y) == IndexOf(After(s, x), y) - k - 1
  {
    AfterHolds(s, x, y);
    Turn(s, x, k);
    AfterHolds(s, After(s, x)[k], y);
    var j := IndexOf(After(s, x), y);
    assert After(s, After(s, x)[k])[j - k - 1] == y;
    IndexOfAt(After(s, After(s, x)[k]), j - k - 1);
  }

  // --- taking elements out ---

  function Remove(s: seq<nat>, gone: set<nat>): seq<nat>
  {
    if s == [] then []
    else (if s[0] in gone then [] else [s[0]]) + Remove(s[1..], gone)
  }

  lemma {:induction false} RemoveConcat(a: seq<nat>, b: seq<nat>, gone: set<nat>)
    ensures Remove(a + b, gone) == Remove(a, gone) + Remove(b, gone)
  {
    if a == [] {
      assert a + b == b;
    } else {
      assert (a + b)[1..] == a[1..] + b;
      RemoveConcat(a[1..], b, gone);
    }
  }

  lemma {:induction false} RemoveHolds(s: seq<nat>, gone: set<nat>, x: nat)
    ensures x in Remove(s, gone) <==> x in s && x !in gone
  {
    if s != [] {
      RemoveHolds(s[1..], gone, x);
      assert s == [s[0]] + s[1..];
    }
  }

  lemma {:induction false} RemoveDistinct(s: seq<nat>, gone: set<nat>)
    requires Distinct(s)
    ensures Distinct(Remove(s, gone))
  {
    if s != [] {
      var t := Remove(s[1..], gone);
      RemoveDistinct(s[1..], gone);
      forall j | 0 <= j < |t|
        ensures t[j] != s[0]
      {
        RemoveHolds(s[1..], gone, t[j]);
      }
    }
  }

  /** Removing others never moves an element further back. */
  lemma {:induction false} RemoveCloser(s: seq<nat>, gone: set<nat>, x: nat)
    requires x in s && x !in gone
    ensures x in Remove(s, gone) && IndexOf(Remove(s, gone), x) <= IndexOf(s, x)
  {
    RemoveHolds(s, gone, x);
    if s[0] != x {
      assert s == [s[0]] + s[1..];
      RemoveCloser(s[1..], gone, x);
      var t := Remove(s[1..], gone);
      if s[0] !in gone {
        assert Remove(s, gone) == [s[0]] + t && ([s[0]] + t)[1..] == t;
      } else {
        assert Remove(s, gone) == t;
      }
    }
  }

  /** Removal commutes with reading the circle from a kept element. */
  lemma RemoveAfter(s: seq<nat>, gone: set<nat>, x: nat)
    requires Distinct(s) && x in s && x !in gone
    ensures x in Remove(s, gone)
    ensures After(Remove(s, gone), x) == Remove(After(s, x), gone)
  {
    var p := IndexOf(s, x);
    var a, b := s[..p], s[p + 1..];
    assert s == a + [x] + b;
    RemoveConcat(a + [x], b, gone);
    RemoveConcat(a, [x], gone);
    RemoveConcat(b, a + [x], gone);
    assert Remove([x], gone) == [x];
    var ra, rb := Remove(a, gone), Remove(b, gone);
    RemoveDistinct(s, gone);
    assert Remove(s, gone) == ra + [x] + rb;
    assert (ra + [x] + rb)[|ra|] == x;
    IndexOfAt(Remove(s, gone), |ra|);
    assert After(s, x) == b + (a + [x]);
    assert After(Remove(s, gone), x) == rb + (ra + [x]);
  }
}
