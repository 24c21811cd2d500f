/** Memory blocks that tile an arena: each block is a header of h bytes followed by its payload. */
module Tiling {

  datatype Seg = Seg(len: nat, free: bool)

  function Total(h: nat, segs: seq<Seg>): nat
  {
    if segs == [] then 0 else h + segs[0].len + Total(h, segs[1..])
  }

  /** Address of the header of segment i; for i == |segs| the first address past the heap. */
  function Addr(h: nat, base: nat, segs: seq<Seg>, i: nat): nat
    requires i <= |segs|
  {
    base + Total(h, segs[..i])
  }

  /** The allocated payloads, as pairs of address and length. */
  function Live(h: nat, base: nat, segs: seq<Seg>): set<(nat, nat)>
    decreases |segs|
  {
    if segs == [] then {}
    else
      (if segs[0].free then {} else {(base + h, segs[0].len)})
      + Live(h, base + h + segs[0].len, segs[1..])
  }

  function MergeRight(h: nat, segs: seq<Seg>, i: nat): seq<Seg>
    requires i < |segs|
  {
    if i + 1 < |segs| && segs[i].free && segs[i + 1].free
    then segs[..i] + [Seg(segs[i].len + h + segs[i + 1].len, true)] + segs[i + 2..]
    else segs
  }

  /** Segments k and k + 1 are both free. */
  predicate FreePair(segs: seq<Seg>, k: int)
  {
    0 <= k < |segs| - 1 && segs[k].free && segs[k + 1].free
  }

  ghost predicate NoAdjacentFree(segs: seq<Seg>)
  {
    forall k :: !FreePair(segs, k)
  }

  /** Merging at i removes the free pair at i and creates no other. */
  lemma MergePairs(h: nat, segs: seq<Seg>, i: nat, k: int)
    requires i < |segs| && FreePair(MergeRight(h, segs, i), k)
    ensures if FreePair(segs, i) && k >= i then FreePair(segs, k + 1) else k != i && FreePair(segs, k)
  {
    var m := MergeRight(h, segs, i);
    if FreePair(segs, i) {
      assert m[..i] == segs[..i] && m[i + 1..] == segs[i + 2..];
      if k < i {
        assert m[k] == segs[k];
      } else if k > i {
        assert m[k] == segs[k + 1];
      }
    }
  }

  /** Freeing one segment and merging it both ways leaves no two adjacent free segments. */
  lemma FreeShape(h: nat, segs: seq<Seg>, i: nat)
    requires NoAdjacentFree(segs) && i < |segs|
    ensures NoAdjacentFree(FreeSpec(h, segs, i))
  {
    var f := segs[i := Seg(segs[i].len, true)];
    var r := MergeRight(h, f, i);
    var t := FreeSpec(h, segs, i);
    assert forall k :: FreePair(f, k) ==> FreePair(segs, k) || k == i || k == i - 1;
    forall k | FreePair(r, k) ensures i > 0 && k == i - 1 {
      MergePairs(h, f, i, k);
    }
    forall k ensures !FreePair(t, k) {
      if FreePair(t, k) && i > 0 {
        MergePairs(h, r, i - 1, k);
      }
    }
  }

  /** Segment i becomes free and is merged with its free neighbours. */
  function FreeSpec(h: nat, segs: seq<Seg>, i: nat): seq<Seg>
    requires i < |segs|
  {
    var right := MergeRight(h, segs[i := Seg(segs[i].len, true)], i);
    if i > 0 then MergeRight(h, right, i - 1) else right
  }

  lemma {:induction false} TotalConcat(h: nat, a: seq<Seg>, b: seq<Seg>)
    ensures Total(h, a + b) == Total(h, a) + Total(h, b)
  {
    if a == [] {
      assert a + b == b;
    } else {
      assert (a + b)[1..] == a[1..] + b;
      TotalConcat(h, a[1..], b);
    }
  }

  lemma {:induction false} LiveConcat(h: nat, base: nat, a: seq<Seg>, b: seq<Seg>)
    ensures Live(h, base, a + b) == Live(h, base, a) + Live(h, base + Total(h, a), b)
    decreases |a|
  {
    if a == [] {
      assert a + b == b;
    } else {
      assert (a + b)[1..] == a[1..] + b;
      LiveConcat(h, base + h + a[0].len, a[1..], b);
    }
  }

  /** All live payloads lie inside the heap, behind the first header. */
  lemma {:induction false} LiveInside(h: nat, base: nat, segs: seq<Seg>, p: (nat, nat))
    requires p in Live(h, base, segs)
    ensures base + h <= p.0 && p.0 + p.1 <= base + Total(h, segs)
    decreases |segs|
  {
    if segs[0].free || p != (base + h, segs[0].len) {
      LiveInside(h, base + h + segs[0].len, segs[1..], p);
    }
  }

  /** Two live payloads never overlap; there is even a header between them. */
  lemma {:induction false} LiveDisjoint(h: nat, base: nat, segs: seq<Seg>, p: (nat, nat), q: (nat, nat))
    requires p in Live(h, base, segs) && q in Live(h, base, segs) && p != q
    ensures p.0 + p.1 + h <= q.0 || q.0 + q.1 + h <= p.0
    decreases |segs|
  {
    var rest := base + h + segs[0].len;
    var head := (base + h, segs[0].len);
    if p == head && !segs[0].free && q in Live(h, rest, segs[1..]) {
      LiveInside(h, rest, segs[1..], q);
    } else if q == head && !segs[0].free && p in Live(h, rest, segs[1..]) {
      LiveInside(h, rest, segs[1..], p);
    } else {
      LiveDisjoint(h, rest, segs[1..], p, q);
    }
  }

  /** The live payloads around one segment. */
  lemma LiveAround(h: nat, base: nat, segs: seq<Seg>, i: nat)
    requires i < |segs|
    ensures Total(h, segs) == Total(h, segs[..i]) + h + segs[i].len + Total(h, segs[i + 1..])
    ensures Live(h, base, segs) ==
            Live(h, base, segs[..i])
            + (if segs[i].free then {} else {(Addr(h, base, segs, i) + h, segs[i].len)})
            + Live(h, Addr(h, base, segs, i) + h + segs[i].len, segs[i + 1..])
  {
    assert segs == segs[..i] + segs[i..];
    TotalConcat(h, segs[..i], segs[i..]);
    LiveConcat(h, base, segs[..i], segs[i..]);
    assert segs[i..][1..] == segs[i + 1..];
  }

  lemma NewPayload(h: nat, base: nat, segs: seq<Seg>, i: nat, len: nat)
    requires h > 0 && i < |segs| && segs[i].free
    ensures (Addr(h, base, segs, i) + h, len) !in Live(h, base, segs)
  {
    var p := (Addr(h, base, segs, i) + h, len);
    LiveAround(h, base, segs, i);
    if p in Live(h, base, segs[..i]) {
      LiveInside(h, base, segs[..i], p);
    } else if p in Live(h, Addr(h, base, segs, i) + h + segs[i].len, segs[i + 1..]) {
      LiveInside(h, Addr(h, base, segs, i) + h + segs[i].len, segs[i + 1..], p);
    }
  }

  lemma MergeEffect(h: nat, base: nat, segs: seq<Seg>, i: nat)
    requires i < |segs|
    ensures Total(h, MergeRight(h, segs, i)) == Total(h, segs)
    ensures Live(h, base, MergeRight(h, segs, i)) == Live(h, base, segs)
  {
    if i + 1 < |segs| && segs[i].free && segs[i + 1].free {
      var m := MergeRight(h, segs, i);
      LiveAround(h, base, segs, i);
      LiveAround(h, base, m, i);
      assert m[..i] == segs[..i] && m[i + 1..] == segs[i + 2..];
      assert segs[i + 1..][1..] == segs[i + 2..];
    }
  }

  lemma Split3<T>(s: seq<T>, i: nat)
    requires i < |s|
    ensures s == s[..i] + [s[i]] + s[i + 1..]
  {
  }

  /** Total and payloads of a tiling around one segment. */
  lemma LiveParts(h: nat, base: nat, p: seq<Seg>, x: Seg, r: seq<Seg>)
    ensures Total(h, p + [x] + r) == Total(h, p) + h + x.len + Total(h, r)
    ensures Live(h, base, p + [x] + r) ==
            Live(h, base, p) + (if x.free then {} else {(base + Total(h, p) + h, x.len)})
            + Live(h, base + Total(h, p) + h + x.len, r)
  {
    var s := p + [x] + r;
    LiveAround(h, base, s, |p|);
    assert s[..|p|] == p && s[|p|] == x && s[|p| + 1..] == r;
  }

  /** Taking a free segment into use adds its payload and nothing else. */
  lemma OccupyParts(h: nat, base: nat, p: seq<Seg>, len: nat, r: seq<Seg>)
    ensures Total(h, p + [Seg(len, false)] + r) == Total(h, p + [Seg(len, true)] + r)
    ensures Live(h, base, p + [Seg(len, false)] + r) ==
            Live(h, base, p + [Seg(len, true)] + r) + {(base + Total(h, p) + h, len)}
  {
    LiveParts(h, base, p, Seg(len, false), r);
    LiveParts(h, base, p, Seg(len, true), r);
  }

  /** Cutting a free segment in two changes neither the total nor the payloads. */
  lemma CutParts(h: nat, base: nat, p: seq<Seg>, n: nat, m: nat, r: seq<Seg>)
    ensures Total(h, p + [Seg(n, true)] + ([Seg(m, true)] + r)) == Total(h, p + [Seg(n + h + m, true)] + r)
    ensures Live(h, base, p + [Seg(n, true)] + ([Seg(m, true)] + r)) == Live(h, base, p + [Seg(n + h + m, true)] + r)
  {
    LiveParts(h, base, p, Seg(n, true), [Seg(m, true)] + r);
    LiveParts(h, base + Total(h, p) + h + n, [], Seg(m, true), r);
    LiveParts(h, base, p, Seg(n + h + m, true), r);
    assert [] + [Seg(m, true)] + r == [Seg(m, true)] + r;
  }

  /** Cutting and taking the front part. */
  lemma CutAndOccupy(h: nat, base: nat, p: seq<Seg>, n: nat, m: nat, r: seq<Seg>)
    ensures Total(h, p + [Seg(n, false), Seg(m, true)] + r) == Total(h, p + [Seg(n + h + m, true)] + r)
    ensures Live(h, base, p + [Seg(n, false), Seg(m, true)] + r) ==
            Live(h, base, p + [Seg(n + h + m, true)] + r) + {(base + Total(h, p) + h, n)}
  {
    CutParts(h, base, p, n, m, r);
    OccupyParts(h, base, p, n, [Seg(m, true)] + r);
    assert p + [Seg(n, false), Seg(m, true)] + r == p + [Seg(n, false)] + ([Seg(m, true)] + r);
  }

  lemma FlagEffect(h: nat, base: nat, segs: seq<Seg>, i: nat)
    requires h > 0 && i < |segs|
    ensures var f := segs[i := Seg(segs[i].len, true)];
            && Total(h, f) == Total(h, segs)
            && Live(h, base, f) == Live(h, base, segs) - {(Addr(h, base, segs, i) + h, segs[i].len)}
  {
    var f, len := segs[i := Seg(segs[i].len, true)], segs[i].len;
    var p, r := segs[..i], segs[i + 1..];
    Split3(segs, i);
    Split3(f, i);
    assert f[..i] == p && f[i + 1..] == r;
    OccupyParts(h, base, p, len, r);
    NewPayload(h, base, f, i, len);
    AddrSame(h, base, f, segs, i);
  }

  lemma AddrStep(h: nat, base: nat, segs: seq<Seg>, i: nat)
    requires i < |segs|
    ensures Addr(h, base, segs, i + 1) == Addr(h, base, segs, i) + h + segs[i].len
  {
    assert segs[..i + 1] == segs[..i] + [segs[i]];
    TotalConcat(h, segs[..i], [segs[i]]);
  }

  lemma {:induction false} AddrIncreasing(h: nat, base: nat, segs: seq<Seg>, i: nat, j: nat)
    requires i < j <= |segs|
    ensures Addr(h, base, segs, i) + h + segs[i].len <= Addr(h, base, segs, j)
    decreases j - i
  {
    AddrStep(h, base, segs, j - 1);
    if i < j - 1 {
      AddrIncreasing(h, base, segs, i, j - 1);
    }
  }

  lemma AddrSame(h: nat, base: nat, a: seq<Seg>, b: seq<Seg>, i: nat)
    requires i <= |a| && i <= |b| && a[..i] == b[..i]
    ensures Addr(h, base, a, i) == Addr(h, base, b, i)
  {
  }

  lemma FlagAddresses(h: nat, base: nat, segs: seq<Seg>, i: nat, free: bool)
    requires i < |segs|
    ensures forall j :: 0 <= j <= |segs| ==>
            Addr(h, base, segs[i := Seg(segs[i].len, free)], j) == Addr(h, base, segs, j)
  {
    var t := segs[i := Seg(segs[i].len, free)];
    forall j | 0 <= j <= |segs| ensures Addr(h, base, t, j) == Addr(h, base, segs, j) {
      if j <= i {
        assert t[..j] == segs[..j];
      } else {
        assert t[..j] == t[..i] + [t[i]] + t[i + 1..j];
        assert segs[..j] == segs[..i] + [segs[i]] + segs[i + 1..j];
        TotalConcat(h, t[..i] + [t[i]], t[i + 1..j]);
        TotalConcat(h, segs[..i] + [segs[i]], segs[i + 1..j]);
        TotalConcat(h, t[..i], [t[i]]);
        TotalConcat(h, segs[..i], [segs[i]]);
        assert t[..i] == segs[..i] && t[i + 1..j] == segs[i + 1..j];
      }
    }
  }
}
