/** The userspace operator new / operator delete of userspace/sdk/runtime.cpp: a singly linked,
    address-sorted free list with coalescing. */
module UserHeap {
  import opened Tiling

  const HEADER: nat := 24               // sizeof(BlockHeader): 8 + 8 + 4 + 4
  const HEAP_SIZE: nat := 0x20_0000     // 2 MB
  const MIN_BLOCK: nat := 32
  const LIVE_MAGIC: nat := 0xDEADBEEF
  const FREE_MAGIC: nat := 0xFEEDFACE
  const SIZE_LIMIT: nat := 0x1_0000_0000_0000_0000

  /** totalSize of operator new: header plus the request rounded up to 16, at least MIN_BLOCK. */
  function TotalSize(size: nat): (t: nat)
    ensures t >= HEADER + size && t >= MIN_BLOCK && t % 8 == 0 && t <= HEADER + size + 15
  {
    var k := (size + 15) / 16;
    assert 16 * k <= size + 15 < 16 * k + 16;
    var t := HEADER + k * 16;
    assert t == 8 * (3 + 2 * k);
    if t < MIN_BLOCK then MIN_BLOCK else t
  }

  lemma TotalIs(size: nat)
    ensures var need := TotalSize(size) - 24;
            if size == 0 then need == 8 else size <= need < size + 16 && need % 16 == 0
  {
  }

  // --- value level ---

  /** Free block i serves a request of t bytes: split if at least MIN_BLOCK is left over. */
  function Take(segs: seq<Seg>, i: nat, t: nat): seq<Seg>
    requires i < |segs| && segs[i].free && MIN_BLOCK <= t <= HEADER + segs[i].len
  {
    if HEADER + segs[i].len >= t + MIN_BLOCK
    then segs[..i] + [Seg(t - HEADER, false), Seg(segs[i].len - t, true)] + segs[i + 1..]
    else segs[i := Seg(segs[i].len, false)]
  }

  lemma TakeSize(segs: seq<Seg>, i: nat, need: nat)
    requires i < |segs|
    ensures segs[i].free && 8 <= need <= segs[i].len ==>
            |Take(segs, i, 24 + need)| > i
            && Take(segs, i, 24 + need)[i].len == if segs[i].len >= need + 32 then need else segs[i].len
  {
  }

  /** Coalesce on the tiling: merge every pair of adjacent free blocks, left to right. */
  function MergeAll(segs: seq<Seg>): seq<Seg>
    decreases |segs|
  {
    if |segs| < 2 then segs
    else if segs[0].free && segs[1].free
    then MergeAll([Seg(segs[0].len + HEADER + segs[1].len, true)] + segs[2..])
    else [segs[0]] + MergeAll(segs[1..])
  }

  lemma {:induction false} MergeAllNothing(segs: seq<Seg>)
    requires NoAdjacentFree(segs)
    ensures MergeAll(segs) == segs
  {
    if |segs| >= 2 {
      assert !FreePair(segs, 0);
      forall k ensures !FreePair(segs[1..], k) {
        assert FreePair(segs[1..], k) ==> FreePair(segs, k + 1);
      }
      MergeAllNothing(segs[1..]);
    }
  }

  lemma MergeTwice(segs: seq<Seg>, k: nat)
    requires k > 0 && FreePair(segs, k) && FreePair(segs, 0)
    ensures var first := [Seg(segs[0].len + HEADER + segs[1].len, true)] + segs[2..];
            var m := MergeRight(HEADER, segs, k);
            && m[0].free && m[1].free && FreePair(first, k - 1)
            && [Seg(m[0].len + HEADER + m[1].len, true)] + m[2..] == MergeRight(HEADER, first, k - 1)
  {
    var first := [Seg(segs[0].len + HEADER + segs[1].len, true)] + segs[2..];
    var m := MergeRight(HEADER, segs, k);
    var merged := Seg(segs[k].len + HEADER + segs[k + 1].len, true);
    assert m == segs[..k] + [merged] + segs[k + 2..];
    assert first[k + 1..] == segs[k + 2..];
    if k > 1 {
      assert first[..k - 1] == [first[0]] + segs[2..k];
      assert m[2..] == segs[2..k] + [merged] + segs[k + 2..];
    } else {
      assert m[2..] == segs[3..];
    }
  }

  /** Merging any one free pair first does not change the outcome. */
  lemma {:induction false} MergeAnywhere(segs: seq<Seg>, k: nat)
    requires FreePair(segs, k)
    ensures MergeAll(MergeRight(HEADER, segs, k)) == MergeAll(segs)
    decreases |segs|
  {
    var m := MergeRight(HEADER, segs, k);
    if k == 0 {
      assert m == [Seg(segs[0].len + HEADER + segs[1].len, true)] + segs[2..];
    } else if FreePair(segs, 0) {
      var first := [Seg(segs[0].len + HEADER + segs[1].len, true)] + segs[2..];
      assert FreePair(first, k - 1);
      MergeAnywhere(first, k - 1);
      MergeTwice(segs, k);
    } else {
      assert FreePair(segs[1..], k - 1);
      MergeAnywhere(segs[1..], k - 1);
      assert m[1..] == MergeRight(HEADER, segs[1..], k - 1);
      assert m[0] == segs[0] && (k >= 2 ==> m[1] == segs[1]);
    }
  }

  /** After one block was freed, coalescing the whole list merges just around that block. */
  lemma MergeAllAfterFree(segs: seq<Seg>, i: nat)
    requires NoAdjacentFree(segs) && i < |segs|
    ensures MergeAll(segs[i := Seg(segs[i].len, true)]) == FreeSpec(HEADER, segs, i)
  {
    var f := segs[i := Seg(segs[i].len, true)];
    var r := MergeRight(HEADER, f, i);
    if FreePair(f, i) {
      MergeAnywhere(f, i);
    }
    if i > 0 && FreePair(r, i - 1) {
      MergeAnywhere(r, i - 1);
    }
    FreeShape(HEADER, segs, i);
    MergeAllNothing(FreeSpec(HEADER, segs, i));
  }

  /** What every new and delete keeps. */
  ghost predicate Good(base: nat, segs: seq<Seg>)
  {
    && segs != []
    && Total(HEADER, segs) == HEAP_SIZE
    && NoAdjacentFree(segs)
    && base % 16 == 0
    && Granular(segs)
  }

  /** Every block is at least MIN_BLOCK bytes and a multiple of 8. */
  ghost predicate Granular(segs: seq<Seg>)
  {
    forall i :: 0 <= i < |segs| ==> segs[i].len >= 8 && segs[i].len % 8 == 0
  }

  lemma TakePairs(segs: seq<Seg>, i: nat, t: nat, k: nat)
    requires i < |segs| && segs[i].free && MIN_BLOCK <= t <= HEADER + segs[i].len
    requires FreePair(Take(segs, i, t), k)
    ensures FreePair(segs, if |Take(segs, i, t)| == |segs| || k < i then k else k - 1)
  {
    var s := Take(segs, i, t);
    if |s| != |segs| && k + 1 >= i + 2 {
      assert s[k + 1] == segs[k];
      assert k > i + 1 ==> s[k] == segs[k - 1];
    }
  }

  lemma TakeGranular(segs: seq<Seg>, i: nat, t: nat)
    requires Granular(segs)
    requires i < |segs| && segs[i].free && MIN_BLOCK <= t <= HEADER + segs[i].len && t % 8 == 0
    ensures Granular(Take(segs, i, t))
  {
    var s := Take(segs, i, t);
    forall j | 0 <= j < |s|
      ensures s[j].len >= 8 && s[j].len % 8 == 0
    {
      if |s| != |segs| && j > i + 1 {
        assert s[j] == segs[j - 1];
      }
    }
  }

  lemma TakeShape(segs: seq<Seg>, i: nat, t: nat)
    requires NoAdjacentFree(segs) && Granular(segs)
    requires i < |segs| && segs[i].free && MIN_BLOCK <= t <= HEADER + segs[i].len && t % 8 == 0
    ensures NoAdjacentFree(Take(segs, i, t)) && Granular(Take(segs, i, t))
  {
    TakeGranular(segs, i, t);
    forall k | FreePair(Take(segs, i, t), k)
      ensures false
    {
      TakePairs(segs, i, t, k);
    }
  }

  lemma TakeLive(base: nat, segs: seq<Seg>, i: nat, t: nat)
    requires i < |segs| && segs[i].free && MIN_BLOCK <= t <= HEADER + segs[i].len
    ensures var s := Take(segs, i, t);
            && Total(HEADER, s) == Total(HEADER, segs)
            && Live(HEADER, base, s) == Live(HEADER, base, segs) + {(Addr(HEADER, base, segs, i) + HEADER, s[i].len)}
  {
    var s, len := Take(segs, i, t), segs[i].len;
    var p, r := segs[..i], segs[i + 1..];
    Split3(segs, i);
    if HEADER + len >= t + MIN_BLOCK {
      CutAndOccupy(HEADER, base, p, t - HEADER, len - t, r);
    } else {
      OccupyParts(HEADER, base, p, len, r);
      assert s == p + [Seg(len, false)] + r;
    }
  }

  /** new adds exactly one live payload, at least as large as requested, and moves no other. */
  lemma TakeEffect(base: nat, segs: seq<Seg>, i: nat, t: nat)
    requires Good(base, segs) && i < |segs| && segs[i].free && MIN_BLOCK <= t <= HEADER + segs[i].len && t % 8 == 0
    ensures var s := Take(segs, i, t);
            var p := Addr(HEADER, base, segs, i) + HEADER;
            && Good(base, s)
            && t - HEADER <= s[i].len < t - HEADER + MIN_BLOCK
            && (p, s[i].len) !in Live(HEADER, base, segs)
            && Live(HEADER, base, s) == Live(HEADER, base, segs) + {(p, s[i].len)}
  {
    TakeShape(segs, i, t);
    TakeLive(base, segs, i, t);
    NewPayload(HEADER, base, segs, i, Take(segs, i, t)[i].len);
  }

  lemma MergeGranular(segs: seq<Seg>, i: nat)
    requires Granular(segs) && i < |segs|
    ensures Granular(MergeRight(HEADER, segs, i))
  {
    var m := MergeRight(HEADER, segs, i);
    forall j | 0 <= j < |m| ensures m[j].len >= 8 && m[j].len % 8 == 0 {
      if m != segs && j > i { assert m[j] == segs[j + 1]; }
    }
  }

  lemma FreeEffect(base: nat, segs: seq<Seg>, i: nat)
    requires Good(base, segs) && i < |segs|
    ensures Good(base, FreeSpec(HEADER, segs, i))
    ensures Live(HEADER, base, FreeSpec(HEADER, segs, i)) ==
            Live(HEADER, base, segs) - {(Addr(HEADER, base, segs, i) + HEADER, segs[i].len)}
  {
    var f := segs[i := Seg(segs[i].len, true)];
    FlagEffect(HEADER, base, segs, i);
    MergeEffect(HEADER, base, f, i);
    FreeShape(HEADER, segs, i);
    MergeGranular(f, i);
    var r := MergeRight(HEADER, f, i);
    if i > 0 {
      MergeEffect(HEADER, base, r, i - 1);
      MergeGranular(r, i - 1);
    }
    assert r != [];
  }

  /** delete right after new restores the tiling, and with it the free list, exactly. */
  lemma DeleteUndoesNew(segs: seq<Seg>, i: nat, t: nat)
    requires NoAdjacentFree(segs) && i < |segs| && segs[i].free && MIN_BLOCK <= t <= HEADER + segs[i].len
    ensures FreeSpec(HEADER, Take(segs, i, t), i) == segs
  {
    var s := Take(segs, i, t);
    var f := s[i := Seg(s[i].len, true)];
    assert !FreePair(segs, i) && (i > 0 ==> !FreePair(segs, i - 1));
    assert MergeRight(HEADER, f, i) == segs;
  }

  /** Payloads are 8-byte aligned, and 16-byte aligned exactly when the blocks in front of them
      add up to 8 modulo 16. */
  lemma PayloadAlignment(base: nat, segs: seq<Seg>, i: nat)
    requires base % 16 == 0 && Granular(segs) && i <= |segs|
    ensures (Addr(HEADER, base, segs, i) + HEADER) % 8 == 0
    ensures (Addr(HEADER, base, segs, i) + HEADER) % 16 == 0 <==> Total(HEADER, segs[..i]) % 16 == 8
  {
    TotalGranular(segs[..i]);
    AlignmentSum(base, Total(HEADER, segs[..i]));
  }

  /** In particular the first payload of the arena never is: the header has 24 bytes, not the 16 that its
      comment gives it. */
  lemma FirstPayloadUnaligned(base: nat, segs: seq<Seg>)
    requires base % 16 == 0 && Granular(segs)
    ensures (Addr(HEADER, base, segs, 0) + HEADER) % 16 != 0
  {
    PayloadAlignment(base, segs, 0);
    assert segs[..0] == [] && Total(HEADER, []) == 0;
  }

  lemma AlignmentSum(base: nat, t: nat)
    requires base % 16 == 0 && t % 8 == 0
    ensures (base + t + HEADER) % 8 == 0
    ensures (base + t + HEADER) % 16 == 0 <==> t % 16 == 8
  {
    var b, e := base / 16, t / 8;
    assert base + t + HEADER == 8 * (2 * b + e + 3);
  }

  lemma {:induction false} TotalGranular(segs: seq<Seg>)
    requires Granular(segs)
    ensures Total(HEADER, segs) % 8 == 0
  {
    if segs != [] {
      TotalGranular(segs[1..]);
    }
  }

  // --- the free list as addresses and sizes ---

  datatype Node = Node(addr: nat, size: nat)

  function FreeNodes(base: nat, segs: seq<Seg>): seq<Node>
    decreases |segs|
  {
    if segs == [] then []
    else
      (if segs[0].free then [Node(base, HEADER + segs[0].len)] else [])
      + FreeNodes(base + HEADER + segs[0].len, segs[1..])
  }

  /** Strictly increasing addresses, blocks not overlapping. */
  ghost predicate Sorted(nodes: seq<Node>)
  {
    forall i, j :: 0 <= i < j < |nodes| ==> nodes[i].addr + nodes[i].size <= nodes[j].addr
  }

  lemma {:induction false} NodesConcat(base: nat, a: seq<Seg>, b: seq<Seg>)
    ensures FreeNodes(base, a + b) == FreeNodes(base, a) + FreeNodes(base + Total(HEADER, a), b)
    decreases |a|
  {
    if a == [] {
      assert a + b == b;
    } else {
      assert (a + b)[1..] == a[1..] + b;
      NodesConcat(base + HEADER + a[0].len, a[1..], b);
    }
  }

  ghost predicate Within(nodes: seq<Node>, lo: nat, hi: nat)
  {
    forall k :: 0 <= k < |nodes| ==>
        lo <= nodes[k].addr && nodes[k].size >= HEADER && nodes[k].addr + nodes[k].size <= hi
  }

  lemma SortedCons(n: Node, rest: seq<Node>, hi: nat, l: seq<Node>)
    requires Sorted(rest) && Within(rest, n.addr + n.size, hi) && (l == [n] + rest || l == rest)
    ensures Sorted(l)
  {
    if l == rest {
      return;
    }
    forall i, j | 0 <= i < j < |l| ensures l[i].addr + l[i].size <= l[j].addr {
      assert l[j] == rest[j - 1];
    }
  }

  lemma WithinCons(n: Node, rest: seq<Node>, hi: nat)
    requires Within(rest, n.addr + n.size, hi) && n.size >= HEADER && n.addr + n.size <= hi
    ensures Within([n] + rest, n.addr, hi) && Within(rest, n.addr, hi)
  {
    var l := [n] + rest;
    forall k | 0 <= k < |l|
      ensures n.addr <= l[k].addr && l[k].size >= HEADER && l[k].addr + l[k].size <= hi
    {
      assert k > 0 ==> l[k] == rest[k - 1];
    }
  }

  lemma NodesFirst(base: nat, segs: seq<Seg>)
    requires segs != []
    ensures var n := Node(base, HEADER + segs[0].len);
            var rest := FreeNodes(base + n.size, segs[1..]);
            FreeNodes(base, segs) == if segs[0].free then [n] + rest else rest
    ensures Total(HEADER, segs) == HEADER + segs[0].len + Total(HEADER, segs[1..])
  {
  }

  lemma {:induction false} NodesWithin(base: nat, segs: seq<Seg>)
    ensures Within(FreeNodes(base, segs), base, base + Total(HEADER, segs))
    decreases |segs|
  {
    if segs != [] {
      var n := Node(base, HEADER + segs[0].len);
      NodesFirst(base, segs);
      NodesWithin(base + n.size, segs[1..]);
      WithinCons(n, FreeNodes(base + n.size, segs[1..]), base + Total(HEADER, segs));
    }
  }

  lemma {:induction false} NodesSorted(base: nat, segs: seq<Seg>)
    ensures Sorted(FreeNodes(base, segs))
    decreases |segs|
  {
    if segs != [] {
      var n := Node(base, HEADER + segs[0].len);
      NodesFirst(base, segs);
      NodesSorted(base + n.size, segs[1..]);
      NodesWithin(base + n.size, segs[1..]);
      SortedCons(n, FreeNodes(base + n.size, segs[1..]), base + Total(HEADER, segs), FreeNodes(base, segs));
    }
  }

  lemma NodesInside(base: nat, segs: seq<Seg>)
    ensures Sorted(FreeNodes(base, segs))
    ensures Within(FreeNodes(base, segs), base, base + Total(HEADER, segs))
  {
    NodesWithin(base, segs);
    NodesSorted(base, segs);
  }

  lemma NodesAround(base: nat, segs: seq<Seg>, i: nat)
    requires i < |segs|
    ensures FreeNodes(base, segs) ==
            FreeNodes(base, segs[..i])
            + (if segs[i].free then [Node(Addr(HEADER, base, segs, i), HEADER + segs[i].len)] else [])
            + FreeNodes(Addr(HEADER, base, segs, i) + HEADER + segs[i].len, segs[i + 1..])
  {
    assert segs == segs[..i] + segs[i..];
    NodesConcat(base, segs[..i], segs[i..]);
    assert segs[i..][1..] == segs[i + 1..];
  }

  /** The block behind the k-th node of the free list. */
  lemma {:induction false} BlockOfNode(base: nat, segs: seq<Seg>, k: nat) returns (i: nat)
    requires k < |FreeNodes(base, segs)|
    ensures i < |segs| && segs[i].free && |FreeNodes(base, segs[..i])| == k
    ensures FreeNodes(base, segs)[k] == Node(Addr(HEADER, base, segs, i), HEADER + segs[i].len)
    decreases |segs|
  {
    if segs[0].free && k == 0 {
      i := 0;
    } else {
      var rest := base + HEADER + segs[0].len;
      var j := BlockOfNode(rest, segs[1..], if segs[0].free then k - 1 else k);
      i := j + 1;
      assert segs[..i] == [segs[0]] + segs[1..][..j];
      assert segs[..i][1..] == segs[1..][..j];
    }
  }

  /** No two neighbours in the free list touch. */
  lemma {:induction false} NodesApart(base: nat, segs: seq<Seg>, k: nat)
    requires NoAdjacentFree(segs) && Granular(segs) && k + 1 < |FreeNodes(base, segs)|
    ensures FreeNodes(base, segs)[k].addr + FreeNodes(base, segs)[k].size < FreeNodes(base, segs)[k + 1].addr
    decreases |segs|
  {
    var rest := base + HEADER + segs[0].len;
    forall j ensures !FreePair(segs[1..], j) {
      assert FreePair(segs[1..], j) ==> FreePair(segs, j + 1);
    }
    if !segs[0].free {
      NodesApart(rest, segs[1..], k);
    } else if k > 0 {
      NodesApart(rest, segs[1..], k - 1);
    } else {
      assert !FreePair(segs, 0);
      NodesInside(rest + HEADER + segs[1].len, segs[1..][1..]);
    }
  }

  /** Coalesce on the list: a node absorbs its successor as long as the two touch. */
  function Coal(nodes: seq<Node>): seq<Node>
    decreases |nodes|
  {
    if |nodes| < 2 then nodes
    else if nodes[0].addr + nodes[0].size == nodes[1].addr
    then Coal([Node(nodes[0].addr, nodes[0].size + nodes[1].size)] + nodes[2..])
    else [nodes[0]] + Coal(nodes[1..])
  }

  lemma CoalApart(n: Node, rest: seq<Node>)
    requires rest != [] ==> n.addr + n.size != rest[0].addr
    ensures Coal([n] + rest) == [n] + Coal(rest)
  {
    assert ([n] + rest)[1..] == rest;
  }

  lemma CoalTouching(n: Node, m: Node, rest: seq<Node>)
    requires n.addr + n.size == m.addr
    ensures Coal([n, m] + rest) == Coal([Node(n.addr, n.size + m.size)] + rest)
  {
    assert ([n, m] + rest)[2..] == rest;
  }

  lemma NodesCons(base: nat, seg: Seg, rest: seq<Seg>)
    ensures FreeNodes(base, [seg] + rest) ==
            (if seg.free then [Node(base, HEADER + seg.len)] else []) + FreeNodes(base + HEADER + seg.len, rest)
  {
    assert ([seg] + rest)[1..] == rest;
  }

  lemma CoalBothFree(base: nat, a: Seg, b: Seg, tail: seq<Seg>)
    requires a.free && b.free
    ensures var m := Seg(a.len + HEADER + b.len, true);
            Coal(FreeNodes(base, [a, b] + tail)) == Coal(FreeNodes(base, [m] + tail))
  {
    var nodes := FreeNodes(base + HEADER + a.len + HEADER + b.len, tail);
    var x, y := Node(base, HEADER + a.len), Node(base + HEADER + a.len, HEADER + b.len);
    TwoFreeNodes(base, a, b, tail);
    NodesCons(base, Seg(a.len + HEADER + b.len, true), tail);
    CoalTouching(x, y, nodes);
  }

  lemma TwoFreeNodes(base: nat, a: Seg, b: Seg, tail: seq<Seg>)
    requires a.free && b.free
    ensures FreeNodes(base, [a, b] + tail) ==
            [Node(base, HEADER + a.len), Node(base + HEADER + a.len, HEADER + b.len)]
            + FreeNodes(base + HEADER + a.len + HEADER + b.len, tail)
  {
    assert [a, b] + tail == [a] + ([b] + tail);
    NodesCons(base, a, [b] + tail);
    NodesCons(base + HEADER + a.len, b, tail);
  }

  lemma CoalOneUsed(base: nat, a: Seg, b: Seg, tail: seq<Seg>)
    requires !(a.free && b.free)
    ensures var rest := FreeNodes(base + HEADER + a.len, [b] + tail);
            Coal(FreeNodes(base, [a, b] + tail)) ==
            (if a.free then [Node(base, HEADER + a.len)] else []) + Coal(rest)
  {
    var second := base + HEADER + a.len;
    var rest := FreeNodes(second, [b] + tail);
    assert [a, b] + tail == [a] + ([b] + tail);
    NodesCons(base, a, [b] + tail);
    if a.free {
      NodesCons(second, b, tail);
      NodesInside(second + HEADER + b.len, tail);
      CoalApart(Node(base, HEADER + a.len), rest);
    } else {
      assert FreeNodes(base, [a, b] + tail) == rest;
    }
  }

  /** Coalescing the list is coalescing the tiling. */
  lemma {:induction false} CoalIsMergeAll(base: nat, segs: seq<Seg>)
    ensures Coal(FreeNodes(base, segs)) == FreeNodes(base, MergeAll(segs))
    decreases |segs|
  {
    if |segs| < 2 {
      if |segs| == 1 { assert segs[1..] == []; }
      return;
    }
    var a, b, tail := segs[0], segs[1], segs[2..];
    assert segs == [a, b] + tail && segs[1..] == [b] + tail;
    if a.free && b.free {
      CoalBothFree(base, a, b, tail);
      CoalIsMergeAll(base, [Seg(a.len + HEADER + b.len, true)] + tail);
    } else {
      CoalOneUsed(base, a, b, tail);
      CoalIsMergeAll(base + HEADER + a.len, segs[1..]);
      NodesCons(base, a, MergeAll(segs[1..]));
    }
  }

  // --- headers in memory ---

  datatype Block = Block(size: nat, next: nat, magic: nat)

  type Memory = map<nat, Block>  // block headers by address; 0 is the null pointer

  function AddrOf(nodes: seq<Node>, k: nat): nat
  {
    if k < |nodes| then nodes[k].addr else 0
  }

  ghost predicate NodeAt(mem: Memory, nodes: seq<Node>, k: nat)
    requires k < |nodes|
  {
    nodes[k].addr in mem && mem[nodes[k].addr] == Block(nodes[k].size, AddrOf(nodes, k + 1), FREE_MAGIC)
  }

  /** Memory links exactly these nodes, in this order. */
  ghost predicate Linked(mem: Memory, nodes: seq<Node>)
  {
    forall k :: 0 <= k < |nodes| ==> NodeAt(mem, nodes, k)
  }

  /** Nodes as the source keeps them: sorted, non-null, at least a header long. */
  ghost predicate ListShape(nodes: seq<Node>)
  {
    && Sorted(nodes)
    && forall k :: 0 <= k < |nodes| ==> nodes[k].addr > 0 && nodes[k].size >= HEADER
  }

  ghost predicate LiveHeader(mem: Memory, p: (nat, nat))
  {
    p.0 >= HEADER && p.0 - HEADER in mem && mem[p.0 - HEADER] == Block(HEADER + p.1, 0, LIVE_MAGIC)
  }

  ghost predicate LiveHeaders(mem: Memory, live: set<(nat, nat)>)
  {
    forall p :: p in live ==> LiveHeader(mem, p)
  }

  ghost predicate HonestHeader(mem: Memory, live: set<(nat, nat)>, a: nat)
  {
    a in mem && mem[a].magic == LIVE_MAGIC ==> mem[a].size >= HEADER && (a + HEADER, mem[a].size - HEADER) in live
  }

  /** Every header with the live magic belongs to a live block; headers that were swallowed or freed
      carry the other magic. */
  ghost predicate OnlyLive(mem: Memory, live: set<(nat, nat)>)
  {
    forall a :: HonestHeader(mem, live, a)
  }

  lemma ShapeOf(base: nat, segs: seq<Seg>)
    requires base > 0
    ensures ListShape(FreeNodes(base, segs))
  {
    NodesInside(base, segs);
  }

  /** Node j keeps its header, except that the node in front of position k now points to target. */
  ghost predicate Kept(after: Memory, nodes: seq<Node>, j: nat, k: nat, target: nat)
    requires j < |nodes|
  {
    && nodes[j].addr in after
    && after[nodes[j].addr] == Block(nodes[j].size, if j + 1 == k then target else AddrOf(nodes, j + 1), FREE_MAGIC)
  }

  /** Memory after replacing node k of the list by `sub`. */
  lemma ReplaceLinked(nodes: seq<Node>, k: nat, sub: seq<Node>, target: nat, after: Memory)
    requires k < |nodes| && |sub| <= 1 && target == AddrOf(sub + nodes[k + 1..], 0)
    requires sub != [] ==> Kept(after, sub, 0, 1, AddrOf(nodes, k + 1))
    requires forall j :: 0 <= j < |nodes| && j != k ==> Kept(after, nodes, j, k, target)
    ensures Linked(after, nodes[..k] + sub + nodes[k + 1..])
  {
    var l := nodes[..k] + sub + nodes[k + 1..];
    forall j | 0 <= j < |l| ensures NodeAt(after, l, j) {
      if j < k {
        assert Kept(after, nodes, j, k, target);
        assert l[j] == nodes[j];
      } else if j >= k + |sub| {
        var o := j + 1 - |sub|;
        assert Kept(after, nodes, o, k, target);
        assert l[j] == nodes[o];
      }
    }
  }

  /** Memory after putting node `n` in front of position k. */
  lemma InsertLinked(nodes: seq<Node>, k: nat, n: Node, after: Memory)
    requires k <= |nodes|
    requires Kept(after, [n], 0, 1, AddrOf(nodes, k))
    requires forall j :: 0 <= j < |nodes| ==> Kept(after, nodes, j, k, n.addr)
    ensures Linked(after, nodes[..k] + [n] + nodes[k..])
  {
    var l := nodes[..k] + [n] + nodes[k..];
    forall j | 0 <= j < |l| ensures NodeAt(after, l, j) {
      if j < k {
        assert Kept(after, nodes, j, k, n.addr);
        assert l[j] == nodes[j];
      } else if j > k {
        assert Kept(after, nodes, j - 1, k, n.addr);
        assert l[j] == nodes[j - 1];
      }
    }
  }

  /** No live header stands at an address in lo..hi. */
  ghost predicate HeadersOutside(live: set<(nat, nat)>, lo: nat, hi: nat)
  {
    forall p :: p in live ==> !(lo + HEADER <= p.0 < hi + HEADER)
  }

  /** No live header stands where a free one does, and no two live ones share an address. */
  ghost predicate HeadersApart(live: set<(nat, nat)>, nodes: seq<Node>)
  {
    && (forall p, k :: p in live && 0 <= k < |nodes| ==> p.0 != nodes[k].addr + HEADER)
    && (forall p, q :: p in live && q in live && p.0 == q.0 ==> p == q)
  }

  /** A free block's bytes hold no live header. */
  lemma NoLiveHeaderInside(base: nat, segs: seq<Seg>, i: nat)
    requires i < |segs| && segs[i].free
    ensures HeadersOutside(Live(HEADER, base, segs), Addr(HEADER, base, segs, i), Addr(HEADER, base, segs, i + 1))
  {
    LiveAround(HEADER, base, segs, i);
    AddrStep(HEADER, base, segs, i);
    var a := Addr(HEADER, base, segs, i);
    forall p | p in Live(HEADER, base, segs)
      ensures !(a + HEADER <= p.0 < Addr(HEADER, base, segs, i + 1) + HEADER)
    {
      if p in Live(HEADER, base, segs[..i]) {
        LiveInside(HEADER, base, segs[..i], p);
      } else {
        LiveInside(HEADER, a + HEADER + segs[i].len, segs[i + 1..], p);
      }
    }
  }

  lemma LiveAndFreeApart(base: nat, segs: seq<Seg>)
    ensures HeadersApart(Live(HEADER, base, segs), FreeNodes(base, segs))
  {
    var live, nodes := Live(HEADER, base, segs), FreeNodes(base, segs);
    forall p, k | p in live && 0 <= k < |nodes| ensures p.0 != nodes[k].addr + HEADER {
      var i := BlockOfNode(base, segs, k);
      NoLiveHeaderInside(base, segs, i);
      AddrStep(HEADER, base, segs, i);
    }
    forall p, q | p in live && q in live && p.0 == q.0 ensures p == q {
      if p != q { LiveDisjoint(HEADER, base, segs, p, q); }
    }
  }

  /** What operator new leaves of node n on the list when it takes t bytes. */
  function Remainder(n: Node, t: nat): seq<Node>
    requires t <= n.size
  {
    if n.size >= t + MIN_BLOCK then [Node(n.addr + t, n.size - t)] else []
  }

  /** The free list of a tiling around one segment. */
  lemma NodesParts(base: nat, p: seq<Seg>, x: Seg, r: seq<Seg>)
    ensures FreeNodes(base, p + [x] + r) ==
            FreeNodes(base, p) + (if x.free then [Node(base + Total(HEADER, p), HEADER + x.len)] else [])
            + FreeNodes(base + Total(HEADER, p) + HEADER + x.len, r)
  {
    var s := p + [x] + r;
    NodesAround(base, s, |p|);
    assert s[..|p|] == p && s[|p|] == x && s[|p| + 1..] == r;
  }

  /** The free list after taking t bytes of the block between p and r. */
  lemma TakenNodes(base: nat, p: seq<Seg>, len: nat, r: seq<Seg>, t: nat)
    requires MIN_BLOCK <= t <= HEADER + len
    ensures FreeNodes(base, Take(p + [Seg(len, true)] + r, |p|, t)) ==
            FreeNodes(base, p) + Remainder(Node(base + Total(HEADER, p), HEADER + len), t)
            + FreeNodes(base + Total(HEADER, p) + HEADER + len, r)
  {
    var s := p + [Seg(len, true)] + r;
    assert s[..|p|] == p && s[|p| + 1..] == r;
    if HEADER + len >= t + MIN_BLOCK {
      var rest := [Seg(len - t, true)] + r;
      assert Take(s, |p|, t) == p + [Seg(t - HEADER, false)] + rest;
      NodesParts(base, p, Seg(t - HEADER, false), rest);
      NodesCons(base + Total(HEADER, p) + t, Seg(len - t, true), r);
    } else {
      assert Take(s, |p|, t) == p + [Seg(len, false)] + r;
      NodesParts(base, p, Seg(len, false), r);
    }
  }

  lemma Splice(a: seq<Node>, n: Node, b: seq<Node>, sub: seq<Node>, nodes: seq<Node>, after: seq<Node>)
    requires nodes == a + [n] + b && after == a + sub + b
    ensures |a| < |nodes| && nodes[|a|] == n && after == nodes[..|a|] + sub + nodes[|a| + 1..]
  {
    assert nodes[..|a|] == a && nodes[|a| + 1..] == b;
  }

  lemma TakeNodesParts(base: nat, p: seq<Seg>, len: nat, r: seq<Seg>, t: nat)
    requires MIN_BLOCK <= t <= HEADER + len
    ensures var segs, n := p + [Seg(len, true)] + r, Node(base + Total(HEADER, p), HEADER + len);
            var nodes, k := FreeNodes(base, segs), |FreeNodes(base, p)|;
            && k < |nodes| && nodes[k] == n
            && FreeNodes(base, Take(segs, |p|, t)) == nodes[..k] + Remainder(n, t) + nodes[k + 1..]
  {
    NodesParts(base, p, Seg(len, true), r);
    TakenNodes(base, p, len, r, t);
    var segs, n := p + [Seg(len, true)] + r, Node(base + Total(HEADER, p), HEADER + len);
    Splice(FreeNodes(base, p), n, FreeNodes(base + Total(HEADER, p) + HEADER + len, r), Remainder(n, t),
           FreeNodes(base, segs), FreeNodes(base, Take(segs, |p|, t)));
  }

  lemma TakeNodes(base: nat, segs: seq<Seg>, i: nat, t: nat)
    requires i < |segs| && segs[i].free && MIN_BLOCK <= t <= HEADER + segs[i].len
    ensures var nodes := FreeNodes(base, segs);
            var k := |FreeNodes(base, segs[..i])|;
            && k < |nodes| && nodes[k] == Node(Addr(HEADER, base, segs, i), HEADER + segs[i].len)
            && FreeNodes(base, Take(segs, i, t)) == nodes[..k] + Remainder(nodes[k], t) + nodes[k + 1..]
  {
    Split3(segs, i);
    TakeNodesParts(base, segs[..i], segs[i].len, segs[i + 1..], t);
  }

  /** The header writes of operator new when it takes t bytes of node k. */
  function AfterTake(mem: Memory, nodes: seq<Node>, k: nat, t: nat): Memory
    requires k < |nodes| && t <= nodes[k].size
  {
    var n, sub := nodes[k], Remainder(nodes[k], t);
    var rest := if sub != [] then sub[0].addr else AddrOf(nodes, k + 1);
    var m1 := if sub != [] then mem[rest := Block(sub[0].size, AddrOf(nodes, k + 1), FREE_MAGIC)] else mem;
    var prev := if k > 0 then nodes[k - 1].addr else 0;
    var m2 := if k > 0 && prev in m1 then m1[prev := m1[prev].(next := rest)] else m1;
    m2[n.addr := Block(if sub != [] then t else n.size, 0, LIVE_MAGIC)]
  }

  lemma TakeLinks(mem: Memory, nodes: seq<Node>, k: nat, t: nat)
    requires ListShape(nodes) && Linked(mem, nodes) && k < |nodes| && MIN_BLOCK <= t <= nodes[k].size
    ensures Linked(AfterTake(mem, nodes, k, t), nodes[..k] + Remainder(nodes[k], t) + nodes[k + 1..])
  {
    var sub := Remainder(nodes[k], t);
    var after := AfterTake(mem, nodes, k, t);
    var rest := AddrOf(sub + nodes[k + 1..], 0);
    if k > 0 { assert NodeAt(mem, nodes, k - 1); }
    forall j | 0 <= j < |nodes| && j != k
      ensures Kept(after, nodes, j, k, rest)
    {
      assert NodeAt(mem, nodes, j);
      assert nodes[j].addr + nodes[j].size <= nodes[k].addr || nodes[k].addr + nodes[k].size <= nodes[j].addr;
      assert k > 0 && j != k - 1 ==> nodes[j].addr != nodes[k - 1].addr;
    }
    assert k > 0 ==> nodes[k - 1].addr + nodes[k - 1].size <= nodes[k].addr;
    ReplaceLinked(nodes, k, sub, rest, after);
  }

  lemma TakeOnlyLive(mem: Memory, nodes: seq<Node>, k: nat, live: set<(nat, nat)>, t: nat)
    requires OnlyLive(mem, live) && Linked(mem, nodes) && k < |nodes| && MIN_BLOCK <= t <= nodes[k].size
    ensures OnlyLive(AfterTake(mem, nodes, k, t), live + {TakenPayload(nodes[k], t)})
  {
    var after, more := AfterTake(mem, nodes, k, t), live + {TakenPayload(nodes[k], t)};
    assert NodeAt(mem, nodes, k);
    if k > 0 {
      assert NodeAt(mem, nodes, k - 1);
    }
    forall a
      ensures HonestHeader(after, more, a)
    {
      assert HonestHeader(mem, live, a);
    }
  }

  /** The payload that taking t bytes of a node gives. */
  function TakenPayload(n: Node, t: nat): (nat, nat)
    requires HEADER <= t <= n.size
  {
    (n.addr + HEADER, (if Remainder(n, t) != [] then t else n.size) - HEADER)
  }

  lemma TakeHeaders(mem: Memory, nodes: seq<Node>, k: nat, live: set<(nat, nat)>, t: nat)
    requires LiveHeaders(mem, live) && HeadersApart(live, nodes)
    requires k < |nodes| && MIN_BLOCK <= t <= nodes[k].size
    requires HeadersOutside(live, nodes[k].addr, nodes[k].addr + nodes[k].size)
    ensures LiveHeaders(AfterTake(mem, nodes, k, t), live + {TakenPayload(nodes[k], t)})
  {
    var after := AfterTake(mem, nodes, k, t);
    forall p | p in live ensures LiveHeader(after, p) {
      assert LiveHeader(mem, p);
      assert k > 0 ==> p.0 != nodes[k - 1].addr + HEADER;
    }
  }

  /** Where a live block belongs in the sorted free list. */
  lemma FreePosition(base: nat, segs: seq<Seg>, i: nat)
    requires i < |segs| && !segs[i].free
    ensures var nodes := FreeNodes(base, segs);
            var at := |FreeNodes(base, segs[..i])|;
            && at <= |nodes|
            && (forall j :: 0 <= j < |nodes| ==> (j < at <==> nodes[j].addr < Addr(HEADER, base, segs, i)))
  {
    NodesAround(base, segs, i);
    NodesInside(base, segs[..i]);
    NodesInside(Addr(HEADER, base, segs, i) + HEADER + segs[i].len, segs[i + 1..]);
  }

  function PutNode(nodes: seq<Node>, k: nat, n: Node): seq<Node>
    requires k <= |nodes|
  {
    nodes[..k] + [n] + nodes[k..]
  }

  lemma FreedNodes(base: nat, segs: seq<Seg>, i: nat)
    requires i < |segs| && !segs[i].free
    ensures var nodes := FreeNodes(base, segs);
            var at := |FreeNodes(base, segs[..i])|;
            && at <= |nodes|
            && FreeNodes(base, segs[i := Seg(segs[i].len, true)]) ==
               PutNode(nodes, at, Node(Addr(HEADER, base, segs, i), HEADER + segs[i].len))
  {
    var f := segs[i := Seg(segs[i].len, true)];
    NodesAround(base, segs, i);
    NodesAround(base, f, i);
    assert f[..i] == segs[..i] && f[i + 1..] == segs[i + 1..];
  }

  /** The header writes of operator delete when it links `block` in front of node k. */
  function AfterInsert(mem: Memory, nodes: seq<Node>, k: nat, block: nat, size: nat): Memory
    requires k <= |nodes|
  {
    var m1 := mem[block := Block(size, AddrOf(nodes, k), FREE_MAGIC)];
    if k > 0 && nodes[k - 1].addr in m1 then m1[nodes[k - 1].addr := m1[nodes[k - 1].addr].(next := block)] else m1
  }

  lemma InsertLinks(mem: Memory, nodes: seq<Node>, k: nat, block: nat, size: nat)
    requires ListShape(nodes) && Linked(mem, nodes) && k <= |nodes|
    requires forall j :: 0 <= j < |nodes| ==> nodes[j].addr != block
    ensures Linked(AfterInsert(mem, nodes, k, block, size), PutNode(nodes, k, Node(block, size)))
  {
    var after := AfterInsert(mem, nodes, k, block, size);
    if k > 0 { assert NodeAt(mem, nodes, k - 1); }
    forall j | 0 <= j < |nodes|
      ensures Kept(after, nodes, j, k, block)
    {
      assert NodeAt(mem, nodes, j);
      assert k > 0 && j != k - 1 ==> nodes[j].addr != nodes[k - 1].addr;
    }
    InsertLinked(nodes, k, Node(block, size), after);
  }

  lemma InsertOnlyLive(mem: Memory, nodes: seq<Node>, k: nat, live: set<(nat, nat)>, p: (nat, nat))
    requires OnlyLive(mem, live) && Linked(mem, nodes) && k <= |nodes| && p.0 >= HEADER
    ensures OnlyLive(AfterInsert(mem, nodes, k, p.0 - HEADER, HEADER + p.1), live - {p})
  {
    var after := AfterInsert(mem, nodes, k, p.0 - HEADER, HEADER + p.1);
    if k > 0 {
      assert NodeAt(mem, nodes, k - 1);
    }
    forall a
      ensures HonestHeader(after, live - {p}, a)
    {
      assert HonestHeader(mem, live, a);
    }
  }

  lemma InsertHeaders(mem: Memory, nodes: seq<Node>, k: nat, live: set<(nat, nat)>, p: (nat, nat))
    requires LiveHeaders(mem, live) && HeadersApart(live, nodes) && k <= |nodes| && p in live && p.0 >= HEADER
    ensures LiveHeaders(AfterInsert(mem, nodes, k, p.0 - HEADER, HEADER + p.1), live - {p})
  {
    var after := AfterInsert(mem, nodes, k, p.0 - HEADER, HEADER + p.1);
    forall q | q in live && q != p ensures LiveHeader(after, q) {
      assert LiveHeader(mem, q);
      assert k > 0 ==> q.0 != nodes[k - 1].addr + HEADER;
      assert q.0 != p.0;
    }
  }

  /** One merge step of Coalesce on the part of the list not yet visited. */
  lemma CoalMerge(nodes: seq<Node>, k: nat)
    requires k + 1 < |nodes| && nodes[k].addr + nodes[k].size == nodes[k + 1].addr
    ensures Joined(nodes, k)[..k] == nodes[..k] && Coal(Joined(nodes, k)[k..]) == Coal(nodes[k..])
  {
    var rest := nodes[k + 2..];
    assert nodes[k..] == [nodes[k], nodes[k + 1]] + rest;
    assert Joined(nodes, k)[k..] == [Node(nodes[k].addr, nodes[k].size + nodes[k + 1].size)] + rest;
    CoalTouching(nodes[k], nodes[k + 1], rest);
  }

  /** Nothing is left to merge from the last node on. */
  lemma CoalDone(nodes: seq<Node>, k: nat)
    requires k <= |nodes| < k + 2
    ensures nodes[..k] + Coal(nodes[k..]) == nodes
  {
    assert nodes == nodes[..k] + nodes[k..];
  }

  /** Coalesce moves on: node k stays as it is. */
  lemma CoalSkip(nodes: seq<Node>, k: nat)
    requires k + 1 < |nodes| && nodes[k].addr + nodes[k].size != nodes[k + 1].addr
    ensures nodes[..k] + Coal(nodes[k..]) == nodes[..k + 1] + Coal(nodes[k + 1..])
  {
    assert nodes[k..] == [nodes[k]] + nodes[k + 1..];
    CoalApart(nodes[k], nodes[k + 1..]);
  }

  /** The list after node k absorbed node k + 1. */
  function Joined(nodes: seq<Node>, k: nat): seq<Node>
    requires k + 1 < |nodes|
  {
    nodes[..k] + [Node(nodes[k].addr, nodes[k].size + nodes[k + 1].size)] + nodes[k + 2..]
  }

  lemma JoinedShape(nodes: seq<Node>, k: nat)
    requires ListShape(nodes) && k + 1 < |nodes| && nodes[k].addr + nodes[k].size == nodes[k + 1].addr
    ensures ListShape(Joined(nodes, k))
    ensures forall j :: 0 <= j < |Joined(nodes, k)| ==>
            Joined(nodes, k)[j].addr == nodes[if j <= k then j else j + 1].addr
  {
    var l := Joined(nodes, k);
    forall a, b | 0 <= a < b < |l| ensures l[a].addr + l[a].size <= l[b].addr {
      assert l[b] == if b < k then nodes[b] else if b == k then l[k] else nodes[b + 1];
      assert l[a] == if a < k then nodes[a] else if a == k then l[k] else nodes[a + 1];
    }
  }

  lemma JoinedLinked(mem: Memory, nodes: seq<Node>, k: nat, after: Memory)
    requires ListShape(nodes) && Linked(mem, nodes) && k + 1 < |nodes|
    requires after == mem[nodes[k].addr := Block(nodes[k].size + nodes[k + 1].size, AddrOf(nodes, k + 2), FREE_MAGIC)]
    ensures Linked(after, Joined(nodes, k))
  {
    var l := Joined(nodes, k);
    forall j | 0 <= j < |l| ensures NodeAt(after, l, j) {
      if j < k {
        assert NodeAt(mem, nodes, j);
        assert AddrOf(l, j + 1) == AddrOf(nodes, j + 1);
      } else if j > k {
        assert l[j] == nodes[j + 1];
        assert NodeAt(mem, nodes, j + 1);
        assert AddrOf(l, j + 1) == AddrOf(nodes, j + 2);
      } else {
        assert AddrOf(l, j + 1) == AddrOf(nodes, k + 2);
      }
    }
  }

  lemma JoinOnlyLive(mem: Memory, live: set<(nat, nat)>, at: nat, after: Memory)
    requires OnlyLive(mem, live) && at in after && after[at].magic != LIVE_MAGIC && after == mem[at := after[at]]
    ensures OnlyLive(after, live)
  {
    forall a
      ensures HonestHeader(after, live, a)
    {
      assert HonestHeader(mem, live, a);
    }
  }

  /** Memory after node k absorbed node k + 1. */
  lemma JoinMemory(mem: Memory, nodes: seq<Node>, k: nat, live: set<(nat, nat)>, after: Memory)
    requires ListShape(nodes) && Linked(mem, nodes) && LiveHeaders(mem, live) && HeadersApart(live, nodes)
    requires k + 1 < |nodes| && nodes[k].addr + nodes[k].size == nodes[k + 1].addr
    requires after == mem[nodes[k].addr := Block(nodes[k].size + nodes[k + 1].size, AddrOf(nodes, k + 2), FREE_MAGIC)]
    ensures Linked(after, Joined(nodes, k)) && ListShape(Joined(nodes, k))
    ensures LiveHeaders(after, live) && HeadersApart(live, Joined(nodes, k))
  {
    JoinedShape(nodes, k);
    JoinedLinked(mem, nodes, k, after);
    forall p | p in live ensures LiveHeader(after, p) {
      assert LiveHeader(mem, p);
    }
  }

  lemma {:induction false} MergeAllLive(base: nat, segs: seq<Seg>)
    ensures Live(HEADER, base, MergeAll(segs)) == Live(HEADER, base, segs)
    decreases |segs|
  {
    if |segs| >= 2 {
      if segs[0].free && segs[1].free {
        var m := [Seg(segs[0].len + HEADER + segs[1].len, true)] + segs[2..];
        MergeAllLive(base, m);
        assert m == MergeRight(HEADER, segs, 0);
        MergeEffect(HEADER, base, segs, 0);
      } else {
        MergeAllLive(base + HEADER + segs[0].len, segs[1..]);
        assert ([segs[0]] + MergeAll(segs[1..]))[1..] == MergeAll(segs[1..]);
      }
    }
  }

  /** In a sorted list, positions and addresses order the nodes alike. */
  lemma LowerNodes(nodes: seq<Node>, k: nat, total: nat)
    requires ListShape(nodes) && k < |nodes| && forall j :: 0 <= j < k ==> nodes[j].size < total
    ensures forall j :: 0 <= j < |nodes| && nodes[j].addr < nodes[k].addr ==> nodes[j].size < total
  {
  }

  lemma NodeOfBlock(base: nat, segs: seq<Seg>, j: nat) returns (k: nat)
    requires j < |segs| && segs[j].free
    ensures k < |FreeNodes(base, segs)|
    ensures FreeNodes(base, segs)[k] == Node(Addr(HEADER, base, segs, j), HEADER + segs[j].len)
  {
    k := |FreeNodes(base, segs[..j])|;
    NodesAround(base, segs, j);
  }

  /** A look at the free list tells whether any block has room, and whether any below block i has. */
  lemma ListTells(base: nat, segs: seq<Seg>, total: nat, i: nat)
    requires i <= |segs|
    ensures (forall k :: 0 <= k < |FreeNodes(base, segs)| ==> FreeNodes(base, segs)[k].size < total) <==>
            (forall j :: 0 <= j < |segs| && segs[j].free ==> HEADER + segs[j].len < total)
    ensures (forall k :: 0 <= k < |FreeNodes(base, segs)| && FreeNodes(base, segs)[k].addr < Addr(HEADER, base, segs, i)
                         ==> FreeNodes(base, segs)[k].size < total) ==>
            (forall j :: 0 <= j < i && segs[j].free ==> HEADER + segs[j].len < total)
  {
    var nodes := FreeNodes(base, segs);
    if k :| 0 <= k < |nodes| && nodes[k].size >= total {
      var j := BlockOfNode(base, segs, k);
      assert segs[j].free && HEADER + segs[j].len >= total;
    }
    if j :| 0 <= j < |segs| && segs[j].free && HEADER + segs[j].len >= total {
      var k := NodeOfBlock(base, segs, j);
      assert nodes[k].size >= total;
    }
    if j :| 0 <= j < i && segs[j].free && HEADER + segs[j].len >= total {
      var k := NodeOfBlock(base, segs, j);
      AddrIncreasing(HEADER, base, segs, j, i);
      assert nodes[k].size >= total && nodes[k].addr < Addr(HEADER, base, segs, i);
    }
  }

  /** operator new keeps memory in step with the tiling. */
  lemma TakeStep(mem: Memory, base: nat, segs: seq<Seg>, i: nat, k: nat, t: nat)
    requires base > 0 && i < |segs| && segs[i].free && MIN_BLOCK <= t <= HEADER + segs[i].len
    requires k == |FreeNodes(base, segs[..i])| && k < |FreeNodes(base, segs)|
    requires t <= FreeNodes(base, segs)[k].size
    requires Linked(mem, FreeNodes(base, segs))
    requires LiveHeaders(mem, Live(HEADER, base, segs)) && OnlyLive(mem, Live(HEADER, base, segs))
    ensures var after := AfterTake(mem, FreeNodes(base, segs), k, t);
            && Linked(after, FreeNodes(base, Take(segs, i, t)))
            && LiveHeaders(after, Live(HEADER, base, Take(segs, i, t)))
            && OnlyLive(after, Live(HEADER, base, Take(segs, i, t)))
    ensures AddrOf(FreeNodes(base, Take(segs, i, t)), 0) ==
            if k > 0 then FreeNodes(base, segs)[0].addr
            else AddrOf(Remainder(FreeNodes(base, segs)[0], t) + FreeNodes(base, segs)[1..], 0)
  {
    TakeStepLinks(mem, base, segs, i, k, t);
    TakeStepHeaders(mem, base, segs, i, k, t);
    TakeStepOnlyLive(mem, base, segs, i, k, t);
    TakeNodes(base, segs, i, t);
    TakeHead(FreeNodes(base, segs), k, t, FreeNodes(base, Take(segs, i, t)));
  }

  lemma TakeHead(nodes: seq<Node>, k: nat, t: nat, after: seq<Node>)
    requires k < |nodes| && t <= nodes[k].size && after == nodes[..k] + Remainder(nodes[k], t) + nodes[k + 1..]
    ensures AddrOf(after, 0) == if k > 0 then nodes[0].addr else AddrOf(Remainder(nodes[0], t) + nodes[1..], 0)
  {
    if k > 0 {
      assert after[0] == nodes[0];
    } else {
      assert after == Remainder(nodes[0], t) + nodes[1..];
    }
  }

  lemma TakeStepLinks(mem: Memory, base: nat, segs: seq<Seg>, i: nat, k: nat, t: nat)
    requires base > 0 && i < |segs| && segs[i].free && MIN_BLOCK <= t <= HEADER + segs[i].len
    requires k == |FreeNodes(base, segs[..i])| && k < |FreeNodes(base, segs)|
    requires t <= FreeNodes(base, segs)[k].size && Linked(mem, FreeNodes(base, segs))
    ensures Linked(AfterTake(mem, FreeNodes(base, segs), k, t), FreeNodes(base, Take(segs, i, t)))
  {
    ShapeOf(base, segs);
    TakeNodes(base, segs, i, t);
    TakeLinks(mem, FreeNodes(base, segs), k, t);
  }

  /** The payload of block i once t bytes of it are taken, seen from the free list. */
  lemma TakenIs(base: nat, segs: seq<Seg>, i: nat, k: nat, t: nat)
    requires base > 0 && i < |segs| && segs[i].free && MIN_BLOCK <= t <= HEADER + segs[i].len
    requires k == |FreeNodes(base, segs[..i])| && k < |FreeNodes(base, segs)| && t <= FreeNodes(base, segs)[k].size
    ensures Live(HEADER, base, Take(segs, i, t)) ==
            Live(HEADER, base, segs) + {TakenPayload(FreeNodes(base, segs)[k], t)}
  {
    TakeNodes(base, segs, i, t);
    TakeLive(base, segs, i, t);
  }

  lemma TakeStepOnlyLive(mem: Memory, base: nat, segs: seq<Seg>, i: nat, k: nat, t: nat)
    requires base > 0 && i < |segs| && segs[i].free && MIN_BLOCK <= t <= HEADER + segs[i].len
    requires k == |FreeNodes(base, segs[..i])| && k < |FreeNodes(base, segs)| && t <= FreeNodes(base, segs)[k].size
    requires Linked(mem, FreeNodes(base, segs)) && OnlyLive(mem, Live(HEADER, base, segs))
    ensures OnlyLive(AfterTake(mem, FreeNodes(base, segs), k, t), Live(HEADER, base, Take(segs, i, t)))
  {
    TakenIs(base, segs, i, k, t);
    TakeOnlyLive(mem, FreeNodes(base, segs), k, Live(HEADER, base, segs), t);
  }

  lemma TakeStepHeaders(mem: Memory, base: nat, segs: seq<Seg>, i: nat, k: nat, t: nat)
    requires base > 0 && i < |segs| && segs[i].free && MIN_BLOCK <= t <= HEADER + segs[i].len
    requires k == |FreeNodes(base, segs[..i])| && k < |FreeNodes(base, segs)| && t <= FreeNodes(base, segs)[k].size
    requires LiveHeaders(mem, Live(HEADER, base, segs))
    ensures LiveHeaders(AfterTake(mem, FreeNodes(base, segs), k, t), Live(HEADER, base, Take(segs, i, t)))
  {
    TakenIs(base, segs, i, k, t);
    TakeNodes(base, segs, i, t);
    NoLiveHeaderInside(base, segs, i);
    AddrStep(HEADER, base, segs, i);
    LiveAndFreeApart(base, segs);
    TakeHeaders(mem, FreeNodes(base, segs), k, Live(HEADER, base, segs), t);
  }

  /** ptr is the payload of a live block. */
  ghost predicate IsLive(live: set<(nat, nat)>, ptr: nat) { exists p :: p in live && p.0 == ptr }

  /** The magic number tells exactly whether a pointer is live. */
  lemma LiveIffMagic(mem: Memory, live: set<(nat, nat)>, ptr: nat)
    requires LiveHeaders(mem, live) && OnlyLive(mem, live) && (ptr != 0 ==> ptr >= HEADER && ptr - HEADER in mem)
    ensures IsLive(live, ptr) <==> ptr != 0 && mem[ptr - HEADER].magic == LIVE_MAGIC
    ensures ptr != 0 && mem[ptr - HEADER].magic == LIVE_MAGIC ==>
              mem[ptr - HEADER].size >= HEADER && (ptr, mem[ptr - HEADER].size - HEADER) in live
  {
    if ptr != 0 {
      assert HonestHeader(mem, live, ptr - HEADER);
    }
    if p :| p in live && p.0 == ptr {
      assert LiveHeader(mem, p);
    }
  }

  /** No other live payload has the same address. */
  lemma GoneWith(base: nat, segs: seq<Seg>, p: (nat, nat))
    requires p in Live(HEADER, base, segs)
    ensures !IsLive(Live(HEADER, base, segs) - {p}, p.0)
  {
    forall q | q in Live(HEADER, base, segs) && q != p
      ensures q.0 != p.0
    {
      LiveDisjoint(HEADER, base, segs, p, q);
    }
  }

  /** The block behind a live payload. */
  lemma {:induction false} BlockOfPayload(base: nat, segs: seq<Seg>, p: (nat, nat)) returns (i: nat)
    requires p in Live(HEADER, base, segs)
    ensures i < |segs| && !segs[i].free && segs[i].len == p.1 && p.0 == Addr(HEADER, base, segs, i) + HEADER
    decreases |segs|
  {
    if !segs[0].free && p == (base + HEADER, segs[0].len) {
      i := 0;
    } else {
      i := BlockOfPayload(base + HEADER + segs[0].len, segs[1..], p);
      AddrShift(base, segs, i);
      i := i + 1;
    }
  }

  lemma AddrShift(base: nat, segs: seq<Seg>, i: nat)
    requires segs != [] && i < |segs| - 1
    ensures Addr(HEADER, base, segs, i + 1) == Addr(HEADER, base + HEADER + segs[0].len, segs[1..], i)
  {
    assert segs[..i + 1][1..] == segs[1..][..i];
  }

  /** What coalescing makes of the list with block i put back. */
  lemma DeleteEffect(base: nat, segs: seq<Seg>, i: nat)
    requires base > 0 && Good(base, segs) && i < |segs| && !segs[i].free
    ensures var f, s := segs[i := Seg(segs[i].len, true)], FreeSpec(HEADER, segs, i);
            && ListShape(FreeNodes(base, f)) && HeadersApart(Live(HEADER, base, f), FreeNodes(base, f))
            && Coal(FreeNodes(base, f)) == FreeNodes(base, s) && Live(HEADER, base, s) == Live(HEADER, base, f)
            && Good(base, s)
            && Live(HEADER, base, s) == Live(HEADER, base, segs) - {(Addr(HEADER, base, segs, i) + HEADER, segs[i].len)}
  {
    var f := segs[i := Seg(segs[i].len, true)];
    ShapeOf(base, f);
    LiveAndFreeApart(base, f);
    CoalIsMergeAll(base, f);
    MergeAllAfterFree(segs, i);
    MergeAllLive(base, f);
    FreeEffect(base, segs, i);
  }

  lemma SlotIsUnique(nodes: seq<Node>, block: nat, k: nat, at: nat)
    requires k <= |nodes| && at <= |nodes| && forall j :: 0 <= j < |nodes| ==> (j < at <==> nodes[j].addr < block)
    requires (forall j :: 0 <= j < k ==> nodes[j].addr < block) && (k < |nodes| ==> nodes[k].addr >= block)
    ensures k == at
  {
    assert k < |nodes| ==> k >= at;
    assert at < |nodes| ==> nodes[at].addr >= block;
  }

  /** All that operator delete needs to know about freeing block i. */
  lemma DeleteFacts(base: nat, segs: seq<Seg>, i: nat)
    requires Good(base, segs) && i < |segs| && !segs[i].free
    ensures var nodes, live, f := FreeNodes(base, segs), Live(HEADER, base, segs), segs[i := Seg(segs[i].len, true)];
            var at, block := |FreeNodes(base, segs[..i])|, Addr(HEADER, base, segs, i);
            && HeadersApart(live, nodes)
            && (block + HEADER, segs[i].len) in live
            && at <= |nodes|
            && (forall j :: 0 <= j < |nodes| ==> (j < at <==> nodes[j].addr < block))
            && FreeNodes(base, f) == PutNode(nodes, at, Node(block, HEADER + segs[i].len))
            && Live(HEADER, base, f) == live - {(block + HEADER, segs[i].len)}
  {
    FreePosition(base, segs, i);
    FreedNodes(base, segs, i);
    LiveAndFreeApart(base, segs);
    LiveAround(HEADER, base, segs, i);
    FlagEffect(HEADER, base, segs, i);
  }

  // --- the allocator ---

  class Heap {
    var mem: Memory
    var freeList: nat
    const base: nat          // address of heap_storage
    ghost var segs: seq<Seg> // the blocks that tile the arena

    ghost predicate Valid()
      reads this
    {
      && base > 0
      && Good(base, segs)
      && freeList == AddrOf(Nodes(), 0)
      && Linked(mem, Nodes())
      && LiveHeaders(mem, Payloads()) && OnlyLive(mem, Payloads())
    }

    ghost function Nodes(): seq<Node>
      reads this
    {
      FreeNodes(base, segs)
    }

    ghost function Payloads(): set<(nat, nat)>
      reads this
    {
      Live(HEADER, base, segs)
    }

    /** InitHeap: the whole arena is one free block. */
    constructor (storage: nat)
      requires storage > 0 && storage % 16 == 0
      ensures Valid() && base == storage
      ensures Payloads() == {} && Nodes() == [Node(storage, 0x20_0000)]
    {
      base := storage;
      mem := map[storage := Block(HEAP_SIZE, 0, FREE_MAGIC)];
      freeList := storage;
      segs := [Seg(HEAP_SIZE - HEADER, true)];
      new;
      assert segs[1..] == [];
      assert Live(HEADER, storage, segs) == {} + Live(HEADER, storage + HEAP_SIZE, []);
      assert Nodes() == [Node(storage, HEAP_SIZE)] + FreeNodes(storage + HEAP_SIZE, []);
      assert forall k :: !FreePair(segs, k);
    }

    /** The first-fit walk of operator new. */
    method FindFit(total: nat) returns (prev: nat, current: nat, ghost k: nat)
      requires ListShape(Nodes()) && freeList == AddrOf(Nodes(), 0) && Linked(mem, Nodes())
      ensures k <= |Nodes()| && current == AddrOf(Nodes(), k) && prev == if k == 0 then 0 else Nodes()[k - 1].addr
      ensures forall j :: 0 <= j < k ==> Nodes()[j].size < total
      ensures k < |Nodes()| ==> Nodes()[k].size >= total
    {
      prev, current, k := 0, freeList, 0;
      ghost var nodes := Nodes();
      assert nodes != [] ==> NodeAt(mem, nodes, 0);
      while current != 0 && mem[current].size < total
        invariant k <= |nodes| && current == AddrOf(nodes, k) && (current != 0 ==> NodeAt(mem, nodes, k))
        invariant prev == if k == 0 then 0 else nodes[k - 1].addr
        invariant forall j :: 0 <= j < k ==> nodes[j].size < total
        decreases |nodes| - k
      {
        prev, current := current, mem[current].next;
        k := k + 1;
        assert k < |nodes| ==> NodeAt(mem, nodes, k);
      }
    }

    /** The insertion walk of operator delete. */
    method FindSlot(block: nat, ghost nodes: seq<Node>) returns (prev: nat, current: nat, ghost k: nat)
      requires ListShape(nodes) && freeList == AddrOf(nodes, 0) && Linked(mem, nodes)
      ensures k <= |nodes| && current == AddrOf(nodes, k) && prev == if k == 0 then 0 else nodes[k - 1].addr
      ensures forall j :: 0 <= j < k ==> nodes[j].addr < block
      ensures k < |nodes| ==> nodes[k].addr >= block
    {
      prev, current, k := 0, freeList, 0;
      assert nodes != [] ==> NodeAt(mem, nodes, 0);
      while current != 0 && current < block
        invariant k <= |nodes| && current == AddrOf(nodes, k) && (current != 0 ==> NodeAt(mem, nodes, k))
        invariant prev == if k == 0 then 0 else nodes[k - 1].addr
        invariant forall j :: 0 <= j < k ==> nodes[j].addr < block
        decreases |nodes| - k
      {
        prev, current := current, mem[current].next;
        k := k + 1;
        assert k < |nodes| ==> NodeAt(mem, nodes, k);
      }
    }

    /** operator new. `need` is the request rounded up to 16, or 8 for an empty one. The lowest block that
        has room for it behind its header serves it, and is split if another 32 bytes or more are left. */
    method New(size: nat) returns (ptr: nat, ghost i: nat, ghost need: nat)
      requires Valid() && TotalSize(size) + MIN_BLOCK < SIZE_LIMIT
      modifies this`mem, this`freeList, this`segs
      ensures Valid()
      ensures if size == 0 then need == 8 else size <= need < size + 16 && need % 16 == 0
      ensures ptr == 0 <==> forall j :: 0 <= j < |old(segs)| && old(segs)[j].free ==> old(segs)[j].len < need
      ensures ptr == 0 ==> segs == old(segs)
      ensures ptr != 0 ==>
                && i < |old(segs)| && old(segs)[i].free && need <= old(segs)[i].len
                && segs == Take(old(segs), i, 24 + need)
                && segs[i].len == (if old(segs)[i].len >= need + 32 then need else old(segs)[i].len)
                && ptr == Addr(HEADER, base, old(segs), i) + 24 && ptr % 8 == 0
                && (ptr, segs[i].len) !in old(Payloads())
                && Payloads() == old(Payloads()) + {(ptr, segs[i].len)}
                && (forall j :: 0 <= j < i && old(segs)[j].free ==> old(segs)[j].len < need)
    {
      var total := TotalSize(size);
      need := total - HEADER;
      TotalIs(size);
      ghost var was := segs;
      ptr, i := Serve(total);
      ListTells(base, was, total, i);
      TakeSize(was, i, need);
    }

    /** The search and the split of operator new. */
    method Serve(total: nat) returns (ptr: nat, ghost i: nat)
      requires Valid() && total >= MIN_BLOCK && total % 8 == 0
      modifies this`mem, this`freeList, this`segs
      ensures Valid()
      ensures ptr == 0 <==> forall k :: 0 <= k < |old(Nodes())| ==> old(Nodes())[k].size < total
      ensures i < |old(segs)| && (ptr == 0 ==> segs == old(segs))
      ensures ptr != 0 ==>
                && i < |old(segs)| && old(segs)[i].free && total <= HEADER + old(segs)[i].len
                && segs == Take(old(segs), i, total)
                && ptr == Addr(HEADER, base, old(segs), i) + HEADER && ptr % 8 == 0
                && (ptr, segs[i].len) !in old(Payloads())
                && Payloads() == old(Payloads()) + {(ptr, segs[i].len)}
                && (forall k :: 0 <= k < |old(Nodes())| && old(Nodes())[k].addr < ptr - HEADER ==>
                      old(Nodes())[k].size < total)
    {
      ghost var nodes := Nodes();
      i := 0;
      ShapeOf(base, segs);
      var prev, current, k := FindFit(total);
      if current == 0 {
        return 0, i;
      }
      i := BlockOfNode(base, segs, k);
      TakeEffect(base, segs, i, total);
      PayloadAlignment(base, segs, i);
      LowerNodes(nodes, k, total);
      TakeBlock(prev, current, total, i, k);
      ptr := current + HEADER;
    }

    /** Turns block i, node k of the list, into a live block. */
    method TakeBlock(prev: nat, current: nat, total: nat, ghost i: nat, ghost k: nat)
      requires Valid()
      requires i < |segs| && segs[i].free && MIN_BLOCK <= total <= HEADER + segs[i].len && total % 8 == 0
      requires k == |FreeNodes(base, segs[..i])| && current == Addr(HEADER, base, segs, i)
      requires k <= |Nodes()| && prev == if k == 0 then 0 else Nodes()[k - 1].addr
      modifies this`mem, this`freeList, this`segs
      ensures Valid() && segs == Take(old(segs), i, total)
    {
      ShapeOf(base, segs);
      TakeNodes(base, segs, i, total);
      TakeStep(mem, base, segs, i, k, total);
      TakeEffect(base, segs, i, total);
      TakeNode(prev, current, total, Nodes(), k);
      segs := Take(segs, i, total);
    }

    /** The header writes of operator new. */
    method TakeNode(prev: nat, current: nat, total: nat, ghost nodes: seq<Node>, ghost k: nat)
      requires ListShape(nodes) && Linked(mem, nodes) && freeList == AddrOf(nodes, 0)
      requires k < |nodes| && current == nodes[k].addr && MIN_BLOCK <= total <= nodes[k].size
      requires prev == if k == 0 then 0 else nodes[k - 1].addr
      modifies this`mem, this`freeList
      ensures mem == AfterTake(old(mem), nodes, k, total)
      ensures freeList == if k > 0 then nodes[0].addr else AddrOf(Remainder(nodes[0], total) + nodes[1..], 0)
    {
      assert NodeAt(mem, nodes, k);
      ghost var before := mem;
      var rest := mem[current].next;
      var taken := mem[current].size;
      if mem[current].size >= total + MIN_BLOCK {
        rest := current + total;
        mem := mem[rest := Block(mem[current].size - total, mem[current].next, FREE_MAGIC)];
        taken := total;
      }
      if prev != 0 {
        assert NodeAt(before, nodes, k - 1);
        mem := mem[prev := mem[prev].(next := rest)];
      } else {
        freeList := rest;
      }
      mem := mem[current := Block(taken, 0, LIVE_MAGIC)];
    }

    /** operator delete: null and blocks without the live magic are ignored. That is everything but the
        payload of a live block, so deleting a block twice has no effect. */
    method Delete(ptr: nat) returns (ghost i: nat)
      requires Valid()
      requires ptr != 0 ==> ptr >= HEADER && ptr - HEADER in mem
      modifies this`mem, this`freeList, this`segs
      ensures Valid()
      ensures IsLive(old(Payloads()), ptr) <==> ptr != 0 && old(mem)[ptr - 24].magic == 0xDEAD_BEEF
      ensures !IsLive(old(Payloads()), ptr) ==> segs == old(segs) && mem == old(mem) && freeList == old(freeList)
      ensures IsLive(old(Payloads()), ptr) ==>
                && i < |old(segs)| && !old(segs)[i].free && ptr == Addr(HEADER, base, old(segs), i) + HEADER
                && segs == FreeSpec(HEADER, old(segs), i)
                && Payloads() == old(Payloads()) - {(ptr, old(segs)[i].len)}
                && !IsLive(Payloads(), ptr)
    {
      i := 0;
      LiveIffMagic(mem, Payloads(), ptr);
      if ptr == 0 {
        return;
      }
      var block := ptr - HEADER;
      if mem[block].magic != LIVE_MAGIC {
        return;
      }
      i := BlockOfPayload(base, segs, (ptr, mem[block].size - HEADER));
      GoneWith(base, segs, (ptr, segs[i].len));
      DeleteBlock(block, i);
    }

    /** The rest of operator delete, for live block i. */
    method DeleteBlock(block: nat, ghost i: nat)
      requires Valid() && i < |segs| && !segs[i].free && block == Addr(HEADER, base, segs, i)
      modifies this`mem, this`freeList, this`segs
      ensures Valid() && segs == FreeSpec(HEADER, old(segs), i)
      ensures Payloads() == old(Payloads()) - {(block + HEADER, old(segs)[i].len)}
    {
      DeleteEffect(base, segs, i);
      ghost var f := segs[i := Seg(segs[i].len, true)];
      PutBack(block, i);
      Coalesce(FreeNodes(base, f), Live(HEADER, base, f));
      segs := FreeSpec(HEADER, segs, i);
    }

    /** Links live block i into the free list; `segs` is updated only after coalescing. */
    method PutBack(block: nat, ghost i: nat)
      requires Valid() && i < |segs| && !segs[i].free && block == Addr(HEADER, base, segs, i)
      modifies this`mem, this`freeList
      ensures var f := segs[i := Seg(segs[i].len, true)];
              && Linked(mem, FreeNodes(base, f)) && freeList == AddrOf(FreeNodes(base, f), 0)
              && LiveHeaders(mem, Live(HEADER, base, f)) && OnlyLive(mem, Live(HEADER, base, f))
    {
      ShapeOf(base, segs);
      DeleteFacts(base, segs, i);
      LinkIn(block, Nodes(), |FreeNodes(base, segs[..i])|, Payloads(), (block + HEADER, segs[i].len));
    }

    /** Finds the place of the block with payload p by its address and puts it there. */
    method LinkIn(block: nat, ghost nodes: seq<Node>, ghost at: nat, ghost live: set<(nat, nat)>, ghost p: (nat, nat))
      requires ListShape(nodes) && Linked(mem, nodes) && freeList == AddrOf(nodes, 0)
      requires LiveHeaders(mem, live) && HeadersApart(live, nodes) && OnlyLive(mem, live)
      requires at <= |nodes| && forall j :: 0 <= j < |nodes| ==> (j < at <==> nodes[j].addr < block)
      requires p in live && p.0 == block + HEADER
      modifies this`mem, this`freeList
      ensures Linked(mem, PutNode(nodes, at, Node(block, HEADER + p.1)))
      ensures freeList == AddrOf(PutNode(nodes, at, Node(block, HEADER + p.1)), 0)
      ensures LiveHeaders(mem, live - {p}) && OnlyLive(mem, live - {p})
    {
      var prev, current, k := FindSlot(block, nodes);
      SlotIsUnique(nodes, block, k, at);
      Insert(prev, current, block, nodes, k, live, p);
    }

    /** Puts the live block with payload p back on the list, in front of node k. */
    method Insert(prev: nat, current: nat, block: nat,
                  ghost nodes: seq<Node>, ghost k: nat, ghost live: set<(nat, nat)>, ghost p: (nat, nat))
      requires ListShape(nodes) && Linked(mem, nodes) && LiveHeaders(mem, live) && HeadersApart(live, nodes)
      requires freeList == AddrOf(nodes, 0)
      requires k <= |nodes| && current == AddrOf(nodes, k) && prev == if k == 0 then 0 else nodes[k - 1].addr
      requires p in live && p.0 == block + HEADER && OnlyLive(mem, live)
      modifies this`mem, this`freeList
      ensures Linked(mem, PutNode(nodes, k, Node(block, HEADER + p.1)))
      ensures freeList == AddrOf(PutNode(nodes, k, Node(block, HEADER + p.1)), 0)
      ensures LiveHeaders(mem, live - {p}) && OnlyLive(mem, live - {p})
    {
      assert LiveHeader(mem, p);
      ghost var before := mem;
      mem := mem[block := Block(mem[block].size, current, FREE_MAGIC)];
      if prev != 0 {
        assert NodeAt(before, nodes, k - 1);
        mem := mem[prev := mem[prev].(next := block)];
      } else {
        freeList := block;
      }
      assert mem == AfterInsert(before, nodes, k, block, HEADER + p.1);
      assert forall j :: 0 <= j < |nodes| ==> nodes[j].addr != block by {
        assert forall j :: 0 <= j < |nodes| ==> p.0 != nodes[j].addr + HEADER;
      }
      InsertLinks(before, nodes, k, block, HEADER + p.1);
      InsertHeaders(before, nodes, k, live, p);
      InsertOnlyLive(before, nodes, k, live, p);
    }

    /** Merging the node at index k with its neighbour. */
    method Swallow(current: nat, next: nat, ghost l: seq<Node>, ghost k: nat, ghost live: set<(nat, nat)>)
      returns (ghost joined: seq<Node>)
      requires ListShape(l) && Linked(mem, l) && k + 1 < |l| && LiveHeaders(mem, live) && HeadersApart(live, l)
      requires NodeAt(mem, l, k) && NodeAt(mem, l, k + 1)
      requires current == AddrOf(l, k) && next == AddrOf(l, k + 1) && current + mem[current].size == next
      requires OnlyLive(mem, live)
      modifies this`mem
      ensures joined == Joined(l, k) && ListShape(joined) && Linked(mem, joined) && NodeAt(mem, joined, k)
      ensures LiveHeaders(mem, live) && HeadersApart(live, joined) && OnlyLive(mem, live)
    {
      ghost var before := mem;
      mem := mem[current := Block(mem[current].size + mem[next].size, mem[next].next, mem[current].magic)];
      JoinMemory(before, l, k, live, mem);
      JoinOnlyLive(before, live, current, mem);
      joined := Joined(l, k);
      assert NodeAt(mem, joined, k);
    }

    /** Coalesce: one walk over the free list. */
    method Coalesce(ghost nodes: seq<Node>, ghost live: set<(nat, nat)>)
      requires ListShape(nodes) && Linked(mem, nodes) && LiveHeaders(mem, live) && HeadersApart(live, nodes)
      requires freeList == AddrOf(nodes, 0) && OnlyLive(mem, live)
      modifies this`mem
      ensures Linked(mem, Coal(nodes)) && LiveHeaders(mem, live) && OnlyLive(mem, live)
      ensures freeList == AddrOf(Coal(nodes), 0)
    {
      ghost var l := nodes;
      ghost var k := 0;
      var current := freeList;
      assert l[0..] == l;
      assert l != [] ==> NodeAt(mem, l, 0);
      while current != 0 && mem[current].next != 0
        invariant k <= |l| && ListShape(l) && Linked(mem, l)
        invariant current == AddrOf(l, k) && freeList == AddrOf(l, 0)
        invariant current != 0 ==> k < |l| && NodeAt(mem, l, k)
        invariant Coal(nodes) == l[..k] + Coal(l[k..])
        invariant LiveHeaders(mem, live) && HeadersApart(live, l) && OnlyLive(mem, live)
        decreases |l| - k
      {
        assert NodeAt(mem, l, k + 1);
        var next := mem[current].next;
        if current + mem[current].size == next {
          CoalMerge(l, k);
          l := Swallow(current, next, l, k, live);
        } else {
          CoalSkip(l, k);
          current := next;
          k := k + 1;
        }
      }
      CoalDone(l, k);
    }
  }
}
