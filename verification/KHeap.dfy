/** The kernel heap of kernel/mm/heap.cpp: doubly linked segment headers, split and merged in place. */
module KHeap {
  import opened Tiling

  const HEADER: nat := 32          // sizeof(HeapSegmentHeader)
  const MAGIC: nat := 0xC0FFEE
  const SIZE_LIMIT: nat := 0x1_0000_0000_0000_0000  // size_t is 64 bits wide

  // --- segments as a value: lengths and free flags in address order ---

  function Align16(size: nat): nat
  {
    (size + 15) / 16 * 16
  }

  predicate Fits(seg: Seg, n: nat)
  {
    seg.free && (seg.len == n || seg.len > n + HEADER)
  }

  /** First fit: index of the first segment that fits, |segs| if none does. */
  function FirstFit(segs: seq<Seg>, n: nat): (i: nat)
    ensures i <= |segs|
    ensures i < |segs| ==> Fits(segs[i], n)
    ensures forall j :: 0 <= j < i ==> !Fits(segs[j], n)
  {
    if segs == [] || Fits(segs[0], n) then 0
    else
      var r := FirstFit(segs[1..], n);
      assert forall j :: 1 <= j < r + 1 ==> segs[j] == segs[1..][j - 1];
      r + 1
  }

  /** Segment i becomes an allocated segment of n bytes; what is left over stays free. */
  function Take(segs: seq<Seg>, i: nat, n: nat): seq<Seg>
    requires i < |segs| && Fits(segs[i], n)
  {
    if segs[i].len == n then segs[i := Seg(n, false)]
    else segs[..i] + [Seg(n, false), Seg(segs[i].len - n - HEADER, true)] + segs[i + 1..]
  }

  function AllocSpec(segs: seq<Seg>, n: nat): seq<Seg>
  {
    var i := FirstFit(segs, n);
    if n == 0 || i == |segs| then segs else Take(segs, i, n)
  }

  /** Every length but the last is a multiple of 16, so every header address is aligned like the base. */
  ghost predicate Aligned(segs: seq<Seg>)
  {
    forall i :: 0 <= i < |segs| - 1 ==> segs[i].len % 16 == 0
  }

  ghost predicate Good(base: nat, size: nat, segs: seq<Seg>)
  {
    && segs != []
    && Total(HEADER, segs) == size
    && NoAdjacentFree(segs) && Aligned(segs)
    && base % 16 == 0
  }

  // --- facts about the value level ---

  lemma {:induction false} LiveAligned(base: nat, segs: seq<Seg>, p: (nat, nat))
    requires base % 16 == 0 && Aligned(segs) && p in Live(HEADER, base, segs)
    ensures p.0 % 16 == 0
    decreases |segs|
  {
    if p != (base + HEADER, segs[0].len) || segs[0].free {
      assert segs[1..] != [];
      assert segs[0].len % 16 == 0;
      forall i | 0 <= i < |segs[1..]| - 1 ensures segs[1..][i].len % 16 == 0 {
        assert segs[1..][i] == segs[i + 1];
      }
      LiveAligned(base + HEADER + segs[0].len, segs[1..], p);
    }
  }

  lemma TakeEffect(base: nat, segs: seq<Seg>, i: nat, n: nat)
    requires i < |segs| && Fits(segs[i], n)
    ensures Total(HEADER, Take(segs, i, n)) == Total(HEADER, segs)
    ensures Live(HEADER, base, Take(segs, i, n)) ==
            Live(HEADER, base, segs) + {(Addr(HEADER, base, segs, i) + HEADER, n)}
  {
    var p, r := segs[..i], segs[i + 1..];
    Split3(segs, i);
    if segs[i].len == n {
      OccupyParts(HEADER, base, p, n, r);
      assert Take(segs, i, n) == p + [Seg(n, false)] + r;
    } else {
      CutAndOccupy(HEADER, base, p, n, segs[i].len - n - HEADER, r);
      assert Take(segs, i, n) == p + [Seg(n, false), Seg(segs[i].len - n - HEADER, true)] + r;
    }
  }

  lemma TakePairs(segs: seq<Seg>, i: nat, n: nat, k: int)
    requires i < |segs| && Fits(segs[i], n) && FreePair(Take(segs, i, n), k)
    ensures FreePair(segs, if segs[i].len == n || k < i then k else k - 1)
  {
    var t := Take(segs, i, n);
    if segs[i].len != n {
      assert t[k + 1] == if k + 1 < i then segs[k + 1] else segs[k];
    }
  }

  lemma TakeAligned(segs: seq<Seg>, i: nat, n: nat, k: nat)
    requires i < |segs| && Fits(segs[i], n) && n % 16 == 0 && Aligned(segs) && k < |Take(segs, i, n)| - 1
    ensures Take(segs, i, n)[k].len % 16 == 0
  {
    var t := Take(segs, i, n);
    if segs[i].len != n && k > i + 1 {
      assert t[k] == segs[k - 1];
    } else if segs[i].len != n && k == i + 1 {
      assert segs[i].len % 16 == 0 && t[k].len == segs[i].len - n - HEADER;
    }
  }

  lemma TakeKeepsShape(segs: seq<Seg>, i: nat, n: nat)
    requires i < |segs| && Fits(segs[i], n) && n % 16 == 0 && Aligned(segs) && NoAdjacentFree(segs)
    ensures NoAdjacentFree(Take(segs, i, n)) && Aligned(Take(segs, i, n))
  {
    forall k | FreePair(Take(segs, i, n), k)
      ensures FreePair(segs, if segs[i].len == n || k < i then k else k - 1)
    {
      TakePairs(segs, i, n, k);
    }
    forall k | 0 <= k < |Take(segs, i, n)| - 1
      ensures Take(segs, i, n)[k].len % 16 == 0
    {
      TakeAligned(segs, i, n, k);
    }
  }

  /** Allocation adds exactly one live payload, of exactly the rounded size, and moves no other. */
  lemma AllocEffect(base: nat, size: nat, segs: seq<Seg>, n: nat)
    requires Good(base, size, segs) && n > 0 && n % 16 == 0
    ensures var i := FirstFit(segs, n);
            && Good(base, size, AllocSpec(segs, n))
            && (i == |segs| ==> AllocSpec(segs, n) == segs)
            && (i < |segs| ==>
                  && (Addr(HEADER, base, segs, i) + HEADER, n) !in Live(HEADER, base, segs)
                  && Live(HEADER, base, AllocSpec(segs, n)) ==
                     Live(HEADER, base, segs) + {(Addr(HEADER, base, segs, i) + HEADER, n)})
  {
    var i := FirstFit(segs, n);
    if i < |segs| {
      TakeEffect(base, segs, i, n);
      NewPayload(HEADER, base, segs, i, n);
      TakeKeepsShape(segs, i, n);
    }
  }

  lemma MergeAligned(segs: seq<Seg>, i: nat)
    requires i < |segs| && Aligned(segs)
    ensures Aligned(MergeRight(HEADER, segs, i))
  {
    var m := MergeRight(HEADER, segs, i);
    forall k | 0 <= k < |m| - 1 ensures m[k].len % 16 == 0 {
      if m != segs && k >= i {
        assert segs[i].len % 16 == 0 && segs[k + 1].len % 16 == 0;
      }
    }
  }

  /** Free removes exactly the freed payload, keeps every other one in place, and coalesces. */
  lemma FreeEffect(base: nat, size: nat, segs: seq<Seg>, i: nat)
    requires Good(base, size, segs) && i < |segs|
    ensures Good(base, size, FreeSpec(HEADER, segs, i))
    ensures Live(HEADER, base, FreeSpec(HEADER, segs, i)) ==
            Live(HEADER, base, segs) - {(Addr(HEADER, base, segs, i) + HEADER, segs[i].len)}
  {
    FlagEffect(HEADER, base, segs, i);
    var f := segs[i := Seg(segs[i].len, true)];
    assert Aligned(f);
    MergeEffect(HEADER, base, f, i);
    MergeAligned(f, i);
    FreeShape(HEADER, segs, i);
    if i > 0 {
      MergeEffect(HEADER, base, MergeRight(HEADER, f, i), i - 1);
      MergeAligned(MergeRight(HEADER, f, i), i - 1);
    }
  }

  /** Freeing a block that was just allocated restores the segment list exactly. */
  lemma FreeUndoesAlloc(segs: seq<Seg>, n: nat)
    requires NoAdjacentFree(segs) && n > 0 && FirstFit(segs, n) < |segs|
    ensures FreeSpec(HEADER, AllocSpec(segs, n), FirstFit(segs, n)) == segs
  {
    FreeUndoesTake(segs, FirstFit(segs, n), n);
  }

  lemma FreeUndoesTake(segs: seq<Seg>, i: nat, n: nat)
    requires NoAdjacentFree(segs) && i < |segs| && Fits(segs[i], n)
    ensures FreeSpec(HEADER, Take(segs, i, n), i) == segs
  {
    var f := Take(segs, i, n)[i := Seg(n, true)];
    assert !FreePair(segs, i) && (i > 0 ==> !FreePair(segs, i - 1));
    assert MergeRight(HEADER, f, i) == segs;
  }

  // --- accounting ---

  function FreeBytes(segs: seq<Seg>): nat
  {
    if segs == [] then 0 else (if segs[0].free then segs[0].len else 0) + FreeBytes(segs[1..])
  }

  function AllocatedBytes(segs: seq<Seg>): nat
  {
    if segs == [] then 0 else (if segs[0].free then 0 else segs[0].len) + AllocatedBytes(segs[1..])
  }

  lemma {:induction false} Accounting(segs: seq<Seg>)
    ensures Total(HEADER, segs) == FreeBytes(segs) + AllocatedBytes(segs) + HEADER * |segs|
  {
    if segs != [] {
      Accounting(segs[1..]);
    }
  }

  lemma {:induction false} FreeBytesConcat(a: seq<Seg>, b: seq<Seg>)
    ensures FreeBytes(a + b) == FreeBytes(a) + FreeBytes(b)
  {
    if a == [] {
      assert a + b == b;
    } else {
      assert (a + b)[1..] == a[1..] + b;
      FreeBytesConcat(a[1..], b);
    }
  }

  lemma {:induction false} TakeAllocated(segs: seq<Seg>, i: nat, n: nat)
    requires i < |segs| && Fits(segs[i], n)
    ensures AllocatedBytes(Take(segs, i, n)) == AllocatedBytes(segs) + n
  {
    var t := Take(segs, i, n);
    if i > 0 {
      TakeAllocated(segs[1..], i - 1, n);
      assert t[1..] == Take(segs[1..], i - 1, n);
    } else if segs[0].len == n {
      assert t[1..] == segs[1..];
    } else {
      assert t[1..][1..] == segs[1..];
    }
  }

  lemma {:induction false} FlagAllocated(segs: seq<Seg>, i: nat)
    requires i < |segs|
    ensures AllocatedBytes(segs[i := Seg(segs[i].len, true)]) ==
            AllocatedBytes(segs) - if segs[i].free then 0 else segs[i].len
  {
    var f := segs[i := Seg(segs[i].len, true)];
    if i > 0 {
      FlagAllocated(segs[1..], i - 1);
      assert f[1..] == segs[1..][i - 1 := Seg(segs[i].len, true)];
    } else {
      assert f[1..] == segs[1..];
    }
  }

  lemma {:induction false} MergeAllocated(segs: seq<Seg>, i: nat)
    requires i < |segs|
    ensures AllocatedBytes(MergeRight(HEADER, segs, i)) == AllocatedBytes(segs)
  {
    var m := MergeRight(HEADER, segs, i);
    if FreePair(segs, i) && i > 0 {
      MergeAllocated(segs[1..], i - 1);
      assert m[1..] == MergeRight(HEADER, segs[1..], i - 1);
    } else if FreePair(segs, i) {
      assert m[1..] == segs[1..][1..];
    }
  }

  /** The allocated bytes grow by an allocation's rounded size and shrink by what is freed. */
  lemma UsedMoves(segs: seq<Seg>, n: nat, i: nat)
    requires i < |segs|
    ensures FirstFit(segs, n) < |segs| && n > 0 ==>
            AllocatedBytes(AllocSpec(segs, n)) == AllocatedBytes(segs) + n
    ensures AllocatedBytes(FreeSpec(HEADER, segs, i)) == AllocatedBytes(segs) - if segs[i].free then 0 else segs[i].len
  {
    if FirstFit(segs, n) < |segs| {
      TakeAllocated(segs, FirstFit(segs, n), n);
    }
    var f := segs[i := Seg(segs[i].len, true)];
    FlagAllocated(segs, i);
    MergeAllocated(f, i);
    if i > 0 {
      MergeAllocated(MergeRight(HEADER, f, i), i - 1);
    }
  }

  // --- headers in memory ---

  datatype Header = Header(length: nat, next: nat, prev: nat, free: bool, magic: nat)

  type Memory = map<nat, Header>  // headers by address; 0 is the null pointer

  function HeaderOf(base: nat, segs: seq<Seg>, i: nat): Header
    requires i < |segs|
  {
    Header(segs[i].len,
           if i + 1 < |segs| then Addr(HEADER, base, segs, i + 1) else 0,
           if i > 0 then Addr(HEADER, base, segs, i - 1) else 0,
           segs[i].free, MAGIC)
  }

  /** Memory holds the segments as one doubly linked list that tiles the heap in address order. */
  ghost predicate Linked(mem: Memory, base: nat, segs: seq<Seg>)
  {
    forall i :: 0 <= i < |segs| ==> At(mem, base, segs, i)
  }

  ghost predicate At(mem: Memory, base: nat, segs: seq<Seg>, i: nat)
    requires i < |segs|
  {
    var a := Addr(HEADER, base, segs, i);
    a in mem && mem[a] == HeaderOf(base, segs, i)
  }

  /** Replacing one segment by two of the same total size shifts indices, not addresses. */
  lemma AddrAfterSplit(base: nat, one: seq<Seg>, two: seq<Seg>, i: nat, j: nat)
    requires i < |one| && |two| == |one| + 1 && i + 1 <= j <= |one|
    requires one[..i] == two[..i] && one[i + 1..] == two[i + 2..]
    requires one[i].len == two[i].len + HEADER + two[i + 1].len
    ensures Addr(HEADER, base, two, j + 1) == Addr(HEADER, base, one, j)
    decreases j
  {
    AddrStep(HEADER, base, one, j - 1);
    AddrStep(HEADER, base, two, j);
    if j == i + 1 {
      AddrStep(HEADER, base, two, i);
    } else {
      assert one[i + 1..][j - 1 - (i + 1)] == one[j - 1];
      assert two[i + 2..][j - (i + 2)] == two[j];
      AddrAfterSplit(base, one, two, i, j - 1);
    }
  }

  /** The list with one segment where the other has two: indices past i are shifted by one. */
  ghost predicate SplitAt(one: seq<Seg>, two: seq<Seg>, i: nat)
  {
    && i < |one| && |two| == |one| + 1
    && one[..i] == two[..i] && one[i + 1..] == two[i + 2..]
    && one[i].len == two[i].len + HEADER + two[i + 1].len
  }

  lemma SplitAddresses(base: nat, one: seq<Seg>, two: seq<Seg>, i: nat)
    requires SplitAt(one, two, i)
    ensures forall j :: 0 <= j <= i ==> Addr(HEADER, base, two, j) == Addr(HEADER, base, one, j)
    ensures forall j :: i + 1 <= j <= |one| ==> Addr(HEADER, base, two, j + 1) == Addr(HEADER, base, one, j)
    ensures forall j :: 0 <= j < i ==> two[j] == one[j]
    ensures forall j :: i + 1 <= j < |one| ==> two[j + 1] == one[j]
  {
    forall j | 0 <= j <= i ensures Addr(HEADER, base, two, j) == Addr(HEADER, base, one, j) {
      assert one[..j] == one[..i][..j] == two[..i][..j] == two[..j];
    }
    forall j | i + 1 <= j <= |one| ensures Addr(HEADER, base, two, j + 1) == Addr(HEADER, base, one, j) {
      AddrAfterSplit(base, one, two, i, j);
    }
    forall j | 0 <= j < i ensures two[j] == one[j] {
      assert one[..i][j] == two[..i][j];
    }
    forall j | i + 1 <= j < |one| ensures two[j + 1] == one[j] {
      assert one[i + 1..][j - (i + 1)] == two[i + 2..][j + 1 - (i + 2)];
    }
  }

  /** Linking a new header in after segment i, with `after` the memory that results. */
  lemma SplitLinked(mem: Memory, base: nat, one: seq<Seg>, two: seq<Seg>, i: nat, after: Memory)
    requires base > 0 && SplitAt(one, two, i) && Linked(mem, base, one)
    requires var cur := Addr(HEADER, base, one, i);
             var rest := cur + HEADER + two[i].len;
             var h := HeaderOf(base, one, i);
             var m := mem[rest := Header(two[i + 1].len, h.next, cur, two[i + 1].free, MAGIC)];
             var back := if h.next != 0 && h.next in m then m[h.next := m[h.next].(prev := rest)] else m;
             after == back[cur := Header(two[i].len, rest, h.prev, two[i].free, MAGIC)]
    ensures Linked(after, base, two)
  {
    SplitAddresses(base, one, two, i);
    AddrStep(HEADER, base, two, i);
    var cur := Addr(HEADER, base, one, i);
    var rest := cur + HEADER + two[i].len;
    assert At(mem, base, one, i);
    if i + 1 < |one| {
      assert At(mem, base, one, i + 1);
      AddrIncreasing(HEADER, base, two, i + 1, i + 2);
    }
    forall j | 0 <= j < |two| ensures At(after, base, two, j) {
      if j < i {
        assert At(mem, base, one, j);
        AddrIncreasing(HEADER, base, two, j, i);
        AddrIncreasing(HEADER, base, two, j, i + 1);
        if i + 1 < |one| { AddrIncreasing(HEADER, base, two, j, i + 2); }
      } else if j > i + 2 {
        assert At(mem, base, one, j - 1);
        AddrIncreasing(HEADER, base, two, i, j);
        AddrIncreasing(HEADER, base, two, i + 1, j);
        AddrIncreasing(HEADER, base, two, i + 2, j);
      }
    }
  }

  /** Unlinking segment i + 1 into segment i, with `after` the memory that results. */
  lemma MergeLinked(mem: Memory, base: nat, two: seq<Seg>, one: seq<Seg>, i: nat, after: Memory)
    requires base > 0 && SplitAt(one, two, i) && Linked(mem, base, two)
    requires two[i].free == one[i].free
    requires var a := Addr(HEADER, base, two, i);
             var h, g := HeaderOf(base, two, i), HeaderOf(base, two, i + 1);
             var joined := mem[a := Header(one[i].len, g.next, h.prev, h.free, MAGIC)];
             after == if g.next != 0 && g.next in joined then joined[g.next := joined[g.next].(prev := a)] else joined
    ensures Linked(after, base, one)
  {
    SplitAddresses(base, one, two, i);
    assert At(mem, base, two, i);
    assert At(mem, base, two, i + 1);
    if i + 2 < |two| {
      assert At(mem, base, two, i + 2);
      AddrIncreasing(HEADER, base, two, i, i + 2);
    }
    forall j | 0 <= j < |one| ensures At(after, base, one, j) {
      if j < i {
        assert At(mem, base, two, j);
        AddrIncreasing(HEADER, base, two, j, i);
        if i + 2 < |two| { AddrIncreasing(HEADER, base, two, j, i + 2); }
      } else if j > i + 1 {
        assert At(mem, base, two, j + 1);
        AddrIncreasing(HEADER, base, two, i, j + 1);
        AddrIncreasing(HEADER, base, two, i + 2, j + 1);
      }
    }
  }

  /** Changing only the free flag of one header. */
  lemma FlagLinked(mem: Memory, base: nat, segs: seq<Seg>, i: nat, free: bool)
    requires Linked(mem, base, segs) && i < |segs|
    ensures var a := Addr(HEADER, base, segs, i);
            a in mem && Linked(mem[a := mem[a].(free := free)], base, segs[i := Seg(segs[i].len, free)])
  {
    assert At(mem, base, segs, i);
    var a := Addr(HEADER, base, segs, i);
    var t := segs[i := Seg(segs[i].len, free)];
    FlagAddresses(HEADER, base, segs, i, free);
    var after := mem[a := mem[a].(free := free)];
    forall j | 0 <= j < |t| ensures At(after, base, t, j) {
      assert At(mem, base, segs, j);
      if j < i {
        AddrIncreasing(HEADER, base, segs, j, i);
      } else if i < j {
        AddrIncreasing(HEADER, base, segs, i, j);
      }
    }
  }

  // --- headers that a merge has swallowed ---

  /** a is the header of a segment, not one that was swallowed. */
  ghost predicate Current(base: nat, segs: seq<Seg>, a: nat)
  {
    exists i :: 0 <= i < |segs| && a == Addr(HEADER, base, segs, i)
  }

  /** What a look at two headers can tell: a's predecessor points to a. */
  predicate LinkedBack(mem: Memory, base: nat, a: nat)
  {
    a == base || (a in mem && mem[a].prev in mem && mem[mem[a].prev].next == a)
  }

  ghost predicate LinksOk(mem: Memory, a: nat)
    requires a in mem
  {
    && (mem[a].next != 0 ==> a < mem[a].next && mem[a].next in mem)
    && (mem[a].prev != 0 ==> mem[a].prev < a && mem[a].prev in mem)
  }

  /** Links of all headers, swallowed ones included, lead to headers further up or down. */
  ghost predicate Ordered(mem: Memory)
  {
    0 !in mem && forall a {:trigger LinksOk(mem, a)} :: a in mem ==> LinksOk(mem, a)
  }

  /** Nothing points back to a swallowed header. */
  ghost predicate Forgotten(mem: Memory, base: nat, segs: seq<Seg>)
  {
    forall a {:trigger LinkedBack(mem, base, a)} :: a in mem && !Current(base, segs, a) ==> !LinkedBack(mem, base, a)
  }

  ghost predicate Sound(mem: Memory, base: nat, segs: seq<Seg>)
  {
    base > 0 && segs != [] && Linked(mem, base, segs) && Ordered(mem) && Forgotten(mem, base, segs)
  }

  /** The magic stays in swallowed headers, but the links tell them apart. */
  lemma CurrentIffLinkedBack(mem: Memory, base: nat, segs: seq<Seg>, a: nat)
    requires Sound(mem, base, segs) && a in mem
    ensures Current(base, segs, a) <==> LinkedBack(mem, base, a)
  {
    if i :| 0 <= i < |segs| && a == Addr(HEADER, base, segs, i) {
      assert At(mem, base, segs, i);
      if i > 0 {
        assert At(mem, base, segs, i - 1);
      } else {
        assert segs[..0] == [];
      }
    }
  }

  lemma CurrentLinks(mem: Memory, base: nat, segs: seq<Seg>, a: nat)
    requires base > 0 && Linked(mem, base, segs) && Current(base, segs, a)
    ensures a in mem && LinksOk(mem, a) && a >= base
    ensures mem[a].next != 0 ==> Current(base, segs, mem[a].next)
  {
    var i :| 0 <= i < |segs| && a == Addr(HEADER, base, segs, i);
    assert At(mem, base, segs, i);
    if i + 1 < |segs| {
      assert At(mem, base, segs, i + 1);
      AddrIncreasing(HEADER, base, segs, i, i + 1);
    }
    if i > 0 {
      assert At(mem, base, segs, i - 1);
      AddrIncreasing(HEADER, base, segs, i - 1, i);
    }
  }

  /** A step that leaves swallowed headers alone and swallows only headers whose predecessor stays. */
  lemma StepSound(mem: Memory, base: nat, one: seq<Seg>, after: Memory, two: seq<Seg>)
    requires Sound(mem, base, one) && two != [] && Linked(after, base, two)
    requires mem.Keys <= after.Keys
    requires forall a :: a in after && !Current(base, two, a) ==> a in mem && after[a] == mem[a]
    requires forall a :: a in mem && Current(base, one, a) && !Current(base, two, a) ==> Current(base, two, mem[a].prev)
    ensures Sound(after, base, two)
  {
    forall a | a in after
      ensures LinksOk(after, a) && a != 0
      ensures !Current(base, two, a) ==> !LinkedBack(after, base, a)
    {
      if Current(base, two, a) {
        CurrentLinks(after, base, two, a);
      } else {
        assert LinksOk(mem, a);
        FirstCurrent(base, two);
        var p := mem[a].prev;
        if p in after && Current(base, two, p) {
          CurrentLinks(after, base, two, p);
        } else if p in after {
          CurrentIffLinkedBack(mem, base, one, a);
        }
      }
    }
  }

  lemma FirstCurrent(base: nat, segs: seq<Seg>)
    requires segs != []
    ensures Current(base, segs, base)
  {
    assert segs[..0] == [];
    assert Addr(HEADER, base, segs, 0) == base;
  }

  lemma SplitCurrent(base: nat, one: seq<Seg>, two: seq<Seg>, i: nat, a: nat)
    requires SplitAt(one, two, i)
    ensures Current(base, two, a) <==> Current(base, one, a) || a == Addr(HEADER, base, two, i + 1)
  {
    SplitAddresses(base, one, two, i);
    if j :| 0 <= j < |two| && a == Addr(HEADER, base, two, j) {
      assert j <= i ==> a == Addr(HEADER, base, one, j);
      assert j > i + 1 ==> a == Addr(HEADER, base, one, j - 1);
    }
    if j :| 0 <= j < |one| && a == Addr(HEADER, base, one, j) {
      assert a == Addr(HEADER, base, two, if j <= i then j else j + 1);
    }
  }

  /** The headers a split writes are all current afterwards. */
  lemma SplitTouches(mem: Memory, base: nat, one: seq<Seg>, two: seq<Seg>, i: nat, after: Memory)
    requires SplitAt(one, two, i) && Linked(mem, base, one)
    requires var cur, next := Addr(HEADER, base, one, i), HeaderOf(base, one, i).next;
             forall a :: a in after && a != cur && a != cur + HEADER + two[i].len && (next == 0 || a != next) ==>
               a in mem && after[a] == mem[a]
    ensures forall a :: a in after && !Current(base, two, a) ==> a in mem && after[a] == mem[a]
  {
    SplitAddresses(base, one, two, i);
    AddrStep(HEADER, base, two, i);
    assert Current(base, two, Addr(HEADER, base, two, i));
    assert Current(base, two, Addr(HEADER, base, two, i + 1));
    if i + 1 < |one| {
      assert Current(base, two, Addr(HEADER, base, two, i + 2));
    }
  }

  lemma SplitSound(mem: Memory, base: nat, one: seq<Seg>, two: seq<Seg>, i: nat, after: Memory)
    requires Sound(mem, base, one) && SplitAt(one, two, i) && Linked(after, base, two) && mem.Keys <= after.Keys
    requires forall a :: a in after && !Current(base, two, a) ==> a in mem && after[a] == mem[a]
    ensures Sound(after, base, two)
  {
    forall a | Current(base, one, a)
      ensures Current(base, two, a)
    {
      SplitCurrent(base, one, two, i, a);
    }
    StepSound(mem, base, one, after, two);
  }

  lemma FlagSound(mem: Memory, base: nat, segs: seq<Seg>, i: nat, free: bool)
    requires Sound(mem, base, segs) && i < |segs|
    ensures var a := Addr(HEADER, base, segs, i);
            a in mem && Sound(mem[a := mem[a].(free := free)], base, segs[i := Seg(segs[i].len, free)])
  {
    FlagLinked(mem, base, segs, i, free);
    FlagAddresses(HEADER, base, segs, i, free);
    var a, t := Addr(HEADER, base, segs, i), segs[i := Seg(segs[i].len, free)];
    assert Addr(HEADER, base, t, i) == a;
    forall b | Current(base, segs, b)
      ensures Current(base, t, b)
    {
      var j :| 0 <= j < |segs| && b == Addr(HEADER, base, segs, j);
      assert b == Addr(HEADER, base, t, j);
    }
    StepSound(mem, base, segs, mem[a := mem[a].(free := free)], t);
  }

  // --- freeing, on headers ---

  /** The writes of CombineFreeSegments. */
  function Swallowed(mem: Memory, a: nat, b: nat): (r: Memory)
    requires a in mem && b in mem && (mem[b].next != 0 ==> mem[b].next in mem)
    ensures r.Keys == mem.Keys
  {
    var h, g := mem[a], mem[b];
    var joined := mem[a := h.(length := h.length + g.length + HEADER, next := g.next)];
    if g.next != 0 then joined[g.next := joined[g.next].(prev := a)] else joined
  }

  lemma SwallowedOrdered(mem: Memory, a: nat, b: nat)
    requires Ordered(mem) && a in mem && b in mem && a < b
    ensures mem[b].next != 0 ==> mem[b].next in mem
    ensures Ordered(Swallowed(mem, a, b))
  {
    assert LinksOk(mem, b);
    forall x | x in mem
      ensures LinksOk(Swallowed(mem, a, b), x)
    {
      assert LinksOk(mem, x);
    }
  }

  function Combined(mem: Memory, a: nat, b: nat): (r: Memory)
    requires Ordered(mem) && (a != 0 ==> a in mem) && (b != 0 ==> b in mem)
    ensures Ordered(r) && r.Keys == mem.Keys
  {
    if a == 0 || b == 0 || !mem[a].free || !mem[b].free || mem[a].next != b then mem
    else
      assert LinksOk(mem, a);
      SwallowedOrdered(mem, a, b);
      Swallowed(mem, a, b)
  }

  function Flagged(mem: Memory, a: nat): (r: Memory)
    requires Ordered(mem) && a in mem
    ensures Ordered(r) && r.Keys == mem.Keys
  {
    var r := mem[a := mem[a].(free := true)];
    assert forall x {:trigger LinksOk(r, x)} :: x in mem && LinksOk(mem, x) ==> LinksOk(r, x);
    r
  }

  function JoinedNext(mem: Memory, a: nat): (r: Memory)
    requires Ordered(mem) && a in mem
    ensures Ordered(r) && r.Keys == mem.Keys
  {
    assert LinksOk(mem, a);
    if mem[a].next != 0 && mem[mem[a].next].free then Combined(mem, a, mem[a].next) else mem
  }

  function JoinedPrev(mem: Memory, a: nat): (r: Memory)
    requires Ordered(mem) && a in mem
    ensures Ordered(r) && r.Keys == mem.Keys
  {
    assert LinksOk(mem, a);
    if mem[a].prev != 0 && mem[mem[a].prev].free then Combined(mem, mem[a].prev, a) else mem
  }

  /** Everything Free does to the headers once the magic is found. */
  function Freed(mem: Memory, a: nat): (r: Memory)
    requires Ordered(mem) && a in mem
    ensures Ordered(r) && r.Keys == mem.Keys
  {
    JoinedPrev(JoinedNext(Flagged(mem, a), a), a)
  }

  /** CombineFreeSegments on segment i: anything but two free neighbours is left alone. */
  lemma CombinedSound(mem: Memory, base: nat, segs: seq<Seg>, i: nat, b: nat)
    requires Sound(mem, base, segs) && i < |segs| && (b != 0 ==> b in mem)
    ensures Addr(HEADER, base, segs, i) in mem
    ensures Sound(Combined(mem, Addr(HEADER, base, segs, i), b), base,
                  if i + 1 < |segs| && b == Addr(HEADER, base, segs, i + 1) then MergeRight(HEADER, segs, i) else segs)
  {
    assert At(mem, base, segs, i);
    if i + 1 < |segs| && b == Addr(HEADER, base, segs, i + 1) {
      assert At(mem, base, segs, i + 1);
      if segs[i].free && segs[i + 1].free {
        SwallowedSound(mem, base, segs, i);
      }
    }
  }

  /** Two free neighbours become one segment. */
  lemma SwallowedSound(mem: Memory, base: nat, segs: seq<Seg>, i: nat)
    requires Sound(mem, base, segs) && i + 1 < |segs| && segs[i].free && segs[i + 1].free
    ensures var a, b := Addr(HEADER, base, segs, i), Addr(HEADER, base, segs, i + 1);
            && a in mem && b in mem && (mem[b].next != 0 ==> mem[b].next in mem)
            && Sound(Swallowed(mem, a, b), base, MergeRight(HEADER, segs, i))
  {
    var a, b := Addr(HEADER, base, segs, i), Addr(HEADER, base, segs, i + 1);
    assert At(mem, base, segs, i);
    assert At(mem, base, segs, i + 1);
    AddrIncreasing(HEADER, base, segs, i, i + 1);
    var one := MergeRight(HEADER, segs, i);
    assert one[..i] == segs[..i] && one[i + 1..] == segs[i + 2..];
    assert LinksOk(mem, b);
    var after := Swallowed(mem, a, b);
    MergeLinked(mem, base, segs, one, i, after);
    SplitAddresses(base, one, segs, i);
    assert a == Addr(HEADER, base, one, i);
    if i + 2 < |segs| {
      assert mem[b].next == Addr(HEADER, base, one, i + 1);
    }
    forall x | Current(base, segs, x) && !Current(base, one, x)
      ensures x == b
    {
      SplitCurrent(base, one, segs, i, x);
    }
    StepSound(mem, base, segs, after, one);
  }

  /** Freeing a segment frees and merges it, and the headers stay sound. */
  lemma FreedCurrent(mem: Memory, base: nat, segs: seq<Seg>, i: nat)
    requires Sound(mem, base, segs) && i < |segs|
    ensures Addr(HEADER, base, segs, i) in mem
    ensures Sound(Freed(mem, Addr(HEADER, base, segs, i)), base, FreeSpec(HEADER, segs, i))
  {
    var a, t := Addr(HEADER, base, segs, i), segs[i := Seg(segs[i].len, true)];
    FlagSound(mem, base, segs, i, true);
    FlagAddresses(HEADER, base, segs, i, true);
    var m := Flagged(mem, a);
    JoinedNextSound(m, base, t, i);
    var u := MergeRight(HEADER, t, i);
    AddrSame(HEADER, base, t, u, i);
    JoinedPrevSound(JoinedNext(m, a), base, u, i);
  }

  lemma JoinedNextSound(mem: Memory, base: nat, segs: seq<Seg>, i: nat)
    requires Sound(mem, base, segs) && i < |segs| && segs[i].free
    ensures Addr(HEADER, base, segs, i) in mem
    ensures Sound(JoinedNext(mem, Addr(HEADER, base, segs, i)), base, MergeRight(HEADER, segs, i))
  {
    assert At(mem, base, segs, i);
    if i + 1 < |segs| {
      assert At(mem, base, segs, i + 1);
      CombinedSound(mem, base, segs, i, Addr(HEADER, base, segs, i + 1));
    }
  }

  lemma JoinedPrevSound(mem: Memory, base: nat, segs: seq<Seg>, i: nat)
    requires Sound(mem, base, segs) && i < |segs| && segs[i].free
    ensures Addr(HEADER, base, segs, i) in mem
    ensures Sound(JoinedPrev(mem, Addr(HEADER, base, segs, i)), base,
                  if i > 0 then MergeRight(HEADER, segs, i - 1) else segs)
  {
    assert At(mem, base, segs, i);
    if i > 0 {
      assert At(mem, base, segs, i - 1);
      CombinedSound(mem, base, segs, i - 1, Addr(HEADER, base, segs, i));
    }
  }

  /** A swallowed header does not lead Free to another header's links. */
  predicate Harmless(mem: Memory, a: nat)
    requires a in mem
  {
    mem[a].next == 0 || mem[a].next !in mem || !mem[mem[a].next].free || mem[mem[a].next].next == 0
  }

  /** Freeing a swallowed header keeps the headers sound if and only if it is harmless. */
  lemma FreedStale(mem: Memory, base: nat, segs: seq<Seg>, a: nat)
    requires Sound(mem, base, segs) && a in mem && !Current(base, segs, a)
    ensures Sound(Freed(mem, a), base, segs) <==> Harmless(mem, a)
  {
    var m := JoinedNext(Flagged(mem, a), a);
    FreedNoPrev(mem, base, segs, a);
    assert LinksOk(mem, a);
    if Harmless(mem, a) {
      assert m == mem[a := m[a]] && m[a].prev == mem[a].prev && m[a].next in {0, mem[a].next};
      forall i | 0 <= i < |segs| ensures At(m, base, segs, i) {
        assert At(mem, base, segs, i);
      }
      forall x | x in m && !Current(base, segs, x)
        ensures !LinkedBack(m, base, x)
      {
        assert !LinkedBack(mem, base, x);
      }
    } else {
      var g := mem[a].next;
      assert LinksOk(mem, g);
      var x := mem[g].next;
      assert m[x].prev == a && m[a].next == x;
      if Current(base, segs, x) {
        var i :| 0 <= i < |segs| && x == Addr(HEADER, base, segs, i);
        assert !At(m, base, segs, i);
      } else {
        assert LinkedBack(m, base, x);
      }
    }
  }

  /** It is never merged to the left, as nothing points back to it. */
  lemma FreedNoPrev(mem: Memory, base: nat, segs: seq<Seg>, a: nat)
    requires Sound(mem, base, segs) && a in mem && !Current(base, segs, a)
    ensures Freed(mem, a) == JoinedNext(Flagged(mem, a), a)
  {
    assert LinksOk(mem, a) && !LinkedBack(mem, base, a);
    if mem[a].next != 0 {
      assert LinksOk(mem, mem[a].next);
    }
    var m := JoinedNext(Flagged(mem, a), a);
    assert m[a].prev == mem[a].prev;
    assert mem[a].prev != 0 ==> m[mem[a].prev].next == mem[mem[a].prev].next;
  }

  // --- the allocator ---

  class Heap {
    var mem: Memory
    var firstSegment: nat
    var heapSize: nat
    ghost var segs: seq<Seg>  // the segments that `mem` links together

    ghost predicate Valid()
      reads this
    {
      Good(firstSegment, heapSize, segs) && Sound(mem, firstSegment, segs)
    }

    /** The allocated payloads. */
    ghost function Payloads(): set<(nat, nat)>
      reads this
    {
      Live(HEADER, firstSegment, segs)
    }

    constructor (startAddress: nat, size: nat)
      requires startAddress > 0 && startAddress % 16 == 0 && size >= HEADER
      ensures Valid() && firstSegment == startAddress && heapSize == size
      ensures segs == [Seg(size - 32, true)] && Payloads() == {}
      ensures mem == map[startAddress := Header(size - 32, 0, 0, true, 0xC0FFEE)]
    {
      firstSegment := startAddress;
      heapSize := size;
      mem := map[startAddress := Header(size - HEADER, 0, 0, true, MAGIC)];
      segs := [Seg(size - HEADER, true)];
      new;
      assert At(mem, startAddress, segs, 0);
      assert segs[1..] == [];
      assert Live(HEADER, startAddress, segs) == {} + Live(HEADER, startAddress + size, []);
    }

    /** Allocates the first n bytes of a larger free segment and links the rest in behind it. */
    method Split(current: nat, ghost i: nat, n: nat)
      requires Sound(mem, firstSegment, segs)
      requires i < |segs| && current == Addr(HEADER, firstSegment, segs, i) && segs[i].free && segs[i].len > n + HEADER
      modifies this`mem, this`segs
      ensures Sound(mem, firstSegment, segs) && segs == Take(old(segs), i, n)
    {
      assert At(mem, firstSegment, segs, i);
      var h := mem[current];
      var newSegment := current + HEADER + n;
      ghost var before := mem;
      mem := mem[newSegment := Header(h.length - n - HEADER, h.next, current, true, MAGIC)];
      if h.next != 0 {
        assert At(before, firstSegment, segs, i + 1);
        mem := mem[h.next := mem[h.next].(prev := newSegment)];
      }
      mem := mem[current := Header(n, newSegment, h.prev, false, h.magic)];
      ghost var two := Take(segs, i, n);
      assert two[..i] == segs[..i] && two[i + 2..] == segs[i + 1..];
      SplitLinked(before, firstSegment, segs, two, i, mem);
      SplitTouches(before, firstSegment, segs, two, i, mem);
      SplitSound(before, firstSegment, segs, two, i, mem);
      segs := two;
    }

    /** Takes n bytes of segment i into use: all of it, or the front after a split. */
    method Occupy(current: nat, ghost i: nat, n: nat)
      requires Sound(mem, firstSegment, segs)
      requires i < |segs| && current == Addr(HEADER, firstSegment, segs, i) && Fits(segs[i], n)
      modifies this`mem, this`segs
      ensures Sound(mem, firstSegment, segs) && segs == Take(old(segs), i, n)
    {
      assert At(mem, firstSegment, segs, i);
      if mem[current].length == n {
        FlagSound(mem, firstSegment, segs, i, false);
        mem := mem[current := mem[current].(free := false)];
        segs := segs[i := Seg(n, false)];
      } else {
        Split(current, i, n);
      }
    }

    /** First fit, splitting a segment that is more than one header too large. `len` is the request rounded
        up to 16, the size of the new payload, and i the segment that serves it: the first free one that has
        just that size or more than a header besides. */
    method Allocate(size: nat) returns (ptr: nat, ghost len: nat, ghost i: nat)
      requires Valid() && size + 15 + HEADER < SIZE_LIMIT
      modifies this`mem, this`segs
      ensures Valid() && segs == AllocSpec(old(segs), len)
      ensures size <= len < size + 16 && len % 16 == 0
      ensures ptr == 0 <==>
              size == 0 || forall j :: 0 <= j < |old(segs)| && old(segs)[j].free ==>
                             old(segs)[j].len < len || len < old(segs)[j].len <= len + 32
      ensures ptr == 0 ==> segs == old(segs)
      ensures ptr != 0 ==>
                && ptr % 16 == 0 && (ptr, len) !in old(Payloads()) && Payloads() == old(Payloads()) + {(ptr, len)}
                && i < |old(segs)| && ptr == Addr(HEADER, firstSegment, old(segs), i) + 32
                && old(segs)[i].free && (old(segs)[i].len == len || old(segs)[i].len > len + 32)
                && forall j :: 0 <= j < i && old(segs)[j].free ==>
                     old(segs)[j].len < len || len < old(segs)[j].len <= len + 32
    {
      var n := Align16(size);
      len, i := n, 0;
      if n == 0 {
        return 0, len, i;
      }
      AllocEffect(firstSegment, heapSize, segs, n);
      var current := firstSegment;
      while current != 0
        invariant i <= |segs| && segs == old(segs) && mem == old(mem)
        invariant current == if i < |segs| then Addr(HEADER, firstSegment, segs, i) else 0
        invariant forall j :: 0 <= j < i ==> !Fits(segs[j], n)
        decreases |segs| - i
      {
        assert At(mem, firstSegment, segs, i);
        var h := mem[current];
        if h.free {
          if h.length == n || h.length > n + HEADER {
            Occupy(current, i, n);
            LiveAligned(firstSegment, segs, (current + HEADER, n));
            return current + HEADER, len, i;
          }
        }
        current := h.next;
        i := i + 1;
      }
      return 0, len, i;
    }

    /** CombineFreeSegments. */
    method Combine(a: nat, b: nat)
      requires Ordered(mem) && (a != 0 ==> a in mem) && (b != 0 ==> b in mem)
      modifies this`mem
      ensures mem == Combined(old(mem), a, b)
    {
      if a == 0 || b == 0 {
        return;
      }
      if !mem[a].free || !mem[b].free {
        return;
      }
      if mem[a].next != b {
        return;
      }
      assert LinksOk(mem, a) && LinksOk(mem, b);
      mem := mem[a := mem[a].(length := mem[a].length + mem[b].length + HEADER)];
      mem := mem[a := mem[a].(next := mem[b].next)];
      if mem[b].next != 0 {
        mem := mem[mem[b].next := mem[mem[b].next].(prev := a)];
      }
    }

    /** The writes of Free behind a header with the magic. */
    method FreeHeader(header: nat)
      requires Ordered(mem) && header in mem
      modifies this`mem
      ensures mem == Freed(old(mem), header)
    {
      ghost var flagged := Flagged(mem, header);
      mem := mem[header := mem[header].(free := true)];
      assert mem == flagged;
      assert LinksOk(mem, header);
      if mem[header].next != 0 && mem[mem[header].next].free {
        Combine(header, mem[header].next);
      }
      assert LinksOk(mem, header);
      if mem[header].prev != 0 && mem[mem[header].prev].free {
        Combine(mem[header].prev, header);
      }
    }

    /** Null and pointers without the magic are ignored. A pointer to a segment frees it. One to a swallowed
        header, which keeps its magic, leaves the heap valid if and only if that header is harmless. */
    method Free(ptr: nat) returns (ghost i: nat)
      requires Valid()
      requires ptr != 0 ==> ptr >= HEADER && ptr - HEADER in mem
      modifies this`mem, this`segs
      ensures ptr == 0 || old(mem)[ptr - HEADER].magic != MAGIC ==> Valid() && mem == old(mem) && segs == old(segs)
      ensures ptr != 0 && old(mem)[ptr - HEADER].magic == MAGIC ==> mem == Freed(old(mem), ptr - HEADER)
      ensures ptr != 0 && old(mem)[ptr - HEADER].magic == MAGIC && LinkedBack(old(mem), firstSegment, ptr - HEADER) ==>
                && Valid() && i < |old(segs)| && ptr == Addr(HEADER, firstSegment, old(segs), i) + HEADER
                && segs == FreeSpec(HEADER, old(segs), i)
                && Payloads() == old(Payloads()) - {(ptr, old(segs)[i].len)}
      ensures ptr != 0 && old(mem)[ptr - HEADER].magic == MAGIC && !LinkedBack(old(mem), firstSegment, ptr - HEADER) ==>
                segs == old(segs) && (Valid() <==> Harmless(old(mem), ptr - HEADER))
    {
      i := 0;
      if ptr == 0 {
        return;
      }
      var header := ptr - HEADER;
      if mem[header].magic != MAGIC {
        return;
      }
      FreeHeader(header);
      CurrentIffLinkedBack(old(mem), firstSegment, segs, header);
      if LinkedBack(old(mem), firstSegment, header) {
        i :| 0 <= i < |segs| && header == Addr(HEADER, firstSegment, segs, i);
        FreeEffect(firstSegment, heapSize, segs, i);
        FreedCurrent(old(mem), firstSegment, segs, i);
        segs := FreeSpec(HEADER, segs, i);
      } else {
        FreedStale(old(mem), firstSegment, segs, header);
      }
    }

    /** GetFree walks the list; GetUsed is the rest of the heap minus the first header. */
    method GetUsed() returns (used: int)
      requires Valid()
      ensures used == AllocatedBytes(segs) + 32 * (|segs| - 1)
    {
      var free := 0;
      var current := firstSegment;
      ghost var i := 0;
      while current != 0
        invariant i <= |segs|
        invariant current == if i < |segs| then Addr(HEADER, firstSegment, segs, i) else 0
        invariant free == FreeBytes(segs[..i])
        decreases |segs| - i
      {
        assert At(mem, firstSegment, segs, i);
        assert segs[..i + 1] == segs[..i] + [segs[i]];
        FreeBytesConcat(segs[..i], [segs[i]]);
        if mem[current].free { free := free + mem[current].length; }
        current := mem[current].next;
        i := i + 1;
      }
      assert segs[..i] == segs;
      Accounting(segs);
      used := heapSize - free - HEADER;
    }
  }

  // --- a block freed twice ---

  const USED: Seg := Seg(16, false)

  lemma TakeBehind(used: seq<Seg>, len: nat)
    requires (forall i :: 0 <= i < |used| ==> used[i] == USED) && len > 16 + HEADER
    ensures AllocSpec(used + [Seg(len, true)], 16) == used + [USED] + [Seg(len - 16 - HEADER, true)]
  {
    var segs := used + [Seg(len, true)];
    assert Fits(segs[|used|], 16);
    assert FirstFit(segs, 16) == |used|;
    assert segs[..|used|] == used && segs[|used| + 1..] == [];
  }

  method AllocateBehind(heap: Heap, ghost used: seq<Seg>, ghost len: nat)
    requires heap.Valid() && heap.segs == used + [Seg(len, true)]
    requires (forall i :: 0 <= i < |used| ==> used[i] == USED) && len > 16 + HEADER
    modifies heap`mem, heap`segs
    ensures heap.Valid() && heap.segs == used + [USED] + [Seg(len - 16 - HEADER, true)]
  {
    TakeBehind(used, len);
    var _, _, _ := heap.Allocate(16);
  }

  /** A heap of 1024 bytes at 4096 after four allocations of 16 bytes. */
  method FourBlocks() returns (heap: Heap)
    ensures fresh(heap) && heap.Valid() && heap.firstSegment == 4096
    ensures heap.segs == [USED, USED, USED, USED, Seg(800, true)]
  {
    heap := new Heap(4096, 1024);
    for k := 0 to 4
      invariant fresh(heap) && heap.Valid() && heap.firstSegment == 4096
      invariant heap.segs == seq(k, _ => USED) + [Seg(992 - 48 * k, true)]
    {
      AllocateBehind(heap, seq(k, _ => USED), 992 - 48 * k);
      assert seq(k, _ => USED) + [USED] == seq(k + 1, _ => USED);
    }
    assert heap.segs == seq(4, _ => USED) + [Seg(800, true)];
  }

  /** The headers of its four blocks. */
  predicate FourHeaders(mem: Memory)
  {
    && 4096 in mem && mem[4096] == Header(16, 4144, 0, false, MAGIC)
    && 4144 in mem && mem[4144] == Header(16, 4192, 4096, false, MAGIC)
    && 4192 in mem && mem[4192] == Header(16, 4240, 4144, false, MAGIC)
    && 4240 in mem && mem[4240] == Header(16, 4288, 4192, false, MAGIC)
  }

  lemma FourAddresses(mem: Memory)
    requires Linked(mem, 4096, [USED, USED, USED, USED, Seg(800, true)])
    ensures FourHeaders(mem)
  {
    var segs := [USED, USED, USED, USED, Seg(800, true)];
    assert segs[..0] == [];
    AddrStep(HEADER, 4096, segs, 0);
    AddrStep(HEADER, 4096, segs, 1);
    AddrStep(HEADER, 4096, segs, 2);
    AddrStep(HEADER, 4096, segs, 3);
    assert At(mem, 4096, segs, 0) && At(mem, 4096, segs, 1) && At(mem, 4096, segs, 2) && At(mem, 4096, segs, 3);
  }

  /** The second, the first and the third block are freed, then the second again: its header is no
      segment any more and not harmless, and the list of segments is broken. */
  method DoubleFreeBreaks() returns (heap: Heap)
    ensures fresh(heap) && !heap.Valid()
  {
    heap := FourBlocks();
    ghost var i;
    FourAddresses(heap.mem);
    i := heap.Free(4144 + HEADER);
    i := heap.Free(4096 + HEADER);
    i := heap.Free(4192 + HEADER);
    i := heap.Free(4144 + HEADER);
  }
}
