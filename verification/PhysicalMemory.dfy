/** The page allocator of kernel/mm/pmm.cpp. */
module PhysicalMemory {
  import opened Basics
  import opened Counting
  import B = Bitmap

  const PAGE: nat := 4096
  const WORD: nat := 0x1_0000_0000_0000_0000  // freeRAM is a size_t
  const LOW_PAGES: nat := 0x1_0000            // 256 MB
  const KERNEL_START: nat := 0x4_0000         // 0x40000000 / 4096
  const KERNEL_END: nat := 0x4_1000           // 16 MB further up
  const MIN_ADDRESSABLE: nat := 0x100_0000    // 16 MB

  predicate IsClear(used: bool) { !used }

  /** p is the lowest clear page in lo..hi. */
  ghost predicate FirstClear(used: seq<bool>, lo: nat, hi: nat, p: nat)
    requires hi <= |used|
  {
    lo <= p < hi && !used[p] && forall j :: lo <= j < p ==> used[j]
  }

  /** The page AllocPage takes: the first clear one from the hint on, else from the beginning. */
  function NextPage(used: seq<bool>, hint: nat, limit: nat): (page: Option<nat>)
    requires hint <= limit <= |used|
    ensures page.None? <==> forall j :: 0 <= j < limit ==> used[j]
    ensures page.Some? ==>
              || FirstClear(used, hint, limit, page.value)
              || ((forall j :: hint <= j < limit ==> used[j]) && FirstClear(used, 0, hint, page.value))
  {
    var i := ClearFrom(used, hint, limit);
    if i < limit then Some(i)
    else
      var j := ClearFrom(used, 0, hint);
      if j < hint then Some(j) else None
  }

  /** The first clear page in lo..hi; hi if there is none. */
  function ClearFrom(used: seq<bool>, lo: nat, hi: nat): (i: nat)
    requires lo <= hi <= |used|
    ensures lo <= i <= hi && (forall j :: lo <= j < i ==> used[j]) && (i < hi ==> !used[i])
    decreases hi - lo
  {
    if lo == hi || !used[lo] then lo else ClearFrom(used, lo + 1, hi)
  }

  /** What AllocPage returns: page 0 has the address of a null pointer. */
  function AddressOf(page: Option<nat>): nat { if page.Some? then page.value * PAGE else 0 }

  /** Page 0 is clear and it is its turn. */
  predicate ZeroIsNext(used: seq<bool>, hint: nat, limit: nat)
    requires hint <= limit <= |used|
  {
    limit > 0 && !used[0] && (hint == 0 || forall j :: hint <= j < limit ==> used[j])
  }

  /** AllocPage reports failure if and only if no page below the limit is clear or page 0 is its pick. */
  lemma NullIffNoneOrZero(used: seq<bool>, hint: nat, limit: nat)
    requires hint <= limit <= |used|
    ensures AddressOf(NextPage(used, hint, limit)) == 0 <==>
            (forall j :: 0 <= j < limit ==> used[j]) || ZeroIsNext(used, hint, limit)
    ensures NextPage(used, hint, limit) == Some(0) <==> ZeroIsNext(used, hint, limit)
  {
  }

  /** n clear pages starting at s, all below the limit. */
  ghost predicate ClearRun(used: seq<bool>, s: nat, n: nat, limit: nat)
    requires limit <= |used|
  {
    s + n <= limit && forall j :: s <= j < s + n ==> !used[j]
  }

  /** The naive search: s is the lowest start at or above `from` of n clear pages. */
  ghost predicate LowestRun(used: seq<bool>, from: nat, n: nat, limit: nat, s: nat)
    requires limit <= |used|
  {
    && from <= s && ClearRun(used, s, n, limit)
    && forall r :: from <= r < s ==> !ClearRun(used, r, n, limit)
  }

  lemma {:induction false} SetEachSnoc(bits: seq<bool>, index: nat, count: nat, value: bool)
    requires index + count < |bits|
    ensures B.SetEach(bits, index, count + 1, value) == B.SetEach(bits, index, count, value)[index + count := value]
    decreases count
  {
    if count > 0 {
      SetEachSnoc(bits[index := value], index + 1, count - 1, value);
    }
  }

  /** The n pages from s on. */
  ghost function Pages(s: nat, n: nat): (r: set<nat>)
    ensures forall p :: p in r <==> s <= p < s + n
  {
    if n == 0 then {} else Pages(s, n - 1) + {s + n - 1}
  }

  /** How far freeRAM is off the number of clear bits. */
  function Drift(free: nat, used: seq<bool>): int
  {
    (free - PAGE * Count(used, IsClear)) % WORD
  }

  lemma WrapStep(free: int, clear: int)
    ensures ((free - PAGE) % WORD - PAGE * (clear - 1)) % WORD == (free - PAGE * clear) % WORD
    ensures ((free + PAGE) % WORD - PAGE * (clear + 1)) % WORD == (free - PAGE * clear) % WORD
  {
  }

  /** Taking or freeing one page moves freeRAM and the clear bits in step, also across a wrap. */
  lemma DriftKept(free: nat, used: seq<bool>, page: nat)
    requires page < |used|
    ensures !used[page] ==> Drift((free - PAGE) % WORD, used[page := true]) == Drift(free, used)
    ensures used[page] ==> Drift((free + PAGE) % WORD, used[page := false]) == Drift(free, used)
  {
    CountUpdate(used, page, !used[page], IsClear);
    WrapStep(free, Count(used, IsClear));
  }

  class Pmm {
    const bitmap: B.Bitmap
    const highestAddr: nat
    var freeRAM: nat
    var lastFreeIndex: nat
    ghost var held: set<nat>   // pages handed out and not given back
    ghost var zeroFreed: bool  // FreePage was called for page 0

    ghost function Used(): seq<bool>
      reads bitmap.data
    {
      B.Bits(bitmap.data[..])
    }

    function Limit(): nat
    {
      highestAddr / PAGE
    }

    ghost predicate Valid()
      reads this, bitmap.data
    {
      && Limit() <= |Used()|
      && lastFreeIndex <= Limit()
      && freeRAM < WORD
      && (forall p :: p in held ==> 0 < p < |Used()| && Used()[p])
      && (!zeroFreed ==> |Used()| > 0 && Used()[0])
    }

    constructor (bitmap: B.Bitmap, highestAddr: nat, freeRAM: nat)
      requires highestAddr / PAGE <= 8 * bitmap.data.Length && freeRAM < WORD
      requires bitmap.data.Length > 0 && B.Bits(bitmap.data[..])[0]
      ensures Valid() && this.bitmap == bitmap && this.highestAddr == highestAddr && this.freeRAM == freeRAM
      ensures held == {} && !zeroFreed && lastFreeIndex == 0
    {
      this.bitmap := bitmap;
      this.highestAddr := highestAddr;
      this.freeRAM := freeRAM;
      lastFreeIndex, held, zeroFreed := 0, {}, false;
    }

    /** Marks a clear page used and accounts for it. */
    method Take(page: nat)
      requires page < |Used()| && !Used()[page] && freeRAM < WORD
      modifies this`freeRAM, bitmap.data
      ensures Used() == old(Used())[page := true] && freeRAM < WORD
      ensures Drift(freeRAM, Used()) == old(Drift(freeRAM, Used()))
    {
      DriftKept(freeRAM, Used(), page);
      bitmap.Set(page, true);
      freeRAM := (freeRAM - PAGE) % WORD;
    }

    /** Marks a used page clear and accounts for it. */
    method Release(page: nat)
      requires page < |Used()| && Used()[page] && freeRAM < WORD
      modifies this`freeRAM, bitmap.data
      ensures Used() == old(Used())[page := false] && freeRAM < WORD
      ensures Drift(freeRAM, Used()) == old(Drift(freeRAM, Used()))
    {
      DriftKept(freeRAM, Used(), page);
      bitmap.Set(page, false);
      freeRAM := (freeRAM + PAGE) % WORD;
    }

    /** From the hint upwards, then from the beginning up to the hint. The result is an address, and null
        both when no page is clear and when the page taken is page 0; the latter needs FreePage(0) before. */
    method AllocPage() returns (addr: nat)
      requires Valid()
      modifies this`freeRAM, this`lastFreeIndex, this`held, bitmap.data
      ensures Valid() && Drift(freeRAM, Used()) == old(Drift(freeRAM, Used()))
      ensures var page := NextPage(old(Used()), old(lastFreeIndex), Limit());
              && addr == AddressOf(page)
              && (page.None? ==> Used() == old(Used()) && held == old(held) && lastFreeIndex == old(lastFreeIndex))
              && (page.Some? ==>
                    && page.value !in old(held)
                    && held == old(held) + (if addr == 0 then {} else {page.value})
                    && Used() == old(Used())[page.value := true]
                    && lastFreeIndex == page.value + 1)
      ensures addr == 0 <==> (forall j :: 0 <= j < Limit() ==> old(Used())[j])
                             || ZeroIsNext(old(Used()), old(lastFreeIndex), Limit())
      ensures !zeroFreed ==> (addr == 0 <==> forall j :: 0 <= j < Limit() ==> old(Used())[j])
    {
      NullIffNoneOrZero(Used(), lastFreeIndex, Limit());
      var page := FindPage();
      if page.Some? {
        Take(page.value);
        lastFreeIndex := page.value + 1;
        held := held + if page.value == 0 then {} else {page.value};
      }
      addr := AddressOf(page);
    }

    /** Both search loops of AllocPage. */
    method FindPage() returns (page: Option<nat>)
      requires Valid()
      ensures page == NextPage(Used(), lastFreeIndex, Limit())
    {
      page := FindClear(lastFreeIndex, Limit());
      if page.None? {
        page := FindClear(0, lastFreeIndex);
      }
    }

    /** One of the two search loops of AllocPage. */
    method FindClear(lo: nat, hi: nat) returns (page: Option<nat>)
      requires lo <= hi <= |Used()|
      ensures page == var i := ClearFrom(Used(), lo, hi); if i < hi then Some(i) else None
    {
      for i := lo to hi
        invariant forall j :: lo <= j < i ==> Used()[j]
      {
        var used := bitmap.Get(i);
        if !used {
          return Some(i);
        }
      }
      return None;
    }

    /** The skip-ahead search of AllocContiguous. */
    method FindRun(from: nat, pages: nat) returns (start: Option<nat>)
      requires Valid() && pages <= Limit()
      ensures start.Some? ==> LowestRun(Used(), from, pages, Limit(), start.value)
      ensures start.None? ==> forall r :: from <= r ==> !ClearRun(Used(), r, pages, Limit())
    {
      var limit := Limit();
      var s := from;
      while s <= limit - pages
        invariant from <= s
        invariant forall r :: from <= r < s ==> !ClearRun(Used(), r, pages, limit)
        decreases limit - s
      {
        var found := true;
        var i := 0;
        ghost var began := s;
        while i < pages && found
          invariant i <= pages && began <= s
          invariant found ==> s == began && forall j :: s <= j < s + i ==> !Used()[j]
          invariant !found ==> s < began + pages && s < limit && Used()[s]
          decreases pages - i
        {
          var used := bitmap.Get(s + i);
          if used {
            found := false;
            s := s + i;
          }
          i := i + 1;
        }
        if found {
          return Some(s);
        }
        forall r | began <= r <= s ensures !ClearRun(Used(), r, pages, limit) {
          assert r <= s < r + pages;
        }
        s := s + 1;
      }
      return None;
    }

    /** The marking loop of AllocContiguous. */
    method TakeRun(s: nat, pages: nat)
      requires freeRAM < WORD && s + pages <= |Used()| && forall j :: s <= j < s + pages ==> !Used()[j]
      modifies this`freeRAM, bitmap.data
      ensures freeRAM < WORD && |Used()| == |old(Used())| && Used() == B.SetEach(old(Used()), s, pages, true)
      ensures Drift(freeRAM, Used()) == old(Drift(freeRAM, Used()))
    {
      ghost var was := Used();
      for i := 0 to pages
        invariant |Used()| == |was| && Used() == B.SetEach(was, s, i, true)
        invariant Drift(freeRAM, Used()) == Drift(old(freeRAM), was) && freeRAM < WORD
      {
        B.SetEachAt(was, s, i, true, s + i);
        SetEachSnoc(was, s, i, true);
        Take(s + i);
      }
    }

    /** n consecutive pages at or above 256 MB and the hint. */
    method AllocContiguous(pages: nat) returns (start: Option<nat>)
      requires Valid() && pages <= Limit()
      modifies this`freeRAM, this`lastFreeIndex, this`held, bitmap.data
      ensures Valid() && Drift(freeRAM, Used()) == old(Drift(freeRAM, Used()))
      ensures var from := if old(lastFreeIndex) > 0x1_0000 then old(lastFreeIndex) else 0x1_0000;
              && (start.None? ==> forall r :: from <= r ==> !ClearRun(old(Used()), r, pages, Limit()))
              && (start.Some? ==> LowestRun(old(Used()), from, pages, Limit(), start.value))
      ensures start.None? ==> Used() == old(Used()) && held == old(held) && lastFreeIndex == old(lastFreeIndex)
      ensures start.Some? ==>
                && start.value + pages <= |old(Used())|
                && Used() == B.SetEach(old(Used()), start.value, pages, true)
                && (forall p :: start.value <= p < start.value + pages ==> p !in old(held))
                && held == old(held) + Pages(start.value, pages)
                && lastFreeIndex ==
                    if start.value + pages > old(lastFreeIndex) then start.value + pages else old(lastFreeIndex)
    {
      var from := if lastFreeIndex > LOW_PAGES then lastFreeIndex else LOW_PAGES;
      start := FindRun(from, pages);
      if start.None? {
        return;
      }
      var s := start.value;
      ghost var was := Used();
      TakeRun(s, pages);
      if s + pages > lastFreeIndex {
        lastFreeIndex := s + pages;
      }
      held := held + Pages(s, pages);
      forall p | p in held || p == 0
        ensures p < |was| ==> Used()[p] == (s <= p < s + pages || was[p])
      {
        if p < |was| {
          B.SetEachAt(was, s, pages, true, p);
        }
      }
    }

    /** Clears the bit of the address's page if it was set. A null pointer stands for page 0 here too. */
    method FreePage(addr: nat)
      requires Valid() && addr / PAGE < |Used()|
      modifies this`freeRAM, this`held, this`zeroFreed, bitmap.data
      ensures Valid() && Drift(freeRAM, Used()) == old(Drift(freeRAM, Used())) && lastFreeIndex == old(lastFreeIndex)
      ensures Used() == old(Used())[addr / PAGE := false] && held == old(held) - {addr / PAGE}
      ensures zeroFreed == (old(zeroFreed) || addr / PAGE == 0)
    {
      var page := addr / PAGE;
      var used := bitmap.Get(page);
      if used {
        Release(page);
      }
      held := held - {page};
      zeroFreed := zeroFreed || page == 0;
    }

    /** Page 0 is freed and taken again at once, if the search starts there. */
    method FreeAndAllocZero() returns (given: nat)
      requires Valid() && lastFreeIndex == 0 && Limit() > 0 && Used()[0]
      modifies this`freeRAM, this`lastFreeIndex, this`held, this`zeroFreed, bitmap.data
      ensures given == 0 && Used() == old(Used())
    {
      FreePage(0);
      given := AllocPage();
      assert Used() == old(Used());
    }
  }

  // --- PMM::Init ---

  datatype Descriptor = Descriptor(kind: nat, physAddr: nat, numPages: nat)

  /** LoaderCode, LoaderData, BootServicesCode, BootServicesData, ConventionalMemory. */
  predicate IsUsableMemory(kind: nat)
  {
    kind == 7 || kind == 3 || kind == 4 || kind == 1 || kind == 2
  }

  function RegionEnd(d: Descriptor): nat
  {
    d.physAddr + d.numPages * PAGE
  }

  /** Page p is one of the descriptor's, counted from the page its address lies in. */
  predicate InDescriptor(d: Descriptor, p: nat)
  {
    0 <= p - d.physAddr / 4096 < d.numPages
  }

  ghost predicate Usable(m: seq<Descriptor>, p: nat)
  {
    exists i :: 0 <= i < |m| && m[i].kind in {1, 2, 3, 4, 7} && InDescriptor(m[i], p)
  }

  /** Pages Init takes back: the bitmap itself, the low 256 MB, the kernel image. */
  predicate Reserved(p: nat, bitmapAddr: nat, bitmapSize: nat)
  {
    || bitmapAddr / 4096 <= p < bitmapAddr / 4096 + (bitmapSize + 4095) / 4096
    || p < 0x1_0000
    || 0x4_0000 <= p < 0x4_1000
  }

  /** No region ends at or above 2^64, where the source's sum would wrap. */
  predicate EndsFit(m: seq<Descriptor>)
  {
    forall i :: 0 <= i < |m| ==> RegionEnd(m[i]) < WORD
  }

  /** high is the highest region end, at least 16 MB. */
  ghost predicate IsHighest(m: seq<Descriptor>, high: nat)
  {
    && MIN_ADDRESSABLE <= high
    && (forall i :: 0 <= i < |m| ==> RegionEnd(m[i]) <= high)
    && (high == MIN_ADDRESSABLE || exists i :: 0 <= i < |m| && RegionEnd(m[i]) == high)
  }

  function BitmapSize(high: nat): nat
  {
    high / PAGE / 8 + 1
  }

  function UsableBytes(m: seq<Descriptor>): nat
  {
    if m == [] then 0
    else UsableBytes(m[..|m| - 1]) + (if IsUsableMemory(m[|m| - 1].kind) then m[|m| - 1].numPages * PAGE else 0)
  }

  /** Init's approximation: a reserved range is subtracted only if that much is left. */
  function LessReserved(free: nat, pages: nat): nat
  {
    if free >= pages * PAGE then free - pages * PAGE else free
  }

  method HighestAddress(m: seq<Descriptor>) returns (high: nat)
    requires EndsFit(m)
    ensures IsHighest(m, high)
  {
    high := 0;
    for i := 0 to |m|
      invariant forall j :: 0 <= j < i ==> RegionEnd(m[j]) <= high
      invariant high == 0 || exists j :: 0 <= j < i && RegionEnd(m[j]) == high
    {
      var regionEnd := RegionEnd(m[i]) % WORD;
      if regionEnd > high {
        high := regionEnd;
      }
    }
    if high < MIN_ADDRESSABLE {
      high := MIN_ADDRESSABLE;
    }
  }

  predicate Holds(d: Descriptor, size: nat)
  {
    IsUsableMemory(d.kind) && d.numPages * PAGE >= size
  }

  /** The first region at or above lo that can hold the bitmap; |m| if there is none. */
  function FirstPlace(m: seq<Descriptor>, size: nat, lo: nat): (i: nat)
    ensures i <= |m|
    ensures i < |m| ==> Holds(m[i], size) && m[i].physAddr >= lo
    ensures forall j :: 0 <= j < i ==> !(Holds(m[j], size) && m[j].physAddr >= lo)
  {
    if m == [] || (Holds(m[0], size) && m[0].physAddr >= lo) then 0 else 1 + FirstPlace(m[1..], size, lo)
  }

  /** Where the bitmap goes: the first usable region above 1 MB that holds it, else the first that
      holds it at all; 0 if there is none. */
  function Place(m: seq<Descriptor>, size: nat): nat
  {
    var i, k := FirstPlace(m, size, 0x10_0000), FirstPlace(m, size, 0);
    if i < |m| then m[i].physAddr else if k < |m| then m[k].physAddr else 0
  }

  /** Region i is the first usable one at or above lo that holds size bytes. */
  ghost predicate IsFirstRoom(m: seq<Descriptor>, size: nat, lo: nat, i: nat)
  {
    i < |m| && Room(m[i], size, lo) && forall j :: 0 <= j < i ==> !Room(m[j], size, lo)
  }

  predicate Room(d: Descriptor, size: nat, lo: nat)
  {
    d.kind in {1, 2, 3, 4, 7} && d.numPages * 4096 >= size && d.physAddr >= lo
  }

  ghost predicate HasRoom(m: seq<Descriptor>, size: nat, lo: nat)
  {
    exists i :: 0 <= i < |m| && Room(m[i], size, lo)
  }

  ghost predicate StartsFirstRoom(m: seq<Descriptor>, size: nat, lo: nat, addr: nat)
  {
    exists i: nat :: IsFirstRoom(m, size, lo, i) && addr == m[i].physAddr
  }

  /** The start of the first usable region at or above 1 MB that has room, else of the first one that has
      room at all, else 0. */
  ghost predicate PlacedRight(m: seq<Descriptor>, size: nat, addr: nat)
  {
    if HasRoom(m, size, 0x10_0000) then StartsFirstRoom(m, size, 0x10_0000, addr)
    else if HasRoom(m, size, 0) then StartsFirstRoom(m, size, 0, addr)
    else addr == 0
  }

  lemma PlaceIsRight(m: seq<Descriptor>, size: nat)
    ensures PlacedRight(m, size, Place(m, size))
    ensures HasRoom(m, size, 0x10_0000) ==> Place(m, size) >= 0x10_0000
  {
    FirstPlaceIs(m, size, 0x10_0000);
    FirstPlaceIs(m, size, 0);
  }

  lemma FirstPlaceIs(m: seq<Descriptor>, size: nat, lo: nat)
    ensures HasRoom(m, size, lo) <==> FirstPlace(m, size, lo) < |m|
    ensures HasRoom(m, size, lo) ==> IsFirstRoom(m, size, lo, FirstPlace(m, size, lo))
  {
    assert forall d: Descriptor :: Holds(d, size) && d.physAddr >= lo <==> Room(d, size, lo);
  }

  method PlaceBitmap(m: seq<Descriptor>, size: nat) returns (addr: nat)
    ensures addr == Place(m, size) && PlacedRight(m, size, addr)
    ensures addr != 0 ==> exists i :: 0 <= i < |m| && Holds(m[i], size) && m[i].physAddr == addr
  {
    addr := SearchPlace(m, size);
    PlaceIsRight(m, size);
  }

  /** The two search loops. */
  method SearchPlace(m: seq<Descriptor>, size: nat) returns (addr: nat)
    ensures addr == Place(m, size)
    ensures addr != 0 ==> exists i :: 0 <= i < |m| && Holds(m[i], size) && m[i].physAddr == addr
  {
    for i := 0 to |m|
      invariant forall j :: 0 <= j < i && Holds(m[j], size) ==> m[j].physAddr < 0x10_0000
    {
      if Holds(m[i], size) && m[i].physAddr >= 0x10_0000 {
        return m[i].physAddr;
      }
    }
    for i := 0 to |m|
      invariant forall j :: 0 <= j < i ==> !Holds(m[j], size)
    {
      if Holds(m[i], size) {
        return m[i].physAddr;
      }
    }
    return 0;
  }

  /** A region stays inside the bitmap because the bitmap reaches up to the highest region end. */
  lemma RegionFits(m: seq<Descriptor>, high: nat, i: nat)
    requires IsHighest(m, high) && i < |m|
    ensures m[i].physAddr / PAGE + m[i].numPages <= high / PAGE <= 8 * BitmapSize(high)
  {
    assert RegionEnd(m[i]) <= high;
    assert RegionEnd(m[i]) / PAGE == m[i].physAddr / PAGE + m[i].numPages;
  }

  /** The three reserved ranges set one after the other. */
  lemma ReservedSet(freed: seq<bool>, one: seq<bool>, two: seq<bool>, three: seq<bool>, addr: nat, size: nat)
    requires |freed| == 8 * size >= KERNEL_END && addr / PAGE + (size + 4095) / PAGE <= |freed|
    requires one == B.SetEach(freed, addr / PAGE, (size + 4095) / PAGE, true)
    requires |one| == |freed| && two == B.SetEach(one, 0, LOW_PAGES, true)
    requires |two| == |freed| && three == B.SetEach(two, KERNEL_START, KERNEL_END - KERNEL_START, true)
    ensures |three| == |freed|
    ensures forall p :: 0 <= p < |freed| ==> three[p] == (freed[p] || Reserved(p, addr, size))
  {
    forall p | 0 <= p < |freed|
      ensures |three| == |freed| && three[p] == (freed[p] || Reserved(p, addr, size))
    {
      B.SetEachAt(freed, addr / PAGE, (size + 4095) / PAGE, true, p);
      B.SetEachAt(one, 0, LOW_PAGES, true, p);
      B.SetEachAt(two, KERNEL_START, KERNEL_END - KERNEL_START, true, p);
    }
  }

  /** Step 6 of Init: the bitmap, the low 256 MB and the kernel are marked used. */
  method Reserve(bitmap: B.Bitmap, addr: nat, size: nat, usable: nat) returns (free: nat)
    requires bitmap.data.Length == size && 8 * size >= KERNEL_END
    requires addr / PAGE + (size + 4095) / PAGE <= 8 * size
    modifies bitmap.data
    ensures forall p :: 0 <= p < 8 * size ==>
              B.Bits(bitmap.data[..])[p] == (old(B.Bits(bitmap.data[..]))[p] || Reserved(p, addr, size))
    ensures free == AfterReserve(usable, size)
  {
    var bitmapPages := (size + 4095) / PAGE;
    ghost var freed := B.Bits(bitmap.data[..]);
    bitmap.SetRange(addr / PAGE, bitmapPages, true);
    ghost var one := B.Bits(bitmap.data[..]);
    free := LessReserved(usable, bitmapPages);
    bitmap.SetRange(0, LOW_PAGES, true);
    ghost var two := B.Bits(bitmap.data[..]);
    free := LessReserved(free, LOW_PAGES);
    bitmap.SetRange(KERNEL_START, KERNEL_END - KERNEL_START, true);
    free := LessReserved(free, KERNEL_END - KERNEL_START);
    ReservedSet(freed, one, two, B.Bits(bitmap.data[..]), addr, size);
  }

  /** What Init leaves of the usable bytes: each range is taken off in full if so much is left. */
  function AfterReserve(usable: nat, size: nat): nat
  {
    LessReserved(LessReserved(LessReserved(usable, (size + 4095) / PAGE), LOW_PAGES), KERNEL_END - KERNEL_START)
  }

  /** The usable bytes are those of the usable descriptors, and all three ranges come off if there is
      enough. */
  lemma FreeIs(m: seq<Descriptor>, d: Descriptor, usable: nat, size: nat)
    ensures UsableBytes([]) == 0
    ensures UsableBytes(m + [d]) == UsableBytes(m) + if d.kind in {1, 2, 3, 4, 7} then d.numPages * 4096 else 0
    ensures var gone := ((size + 4095) / 4096 + 0x1_1000) * 4096;
            usable >= gone ==> AfterReserve(usable, size) == usable - gone
    ensures var left := usable - (size + 4095) / 4096 * 4096;
            0x100_0000 <= usable < 0x1000_0000 && size <= 0x100_0000 ==>
              AfterReserve(usable, size) == if left >= 0x100_0000 then left - 0x100_0000 else left
    ensures usable < 0x100_0000 && usable < (size + 4095) / 4096 * 4096 ==> AfterReserve(usable, size) == usable
  {
    assert (m + [d])[..|m|] == m;
  }

  /** PMM::Init. A panic is returned as null. */
  method Boot(m: seq<Descriptor>) returns (pmm: Pmm?, high: nat, addr: nat)
    requires EndsFit(m) && UsableBytes(m) < WORD
    requires forall h :: IsHighest(m, h) ==> 8 * BitmapSize(h) >= KERNEL_END
    ensures IsHighest(m, high)
    ensures addr == Place(m, BitmapSize(high)) && (pmm == null <==> addr == 0)
    ensures PlacedRight(m, high / 4096 / 8 + 1, addr)
    ensures HasRoom(m, high / 4096 / 8 + 1, 0x10_0000) ==> pmm != null && addr >= 0x10_0000
    ensures pmm != null ==> fresh(pmm) && fresh(pmm.bitmap.data)
    ensures pmm != null ==> pmm.lastFreeIndex == 0 && pmm.held == {} && !pmm.zeroFreed
    ensures pmm != null ==>
              && pmm.Valid() && pmm.highestAddr == high && |pmm.Used()| == 8 * (high / 4096 / 8 + 1)
              && forall p :: 0 <= p < |pmm.Used()| ==>
                   (!pmm.Used()[p] <==> Usable(m, p) && !Reserved(p, addr, BitmapSize(high)))
    ensures pmm != null ==> pmm.freeRAM == AfterReserve(UsableBytes(m), BitmapSize(high)) % WORD
  {
    high := HighestAddress(m);
    var size := BitmapSize(high);
    addr := PlaceBitmap(m, size);
    PlaceIsRight(m, size);
    if addr == 0 {
      return null, high, addr;
    }
    ghost var at :| 0 <= at < |m| && Holds(m[at], size) && m[at].physAddr == addr;
    RegionFits(m, high, at);
    var bitmap := new B.Bitmap(size);
    var free := FreeUsable(m, bitmap, high);
    free := Reserve(bitmap, addr, size, free);
    pmm := new Pmm(bitmap, high, free % WORD);
  }

  /** Freeing page 0 right after Init, as FreePage(null) does, makes the next AllocPage return null on every
      machine that boots, while all pages that Init left clear are still there. */
  method ZeroPageIsLost(m: seq<Descriptor>) returns (pmm: Pmm?, high: nat, given: nat)
    requires EndsFit(m) && UsableBytes(m) < WORD
    requires forall h :: IsHighest(m, h) ==> 8 * BitmapSize(h) >= KERNEL_END
    ensures IsHighest(m, high) && (pmm == null <==> Place(m, BitmapSize(high)) == 0)
    ensures pmm != null ==>
              && given == 0 && |pmm.Used()| == 8 * BitmapSize(high)
              && forall p :: 0 <= p < |pmm.Used()| ==>
                   (!pmm.Used()[p] <==> Usable(m, p) && !Reserved(p, Place(m, BitmapSize(high)), BitmapSize(high)))
  {
    var addr;
    given := 0;
    pmm, high, addr := Boot(m);
    if pmm != null {
      given := pmm.FreeAndAllocZero();
    }
  }

  /** Such a machine: 128 MB of memory above the kernel, with a page still clear when null is returned. */
  method BoardLosesZeroPage() returns (pmm: Pmm?, given: nat)
    ensures pmm != null && given == 0 && |pmm.Used()| > 0x4_8000 && !pmm.Used()[0x4_8000]
  {
    var m := [Descriptor(7, 0x4100_0000, 0x8000)];
    var high;
    assert RegionEnd(m[0]) == 0x4900_0000;
    pmm, high, given := ZeroPageIsLost(m);
    assert Usable(m, 0x4_8000);
  }

  /** Step 5 of Init: clear the bits of every usable region. */
  method FreeUsable(m: seq<Descriptor>, bitmap: B.Bitmap, high: nat) returns (free: nat)
    requires IsHighest(m, high) && bitmap.data.Length == BitmapSize(high)
    requires forall i :: 0 <= i < bitmap.data.Length ==> bitmap.data[i] == 0xFF
    modifies bitmap.data
    ensures forall p :: 0 <= p < 8 * bitmap.data.Length ==> (!B.Bits(bitmap.data[..])[p] <==> Usable(m, p))
    ensures free == UsableBytes(m)
  {
    free := 0;
    forall p | 0 <= p < 8 * bitmap.data.Length ensures B.Bits(bitmap.data[..])[p] {
      B.FullAndEmptyByte(p % 8);
    }
    for i := 0 to |m|
      invariant forall p :: 0 <= p < 8 * bitmap.data.Length ==> (!B.Bits(bitmap.data[..])[p] <==> Usable(m[..i], p))
      invariant free == UsableBytes(m[..i])
    {
      ghost var before := B.Bits(bitmap.data[..]);
      assert m[..i + 1][..i] == m[..i];
      var d := m[i];
      if IsUsableMemory(d.kind) {
        RegionFits(m, high, i);
        bitmap.SetRange(d.physAddr / PAGE, d.numPages, false);
        free := free + d.numPages * PAGE;
      }
      forall p | 0 <= p < 8 * bitmap.data.Length
        ensures !B.Bits(bitmap.data[..])[p] <==> Usable(m[..i + 1], p)
      {
        if IsUsableMemory(d.kind) {
          B.SetEachAt(before, d.physAddr / PAGE, d.numPages, false, p);
        }
        UsableSnoc(m, i, p);
      }
    }
    assert m[..|m|] == m;
  }

  lemma UsableSnoc(m: seq<Descriptor>, i: nat, p: nat)
    requires i < |m|
    ensures Usable(m[..i + 1], p) <==> Usable(m[..i], p) || (IsUsableMemory(m[i].kind) && InDescriptor(m[i], p))
  {
    if Usable(m[..i], p) {
      var k :| 0 <= k < i && IsUsableMemory(m[..i][k].kind) && InDescriptor(m[..i][k], p);
      assert m[..i + 1][k] == m[..i][k];
    }
    if IsUsableMemory(m[i].kind) && InDescriptor(m[i], p) {
      assert m[..i + 1][i] == m[i];
    }
  }

  /** The pages of the bitmap itself lie inside the region that holds it. */
  lemma BitmapFits(m: seq<Descriptor>, high: nat, i: nat)
    requires IsHighest(m, high) && i < |m| && Holds(m[i], BitmapSize(high))
    ensures m[i].physAddr / PAGE + (BitmapSize(high) + 4095) / PAGE <= 8 * BitmapSize(high)
  {
    RegionFits(m, high, i);
    assert (BitmapSize(high) + 4095) / PAGE <= m[i].numPages;
  }

  /** All ranges Init touches, for any place of the bitmap: the regions, the bitmap, the low pages and the
      kernel. */
  ghost predicate BootInBounds(m: seq<Descriptor>, high: nat)
  {
    var pages := 8 * BitmapSize(high);
    && LOW_PAGES <= pages && KERNEL_END <= pages
    && (forall i :: 0 <= i < |m| ==> m[i].physAddr / PAGE + m[i].numPages <= pages)
    && (forall i :: 0 <= i < |m| && Holds(m[i], BitmapSize(high)) ==>
          m[i].physAddr / PAGE + (BitmapSize(high) + 4095) / PAGE <= pages)
  }

  /** They stay inside the bitmap exactly if memory reaches up to its last byte for the kernel's pages. */
  lemma BootInBoundsIff(m: seq<Descriptor>, high: nat)
    requires IsHighest(m, high)
    ensures BootInBounds(m, high) <==> high >= 0x40FF_8000
  {
    forall i | 0 <= i < |m|
      ensures m[i].physAddr / PAGE + m[i].numPages <= 8 * BitmapSize(high)
      ensures Holds(m[i], BitmapSize(high)) ==>
                m[i].physAddr / PAGE + (BitmapSize(high) + 4095) / PAGE <= 8 * BitmapSize(high)
    {
      RegionFits(m, high, i);
      if Holds(m[i], BitmapSize(high)) {
        BitmapFits(m, high, i);
      }
    }
  }
}
