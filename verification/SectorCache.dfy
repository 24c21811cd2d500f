/** The sector cache of kernel/hal/storage/buffer_cache.cpp under the read and write paths of
    kernel/hal/storage/storage_manager.cpp.

    A device is a map from LBA to sector contents; an LBA outside the map cannot be read. Transient
    read faults and the outcome of a device write are parameters. */
module SectorCache {
  import opened Basics

  const CACHE_SIZE: nat := 64
  const MAX_SECTOR_SIZE: nat := 512
  const COUNTER: nat := 0x1_0000_0000  // access counts are uint32_t
  const NAME_MAX: nat := 15            // device_name[16] with its terminator

  type Sector = seq<byte>
  type Disk = map<nat, Sector>

  datatype Device = Device(name: string, sectorSize: nat, canRead: bool, canWrite: bool)

  datatype Entry = Entry(
    name: string,
    lba: nat,
    data: Sector,
    accessCount: nat,
    valid: bool,
    lastUse: nat  // auxiliary: the unwrapped value of the counter at the last use
  )

  predicate Matches(e: Entry, name: string, lba: nat)
  {
    e.valid && e.lba == lba && e.name == name
  }

  // --- lookup and eviction ---

  /** Index of the first matching entry, |cache| if there is none. */
  function EntryIndex(cache: seq<Entry>, name: string, lba: nat): (i: nat)
    ensures i <= |cache|
    ensures i < |cache| ==> Matches(cache[i], name, lba)
    ensures forall j :: 0 <= j < i ==> !Matches(cache[j], name, lba)
  {
    if cache == [] || Matches(cache[0], name, lba) then 0
    else
      var r := EntryIndex(cache[1..], name, lba);
      assert forall j :: 1 <= j < r + 1 ==> cache[j] == cache[1..][j - 1];
      r + 1
  }

  method FindEntry(cache: seq<Entry>, name: string, lba: nat) returns (idx: int)
    ensures idx == if EntryIndex(cache, name, lba) < |cache| then EntryIndex(cache, name, lba) else -1
  {
    ghost var first := EntryIndex(cache, name, lba);
    for i := 0 to |cache|
      invariant i <= first
    {
      if Matches(cache[i], name, lba) {
        return i;
      }
    }
    return -1;
  }

  /** The slot Put writes to. */
  function PutSlot(cache: seq<Entry>, name: string, lba: nat): (i: nat)
    requires cache != []
    ensures i < |cache|
  {
    if EntryIndex(cache, name, lba) < |cache| then EntryIndex(cache, name, lba) else Victim(cache, 1, 0)
  }

  /** The slot Put overwrites: the first invalid slot other than slot 0, else the first slot with the
      smallest access count. Slot 0 is never tested for being empty. */
  function Victim(cache: seq<Entry>, i: nat, oldest: nat): (v: nat)
    requires oldest < i <= |cache|
    ensures v < |cache|
    decreases |cache| - i
  {
    if i == |cache| then oldest
    else if !cache[i].valid then i
    else Victim(cache, i + 1, if cache[i].accessCount < cache[oldest].accessCount then i else oldest)
  }

  method FindLRU(cache: seq<Entry>) returns (idx: nat)
    requires |cache| > 0
    ensures idx == Victim(cache, 1, 0)
  {
    var oldest := 0;
    for i := 1 to |cache|
      invariant oldest < i
      invariant Victim(cache, 1, 0) == Victim(cache, i, oldest)
    {
      if !cache[i].valid {
        return i;
      }
      if cache[i].accessCount < cache[oldest].accessCount {
        oldest := i;
      }
    }
    return oldest;
  }

  ghost predicate AllValid(cache: seq<Entry>) { forall j :: 0 <= j < |cache| ==> cache[j].valid }

  lemma {:induction false} VictimStays(cache: seq<Entry>, i: nat)
    requires 0 < i <= |cache|
    requires forall j :: 1 <= j < |cache| ==> cache[j].valid && cache[0].accessCount <= cache[j].accessCount
    ensures Victim(cache, i, 0) == 0
    decreases |cache| - i
  {
    if i < |cache| {
      VictimStays(cache, i + 1);
    }
  }

  lemma {:induction false} VictimIsEmpty(cache: seq<Entry>, i: nat, oldest: nat, v: nat)
    requires oldest < i <= v < |cache| && !cache[v].valid && forall j :: i <= j < v ==> cache[j].valid
    ensures Victim(cache, i, oldest) == v
    decreases v - i
  {
    if i < v {
      VictimIsEmpty(cache, i + 1, if cache[i].accessCount < cache[oldest].accessCount then i else oldest, v);
    }
  }

  /** The lowest invalid slot above slot 0, and if there is none the first slot with the smallest count. */
  lemma VictimExact(cache: seq<Entry>)
    requires cache != []
    ensures var v := Victim(cache, 1, 0);
            if exists j :: 1 <= j < |cache| && !cache[j].valid
            then v > 0 && !cache[v].valid && forall j :: 1 <= j < v ==> cache[j].valid
            else && (forall j :: 0 <= j < |cache| ==> cache[v].accessCount <= cache[j].accessCount)
                 && (forall j :: 0 <= j < v ==> cache[v].accessCount < cache[j].accessCount)
  {
    VictimFrom(cache, 1, 0);
  }

  lemma {:induction false} VictimFrom(cache: seq<Entry>, i: nat, oldest: nat)
    requires oldest < i <= |cache|
    requires forall j :: 0 <= j < i ==> cache[oldest].accessCount <= cache[j].accessCount
    requires forall j :: 0 <= j < oldest ==> cache[oldest].accessCount < cache[j].accessCount
    ensures var v := Victim(cache, i, oldest);
            if exists j :: i <= j < |cache| && !cache[j].valid
            then v >= i && !cache[v].valid && forall j :: i <= j < v ==> cache[j].valid
            else && (forall j :: 0 <= j < |cache| ==> cache[v].accessCount <= cache[j].accessCount)
                 && (forall j :: 0 <= j < v ==> cache[v].accessCount < cache[j].accessCount)
    decreases |cache| - i
  {
    if i < |cache| && cache[i].valid {
      VictimFrom(cache, i + 1, if cache[i].accessCount < cache[oldest].accessCount then i else oldest);
    }
  }

  // --- the cache on its own ---

  /** The slots and the number of accesses counted so far. */
  datatype Slots = Slots(cache: seq<Entry>, clock: nat)

  predicate Shaped(cache: seq<Entry>)
  {
    forall i :: 0 <= i < |cache| ==> |cache[i].data| == MAX_SECTOR_SIZE
  }

  ghost predicate Counted(cache: seq<Entry>, clock: nat)
  {
    forall i :: 0 <= i < |cache| ==> cache[i].lastUse <= clock && cache[i].accessCount == cache[i].lastUse % COUNTER
  }

  /** The name as Put copies it. */
  function Shortened(name: string): string
  {
    if |name| > NAME_MAX then name[..NAME_MAX] else name
  }

  function Touched(e: Entry, clock: nat): Entry { e.(accessCount := clock % COUNTER, lastUse := clock) }

  /** The entry Put writes. */
  function Stored(e: Entry, name: string, lba: nat, data: Sector, clock: nat): Entry
    requires |data| <= |e.data|
  {
    Entry(name, lba, data + e.data[|data|..], clock % COUNTER, true, clock)
  }

  function AfterGet(c: Slots, name: string, lba: nat): Slots
  {
    var i := EntryIndex(c.cache, name, lba);
    if i == |c.cache| then c
    else Slots(c.cache[i := Touched(c.cache[i], c.clock + 1)], c.clock + 1)
  }

  function AfterPut(c: Slots, name: string, lba: nat, data: Sector): Slots
    requires Shaped(c.cache)
  {
    if c.cache == [] || |data| > MAX_SECTOR_SIZE then c
    else
      var i := PutSlot(c.cache, name, lba);
      Slots(c.cache[i := Stored(c.cache[i], Shortened(name), lba, data, c.clock + 1)], c.clock + 1)
  }

  function AfterInvalidate(c: Slots, name: string, lba: nat): Slots
  {
    var i := EntryIndex(c.cache, name, lba);
    if i == |c.cache| then c else c.(cache := c.cache[i := c.cache[i].(valid := false)])
  }

  function Flushed(e: Entry, name: string): Entry
  {
    if e.valid && e.name == name then e.(valid := false) else e
  }

  function AfterFlush(c: Slots, name: string): Slots
  {
    c.(cache := seq(|c.cache|, i requires 0 <= i < |c.cache| => Flushed(c.cache[i], name)))
  }

  /** A sector of up to 512 bytes that was put is what the next Get finds, whatever was evicted for it; no
      other slot changes. */
  lemma PutIsFound(c: Slots, name: string, lba: nat, data: Sector)
    requires Shaped(c.cache) && c.cache != [] && |name| <= 15 && |data| <= 512
    ensures var d := AfterPut(c, name, lba, data);
            var i := EntryIndex(d.cache, name, lba);
            && |d.cache| == |c.cache| && i < |d.cache| && |d.cache[i].data| == 512 && d.cache[i].data[..|data|] == data
            && forall j :: 0 <= j < |c.cache| && j != i ==> d.cache[j] == c.cache[j]
  {
    var i := PutSlot(c.cache, name, lba);
    EntryIndexIs(AfterPut(c, name, lba, data).cache, name, lba, i);
  }

  /** A Get that hits finds the same sector again. */
  lemma GetStays(c: Slots, name: string, lba: nat)
    ensures EntryIndex(AfterGet(c, name, lba).cache, name, lba) == EntryIndex(c.cache, name, lba)
  {
    var i := EntryIndex(c.cache, name, lba);
    if i < |c.cache| {
      EntryIndexIs(AfterGet(c, name, lba).cache, name, lba, i);
    }
  }

  datatype Op =
    | Get(name: string, lba: nat)
    | Put(name: string, lba: nat, data: Sector)
    | Invalidate(name: string, lba: nat)
    | Flush(name: string)

  function Step(c: Slots, op: Op): (d: Slots)
    requires Shaped(c.cache)
    ensures Shaped(d.cache) && |d.cache| == |c.cache|
  {
    match op
    case Get(name, lba) => AfterGet(c, name, lba)
    case Put(name, lba, data) => AfterPut(c, name, lba, data)
    case Invalidate(name, lba) => AfterInvalidate(c, name, lba)
    case Flush(name) => AfterFlush(c, name)
  }

  function ZeroSector(): (z: Sector)
    ensures |z| == MAX_SECTOR_SIZE
  {
    seq(MAX_SECTOR_SIZE, _ => 0)
  }

  function EmptyEntry(): Entry { Entry("", 0, ZeroSector(), 0, false, 0) }

  /** The cache after Init and a run of operations. */
  function After(ops: seq<Op>): (c: Slots)
    ensures Shaped(c.cache) && |c.cache| == CACHE_SIZE
  {
    if ops == [] then Slots(seq(CACHE_SIZE, _ => EmptyEntry()), 0)
    else Step(After(ops[..|ops| - 1]), ops[|ops| - 1])
  }

  lemma StepCounted(c: Slots, op: Op)
    requires Shaped(c.cache) && Counted(c.cache, c.clock)
    ensures Counted(Step(c, op).cache, Step(c, op).clock)
  {
  }

  lemma {:induction false} AfterCounted(ops: seq<Op>)
    ensures Counted(After(ops).cache, After(ops).clock)
  {
    if ops != [] {
      AfterCounted(ops[..|ops| - 1]);
      StepCounted(After(ops[..|ops| - 1]), ops[|ops| - 1]);
    }
  }

  // --- when each slot was last used ---

  /** The slot an operation uses: the one a Get hits, the one a Put writes. */
  function UsedSlot(c: Slots, op: Op): Option<nat>
    requires c.cache != []
  {
    match op
    case Get(name, lba) =>
      var i := EntryIndex(c.cache, name, lba);
      if i < |c.cache| then Some(i) else None
    case Put(name, lba, data) => if |data| > 512 then None else Some(PutSlot(c.cache, name, lba))
    case _ => None
  }

  /** How many operations of a run used any slot. */
  function Uses(ops: seq<Op>): nat
  {
    if ops == [] then 0
    else
      var before := ops[..|ops| - 1];
      Uses(before) + if UsedSlot(After(before), ops[|ops| - 1]).Some? then 1 else 0
  }

  /** How many operations of a run there were up to the last one that used slot i; 0 if none did. */
  function LastUse(ops: seq<Op>, i: nat): (n: nat)
    ensures n <= |ops|
  {
    if ops == [] then 0
    else
      var before := ops[..|ops| - 1];
      if UsedSlot(After(before), ops[|ops| - 1]) == Some(i) then |ops| else LastUse(before, i)
  }

  /** The slot that the next new sector goes to was used no later than any other. */
  ghost predicate EvictsOldest(ops: seq<Op>)
  {
    forall j :: 0 <= j < CACHE_SIZE ==> LastUse(ops, Victim(After(ops).cache, 1, 0)) <= LastUse(ops, j)
  }

  /** The auxiliary clock counts the uses, and the times it gives to the slots are in the order of their
      last uses. */
  ghost predicate TimesOk(ops: seq<Op>)
  {
    var c := After(ops);
    && c.clock == Uses(ops)
    && (forall i :: 0 <= i < CACHE_SIZE ==> c.cache[i].lastUse <= c.clock)
    && forall i, j :: 0 <= i < CACHE_SIZE && 0 <= j < CACHE_SIZE ==>
         (c.cache[i].lastUse < c.cache[j].lastUse <==> LastUse(ops, i) < LastUse(ops, j))
  }

  lemma UseStep(c: Slots, op: Op)
    requires Shaped(c.cache) && c.cache != []
    ensures var u := UsedSlot(c, op);
            && (u.Some? ==> u.value < |c.cache|)
            && Step(c, op).clock == c.clock + (if u.Some? then 1 else 0)
            && forall i :: 0 <= i < |c.cache| ==>
                 Step(c, op).cache[i].lastUse == if u == Some(i) then c.clock + 1 else c.cache[i].lastUse
  {
  }

  lemma {:induction false} TimesAreUses(ops: seq<Op>)
    ensures TimesOk(ops)
  {
    if ops != [] {
      var before, op := ops[..|ops| - 1], ops[|ops| - 1];
      TimesAreUses(before);
      UseStep(After(before), op);
    }
  }

  // --- a run that defeats the eviction order ---

  /** The k-th operation: 64 sectors are cached, the last of them into slot 0; then slot 0 is hit up to
      the wrap of the counter, and slot 1 from there on. */
  function OpAt(k: nat): Op
  {
    if k <= CACHE_SIZE then Put("d", if k == 0 then 0 else k - 1, ZeroSector())
    else Get("d", if k <= COUNTER then CACHE_SIZE - 1 else 0)
  }

  function UsedEntry(lba: nat, clock: nat): Entry
  {
    Entry("d", lba, ZeroSector(), clock % COUNTER, true, clock)
  }

  /** What slot i holds after k of these operations. */
  function EntryAt(i: nat, k: nat): Entry
  {
    if i == 0 then
      if k < CACHE_SIZE then EmptyEntry() else UsedEntry(CACHE_SIZE - 1, if k <= COUNTER then k else COUNTER)
    else if k < i then EmptyEntry()
    else UsedEntry(i - 1, if i == 1 && k > COUNTER then k else i)
  }

  function CacheAt(k: nat): (cache: seq<Entry>)
    ensures |cache| == CACHE_SIZE && forall i :: 0 <= i < CACHE_SIZE ==> cache[i] == EntryAt(i, k)
  {
    seq(CACHE_SIZE, i requires 0 <= i < CACHE_SIZE => EntryAt(i, k))
  }

  lemma EntryIndexIs(cache: seq<Entry>, name: string, lba: nat, i: nat)
    requires i <= |cache| && (i < |cache| ==> Matches(cache[i], name, lba))
    requires forall j :: 0 <= j < i ==> !Matches(cache[j], name, lba)
    ensures EntryIndex(cache, name, lba) == i
  {
  }

  lemma StoredZero(lba: nat, clock: nat)
    ensures Stored(EmptyEntry(), "d", lba, ZeroSector(), clock) == UsedEntry(lba, clock)
  {
    assert ZeroSector() + ZeroSector()[MAX_SECTOR_SIZE..] == ZeroSector();
  }

  /** The next operation fills one more slot. */
  lemma FillStep(k: nat)
    requires k < CACHE_SIZE
    ensures Step(Slots(CacheAt(k), k), OpAt(k + 1)) == Slots(CacheAt(k + 1), k + 1)
  {
    var cache := CacheAt(k);
    var slot := if k + 1 < CACHE_SIZE then k + 1 else 0;
    EntryIndexIs(cache, "d", k, CACHE_SIZE);
    if k + 1 < CACHE_SIZE {
      VictimIsEmpty(cache, 1, 0, k + 1);
    } else {
      VictimStays(cache, 1);
    }
    StoredZero(k, k + 1);
    assert CacheAt(k + 1) == cache[slot := UsedEntry(k, k + 1)];
  }

  /** The next operation is a hit on slot 0 or slot 1. */
  lemma HitStep(k: nat)
    requires CACHE_SIZE <= k
    ensures Step(Slots(CacheAt(k), k), OpAt(k + 1)) == Slots(CacheAt(k + 1), k + 1)
  {
    var cache := CacheAt(k);
    var slot := if k < COUNTER then 0 else 1;
    EntryIndexIs(cache, "d", if k < COUNTER then CACHE_SIZE - 1 else 0, slot);
    assert CacheAt(k + 1) == cache[slot := Touched(cache[slot], k + 1)];
  }

  lemma CacheStep(k: nat)
    ensures Shaped(CacheAt(k)) && Step(Slots(CacheAt(k), k), OpAt(k + 1)) == Slots(CacheAt(k + 1), k + 1)
  {
    if k < CACHE_SIZE {
      FillStep(k);
    } else {
      HitStep(k);
    }
  }

  lemma AfterSnoc(ops: seq<Op>, op: Op)
    ensures After(ops + [op]) == Step(After(ops), op)
  {
    assert (ops + [op])[..|ops|] == ops;
  }

  lemma RunStarts()
    ensures After([]) == Slots(CacheAt(0), 0)
  {
    assert CacheAt(0) == seq(CACHE_SIZE, _ => EmptyEntry());
  }

  lemma RunGoesOn(ops: seq<Op>, k: nat)
    requires After(ops) == Slots(CacheAt(k), k)
    ensures After(ops + [OpAt(k + 1)]) == Slots(CacheAt(k + 1), k + 1)
  {
    CacheStep(k);
    AfterSnoc(ops, OpAt(k + 1));
  }

  lemma {:induction false} RunReaches(k: nat) returns (ops: seq<Op>)
    ensures After(ops) == Slots(CacheAt(k), k)
  {
    if k == 0 {
      RunStarts();
      ops := [];
    } else {
      ops := RunReaches(k - 1);
      RunGoesOn(ops, k - 1);
      ops := ops + [OpAt(k)];
    }
  }

  /** These caches also agree with a device: one of 64 zero sectors. */
  lemma RunIsCoherent(k: nat, disk: Disk)
    requires forall i :: 0 <= i < CACHE_SIZE ==> i in disk && disk[i] == ZeroSector()
    ensures Coherent(CacheAt(k), [Device("d", MAX_SECTOR_SIZE, true, true)], [disk])
  {
    var devices := [Device("d", MAX_SECTOR_SIZE, true, true)];
    forall i | 0 <= i < CACHE_SIZE
      ensures EntryOk(EntryAt(i, k), devices, [disk])
    {
      assert DeviceIndex(devices, "d") == 0;
      assert ZeroSector()[..MAX_SECTOR_SIZE] == ZeroSector();
    }
  }

  /** Once the counter has wrapped, slot 0 is evicted although it was used after slots 2 to 63. */
  lemma WrappedEvictsWrong(ops: seq<Op>, k: nat)
    requires k >= COUNTER && After(ops) == Slots(CacheAt(k), k)
    ensures AllValid(After(ops).cache) && !EvictsOldest(ops)
  {
    TimesAreUses(ops);
    WrappedCache(k);
    NotOldest(ops, CacheAt(k));
  }

  lemma NotOldest(ops: seq<Op>, cache: seq<Entry>)
    requires TimesOk(ops) && cache == After(ops).cache && Victim(cache, 1, 0) == 0
    requires cache[2].lastUse < cache[0].lastUse
    ensures !EvictsOldest(ops)
  {
  }

  lemma WrappedCache(k: nat)
    requires k >= COUNTER
    ensures AllValid(CacheAt(k)) && Victim(CacheAt(k), 1, 0) == 0 && CacheAt(k)[2].lastUse < CacheAt(k)[0].lastUse
  {
    VictimStays(CacheAt(k), 1);
  }

  lemma UnwrappedEvictsOldest(ops: seq<Op>)
    requires Uses(ops) < COUNTER && AllValid(After(ops).cache)
    ensures EvictsOldest(ops)
  {
    TimesAreUses(ops);
    AfterCounted(ops);
    CountsAreTimes(After(ops).cache, After(ops).clock);
  }

  lemma CountsAreTimes(cache: seq<Entry>, clock: nat)
    requires cache != [] && AllValid(cache) && Counted(cache, clock) && clock < COUNTER
    ensures forall j :: 0 <= j < |cache| ==> cache[Victim(cache, 1, 0)].lastUse <= cache[j].lastUse
  {
    assert forall j :: 0 <= j < |cache| ==> cache[j].accessCount == cache[j].lastUse;
    VictimExact(cache);
  }

  lemma WrappedRun(uses: nat) returns (ops: seq<Op>)
    requires uses >= COUNTER
    ensures Uses(ops) == uses && AllValid(After(ops).cache) && !EvictsOldest(ops)
  {
    ops := RunReaches(uses);
    TimesAreUses(ops);
    WrappedEvictsWrong(ops, uses);
  }

  /** Over all runs of the cache from its initial state: with all slots valid the victim is the least
      recently used one exactly as long as fewer than 2^32 operations used a slot. */
  lemma LruIffNoWrap(uses: nat)
    ensures (forall ops :: Uses(ops) == uses && AllValid(After(ops).cache) ==> EvictsOldest(ops)) <==>
            uses < 0x1_0000_0000
  {
    if uses < COUNTER {
      forall ops | Uses(ops) == uses && AllValid(After(ops).cache)
        ensures EvictsOldest(ops)
      {
        UnwrappedEvictsOldest(ops);
      }
    } else {
      var ops := WrappedRun(uses);
    }
  }

  // --- devices ---

  /** GetDevice: index of the first device of that name, |devices| if there is none. */
  function DeviceIndex(devices: seq<Device>, name: string): (d: nat)
    ensures d <= |devices|
    ensures d < |devices| ==> devices[d].name == name
    ensures forall j :: 0 <= j < d ==> devices[j].name != name
  {
    if devices == [] || devices[0].name == name then 0
    else
      var r := DeviceIndex(devices[1..], name);
      assert forall j :: 1 <= j < r + 1 ==> devices[j] == devices[1..][j - 1];
      r + 1
  }

  /** Registering one more device never redirects a name that already resolves. */
  lemma {:induction false} DeviceIndexStable(devices: seq<Device>, more: Device, name: string)
    requires DeviceIndex(devices, name) < |devices|
    ensures DeviceIndex(devices + [more], name) == DeviceIndex(devices, name)
  {
    if devices[0].name != name {
      assert (devices + [more])[1..] == devices[1..] + [more];
      DeviceIndexStable(devices[1..], more, name);
    }
  }

  /** The bytes of count consecutive sectors, as the bare device would deliver them. */
  function SectorsOf(disk: Disk, lba: nat, count: nat): Sector
  {
    if count == 0 then []
    else SectorsOf(disk, lba, count - 1) + (if lba + count - 1 in disk then disk[lba + count - 1] else [])
  }

  /** The k-th piece of the buffer is sector lba + k. */
  ghost predicate Piece(disk: Disk, lba: nat, size: nat, buffer: Sector, k: nat)
  {
    && lba + k in disk && 0 <= k * size <= k * size + size <= |buffer|
    && buffer[k * size..k * size + size] == disk[lba + k]
  }

  /** The buffer is the count sectors from lba on, one after the other. */
  ghost predicate Holds(disk: Disk, lba: nat, count: nat, size: nat, buffer: Sector)
  {
    |buffer| == count * size && forall k :: 0 <= k < count ==> Piece(disk, lba, size, buffer, k)
  }

  lemma {:induction false} HoldsAll(disk: Disk, lba: nat, count: nat, size: nat)
    requires forall k :: k in disk ==> |disk[k]| == size
    requires forall k :: lba <= k < lba + count ==> k in disk
    ensures Holds(disk, lba, count, size, SectorsOf(disk, lba, count))
  {
    if count > 0 {
      HoldsAll(disk, lba, count - 1, size);
      var before, after := SectorsOf(disk, lba, count - 1), SectorsOf(disk, lba, count);
      assert (count - 1) * size + size == count * size;
      forall k | 0 <= k < count
        ensures Piece(disk, lba, size, after, k)
      {
        if k < count - 1 {
          assert Piece(disk, lba, size, before, k);
          assert after[k * size..k * size + size] == before[k * size..k * size + size];
        } else {
          assert after[k * size..] == disk[lba + k];
        }
      }
    }
  }

  /** What a device may do to its contents on a write of count sectors: on success exactly the
      requested bytes are stored; on failure the addressed sectors may hold anything. */
  ghost predicate WriteOutcome(before: Disk, after: Disk, size: nat, lba: nat, count: nat, buffer: Sector, ok: bool)
  {
    && after.Keys == before.Keys
    && (forall k :: k in before ==> |after[k]| == size)
    && (forall k :: k in before && !(lba <= k < lba + count) ==> after[k] == before[k])
    && (ok ==> Holds(after, lba, count, size, buffer))
  }

  ghost predicate DevicesOk(devices: seq<Device>, disks: seq<Disk>)
  {
    && |disks| == |devices|
    && forall d :: 0 <= d < |devices| ==>
         && |devices[d].name| <= NAME_MAX
         && forall k :: k in disks[d] ==> |disks[d][k]| == devices[d].sectorSize
  }

  /** A valid entry holds the current contents of the sector it is keyed by. */
  ghost predicate EntryOk(e: Entry, devices: seq<Device>, disks: seq<Disk>)
    requires |disks| == |devices|
  {
    && |e.data| == MAX_SECTOR_SIZE
    && (e.valid ==>
          var d := DeviceIndex(devices, e.name);
          && d < |devices| && devices[d].sectorSize <= MAX_SECTOR_SIZE
          && e.lba in disks[d]
          && e.data[..devices[d].sectorSize] == disks[d][e.lba])
  }

  ghost predicate Coherent(cache: seq<Entry>, devices: seq<Device>, disks: seq<Disk>)
    requires |disks| == |devices|
  {
    forall i :: 0 <= i < |cache| ==> EntryOk(cache[i], devices, disks)
  }

  ghost predicate UniqueKeys(cache: seq<Entry>)
  {
    forall i, j :: 0 <= i < j < |cache| && cache[i].valid ==> !Matches(cache[j], cache[i].name, cache[i].lba)
  }

  /** The device of that name holds these bytes in that sector. */
  predicate OnDevice(devices: seq<Device>, disks: seq<Disk>, name: string, lba: nat, data: Sector)
  {
    var d := DeviceIndex(devices, name);
    d < |devices| && d < |disks| && lba in disks[d] && data == disks[d][lba]
  }

  lemma StoredUnique(cache: seq<Entry>, name: string, lba: nat, e: Entry)
    requires cache != [] && UniqueKeys(cache) && e.name == name && e.lba == lba
    ensures UniqueKeys(cache[PutSlot(cache, name, lba) := e])
  {
    var slot := PutSlot(cache, name, lba);
    var after := cache[slot := e];
    forall i, j | 0 <= i < j < |after| && after[i].valid ensures !Matches(after[j], after[i].name, after[i].lba) {
      if j == slot {
        assert !Matches(cache[i], name, lba);
      } else if i == slot {
        assert !Matches(cache[j], name, lba);
      }
    }
  }

  /** Storing a sector the device holds keeps the cache coherent, keyed uniquely and counted. */
  lemma StoreKeeps(cache: seq<Entry>, devices: seq<Device>, disks: seq<Disk>, clock: nat, name: string, lba: nat)
    requires cache != [] && DevicesOk(devices, disks)
    requires Coherent(cache, devices, disks) && UniqueKeys(cache) && Counted(cache, clock)
    requires var d := DeviceIndex(devices, name);
             d < |devices| && lba in disks[d] && devices[d].sectorSize <= MAX_SECTOR_SIZE
    ensures var d, i := DeviceIndex(devices, name), PutSlot(cache, name, lba);
            && |disks[d][lba]| <= |cache[i].data|
            && var after := cache[i := Stored(cache[i], name, lba, disks[d][lba], clock + 1)];
               Coherent(after, devices, disks) && UniqueKeys(after) && Counted(after, clock + 1)
  {
    var d, i := DeviceIndex(devices, name), PutSlot(cache, name, lba);
    assert EntryOk(cache[i], devices, disks);
    var e := Stored(cache[i], name, lba, disks[d][lba], clock + 1);
    assert e.data[..devices[d].sectorSize] == disks[d][lba];
    assert EntryOk(e, devices, disks);
    StoredUnique(cache, name, lba, e);
  }

  class Storage {
    const ready: bool        // whether Init could allocate the cache
    var cache: seq<Entry>
    var hitCount: nat
    var missCount: nat
    var accessCounter: nat
    var devices: seq<Device>
    var disks: seq<Disk>     // contents of the devices, index by index
    var clock: nat           // auxiliary: accessCounter without the wrap

    ghost predicate Valid()
      reads this
    {
      && |cache| == (if ready then CACHE_SIZE else 0)
      && DevicesOk(devices, disks)
      && Coherent(cache, devices, disks)
      && UniqueKeys(cache)
      && Counted(cache, clock) && accessCounter == clock % COUNTER
    }

    constructor (ready: bool)
      ensures Valid() && devices == [] && this.ready == ready
      ensures cache == (if ready then After([]).cache else []) && clock == 0
    {
      this.ready := ready;
      cache := if ready then After([]).cache else [];
      hitCount, missCount, accessCounter := 0, 0, 0;
      devices, disks, clock := [], [], 0;
    }

    method RegisterDevice(device: Device, contents: Disk)
      requires Valid() && |device.name| <= NAME_MAX
      requires forall k :: k in contents ==> |contents[k]| == device.sectorSize
      modifies this`devices, this`disks
      ensures Valid()
      ensures if |old(devices)| < 16 then devices == old(devices) + [device] && disks == old(disks) + [contents]
              else devices == old(devices) && disks == old(disks)
    {
      if |devices| >= 16 {
        return;
      }
      forall i | 0 <= i < |cache| ensures EntryOk(cache[i], devices + [device], disks + [contents]) {
        assert EntryOk(cache[i], devices, disks);
        if cache[i].valid {
          DeviceIndexStable(devices, device, cache[i].name);
        }
      }
      devices := devices + [device];
      disks := disks + [contents];
    }

    ghost function Value(): Slots
      reads this
    {
      Slots(cache, clock)
    }

    /** BufferCache::Get. */
    method Get(name: string, lba: nat, sectorSize: nat) returns (hit: bool, data: Sector)
      requires Shaped(cache) && accessCounter == clock % COUNTER
      requires EntryIndex(cache, name, lba) < |cache| ==> sectorSize <= MAX_SECTOR_SIZE
      modifies this`cache, this`hitCount, this`missCount, this`accessCounter, this`clock
      ensures Value() == AfterGet(old(Value()), name, lba) && accessCounter == clock % COUNTER
      ensures hit <==> EntryIndex(old(cache), name, lba) < |old(cache)|
      ensures hit ==> data == old(cache)[EntryIndex(old(cache), name, lba)].data[..sectorSize]
      ensures hitCount == old(hitCount) + (if hit then 1 else 0) && missCount == old(missCount) + if hit then 0 else 1
      ensures old(Valid()) ==> Valid()
    {
      var idx := FindEntry(cache, name, lba);
      data := [];
      if idx >= 0 {
        data := cache[idx].data[..sectorSize];
        accessCounter := (accessCounter + 1) % COUNTER;
        clock := clock + 1;
        cache := cache[idx := cache[idx].(accessCount := accessCounter, lastUse := clock)];
        hitCount := hitCount + 1;
        hit := true;
      } else {
        missCount := missCount + 1;
        hit := false;
      }
    }

    /** BufferCache::Put. The cache stays valid if the device holds these bytes. */
    method Put(name: string, lba: nat, data: Sector)
      requires Shaped(cache) && accessCounter == clock % COUNTER && |cache| == if ready then CACHE_SIZE else 0
      modifies this`cache, this`accessCounter, this`clock
      ensures Value() == AfterPut(old(Value()), name, lba, data) && accessCounter == clock % COUNTER
      ensures old(Valid()) && OnDevice(devices, disks, name, lba, data) ==> Valid()
    {
      if !ready || |data| > MAX_SECTOR_SIZE {
        return;
      }
      ghost var held := Valid() && OnDevice(devices, disks, name, lba, data);
      Overwrite(name, lba, data);
      if held {
        StoreKeeps(old(cache), devices, disks, old(clock), name, lba);
      }
    }

    /** The part of Put behind its checks. */
    method Overwrite(name: string, lba: nat, data: Sector)
      requires Shaped(cache) && cache != [] && |data| <= MAX_SECTOR_SIZE && accessCounter == clock % COUNTER
      modifies this`cache, this`accessCounter, this`clock
      ensures clock == old(clock) + 1 && accessCounter == clock % COUNTER
      ensures var i := PutSlot(old(cache), name, lba);
              cache == old(cache)[i := Stored(old(cache)[i], Shortened(name), lba, data, clock)]
    {
      var idx := SlotFor(name, lba);
      Store(idx, Shortened(name), lba, data);
    }

    method SlotFor(name: string, lba: nat) returns (idx: nat)
      requires cache != []
      ensures idx == PutSlot(cache, name, lba)
    {
      var found := FindEntry(cache, name, lba);
      if found >= 0 {
        return found;
      }
      idx := FindLRU(cache);
    }

    /** Overwrites one slot with a sector that was just used. */
    method Store(idx: nat, name: string, lba: nat, data: Sector)
      requires idx < |cache| && |data| <= |cache[idx].data| && accessCounter == clock % COUNTER
      modifies this`cache, this`accessCounter, this`clock
      ensures clock == old(clock) + 1 && accessCounter == clock % COUNTER
      ensures cache == old(cache)[idx := Stored(old(cache)[idx], name, lba, data, clock)]
    {
      accessCounter := (accessCounter + 1) % COUNTER;
      clock := clock + 1;
      cache := cache[idx := Entry(name, lba, data + cache[idx].data[|data|..], accessCounter, true, clock)];
    }

    /** BufferCache::Invalidate. */
    method Invalidate(name: string, lba: nat)
      modifies this`cache
      ensures Value() == AfterInvalidate(old(Value()), name, lba)
      ensures old(Valid()) ==> Valid()
      ensures old(UniqueKeys(cache)) ==>
                forall i :: 0 <= i < |cache| ==>
                  cache[i] ==
                      if Matches(old(cache)[i], name, lba) then old(cache)[i].(valid := false) else old(cache)[i]
    {
      var idx := FindEntry(cache, name, lba);
      if idx >= 0 {
        cache := cache[idx := cache[idx].(valid := false)];
      }
    }

    /** BufferCache::FlushDevice. */
    method FlushDevice(name: string)
      modifies this`cache
      ensures Value() == AfterFlush(old(Value()), name)
      ensures old(Valid()) ==> Valid()
      ensures forall i :: 0 <= i < |cache| ==>
                && !(cache[i].valid && cache[i].name == name)
                && (!(old(cache)[i].valid && old(cache)[i].name == name) ==> cache[i] == old(cache)[i])
    {
      for i := 0 to |cache|
        invariant |cache| == |old(cache)|
        invariant forall j :: i <= j < |cache| ==> cache[j] == old(cache)[j]
        invariant forall j :: 0 <= j < i ==> cache[j] == Flushed(old(cache)[j], name)
      {
        if cache[i].valid && cache[i].name == name {
          cache := cache[i := cache[i].(valid := false)];
        }
      }
    }

    /** One round of the ReadSectors loop: the cache first, the device on a miss. */
    method ReadSector(name: string, lba: nat, faults: set<nat>) returns (ok: bool, data: Sector)
      requires Valid() && DeviceIndex(devices, name) < |devices|
      modifies this`cache, this`hitCount, this`missCount, this`accessCounter, this`clock
      ensures Valid()
      ensures var disk := disks[DeviceIndex(devices, name)];
              && (ok ==> lba in disk && data == disk[lba])
              && (!ok ==> lba in faults || lba !in disk)
              && (ok && ready && |data| <= 512 ==> EntryIndex(cache, name, lba) < |cache|)
    {
      var d := DeviceIndex(devices, name);
      ghost var i := EntryIndex(cache, name, lba);
      assert i < |cache| ==> EntryOk(cache[i], devices, disks);
      GetStays(Value(), name, lba);
      ok, data := Get(name, lba, devices[d].sectorSize);
      if ok {
        return;
      }
      if lba in faults || lba !in disks[d] {
        return false, [];
      }
      data := disks[d][lba];
      if ready && |data| <= 512 {
        PutIsFound(Value(), name, lba, data);
      }
      Put(name, lba, data);
      ok := true;
    }

    /** StorageManager::ReadSectors returns exactly the bytes of the bare device. */
    method ReadSectors(name: string, lba: nat, count: nat, faults: set<nat>) returns (ok: bool, buffer: Sector)
      requires Valid()
      modifies this`cache, this`hitCount, this`missCount, this`accessCounter, this`clock
      ensures Valid()
      ensures ok ==>
                var d := DeviceIndex(devices, name);
                && d < |devices| && devices[d].canRead
                && (forall k :: lba <= k < lba + count ==> k in disks[d])
                && Holds(disks[d], lba, count, devices[d].sectorSize, buffer)
      ensures !ok ==>
                var d := DeviceIndex(devices, name);
                || d == |devices| || !devices[d].canRead
                || exists k :: lba <= k < lba + count && (k in faults || k !in disks[d])
    {
      buffer := [];
      var d := DeviceIndex(devices, name);
      if d == |devices| || !devices[d].canRead {
        return false, buffer;
      }
      for i := 0 to count
        invariant Valid()
        invariant forall k :: lba <= k < lba + i ==> k in disks[d]
        invariant buffer == SectorsOf(disks[d], lba, i)
      {
        var good, data := ReadSector(name, lba + i, faults);
        if !good {
          return false, buffer;
        }
        buffer := buffer + data;
      }
      HoldsAll(disks[d], lba, count, devices[d].sectorSize);
      ok := true;
    }

    /** StorageManager::WriteSectors: invalidate, then let the device store (or fail to). */
    method WriteSectors(name: string, lba: nat, count: nat, buffer: Sector, stored: bool, after: Disk)
        returns (ok: bool)
      requires Valid()
      requires var d := DeviceIndex(devices, name);
               d < |devices| ==> WriteOutcome(disks[d], after, devices[d].sectorSize, lba, count, buffer, stored)
      modifies this`cache, this`disks
      ensures Valid()
      ensures var d := DeviceIndex(devices, name);
              if d == |devices| || !devices[d].canWrite then !ok && disks == old(disks) && cache == old(cache)
              else
                && ok == stored && disks == old(disks)[d := after] && |cache| == |old(cache)|
                && forall i :: 0 <= i < |cache| ==>
                     var e := old(cache)[i];
                     var written := e.name == name && lba <= e.lba < lba + count;
                     cache[i] == if e.valid && written then e.(valid := false) else e
    {
      var d := DeviceIndex(devices, name);
      if d == |devices| || !devices[d].canWrite {
        return false;
      }
      for i := 0 to count
        invariant Valid() && disks == old(disks)
        invariant |cache| == |old(cache)|
        invariant forall j :: 0 <= j < |cache| ==>
                    var e := old(cache)[j];
                    cache[j] == if e.valid && e.name == name && lba <= e.lba < lba + i then e.(valid := false) else e
      {
        Invalidate(name, lba + i);
      }
      forall i | 0 <= i < |cache| ensures EntryOk(cache[i], devices, disks[d := after]) {
        assert EntryOk(cache[i], devices, disks);
      }
      disks := disks[d := after];
      ok := stored;
    }
  }
}
