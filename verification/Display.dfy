/** Dirty-rectangle presentation of kernel/hal/drm/drm.cpp.

    Pixels are addressed linearly, row by row, as the source does; blit_fast_32 is a plain copy. */
module Display {
  import opened Basics
  import opened Counting
  import opened Modular

  const MAX_DIRTY_RECTS: nat := 16
  const INT32: int := 0x8000_0000
  const OFFSETS: nat := 0x1_0000_0000  // pixel offsets are uint32_t

  datatype Rect = Rect(x: int, y: int, w: int, h: int)
  datatype Slot = Slot(rect: Rect, active: bool)

  predicate IsActive(s: Slot) { s.active }

  predicate Inside(r: Rect, px: int, py: int)
  {
    r.x <= px < r.x + r.w && r.y <= py < r.y + r.h
  }

  /** A non-empty rectangle within the screen. */
  predicate OnScreen(r: Rect, width: nat, height: nat)
  {
    0 <= r.x && 0 <= r.y && 0 < r.w && 0 < r.h && r.x + r.w <= width && r.y + r.h <= height
  }

  // --- clipping ---

  /** MarkDirty's clamping; None if nothing is left. */
  function Clamp(r: Rect, width: nat, height: nat): (c: Option<Rect>)
    ensures c.Some? ==> OnScreen(c.value, width, height)
    ensures c.Some? ==>
            forall px, py :: Inside(c.value, px, py) <==> Inside(r, px, py) && 0 <= px < width && 0 <= py < height
    ensures c.None? ==> forall px, py :: Inside(r, px, py) ==> !(0 <= px < width && 0 <= py < height)
  {
    var x, w := if r.x < 0 then 0 else r.x, if r.x < 0 then r.w + r.x else r.w;
    var y, h := if r.y < 0 then 0 else r.y, if r.y < 0 then r.h + r.y else r.h;
    var w2 := if x + w > width then width - x else w;
    var h2 := if y + h > height then height - y else h;
    if w2 <= 0 || h2 <= 0 then None else Some(Rect(x, y, w2, h2))
  }

  /** NormalizeDamageRect: the part of the damage that is on the screen; None if there is none. */
  function Normalize(r: Rect, width: nat, height: nat): (n: Option<Rect>)
    requires r.w >= 0 && r.h >= 0
    ensures n.Some? ==> OnScreen(n.value, width, height)
    ensures n.Some? ==>
            forall px, py :: Inside(n.value, px, py) <==> Inside(r, px, py) && 0 <= px < width && 0 <= py < height
    ensures n.None? <==> forall px, py :: Inside(r, px, py) ==> !(0 <= px < width && 0 <= py < height)
  {
    if r.w == 0 || r.h == 0 then None
    else
      var x1, y1, x2, y2 := r.x, r.y, r.x + r.w, r.y + r.h;
      if x2 <= 0 || y2 <= 0 then None
      else if x1 >= width || y1 >= height then None
      else
        var x1', y1' := if x1 < 0 then 0 else x1, if y1 < 0 then 0 else y1;
        var x2', y2' := if x2 > width then width else x2, if y2 > height then height else y2;
        assert Inside(r, x1', y1');
        if x2' <= x1' || y2' <= y1' then None else Some(Rect(x1', y1', x2' - x1', y2' - y1'))
  }

  /** A normalised damage rectangle passes MarkDirty's clamping unchanged. */
  lemma NormalizedSurvivesClamp(r: Rect, width: nat, height: nat)
    requires OnScreen(r, width, height)
    ensures Clamp(r, width, height) == Some(r)
  {
  }

  // --- which pixels a set of dirty slots covers ---

  predicate Covers(s: Slot, width: nat, p: nat)
    requires width > 0
  {
    s.active && Inside(s.rect, p % width, p / width)
  }

  ghost predicate Covered(slots: seq<Slot>, width: nat, p: nat)
    requires width > 0
  {
    exists i :: 0 <= i < |slots| && Covers(slots[i], width, p)
  }

  function FirstInactive(slots: seq<Slot>): (i: nat)
    ensures i <= |slots|
    ensures i < |slots| ==> !slots[i].active
    ensures forall j :: 0 <= j < i ==> slots[j].active
  {
    if slots == [] || !slots[0].active then 0
    else
      var r := FirstInactive(slots[1..]);
      assert forall j :: 1 <= j < r + 1 ==> slots[j] == slots[1..][j - 1];
      r + 1
  }

  function Cleared(slots: seq<Slot>): (r: seq<Slot>)
    ensures |r| == |slots|
    ensures forall i :: 0 <= i < |r| ==> r[i] == slots[i].(active := false)
  {
    seq(|slots|, i requires 0 <= i < |slots| => slots[i].(active := false))
  }

  lemma CoveredUpdate(slots: seq<Slot>, i: nat, s: Slot, width: nat, p: nat)
    requires width > 0 && i < |slots| && !slots[i].active
    ensures Covered(slots[i := s], width, p) <==> Covered(slots, width, p) || Covers(s, width, p)
  {
    var after := slots[i := s];
    if Covered(slots, width, p) {
      var j :| 0 <= j < |slots| && Covers(slots[j], width, p);
      assert Covers(after[j], width, p);
    }
    if Covers(s, width, p) {
      assert Covers(after[i], width, p);
    }
  }

  // --- dirty state as a value ---

  datatype Damage = Damage(slots: seq<Slot>, count: nat, full: bool)

  ghost predicate DamageOk(d: Damage, width: nat, height: nat)
  {
    && |d.slots| == MAX_DIRTY_RECTS
    && d.count == Count(d.slots, IsActive)
    && forall i :: 0 <= i < |d.slots| && d.slots[i].active ==> OnScreen(d.slots[i].rect, width, height)
  }

  /** Present will copy pixel p. */
  ghost predicate DirtyAt(d: Damage, width: nat, p: nat)
    requires width > 0
  {
    d.full || Covered(d.slots, width, p)
  }

  /** MarkDirty. */
  function Mark(d: Damage, r: Rect, width: nat, height: nat): Damage
  {
    var c := Clamp(r, width, height);
    if c.None? then d
    else if d.count < MAX_DIRTY_RECTS then
      var i := FirstInactive(d.slots);
      if i < |d.slots| then Damage(d.slots[i := Slot(c.value, true)], d.count + 1, d.full) else d
    else d.(full := true)
  }

  /** dirty_count stays exact, and the new rectangle's pixels become dirty: exactly those while a
      slot is free, all pixels once the slots are exhausted. */
  lemma MarkEffect(d: Damage, r: Rect, width: nat, height: nat)
    requires width > 0 && DamageOk(d, width, height)
    ensures DamageOk(Mark(d, r, width, height), width, height)
    ensures forall p :: 0 <= p < height * width ==>
              (DirtyAt(Mark(d, r, width, height), width, p) <==>
                 || DirtyAt(d, width, p)
                 || Inside(r, p % width, p / width)
                 || (d.count == MAX_DIRTY_RECTS && Clamp(r, width, height).Some?))
  {
    CountBounds(d.slots, IsActive);
    var c, i := Clamp(r, width, height), FirstInactive(d.slots);
    if c.Some? && i < |d.slots| {
      CountUpdate(d.slots, i, Slot(c.value, true), IsActive);
    }
    forall p | 0 <= p < height * width
      ensures DirtyAt(Mark(d, r, width, height), width, p) <==>
                 || DirtyAt(d, width, p)
                 || Inside(r, p % width, p / width)
                 || (d.count == MAX_DIRTY_RECTS && Clamp(r, width, height).Some?)
    {
      MarkPixel(d, r, width, height, p);
    }
  }

  lemma MarkPixel(d: Damage, r: Rect, width: nat, height: nat, p: nat)
    requires width > 0 && |d.slots| == MAX_DIRTY_RECTS && p < height * width
    requires d.count < MAX_DIRTY_RECTS ==> FirstInactive(d.slots) < |d.slots|
    requires d.count <= MAX_DIRTY_RECTS
    ensures DirtyAt(Mark(d, r, width, height), width, p) <==>
                 || DirtyAt(d, width, p)
                 || Inside(r, p % width, p / width)
                 || (d.count == MAX_DIRTY_RECTS && Clamp(r, width, height).Some?)
  {
    RowBelow(p, width, height);
    var c, i := Clamp(r, width, height), FirstInactive(d.slots);
    if c.Some? && i < |d.slots| {
      CoveredUpdate(d.slots, i, Slot(c.value, true), width, p);
    }
  }

  /** The state Present and ClearDirty leave behind. */
  function NoDamage(d: Damage): Damage
  {
    Damage(Cleared(d.slots), 0, false)
  }

  lemma NoDamageEffect(d: Damage, width: nat, height: nat)
    requires width > 0 && DamageOk(d, width, height)
    ensures DamageOk(NoDamage(d), width, height)
    ensures forall p :: 0 <= p ==> !DirtyAt(NoDamage(d), width, p)
  {
    CountBounds(NoDamage(d).slots, IsActive);
  }

  lemma CoveredSnoc(slots: seq<Slot>, i: nat, width: nat, p: nat)
    requires width > 0 && i < |slots|
    ensures Covered(slots[..i + 1], width, p) <==> Covered(slots[..i], width, p) || Covers(slots[i], width, p)
  {
    assert slots[..i + 1] == slots[..i] + [slots[i]];
    if Covered(slots[..i], width, p) {
      var j :| 0 <= j < i && Covers(slots[..i][j], width, p);
      assert Covers(slots[..i + 1][j], width, p);
    }
    if Covers(slots[i], width, p) {
      assert Covers(slots[..i + 1][i], width, p);
    }
  }

  /** Row and column of the pixel at a linear offset. */
  lemma RowColumn(width: nat, x: nat, y: nat)
    requires x < width
    ensures (y * width + x) / width == y && (y * width + x) % width == x
  {
    Unique(y * width + x, width, y, x);
  }

  /** The linear offsets of row y, columns x..x + w are exactly the pixels there. */
  lemma RowRange(width: nat, x: nat, y: nat, w: nat, p: nat)
    requires width > 0 && x + w <= width
    ensures y * width + x <= p < y * width + x + w <==> p / width == y && x <= p % width < x + w
  {
    var q, c := p / width, p % width;
    assert p == q * width + c;
    if y * width + x <= p < y * width + x + w {
      RowColumn(width, p - y * width, y);
    }
  }

  lemma RowBelow(p: nat, width: nat, height: nat)
    requires width > 0 && p < height * width
    ensures p / width < height
  {
    var d := height - p / width;
    ProductBounds(d, width);
    assert d * width == height * width - (p / width) * width;
  }

  lemma RowInBuffer(x: nat, y: nat, width: nat, height: nat)
    requires x <= width && y < height
    ensures y * width + x <= height * width
  {
    assert height * width == y * width + (height - y) * width;
    ProductBounds(height - y, width);
  }

  // --- the display event ring ---

  const MAX_EVENTS: nat := 128

  datatype Event = Event(kind: nat, flags: nat, sequence: nat, timestamp: nat)

  datatype Ring = Ring(events: seq<Event>, head: nat, tail: nat, count: nat)

  predicate RingOk(r: Ring)
  {
    && |r.events| == MAX_EVENTS && r.tail < MAX_EVENTS && r.count <= MAX_EVENTS
    && r.head == (r.tail + r.count) % MAX_EVENTS
  }

  /** The queued events, oldest first. */
  function Contents(r: Ring): (c: seq<Event>)
    requires RingOk(r)
    ensures |c| == r.count
  {
    seq(r.count, k requires 0 <= k < r.count => r.events[(r.tail + k) % MAX_EVENTS])
  }

  /** QueueUapiEventLocked: a full ring drops its oldest event. */
  function Queue(r: Ring, e: Event): (q: Ring)
    requires RingOk(r)
    ensures RingOk(q)
  {
    var t := if r.count == MAX_EVENTS then (r.tail + 1) % MAX_EVENTS else r.tail;
    var c := if r.count == MAX_EVENTS then r.count - 1 else r.count;
    Ring(r.events[r.head := e], (r.head + 1) % MAX_EVENTS, t, c + 1)
  }

  /** PollUapiEvent. */
  function Poll(r: Ring): (q: (Option<Event>, Ring))
    requires RingOk(r)
    ensures RingOk(q.1)
  {
    if r.count == 0 then (None, r)
    else (Some(r.events[r.tail]), Ring(r.events, r.head, (r.tail + 1) % MAX_EVENTS, r.count - 1))
  }

  /** Queueing appends, and drops the oldest event when 128 are waiting. */
  lemma QueueEffect(r: Ring, e: Event)
    requires RingOk(r)
    ensures Contents(Queue(r, e)) == (if r.count == 128 then Contents(r)[1..] else Contents(r)) + [e]
  {
    var q := Queue(r, e);
    var kept := if r.count == MAX_EVENTS then Contents(r)[1..] else Contents(r);
    forall k | 0 <= k < q.count
      ensures Contents(q)[k] == (kept + [e])[k]
    {
      QueuedAt(r, e, k);
    }
  }

  /** The k-th event after queueing is the one that was there before, or e itself. */
  lemma QueuedAt(r: Ring, e: Event, k: nat)
    requires RingOk(r) && k < Queue(r, e).count
    ensures var at := if r.count == MAX_EVENTS then k + 1 else k;
            Contents(Queue(r, e))[k] == if at < r.count then Contents(r)[at] else e
  {
    var q := Queue(r, e);
    var at := if r.count == MAX_EVENTS then k + 1 else k;
    assert (q.tail + k) % MAX_EVENTS == (r.tail + at) % MAX_EVENTS by {
      AddResidue(r.tail + 1, k, MAX_EVENTS);
    }
    if at < r.count {
      Distinct(r.tail + at, r.tail + r.count, MAX_EVENTS);
    }
  }

  /** Polling takes events out in the order they were queued. */
  lemma PollEffect(r: Ring)
    requires RingOk(r)
    ensures if r.count == 0 then Poll(r) == (None, r)
            else Poll(r).0 == Some(Contents(r)[0]) && Contents(Poll(r).1) == Contents(r)[1..]
  {
    if r.count > 0 {
      var q := Poll(r).1;
      Small(r.tail, MAX_EVENTS);
      assert Contents(r)[0] == r.events[(r.tail + 0) % MAX_EVENTS];
      forall k | 0 <= k < q.count
        ensures Contents(q)[k] == Contents(r)[1..][k]
      {
        assert ((r.tail + 1) % MAX_EVENTS + k) % MAX_EVENTS == (r.tail + (k + 1)) % MAX_EVENTS by {
          AddResidue(r.tail + 1, k, MAX_EVENTS);
        }
      }
    }
  }

  // --- the display ---

  const VBLANK: nat := 1
  const FLIP_COMPLETE: nat := 2

  datatype Request = Request(waitVsync: bool, fullUpdate: bool, hasDamage: bool, rect: Rect)

  /** AtomicTest. */
  predicate Accepts(req: Request, width: nat, height: nat)
    requires 0 <= req.rect.w && 0 <= req.rect.h
  {
    req.fullUpdate || !req.hasDamage || Normalize(req.rect, width, height).Some?
  }

  function FlipFlags(req: Request): nat
  {
    (if req.waitVsync then 1 else 0) + (if req.fullUpdate then 2 else 0)
  }

  /** The damage an atomic request presents. */
  function Requested(d: Damage, req: Request, width: nat, height: nat): Damage
    requires 0 <= req.rect.w && 0 <= req.rect.h
  {
    if req.fullUpdate then NoDamage(d).(full := true)
    else if !req.hasDamage then d
    else
      var n := Normalize(req.rect, width, height);
      if n.None? then d else Mark(d, n.value, width, height)
  }

  /** Normalising the damage loses no visible pixel: an accepted request presents what was dirty
      before plus exactly the requested pixels, or everything once the slots are exhausted. */
  lemma RequestedEffect(d: Damage, req: Request, width: nat, height: nat, p: nat)
    requires width > 0 && DamageOk(d, width, height) && p < height * width
    requires 0 <= req.rect.w && 0 <= req.rect.h && Accepts(req, width, height)
    ensures DirtyAt(Requested(d, req, width, height), width, p) <==>
              || DirtyAt(d, width, p) || req.fullUpdate
              || (req.hasDamage && (Inside(req.rect, p % width, p / width) || d.count == MAX_DIRTY_RECTS))
  {
    RowBelow(p, width, height);
    if !req.fullUpdate && req.hasDamage {
      var n := Normalize(req.rect, width, height).value;
      NormalizedSurvivesClamp(n, width, height);
      MarkEffect(d, n, width, height);
    }
  }

  class Screen {
    const width: nat
    const height: nat
    const comp: array<int>   // compositor_buffer
    const vram: array<int>   // vram_buffer
    var damage: Damage       // dirty_rects, dirty_count, full_dirty
    var vblankCount: nat
    var lastFlip: nat
    var ring: Ring
    ghost var pending: set<nat>  // pixels drawn since they were last marked or presented

    ghost predicate Valid()
      reads this, comp, vram
    {
      && 0 < width < INT32 && 0 < height < INT32 && height * width < OFFSETS
      && comp != vram && comp.Length == vram.Length == height * width
      && DamageOk(damage, width, height)
      && RingOk(ring)
      && forall p :: 0 <= p < comp.Length && comp[p] != vram[p] ==> DirtyAt(damage, width, p) || p in pending
    }

    constructor (vram: array<int>, width: nat, height: nat)
      requires 0 < width < INT32 && 0 < height < INT32 && vram.Length == height * width < OFFSETS
      ensures Valid() && this.vram == vram && this.width == width && this.height == height && fresh(comp)
      ensures damage.full && damage.count == 0 && pending == {} && ring.count == 0
    {
      this.vram, this.width, this.height := vram, width, height;
      comp := new int[height * width](_ => 0xFF181818);
      var slots := seq(MAX_DIRTY_RECTS, _ => Slot(Rect(0, 0, 0, 0), false));
      CountBounds(slots, IsActive);
      damage := Damage(slots, 0, true);
      ring := Ring(seq(MAX_EVENTS, _ => Event(0, 0, 0, 0)), 0, 0, 0);
      vblankCount, lastFlip, pending := 0, 0, {};
    }

    /** The compositor draws one pixel into the shared buffer. */
    method Draw(p: nat, color: int)
      requires Valid() && p < comp.Length
      modifies comp, this`pending
      ensures Valid() && comp[..] == old(comp[..])[p := color] && pending == old(pending) + {p}
    {
      comp[p] := color;
      pending := pending + {p};
    }

    /** The pixels of `pending` that marking r leaves unmarked. */
    ghost function Unmarked(r: Rect): set<nat>
      requires width > 0
      reads this`pending
    {
      set p | p in pending && !Inside(r, p % width, p / width)
    }

    /** MarkDirty: clamp, then take a free slot, or fall back to a full copy when none is left. */
    method MarkDirty(r: Rect)
      requires Valid() && -INT32 <= r.x + r.w < INT32 && -INT32 <= r.y + r.h < INT32
      modifies this`damage, this`pending
      ensures Valid() && damage == Mark(old(damage), r, width, height) && pending == old(Unmarked(r))
    {
      MarkEffect(damage, r, width, height);
      pending := Unmarked(r);
      var c := Clamp(r, width, height);
      if c.None? {
        return;
      }
      if damage.count < MAX_DIRTY_RECTS {
        var i := 0;
        CountBounds(damage.slots, IsActive);
        while damage.slots[i].active
          invariant i <= FirstInactive(damage.slots) < |damage.slots|
          decreases |damage.slots| - i
        {
          i := i + 1;
        }
        damage := Damage(damage.slots[i := Slot(c.value, true)], damage.count + 1, damage.full);
      } else {
        damage := damage.(full := true);
      }
    }

    /** ClearDirty forgets marks; pixels that still differ are pending again. */
    method ClearDirty()
      requires Valid()
      modifies this`damage, this`pending
      ensures Valid() && damage == NoDamage(old(damage))
      ensures pending == set p | 0 <= p < comp.Length && comp[p] != vram[p]
    {
      NoDamageEffect(damage, width, height);
      damage := NoDamage(damage);
      pending := set p | 0 <= p < comp.Length && comp[p] != vram[p];
    }

    /** Present. A pixel ends up right exactly when it was right before or was marked; with nothing
        pending the partial copy is as good as a full one. */
    method Present(vsync: bool, now: nat)
      requires Valid()
      modifies this`damage, this`vblankCount, this`ring, this`pending, vram
      ensures Valid()
      ensures forall p :: 0 <= p < vram.Length ==>
                (vram[p] == comp[p] <==> old(vram[p]) == comp[p] || old(DirtyAt(damage, width, p)))
      ensures old(pending) == {} ==> vram[..] == comp[..]
      ensures damage == NoDamage(old(damage)) && pending == old(pending)
      ensures vblankCount == old(vblankCount) + 1
      ensures ring == Queue(old(ring), Event(1, if vsync then 1 else 0, vblankCount, now))
    {
      Copy();
      NoDamageEffect(damage, width, height);
      damage := NoDamage(damage);
      vblankCount := vblankCount + 1;
      ring := Queue(ring, Event(VBLANK, if vsync then 1 else 0, vblankCount, now));
    }

    /** AtomicCommit: rejected exactly when there is damage without a pixel on the screen. An accepted request
        presents what was dirty before plus exactly the pixels asked for, or all once the slots are
        exhausted, and queues both events. */
    method AtomicCommit(req: Request, now: nat, later: nat) returns (ok: bool)
      requires Valid() && 0 <= req.rect.w && 0 <= req.rect.h
      modifies this`damage, this`vblankCount, this`lastFlip, this`ring, this`pending, vram
      ensures Valid()
      ensures ok <==>
              || req.fullUpdate || !req.hasDamage
              || exists px, py :: 0 <= px < width && 0 <= py < height && Inside(req.rect, px, py)
      ensures !ok ==> vram[..] == old(vram[..]) && damage == old(damage) && ring == old(ring)
      ensures !ok ==> vblankCount == old(vblankCount)
      ensures ok ==> forall p :: 0 <= p < vram.Length ==>
                (vram[p] == comp[p] <==>
                   || old(vram[p]) == comp[p] || old(DirtyAt(damage, width, p)) || req.fullUpdate
                   || (req.hasDamage && (Inside(req.rect, p % width, p / width) || old(damage.count) == 16)))
      ensures ok && req.fullUpdate ==> vram[..] == comp[..]
      ensures ok ==> vblankCount == old(vblankCount) + 1 && lastFlip == vblankCount
      ensures ok ==> ring == Queue(Queue(old(ring), Event(1, if req.waitVsync then 1 else 0, vblankCount, now)),
                                   Event(2, (if req.waitVsync then 1 else 0) + (if req.fullUpdate then 2 else 0),
                                         lastFlip, later))
    {
      ghost var was := damage;
      ok := ApplyRequest(req);
      if !ok {
        return;
      }
      forall p | 0 <= p < vram.Length
        ensures DirtyAt(damage, width, p) <==>
                || DirtyAt(was, width, p) || req.fullUpdate
                || (req.hasDamage && (Inside(req.rect, p % width, p / width) || was.count == MAX_DIRTY_RECTS))
      {
        RequestedEffect(was, req, width, height, p);
      }
      Present(req.waitVsync, now);
      lastFlip := vblankCount;
      ring := Queue(ring, Event(FLIP_COMPLETE, FlipFlags(req), lastFlip, later));
    }

    /** AtomicTest and the marking part of AtomicCommit. */
    method ApplyRequest(req: Request) returns (ok: bool)
      requires Valid() && 0 <= req.rect.w && 0 <= req.rect.h
      modifies this`damage, this`pending
      ensures Valid() && ok == Accepts(req, width, height)
      ensures damage == Requested(old(damage), req, width, height)
      ensures ok && req.fullUpdate ==> pending == {}
    {
      if req.fullUpdate {
        NoDamageEffect(damage, width, height);
        damage := NoDamage(damage).(full := true);
        pending := {};
      } else if req.hasDamage {
        var n := Normalize(req.rect, width, height);
        if n.None? {
          return false;
        }
        MarkDirty(n.value);
      }
      ok := true;
    }

    /** PollUapiEvent. */
    method PollEvent() returns (e: Option<Event>)
      requires Valid()
      modifies this`ring
      ensures Valid() && (e, ring) == Poll(old(ring))
    {
      var polled := Poll(ring);
      e, ring := polled.0, polled.1;
    }

    /** Present's copy: one blit for a full update, else one blit per row of each active slot. */
    method Copy()
      requires Valid()
      modifies vram
      ensures forall p :: 0 <= p < vram.Length ==>
              vram[p] == if DirtyAt(damage, width, p) then comp[p] else old(vram[p])
    {
      if damage.full {
        Blit(0, width * height);
      } else if damage.count > 0 {
        for i := 0 to |damage.slots|
          invariant forall p :: 0 <= p < vram.Length ==>
                      vram[p] == if Covered(damage.slots[..i], width, p) then comp[p] else old(vram[p])
        {
          if damage.slots[i].active {
            CopyRect(damage.slots[i].rect);
          }
          forall p | 0 <= p < vram.Length
            ensures Covered(damage.slots[..i + 1], width, p) <==>
                    Covered(damage.slots[..i], width, p) || Covers(damage.slots[i], width, p)
          {
            CoveredSnoc(damage.slots, i, width, p);
          }
        }
        assert damage.slots[..|damage.slots|] == damage.slots;
      } else {
        CountBounds(damage.slots, IsActive);
      }
    }

    /** blit_fast_32 from the compositor buffer to the same offset of VRAM. */
    method Blit(offset: nat, count: nat)
      requires comp != vram && offset + count <= comp.Length == vram.Length
      modifies vram
      ensures forall p :: 0 <= p < vram.Length ==>
                vram[p] == if offset <= p < offset + count then comp[p] else old(vram[p])
    {
      for k := 0 to count
        invariant forall p :: 0 <= p < vram.Length ==>
                    vram[p] == if offset <= p < offset + k then comp[p] else old(vram[p])
      {
        vram[offset + k] := comp[offset + k];
      }
    }

    method CopyRect(r: Rect)
      requires width > 0 && comp != vram && comp.Length == vram.Length == height * width && OnScreen(r, width, height)
      modifies vram
      ensures forall p :: 0 <= p < vram.Length ==>
                vram[p] == if Inside(r, p % width, p / width) then comp[p] else old(vram[p])
    {
      for y := 0 to r.h
        invariant forall p :: 0 <= p < vram.Length ==>
                    vram[p] == if Inside(r.(h := y), p % width, p / width) then comp[p] else old(vram[p])
      {
        RowInBuffer(r.x + r.w, r.y + y, width, height);
        var offset := (r.y + y) * width + r.x;
        Blit(offset, r.w);
        forall p | 0 <= p < vram.Length
          ensures offset <= p < offset + r.w <==> p / width == r.y + y && r.x <= p % width < r.x + r.w
        {
          RowRange(width, r.x, r.y + y, r.w, p);
        }
      }
    }
  }
}
