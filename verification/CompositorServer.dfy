/** The surface table of userspace/apps/desktop/desktop.cpp: who has a surface, which frame is in flight,
    when it is acknowledged and when it is forgotten. */
module CompositorServer {
  import opened Basics
  import opened Counting
  import opened EventQueue
  import opened CompositorProtocol

  const SLOTS: nat := 16
  const STALE_MS: nat := 5000
  const POLL: nat := 192

  datatype Surface = Surface(
    active: bool,
    pid: nat,
    window: nat,
    width: nat,
    height: nat,
    submit: nat,
    presented: nat,
    inFlight: bool,
    commitCount: nat,
    commitMs: nat,
    submitMs: nat,
    overruns: nat,
    timeouts: nat
  )

  const BLANK: Surface := Surface(false, 0, 0, 0, 0, 0, 0, false, 0, 0, 0, 0, 0)

  /** discarded counts the frames in flight that cleanup forgot; the source keeps no such number. */
  datatype Server = Server(
    surfaces: seq<Surface>,
    activeCount: nat,
    commits: nat,
    acks: nat,
    timeouts: nat,
    overruns: nat,
    discarded: nat
  )

  const IsActive: Surface -> bool := (s: Surface) => s.active
  const IsInFlight: Surface -> bool := (s: Surface) => s.active && s.inFlight

  // --- finding and making surfaces ---

  predicate Owns(s: Surface, pid: nat) { s.active && s.pid == pid }

  function Find(t: seq<Surface>, pid: nat): (i: nat)
    ensures i <= |t|
    ensures i < |t| ==> Owns(t[i], pid)
    ensures forall j :: 0 <= j < i ==> !Owns(t[j], pid)
  {
    if t == [] || Owns(t[0], pid) then 0 else 1 + Find(t[1..], pid)
  }

  function FindFree(t: seq<Surface>): (i: nat)
    ensures i <= |t|
    ensures i < |t| ==> !t[i].active
    ensures forall j :: 0 <= j < i ==> t[j].active
  {
    if t == [] || !t[0].active then 0 else 1 + FindFree(t[1..])
  }

  /** The slot that serves pid: its own, else the first free one; |t| if there is neither. */
  function Slot(t: seq<Surface>, pid: nat): (i: nat)
    ensures i <= |t|
  {
    if pid == 0 then |t| else if Find(t, pid) < |t| then Find(t, pid) else FindFree(t)
  }

  function Resized(s: Surface, width: nat, height: nat): Surface
  {
    s.(width := if width > 0 then width else s.width, height := if height > 0 then height else s.height)
  }

  /** The surface in that slot once it belongs to pid. */
  function Claimed(s: Surface, pid: nat, width: nat, height: nat): Surface
  {
    Resized(if s.active then s else BLANK.(active := true, pid := pid), width, height)
  }

  function Ensured(v: Server, pid: nat, width: nat, height: nat): Server
  {
    var i := Slot(v.surfaces, pid);
    if i == |v.surfaces| then v
    else
      var t := v.surfaces[i := Claimed(v.surfaces[i], pid, width, height)];
      v.(surfaces := t, activeCount := Count(t, IsActive))
  }

  // --- messages ---

  function Commit(s: Surface, arg1: int, now: nat): Surface
  {
    s.(submit := ServerSerial(arg1, s.commitCount), inFlight := true, submitMs := now, commitMs := now,
       commitCount := s.commitCount + 1, overruns := s.overruns + if s.inFlight then 1 else 0)
  }

  function Handled(v: Server, e: OSEvent, now: nat): Server
  {
    match FromEvent(e)
    case None => v
    case Some(m) =>
      var i := Slot(v.surfaces, Sender(m));
      if m.kind != HELLO && m.kind != CREATE_SURFACE && m.kind != COMMIT_SURFACE then v
      else
        var w := Ensured(v, Sender(m), m.arg2, m.arg3);
        if i == |v.surfaces| || m.kind == HELLO then w
        else if m.kind == CREATE_SURFACE then
          w.(surfaces := w.surfaces[i := w.surfaces[i].(commitMs := now)])
        else
          w.(surfaces := w.surfaces[i := Commit(w.surfaces[i], m.arg1, now)],
             commits := w.commits + 1, overruns := w.overruns + if w.surfaces[i].inFlight then 1 else 0)
  }

  // --- presenting ---

  function Acked(s: Surface): Surface { s.(presented := s.submit, inFlight := false) }

  predicate Late(s: Surface, now: nat) { s.submitMs != 0 && Elapsed(now, s.submitMs) > TIMEOUT_MS }

  predicate IsAcked(s: Surface, ok: bool, now: nat)
  {
    s.active && s.inFlight && s.pid != 0 && (ok || Late(s, now))
  }

  predicate TimesOut(s: Surface, ok: bool, now: nat)
  {
    s.active && s.inFlight && !ok && Late(s, now)
  }

  function PresentedOne(s: Surface, ok: bool, now: nat): Surface
  {
    var t := if TimesOut(s, ok, now) then s.(timeouts := s.timeouts + 1) else s;
    if IsAcked(s, ok, now) then Acked(t) else t
  }

  function Ack(s: Surface, ok: bool): OSEvent
  {
    FrameDone(s.pid, s.submit, if ok then DONE_OK else DONE_TIMEOUT_RECOVERY)
  }

  datatype Post = Post(target: nat, event: OSEvent)

  /** The first n surfaces after a present step, the others as they were. */
  function PresentedTable(t: seq<Surface>, ok: bool, now: nat, n: nat): (r: seq<Surface>)
    requires n <= |t|
    ensures |r| == |t|
    ensures forall i :: 0 <= i < |t| ==> r[i] == if i < n then PresentedOne(t[i], ok, now) else t[i]
  {
    seq(|t|, i requires 0 <= i < |t| => if i < n then PresentedOne(t[i], ok, now) else t[i])
  }

  /** The acknowledgements posted for the first n surfaces, in order. */
  function Posts(t: seq<Surface>, ok: bool, now: nat, n: nat): seq<Post>
    requires n <= |t|
  {
    if n == 0 then []
    else Posts(t, ok, now, n - 1) + PostOf(t[n - 1], ok, now)
  }

  function PostOf(s: Surface, ok: bool, now: nat): seq<Post>
  {
    if IsAcked(s, ok, now) then [Post(s.pid, Ack(s, ok))] else []
  }

  function Timeouts(t: seq<Surface>, ok: bool, now: nat, n: nat): nat
    requires n <= |t|
  {
    if n == 0 then 0 else Timeouts(t, ok, now, n - 1) + if TimesOut(t[n - 1], ok, now) then 1 else 0
  }

  function Presented(v: Server, ok: bool, now: nat): Server
  {
    var n := |v.surfaces|;
    v.(surfaces := PresentedTable(v.surfaces, ok, now, n),
       acks := v.acks + |Posts(v.surfaces, ok, now, n)|,
       timeouts := v.timeouts + Timeouts(v.surfaces, ok, now, n))
  }

  // --- cleanup ---

  predicate Stale(s: Surface, windows: set<nat>, now: nat)
  {
    && s.active
    && !(s.window != 0 && s.window in windows)
    && s.commitMs != 0 && Elapsed(now, s.commitMs) > STALE_MS
  }

  function CleanedTable(t: seq<Surface>, windows: set<nat>, now: nat, n: nat): (r: seq<Surface>)
    requires n <= |t|
    ensures |r| == |t|
    ensures forall i :: 0 <= i < |t| ==> r[i] == if i < n && Stale(t[i], windows, now) then BLANK else t[i]
  {
    seq(|t|, i requires 0 <= i < |t| => if i < n && Stale(t[i], windows, now) then BLANK else t[i])
  }

  /** How many of the first n surfaces are forgotten with a frame in flight. */
  function Discards(t: seq<Surface>, windows: set<nat>, now: nat, n: nat): nat
    requires n <= |t|
  {
    if n == 0 then 0
    else Discards(t, windows, now, n - 1) + if Stale(t[n - 1], windows, now) && t[n - 1].inFlight then 1 else 0
  }

  function Cleaned(v: Server, windows: set<nat>, now: nat): Server
  {
    var n := |v.surfaces|;
    var t := CleanedTable(v.surfaces, windows, now, n);
    v.(surfaces := t, activeCount := if t == v.surfaces then v.activeCount else Count(t, IsActive),
       discarded := v.discarded + Discards(v.surfaces, windows, now, n))
  }

  // --- every run of the server ---

  datatype Step =
    | Receive(event: OSEvent, at: nat)
    | Present(ok: bool, at: nat)
    | Cleanup(windows: set<nat>, at: nat)
    | Bind(slot: nat, window: nat, width: nat, height: nat)

  function Apply(v: Server, step: Step): Server
  {
    match step
    case Receive(event, at) => Handled(v, event, at)
    case Present(ok, at) => Presented(v, ok, at)
    case Cleanup(windows, at) => Cleaned(v, windows, at)
    case Bind(slot, window, width, height) =>
      if slot < |v.surfaces| && v.surfaces[slot].active
      then v.(surfaces := v.surfaces[slot := v.surfaces[slot].(window := window, width := width, height := height)])
      else v
  }

  ghost predicate TableOk(t: seq<Surface>)
  {
    && |t| == SLOTS
    && (forall i :: 0 <= i < |t| ==> if t[i].active then t[i].pid != 0 else t[i] == BLANK)
    && (forall i, j :: 0 <= i < j < |t| && t[i].active && t[j].active ==> t[i].pid != t[j].pid)
  }

  /** Distinct nonzero pids, an exact count of active surfaces, and every commit accounted for. */
  ghost predicate Inv(v: Server)
  {
    && TableOk(v.surfaces)
    && v.activeCount == Count(v.surfaces, IsActive)
    && v.commits == v.acks + v.overruns + Count(v.surfaces, IsInFlight) + v.discarded
  }

  /** The globals before the first message. */
  function Fresh(): Server { Server(seq(SLOTS, _ => BLANK), 0, 0, 0, 0, 0, 0) }

  lemma FreshInv()
    ensures Inv(Fresh())
  {
    CountBounds(Fresh().surfaces, IsActive);
    CountBounds(Fresh().surfaces, IsInFlight);
  }

  /** Replacing the surface of a slot by one of the same owner, or claiming a free slot for a new owner. */
  lemma SetSurface(t: seq<Surface>, i: nat, s: Surface)
    requires TableOk(t) && i < |t| && s.active && s.pid != 0
    requires if t[i].active then s.pid == t[i].pid else Find(t, s.pid) == |t|
    ensures TableOk(t[i := s])
    ensures Count(t[i := s], IsActive) == Count(t, IsActive) + if t[i].active then 0 else 1
    ensures Count(t[i := s], IsInFlight) ==
            Count(t, IsInFlight) + (if s.inFlight then 1 else 0) - (if t[i].inFlight then 1 else 0)
  {
    CountUpdate(t, i, s, IsActive);
    CountUpdate(t, i, s, IsInFlight);
    forall j | 0 <= j < |t| && j != i && t[j].active
      ensures t[j].pid != s.pid
    {
      assert !t[i].active ==> !Owns(t[j], s.pid);
    }
  }

  lemma SlotIs(t: seq<Surface>, pid: nat)
    requires TableOk(t) && Slot(t, pid) < |t|
    ensures pid != 0
    ensures if t[Slot(t, pid)].active then t[Slot(t, pid)].pid == pid else Find(t, pid) == |t|
  {
  }

  lemma EnsuredInv(v: Server, pid: nat, width: nat, height: nat)
    requires Inv(v)
    ensures Inv(Ensured(v, pid, width, height))
    ensures Slot(v.surfaces, pid) < |v.surfaces| ==>
            Owns(Ensured(v, pid, width, height).surfaces[Slot(v.surfaces, pid)], pid)
  {
    var i := Slot(v.surfaces, pid);
    if i < |v.surfaces| {
      SlotIs(v.surfaces, pid);
      SetSurface(v.surfaces, i, Claimed(v.surfaces[i], pid, width, height));
    }
  }

  lemma HandledInv(v: Server, e: OSEvent, now: nat)
    requires Inv(v)
    ensures Inv(Handled(v, e, now))
  {
    match FromEvent(e)
    case None =>
    case Some(m) =>
      var i := Slot(v.surfaces, Sender(m));
      var w := Ensured(v, Sender(m), m.arg2, m.arg3);
      EnsuredInv(v, Sender(m), m.arg2, m.arg3);
      if i < |v.surfaces| {
        SetSurface(w.surfaces, i, w.surfaces[i].(commitMs := now));
        SetSurface(w.surfaces, i, Commit(w.surfaces[i], m.arg1, now));
      }
  }

  lemma PresentedNext(t: seq<Surface>, ok: bool, now: nat, n: nat)
    requires 0 < n <= |t|
    ensures PresentedTable(t, ok, now, n) == PresentedTable(t, ok, now, n - 1)[n - 1 := PresentedOne(t[n - 1], ok, now)]
  {
  }

  lemma PostsNext(t: seq<Surface>, ok: bool, now: nat, n: nat)
    requires 0 < n <= |t|
    ensures Posts(t, ok, now, n) == Posts(t, ok, now, n - 1) + PostOf(t[n - 1], ok, now)
    ensures |PostOf(t[n - 1], ok, now)| == if IsAcked(t[n - 1], ok, now) then 1 else 0
    ensures Timeouts(t, ok, now, n) == Timeouts(t, ok, now, n - 1) + if TimesOut(t[n - 1], ok, now) then 1 else 0
  {
  }

  lemma CleanedNext(t: seq<Surface>, windows: set<nat>, now: nat, n: nat)
    requires 0 < n <= |t|
    ensures CleanedTable(t, windows, now, n) ==
            CleanedTable(t, windows, now, n - 1)[n - 1 := if Stale(t[n - 1], windows, now) then BLANK else t[n - 1]]
  {
  }

  lemma {:induction false} PostsCount(t: seq<Surface>, ok: bool, now: nat, n: nat)
    requires n <= |t|
    ensures |Posts(t, ok, now, n)| == Count(t[..n], s => IsAcked(s, ok, now))
  {
    if n > 0 {
      PostsCount(t, ok, now, n - 1);
      assert t[..n][..n - 1] == t[..n - 1];
    }
  }

  lemma {:induction false} DiscardsCount(t: seq<Surface>, windows: set<nat>, now: nat, n: nat)
    requires n <= |t|
    ensures Discards(t, windows, now, n) == Count(t[..n], s => Stale(s, windows, now) && s.inFlight)
  {
    if n > 0 {
      DiscardsCount(t, windows, now, n - 1);
      assert t[..n][..n - 1] == t[..n - 1];
    }
  }

  lemma PresentedCounts(t: seq<Surface>, ok: bool, now: nat)
    ensures var r := PresentedTable(t, ok, now, |t|);
            && Count(r, IsActive) == Count(t, IsActive)
            && Count(r, IsInFlight) + |Posts(t, ok, now, |t|)| == Count(t, IsInFlight)
  {
    var r := PresentedTable(t, ok, now, |t|);
    PostsCount(t, ok, now, |t|);
    assert t[..|t|] == t;
    CountSame(t, r, IsActive);
    CountSplit(t, r, IsInFlight, s => IsAcked(s, ok, now));
  }

  lemma CleanedCounts(t: seq<Surface>, windows: set<nat>, now: nat)
    ensures Count(CleanedTable(t, windows, now, |t|), IsInFlight) + Discards(t, windows, now, |t|) ==
            Count(t, IsInFlight)
  {
    DiscardsCount(t, windows, now, |t|);
    assert t[..|t|] == t;
    CountSplit(t, CleanedTable(t, windows, now, |t|), IsInFlight, s => Stale(s, windows, now) && s.inFlight);
  }

  lemma PresentedInv(v: Server, ok: bool, now: nat)
    requires Inv(v)
    ensures Inv(Presented(v, ok, now))
  {
    PresentedCounts(v.surfaces, ok, now);
  }

  lemma CleanedInv(v: Server, windows: set<nat>, now: nat)
    requires Inv(v)
    ensures Inv(Cleaned(v, windows, now))
  {
    CleanedCounts(v.surfaces, windows, now);
  }

  lemma StepKeepsInv(v: Server, step: Step)
    requires Inv(v)
    ensures Inv(Apply(v, step))
  {
    match step
    case Receive(event, at) => HandledInv(v, event, at);
    case Present(ok, at) => PresentedInv(v, ok, at);
    case Cleanup(windows, at) => CleanedInv(v, windows, at);
    case Bind(slot, window, width, height) =>
      if slot < |v.surfaces| && v.surfaces[slot].active {
        SetSurface(v.surfaces, slot, v.surfaces[slot].(window := window, width := width, height := height));
      }
  }

  function Run(v: Server, steps: seq<Step>): Server
    decreases |steps|
  {
    if steps == [] then v else Run(Apply(v, steps[0]), steps[1..])
  }

  /** In every run: commits == acks + overruns + frames in flight + frames forgotten in flight, pids are
      distinct, and the active count is exact. */
  lemma {:induction false} Accounting(v: Server, steps: seq<Step>)
    requires Inv(v)
    ensures Inv(Run(v, steps))
    decreases |steps|
  {
    if steps != [] {
      StepKeepsInv(v, steps[0]);
      Accounting(Apply(v, steps[0]), steps[1..]);
    }
  }

  /** In flight for over 1500 ms, by the clock alone. */
  predicate Overdue(s: Surface, now: nat) { s.inFlight && Elapsed(now, s.submitMs) > TIMEOUT_MS }

  /** After a present step the only overdue frames in flight are those of a failed present whose submit
      time reads as zero; after a successful one nothing is in flight. */
  lemma OverdueIffNoSubmitTime(v: Server, ok: bool, now: nat, i: nat)
    requires Inv(v) && i < SLOTS
    ensures Overdue(Presented(v, ok, now).surfaces[i], now) <==>
            !ok && Overdue(v.surfaces[i], now) && v.surfaces[i].submitMs == 0
    ensures Presented(v, ok, now).surfaces[i].inFlight <==>
            v.surfaces[i].inFlight && !ok && (v.surfaces[i].submitMs == 0 || !Overdue(v.surfaces[i], now))
  {
  }

  function FailedPresents(times: seq<nat>): seq<Step>
  {
    seq(|times|, i requires 0 <= i < |times| => Present(false, times[i]))
  }

  /** A frame submitted at clock 0 is never given up, however many presents fail and however late. */
  lemma {:induction false} ZeroClockNeverTimesOut(v: Server, times: seq<nat>, i: nat)
    requires i < |v.surfaces| && v.surfaces[i].submitMs == 0
    ensures var w := Run(v, FailedPresents(times));
            |w.surfaces| == |v.surfaces| && w.surfaces[i] == v.surfaces[i]
    decreases |times|
  {
    if times != [] {
      var steps := FailedPresents(times);
      assert steps[1..] == FailedPresents(times[1..]);
      ZeroClockNeverTimesOut(Apply(v, steps[0]), times[1..], i);
    }
  }

  /** The first commit of a first client, taken at clock 0, is such a frame. */
  lemma OverdueForever(pid: nat, times: seq<nat>, now: nat)
    requires 0 < pid < HALF && now > TIMEOUT_MS
    ensures var w := Run(Fresh(), [Receive(CommitSurface(pid, 1, 1, 1), 0)] + FailedPresents(times + [now]));
            |w.surfaces| == SLOTS && w.surfaces[0].active && Overdue(w.surfaces[0], now)
  {
    var first := Receive(CommitSurface(pid, 1, 1, 1), 0);
    var t := Fresh().surfaces;
    assert Find(t, pid) == SLOTS && FindFree(t) == 0;
    var steps := [first] + FailedPresents(times + [now]);
    assert steps[1..] == FailedPresents(times + [now]);
    ZeroClockNeverTimesOut(Apply(Fresh(), first), times + [now], 0);
  }

  // --- serials ---

  predicate SerialsOk(s: Surface) { s.presented <= s.submit && (s.inFlight <==> s.presented < s.submit) }

  ghost predicate InOrder(v: Server)
  {
    forall i :: 0 <= i < |v.surfaces| ==> SerialsOk(v.surfaces[i])
  }

  datatype Flight = Flight(submit: nat, presented: nat, inFlight: bool)

  /** The surface of pid, blank if there is none. */
  function SurfaceOf(v: Server, pid: nat): Surface
  {
    var i := Find(v.surfaces, pid);
    if i < |v.surfaces| then v.surfaces[i] else BLANK
  }

  /** Where the frames of pid stand; without a surface nothing was submitted. */
  function FlightOf(v: Server, pid: nat): Flight { FlightIn(SurfaceOf(v, pid)) }

  function FlightIn(s: Surface): Flight { Flight(s.submit, s.presented, s.inFlight) }

  /** The serial a commit message gets, as the surface stands. */
  function SerialOf(v: Server, m: Message): nat
  {
    var i := Find(v.surfaces, Sender(m));
    ServerSerial(m.arg1, if i < |v.surfaces| then v.surfaces[i].commitCount else 0)
  }

  /** The commit message of a step, if it is one that finds a slot. */
  function CommitIn(v: Server, step: Step): Option<Message>
  {
    if step.Receive? && FromEvent(step.event).Some? then
      var m := FromEvent(step.event).value;
      if m.kind == COMMIT_SURFACE && Slot(v.surfaces, Sender(m)) < |v.surfaces| then Some(m) else None
    else None
  }

  /** A commit that is taken carries a serial above the last one presented for its client. */
  predicate Guarded(v: Server, step: Step)
  {
    match CommitIn(v, step)
    case None => true
    case Some(m) => SerialOf(v, m) > FlightOf(v, Sender(m)).presented
  }

  /** The surface a commit leaves in its slot. */
  lemma HandledCommit(v: Server, e: OSEvent, now: nat, m: Message)
    requires Inv(v) && CommitIn(v, Receive(e, now)) == Some(m)
    ensures var i, f, t := Slot(v.surfaces, Sender(m)), FlightOf(v, Sender(m)), Handled(v, e, now).surfaces;
            && |t| == |v.surfaces| && FlightIn(t[i]) == Flight(SerialOf(v, m), f.presented, true)
            && forall j :: 0 <= j < |t| && j != i ==> t[j] == v.surfaces[j]
  {
    SlotIs(v.surfaces, Sender(m));
  }

  lemma HandledOther(v: Server, e: OSEvent, now: nat)
    requires Inv(v) && InOrder(v) && CommitIn(v, Receive(e, now)).None?
    ensures InOrder(Handled(v, e, now))
  {
  }

  /** A step keeps "in flight exactly when presented < submitted" if and only if it is guarded. */
  lemma InOrderIffGuarded(v: Server, step: Step)
    requires Inv(v) && InOrder(v)
    ensures InOrder(Apply(v, step)) <==> Guarded(v, step)
  {
    match CommitIn(v, step)
    case Some(m) =>
      HandledCommit(v, step.event, step.at, m);
      var i := Slot(v.surfaces, Sender(m));
      assert SerialsOk(Apply(v, step).surfaces[i]) <==> Guarded(v, step);
    case None =>
      if step.Receive? {
        HandledOther(v, step.event, step.at);
      }
  }

  predicate AllGuarded(v: Server, steps: seq<Step>)
    decreases |steps|
  {
    steps == [] || (Guarded(v, steps[0]) && AllGuarded(Apply(v, steps[0]), steps[1..]))
  }

  lemma RunNext(v: Server, steps: seq<Step>, k: nat)
    requires k < |steps|
    ensures Run(v, steps[..k + 1]) == Run(Apply(v, steps[0]), steps[1..][..k])
  {
    assert steps[..k + 1][1..] == steps[1..][..k];
  }

  /** The flag is exact in every state of a run if and only if every commit of the run is guarded. */
  lemma {:induction false} FlightExactIff(v: Server, steps: seq<Step>)
    requires Inv(v) && InOrder(v)
    ensures (forall k :: 0 <= k <= |steps| ==> InOrder(Run(v, steps[..k]))) <==> AllGuarded(v, steps)
    decreases |steps|
  {
    if steps == [] {
      return;
    }
    var w, rest := Apply(v, steps[0]), steps[1..];
    StepKeepsInv(v, steps[0]);
    InOrderIffGuarded(v, steps[0]);
    RunNext(v, steps, 0);
    if !Guarded(v, steps[0]) {
      assert Run(w, rest[..0]) == w;
      assert !InOrder(Run(v, steps[..1]));
      return;
    }
    FlightExactIff(w, rest);
    if AllGuarded(v, steps) {
      forall k | 0 <= k <= |steps|
        ensures InOrder(Run(v, steps[..k]))
      {
        if k > 0 {
          RunNext(v, steps, k - 1);
        }
      }
    } else {
      var k :| 0 <= k <= |rest| && !InOrder(Run(w, rest[..k]));
      RunNext(v, steps, k);
      assert !InOrder(Run(v, steps[..k + 1]));
    }
  }

  /** A commit that is taken carries a serial above the last one submitted by its client. */
  predicate Increasing(v: Server, step: Step)
  {
    match CommitIn(v, step)
    case None => true
    case Some(m) => SerialOf(v, m) > FlightOf(v, Sender(m)).submit
  }

  predicate AllIncreasing(v: Server, steps: seq<Step>)
    decreases |steps|
  {
    steps == [] || (Increasing(v, steps[0]) && AllIncreasing(Apply(v, steps[0]), steps[1..]))
  }

  lemma {:induction false} IncreasingIsGuarded(v: Server, steps: seq<Step>)
    requires Inv(v) && InOrder(v) && AllIncreasing(v, steps)
    ensures AllGuarded(v, steps)
    decreases |steps|
  {
    if steps != [] {
      StepKeepsInv(v, steps[0]);
      InOrderIffGuarded(v, steps[0]);
      IncreasingIsGuarded(Apply(v, steps[0]), steps[1..]);
    }
  }

  /** In particular increasing serials keep it exact. */
  lemma FlightIsExact(v: Server, steps: seq<Step>)
    requires Inv(v) && InOrder(v) && AllIncreasing(v, steps)
    ensures InOrder(Run(v, steps))
  {
    IncreasingIsGuarded(v, steps);
    FlightExactIff(v, steps);
    assert steps[..|steps|] == steps;
  }

  /** A repeated serial does not: it puts an already presented frame in flight again. */
  lemma RepeatedSerialBreaks(pid: nat)
    requires 0 < pid < HALF
    ensures var commit := CommitSurface(pid, 1, 1, 1);
            var steps := [Receive(commit, 1), Present(true, 2), Receive(commit, 3)];
            && |Run(Fresh(), steps).surfaces| == SLOTS
            && exists i :: 0 <= i < SLOTS && !SerialsOk(Run(Fresh(), steps).surfaces[i])
  {
    var commit := CommitSurface(pid, 1, 1, 1);
    var a := Handled(Fresh(), commit, 1);
    var t := Fresh().surfaces;
    assert Find(t, pid) == SLOTS && FindFree(t) == 0;
    var first := a.surfaces[0];
    assert first.active && first.pid == pid && first.submit == 1 && first.inFlight;
    var b := Presented(a, true, 2);
    assert b.surfaces[0] == Acked(first);
    assert Find(b.surfaces, pid) == 0;
    var c := Handled(b, commit, 3);
    assert !SerialsOk(c.surfaces[0]);
    var steps := [Receive(commit, 1), Present(true, 2), Receive(commit, 3)];
    assert steps[1..] == [Present(true, 2), Receive(commit, 3)] && steps[1..][1..] == [Receive(commit, 3)];
    assert Run(b, [Receive(commit, 3)]) == c by {
      assert [Receive(commit, 3)][1..] == [];
    }
    assert Run(Fresh(), steps) == c;
  }

  // --- one client's frames ---

  lemma FindOwned(t: seq<Surface>, pid: nat, i: nat)
    requires TableOk(t) && i < |t| && Owns(t[i], pid)
    ensures Find(t, pid) == i
  {
  }

  /** Replacing one surface leaves those of the other clients alone. */
  lemma SurfaceSet(v: Server, i: nat, s: Surface, w: Server, pid: nat)
    requires TableOk(v.surfaces) && TableOk(w.surfaces) && i < |v.surfaces| && w.surfaces == v.surfaces[i := s]
    requires v.surfaces[i].active ==> s.active && s.pid == v.surfaces[i].pid
    ensures SurfaceOf(w, pid) == if Owns(s, pid) then s else SurfaceOf(v, pid)
  {
    if Owns(s, pid) {
      FindOwned(w.surfaces, pid, i);
    } else {
      FindIs(w.surfaces, pid, Find(v.surfaces, pid));
    }
  }

  lemma EnsuredSurface(v: Server, who: nat, width: nat, height: nat, pid: nat)
    requires Inv(v) && pid != 0
    ensures SurfaceOf(Ensured(v, who, width, height), pid) ==
            if who == pid && Slot(v.surfaces, who) < |v.surfaces|
            then Resized(SurfaceOf(v, pid).(active := true, pid := pid), width, height)
            else SurfaceOf(v, pid)
  {
    var i := Slot(v.surfaces, who);
    if i < |v.surfaces| {
      var s := Claimed(v.surfaces[i], who, width, height);
      SlotIs(v.surfaces, who);
      SetSurface(v.surfaces, i, s);
      SurfaceSet(v, i, s, Ensured(v, who, width, height), pid);
      if Owns(v.surfaces[i], pid) {
        FindOwned(v.surfaces, pid, i);
      }
    }
  }

  predicate IsCommitOf(e: OSEvent, pid: nat)
  {
    FromEvent(e).Some? && FromEvent(e).value.kind == COMMIT_SURFACE && Sender(FromEvent(e).value) == pid
  }

  /** A HELLO, CREATE_SURFACE or COMMIT_SURFACE of the client. */
  predicate IsCallOf(e: OSEvent, pid: nat)
  {
    e.kind == 64 && e.buttons in {1, 2, 3} && e.dx == pid
  }

  /** The surface after a message of its client: made if there was none, sized as asked, and for a commit with
      serial and time of the frame, which is in flight from now on. */
  ghost predicate CallTaken(s: Surface, e: OSEvent, now: nat, t: Surface)
  {
    && t.active && t.pid == e.dx && t.window == s.window
    && t.width == (if e.scancode > 0 then e.scancode else s.width)
    && t.height == (if e.ascii > 0 then e.ascii else s.height)
    && t.presented == s.presented && t.timeouts == s.timeouts
    && t.commitMs == (if e.buttons == 1 then s.commitMs else now)
    && if e.buttons == 3
       then && t.submit == (if e.dy > 0 then e.dy else (s.commitCount + 1) % 0x1_0000_0000)
            && t.inFlight && t.submitMs == now && t.commitCount == s.commitCount + 1
            && t.overruns == s.overruns + if s.inFlight then 1 else 0
       else && t.submit == s.submit && t.inFlight == s.inFlight && t.submitMs == s.submitMs
            && t.commitCount == s.commitCount && t.overruns == s.overruns
  }

  /** The table after CREATE_SURFACE or COMMIT_SURFACE, given the sender's slot i. */
  lemma UpdatedSurface(u: Server, i: nat, s: Surface, w: Server, who: nat, pid: nat)
    requires Inv(u) && i < |u.surfaces| && Owns(u.surfaces[i], who) && who != 0 && Owns(s, who)
    requires w.surfaces == u.surfaces[i := s]
    ensures SurfaceOf(u, who) == u.surfaces[i] && SurfaceOf(w, pid) == if who == pid then s else SurfaceOf(u, pid)
  {
    SetSurface(u.surfaces, i, s);
    SurfaceSet(u, i, s, w, pid);
    FindOwned(u.surfaces, who, i);
  }

  /** A message changes no surface but its sender's. */
  lemma HandledSurface(v: Server, e: OSEvent, now: nat, pid: nat)
    requires Inv(v) && pid != 0
    ensures var s, t := SurfaceOf(v, pid), SurfaceOf(Handled(v, e, now), pid);
            if IsCallOf(e, pid) && Slot(v.surfaces, pid) < |v.surfaces| then CallTaken(s, e, now, t) else t == s
  {
    match FromEvent(e)
    case None =>
    case Some(m) =>
      var i := Slot(v.surfaces, Sender(m));
      var u := Ensured(v, Sender(m), m.arg2, m.arg3);
      EnsuredInv(v, Sender(m), m.arg2, m.arg3);
      EnsuredSurface(v, Sender(m), m.arg2, m.arg3, pid);
      if i < |v.surfaces| && (m.kind == CREATE_SURFACE || m.kind == COMMIT_SURFACE) {
        var s := if m.kind == CREATE_SURFACE then u.surfaces[i].(commitMs := now)
                 else Commit(u.surfaces[i], m.arg1, now);
        SlotIs(v.surfaces, Sender(m));
        UpdatedSurface(u, i, s, Handled(v, e, now), Sender(m), pid);
      }
  }

  /** Only its own commits put frames of a client in flight, and such a commit takes its serial over
      unless no slot is left. */
  lemma HandledFlight(v: Server, e: OSEvent, now: nat, pid: nat)
    requires Inv(v) && pid != 0
    ensures !IsCommitOf(e, pid) ==> FlightOf(Handled(v, e, now), pid) == FlightOf(v, pid)
    ensures IsCommitOf(e, pid) && e.dy > 0 ==>
              var f := FlightOf(v, pid);
              FlightOf(Handled(v, e, now), pid) ==
              if Slot(v.surfaces, pid) == |v.surfaces| then f else Flight(e.dy, f.presented, true)
  {
    HandledSurface(v, e, now, pid);
  }

  /** A present step acknowledges the frame in flight if it succeeded, or if over 1500 ms have passed since the
      commit, and touches nothing else. */
  lemma PresentedSurface(v: Server, ok: bool, now: nat, pid: nat)
    requires Inv(v) && pid != 0
    ensures var s, t := SurfaceOf(v, pid), SurfaceOf(Presented(v, ok, now), pid);
            t == if s.inFlight && (ok || (s.submitMs != 0 && Elapsed(now, s.submitMs) > 1500))
                 then s.(presented := s.submit, inFlight := false, timeouts := s.timeouts + if ok then 0 else 1)
                 else s
  {
    var w := Presented(v, ok, now);
    PresentedInv(v, ok, now);
    FindIs(w.surfaces, pid, Find(v.surfaces, pid));
  }

  /** A present step acknowledges the submitted frame or leaves things as they are. */
  lemma PresentedFlight(v: Server, ok: bool, now: nat, pid: nat)
    requires Inv(v)
    ensures var f, g := FlightOf(v, pid), FlightOf(Presented(v, ok, now), pid);
            g == f || (f.inFlight && g == Flight(f.submit, f.submit, false))
  {
    var w := Presented(v, ok, now);
    PresentedInv(v, ok, now);
    FindIs(w.surfaces, pid, Find(v.surfaces, pid));
  }

  /** Cleanup forgets a surface without a window if over 5000 ms have passed since it was created or
      committed to, and touches nothing else. */
  lemma CleanedSurface(v: Server, windows: set<nat>, now: nat, pid: nat)
    requires Inv(v)
    ensures var s, t := SurfaceOf(v, pid), SurfaceOf(Cleaned(v, windows, now), pid);
            t == if (s.window == 0 || s.window !in windows) && s.commitMs != 0 && Elapsed(now, s.commitMs) > 5000
                 then BLANK else s
  {
    var w := Cleaned(v, windows, now);
    CleanedInv(v, windows, now);
    if Find(w.surfaces, pid) < |w.surfaces| {
      FindOwned(v.surfaces, pid, Find(w.surfaces, pid));
    }
  }

  /** Cleanup forgets a client's frames or leaves them as they are. */
  lemma CleanedFlight(v: Server, windows: set<nat>, now: nat, pid: nat)
    requires Inv(v)
    ensures var f, g := FlightOf(v, pid), FlightOf(Cleaned(v, windows, now), pid);
            g == f || g == Flight(0, 0, false)
  {
    CleanedSurface(v, windows, now, pid);
  }

  /** Binding changes a surface's window and size only. */
  lemma BoundSurface(v: Server, slot: nat, window: nat, width: nat, height: nat, pid: nat)
    requires Inv(v)
    ensures var s, t := SurfaceOf(v, pid), SurfaceOf(Apply(v, Bind(slot, window, width, height)), pid);
            t == s || (s.active && t == s.(window := window, width := width, height := height))
  {
    var b := Bind(slot, window, width, height);
    StepKeepsInv(v, b);
    if slot < |v.surfaces| && v.surfaces[slot].active {
      var s := v.surfaces[slot].(window := window, width := width, height := height);
      SurfaceSet(v, slot, s, Apply(v, b), pid);
      if Owns(s, pid) {
        FindOwned(v.surfaces, pid, slot);
      }
    }
  }

  lemma BoundFlight(v: Server, slot: nat, window: nat, width: nat, height: nat, pid: nat)
    requires Inv(v)
    ensures FlightOf(Apply(v, Bind(slot, window, width, height)), pid) == FlightOf(v, pid)
  {
    BoundSurface(v, slot, window, width, height, pid);
  }

  function PostsTo(posts: seq<Post>, pid: nat): seq<OSEvent>
  {
    if posts == [] then []
    else PostsTo(posts[..|posts| - 1], pid) +
         if posts[|posts| - 1].target == pid then [posts[|posts| - 1].event] else []
  }

  lemma PostsToAppend(posts: seq<Post>, more: seq<Post>, pid: nat)
    requires |more| <= 1
    ensures PostsTo(posts + more, pid) ==
            PostsTo(posts, pid) + if |more| == 1 && more[0].target == pid then [more[0].event] else []
  {
    if |more| == 1 {
      assert (posts + more)[..|posts|] == posts;
    } else {
      assert posts + more == posts;
    }
  }

  /** A client is sent exactly one acknowledgement, of the last serial taken from it, if its frame is
      acknowledged in this step, and nothing otherwise. */
  lemma {:induction false} PostsExact(t: seq<Surface>, ok: bool, now: nat, n: nat, pid: nat)
    requires TableOk(t) && n <= SLOTS
    ensures PostsTo(Posts(t, ok, now, n), pid) == AckIn(t, ok, now, n, pid)
  {
    if n > 0 {
      PostsExact(t, ok, now, n - 1, pid);
      PostsToAppend(Posts(t, ok, now, n - 1), PostOf(t[n - 1], ok, now), pid);
      AckInNext(t, ok, now, n, pid);
    }
  }

  /** The acknowledgement for pid, if it is among those of the first n surfaces. */
  function AckIn(t: seq<Surface>, ok: bool, now: nat, n: nat, pid: nat): seq<OSEvent>
  {
    var i := Find(t, pid);
    if i < n && i < |t| && IsAcked(t[i], ok, now) then [Ack(t[i], ok)] else []
  }

  lemma AckInNext(t: seq<Surface>, ok: bool, now: nat, n: nat, pid: nat)
    requires TableOk(t) && 0 < n <= |t|
    ensures AckIn(t, ok, now, n, pid) ==
            AckIn(t, ok, now, n - 1, pid)
            + if IsAcked(t[n - 1], ok, now) && t[n - 1].pid == pid then [Ack(t[n - 1], ok)] else []
  {
    if Owns(t[n - 1], pid) {
      FindOwned(t, pid, n - 1);
    }
  }

  /** What each step counts: a commit that is taken, an overrun if a frame was still in flight, every frame that is
      acknowledged, and among those the ones given up. */
  lemma CountsExactly(v: Server, step: Step)
    requires Inv(v)
    ensures var w := Apply(v, step);
            match step
            case Receive(e, _) =>
              var taken := && e.kind == 64 && e.buttons == 3 && e.dx > 0 && Slot(v.surfaces, e.dx) < |v.surfaces|;
              && w.commits == v.commits + (if taken then 1 else 0)
              && w.overruns == v.overruns + (if taken && SurfaceOf(v, e.dx).inFlight then 1 else 0)
              && w.acks == v.acks && w.timeouts == v.timeouts
            case Present(ok, now) =>
              var late := (s: Surface) => s.inFlight && s.submitMs != 0 && Elapsed(now, s.submitMs) > 1500;
              && w.commits == v.commits && w.overruns == v.overruns
              && w.acks == v.acks + Count(v.surfaces, if ok then (s: Surface) => s.inFlight else late)
              && w.timeouts == v.timeouts + if ok then 0 else Count(v.surfaces, late)
            case _ => w.commits == v.commits && w.overruns == v.overruns && w.acks == v.acks && w.timeouts == v.timeouts
  {
    match step
    case Receive(e, now) => HandledCounts(v, e, now);
    case Present(ok, now) =>
      var late := (s: Surface) => s.inFlight && s.submitMs != 0 && Elapsed(now, s.submitMs) > 1500;
      PostsCount(v.surfaces, ok, now, |v.surfaces|);
      TimeoutsCount(v.surfaces, ok, now, |v.surfaces|);
      assert v.surfaces[..|v.surfaces|] == v.surfaces;
      CountAlike(v.surfaces, s => IsAcked(s, ok, now), if ok then (s: Surface) => s.inFlight else late);
      CountAlike(v.surfaces, s => TimesOut(s, ok, now), if ok then (s: Surface) => false else late);
      CountBounds(v.surfaces, (s: Surface) => false);
    case _ =>
  }

  lemma HandledCounts(v: Server, e: OSEvent, now: nat)
    requires Inv(v)
    ensures var w := Handled(v, e, now);
            var taken := && e.kind == 64 && e.buttons == 3 && e.dx > 0 && Slot(v.surfaces, e.dx) < |v.surfaces|;
            && w.commits == v.commits + (if taken then 1 else 0)
            && w.overruns == v.overruns + (if taken && SurfaceOf(v, e.dx).inFlight then 1 else 0)
            && w.acks == v.acks && w.timeouts == v.timeouts
  {
    if FromEvent(e).Some? && Sender(FromEvent(e).value) != 0 {
      var m := FromEvent(e).value;
      EnsuredSurface(v, Sender(m), m.arg2, m.arg3, Sender(m));
      EnsuredInv(v, Sender(m), m.arg2, m.arg3);
      if Slot(v.surfaces, Sender(m)) < |v.surfaces| {
        FindOwned(Ensured(v, Sender(m), m.arg2, m.arg3).surfaces, Sender(m), Slot(v.surfaces, Sender(m)));
      }
    }
  }

  lemma {:induction false} TimeoutsCount(t: seq<Surface>, ok: bool, now: nat, n: nat)
    requires n <= |t|
    ensures Timeouts(t, ok, now, n) == Count(t[..n], s => TimesOut(s, ok, now))
  {
    if n > 0 {
      TimeoutsCount(t, ok, now, n - 1);
      assert t[..n][..n - 1] == t[..n - 1];
    }
  }

  // --- over runs: when a frame is given up and when a surface is forgotten ---

  /** The frame is in flight since that time. */
  predicate InFlightSince(v: Server, pid: nat, serial: nat, at: nat)
  {
    var s := SurfaceOf(v, pid);
    s.active && s.inFlight && s.submit == serial && s.submitMs == at
  }

  /** A step that is no commit of pid, does not clean its surface up, and does not present its frame: no present
      succeeds, and none is over 1500 ms late. */
  predicate LeavesFrame(v: Server, step: Step, pid: nat, at: nat)
  {
    match step
    case Receive(event, _) => !(IsCallOf(event, pid) && event.buttons == 3)
    case Present(ok, now) => !ok && at <= now <= at + 1500
    case Cleanup(_, _) => SurfaceOf(Apply(v, step), pid).active
    case Bind(_, _, _, _) => true
  }

  predicate AllLeaveFrame(v: Server, steps: seq<Step>, pid: nat, at: nat)
    decreases |steps|
  {
    steps == [] || (LeavesFrame(v, steps[0], pid, at) && AllLeaveFrame(Apply(v, steps[0]), steps[1..], pid, at))
  }

  lemma FrameStays(v: Server, step: Step, pid: nat, serial: nat, at: nat)
    requires Inv(v) && pid != 0 && InFlightSince(v, pid, serial, at) && LeavesFrame(v, step, pid, at)
    ensures InFlightSince(Apply(v, step), pid, serial, at)
  {
    match step
    case Receive(event, now) => HandledSurface(v, event, now, pid);
    case Present(ok, now) => PresentedSurface(v, ok, now, pid);
    case Cleanup(windows, now) => CleanedSurface(v, windows, now, pid);
    case Bind(slot, window, width, height) => BoundSurface(v, slot, window, width, height, pid);
  }

  lemma {:induction false} FrameStaysLong(v: Server, steps: seq<Step>, pid: nat, serial: nat, at: nat)
    requires Inv(v) && pid != 0 && InFlightSince(v, pid, serial, at) && AllLeaveFrame(v, steps, pid, at)
    ensures Inv(Run(v, steps)) && InFlightSince(Run(v, steps), pid, serial, at)
    decreases |steps|
  {
    if steps != [] {
      StepKeepsInv(v, steps[0]);
      FrameStays(v, steps[0], pid, serial, at);
      FrameStaysLong(Apply(v, steps[0]), steps[1..], pid, serial, at);
    }
  }

  /** The acknowledgement that a present step posts to a client. */
  lemma PostsAre(v: Server, ok: bool, now: nat, pid: nat)
    requires Inv(v) && pid != 0
    ensures var s := SurfaceOf(v, pid);
            PostsTo(Posts(v.surfaces, ok, now, SLOTS), pid) ==
            if s.inFlight && (ok || (s.submitMs != 0 && Elapsed(now, s.submitMs) > 1500))
            then [FrameDone(pid, s.submit, if ok then 0 else 1)] else []
  {
    PostsExact(v.surfaces, ok, now, SLOTS, pid);
  }

  /** A commit taken at a clock other than zero is given up by the first failed present over 1500 ms later and by
      no earlier one, whatever happens in between; its client is then told, with the serial of the frame. */
  lemma GivenUpAfter(v: Server, e: OSEvent, at: nat, pid: nat, steps: seq<Step>, now: nat)
    requires Inv(v) && pid != 0 && IsCallOf(e, pid) && e.buttons == 3 && Slot(v.surfaces, pid) < |v.surfaces|
    requires 0 < at <= now && AllLeaveFrame(Apply(v, Receive(e, at)), steps, pid, at)
    ensures var w := Run(Apply(v, Receive(e, at)), steps);
            var serial := SurfaceOf(Apply(v, Receive(e, at)), pid).submit;
            && (e.dy > 0 ==> serial == e.dy) && |w.surfaces| == SLOTS && SurfaceOf(w, pid).inFlight
            && (SurfaceOf(Apply(w, Present(false, now)), pid).inFlight <==> now - at <= 1500)
            && PostsTo(Posts(w.surfaces, false, now, SLOTS), pid) ==
               if now - at <= 1500 then [] else [FrameDone(pid, serial, 1)]
  {
    var u := Apply(v, Receive(e, at));
    StepKeepsInv(v, Receive(e, at));
    HandledSurface(v, e, at, pid);
    FrameStaysLong(u, steps, pid, SurfaceOf(u, pid).submit, at);
    PresentedSurface(Run(u, steps), false, now, pid);
    PostsAre(Run(u, steps), false, now, pid);
  }

  predicate TouchedAt(v: Server, pid: nat, at: nat)
  {
    SurfaceOf(v, pid).active && SurfaceOf(v, pid).commitMs == at
  }

  /** A step that neither creates the surface of pid again, nor commits to it, nor cleans it up. */
  predicate LeavesSurface(v: Server, step: Step, pid: nat)
  {
    match step
    case Receive(event, _) => !(IsCallOf(event, pid) && event.buttons != 1)
    case Cleanup(_, _) => SurfaceOf(Apply(v, step), pid).active
    case _ => true
  }

  predicate AllLeaveSurface(v: Server, steps: seq<Step>, pid: nat)
    decreases |steps|
  {
    steps == [] || (LeavesSurface(v, steps[0], pid) && AllLeaveSurface(Apply(v, steps[0]), steps[1..], pid))
  }

  lemma SurfaceStays(v: Server, step: Step, pid: nat, at: nat)
    requires Inv(v) && pid != 0 && TouchedAt(v, pid, at) && LeavesSurface(v, step, pid)
    ensures TouchedAt(Apply(v, step), pid, at)
  {
    match step
    case Receive(event, now) => HandledSurface(v, event, now, pid);
    case Present(ok, now) => PresentedSurface(v, ok, now, pid);
    case Cleanup(windows, now) => CleanedSurface(v, windows, now, pid);
    case Bind(slot, window, width, height) => BoundSurface(v, slot, window, width, height, pid);
  }

  lemma {:induction false} SurfaceStaysLong(v: Server, steps: seq<Step>, pid: nat, at: nat)
    requires Inv(v) && pid != 0 && TouchedAt(v, pid, at) && AllLeaveSurface(v, steps, pid)
    ensures Inv(Run(v, steps)) && TouchedAt(Run(v, steps), pid, at)
    decreases |steps|
  {
    if steps != [] {
      StepKeepsInv(v, steps[0]);
      SurfaceStays(v, steps[0], pid, at);
      SurfaceStaysLong(Apply(v, steps[0]), steps[1..], pid, at);
    }
  }

  /** A surface that was created or committed to at a clock other than zero is forgotten by a cleanup if and only
      if its window is gone and over 5000 ms have passed since, whatever happens in between. */
  lemma ForgottenAfter(v: Server, e: OSEvent, at: nat, pid: nat, steps: seq<Step>, windows: set<nat>, now: nat)
    requires Inv(v) && pid != 0 && IsCallOf(e, pid) && e.buttons != 1 && Slot(v.surfaces, pid) < |v.surfaces|
    requires 0 < at <= now && AllLeaveSurface(Apply(v, Receive(e, at)), steps, pid)
    ensures var w := Run(Apply(v, Receive(e, at)), steps);
            && SurfaceOf(w, pid).active
            && (SurfaceOf(Apply(w, Cleanup(windows, now)), pid).active <==>
                  (SurfaceOf(w, pid).window != 0 && SurfaceOf(w, pid).window in windows) || now - at <= 5000)
  {
    var u := Apply(v, Receive(e, at));
    StepKeepsInv(v, Receive(e, at));
    HandledSurface(v, e, at, pid);
    SurfaceStaysLong(u, steps, pid, at);
    CleanedSurface(Run(u, steps), windows, now, pid);
  }

  /** A call finds the slot of its client, else the first free one, and no slot if all belong to others. */
  lemma SlotExact(t: seq<Surface>, pid: nat, i: nat)
    requires TableOk(t) && pid != 0 && i < |t|
    requires (t[i].active && t[i].pid == pid)
             || ((forall j :: 0 <= j < |t| ==> !(t[j].active && t[j].pid == pid))
                 && !t[i].active && forall j :: 0 <= j < i ==> t[j].active)
    ensures Slot(t, pid) == i
  {
    if t[i].active {
      FindOwned(t, pid, i);
    } else {
      FindIs(t, pid, |t|);
      FindFreeIs(t, i);
    }
  }

  lemma FindIs(t: seq<Surface>, pid: nat, i: nat)
    requires i <= |t| && (forall j :: 0 <= j < i ==> !Owns(t[j], pid)) && (i < |t| ==> Owns(t[i], pid))
    ensures Find(t, pid) == i
  {
  }

  lemma FindFreeIs(t: seq<Surface>, i: nat)
    requires i <= |t| && (forall j :: 0 <= j < i ==> t[j].active) && (i < |t| ==> !t[i].active)
    ensures FindFree(t) == i
  {
  }

  // --- polling ---

  function Arrivals(inbox: seq<OSEvent>, clock: nat -> nat): (steps: seq<Step>)
    ensures |steps| == |inbox|
  {
    seq(|inbox|, i requires 0 <= i < |inbox| => Receive(inbox[i], clock(i)))
  }

  lemma {:induction false} RunSnoc(v: Server, steps: seq<Step>, step: Step)
    ensures Run(v, steps + [step]) == Apply(Run(v, steps), step)
    decreases |steps|
  {
    if steps == [] {
      assert steps + [step] == [step];
      assert [step][1..] == [];
    } else {
      assert (steps + [step])[1..] == steps[1..] + [step];
      RunSnoc(Apply(v, steps[0]), steps[1..], step);
    }
  }

  lemma RunArrival(v: Server, inbox: seq<OSEvent>, clock: nat -> nat, i: nat)
    requires i < |inbox|
    ensures Run(v, Arrivals(inbox[..i + 1], clock)) ==
            Handled(Run(v, Arrivals(inbox[..i], clock)), inbox[i], clock(i))
  {
    assert Arrivals(inbox[..i + 1], clock) == Arrivals(inbox[..i], clock) + [Receive(inbox[i], clock(i))];
    RunSnoc(v, Arrivals(inbox[..i], clock), Receive(inbox[i], clock(i)));
  }

  /** The desktop's globals. `posted` stands for the messages handed to sys_post_message. */
  class Desktop {
    const surfaces: array<Surface>
    var activeCount: nat
    var commits: nat
    var acks: nat
    var timeouts: nat
    var overruns: nat
    var posted: seq<Post>
    ghost var discarded: nat

    ghost predicate Valid() { surfaces.Length == SLOTS }

    ghost function Value(): Server
      reads this, surfaces
    {
      Server(surfaces[..], activeCount, commits, acks, timeouts, overruns, discarded)
    }

    constructor ()
      ensures Valid() && fresh(surfaces) && Value() == Fresh() && posted == []
    {
      surfaces := new Surface[SLOTS](_ => BLANK);
      activeCount, commits, acks, timeouts, overruns, discarded := 0, 0, 0, 0, 0, 0;
      posted := [];
      new;
      assert surfaces[..] == Fresh().surfaces;
    }

    method RecountProtocolSurfaces()
      requires Valid()
      modifies this`activeCount
      ensures activeCount == Count(surfaces[..], IsActive)
    {
      var count := 0;
      for i := 0 to SLOTS
        invariant count == Count(surfaces[..i], IsActive)
      {
        assert surfaces[..i + 1][..i] == surfaces[..i];
        if surfaces[i].active {
          count := count + 1;
        }
      }
      assert surfaces[..SLOTS] == surfaces[..];
      activeCount := count;
    }

    method FindSurfaceByPid(pid: nat) returns (idx: int)
      requires Valid()
      ensures idx == if Find(surfaces[..], pid) == SLOTS then -1 else Find(surfaces[..], pid)
    {
      for i := 0 to SLOTS
        invariant forall j :: 0 <= j < i ==> !Owns(surfaces[j], pid)
      {
        if surfaces[i].active && surfaces[i].pid == pid {
          FindIs(surfaces[..], pid, i);
          return i;
        }
      }
      FindIs(surfaces[..], pid, SLOTS);
      return -1;
    }

    method FindFreeSlot() returns (idx: int)
      requires Valid()
      ensures idx == if FindFree(surfaces[..]) == SLOTS then -1 else FindFree(surfaces[..])
    {
      for i := 0 to SLOTS
        invariant forall j :: 0 <= j < i ==> surfaces[j].active
      {
        if !surfaces[i].active {
          FindFreeIs(surfaces[..], i);
          return i;
        }
      }
      FindFreeIs(surfaces[..], SLOTS);
      return -1;
    }

    /** EnsureProtocolSurface; -1 stands for a null result. */
    method EnsureSurface(pid: nat, width: nat, height: nat) returns (idx: int)
      requires Valid()
      modifies this`activeCount, surfaces
      ensures idx == if Slot(old(surfaces[..]), pid) == SLOTS then -1 else Slot(old(surfaces[..]), pid)
      ensures Value() == Ensured(old(Value()), pid, width, height)
    {
      if pid == 0 {
        return -1;
      }
      idx := FindSurfaceByPid(pid);
      if idx < 0 {
        idx := FindFreeSlot();
        if idx < 0 {
          return -1;
        }
        surfaces[idx] := BLANK.(active := true, pid := pid);
      }
      if width > 0 {
        surfaces[idx] := surfaces[idx].(width := width);
      }
      if height > 0 {
        surfaces[idx] := surfaces[idx].(height := height);
      }
      assert surfaces[..] == old(surfaces[..])[idx := Claimed(old(surfaces[..])[idx], pid, width, height)];
      RecountProtocolSurfaces();
    }

    /** AckProtocolSurface. */
    method AckSurface(i: nat, flags: nat)
      requires Valid() && i < SLOTS
      modifies this`acks, this`posted, surfaces
      ensures var s := old(surfaces[i]);
              if s.active && s.pid != 0 && s.inFlight
              then && surfaces[..] == old(surfaces[..])[i := Acked(s)] && acks == old(acks) + 1
                   && posted == old(posted) + [Post(s.pid, FrameDone(s.pid, s.submit, flags))]
              else surfaces[..] == old(surfaces[..]) && acks == old(acks) && posted == old(posted)
    {
      var s := surfaces[i];
      if !s.active || s.pid == 0 || !s.inFlight {
        return;
      }
      posted := posted + [Post(s.pid, FrameDone(s.pid, s.submit, flags))];
      surfaces[i] := s.(presented := s.submit, inFlight := false);
      acks := acks + 1;
    }

    /** The body of the loop of ProcessProtocolSyncAfterPresent. */
    method PresentSurface(i: nat, ok: bool, now: nat)
      requires Valid() && i < SLOTS
      modifies this`acks, this`timeouts, this`posted, surfaces
      ensures var s := old(surfaces[i]);
              && surfaces[..] == old(surfaces[..])[i := PresentedOne(s, ok, now)]
              && acks == old(acks) + (if IsAcked(s, ok, now) then 1 else 0)
              && timeouts == old(timeouts) + (if TimesOut(s, ok, now) then 1 else 0)
              && posted == old(posted) + PostOf(s, ok, now)
    {
      var s := surfaces[i];
      if !s.active || !s.inFlight {
        return;
      }
      if ok {
        AckSurface(i, DONE_OK);
        return;
      }
      if s.submitMs != 0 && Elapsed(now, s.submitMs) > TIMEOUT_MS {
        surfaces[i] := s.(timeouts := s.timeouts + 1);
        timeouts := timeouts + 1;
        AckSurface(i, DONE_TIMEOUT_RECOVERY);
      }
    }

    /** ProcessProtocolSyncAfterPresent. */
    method ProcessSync(ok: bool, now: nat)
      requires Valid()
      modifies this`acks, this`timeouts, this`posted, surfaces
      ensures Value() == Presented(old(Value()), ok, now)
      ensures posted == old(posted) + Posts(old(surfaces[..]), ok, now, SLOTS)
    {
      ghost var t := surfaces[..];
      for i := 0 to SLOTS
        invariant surfaces[..] == PresentedTable(t, ok, now, i)
        invariant acks == old(acks) + |posted| - |old(posted)| && timeouts == old(timeouts) + Timeouts(t, ok, now, i)
        invariant posted == old(posted) + Posts(t, ok, now, i)
      {
        ghost var were := posted;
        PresentedNext(t, ok, now, i + 1);
        PostsNext(t, ok, now, i + 1);
        assert surfaces[..][i] == t[i];
        PresentSurface(i, ok, now);
        assert posted == were + PostOf(t[i], ok, now);
      }
    }

    /** CleanupStaleProtocolSurfaces; `windows` holds the ids of the windows that exist. */
    method CleanupStale(windows: set<nat>, now: nat)
      requires Valid()
      modifies this`activeCount, this`discarded, surfaces
      ensures Value() == Cleaned(old(Value()), windows, now)
    {
      var changed := false;
      ghost var t := surfaces[..];
      for i := 0 to SLOTS
        invariant surfaces[..] == CleanedTable(t, windows, now, i) && activeCount == old(activeCount)
        invariant discarded == old(discarded) + Discards(t, windows, now, i)
        invariant changed == exists j :: 0 <= j < i && Stale(t[j], windows, now)
      {
        CleanedNext(t, windows, now, i + 1);
        assert surfaces[..][i] == t[i];
        var s := surfaces[i];
        var hasWindow := s.window != 0 && s.window in windows;
        var staleCommit := s.commitMs != 0 && Elapsed(now, s.commitMs) > STALE_MS;
        if s.active && !hasWindow && staleCommit {
          discarded := discarded + if s.inFlight then 1 else 0;
          surfaces[i] := BLANK;
          changed := true;
        }
      }
      if changed {
        ghost var j :| 0 <= j < SLOTS && Stale(t[j], windows, now);
        assert surfaces[..][j] != t[j];
        RecountProtocolSurfaces();
      } else {
        assert surfaces[..] == t;
      }
    }

    /** HandleProtocolMessage; `now` is what sys_get_time_ms returns in it. */
    method HandleMessage(e: OSEvent, now: nat) returns (handled: bool)
      requires Valid()
      modifies this`activeCount, this`commits, this`overruns, surfaces
      ensures Value() == Handled(old(Value()), e, now)
      ensures handled <==>
              FromEvent(e).Some? && FromEvent(e).value.kind in {1, 2, 3, 4}
    {
      var decoded := FromEvent(e);
      if decoded.None? {
        return false;
      }
      var m := decoded.value;
      if m.kind != HELLO && m.kind != CREATE_SURFACE && m.kind != COMMIT_SURFACE {
        return m.kind == SET_FOCUS;
      }
      var idx := EnsureSurface(Sender(m), m.arg2, m.arg3);
      if idx >= 0 && m.kind == CREATE_SURFACE {
        surfaces[idx] := surfaces[idx].(commitMs := now);
      }
      if idx >= 0 && m.kind == COMMIT_SURFACE {
        CommitAt(idx, m.arg1, now);
      }
      return true;
    }

    /** The drain loop of PollInput over the desktop's event queue, as far as the surface table goes; `clock`
        tells the time at which each event is handled. An event is taken without being handled if and only
        if more than 192 are waiting. */
    method PollInput(inbox: seq<OSEvent>, clock: nat -> nat) returns (rest: seq<OSEvent>, handled: nat)
      requires Valid()
      modifies this`activeCount, this`commits, this`overruns, surfaces
      ensures handled == if |inbox| <= POLL then |inbox| else POLL
      ensures Value() == Run(old(Value()), Arrivals(inbox[..handled], clock))
      ensures handled + |rest| < |inbox| <==> |inbox| > POLL
      ensures if |inbox| > POLL then rest == inbox[handled + 1..] else rest == inbox[handled..]
    {
      rest, handled := inbox, 0;
      assert Arrivals(inbox[..0], clock) == [];
      while rest != []
        invariant handled <= POLL && handled <= |inbox| && rest == inbox[handled..]
        invariant Value() == Run(old(Value()), Arrivals(inbox[..handled], clock))
        decreases |rest|
      {
        var e := rest[0];
        rest := rest[1..];
        if handled >= POLL {
          return;
        }
        RunArrival(old(Value()), inbox, clock, handled);
        var _ := HandleMessage(e, clock(handled));
        handled := handled + 1;
      }
    }

    /** The COMMIT_SURFACE case once the surface is known. */
    method CommitAt(i: nat, arg1: int, now: nat)
      requires Valid() && i < SLOTS
      modifies this`commits, this`overruns, surfaces
      ensures surfaces[..] == old(surfaces[..])[i := Commit(old(surfaces[i]), arg1, now)]
      ensures commits == old(commits) + 1 && overruns == old(overruns) + if old(surfaces[i]).inFlight then 1 else 0
    {
      var s := surfaces[i];
      if s.inFlight {
        s := s.(overruns := s.overruns + 1);
        overruns := overruns + 1;
      }
      var serial := if arg1 > 0 then arg1 else (s.commitCount + 1) % WORD;
      s := s.(submit := serial, inFlight := true, submitMs := now, commitCount := s.commitCount + 1);
      surfaces[i] := s.(commitMs := s.submitMs);
      commits := commits + 1;
    }
  }
}
