/** The reader/writer lock of kernel/arch/common/spinlock.h as a transition system.

    One step is one atomic access (or one test of a volatile field) of ReadLock, ReadUnlock,
    WriteLock or WriteUnlock. Steps of all threads interleave freely. `readers` is a wrapping
    32-bit signed counter, as in the source. */
module RWLock {
  import opened Counting
  import opened Modular

  const HALF: nat := 0x8000_0000  // 2^31

  /** The value an int32_t holds after it counted up to c. */
  function Wrap32(c: int): int
  {
    (c + HALF) % (2 * HALF) - HALF
  }

  datatype PC =
    | Outside
    | RWait      // ReadLock: spinning on writer
    | RAdd       // about to increment readers
    | RRecheck   // incremented, about to look at writer again
    | RBackOff   // saw a writer, about to decrement and retry
    | RHold      // has the read lock
    | WSpin      // WriteLock: spinning on write_lock
    | WAdd       // has write_lock, about to increment writer
    | WDrain     // waiting for readers to leave
    | WHold      // has the write lock
    | WClear     // WriteUnlock: decremented writer, about to release write_lock

  predicate Counted(pc: PC) { pc.RRecheck? || pc.RBackOff? || pc.RHold? }
  predicate Announced(pc: PC) { pc.WDrain? || pc.WHold? }
  predicate Serialized(pc: PC) { pc.WAdd? || Announced(pc) || pc.WClear? }

  datatype State = State(readers: int, writer: nat, writeLock: nat, pcs: seq<PC>)

  ghost predicate Init(s: State, n: nat)
  {
    s == State(0, 0, 0, seq(n, _ => Outside))
  }

  ghost predicate Step(s: State, s': State, t: nat)
  {
    && t < |s.pcs|
    && match s.pcs[t]
       case Outside => s' == s.(pcs := s.pcs[t := RWait]) || s' == s.(pcs := s.pcs[t := WSpin])
       case RWait => s' == s.(pcs := s.pcs[t := if s.writer != 0 then RWait else RAdd])
       case RAdd => s' == s.(readers := Wrap32(s.readers + 1), pcs := s.pcs[t := RRecheck])
       case RRecheck => s' == s.(pcs := s.pcs[t := if s.writer != 0 then RBackOff else RHold])
       case RBackOff => s' == s.(readers := Wrap32(s.readers - 1), pcs := s.pcs[t := RWait])
       case RHold => s' == s.(readers := Wrap32(s.readers - 1), pcs := s.pcs[t := Outside])
       case WSpin =>
         // __sync_lock_test_and_set stores 1 whether or not the lock was free
         s' == s.(writeLock := 1, pcs := s.pcs[t := if s.writeLock != 0 then WSpin else WAdd])
       case WAdd => s' == s.(writer := (s.writer + 1) % (2 * HALF), pcs := s.pcs[t := WDrain])
       case WDrain => s' == s.(pcs := s.pcs[t := if s.readers > 0 then WDrain else WHold])
       case WHold => s' == s.(writer := (s.writer - 1) % (2 * HALF), pcs := s.pcs[t := WClear])
       case WClear => s' == s.(writeLock := 0, pcs := s.pcs[t := Outside])
  }

  ghost predicate Next(s: State, s': State)
  {
    exists t: nat :: Step(s, s', t)
  }

  ghost predicate IsRun(run: seq<State>, n: nat)
  {
    && |run| > 0
    && Init(run[0], n)
    && forall i :: 0 <= i < |run| - 1 ==> Next(run[i], run[i + 1])
  }

  lemma Extend(run: seq<State>, n: nat, s: State, t: nat) returns (longer: seq<State>)
    requires IsRun(run, n) && Step(run[|run| - 1], s, t)
    ensures IsRun(longer, n) && longer[|longer| - 1] == s
  {
    longer := run + [s];
  }

  /** A writer shares the lock with nobody. */
  ghost predicate Exclusive(s: State)
  {
    forall t, u :: 0 <= t < |s.pcs| && 0 <= u < |s.pcs| && t != u && s.pcs[t].WHold? ==>
      !s.pcs[u].RHold? && !s.pcs[u].WHold?
  }

  // The three fields count the threads at the matching program points, readers that raced a
  // writer and are backing off included.
  ghost predicate Inv(s: State)
  {
    && s.readers == Wrap32(Count(s.pcs, Counted))
    && s.writer == Count(s.pcs, Announced)
    && s.writeLock == Count(s.pcs, Serialized)
    && s.writeLock <= 1
    && Exclusive(s)
  }

  lemma WrapStep(c: int)
    ensures Wrap32(Wrap32(c) + 1) == Wrap32(c + 1)
    ensures Wrap32(Wrap32(c) - 1) == Wrap32(c - 1)
    ensures 0 <= c < HALF ==> Wrap32(c) == c
  {
    AddResidue(c + HALF, 1, 2 * HALF);
    AddResidue(c + HALF, -1, 2 * HALF);
    if 0 <= c < HALF {
      Small(c + HALF, 2 * HALF);
    }
  }

  /** A thread between taking and releasing write_lock is alone there. */
  lemma OneWriter(s: State, t: nat, u: nat)
    requires Inv(s) && t < |s.pcs| && u < |s.pcs| && Serialized(s.pcs[t]) && Serialized(s.pcs[u])
    ensures t == u
  {
    if t < u {
      CountPair(s.pcs, t, u, Serialized);
    } else if u < t {
      CountPair(s.pcs, u, t, Serialized);
    }
  }

  lemma ReadersFollowStep(s: State, s': State, t: nat)
    requires Inv(s) && Step(s, s', t)
    ensures s'.readers == Wrap32(Count(s'.pcs, Counted))
  {
    CountUpdate(s.pcs, t, s'.pcs[t], Counted);
    WrapStep(Count(s.pcs, Counted));
  }

  lemma WriterFollowsStep(s: State, s': State, t: nat)
    requires Inv(s) && Step(s, s', t)
    ensures s'.writer == Count(s'.pcs, Announced)
  {
    WriterCount(s.pcs, t, s'.pcs[t]);
  }

  lemma WriterCount(pcs: seq<PC>, t: nat, pc: PC)
    requires t < |pcs| && Count(pcs, Serialized) <= 1
    ensures Count(pcs[t := pc], Announced) ==
            Count(pcs, Announced) - (if Announced(pcs[t]) then 1 else 0) + if Announced(pc) then 1 else 0
    ensures Count(pcs, Announced) <= 1 && (Announced(pcs[t]) ==> Count(pcs, Announced) == 1)
  {
    CountUpdate(pcs, t, pc, Announced);
    CountBounds(pcs, Announced);
    AnnouncedAreSerialized(pcs);
  }

  lemma WriteLockFollowsStep(s: State, s': State, t: nat)
    requires Inv(s) && Step(s, s', t)
    ensures s'.writeLock == Count(s'.pcs, Serialized) <= 1
  {
    CountUpdate(s.pcs, t, s'.pcs[t], Serialized);
    CountBounds(s.pcs, Serialized);
  }

  lemma {:induction false} AnnouncedAreSerialized(pcs: seq<PC>)
    ensures Count(pcs, Announced) <= Count(pcs, Serialized)
  {
    if pcs != [] {
      AnnouncedAreSerialized(pcs[..|pcs| - 1]);
    }
  }

  lemma StepKeepsInv(s: State, s': State, t: nat)
    requires Inv(s) && |s.pcs| <= HALF && Step(s, s', t)
    ensures Inv(s') && |s'.pcs| == |s.pcs|
  {
    ReadersFollowStep(s, s', t);
    WriterFollowsStep(s, s', t);
    WriteLockFollowsStep(s, s', t);
    CountBounds(s.pcs, Announced);
    CountBounds(s.pcs, Counted);
    forall a, b | 0 <= a < |s'.pcs| && 0 <= b < |s'.pcs| && a != b && s'.pcs[a].WHold?
      ensures !s'.pcs[b].RHold? && !s'.pcs[b].WHold?
    {
      assert Announced(s'.pcs[a]);
      if a == t {
        assert s.pcs[t].WDrain?;
        CountStrict(s.pcs, t, Counted);
        WrapStep(Count(s.pcs, Counted));
        if s.pcs[b].WHold? {
          OneWriter(s, t, b);
        }
      } else if b == t {
        if s.pcs[t].WDrain? {
          OneWriter(s, a, t);
        }
      }
    }
  }

  lemma {:induction false} RunKeepsInv(run: seq<State>, n: nat, i: nat)
    requires IsRun(run, n) && n <= HALF && i < |run|
    ensures Inv(run[i]) && |run[i].pcs| == n
  {
    if i == 0 {
      CountBounds(run[0].pcs, Counted);
      CountBounds(run[0].pcs, Announced);
      CountBounds(run[0].pcs, Serialized);
    } else {
      RunKeepsInv(run, n, i - 1);
      assert Next(run[i - 1], run[i - 1 + 1]);
      var t: nat :| Step(run[i - 1], run[i], t);
      StepKeepsInv(run[i - 1], run[i], t);
    }
  }

  // --- a writer that has announced itself gets in ---

  /** How many more steps of its own a reader may be counted in `readers` for. */
  function Weight(pc: PC): nat
  {
    match pc
    case RAdd => 3
    case RRecheck => 2
    case RBackOff => 1
    case RHold => 1
    case _ => 0
  }

  function Load(pcs: seq<PC>): nat { if pcs == [] then 0 else Load(pcs[..|pcs| - 1]) + Weight(pcs[|pcs| - 1]) }

  lemma {:induction false} LoadUpdate(pcs: seq<PC>, t: nat, pc: PC)
    requires t < |pcs|
    ensures Load(pcs[t := pc]) - Weight(pc) == Load(pcs) - Weight(pcs[t]) >= 0
  {
    var last := |pcs| - 1;
    if t < last {
      LoadUpdate(pcs[..last], t, pc);
      assert pcs[t := pc][..last] == pcs[..last][t := pc];
    } else {
      assert pcs[t := pc][..last] == pcs[..last];
    }
  }

  lemma {:induction false} NoLoad(pcs: seq<PC>)
    requires Load(pcs) == 0
    ensures Count(pcs, Counted) == 0
  {
    if pcs != [] {
      NoLoad(pcs[..|pcs| - 1]);
    }
  }

  /** While a writer waits for the readers to leave, no step of another thread adds to their load, every step of a
      reader that is past its first look at `writer` takes some off, and once it is gone the writer's next look
      at `readers` lets it in. */
  lemma WriterGetsIn(s: State, s': State, w: nat, t: nat)
    requires Inv(s) && |s.pcs| <= HALF && w < |s.pcs| && s.pcs[w].WDrain? && Step(s, s', t)
    ensures t != w ==> s'.pcs[w].WDrain? && Load(s'.pcs) <= Load(s.pcs)
    ensures s.pcs[t].RAdd? || s.pcs[t].RRecheck? || s.pcs[t].RBackOff? || s.pcs[t].RHold? ==>
            Load(s'.pcs) < Load(s.pcs)
    ensures t == w && Load(s.pcs) == 0 ==> s'.pcs[w].WHold?
  {
    LoadUpdate(s.pcs, t, s'.pcs[t]);
    WaitingWriter(s, w);
  }

  lemma WaitingWriter(s: State, w: nat)
    requires Inv(s) && w < |s.pcs| && s.pcs[w].WDrain?
    ensures s.writer > 0 && (Load(s.pcs) == 0 ==> s.readers == 0)
  {
    assert Announced(s.pcs[w]);
    CountBounds(s.pcs, Announced);
    if Load(s.pcs) == 0 {
      NoLoad(s.pcs);
    }
  }

  /** A lock that nobody is using is as good as new. */
  lemma IdleIsFresh(run: seq<State>, n: nat, i: nat)
    requires IsRun(run, n) && n <= HALF && i < |run| && forall t :: 0 <= t < |run[i].pcs| ==> run[i].pcs[t] == Outside
    ensures Init(run[i], n)
  {
    RunKeepsInv(run, n, i);
    NobodyCounted(run[i].pcs);
  }

  lemma NobodyCounted(pcs: seq<PC>)
    requires forall t :: 0 <= t < |pcs| ==> pcs[t] == Outside
    ensures Count(pcs, Counted) == 0 && Count(pcs, Announced) == 0 && Count(pcs, Serialized) == 0
  {
    CountBounds(pcs, Counted);
    CountBounds(pcs, Announced);
    CountBounds(pcs, Serialized);
  }

  // --- 2^31 is exact: that many readers make the signed counter negative ---

  function AfterReaders(n: nat, k: nat): State
    requires k <= n
  {
    State(Wrap32(k), 0, 0, seq(n, i requires 0 <= i < n => if i < k then RHold else Outside))
  }

  lemma {:induction false} ReaderRun(n: nat, k: nat) returns (run: seq<State>)
    requires k <= n
    ensures IsRun(run, n) && run[|run| - 1] == AfterReaders(n, k)
  {
    if k == 0 {
      run := [AfterReaders(n, 0)];
      assert AfterReaders(n, 0).pcs == seq(n, _ => Outside);
    } else {
      run := ReaderRun(n, k - 1);
      var t := k - 1;
      var a := AfterReaders(n, t);
      run := Extend(run, n, a.(pcs := a.pcs[t := RWait]), t);
      run := Extend(run, n, a.(pcs := a.pcs[t := RAdd]), t);
      WrapStep(t);
      run := Extend(run, n, a.(readers := Wrap32(k), pcs := a.pcs[t := RRecheck]), t);
      assert AfterReaders(n, k).pcs == a.pcs[t := RHold];
      run := Extend(run, n, AfterReaders(n, k), t);
    }
  }

  lemma TooManyReaders(n: nat) returns (run: seq<State>)
    requires n > HALF
    ensures IsRun(run, n) && !Exclusive(run[|run| - 1])
  {
    run := ReaderRun(n, HALF);
    var w := HALF;
    var a := AfterReaders(n, HALF);
    run := Extend(run, n, a.(pcs := a.pcs[w := WSpin]), w);
    run := Extend(run, n, a.(writeLock := 1, pcs := a.pcs[w := WAdd]), w);
    run := Extend(run, n, a.(writeLock := 1, writer := 1, pcs := a.pcs[w := WDrain]), w);
    var e := a.(writeLock := 1, writer := 1, pcs := a.pcs[w := WHold]);
    run := Extend(run, n, e, w);
    assert e.pcs[w].WHold? && e.pcs[0].RHold?;
  }

  /** In every run of n threads no writer ever holds the lock together with a reader or another
      writer, exactly when n <= 2^31. */
  lemma ExclusionIffFewThreads(n: nat)
    ensures (forall run, i :: IsRun(run, n) && 0 <= i < |run| ==> Exclusive(run[i])) <==> n <= 0x8000_0000
  {
    if n <= HALF {
      forall run, i | IsRun(run, n) && 0 <= i < |run| ensures Exclusive(run[i]) {
        RunKeepsInv(run, n, i);
      }
    } else {
      var run := TooManyReaders(n);
      assert !Exclusive(run[|run| - 1]);
    }
  }
}
