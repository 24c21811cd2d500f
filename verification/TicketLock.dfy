/** The ticket lock of kernel/arch/common/spinlock.h as a transition system.

    Every atomic access of LockTicket and UnlockTicket is one step, steps of any number of threads
    interleave freely, and both counters wrap at 32 bits. `drawn`, `entered` and `turn` are
    auxiliary history: they record the run and no step reads them. */
module TicketLock {
  import opened Counting

  const TICKETS: nat := 0x1_0000_0000

  datatype PC =
    | Outside
    | Spinning(ticket: nat, turn: nat)   // LockTicket, waiting for now_serving
    | Holding(ticket: nat, turn: nat)    // inside the critical section

  datatype State = State(
    nextTicket: nat,      // next_ticket
    nowServing: nat,      // now_serving
    pcs: seq<PC>,
    released: nat,        // how many UnlockTicket calls completed
    drawn: seq<nat>,      // thread that drew the k-th ticket
    entered: seq<nat>     // threads in the order they entered
  )

  ghost predicate Init(s: State, n: nat)
  {
    s == State(0, 0, seq(n, _ => Outside), 0, [], [])
  }

  ghost predicate Draw(s: State, s': State, t: nat)
  {
    && t < |s.pcs|
    && s.pcs[t].Outside?
    && s' == s.(nextTicket := (s.nextTicket + 1) % TICKETS,
                pcs := s.pcs[t := Spinning(s.nextTicket, |s.drawn|)],
                drawn := s.drawn + [t])
  }

  ghost predicate Enter(s: State, s': State, t: nat)
  {
    && t < |s.pcs|
    && s.pcs[t].Spinning?
    && s.nowServing == s.pcs[t].ticket
    && s' == s.(pcs := s.pcs[t := Holding(s.pcs[t].ticket, s.pcs[t].turn)],
                entered := s.entered + [t])
  }

  ghost predicate Release(s: State, s': State, t: nat)
  {
    && t < |s.pcs|
    && s.pcs[t].Holding?
    && s' == s.(nowServing := (s.nowServing + 1) % TICKETS,
                pcs := s.pcs[t := Outside],
                released := s.released + 1)
  }

  ghost predicate ThreadStep(s: State, s': State, t: nat)
  {
    Draw(s, s', t) || Enter(s, s', t) || Release(s, s', t)
  }

  ghost predicate Next(s: State, s': State)
  {
    exists t: nat :: ThreadStep(s, s', t)
  }

  ghost predicate IsRun(run: seq<State>, n: nat)
  {
    && |run| > 0
    && Init(run[0], n)
    && forall i :: 0 <= i < |run| - 1 ==> Next(run[i], run[i + 1])
  }

  ghost predicate Exclusive(s: State)
  {
    forall t, u :: 0 <= t < u < |s.pcs| ==> !(s.pcs[t].Holding? && s.pcs[u].Holding?)
  }

  /** The threads have entered in exactly the order in which they drew tickets. */
  ghost predicate InTicketOrder(s: State)
  {
    s.entered <= s.drawn
  }

  // The ticket a thread holds is the 32-bit residue of its position in the draw order, and the
  // positions from `released` to |drawn| are owned by exactly the threads that are not Outside.
  ghost predicate Inv(s: State)
  {
    && s.released <= |s.entered| <= s.released + 1
    && |s.entered| <= |s.drawn|
    && s.entered == s.drawn[..|s.entered|]
    && s.nextTicket == |s.drawn| % TICKETS
    && s.nowServing == s.released % TICKETS
    && (forall j :: s.released <= j < |s.drawn| ==>
          && s.drawn[j] < |s.pcs|
          && !s.pcs[s.drawn[j]].Outside?
          && s.pcs[s.drawn[j]].turn == j)
    && (forall t :: 0 <= t < |s.pcs| && !s.pcs[t].Outside? ==>
          && s.released <= s.pcs[t].turn < |s.drawn|
          && s.drawn[s.pcs[t].turn] == t
          && s.pcs[t].ticket == s.pcs[t].turn % TICKETS
          && (s.pcs[t].Holding? <==> s.pcs[t].turn < |s.entered|))
  }

  lemma OutstandingBound(s: State)
    requires Inv(s)
    ensures |s.drawn| - s.released <= |s.pcs|
  {
    var out := s.drawn[s.released..];
    assert forall i :: 0 <= i < |out| ==> out[i] == s.drawn[s.released + i];
    Pigeonhole(out, |s.pcs|);
  }

  lemma ResidueInjective(a: nat, b: nat)
    requires a <= b < a + TICKETS && a % TICKETS == b % TICKETS
    ensures a == b
  {
  }

  lemma ResidueStep(x: nat)
    ensures (x % TICKETS + 1) % TICKETS == (x + 1) % TICKETS
  {
  }

  lemma DrawKeepsInv(s: State, s': State, t: nat)
    requires Inv(s) && Draw(s, s', t)
    ensures Inv(s')
  {
    ResidueStep(|s.drawn|);
  }

  lemma EnterKeepsInv(s: State, s': State, t: nat)
    requires Inv(s) && |s.pcs| <= TICKETS && Enter(s, s', t)
    ensures Inv(s')
  {
    OutstandingBound(s);
    ResidueInjective(s.released, s.pcs[t].turn);
  }

  lemma ReleaseKeepsInv(s: State, s': State, t: nat)
    requires Inv(s) && Release(s, s', t)
    ensures Inv(s')
  {
    ResidueStep(s.released);
    assert s.pcs[t].turn == s.released;
  }

  lemma StepKeepsInv(s: State, s': State, t: nat)
    requires Inv(s) && |s.pcs| <= TICKETS && ThreadStep(s, s', t)
    ensures Inv(s') && |s'.pcs| == |s.pcs|
  {
    if Draw(s, s', t) {
      DrawKeepsInv(s, s', t);
    } else if Enter(s, s', t) {
      EnterKeepsInv(s, s', t);
    } else {
      ReleaseKeepsInv(s, s', t);
    }
  }

  lemma {:induction false} RunKeepsInv(run: seq<State>, n: nat, i: nat)
    requires IsRun(run, n) && n <= TICKETS && i < |run|
    ensures Inv(run[i]) && |run[i].pcs| == n
  {
    if i > 0 {
      RunKeepsInv(run, n, i - 1);
      assert Next(run[i - 1], run[i - 1 + 1]);
      var t: nat :| ThreadStep(run[i - 1], run[i], t);
      StepKeepsInv(run[i - 1], run[i], t);
    }
  }

  /** Safety for up to 2^32 threads, across wrap-around of both counters. */
  lemma ExclusiveAndOrdered(run: seq<State>, n: nat, i: nat)
    requires IsRun(run, n) && n <= TICKETS && i < |run|
    ensures Exclusive(run[i]) && InTicketOrder(run[i])
  {
    RunKeepsInv(run, n, i);
  }

  /** The lock never gets stuck: when nobody holds it, the waiting thread that drew the earliest ticket, and no
      other, can enter with its next look at now_serving. */
  lemma FirstWaitingEnters(run: seq<State>, n: nat, i: nat, u: nat)
    requires IsRun(run, n) && n <= 0x1_0000_0000 && i < |run| && u < |run[i].pcs|
    requires forall k :: 0 <= k < |run[i].pcs| ==> !run[i].pcs[k].Holding?
    ensures (exists s' :: Enter(run[i], s', u)) <==>
            |run[i].entered| < |run[i].drawn| && run[i].drawn[|run[i].entered|] == u
  {
    RunKeepsInv(run, n, i);
    var s := run[i];
    NobodyIn(s);
    if |s.entered| < |s.drawn| && s.drawn[|s.entered|] == u {
      var s' := s.(pcs := s.pcs[u := Holding(s.pcs[u].ticket, s.pcs[u].turn)], entered := s.entered + [u]);
      assert Enter(s, s', u);
    }
    if s' :| Enter(s, s', u) {
      OutstandingBound(s);
      ResidueInjective(s.released, s.pcs[u].turn);
    }
  }

  /** With nobody inside, everyone who entered has left again. */
  lemma NobodyIn(s: State)
    requires Inv(s) && forall k :: 0 <= k < |s.pcs| ==> !s.pcs[k].Holding?
    ensures s.released == |s.entered|
  {
    assert s.released < |s.drawn| ==> s.pcs[s.drawn[s.released]].turn == s.released;
  }

  // --- the bound is exact: one thread more and two of them get the same residue ---

  function AfterDraws(n: nat, k: nat): State
    requires k <= n
  {
    State(k % TICKETS, 0, seq(n, i requires 0 <= i < n => if i < k then Spinning(i % TICKETS, i) else Outside),
          0, seq(k, i => i), [])
  }

  lemma {:induction false} DrawRun(n: nat, k: nat) returns (run: seq<State>)
    requires k <= n
    ensures IsRun(run, n) && run[|run| - 1] == AfterDraws(n, k)
  {
    if k == 0 {
      run := [AfterDraws(n, 0)];
      assert AfterDraws(n, 0).pcs == seq(n, _ => Outside);
    } else {
      var shorter := DrawRun(n, k - 1);
      var s, s' := AfterDraws(n, k - 1), AfterDraws(n, k);
      assert s'.pcs == s.pcs[k - 1 := Spinning((k - 1) % TICKETS, k - 1)];
      assert s'.drawn == s.drawn + [k - 1];
      assert ThreadStep(s, s', k - 1);
      run := shorter + [s'];
    }
  }

  lemma TooManyThreads(n: nat) returns (run: seq<State>)
    requires n > TICKETS
    ensures IsRun(run, n) && !Exclusive(run[|run| - 1])
  {
    var draws := DrawRun(n, TICKETS + 1);
    var a := AfterDraws(n, TICKETS + 1);
    var b := a.(pcs := a.pcs[0 := Holding(0, 0)], entered := [0]);
    var c := b.(pcs := b.pcs[TICKETS := Holding(0, TICKETS)], entered := [0, TICKETS]);
    assert ThreadStep(a, b, 0);
    assert ThreadStep(b, c, TICKETS);
    run := draws + [b, c];
    assert c.pcs[0].Holding? && c.pcs[TICKETS].Holding?;
  }

  /** Mutual exclusion over all runs holds exactly for at most 2^32 threads. */
  lemma ExclusionIffFewThreads(n: nat)
    ensures (forall run, i :: IsRun(run, n) && 0 <= i < |run| ==> Exclusive(run[i])) <==> n <= 0x1_0000_0000
  {
    if n <= TICKETS {
      forall run, i | IsRun(run, n) && 0 <= i < |run| ensures Exclusive(run[i]) {
        ExclusiveAndOrdered(run, n, i);
      }
    } else {
      var run := TooManyThreads(n);
      assert !Exclusive(run[|run| - 1]);
    }
  }
}
