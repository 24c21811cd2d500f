/** What holds over whole sessions of the system in CompositorSystem: safety in every state, the bound on
    unacknowledged frames with its one exception, and the release of a throttled client. */
module CompositorSession {
  import opened EventQueue
  import opened CompositorProtocol
  import opened CompositorSystem
  import C = CompositorClient
  import S = CompositorServer

  /** The states a session goes through and the steps between them. */
  datatype History = History(worlds: seq<World>, steps: seq<Step>)

  /** Step i leads from state i to state i + 1. */
  ghost predicate Follows(h: History, i: int)
  {
    && 0 <= i < |h.steps| && |h.worlds| == |h.steps| + 1
    && Allowed(h.worlds[i], h.steps[i]) && h.worlds[i + 1] == Apply(h.worlds[i], h.steps[i])
  }

  ghost predicate IsSession(h: History)
  {
    && |h.worlds| == |h.steps| + 1 && Starts(h.worlds[0])
    && forall i :: 0 <= i < |h.steps| ==> Follows(h, i)
  }

  lemma {:induction false} SessionKeepsInv(h: History, i: nat)
    requires IsSession(h) && i <= |h.steps|
    ensures Inv(h.worlds[i]) && h.worlds[i].boot == h.worlds[0].boot
  {
    if i == 0 {
      StartInv(h.worlds[0]);
    } else {
      SessionKeepsInv(h, i - 1);
      assert Follows(h, i - 1);
      StepKeeps(h.worlds[i - 1], h.steps[i - 1]);
    }
  }

  lemma StepKeeps(w: World, step: Step)
    requires Inv(w) && Allowed(w, step)
    ensures Inv(Apply(w, step)) && Apply(w, step).boot == w.boot
  {
    StepKeepsInv(w, step);
  }

  /** In every state of every session: the client never counts a frame as acknowledged that it did not
      submit, the server has taken no serial that the client did not submit and a frame of the client is
      in flight exactly when it is not presented, and at most two frames plus the slow ones are unacknowledged. */
  lemma SessionSafe(h: History, i: nat)
    requires IsSession(h) && i <= |h.steps|
    ensures var u := h.worlds[i];
            var f := S.FlightOf(u.desktop, u.own);
            && u.client.ack <= u.client.submit
            && f.submit <= u.client.submit && (f.inFlight <==> f.presented < f.submit)
            && u.client.submit - u.client.ack <= 2 + SlowCount(u.slow, u.client.ack, u.client.submit)
  {
    SessionKeepsInv(h, i);
  }

  /** A commit leaves more than two frames unacknowledged if and only if two were and the commit before was
      over 1500 ms old at the throttle check but not yet when this turn registered: the deadline fell between
      the two readings of the clock. (A clock that was still zero at an earlier commit counts as overdue.) */
  lemma CommitBound(h: History, i: nat)
    requires IsSession(h) && i < |h.steps| && h.steps[i].Client? && h.worlds[i].pc.Committing?
    ensures var u, v := h.worlds[i], h.worlds[i + 1];
            v.client.submit - v.client.ack > 2 <==>
              && u.client.submit - u.client.ack >= 2
              && (|| (u.client.commitMs == 0 && h.worlds[0].boot == 0)
                  || u.syncMs <= u.client.commitMs + TIMEOUT_MS < u.pc.at)
  {
    SessionKeepsInv(h, i);
    assert Follows(h, i);
    CommitPostIs(h.worlds[i]);
  }

  // --- a throttled client is released ---

  /** An acknowledgement of all but the last frame, or 1500 ms since the last commit. */
  predicate Free(w: World)
  {
    w.client.submit <= w.client.ack + 1 || w.client.commitMs == 0 || w.now > w.client.commitMs + TIMEOUT_MS
  }

  /** The throttle holds a client back exactly as long as neither has happened. */
  lemma ThrottleExact(w: World)
    requires Inv(w)
    ensures C.ShouldThrottle(w.client, w.now) <==> !Free(w)
  {
  }

  /** A successful present answers the client's frame in flight, if its queue has room. */
  lemma FrameAnswered(w: World)
    requires Inv(w) && S.FlightOf(w.desktop, w.own).inFlight && |w.toClient| < SIZE - 1
    ensures var u, f := Apply(w, Present(true)), S.FlightOf(w.desktop, w.own);
            && u.toClient == w.toClient + [FrameDone(w.own, f.submit, DONE_OK)]
            && S.FlightOf(u.desktop, u.own) == S.Flight(f.submit, f.submit, false)
  {
    var i := S.Find(w.desktop.surfaces, w.own);
    S.PostsExact(w.desktop.surfaces, true, w.now, S.SLOTS, w.own);
    S.PresentedFlight(w.desktop, true, w.now, w.own);
    PostOne(w.toClient, S.Ack(w.desktop.surfaces[i], true));
    S.PresentedInv(w.desktop, true, w.now);
    S.FindOwned(S.Presented(w.desktop, true, w.now).surfaces, w.own, i);
  }

  /** Taking the answer to any frame but an older one than the last two frees the client. */
  lemma AckReleases(w: World)
    requires Inv(w) && w.pc.Draining? && w.pc.left > 0 && w.toClient != [] && OwnAck(w, w.toClient[0])
    requires Unsigned(w.toClient[0].dy) + 1 >= w.client.submit
    ensures Free(DoDrain(w, w.pc.left))
  {
  }

  /** How many client steps remain, at most, until a commit. */
  function Remaining(pc: Pc): nat
  {
    match pc
    case Committing(_) => 1
    case Checking => 2
    case Draining(left) => 3 + left
    case Register => 4 + C.BURST
    case Stopped => 0
  }

  predicate Wants(w: World) { Free(w) && w.redraw && !w.pc.Stopped? }

  /** Whatever the others do, a free client that wants to draw stays so and gets nearer to its commit. */
  lemma Progress(w: World, step: Step)
    requires Inv(w) && Allowed(w, step) && Wants(w) && !(step.Client? && w.pc.Committing?)
    ensures Wants(Apply(w, step)) && Apply(w, step).client.submit == w.client.submit
    ensures if step.Client? then Remaining(Apply(w, step).pc) < Remaining(w.pc) else Apply(w, step).pc == w.pc
  {
    ThrottleExact(w);
    match step
    case Client(update) => ProgressClient(w, update);
    case _ =>
  }

  lemma ProgressClient(w: World, update: bool)
    requires Inv(w) && Wants(w) && !w.pc.Committing? && !C.ShouldThrottle(w.client, w.now)
    ensures Wants(ClientTurn(w, update)) && ClientTurn(w, update).client.submit == w.client.submit
    ensures Remaining(ClientTurn(w, update).pc) < Remaining(w.pc)
  {
    if w.pc.Register? {
      SyncedIs(w);
    }
  }

  /** How many client steps a session has from step i on. */
  function ClientSteps(steps: seq<Step>, i: nat): nat
    decreases |steps| - i
  {
    if i >= |steps| then 0 else (if steps[i].Client? then 1 else 0) + ClientSteps(steps, i + 1)
  }

  /** Step i of a session is the client's next commit after state `since`. */
  ghost predicate CommitsNext(h: History, since: nat, i: nat)
    requires IsSession(h) && since <= i < |h.steps|
  {
    && h.steps[i].Client? && h.worlds[i].pc.Committing?
    && h.worlds[i].client.submit == h.worlds[since].client.submit
    && h.worlds[i + 1].client.submit == h.worlds[since].client.submit + 1
  }

  /** Once free, the client commits its next frame within 24 of its own steps, whatever else happens. */
  lemma {:induction false} Released(h: History, i: nat) returns (k: nat)
    requires IsSession(h) && i <= |h.steps| && Wants(h.worlds[i])
    requires ClientSteps(h.steps, i) >= Remaining(h.worlds[i].pc)
    ensures i <= k < |h.steps| && CommitsNext(h, i, k)
    decreases |h.steps| - i
  {
    var w, step := h.worlds[i], h.steps[i];
    SessionKeepsInv(h, i);
    assert Follows(h, i);
    if step.Client? && w.pc.Committing? {
      CommitPostIs(w);
      k := i;
    } else {
      Progress(w, step);
      k := Released(h, i + 1);
    }
  }

  /** Whatever happens, a client that wants to draw goes on wanting to, and its deadline stays, until it
      commits or its window is closed. */
  lemma Waits(w: World, step: Step)
    requires Inv(w) && Allowed(w, step) && w.redraw && !w.pc.Stopped?
    ensures var u := Apply(w, step);
            if step.Client? && w.pc.Committing? then u.client.submit == w.client.submit + 1
            else
              && u.client.submit == w.client.submit && u.client.commitMs == w.client.commitMs && u.redraw
              && (u.pc.Stopped? ==> !w.running)
  {
    match step
    case Client(update) =>
      if w.pc.Register? {
        SyncedIs(w);
      } else if w.pc.Committing? {
        CommitPostIs(w);
      }
    case _ =>
  }

  /** Step i ends the main loop of a client whose window was closed. */
  ghost predicate Closes(h: History, i: nat)
    requires IsSession(h) && i < |h.steps|
  {
    !h.worlds[i].pc.Stopped? && !h.worlds[i].running && h.worlds[i + 1].pc.Stopped?
  }

  /** A client that wants to draw in state i either commits or is closed at a step k before j, or still wants
      to draw the same frame in state j, with the same deadline. */
  lemma {:induction false} WaitsUntil(h: History, i: nat, j: nat) returns (k: nat)
    requires IsSession(h) && i <= j <= |h.steps| && h.worlds[i].redraw && !h.worlds[i].pc.Stopped?
    ensures i <= k <= j && (k < j ==> CommitsNext(h, i, k) || Closes(h, k))
    ensures var w, u := h.worlds[i], h.worlds[j];
            k == j ==>
              && u.redraw && !u.pc.Stopped?
              && u.client.submit == w.client.submit && u.client.commitMs == w.client.commitMs
    decreases j - i
  {
    k := j;
    if i < j {
      SessionKeepsInv(h, i);
      assert Follows(h, i);
      Waits(h.worlds[i], h.steps[i]);
      if (h.steps[i].Client? && h.worlds[i].pc.Committing?) || h.worlds[i + 1].pc.Stopped? {
        k := i;
      } else {
        k := WaitsUntil(h, i + 1, j);
      }
    }
  }

  // --- a closed window ends the main loop ---

  /** A close request within the burst's budget, or the Escape key, ends the loop after this turn. */
  lemma CloseTaken(w: World)
    requires w.pc.Draining? && w.pc.left > 0 && w.toClient != []
    requires w.toClient[0].kind == 6 || (w.toClient[0].kind == 3 && w.toClient[0].ascii == 27)
    ensures !ClientTurn(w, false).running && !ClientTurn(w, false).pc.Stopped?
  {
  }

  lemma StopsStep(w: World, step: Step)
    requires Inv(w) && !w.running && !w.pc.Stopped?
    ensures var u := Apply(w, step);
            && !u.running
            && if step.Client? then u.pc.Stopped? || Remaining(u.pc) < Remaining(w.pc) else u.pc == w.pc
  {
  }

  /** Then the client stops within 24 of its own steps. */
  lemma {:induction false} StopsSoon(h: History, i: nat) returns (k: nat)
    requires IsSession(h) && i <= |h.steps| && !h.worlds[i].running
    requires ClientSteps(h.steps, i) >= Remaining(h.worlds[i].pc)
    ensures i <= k <= |h.steps| && h.worlds[k].pc.Stopped?
    decreases |h.steps| - i
  {
    if h.worlds[i].pc.Stopped? {
      return i;
    }
    SessionKeepsInv(h, i);
    assert Follows(h, i);
    StopsStep(h.worlds[i], h.steps[i]);
    k := StopsSoon(h, i + 1);
  }

  // --- a throttled client goes on wanting to draw, and draws ---

  /** A client that wants to draw, throttled or not, commits its next frame once its last commit is over
      1500 ms old and it gets 24 steps more, unless its window is closed. No acknowledgement is needed. */
  lemma ReleasedByTimeout(h: History, i: nat, j: nat) returns (k: nat)
    requires IsSession(h) && i <= j <= |h.steps| && h.worlds[i].redraw && !h.worlds[i].pc.Stopped?
    requires h.worlds[j].now > h.worlds[i].client.commitMs + 1500
    requires ClientSteps(h.steps, j) >= 24
    ensures i <= k < |h.steps| && (CommitsNext(h, i, k) || Closes(h, k))
  {
    k := WaitsUntil(h, i, j);
    if k == j {
      SessionKeepsInv(h, j);
      k := Released(h, j);
    }
  }

  /** So does one that takes, at step j, the acknowledgement of its last frame or of the one before. */
  lemma ReleasedByAck(h: History, i: nat, j: nat) returns (k: nat)
    requires IsSession(h) && i <= j < |h.steps| && h.worlds[i].redraw && !h.worlds[i].pc.Stopped?
    requires var u := h.worlds[j];
             && h.steps[j].Client? && u.pc.Draining? && u.pc.left > 0 && u.toClient != []
             && OwnAck(u, u.toClient[0]) && Unsigned(u.toClient[0].dy) + 1 >= h.worlds[i].client.submit
    requires ClientSteps(h.steps, j + 1) >= 24
    ensures i <= k < |h.steps| && (CommitsNext(h, i, k) || Closes(h, k))
  {
    k := WaitsUntil(h, i, j);
    if k == j {
      SessionKeepsInv(h, j);
      assert Follows(h, j);
      AckReleases(h.worlds[j]);
      Waits(h.worlds[j], h.steps[j]);
      SessionKeepsInv(h, j + 1);
      k := Released(h, j + 1);
    }
  }

  // --- the exception is real ---

  ghost function Last(h: History): World
    requires IsSession(h)
  {
    h.worlds[|h.steps|]
  }

  lemma Extend(h: History, step: Step) returns (g: History)
    requires IsSession(h) && Allowed(Last(h), step)
    ensures IsSession(g) && Last(g) == Apply(Last(h), step) && Inv(Last(g)) && g.worlds[0] == h.worlds[0]
  {
    g := History(h.worlds + [Apply(Last(h), step)], h.steps + [step]);
    forall i | 0 <= i < |g.steps|
      ensures Follows(g, i)
    {
      assert i < |h.steps| ==> Follows(h, i);
    }
    SessionKeepsInv(g, |g.steps|);
  }

  /** Registration and an empty queue lead to the throttle check. */
  lemma FrontHalf(h: History) returns (g: History)
    requires IsSession(h) && Last(h).pc == Register && Last(h).toClient == []
    requires Inv(Last(h)) && !C.Overdue(Last(h).client, Last(h).now)
    ensures IsSession(g) && g.worlds[0] == h.worlds[0] && Inv(Last(g))
    ensures var w, u := Last(h), Last(g);
            && u.pc == Checking && u.toClient == [] && u.now == w.now && u.running == w.running
            && u.client.submit == w.client.submit && u.client.ack == w.client.ack
            && u.client.commitMs == w.client.commitMs
  {
    SyncedIs(Last(h));
    g := Extend(h, Client(true));
    g := Extend(g, Client(true));
  }

  /** A free client then commits. */
  lemma BackHalf(h: History) returns (g: History)
    requires IsSession(h) && Inv(Last(h)) && Last(h).pc == Checking && Last(h).running && Free(Last(h))
    requires Last(h).client.submit + 1 < HALF
    ensures IsSession(g) && g.worlds[0] == h.worlds[0] && Inv(Last(g))
    ensures var w, u := Last(h), Last(g);
            && u.pc == Register && u.toClient == w.toClient && u.now == w.now && u.running
            && u.client.submit == w.client.submit + 1 && u.client.ack == w.client.ack && u.client.commitMs == w.now
  {
    ThrottleExact(Last(h));
    g := Extend(h, Client(true));
    CommitPostIs(Last(g));
    g := Extend(g, Client(true));
  }

  /** Two frames at clock 1, registration at 1501, the throttle check at 1502: the deadline of the second
      commit lies in between, and the session has three unacknowledged frames. */
  lemma ThreeOutstanding() returns (h: History)
    ensures IsSession(h) && h.worlds[0].boot > 0 && Last(h).client.submit == Last(h).client.ack + 3
  {
    var c := C.Synced(FreshClient(5, 640, 480), 5, 1, 1, true);
    var w := World(5, 1, 1, 1, c, Register, true, true, 1, {}, [], [], S.Fresh());
    S.FreshInv();
    StartInv(w);
    h := History([w], []);
    h := FrontHalf(h);
    h := BackHalf(h);
    h := FrontHalf(h);
    h := BackHalf(h);
    h := Extend(h, Tick(TIMEOUT_MS));
    h := FrontHalf(h);
    h := Extend(h, Tick(1));
    h := BackHalf(h);
  }
}
