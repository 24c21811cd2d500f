/** One client and the desktop, talking through their task event queues, for one compositor session. Each
    queue holds at most 127 events and drops what does not fit. Queued events may also get lost: both polling
    loops take one event more than they process. Other programs may put anything into either queue except
    commits in the client's name and acknowledgements to it. */
module CompositorSystem {
  import opened EventQueue
  import opened CompositorProtocol
  import C = CompositorClient
  import S = CompositorServer

  const CLOCK: nat := 0x1_0000_0000_0000_0000

  /** Where the client is in its main loop; Committing remembers the clock of the throttle check. */
  datatype Pc = Register | Draining(left: nat) | Checking | Committing(at: nat) | Stopped

  datatype World = World(
    own: nat,
    server: nat,
    boot: nat,
    now: nat,
    client: C.Client,
    pc: Pc,
    running: bool,
    redraw: bool,
    /** The clock that the last SyncCompositorRegistration read. */
    syncMs: nat,
    /** The serials of commits whose throttle check found the commit before overdue. */
    slow: set<nat>,
    toServer: seq<OSEvent>,
    toClient: seq<OSEvent>,
    desktop: S.Server
  )

  function Post(q: seq<OSEvent>, e: OSEvent): seq<OSEvent> { if |q| < SIZE - 1 then q + [e] else q }

  function PostAll(q: seq<OSEvent>, events: seq<OSEvent>): seq<OSEvent>
    decreases |events|
  {
    if events == [] then q else PostAll(Post(q, events[0]), events[1..])
  }

  // --- the client's main loop ---

  function NextTurn(w: World): Pc { if w.running then Register else Stopped }

  function DoRegister(w: World): World
  {
    var posts := C.SyncPosts(w.client, w.own, w.server, w.now, false);
    w.(client := C.Synced(w.client, w.own, w.server, w.now, false), toServer := PostAll(w.toServer, posts),
       syncMs := w.now, pc := Draining(C.BURST))
  }

  function DoDrain(w: World, left: nat): World
  {
    if w.toClient == [] then w.(pc := Checking)
    else
      var e := w.toClient[0];
      var u := w.(toClient := w.toClient[1..]);
      if left == 0 then u.(pc := Checking)
      else if C.IsFrameDone(w.client, e) then u.(client := C.Received(w.client, e), pc := Draining(left - 1))
      else if C.IsClose(e) then u.(redraw := true, running := false, pc := Checking)
      else
        u.(redraw := true, running := w.running && !(e.kind == KEY_PRESS && e.ascii == ESCAPE),
           pc := Draining(left - 1))
  }

  /** OnUpdate may ask for a redraw. */
  function DoCheck(w: World, update: bool): World
  {
    var u := w.(redraw := w.redraw || update);
    if !u.redraw then u.(pc := NextTurn(u))
    else if C.ShouldThrottle(w.client, w.now)
    then u.(client := w.client.(throttles := w.client.throttles + 1), pc := NextTurn(u))
    else u.(pc := Committing(w.now))
  }

  /** The previous commit was overdue when the throttle was checked. */
  predicate Loose(c: C.Client, at: nat)
  {
    if c.commitMs == 0 then c.submit > 0 else Elapsed(at, c.commitMs) > TIMEOUT_MS
  }

  function DoCommit(w: World, at: nat): World
  {
    w.(client := C.Committed(w.client, w.now), toServer := PostAll(w.toServer, C.CommitPosts(w.client, w.now)),
       slow := if Loose(w.client, at) then w.slow + {w.client.submit + 1} else w.slow,
       redraw := false, pc := NextTurn(w))
  }

  function ClientTurn(w: World, update: bool): World
  {
    match w.pc
    case Register => DoRegister(w)
    case Draining(left) => DoDrain(w, left)
    case Checking => DoCheck(w, update)
    case Committing(at) => DoCommit(w, at)
    case Stopped => w
  }

  // --- the whole system ---

  datatype Step =
    | Tick(ms: nat)
    | Client(update: bool)
    | Receive
    | Present(ok: bool)
    | Cleanup(windows: set<nat>)
    | Bind(slot: nat, window: nat, width: nat, height: nat)
    | ToServer(event: OSEvent)
    | ToClient(event: OSEvent)
    | Lose(ofClient: bool, place: nat)

  function Apply(w: World, step: Step): World
  {
    match step
    case Tick(ms) => w.(now := w.now + ms)
    case Client(update) => ClientTurn(w, update)
    case Receive => DoReceive(w)
    case Present(ok) => DoPresent(w, ok)
    case Cleanup(windows) => w.(desktop := S.Cleaned(w.desktop, windows, w.now))
    case Bind(slot, window, width, height) => w.(desktop := S.Apply(w.desktop, S.Bind(slot, window, width, height)))
    case ToServer(event) => w.(toServer := Post(w.toServer, event))
    case ToClient(event) => w.(toClient := Post(w.toClient, event))
    case Lose(ofClient, place) => DoLose(w, ofClient, place)
  }

  /** The desktop takes one event from its queue and handles it. */
  function DoReceive(w: World): World
  {
    if w.toServer == [] then w
    else w.(toServer := w.toServer[1..], desktop := S.Handled(w.desktop, w.toServer[0], w.now))
  }

  /** The desktop presents and posts its acknowledgements. */
  function DoPresent(w: World, ok: bool): World
  {
    var posts := S.Posts(w.desktop.surfaces, ok, w.now, |w.desktop.surfaces|);
    w.(desktop := S.Presented(w.desktop, ok, w.now), toClient := PostAll(w.toClient, S.PostsTo(posts, w.own)))
  }

  /** One queued event, of the client or of the server, gets lost. */
  function DoLose(w: World, ofClient: bool, place: nat): World
  {
    if ofClient then w.(toClient := Dropped(w.toClient, place)) else w.(toServer := Dropped(w.toServer, place))
  }

  /** A queue from which one event was taken without being handled. */
  function Dropped(q: seq<OSEvent>, i: nat): seq<OSEvent>
  {
    if i < |q| then q[..i] + q[i + 1..] else q
  }

  predicate OwnCommit(w: World, e: OSEvent) { S.IsCommitOf(e, w.own) }

  predicate OwnAck(w: World, e: OSEvent)
  {
    FromEvent(e).Some? && FromEvent(e).value.kind == FRAME_DONE && Unsigned(FromEvent(e).value.arg0) == w.own
  }

  /** A session: clocks fit 64 bits, serials stay below 2^31, and nobody speaks for the other. */
  predicate Allowed(w: World, step: Step)
  {
    match step
    case Tick(ms) => w.now + ms < CLOCK
    case Client(_) => w.pc.Committing? ==> w.client.submit + 1 < HALF
    case ToServer(event) => !OwnCommit(w, event)
    case ToClient(event) => !OwnAck(w, event)
    case _ => true
  }

  // --- what the client's messages do at the desktop ---

  /** Both announcements give the client a surface of its size, if the desktop has a slot for it. */
  lemma AnnouncementArrives(v: S.Server, c: C.Client, own: nat, server: nat, now: nat, force: bool, t1: nat, t2: nat)
    requires S.Inv(v) && 0 < own < HALF && c.appPid == own && c.width > 0 && c.height > 0 && C.Coherent(c)
    requires |C.SyncPosts(c, own, server, now, force)| == 2 && S.Slot(v.surfaces, own) < |v.surfaces|
    ensures var posts := C.SyncPosts(c, own, server, now, force);
            var s := S.SurfaceOf(S.Handled(S.Handled(v, posts[0], t1), posts[1], t2), own);
            && s.active && s.pid == own && s.width == c.width && s.height == c.height && s.commitMs == t2
            && S.FlightIn(s) == S.FlightOf(v, own)
  {
    var posts := C.SyncPosts(c, own, server, now, force);
    C.AnnouncesExactly(c, own, server, now, force);
    assert posts == [OSEvent(64, own, 1, 1, c.width, c.height), OSEvent(64, own, 0, 2, c.width, c.height)];
    S.HandledSurface(v, posts[0], t1, own);
    S.HandledInv(v, posts[0], t1);
    S.HandledSurface(S.Handled(v, posts[0], t1), posts[1], t2, own);
  }

  /** A commit puts its serial in flight there, since the time at which it is handled. */
  lemma CommitArrives(v: S.Server, c: C.Client, own: nat, now: nat, at: nat)
    requires S.Inv(v) && 0 < own < HALF && c.appPid == own && c.width > 0 && c.height > 0 && c.submit + 1 < HALF
    requires c.mode && c.compositorPid != 0 && S.Slot(v.surfaces, own) < |v.surfaces|
    ensures var posts := C.CommitPosts(c, now);
            && |posts| == 1
            && var s := S.SurfaceOf(S.Handled(v, posts[0], at), own);
               && s.active && s.inFlight && s.submit == c.submit + 1 && s.submitMs == at
               && s.width == c.width && s.height == c.height
  {
    var e := OSEvent(64, own, c.submit + 1, 3, c.width, c.height);
    C.CommitsExactly(c, now);
    assert C.CommitPosts(c, now) == [e];
    S.HandledSurface(v, e, at, own);
  }

  // --- what holds in every state ---

  ghost predicate ClientOk(w: World)
  {
    && 0 < w.own < HALF && w.server != 0 && w.server != w.own
    && w.client.appPid == w.own && w.client.mode && w.client.compositorPid == w.server
    && w.client.ack <= w.client.submit < HALF
    && w.boot <= w.now < CLOCK && w.client.commitMs <= w.now && w.syncMs <= w.now
    && (w.client.commitMs == 0 && w.client.submit > 0 ==> w.boot == 0)
  }

  /** How many serials above ack, up to submit, belong to slow commits. */
  function SlowCount(slow: set<nat>, ack: nat, submit: nat): nat
    decreases submit
  {
    if submit <= ack then 0 else SlowCount(slow, ack, submit - 1) + if submit in slow then 1 else 0
  }

  /** How far the client can be ahead, and what its place in the loop tells. */
  ghost predicate LoopOk(w: World)
  {
    && w.client.submit <= w.client.ack + 2 + SlowCount(w.slow, w.client.ack, w.client.submit)
    && (w.pc.Committing? ==> w.client.commitMs <= w.pc.at <= w.now && !C.ShouldThrottle(w.client, w.pc.at))
    && (w.pc.Draining? || w.pc.Checking? || w.pc.Committing? ==> Settled(w))
    && (w.pc.Draining? ==> w.pc.left <= C.BURST)
  }

  /** If this turn's registration saw the last commit overdue, nothing is outstanding. */
  predicate Settled(w: World)
  {
    w.client.commitMs != 0 && w.syncMs > w.client.commitMs + TIMEOUT_MS ==> w.client.ack == w.client.submit
  }

  /** Commits on their way carry increasing serials, above all that the server has seen. */
  ghost predicate CommitsOk(w: World)
  {
    && |w.toServer| <= SIZE - 1
    && (forall i :: 0 <= i < |w.toServer| && OwnCommit(w, w.toServer[i]) ==>
          S.FlightOf(w.desktop, w.own).submit < w.toServer[i].dy <= w.client.submit)
    && (forall i, j :: 0 <= i < j < |w.toServer| && OwnCommit(w, w.toServer[i]) && OwnCommit(w, w.toServer[j]) ==>
          w.toServer[i].dy < w.toServer[j].dy)
  }

  /** The server's view lags behind the client, and a frame is in flight exactly when it is not presented. */
  ghost predicate DesktopOk(w: World)
  {
    var f := S.FlightOf(w.desktop, w.own);
    && S.Inv(w.desktop)
    && f.submit <= w.client.submit
    && f.presented <= f.submit && (f.inFlight <==> f.presented < f.submit)
  }

  ghost predicate AcksOk(w: World)
  {
    && |w.toClient| <= SIZE - 1
    && forall i :: 0 <= i < |w.toClient| && OwnAck(w, w.toClient[i]) ==> Unsigned(w.toClient[i].dy) <= w.client.submit
  }

  ghost predicate Inv(w: World) { ClientOk(w) && LoopOk(w) && CommitsOk(w) && DesktopOk(w) && AcksOk(w) }

  function FreshClient(pid: nat, width: nat, height: nat): C.Client
  {
    C.Client(pid, 0, 0, false, false, 0, 0, 0, 0, 0, width, height)
  }

  /** The client has just finished Init; the desktop may already serve others. */
  ghost predicate Starts(w: World)
  {
    && 0 < w.own < HALF && w.server != 0 && w.server != w.own
    && w.client == C.Synced(FreshClient(w.own, w.client.width, w.client.height), w.own, w.server, w.now, true)
    && w.boot <= w.now < CLOCK && w.syncMs == w.now && w.slow == {} && w.pc == Register && w.running && w.redraw
    && S.Inv(w.desktop) && S.Find(w.desktop.surfaces, w.own) == |w.desktop.surfaces|
    && |w.toServer| <= SIZE - 1 && (forall i :: 0 <= i < |w.toServer| ==> !OwnCommit(w, w.toServer[i]))
    && |w.toClient| <= SIZE - 1 && (forall i :: 0 <= i < |w.toClient| ==> !OwnAck(w, w.toClient[i]))
  }

  lemma StartInv(w: World)
    requires Starts(w)
    ensures Inv(w)
  {
  }

  // --- posting ---

  lemma PostOne(q: seq<OSEvent>, e: OSEvent)
    ensures PostAll(q, [e]) == Post(q, e)
  {
    assert [e][1..] == [];
  }

  lemma {:induction false} PostAllHolds(q: seq<OSEvent>, events: seq<OSEvent>)
    requires |q| <= SIZE - 1
    ensures |PostAll(q, events)| <= SIZE - 1 && q <= PostAll(q, events)
    ensures forall i :: |q| <= i < |PostAll(q, events)| ==> PostAll(q, events)[i] in events
    decreases |events|
  {
    if events != [] {
      var p := Post(q, events[0]);
      PostAllHolds(p, events[1..]);
      assert forall e :: e in events[1..] ==> e in events;
      assert events[0] in events;
    }
  }

  // --- the client's steps ---

  lemma {:induction false} SlowAcked(slow: set<nat>, ack: nat, more: nat, submit: nat)
    requires ack <= more <= submit
    ensures SlowCount(slow, ack, submit) <= SlowCount(slow, more, submit) + more - ack
    decreases submit
  {
    if more < submit {
      SlowAcked(slow, ack, more, submit - 1);
    } else {
      SlowBound(slow, ack, submit);
    }
  }

  lemma {:induction false} SlowBound(slow: set<nat>, ack: nat, submit: nat)
    requires ack <= submit
    ensures SlowCount(slow, ack, submit) <= submit - ack
    decreases submit
  {
    if ack < submit {
      SlowBound(slow, ack, submit - 1);
    }
  }

  lemma {:induction false} SlowBelow(slow: set<nat>, serial: nat, ack: nat, submit: nat)
    requires submit < serial
    ensures SlowCount(slow + {serial}, ack, submit) == SlowCount(slow, ack, submit)
    decreases submit
  {
    if ack < submit {
      SlowBelow(slow, serial, ack, submit - 1);
    }
  }

  /** During a session, registering changes nothing but the announcement and the acknowledged serial. */
  lemma SyncedIs(w: World)
    requires ClientOk(w)
    ensures var c := C.Synced(w.client, w.own, w.server, w.now, false);
            && c.appPid == w.own && c.mode && c.compositorPid == w.server
            && c.submit == w.client.submit && c.commitMs == w.client.commitMs
            && c.ack == if C.Overdue(w.client, w.now) then w.client.submit else w.client.ack
    ensures forall e :: e in C.SyncPosts(w.client, w.own, w.server, w.now, false) ==> !OwnCommit(w, e)
  {
  }

  /** The invariants about the server and the way to it look at few fields. */
  lemma ServerSide(w: World, u: World)
    requires CommitsOk(w) && DesktopOk(w)
    requires u.own == w.own && u.toServer == w.toServer && u.desktop == w.desktop && u.client.submit == w.client.submit
    ensures CommitsOk(u) && DesktopOk(u)
  {
  }

  lemma RegisterKeeps(w: World)
    requires Inv(w) && w.pc.Register?
    ensures Inv(DoRegister(w))
  {
    SyncedIs(w);
    SlowAcked(w.slow, w.client.ack, C.Synced(w.client, w.own, w.server, w.now, false).ack, w.client.submit);
    PostAllHolds(w.toServer, C.SyncPosts(w.client, w.own, w.server, w.now, false));
  }

  lemma AckKeeps(w: World, c: C.Client)
    requires ClientOk(w) && LoopOk(w) && w.pc.Draining? && w.pc.left > 0
    requires c == w.client.(ack := c.ack, recoveries := c.recoveries) && w.client.ack <= c.ack <= w.client.submit
    ensures ClientOk(w.(client := c, pc := Draining(w.pc.left - 1)))
    ensures LoopOk(w.(client := c, pc := Draining(w.pc.left - 1)))
  {
    SlowAcked(w.slow, w.client.ack, c.ack, w.client.submit);
  }

  lemma DrainLoop(w: World)
    requires ClientOk(w) && LoopOk(w) && AcksOk(w) && w.pc.Draining?
    ensures ClientOk(DoDrain(w, w.pc.left)) && LoopOk(DoDrain(w, w.pc.left))
  {
    if w.toClient != [] {
      var e := w.toClient[0];
      assert C.IsFrameDone(w.client, e) <==> OwnAck(w, e);
      if w.pc.left > 0 && OwnAck(w, e) {
        AckKeeps(w, C.Received(w.client, e));
      }
    }
  }

  lemma DrainKeeps(w: World)
    requires Inv(w) && w.pc.Draining?
    ensures Inv(DoDrain(w, w.pc.left))
  {
    DrainLoop(w);
    ServerSide(w, DoDrain(w, w.pc.left));
  }

  lemma CheckKeeps(w: World, update: bool)
    requires Inv(w) && w.pc.Checking?
    ensures Inv(DoCheck(w, update))
  {
    ServerSide(w, DoCheck(w, update));
  }

  lemma CommitPostIs(w: World)
    requires ClientOk(w) && w.client.submit + 1 < HALF
    ensures C.Committed(w.client, w.now) == w.client.(submit := w.client.submit + 1, commitMs := w.now)
    ensures var e := CommitSurface(w.own, w.client.submit + 1, w.client.width, w.client.height);
            C.CommitPosts(w.client, w.now) == [e] && OwnCommit(w, e) && e.dy == w.client.submit + 1
  {
  }

  lemma CommitLoop(w: World)
    requires ClientOk(w) && LoopOk(w) && w.pc.Committing? && w.client.submit + 1 < HALF
    ensures ClientOk(DoCommit(w, w.pc.at)) && LoopOk(DoCommit(w, w.pc.at))
  {
    CommitPostIs(w);
    SlowBelow(w.slow, w.client.submit + 1, w.client.ack, w.client.submit);
  }

  lemma CommitKeeps(w: World)
    requires Inv(w) && w.pc.Committing? && w.client.submit + 1 < HALF
    ensures Inv(DoCommit(w, w.pc.at))
  {
    CommitPostIs(w);
    CommitLoop(w);
    PostOne(w.toServer, CommitSurface(w.own, w.client.submit + 1, w.client.width, w.client.height));
  }

  // --- the server's steps ---

  lemma ReceiveKeeps(w: World)
    requires Inv(w) && w.toServer != []
    ensures Inv(DoReceive(w))
  {
    var e := w.toServer[0];
    S.HandledInv(w.desktop, e, w.now);
    S.HandledFlight(w.desktop, e, w.now, w.own);
  }

  lemma PresentAcks(w: World, ok: bool)
    requires ClientOk(w) && DesktopOk(w) && AcksOk(w)
    ensures AcksOk(DoPresent(w, ok))
  {
    var n := |w.desktop.surfaces|;
    var events := S.PostsTo(S.Posts(w.desktop.surfaces, ok, w.now, n), w.own);
    S.PostsExact(w.desktop.surfaces, ok, w.now, n, w.own);
    PostAllHolds(w.toClient, events);
    CastsInvert(S.FlightOf(w.desktop, w.own).submit);
  }

  lemma PresentKeeps(w: World, ok: bool)
    requires Inv(w)
    ensures Inv(DoPresent(w, ok))
  {
    S.PresentedInv(w.desktop, ok, w.now);
    S.PresentedFlight(w.desktop, ok, w.now, w.own);
    PresentAcks(w, ok);
  }

  lemma CleanupKeeps(w: World, windows: set<nat>)
    requires Inv(w)
    ensures Inv(Apply(w, Cleanup(windows)))
  {
    S.CleanedInv(w.desktop, windows, w.now);
    S.CleanedFlight(w.desktop, windows, w.now, w.own);
  }

  lemma BindKeeps(w: World, slot: nat, window: nat, width: nat, height: nat)
    requires Inv(w)
    ensures Inv(Apply(w, Bind(slot, window, width, height)))
  {
    S.StepKeepsInv(w.desktop, S.Bind(slot, window, width, height));
    S.BoundFlight(w.desktop, slot, window, width, height, w.own);
  }

  lemma LoseKeeps(w: World, ofClient: bool, i: nat)
    requires Inv(w)
    ensures Inv(DoLose(w, ofClient, i))
  {
    LoseCommit(w, i);
    LoseAck(w, i);
  }

  /** What is left of a queue is in it, in the same order. */
  lemma DroppedFrom(q: seq<OSEvent>, i: nat, j: nat)
    requires j < |Dropped(q, i)|
    ensures i < |q| ==> Dropped(q, i)[j] == q[if j < i then j else j + 1]
    ensures i >= |q| ==> Dropped(q, i)[j] == q[j]
  {
  }

  lemma LoseCommit(w: World, i: nat)
    requires CommitsOk(w)
    ensures CommitsOk(w.(toServer := Dropped(w.toServer, i)))
  {
    var q := Dropped(w.toServer, i);
    forall j | 0 <= j < |q| && OwnCommit(w, q[j])
      ensures S.FlightOf(w.desktop, w.own).submit < q[j].dy <= w.client.submit
    {
      DroppedFrom(w.toServer, i, j);
    }
    forall j, k | 0 <= j < k < |q| && OwnCommit(w, q[j]) && OwnCommit(w, q[k])
      ensures q[j].dy < q[k].dy
    {
      DroppedFrom(w.toServer, i, j);
      DroppedFrom(w.toServer, i, k);
    }
  }

  lemma LoseAck(w: World, i: nat)
    requires AcksOk(w)
    ensures AcksOk(w.(toClient := Dropped(w.toClient, i)))
  {
    var u := w.(toClient := Dropped(w.toClient, i));
    if i < |w.toClient| {
      assert forall j :: 0 <= j < |u.toClient| ==> u.toClient[j] == w.toClient[if j < i then j else j + 1];
    }
  }

  lemma TurnKeeps(w: World, update: bool)
    requires Inv(w) && Allowed(w, Client(update))
    ensures Inv(ClientTurn(w, update))
  {
    match w.pc
    case Register => RegisterKeeps(w);
    case Draining(left) => DrainKeeps(w);
    case Checking => CheckKeeps(w, update);
    case Committing(at) => CommitKeeps(w);
    case Stopped =>
  }

  lemma OutsideKeeps(w: World, event: OSEvent)
    requires Inv(w)
    ensures !OwnCommit(w, event) ==> Inv(w.(toServer := Post(w.toServer, event)))
    ensures !OwnAck(w, event) ==> Inv(w.(toClient := Post(w.toClient, event)))
  {
  }

  lemma StepKeepsInv(w: World, step: Step)
    requires Inv(w) && Allowed(w, step)
    ensures Inv(Apply(w, step))
  {
    match step
    case Tick(ms) =>
    case Client(update) => TurnKeeps(w, update);
    case Receive =>
      if w.toServer != [] {
        ReceiveKeeps(w);
      }
    case Present(ok) => PresentKeeps(w, ok);
    case Cleanup(windows) => CleanupKeeps(w, windows);
    case Bind(slot, window, width, height) => BindKeeps(w, slot, window, width, height);
    case ToServer(event) => OutsideKeeps(w, event);
    case ToClient(event) => OutsideKeeps(w, event);
    case Lose(ofClient, place) => LoseKeeps(w, ofClient, place);
  }
}
