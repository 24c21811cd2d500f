/** The protocol half of MorphicAPI::Window (userspace/sdk/morphic_api.h): registering with the
    compositor, numbering commits, taking acknowledgements, and holding back when frames pile up. */
module CompositorClient {
  import opened EventQueue
  import opened CompositorProtocol

  const HELLO_MS: nat := 300
  const BURST: nat := 20

  datatype Client = Client(
    appPid: nat,
    compositorPid: nat,
    helloMs: nat,
    mode: bool,
    announced: bool,
    submit: nat,
    ack: nat,
    commitMs: nat,
    recoveries: nat,
    throttles: nat,
    width: nat,
    height: nat
  )

  /** Giving up on frames whose acknowledgement is overdue. */
  predicate Overdue(c: Client, now: nat)
  {
    c.mode && c.submit > c.ack && c.commitMs != 0 && Elapsed(now, c.commitMs) > TIMEOUT_MS
  }

  function Recovered(c: Client, now: nat): Client
  {
    if Overdue(c, now) then c.(recoveries := c.recoveries + 1, ack := c.submit, announced := false) else c
  }

  function Forgotten(c: Client): Client { c.(announced := false, submit := 0, ack := 0, commitMs := 0) }

  /** Everything SyncCompositorRegistration does before it may announce the surface. */
  function Attached(c: Client, ownPid: nat, serverPid: nat, now: nat): Client
  {
    var d := Recovered(if c.appPid == 0 then c.(appPid := ownPid) else c, now);
    if serverPid == 0 || serverPid == d.appPid then Forgotten(d).(compositorPid := 0, mode := false)
    else (if d.compositorPid != serverPid then Forgotten(d) else d).(compositorPid := serverPid, mode := true)
  }

  predicate Announces(c: Client, now: nat, force: bool)
  {
    c.mode && (force || (!c.announced && (c.helloMs == 0 || Elapsed(now, c.helloMs) >= HELLO_MS)))
  }

  function Synced(c: Client, ownPid: nat, serverPid: nat, now: nat, force: bool): Client
  {
    var d := Attached(c, ownPid, serverPid, now);
    if Announces(d, now, force) then d.(helloMs := now, announced := true) else d
  }

  /** What it posts to the compositor. A pid whose low 32 bits are zero is never posted. */
  function SyncPosts(c: Client, ownPid: nat, serverPid: nat, now: nat, force: bool): seq<OSEvent>
  {
    var d := Attached(c, ownPid, serverPid, now);
    var pid := d.appPid % WORD;
    if Announces(d, now, force) && pid != 0
    then [Hello(pid, d.width, d.height), CreateSurface(pid, d.width, d.height)]
    else []
  }

  /** In protocol mode exactly while a compositor is known. */
  predicate Coherent(c: Client) { c.mode <==> c.compositorPid != 0 }

  /** Registering settles: repeated at the same time it posts nothing and changes nothing, nothing overdue
      is left, and without a compositor all frames are forgotten. */
  lemma SyncSettles(c: Client, ownPid: nat, serverPid: nat, now: nat, force: bool)
    requires Coherent(c)
    ensures var d := Synced(c, ownPid, serverPid, now, force);
            && Coherent(d) && !Overdue(d, now)
            && Synced(d, ownPid, serverPid, now, false) == d && SyncPosts(d, ownPid, serverPid, now, false) == []
            && (!d.mode ==> d.submit == 0 && d.ack == 0)
  {
  }

  /** What registering does to the client: serials start again in another session, and frames that are overdue by
      1500 ms count as acknowledged. */
  lemma RegistersExactly(c: Client, ownPid: nat, serverPid: nat, now: nat, force: bool)
    requires Coherent(c)
    ensures var d := Synced(c, ownPid, serverPid, now, force);
            var pid := if c.appPid == 0 then ownPid else c.appPid;
            var known, same := serverPid != 0 && serverPid != pid, serverPid == c.compositorPid;
            var late := c.mode && c.submit > c.ack && c.commitMs != 0 && Elapsed(now, c.commitMs) > 1500;
            && d.appPid == pid && d.mode == known && d.compositorPid == (if known then serverPid else 0)
            && d.submit == (if known && same then c.submit else 0)
            && d.commitMs == (if known && same then c.commitMs else 0)
            && d.ack == (if !known || !same then 0 else if late then c.submit else c.ack)
  {
  }

  /** What it posts: a known compositor is told of the client and of its surface, with its size, when that is
      forced or due: not yet told, another session, or frames overdue, and no HELLO in the last 300 ms. */
  lemma AnnouncesExactly(c: Client, ownPid: nat, serverPid: nat, now: nat, force: bool)
    requires Coherent(c)
    ensures var pid := if c.appPid == 0 then ownPid else c.appPid;
            var late := c.mode && c.submit > c.ack && c.commitMs != 0 && Elapsed(now, c.commitMs) > 1500;
            var due := && (!c.announced || serverPid != c.compositorPid || late)
                       && (c.helloMs == 0 || Elapsed(now, c.helloMs) >= 300);
            var tells := serverPid != 0 && serverPid != pid && (force || due);
            var low := pid % 0x1_0000_0000;
            && Synced(c, ownPid, serverPid, now, force).helloMs == (if tells then now else c.helloMs)
            && SyncPosts(c, ownPid, serverPid, now, force) ==
               if tells && low != 0 then [OSEvent(64, Signed(low), 1, 1, c.width, c.height),
                                          OSEvent(64, Signed(low), 0, 2, c.width, c.height)] else []
  {
  }

  /** An acknowledgement addressed to this client. */
  predicate IsFrameDone(c: Client, e: OSEvent)
  {
    FromEvent(e).Some? && FromEvent(e).value.kind == FRAME_DONE && Unsigned(FromEvent(e).value.arg0) == c.appPid % WORD
  }

  function Received(c: Client, e: OSEvent): Client
  {
    if !IsFrameDone(c, e) then c
    else
      var m := FromEvent(e).value;
      var serial := Unsigned(m.arg1);
      c.(ack := if serial > c.ack then serial else c.ack,
         recoveries := c.recoveries + if m.arg3 == DONE_TIMEOUT_RECOVERY then 1 else 0)
  }

  /** A FRAME_DONE for this client raises the acknowledged serial to its own and never lowers it; no other event
      changes anything. */
  lemma ReceivedExactly(c: Client, e: OSEvent)
    ensures var done := e.kind == 64 && e.buttons == 6 && e.dx % 0x1_0000_0000 == c.appPid % 0x1_0000_0000;
            var serial := e.dy % 0x1_0000_0000;
            Received(c, e) == c.(ack := if done && serial > c.ack then serial else c.ack,
                                 recoveries := c.recoveries + if done && e.ascii == 1 then 1 else 0)
  {
  }

  predicate ShouldThrottle(c: Client, now: nat)
  {
    && c.mode && c.compositorPid != 0
    && c.submit > (c.ack + 1) % WORD
    && c.commitMs != 0 && Elapsed(now, c.commitMs) <= TIMEOUT_MS
  }

  predicate Attachable(c: Client) { c.mode && c.compositorPid != 0 && c.appPid != 0 }

  function Committed(c: Client, now: nat): Client
  {
    if !Attachable(c) then c else c.(submit := (c.submit + 1) % WORD, commitMs := now)
  }

  function CommitPosts(c: Client, now: nat): seq<OSEvent>
  {
    var pid := c.appPid % WORD;
    if Attachable(c) && pid != 0 then [CommitSurface(pid, Committed(c, now).submit, c.width, c.height)] else []
  }

  /** A commit takes the next serial and the time, and is posted with the size of the surface. */
  lemma CommitsExactly(c: Client, now: nat)
    ensures var serial, low := (c.submit + 1) % 0x1_0000_0000, c.appPid % 0x1_0000_0000;
            if !c.mode || c.compositorPid == 0 || c.appPid == 0
            then Committed(c, now) == c && CommitPosts(c, now) == []
            else
              && Committed(c, now) == c.(submit := serial, commitMs := now)
              && CommitPosts(c, now) ==
                 if low == 0 then [] else [OSEvent(64, Signed(low), Signed(serial), 3, c.width, c.height)]
  {
  }

  // --- one burst of event processing ---

  predicate IsClose(e: OSEvent) { e.kind == WINDOW_DESTROYED }

  /** A close request among the first events that fit the budget. */
  predicate ClosesWithin(inbox: seq<OSEvent>, budget: nat)
  {
    exists i :: 0 <= i < |inbox| && i < budget && IsClose(inbox[i])
  }

  /** The client after one burst; a close request ends it early. */
  function Burst(c: Client, inbox: seq<OSEvent>, budget: nat): Client
    decreases budget
  {
    if budget == 0 || inbox == [] || IsClose(inbox[0]) then c
    else Burst(Received(c, inbox[0]), inbox[1..], budget - 1)
  }

  /** How many events a burst takes from the queue. */
  function Taken(inbox: seq<OSEvent>, budget: nat): (n: nat)
    ensures n <= |inbox|
    decreases budget
  {
    if inbox == [] then 0
    else if budget == 0 || IsClose(inbox[0]) then 1
    else 1 + Taken(inbox[1..], budget - 1)
  }

  /** How many of them it looks at; a close request is the last one. */
  function Processed(inbox: seq<OSEvent>, budget: nat): (n: nat)
    ensures n <= |inbox| && n <= budget
    decreases budget
  {
    if inbox == [] || budget == 0 then 0
    else if IsClose(inbox[0]) then 1
    else 1 + Processed(inbox[1..], budget - 1)
  }

  lemma ClosesNext(inbox: seq<OSEvent>, budget: nat)
    requires inbox != [] && budget > 0
    ensures ClosesWithin(inbox, budget) <==> IsClose(inbox[0]) || ClosesWithin(inbox[1..], budget - 1)
  {
    if ClosesWithin(inbox[1..], budget - 1) {
      var i :| 0 <= i < |inbox[1..]| && i < budget - 1 && IsClose(inbox[1..][i]);
      assert IsClose(inbox[i + 1]);
    }
    if i :| 0 < i < |inbox| && i < budget && IsClose(inbox[i]) {
      assert IsClose(inbox[1..][i - 1]);
    }
  }

  /** An event is taken without being looked at if and only if more are waiting than fit the budget and
      no close request is among those that fit; it is then the first that does not fit. */
  lemma {:induction false} BurstLosesIff(inbox: seq<OSEvent>, budget: nat)
    ensures Taken(inbox, budget) != Processed(inbox, budget) <==> |inbox| > budget && !ClosesWithin(inbox, budget)
    ensures Taken(inbox, budget) != Processed(inbox, budget) ==>
            Processed(inbox, budget) == budget && Taken(inbox, budget) == budget + 1
    decreases budget
  {
    if inbox != [] && budget > 0 {
      ClosesNext(inbox, budget);
      BurstLosesIff(inbox[1..], budget - 1);
    }
  }

  function ReceivedAll(c: Client, events: seq<OSEvent>): Client
    decreases |events|
  {
    if events == [] then c else ReceivedAll(Received(c, events[0]), events[1..])
  }

  /** A burst looks at the events up to the first close request, at most as many as its budget. */
  lemma {:induction false} BurstExactly(c: Client, inbox: seq<OSEvent>, budget: nat, n: nat)
    requires n <= |inbox| && n <= budget && forall i :: 0 <= i < n ==> inbox[i].kind != 6
    requires n == |inbox| || n == budget || inbox[n].kind == 6
    ensures Burst(c, inbox, budget) == ReceivedAll(c, inbox[..n])
    ensures Processed(inbox, budget) == if n < |inbox| && n < budget then n + 1 else n
    decreases n
  {
    if n > 0 {
      BurstExactly(Received(c, inbox[0]), inbox[1..], budget - 1, n - 1);
      assert inbox[..n][1..] == inbox[1..][..n - 1];
    }
  }

  /** The client then ends up as if that event had never been sent, whatever it was. */
  lemma {:induction false} BurstIgnoresLost(c: Client, inbox: seq<OSEvent>, budget: nat)
    requires |inbox| > budget && !ClosesWithin(inbox, budget)
    ensures Burst(c, inbox, budget) == Burst(c, inbox[..budget] + inbox[budget + 1..], budget)
    decreases budget
  {
    if budget > 0 {
      var less := inbox[..budget] + inbox[budget + 1..];
      ClosesNext(inbox, budget);
      BurstIgnoresLost(Received(c, inbox[0]), inbox[1..], budget - 1);
      assert less[1..] == inbox[1..][..budget - 1] + inbox[1..][budget..];
    }
  }

  /** So a close request in that place is gone: it is taken from the queue and does not close the window. */
  lemma LostClose(inbox: seq<OSEvent>, budget: nat)
    requires |inbox| > budget && IsClose(inbox[budget]) && forall i :: 0 <= i < budget ==> !IsClose(inbox[i])
    ensures Taken(inbox, budget) == budget + 1 && !ClosesWithin(inbox, budget)
  {
    BurstLosesIff(inbox, budget);
  }

  class Window {
    var appPid: nat
    var compositorPid: nat
    var helloMs: nat
    var mode: bool
    var announced: bool
    var submit: nat
    var ack: nat
    var commitMs: nat
    var recoveries: nat
    var throttles: nat
    const width: nat
    const height: nat
    /** What was handed to sys_post_message for the compositor. */
    var posted: seq<OSEvent>

    ghost function Value(): Client
      reads this
    {
      Client(appPid, compositorPid, helloMs, mode, announced, submit, ack, commitMs, recoveries, throttles,
             width, height)
    }

    constructor (w: nat, h: nat)
      ensures Value() == Client(0, 0, 0, false, false, 0, 0, 0, 0, 0, w, h) && posted == []
    {
      appPid, compositorPid, helloMs, mode, announced := 0, 0, 0, false, false;
      submit, ack, commitMs, recoveries, throttles := 0, 0, 0, 0, 0;
      width, height, posted := w, h, [];
    }

    /** The timeout recovery at the start of SyncCompositorRegistration. */
    method Recover(now: nat)
      modifies this`recoveries, this`ack, this`announced
      ensures Value() == Recovered(old(Value()), now)
    {
      if mode && submit > ack && commitMs != 0 && Elapsed(now, commitMs) > TIMEOUT_MS {
        recoveries := recoveries + 1;
        ack := submit;
        announced := false;
      }
    }

    /** SyncCompositorRegistration up to the point where the compositor is known. */
    method Attach(ownPid: nat, serverPid: nat, now: nat)
      modifies this
      ensures Value() == Attached(old(Value()), ownPid, serverPid, now) && posted == old(posted)
    {
      if appPid == 0 {
        appPid := ownPid;
      }
      Recover(now);
      if serverPid == 0 || serverPid == appPid {
        announced, compositorPid, mode := false, 0, false;
        submit, ack, commitMs := 0, 0, 0;
        return;
      }
      if compositorPid != serverPid {
        announced, submit, ack, commitMs := false, 0, 0, 0;
      }
      compositorPid, mode := serverPid, true;
    }

    /** SyncCompositorRegistration; the two pids are what the system calls return. */
    method SyncRegistration(ownPid: nat, serverPid: nat, now: nat, force: bool)
      modifies this
      ensures Value() == Synced(old(Value()), ownPid, serverPid, now, force)
      ensures posted == old(posted) + SyncPosts(old(Value()), ownPid, serverPid, now, force)
    {
      Attach(ownPid, serverPid, now);
      if !mode || (!force && announced) {
        return;
      }
      if !force && helloMs != 0 && Elapsed(now, helloMs) < HELLO_MS {
        return;
      }
      var pid := appPid % WORD;
      if pid != 0 {
        posted := posted + [Hello(pid, width, height)];
        posted := posted + [CreateSurface(pid, width, height)];
      }
      helloMs, announced := now, true;
    }

    /** What Run does with one event; `done` tells whether it was an acknowledgement. */
    method HandleEvent(e: OSEvent) returns (done: bool)
      modifies this`ack, this`recoveries
      ensures Value() == Received(old(Value()), e) && done == IsFrameDone(old(Value()), e)
    {
      var decoded := FromEvent(e);
      if decoded.None? || decoded.value.kind != FRAME_DONE || Unsigned(decoded.value.arg0) != appPid % WORD {
        return false;
      }
      var serial := Unsigned(decoded.value.arg1);
      if serial > ack {
        ack := serial;
      }
      if decoded.value.arg3 == DONE_TIMEOUT_RECOVERY {
        recoveries := recoveries + 1;
      }
      return true;
    }

    /** The burst loop of Run over the task's event queue, with `budget` events to process. */
    method ProcessEvents(inbox: seq<OSEvent>, budget: nat) returns (rest: seq<OSEvent>, closed: bool)
      modifies this`ack, this`recoveries
      ensures Value() == Burst(old(Value()), inbox, budget)
      ensures rest == inbox[Taken(inbox, budget)..]
      ensures closed == ClosesWithin(inbox, budget)
    {
      rest, closed := inbox, false;
      var maxEvents := budget;
      ghost var taken := 0;
      while rest != []
        invariant taken <= |inbox| && rest == inbox[taken..] && maxEvents == budget - taken && !closed
        invariant Burst(old(Value()), inbox, budget) == Burst(Value(), rest, maxEvents)
        invariant Taken(inbox, budget) == taken + Taken(rest, maxEvents)
        invariant ClosesWithin(inbox, budget) == ClosesWithin(rest, maxEvents)
        decreases |rest|
      {
        if maxEvents > 0 {
          ClosesNext(rest, maxEvents);
        }
        var e := rest[0];
        rest := rest[1..];
        if maxEvents == 0 {
          return;
        }
        maxEvents := maxEvents - 1;
        if e.kind == WINDOW_DESTROYED {
          return rest, true;
        }
        var done := HandleEvent(e);
        taken := taken + 1;
      }
    }

    method NotifyCommit(now: nat)
      modifies this
      ensures Value() == Committed(old(Value()), now)
      ensures posted == old(posted) + CommitPosts(old(Value()), now)
    {
      if !mode || compositorPid == 0 || appPid == 0 {
        return;
      }
      submit := (submit + 1) % WORD;
      commitMs := now;
      var pid := appPid % WORD;
      if pid != 0 {
        posted := posted + [CommitSurface(pid, submit, width, height)];
      }
    }
  }
}
