/** The scheduler of kernel/process/scheduler.cpp on values: the circular task list read from its head,
    every operation as a function on it, and what holds over all runs. The class in Scheduler.dfy links
    the tasks through pointers and is proved against these functions. */
module TaskRing {
  import opened EventQueue
  import opened Rotation

  datatype TaskState = Ready | Running | Sleeping | Dead

  datatype Task = Task(id: nat, state: TaskState, wake: nat, events: seq<OSEvent>)

  /** current and idle are task ids; lost counts events that were pending in tasks when they were reaped. */
  datatype State = State(
    tasks: seq<Task>,
    current: nat,
    idle: nat,
    nextId: nat,
    pushes: nat,
    pops: nat,
    drops: nat,
    lost: nat
  )

  const REAP_LIMIT: nat := 64

  function Ids(s: seq<Task>): (r: seq<nat>)
    ensures |r| == |s|
    ensures forall i :: 0 <= i < |s| ==> r[i] == s[i].id
  {
    seq(|s|, i requires 0 <= i < |s| => s[i].id)
  }

  lemma IdsAre(s: seq<Task>, r: seq<nat>)
    requires |r| == |s| && forall i :: 0 <= i < |s| ==> r[i] == s[i].id
    ensures Ids(s) == r
  {
  }

  function Position(s: seq<Task>, id: nat): (i: nat)
    ensures i <= |s|
    ensures i < |s| ==> s[i].id == id
    ensures forall j :: 0 <= j < i ==> s[j].id != id
  {
    IndexOf(Ids(s), id)
  }

  predicate Has(s: seq<Task>, id: nat) { Position(s, id) < |s| }

  lemma PositionAt(s: seq<Task>, i: nat)
    requires Distinct(Ids(s)) && i < |s|
    ensures Position(s, s[i].id) == i
  {
    IndexOfAt(Ids(s), i);
  }

  // --- the operations ---

  predicate Runnable(t: Task, now: nat)
  {
    t.state == Ready || t.state == Running || (t.state == Sleeping && now >= t.wake)
  }

  /** The order in which Schedule looks at the tasks; the current one comes last. */
  function Order(s: seq<Task>, c: nat): seq<Task>
    requires c < |s|
  {
    s[c + 1..] + s[..c + 1]
  }

  function FirstRunnable(s: seq<Task>, now: nat): (k: nat)
    ensures k <= |s|
    ensures k < |s| ==> Runnable(s[k], now)
    ensures forall j :: 0 <= j < k ==> !Runnable(s[j], now)
  {
    if s == [] || Runnable(s[0], now) then 0 else 1 + FirstRunnable(s[1..], now)
  }

  predicate Rooted(v: State)
  {
    |v.tasks| > 0 && Has(v.tasks, v.current) && Has(v.tasks, v.idle)
  }

  /** The task that Schedule switches to: the first runnable one after the current task, else the
      current task if it may go on, else the idle task. */
  function Chosen(v: State, now: nat): (id: nat)
    requires Rooted(v)
    ensures Has(v.tasks, id)
  {
    var c := Position(v.tasks, v.current);
    var others := Order(v.tasks, c)[..|v.tasks| - 1];
    var k := FirstRunnable(others, now);
    if k < |others| then
      OrderHas(v.tasks, c, k);
      others[k].id
    else if Runnable(v.tasks[c], now) then v.current
    else v.idle
  }

  lemma OrderHas(s: seq<Task>, c: nat, k: nat)
    requires c < |s| && k < |s|
    ensures Has(s, Order(s, c)[k].id)
  {
    var i := if c + 1 + k < |s| then c + 1 + k else c + 1 + k - |s|;
    assert Order(s, c)[k] == s[i];
    assert Ids(s)[i] == s[i].id;
  }

  function Switched(v: State, now: nat): State
    requires Rooted(v)
  {
    var i := Position(v.tasks, Chosen(v, now));
    v.(tasks := v.tasks[i := v.tasks[i].(state := Running)], current := Chosen(v, now))
  }

  predicate Doomed(t: Task, current: nat, idle: nat)
  {
    t.state == Dead && t.id != current && t.id != idle
  }

  /** The tasks after the head once ReapDeadTasks has looked at the first `budget` of them. */
  function Sweep(s: seq<Task>, current: nat, idle: nat, budget: nat): seq<Task>
  {
    if s == [] || budget == 0 then s
    else (if Doomed(s[0], current, idle) then [] else [s[0]]) + Sweep(s[1..], current, idle, budget - 1)
  }

  /** How many pending events go away with the reaped tasks. */
  function SweepLoss(s: seq<Task>, current: nat, idle: nat, budget: nat): nat
  {
    if s == [] || budget == 0 then 0
    else (if Doomed(s[0], current, idle) then |s[0].events| else 0) + SweepLoss(s[1..], current, idle, budget - 1)
  }

  function Reaped(v: State): State
    requires |v.tasks| > 0
  {
    v.(tasks := [v.tasks[0]] + Sweep(v.tasks[1..], v.current, v.idle, REAP_LIMIT),
       lost := v.lost + SweepLoss(v.tasks[1..], v.current, v.idle, REAP_LIMIT))
  }

  /** How far CreateTask and CreateUserTask get: an id is used up even when the stack cannot be had. */
  datatype Creation = NoTask | NoStack | Created

  datatype Step =
    | Create(outcome: Creation)
    | Sleep(until: nat)
    | Exit
    | Push(target: nat, event: OSEvent)
    | Pop
    | Schedule(now: nat)

  function Update(v: State, id: nat, t: Task): State
    requires Has(v.tasks, id)
  {
    v.(tasks := v.tasks[Position(v.tasks, id) := t])
  }

  function TaskOf(v: State, id: nat): Task
    requires Has(v.tasks, id)
  {
    v.tasks[Position(v.tasks, id)]
  }

  /** The receiver of a queued event: a sleeper is woken. */
  function Receive(t: Task, e: OSEvent): Task
  {
    t.(events := t.events + [e], state := if t.state == Sleeping then Ready else t.state)
  }

  function AfterCreate(v: State): State
    requires |v.tasks| > 0
  {
    v.(nextId := v.nextId + 1, tasks := [v.tasks[0], Task(v.nextId, Ready, 0, [])] + v.tasks[1..])
  }

  function AfterPush(v: State, target: nat, event: OSEvent): State
  {
    if !Has(v.tasks, target) then v
    else if |TaskOf(v, target).events| >= SIZE - 1 then v.(drops := v.drops + 1)
    else Update(v, target, Receive(TaskOf(v, target), event)).(pushes := v.pushes + 1)
  }

  function AfterPop(v: State): State
    requires Has(v.tasks, v.current)
  {
    var t := TaskOf(v, v.current);
    if t.events == [] then v else Update(v, v.current, t.(events := t.events[1..])).(pops := v.pops + 1)
  }

  function Apply(v: State, step: Step): State
    requires Rooted(v)
  {
    match step
    case Create(NoTask) => v
    case Create(NoStack) => v.(nextId := v.nextId + 1)
    case Create(Created) => AfterCreate(v)
    case Sleep(until) => Update(v, v.current, TaskOf(v, v.current).(state := Sleeping, wake := until))
    case Exit => if v.current == 0 then v else Update(v, v.current, TaskOf(v, v.current).(state := Dead))
    case Push(target, event) => AfterPush(v, target, event)
    case Pop => AfterPop(v)
    case Schedule(now) => Reaped(Switched(v, now))
  }

  // --- what every state keeps ---

  function Pending(s: seq<Task>): nat { if s == [] then 0 else |s[0].events| + Pending(s[1..]) }

  /** One duplicate-free circle that starts with the main task and holds the current and the idle task,
      which can always run. */
  ghost predicate Circle(v: State)
  {
    && Rooted(v) && Distinct(Ids(v.tasks))
    && v.tasks[0].id == 0 && v.tasks[0].state != Dead
    && (forall i :: 0 <= i < |v.tasks| ==> v.tasks[i].id < v.nextId)
    && (TaskOf(v, v.idle).state == Ready || TaskOf(v, v.idle).state == Running)
  }

  /** Queues within their capacity, and every queued event accounted for. */
  ghost predicate Counted(v: State)
  {
    && (forall i :: 0 <= i < |v.tasks| ==> |v.tasks[i].events| <= SIZE - 1)
    && v.pushes == v.pops + Pending(v.tasks) + v.lost
  }

  ghost predicate Inv(v: State) { Circle(v) && Counted(v) }

  /** What a run may do: the idle task neither sleeps nor exits, and a task that is asleep or dead
      executes nothing that calls Sleep or Exit again. Everything else is always possible. */
  predicate Enabled(v: State, step: Step)
    requires Rooted(v)
  {
    (step.Sleep? || step.Exit?) ==>
      && v.current != v.idle
      && (TaskOf(v, v.current).state == Ready || TaskOf(v, v.current).state == Running)
  }

  /** The state Init leaves behind: the running main task and the idle task. */
  function Booted(wake: nat): State
  {
    State([Task(0, Running, wake, []), Task(1, Ready, 0, [])], 0, 1, 2, 0, 0, 0, 0)
  }

  lemma BootedInv(wake: nat)
    ensures Inv(Booted(wake))
  {
    var v := Booted(wake);
    assert v.tasks[1..] == [v.tasks[1]];
    assert Ids(v.tasks) == [0, 1];
    assert Pending(v.tasks[1..]) == 0;
  }

  // --- updating one task ---

  lemma {:induction false} PendingUpdate(s: seq<Task>, i: nat, t: Task)
    requires i < |s|
    ensures Pending(s[i := t]) == Pending(s) - |s[i].events| + |t.events|
  {
    if i > 0 {
      assert s[i := t][1..] == s[1..][i - 1 := t];
      PendingUpdate(s[1..], i - 1, t);
    } else {
      assert s[i := t][1..] == s[1..];
    }
  }

  lemma UpdateIds(s: seq<Task>, i: nat, t: Task)
    requires i < |s| && t.id == s[i].id
    ensures Ids(s[i := t]) == Ids(s)
  {
    IdsAre(s[i := t], Ids(s));
  }

  lemma UpdateCircle(v: State, i: nat, t: Task, w: State)
    requires Circle(v) && i < |v.tasks| && t.id == v.tasks[i].id
    requires t.state == Dead ==> i != 0
    requires v.tasks[i].id == v.idle ==> t.state == Ready || t.state == Running
    requires w.tasks == v.tasks[i := t] && w.idle == v.idle && w.nextId == v.nextId && Has(v.tasks, w.current)
    ensures Circle(w) && Ids(w.tasks) == Ids(v.tasks)
  {
    UpdateIds(v.tasks, i, t);
  }

  lemma UpdateInv(v: State, i: nat, t: Task, w: State)
    requires Inv(v) && i < |v.tasks| && t.id == v.tasks[i].id && |t.events| <= SIZE - 1
    requires t.state == Dead ==> i != 0
    requires v.tasks[i].id == v.idle ==> t.state == Ready || t.state == Running
    requires w.tasks == v.tasks[i := t] && w.idle == v.idle && w.nextId == v.nextId && w.lost == v.lost
    requires Has(v.tasks, w.current) && w.pushes - w.pops == v.pushes - v.pops - |v.tasks[i].events| + |t.events|
    ensures Inv(w) && Ids(w.tasks) == Ids(v.tasks)
  {
    UpdateCircle(v, i, t, w);
    PendingUpdate(v.tasks, i, t);
  }

  lemma HasAt(s: seq<Task>, i: nat)
    requires i < |s|
    ensures Has(s, s[i].id)
  {
    assert Ids(s)[i] in Ids(s);
  }

  lemma TaskIs(v: State, i: nat)
    requires Distinct(Ids(v.tasks)) && i < |v.tasks|
    ensures Has(v.tasks, v.tasks[i].id) && TaskOf(v, v.tasks[i].id) == v.tasks[i]
  {
    PositionAt(v.tasks, i);
  }

  // --- creation ---

  lemma CreatedIds(v: State)
    requires Circle(v)
    ensures Ids(Apply(v, Create(Created)).tasks) == [0, v.nextId] + Ids(v.tasks)[1..]
    ensures Distinct(Ids(Apply(v, Create(Created)).tasks))
  {
    IdsAre(Apply(v, Create(Created)).tasks, [0, v.nextId] + Ids(v.tasks)[1..]);
  }

  /** A new task is ready, has the next id and stands right behind the head; the id is used up even if the stack
      cannot be had. */
  lemma CreatesExactly(v: State, outcome: Creation)
    requires Circle(v)
    ensures var w := Apply(v, Create(outcome));
            && w.nextId == v.nextId + (if outcome == NoTask then 0 else 1) && w.current == v.current
            && if outcome != Created then w.tasks == v.tasks
               else && |w.tasks| == |v.tasks| + 1 && w.tasks[0] == v.tasks[0]
                    && w.tasks[1] == Task(v.nextId, Ready, 0, [])
                    && forall i :: 1 <= i < |v.tasks| ==> w.tasks[i + 1] == v.tasks[i]
  {
  }

  lemma CreatedCircle(v: State)
    requires Circle(v)
    ensures Circle(Apply(v, Create(Created)))
  {
    CreatedIds(v);
    CreatedHas(v, v.current);
    CreatedHas(v, v.idle);
  }

  lemma CreatedCounted(v: State)
    requires Rooted(v) && Counted(v)
    ensures Counted(Apply(v, Create(Created)))
  {
    var w := Apply(v, Create(Created));
    assert w.tasks[1..][1..] == v.tasks[1..];
  }

  lemma CreatedHas(v: State, id: nat)
    requires Circle(v) && Has(v.tasks, id)
    ensures Has(Apply(v, Create(Created)).tasks, id)
    ensures TaskOf(Apply(v, Create(Created)), id) == TaskOf(v, id)
  {
    var w := Apply(v, Create(Created));
    var i := Position(v.tasks, id);
    var j := if i == 0 then 0 else i + 1;
    assert w.tasks[j] == v.tasks[i];
    CreatedIds(v);
    TaskIs(w, j);
  }

  // --- choosing the next task ---

  lemma OrderPosition(s: seq<Task>, c: nat, i: nat) returns (p: nat)
    requires c < |s| && i < |s|
    ensures p < |s| && Order(s, c)[p] == s[i]
  {
    p := if i > c then i - c - 1 else |s| - c - 1 + i;
  }

  lemma FirstIs(s: seq<Task>, now: nat, k: nat)
    requires k <= |s| && (forall j :: 0 <= j < k ==> !Runnable(s[j], now)) && (k < |s| ==> Runnable(s[k], now))
    ensures FirstRunnable(s, now) == k
  {
  }

  lemma ChosenBy(v: State, now: nat, k: nat)
    requires Rooted(v) && k < |v.tasks|
    requires var order := Order(v.tasks, Position(v.tasks, v.current));
             && (forall j :: 0 <= j < k ==> !Runnable(order[j], now))
             && (k < |v.tasks| - 1 ==> Runnable(order[k], now))
    ensures var c := Position(v.tasks, v.current);
            Chosen(v, now) == if k < |v.tasks| - 1 then Order(v.tasks, c)[k].id
                              else if Runnable(v.tasks[c], now) then v.current else v.idle
  {
    FirstIs(Order(v.tasks, Position(v.tasks, v.current))[..|v.tasks| - 1], now, k);
  }

  lemma OrderTask(v: State, c: nat, k: nat)
    requires Distinct(Ids(v.tasks)) && c < |v.tasks| && k < |v.tasks|
    ensures Has(v.tasks, Order(v.tasks, c)[k].id) && TaskOf(v, Order(v.tasks, c)[k].id) == Order(v.tasks, c)[k]
    ensures k == |v.tasks| - 1 ==> Order(v.tasks, c)[k] == v.tasks[c]
  {
    TaskIs(v, if c + 1 + k < |v.tasks| then c + 1 + k else c + 1 + k - |v.tasks|);
  }

  lemma SomeRunnable(v: State, c: nat, now: nat)
    requires Circle(v) && c < |v.tasks|
    ensures FirstRunnable(Order(v.tasks, c), now) < |v.tasks|
  {
    var p := OrderPosition(v.tasks, c, Position(v.tasks, v.idle));
    assert Runnable(Order(v.tasks, c)[p], now);
  }

  /** As long as the idle task is runnable, Schedule takes the first runnable task of the whole circle,
      the current task being the last candidate: the fallback to the idle task is never needed. */
  lemma ChosenIsFirst(v: State, now: nat)
    requires Circle(v)
    ensures var order := Order(v.tasks, Position(v.tasks, v.current));
            var k := FirstRunnable(order, now);
            k < |order| && Chosen(v, now) == order[k].id && TaskOf(v, order[k].id) == order[k]
  {
    var c := Position(v.tasks, v.current);
    var k := FirstRunnable(Order(v.tasks, c), now);
    SomeRunnable(v, c, now);
    ChosenBy(v, now, k);
    OrderTask(v, c, k);
  }

  /** The task k places behind the one after index c. */
  function Ahead(s: seq<Task>, c: nat, k: nat): Task
    requires c < |s| && k < |s|
  {
    if c + 1 + k < |s| then s[c + 1 + k] else s[c + 1 + k - |s|]
  }

  /** Schedule switches to the first task behind the current one that is ready, running or past its wake
      time: those in between are dead or asleep. The current task itself comes last. */
  lemma SwitchesToFirst(v: State, now: nat, c: nat, k: nat)
    requires Circle(v) && c < |v.tasks| && v.tasks[c].id == v.current && k < |v.tasks|
    requires var t := Ahead(v.tasks, c, k);
             t.state == Ready || t.state == Running || (t.state == Sleeping && t.wake <= now)
    requires forall j :: 0 <= j < k ==>
               var t := Ahead(v.tasks, c, j);
               t.state == Dead || (t.state == Sleeping && t.wake > now)
    ensures Apply(v, Schedule(now)).current == Ahead(v.tasks, c, k).id
  {
    AheadChosen(v, now, c, k);
    ScheduleTakesChosen(v, now);
  }

  lemma ScheduleTakesChosen(v: State, now: nat)
    requires Rooted(v)
    ensures Apply(v, Schedule(now)).current == Chosen(v, now)
  {
  }

  lemma AheadChosen(v: State, now: nat, c: nat, k: nat)
    requires Circle(v) && c < |v.tasks| && v.tasks[c].id == v.current && k < |v.tasks|
    requires Runnable(Ahead(v.tasks, c, k), now) && forall j :: 0 <= j < k ==> !Runnable(Ahead(v.tasks, c, j), now)
    ensures Chosen(v, now) == Ahead(v.tasks, c, k).id
  {
    PositionAt(v.tasks, c);
    AheadFirst(v.tasks, c, now, k);
    ChosenIsFirst(v, now);
  }

  lemma AheadFirst(s: seq<Task>, c: nat, now: nat, k: nat)
    requires c < |s| && k < |s| && Runnable(Ahead(s, c, k), now)
    requires forall j :: 0 <= j < k ==> !Runnable(Ahead(s, c, j), now)
    ensures FirstRunnable(Order(s, c), now) == k && Order(s, c)[k] == Ahead(s, c, k)
  {
    assert forall j :: 0 <= j < |s| ==> Order(s, c)[j] == Ahead(s, c, j);
    FirstIs(Order(s, c), now, k);
  }

  lemma ChosenRunnable(v: State, now: nat)
    requires Circle(v)
    ensures Runnable(TaskOf(v, Chosen(v, now)), now)
  {
    ChosenIsFirst(v, now);
  }

  lemma SwitchedCircle(v: State, now: nat)
    requires Circle(v)
    ensures Circle(Switched(v, now)) && Ids(Switched(v, now).tasks) == Ids(v.tasks)
    ensures TaskOf(Switched(v, now), Switched(v, now).current).state == Running
  {
    var i := Position(v.tasks, Chosen(v, now));
    UpdateCircle(v, i, v.tasks[i].(state := Running), Switched(v, now));
    TaskIs(Switched(v, now), i);
  }

  lemma SwitchedCounted(v: State, now: nat)
    requires Inv(v)
    ensures Counted(Switched(v, now))
  {
    var i := Position(v.tasks, Chosen(v, now));
    PendingUpdate(v.tasks, i, v.tasks[i].(state := Running));
  }

  // --- reaping ---

  /** The ids that a sweep takes out. */
  function Swept(s: seq<Task>, current: nat, idle: nat, budget: nat): set<nat>
  {
    if s == [] || budget == 0 then {}
    else (if Doomed(s[0], current, idle) then {s[0].id} else {}) + Swept(s[1..], current, idle, budget - 1)
  }

  /** Exactly the dead tasks among the first `budget`, other than the current and the idle one. */
  lemma {:induction false} SweptExactly(s: seq<Task>, current: nat, idle: nat, budget: nat, id: nat)
    ensures id in Swept(s, current, idle, budget) <==>
            exists i :: 0 <= i < |s| && i < budget && s[i].id == id && Doomed(s[i], current, idle)
  {
    if s != [] && budget > 0 {
      var rest := s[1..];
      SweptExactly(rest, current, idle, budget - 1, id);
      if id in Swept(rest, current, idle, budget - 1) {
        var i :| 0 <= i < |rest| && i < budget - 1 && rest[i].id == id && Doomed(rest[i], current, idle);
        assert s[i + 1] == rest[i];
      }
      if i :| 0 < i < |s| && i < budget && s[i].id == id && Doomed(s[i], current, idle) {
        assert rest[i - 1] == s[i];
      }
    }
  }

  lemma {:induction false} RemoveMore(s: seq<nat>, gone: set<nat>, more: set<nat>)
    requires forall x :: x in s && x in more ==> x in gone
    ensures Remove(s, more + gone) == Remove(s, gone)
  {
    if s != [] {
      assert s[0] in s;
      assert forall x :: x in s[1..] ==> x in s;
      RemoveMore(s[1..], gone, more);
    }
  }

  lemma IdsCons(t: Task, rest: seq<Task>)
    ensures Ids([t] + rest) == [t.id] + Ids(rest)
  {
    IdsAre([t] + rest, [t.id] + Ids(rest));
  }

  lemma RemoveCons(x: nat, s: seq<nat>, gone: set<nat>)
    ensures Remove([x] + s, gone) == (if x in gone then [] else [x]) + Remove(s, gone)
  {
    assert ([x] + s)[1..] == s;
  }

  lemma SweptAreThere(s: seq<Task>, current: nat, idle: nat, budget: nat, id: nat)
    requires id !in Ids(s)
    ensures id !in Swept(s, current, idle, budget)
  {
    SweptExactly(s, current, idle, budget, id);
    assert forall i :: 0 <= i < |s| ==> s[i].id == Ids(s)[i];
  }

  lemma {:induction false} SweepIds(s: seq<Task>, current: nat, idle: nat, budget: nat)
    requires Distinct(Ids(s))
    ensures Ids(Sweep(s, current, idle, budget)) == Remove(Ids(s), Swept(s, current, idle, budget))
  {
    if s == [] || budget == 0 {
      RemoveNothing(Ids(s));
    } else {
      var t, rest := s[0], s[1..];
      assert s == [t] + rest;
      IdsCons(t, rest);
      SweepIds(rest, current, idle, budget - 1);
      SweepIdsCons(t, rest, current, idle, budget);
    }
  }

  lemma SweptCons(t: Task, rest: seq<Task>, current: nat, idle: nat, budget: nat)
    requires budget > 0
    ensures Swept([t] + rest, current, idle, budget) ==
            (if Doomed(t, current, idle) then {t.id} else {}) + Swept(rest, current, idle, budget - 1)
    ensures Sweep([t] + rest, current, idle, budget) ==
            (if Doomed(t, current, idle) then [] else [t]) + Sweep(rest, current, idle, budget - 1)
  {
    assert ([t] + rest)[1..] == rest;
  }

  lemma FirstIsNew(x: nat, s: seq<nat>)
    requires Distinct([x] + s)
    ensures x !in s
  {
    var l := [x] + s;
    forall j | 0 <= j < |s|
      ensures s[j] != x
    {
      assert l[0] != l[j + 1];
    }
  }

  lemma SweepIdsCons(t: Task, rest: seq<Task>, current: nat, idle: nat, budget: nat)
    requires budget > 0 && Ids([t] + rest) == [t.id] + Ids(rest) && Distinct([t.id] + Ids(rest))
    requires Ids(Sweep(rest, current, idle, budget - 1)) == Remove(Ids(rest), Swept(rest, current, idle, budget - 1))
    ensures Ids(Sweep([t] + rest, current, idle, budget)) ==
            Remove(Ids([t] + rest), Swept([t] + rest, current, idle, budget))
  {
    var gone, swept := Swept(rest, current, idle, budget - 1), Sweep(rest, current, idle, budget - 1);
    var first := if Doomed(t, current, idle) then {t.id} else {};
    SweptCons(t, rest, current, idle, budget);
    FirstIsNew(t.id, Ids(rest));
    SweptAreThere(rest, current, idle, budget - 1, t.id);
    RemoveMore(Ids(rest), gone, first);
    RemoveCons(t.id, Ids(rest), first + gone);
    IdsCons(t, swept);
    assert [] + swept == swept;
  }

  lemma {:induction false} RemoveNothing(s: seq<nat>)
    ensures Remove(s, {}) == s
  {
    if s != [] {
      RemoveNothing(s[1..]);
    }
  }

  lemma {:induction false} SweepKeeps(s: seq<Task>, current: nat, idle: nat, budget: nat)
    ensures forall t :: t in Sweep(s, current, idle, budget) ==> t in s
    ensures |s| <= budget ==> forall t :: t in Sweep(s, current, idle, budget) ==> !Doomed(t, current, idle)
  {
    if s != [] && budget > 0 {
      SweepKeeps(s[1..], current, idle, budget - 1);
      assert s == [s[0]] + s[1..];
    }
  }

  lemma {:induction false} SweepCounts(s: seq<Task>, current: nat, idle: nat, budget: nat)
    ensures Pending(s) == Pending(Sweep(s, current, idle, budget)) + SweepLoss(s, current, idle, budget)
  {
    if s != [] && budget > 0 {
      var swept := Sweep(s[1..], current, idle, budget - 1);
      SweepCounts(s[1..], current, idle, budget - 1);
      assert ([s[0]] + swept)[1..] == swept && [] + swept == swept;
    }
  }

  /** The ids reaped from a state. */
  function Gone(v: State): set<nat>
    requires |v.tasks| > 0
  {
    Swept(v.tasks[1..], v.current, v.idle, REAP_LIMIT)
  }

  lemma GoneAreDead(v: State, id: nat)
    requires Circle(v) && Has(v.tasks, id) && id in Gone(v)
    ensures Position(v.tasks, id) != 0 && Doomed(TaskOf(v, id), v.current, v.idle)
  {
    var rest := v.tasks[1..];
    SweptExactly(rest, v.current, v.idle, REAP_LIMIT, id);
    var i :| 0 <= i < |rest| && i < REAP_LIMIT && rest[i].id == id && Doomed(rest[i], v.current, v.idle);
    TaskIs(v, i + 1);
    PositionAt(v.tasks, i + 1);
  }

  /** Reaping takes out exactly the dead tasks among the 64 after the head that are neither current nor
      idle; the head and all others stay, in their order and with their contents. */
  lemma ReapExact(v: State, id: nat)
    requires Circle(v)
    ensures Ids(Reaped(v).tasks) == Remove(Ids(v.tasks), Gone(v))
    ensures id in Gone(v) <==>
            && Has(v.tasks, id) && 1 <= Position(v.tasks, id) <= 64
            && TaskOf(v, id).state == Dead && id != v.current && id != v.idle
    ensures Distinct(Ids(Reaped(v).tasks))
    ensures Has(v.tasks, id) && id !in Gone(v) ==> Has(Reaped(v).tasks, id) && TaskOf(Reaped(v), id) == TaskOf(v, id)
  {
    var w, rest := Reaped(v), v.tasks[1..];
    var swept := Sweep(rest, v.current, v.idle, REAP_LIMIT);
    SweptIndex(v, id);
    SweepIds(rest, v.current, v.idle, REAP_LIMIT);
    assert Ids(v.tasks)[1..] == Ids(rest);
    IdsAre(w.tasks, [0] + Ids(swept));
    if 0 in Gone(v) {
      GoneAreDead(v, 0);
    }
    RemoveDistinct(Ids(v.tasks), Gone(v));
    if Has(v.tasks, id) && id !in Gone(v) {
      ReapKeeps(v, id);
    }
  }

  lemma SweptIndex(v: State, id: nat)
    requires Circle(v)
    ensures id in Gone(v) <==>
            && Has(v.tasks, id) && 1 <= Position(v.tasks, id) <= 64
            && TaskOf(v, id).state == Dead && id != v.current && id != v.idle
  {
    var rest := v.tasks[1..];
    SweptExactly(rest, v.current, v.idle, REAP_LIMIT, id);
    if id in Gone(v) {
      var i :| 0 <= i < |rest| && i < REAP_LIMIT && rest[i].id == id && Doomed(rest[i], v.current, v.idle);
      TaskIs(v, i + 1);
      PositionAt(v.tasks, i + 1);
    } else if Has(v.tasks, id) && Position(v.tasks, id) >= 1 {
      assert rest[Position(v.tasks, id) - 1] == TaskOf(v, id);
    }
  }

  lemma ReapKeeps(v: State, id: nat)
    requires Circle(v) && Has(v.tasks, id) && id !in Gone(v)
    requires Ids(Reaped(v).tasks) == Remove(Ids(v.tasks), Gone(v))
    ensures Has(Reaped(v).tasks, id) && TaskOf(Reaped(v), id) == TaskOf(v, id)
  {
    RemoveHolds(Ids(v.tasks), Gone(v), id);
    var i := Position(Reaped(v).tasks, id);
    ReapedFrom(v, i);
  }

  /** Every task after reaping was there before, unchanged. */
  lemma ReapedFrom(v: State, i: nat)
    requires |v.tasks| > 0 && Distinct(Ids(v.tasks)) && i < |Reaped(v).tasks|
    ensures Has(v.tasks, Reaped(v).tasks[i].id) && TaskOf(v, Reaped(v).tasks[i].id) == Reaped(v).tasks[i]
  {
    var j := ReapedIndex(v, i);
    TaskIs(v, j);
  }

  lemma ReapedIndex(v: State, i: nat) returns (j: nat)
    requires |v.tasks| > 0 && i < |Reaped(v).tasks|
    ensures j < |v.tasks| && v.tasks[j] == Reaped(v).tasks[i]
  {
    if i == 0 {
      return 0;
    }
    var rest := v.tasks[1..];
    var swept := Sweep(rest, v.current, v.idle, REAP_LIMIT);
    SweepKeeps(rest, v.current, v.idle, REAP_LIMIT);
    var t := Reaped(v).tasks[i];
    assert t == swept[i - 1] && swept[i - 1] in swept;
    assert t in rest;
    var k :| 0 <= k < |rest| && rest[k] == t;
    return k + 1;
  }

  lemma ReapedCircle(v: State)
    requires Circle(v)
    ensures Circle(Reaped(v))
  {
    var w := Reaped(v);
    ReapExact(v, v.current);
    ReapExact(v, v.idle);
    forall i | 0 <= i < |w.tasks|
      ensures w.tasks[i].id < w.nextId
    {
      var j := ReapedIndex(v, i);
    }
  }

  lemma ReapedCounted(v: State)
    requires |v.tasks| > 0 && Counted(v)
    ensures Counted(Reaped(v))
  {
    var w := Reaped(v);
    SweepCounts(v.tasks[1..], v.current, v.idle, REAP_LIMIT);
    assert w.tasks[1..] == Sweep(v.tasks[1..], v.current, v.idle, REAP_LIMIT);
    forall i | 0 <= i < |w.tasks|
      ensures |w.tasks[i].events| <= SIZE - 1
    {
      var j := ReapedIndex(v, i);
    }
  }

  // --- every step ---

  /** One duplicate-free circle with head, current and idle task, exact event accounting, bounded queues:
      kept by every step. */
  lemma StepKeepsInv(v: State, step: Step)
    requires Inv(v) && Enabled(v, step)
    ensures Inv(Apply(v, step))
  {
    var c := Position(v.tasks, v.current);
    var t := v.tasks[c];
    match step
    case Create(outcome) =>
      if outcome == Created {
        CreatedCircle(v);
        CreatedCounted(v);
      }
    case Sleep(until) => UpdateInv(v, c, t.(state := Sleeping, wake := until), Apply(v, step));
    case Exit =>
      if v.current != 0 {
        UpdateInv(v, c, t.(state := Dead), Apply(v, step));
      }
    case Push(target, event) =>
      if Has(v.tasks, target) && |TaskOf(v, target).events| < SIZE - 1 {
        UpdateInv(v, Position(v.tasks, target), Receive(TaskOf(v, target), event), Apply(v, step));
      }
    case Pop =>
      if t.events != [] {
        UpdateInv(v, c, t.(events := t.events[1..]), Apply(v, step));
      }
    case Schedule(now) =>
      SwitchedCircle(v, now);
      SwitchedCounted(v, now);
      ReapedCircle(Switched(v, now));
      ReapedCounted(Switched(v, now));
  }

  /** What a step makes of one task, unless it is reaped. */
  function Evolved(v: State, step: Step, t: Task): Task
    requires Rooted(v)
  {
    match step
    case Create(_) => t
    case Sleep(until) => if t.id == v.current then t.(state := Sleeping, wake := until) else t
    case Exit => if t.id == v.current && t.id != 0 then t.(state := Dead) else t
    case Push(target, event) => if t.id == target && |t.events| < SIZE - 1 then Receive(t, event) else t
    case Pop => if t.id == v.current && t.events != [] then t.(events := t.events[1..]) else t
    case Schedule(now) => if t.id == Chosen(v, now) then t.(state := Running) else t
  }

  lemma UpdatedFrom(v: State, id: nat, t: Task, i: nat)
    requires Distinct(Ids(v.tasks)) && Has(v.tasks, id) && i < |v.tasks| && t.id == id
    ensures var u := Update(v, id, t).tasks[i];
            Has(v.tasks, u.id) && u == if u.id == id then t else TaskOf(v, u.id)
  {
    TaskIs(v, i);
    PositionAt(v.tasks, i);
  }

  lemma PushedFrom(v: State, target: nat, event: OSEvent, i: nat)
    requires Circle(v) && i < |v.tasks|
    ensures |AfterPush(v, target, event).tasks| == |v.tasks|
    ensures var t := AfterPush(v, target, event).tasks[i];
            Has(v.tasks, t.id) && t == Evolved(v, Push(target, event), TaskOf(v, t.id))
  {
    TaskIs(v, i);
    if Has(v.tasks, target) {
      UpdatedFrom(v, target, Receive(TaskOf(v, target), event), i);
    }
  }

  lemma PoppedFrom(v: State, i: nat)
    requires Circle(v) && i < |v.tasks|
    ensures |AfterPop(v).tasks| == |v.tasks|
    ensures var t := AfterPop(v).tasks[i];
            Has(v.tasks, t.id) && t == Evolved(v, Pop, TaskOf(v, t.id))
  {
    var t := TaskOf(v, v.current);
    TaskIs(v, i);
    if t.events != [] {
      UpdatedFrom(v, v.current, t.(events := t.events[1..]), i);
    }
  }

  /** Every task after a step is either the one just created or an old one, changed as Evolved says. */
  lemma StepTasks(v: State, step: Step, i: nat)
    requires Circle(v) && i < |Apply(v, step).tasks|
    ensures var t := Apply(v, step).tasks[i];
            || (step == Create(Created) && t == Task(v.nextId, Ready, 0, []))
            || (Has(v.tasks, t.id) && t == Evolved(v, step, TaskOf(v, t.id)))
  {
    match step
    case Create(outcome) => CreatedFrom(v, step, i);
    case Sleep(until) => UpdatedFrom(v, v.current, TaskOf(v, v.current).(state := Sleeping, wake := until), i);
    case Exit =>
      UpdatedFrom(v, v.current, TaskOf(v, v.current), i);
      UpdatedFrom(v, v.current, TaskOf(v, v.current).(state := Dead), i);
    case Push(target, event) => PushedFrom(v, target, event, i);
    case Pop => PoppedFrom(v, i);
    case Schedule(now) => ScheduledFrom(v, now, i);
  }

  lemma ScheduledFrom(v: State, now: nat, i: nat)
    requires Circle(v) && i < |Reaped(Switched(v, now)).tasks|
    ensures var t := Reaped(Switched(v, now)).tasks[i];
            Has(v.tasks, t.id) && t == Evolved(v, Schedule(now), TaskOf(v, t.id))
  {
    var u, chosen := Switched(v, now), Chosen(v, now);
    SwitchedCircle(v, now);
    ReapedFrom(u, i);
    UpdatedFrom(v, chosen, TaskOf(v, chosen).(state := Running), Position(u.tasks, Reaped(u).tasks[i].id));
  }

  lemma CreatedFrom(v: State, step: Step, i: nat)
    requires Circle(v) && step.Create? && i < |Apply(v, step).tasks|
    ensures var t := Apply(v, step).tasks[i];
            || (step.outcome == Created && t == Task(v.nextId, Ready, 0, []))
            || (Has(v.tasks, t.id) && t == TaskOf(v, t.id))
  {
    if step.outcome != Created {
      TaskIs(v, i);
    } else if i != 1 {
      TaskIs(v, if i == 0 then 0 else i - 1);
    }
  }

  // --- over whole runs ---

  /** A run: the states it goes through and the steps between them. */
  datatype History = History(states: seq<State>, steps: seq<Step>)

  /** Step i leads from state i to state i + 1. */
  ghost predicate Follows(h: History, i: int)
  {
    && 0 <= i < |h.steps| && |h.states| == |h.steps| + 1
    && Rooted(h.states[i]) && Enabled(h.states[i], h.steps[i])
    && h.states[i + 1] == Apply(h.states[i], h.steps[i])
  }

  ghost predicate IsRun(h: History)
  {
    && |h.states| == |h.steps| + 1 && Inv(h.states[0])
    && forall i :: 0 <= i < |h.steps| ==> Follows(h, i)
  }

  /** The invariant holds in every state of a run. */
  lemma {:induction false} RunKeepsInv(h: History, i: nat)
    requires IsRun(h) && i <= |h.steps|
    ensures Inv(h.states[i])
  {
    if i > 0 {
      RunKeepsInv(h, i - 1);
      assert Follows(h, i - 1);
      StepKeepsInv(h.states[i - 1], h.steps[i - 1]);
    }
  }

  /** Step i of a run is a Schedule call that switches to the task. */
  predicate SwitchesTo(h: History, i: nat, id: nat)
    requires i < |h.steps| && |h.states| == |h.steps| + 1
  {
    h.steps[i].Schedule? && h.states[i + 1].current == id
  }

  /** A task that was created once and is now dead or reaped. */
  ghost predicate Finished(v: State, id: nat)
  {
    id < v.nextId && forall i :: 0 <= i < |v.tasks| && v.tasks[i].id == id ==> v.tasks[i].state == Dead
  }

  lemma FinishedStep(v: State, step: Step, id: nat)
    requires Circle(v) && Enabled(v, step) && Finished(v, id)
    ensures Finished(Apply(v, step), id)
    ensures step.Schedule? ==> Apply(v, step).current != id
  {
    var w := Apply(v, step);
    if step.Schedule? {
      ChosenRunnable(v, step.now);
    }
    forall i | 0 <= i < |w.tasks| && w.tasks[i].id == id
      ensures w.tasks[i].state == Dead
    {
      StepTasks(v, step, i);
    }
  }

  lemma FinishedNext(h: History, id: nat, k: nat)
    requires IsRun(h) && k < |h.steps| && Finished(h.states[k], id)
    ensures Finished(h.states[k + 1], id) && !SwitchesTo(h, k, id)
  {
    RunKeepsInv(h, k);
    assert Follows(h, k);
    FinishedStep(h.states[k], h.steps[k], id);
  }

  /** In every run a dead task stays dead until it is reaped, is never switched to, and its id never
      comes back. */
  lemma {:induction false} DeadForever(h: History, id: nat, i: nat, j: nat)
    requires IsRun(h) && i <= j <= |h.steps| && Finished(h.states[i], id)
    ensures Finished(h.states[j], id)
    ensures i < j ==> !SwitchesTo(h, j - 1, id)
    decreases j - i
  {
    if i < j {
      DeadForever(h, id, i, j - 1);
      FinishedNext(h, id, j - 1);
    }
  }

  ghost predicate Asleep(v: State, id: nat, wake: nat)
  {
    && id < v.nextId
    && forall i :: 0 <= i < |v.tasks| && v.tasks[i].id == id ==> v.tasks[i].state == Sleeping && v.tasks[i].wake == wake
  }

  /** What may end a sleep: an event that is queued, or a Schedule call at or after the wake time. A push
      that a full queue refuses does not. */
  predicate Wakes(v: State, step: Step, id: nat, wake: nat)
  {
    match step
    case Push(target, _) => target == id && Has(v.tasks, id) && |TaskOf(v, id).events| < SIZE - 1
    case Schedule(now) => now >= wake
    case _ => false
  }

  lemma AsleepStep(v: State, step: Step, id: nat, wake: nat)
    requires Circle(v) && Enabled(v, step) && Asleep(v, id, wake) && !Wakes(v, step, id, wake)
    ensures Asleep(Apply(v, step), id, wake)
    ensures step.Schedule? ==> Apply(v, step).current != id
  {
    var w := Apply(v, step);
    if step.Schedule? {
      ChosenRunnable(v, step.now);
    }
    forall i | 0 <= i < |w.tasks| && w.tasks[i].id == id
      ensures w.tasks[i].state == Sleeping && w.tasks[i].wake == wake
    {
      StepTasks(v, step, i);
    }
  }

  lemma AsleepNext(h: History, id: nat, wake: nat, k: nat)
    requires IsRun(h) && k < |h.steps| && Asleep(h.states[k], id, wake)
    requires !Wakes(h.states[k], h.steps[k], id, wake)
    ensures Asleep(h.states[k + 1], id, wake) && !SwitchesTo(h, k, id)
  {
    RunKeepsInv(h, k);
    assert Follows(h, k);
    AsleepStep(h.states[k], h.steps[k], id, wake);
  }

  /** In every run a sleeper is not selected before its wake time unless an event was queued for it. */
  lemma {:induction false} SleepsUntilWoken(h: History, id: nat, wake: nat, i: nat, j: nat)
    requires IsRun(h) && i <= j <= |h.steps| && Asleep(h.states[i], id, wake)
    requires forall k :: i <= k < j ==> !Wakes(h.states[k], h.steps[k], id, wake)
    ensures Asleep(h.states[j], id, wake)
    ensures i < j ==> !SwitchesTo(h, j - 1, id)
    decreases j - i
  {
    if i < j {
      SleepsUntilWoken(h, id, wake, i, j - 1);
      AsleepNext(h, id, wake, j - 1);
    }
  }

  /** With at most 64 tasks besides the head, Schedule leaves no dead task behind. */
  lemma NoDeadLeft(v: State, now: nat)
    requires Inv(v) && |v.tasks| <= 65
    ensures forall i :: 0 <= i < |Apply(v, Schedule(now)).tasks| ==> Apply(v, Schedule(now)).tasks[i].state != Dead
  {
    SwitchedCircle(v, now);
    forall i | 0 <= i < |Reaped(Switched(v, now)).tasks|
      ensures Reaped(Switched(v, now)).tasks[i].state != Dead
    {
      NoneDeadAt(Switched(v, now), i);
    }
  }

  lemma NoneDeadAt(u: State, i: nat)
    requires Circle(u) && |u.tasks| <= REAP_LIMIT + 1 && i < |Reaped(u).tasks|
    requires TaskOf(u, u.current).state == Running
    ensures Reaped(u).tasks[i].state != Dead
  {
    SweepKeeps(u.tasks[1..], u.current, u.idle, REAP_LIMIT);
    ReapedFrom(u, i);
    if i > 0 {
      assert Reaped(u).tasks[i] in Sweep(u.tasks[1..], u.current, u.idle, REAP_LIMIT);
    }
  }

  // --- fairness ---

  /** How many tasks Schedule would look at before this one. */
  function Distance(v: State, id: nat): nat
    requires Circle(v)
  {
    IndexOf(After(Ids(v.tasks), v.current), id)
  }

  lemma OrderIds(s: seq<Task>, id: nat)
    requires Has(s, id)
    ensures After(Ids(s), id) == Ids(Order(s, Position(s, id)))
  {
    IdsAre(Order(s, Position(s, id)), After(Ids(s), id));
  }

  lemma DistanceBound(v: State, id: nat)
    requires Circle(v) && Has(v.tasks, id)
    ensures Distance(v, id) < |v.tasks|
  {
    AfterHolds(Ids(v.tasks), v.current, id);
  }

  lemma DistanceInOrder(v: State, id: nat)
    requires Circle(v) && Has(v.tasks, id)
    ensures Distance(v, id) < |v.tasks|
    ensures Order(v.tasks, Position(v.tasks, v.current))[Distance(v, id)] == TaskOf(v, id)
  {
    var c := Position(v.tasks, v.current);
    OrderIds(v.tasks, v.current);
    AfterHolds(Ids(v.tasks), v.current, id);
    OrderTask(v, c, Distance(v, id));
  }

  /** A runnable task is chosen or something before it is. */
  lemma ChosenBefore(v: State, now: nat, id: nat) returns (k: nat)
    requires Circle(v) && Has(v.tasks, id) && Runnable(TaskOf(v, id), now)
    ensures k <= Distance(v, id) < |v.tasks|
    ensures |After(Ids(v.tasks), v.current)| == |v.tasks| && Chosen(v, now) == After(Ids(v.tasks), v.current)[k]
    ensures After(Ids(v.tasks), v.current)[Distance(v, id)] == id
  {
    ChosenIsFirst(v, now);
    DistanceInOrder(v, id);
    OrderIds(v.tasks, v.current);
    k := FirstRunnable(Order(v.tasks, Position(v.tasks, v.current)), now);
  }

  lemma SwitchedCloser(v: State, now: nat, id: nat)
    requires Circle(v) && Has(v.tasks, id) && Runnable(TaskOf(v, id), now)
    ensures Circle(Switched(v, now)) && Ids(Switched(v, now).tasks) == Ids(v.tasks)
    ensures Switched(v, now).current == id || Distance(Switched(v, now), id) < Distance(v, id)
  {
    SwitchedCircle(v, now);
    var k := ChosenBefore(v, now, id);
    if k < Distance(v, id) {
      TurnCloser(Ids(v.tasks), v.current, k, id);
    }
  }

  /** A runnable task is chosen or comes closer, whatever is reaped on the way. */
  lemma Closer(v: State, now: nat, id: nat)
    requires Circle(v) && Has(v.tasks, id) && Runnable(TaskOf(v, id), now)
    ensures Circle(Reaped(Switched(v, now)))
    ensures var w := Reaped(Switched(v, now));
            w.current == id || (Has(w.tasks, id) && Distance(w, id) < Distance(v, id))
  {
    SwitchedCloser(v, now, id);
    Spared(v, now, id);
    ReapedCloser(Switched(v, now), id);
  }

  lemma Spared(v: State, now: nat, id: nat)
    requires Circle(v) && Has(v.tasks, id) && Runnable(TaskOf(v, id), now)
    requires Circle(Switched(v, now)) && Ids(Switched(v, now).tasks) == Ids(v.tasks)
    ensures Has(Switched(v, now).tasks, id) && id !in Gone(Switched(v, now))
  {
    var u := Switched(v, now);
    if id in Gone(u) {
      GoneAreDead(u, id);
    }
  }

  lemma ReapedCloser(u: State, id: nat)
    requires Circle(u) && Has(u.tasks, id) && id !in Gone(u)
    ensures Circle(Reaped(u)) && Has(Reaped(u).tasks, id) && Distance(Reaped(u), id) <= Distance(u, id)
  {
    var ids := Ids(u.tasks);
    ReapedCircle(u);
    ReapExact(u, u.current);
    ReapExact(u, id);
    RemoveAfter(ids, Gone(u), u.current);
    AfterHolds(ids, u.current, id);
    RemoveCloser(After(ids, u.current), Gone(u), id);
  }

  /** How many Schedule calls a run has from step i on. */
  function Schedules(steps: seq<Step>, i: nat): nat
    decreases |steps| - i
  {
    if i >= |steps| then 0 else (if steps[i].Schedule? then 1 else 0) + Schedules(steps, i + 1)
  }

  /** The step creates no task, and if it is a Schedule call the task is ready, running, or has slept long
      enough. */
  predicate LetsRun(v: State, step: Step, id: nat)
  {
    && !step.Create?
    && (step.Schedule? ==>
          && Has(v.tasks, id)
          && var t := TaskOf(v, id);
             t.state == Ready || t.state == Running || (t.state == Sleeping && t.wake <= step.now))
  }

  lemma OtherStep(v: State, step: Step)
    requires Circle(v) && Enabled(v, step) && !step.Create? && !step.Schedule?
    ensures Ids(Apply(v, step).tasks) == Ids(v.tasks) && Apply(v, step).current == v.current
  {
    IdsAre(Apply(v, step).tasks, Ids(v.tasks));
  }

  lemma StepCloser(v: State, step: Step, id: nat)
    requires Inv(v) && Enabled(v, step) && Has(v.tasks, id) && LetsRun(v, step, id)
    ensures Inv(Apply(v, step))
    ensures var w := Apply(v, step);
            || (step.Schedule? && w.current == id)
            || (Has(w.tasks, id) && Distance(w, id) + (if step.Schedule? then 1 else 0) <= Distance(v, id))
  {
    StepKeepsInv(v, step);
    if step.Schedule? {
      Closer(v, step.now, id);
    } else {
      OtherStep(v, step);
    }
  }

  /** Round robin is fair: a task that stays runnable is switched to before the number of Schedule calls
      exceeds its distance. */
  lemma {:induction false} Fair(h: History, id: nat, i: nat) returns (k: nat)
    requires IsRun(h) && i <= |h.steps| && Inv(h.states[i]) && Has(h.states[i].tasks, id)
    requires forall j :: i <= j < |h.steps| ==> LetsRun(h.states[j], h.steps[j], id)
    requires Schedules(h.steps, i) > Distance(h.states[i], id)
    ensures i <= k < |h.steps| && SwitchesTo(h, k, id)
    decreases |h.steps| - i
  {
    assert Follows(h, i);
    StepCloser(h.states[i], h.steps[i], id);
    if SwitchesTo(h, i, id) {
      k := i;
    } else {
      k := Fair(h, id, i + 1);
    }
  }

  /** Hence within as many Schedule calls as there are tasks. */
  lemma FairWithinCircle(h: History, id: nat, i: nat) returns (k: nat)
    requires IsRun(h) && i <= |h.steps| && Has(h.states[i].tasks, id)
    requires forall j :: i <= j < |h.steps| ==> LetsRun(h.states[j], h.steps[j], id)
    requires Schedules(h.steps, i) >= |h.states[i].tasks|
    ensures i <= k < |h.steps| && SwitchesTo(h, k, id)
  {
    RunKeepsInv(h, i);
    DistanceBound(h.states[i], id);
    k := Fair(h, id, i);
  }

  // --- fairness from the task's state alone ---

  /** A task other than the current one that is ready, running, or asleep up to `due` at the latest. */
  predicate Waiting(v: State, id: nat, due: nat)
  {
    && Has(v.tasks, id) && v.current != id
    && var t := TaskOf(v, id);
       t.state == Ready || t.state == Running || (t.state == Sleeping && t.wake <= due)
  }

  /** The step creates no task, and its clock is not before `due`. */
  predicate NotBefore(step: Step, due: nat) { !step.Create? && (step.Schedule? ==> step.now >= due) }

  /** Nothing but being switched to ends that: only the current task puts itself to sleep or exits. */
  lemma WaitingStep(v: State, step: Step, id: nat, due: nat)
    requires Inv(v) && Enabled(v, step) && Waiting(v, id, due) && NotBefore(step, due)
    ensures Inv(Apply(v, step))
    ensures var w := Apply(v, step);
            || (step.Schedule? && w.current == id)
            || (Waiting(w, id, due) && Distance(w, id) + (if step.Schedule? then 1 else 0) <= Distance(v, id))
  {
    var w := Apply(v, step);
    StepCloser(v, step, id);
    if !(step.Schedule? && w.current == id) {
      StepTasks(v, step, Position(w.tasks, id));
    }
  }

  lemma {:induction false} WaitingRuns(h: History, id: nat, due: nat, i: nat) returns (k: nat)
    requires IsRun(h) && i <= |h.steps| && Inv(h.states[i]) && Waiting(h.states[i], id, due)
    requires forall j :: i <= j < |h.steps| ==> NotBefore(h.steps[j], due)
    requires Schedules(h.steps, i) > Distance(h.states[i], id)
    ensures i <= k < |h.steps| && SwitchesTo(h, k, id)
    decreases |h.steps| - i
  {
    assert Follows(h, i);
    WaitingStep(h.states[i], h.steps[i], id, due);
    if SwitchesTo(h, i, id) {
      k := i;
    } else {
      k := WaitingRuns(h, id, due, i + 1);
    }
  }

  /** A task that is ready, or asleep until `due` at the latest, is switched to within as many Schedule
      calls from `due` on as there are tasks. */
  lemma SleepEnds(h: History, id: nat, due: nat, i: nat) returns (k: nat)
    requires IsRun(h) && i <= |h.steps| && Waiting(h.states[i], id, due)
    requires forall j :: i <= j < |h.steps| ==> NotBefore(h.steps[j], due)
    requires Schedules(h.steps, i) >= |h.states[i].tasks|
    ensures i <= k < |h.steps| && SwitchesTo(h, k, id)
  {
    RunKeepsInv(h, i);
    DistanceBound(h.states[i], id);
    k := WaitingRuns(h, id, due, i);
  }

  /** An event is queued at the back unless 127 are waiting, and ends the task's sleep. */
  lemma PushWakes(v: State, id: nat, event: OSEvent)
    requires Circle(v) && Has(v.tasks, id)
    ensures var t, w := TaskOf(v, id), Apply(v, Push(id, event));
            if |t.events| >= 127 then w.tasks == v.tasks
            else
              && Has(w.tasks, id) && w.current == v.current && TaskOf(w, id).events == t.events + [event]
              && TaskOf(w, id).state == (if t.state == Sleeping then Ready else t.state)
  {
    if |TaskOf(v, id).events| < SIZE - 1 {
      UpdateIds(v.tasks, Position(v.tasks, id), Receive(TaskOf(v, id), event));
    }
  }

  /** So a task that an event was queued for is switched to within as many Schedule calls as there are
      tasks, however long it meant to sleep. */
  lemma EventEndsSleep(h: History, id: nat, i: nat) returns (k: nat)
    requires IsRun(h) && i < |h.steps| && h.steps[i].Push? && h.steps[i].target == id
    requires Has(h.states[i].tasks, id) && h.states[i].current != id
    requires TaskOf(h.states[i], id).state != Dead && |TaskOf(h.states[i], id).events| < 127
    requires forall j :: i < j < |h.steps| ==> !h.steps[j].Create?
    requires Schedules(h.steps, i + 1) >= |h.states[i + 1].tasks|
    ensures i < k < |h.steps| && SwitchesTo(h, k, id)
  {
    RunKeepsInv(h, i);
    assert Follows(h, i);
    PushWakes(h.states[i], id, h.steps[i].event);
    k := SleepEnds(h, id, 0, i + 1);
  }
}
