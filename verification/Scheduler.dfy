/** kernel/process/scheduler.cpp with its tasks linked through pointers. `tasks` is the kernel memory that
    holds Task records, by address; freeing a task removes its address. Each operation is proved to do on
    the linked circle what TaskRing.Apply does on the sequence of tasks. */
module Scheduler {
  import opened EventQueue
  import opened Rotation
  import opened TaskRing

  const TICKS: nat := 0x1_0000_0000_0000_0000

  type Addr = nat

  datatype Node = Node(id: nat, state: TaskState, wake: nat, queue: Queue, next: Addr)

  function Abs(n: Node): Task
    requires Valid(n.queue)
  {
    Task(n.id, n.state, n.wake, Contents(n.queue))
  }

  function Succ(n: nat, i: nat): nat { if i + 1 < n then i + 1 else 0 }

  predicate Next(m: map<Addr, Node>, ring: seq<Addr>, i: int)
  {
    0 <= i < |ring| && ring[i] in m && m[ring[i]].next == ring[Succ(|ring|, i)]
  }

  /** The addresses in `ring` form one circle, and no other task is in memory. */
  ghost predicate Linked(m: map<Addr, Node>, ring: seq<Addr>)
  {
    && |ring| > 0
    && Distinct(ring)
    && (forall i :: 0 <= i < |ring| ==> ring[i] in m && Valid(m[ring[i]].queue))
    && (forall i :: 0 <= i < |ring| ==> Next(m, ring, i))
    && |m| == |ring|
  }

  ghost function View(m: map<Addr, Node>, ring: seq<Addr>): (s: seq<Task>)
    requires Linked(m, ring)
    ensures |s| == |ring|
    ensures forall i :: 0 <= i < |ring| ==> s[i] == Abs(m[ring[i]])
  {
    seq(|ring|, i requires 0 <= i < |ring| => Abs(m[ring[i]]))
  }

  lemma ViewIs(m: map<Addr, Node>, ring: seq<Addr>, s: seq<Task>)
    requires Linked(m, ring) && |s| == |ring| && forall i :: 0 <= i < |s| ==> s[i] == Abs(m[ring[i]])
    ensures View(m, ring) == s
  {
  }

  /** Changing a record but not its link changes that one task. */
  lemma SetNode(m: map<Addr, Node>, ring: seq<Addr>, i: nat, n: Node)
    requires Linked(m, ring) && i < |ring| && n.next == m[ring[i]].next && Valid(n.queue)
    ensures Linked(m[ring[i] := n], ring)
    ensures View(m[ring[i] := n], ring) == View(m, ring)[i := Abs(n)]
  {
    var m' := m[ring[i] := n];
    forall j | 0 <= j < |ring|
      ensures Next(m', ring, j)
    {
      assert Next(m, ring, j);
    }
  }

  function Inserted(m: map<Addr, Node>, head: Addr, a: Addr, n: Node): map<Addr, Node>
    requires head in m
  {
    m[a := n][head := m[head].(next := a)]
  }

  function Behind<T>(s: seq<T>, x: T): seq<T>
    requires |s| > 0
  {
    [s[0], x] + s[1..]
  }

  lemma InsertedAt(m: map<Addr, Node>, ring: seq<Addr>, a: Addr, n: Node, j: nat)
    requires Linked(m, ring) && a !in m && n.next == m[ring[0]].next && Valid(n.queue) && j <= |ring|
    ensures var m', r' := Inserted(m, ring[0], a, n), Behind(ring, a);
            && Next(m', r', j) && Valid(m'[r'[j]].queue)
            && Abs(m'[r'[j]]) == Behind(View(m, ring), Abs(n))[j]
  {
    assert Next(m, ring, 0);
    if j >= 2 {
      assert Next(m, ring, j - 1);
    }
  }

  lemma BehindHolds(ring: seq<Addr>, a: Addr)
    requires |ring| > 0 && Distinct(ring) && a !in ring
    ensures Distinct(Behind(ring, a))
  {
  }

  /** Linking a new record in behind the head. */
  lemma Insert(m: map<Addr, Node>, ring: seq<Addr>, a: Addr, n: Node)
    requires Linked(m, ring) && a !in m && n.next == m[ring[0]].next && Valid(n.queue)
    ensures var m', r' := Inserted(m, ring[0], a, n), Behind(ring, a);
            Linked(m', r') && View(m', r') == Behind(View(m, ring), Abs(n))
  {
    var m', r' := Inserted(m, ring[0], a, n), Behind(ring, a);
    var s := Behind(View(m, ring), Abs(n));
    BehindHolds(ring, a);
    forall j | 0 <= j < |r'|
      ensures Next(m', r', j) && Valid(m'[r'[j]].queue) && Abs(m'[r'[j]]) == s[j]
    {
      InsertedAt(m, ring, a, n, j);
    }
    ViewIs(m', r', s);
  }

  function Unlinked(m: map<Addr, Node>, prev: Addr, curr: Addr): map<Addr, Node>
    requires prev in m && curr in m
  {
    m[prev := m[prev].(next := m[curr].next)] - {curr}
  }

  function Without<T>(s: seq<T>, i: nat): seq<T>
    requires i < |s|
  {
    s[..i] + s[i + 1..]
  }

  lemma UnlinkedAt(m: map<Addr, Node>, ring: seq<Addr>, i: nat, j: nat)
    requires Linked(m, ring) && 0 < i < |ring| && j < |ring| - 1
    ensures var m', r' := Unlinked(m, ring[i - 1], ring[i]), Without(ring, i);
            && Next(m', r', j) && Valid(m'[r'[j]].queue) && Abs(m'[r'[j]]) == Without(View(m, ring), i)[j]
  {
    assert Next(m, ring, i);
    assert Next(m, ring, if j < i then j else j + 1);
  }

  lemma WithoutHolds(ring: seq<Addr>, i: nat)
    requires i < |ring| && Distinct(ring)
    ensures Distinct(Without(ring, i))
  {
  }

  /** Taking a record out of the circle. */
  lemma Unlink(m: map<Addr, Node>, ring: seq<Addr>, i: nat)
    requires Linked(m, ring) && 0 < i < |ring|
    ensures var m', r' := Unlinked(m, ring[i - 1], ring[i]), Without(ring, i);
            Linked(m', r') && View(m', r') == Without(View(m, ring), i)
  {
    var m', r' := Unlinked(m, ring[i - 1], ring[i]), Without(ring, i);
    var s := Without(View(m, ring), i);
    WithoutHolds(ring, i);
    forall j | 0 <= j < |r'|
      ensures Next(m', r', j) && Valid(m'[r'[j]].queue) && Abs(m'[r'[j]]) == s[j]
    {
      UnlinkedAt(m, ring, i, j);
    }
    ViewIs(m', r', s);
  }

  /** A task's place in the circle is found by its address or by its id alike. */
  lemma Locate(m: map<Addr, Node>, ring: seq<Addr>, a: Addr) returns (i: nat)
    requires Linked(m, ring) && Distinct(Ids(View(m, ring))) && a in ring
    ensures i < |ring| && ring[i] == a && Position(View(m, ring), m[a].id) == i
  {
    i := IndexOf(ring, a);
    PositionAt(View(m, ring), i);
  }

  lemma SetRecord(m: map<Addr, Node>, ring: seq<Addr>, a: Addr, n: Node)
    requires Linked(m, ring) && Distinct(Ids(View(m, ring))) && a in ring
    requires n.id == m[a].id && n.next == m[a].next && Valid(n.queue)
    ensures Linked(m[a := n], ring) && Has(View(m, ring), n.id)
    ensures View(m[a := n], ring) == View(m, ring)[Position(View(m, ring), n.id) := Abs(n)]
    ensures Ids(View(m[a := n], ring)) == Ids(View(m, ring))
  {
    var i := Locate(m, ring, a);
    SetNode(m, ring, i, n);
    UpdateIds(View(m, ring), i, Abs(n));
  }

  /** Everything the scheduler keeps, as one value; ring and lost are bookkeeping for the proof. */
  datatype Memory = Memory(
    tasks: map<Addr, Node>,
    head: Addr,
    current: Addr,
    idle: Addr,
    nextId: nat,
    pushes: nat,
    pops: nat,
    drops: nat,
    ring: seq<Addr>,
    lost: nat
  )

  ghost predicate Wired(x: Memory)
  {
    && Linked(x.tasks, x.ring) && x.ring[0] == x.head && x.current in x.ring && x.idle in x.ring
    && Distinct(Ids(View(x.tasks, x.ring)))
    && forall i :: 0 <= i < |x.ring| ==> x.tasks[x.ring[i]].id < x.nextId
  }

  /** The state of TaskRing that a memory stands for. */
  ghost function StateOf(x: Memory): (v: State)
    requires Wired(x)
    ensures Rooted(v)
  {
    HasAt(View(x.tasks, x.ring), IndexOf(x.ring, x.current));
    HasAt(View(x.tasks, x.ring), IndexOf(x.ring, x.idle));
    State(View(x.tasks, x.ring), x.tasks[x.current].id, x.tasks[x.idle].id, x.nextId, x.pushes, x.pops, x.drops, x.lost)
  }

  lemma Recount(x: Memory, pushes: nat, pops: nat, drops: nat, more: nat)
    requires Wired(x)
    ensures var y := x.(pushes := pushes, pops := pops, drops := drops, nextId := x.nextId + more);
            && Wired(y)
            && StateOf(y) == StateOf(x).(pushes := pushes, pops := pops, drops := drops, nextId := x.nextId + more)
  {
  }

  /** Writing one record. */
  lemma WriteRecord(x: Memory, a: Addr, n: Node)
    requires Wired(x) && a in x.ring && n.id == x.tasks[a].id && n.next == x.tasks[a].next && Valid(n.queue)
    ensures Wired(x.(tasks := x.tasks[a := n])) && Has(StateOf(x).tasks, n.id)
    ensures StateOf(x.(tasks := x.tasks[a := n])) == Update(StateOf(x), n.id, Abs(n))
  {
    SetRecord(x.tasks, x.ring, a, n);
  }

  lemma RecordOf(x: Memory, a: Addr)
    requires Wired(x) && a in x.ring
    ensures Has(StateOf(x).tasks, x.tasks[a].id) && TaskOf(StateOf(x), x.tasks[a].id) == Abs(x.tasks[a])
  {
    var i := Locate(x.tasks, x.ring, a);
  }

  function PushedNode(n: Node, event: OSEvent): Node
    requires Valid(n.queue)
  {
    n.(queue := Pushed(n.queue, event), state := if n.state == Sleeping then Ready else n.state)
  }

  ghost function PushMemory(x: Memory, t: Addr, event: OSEvent): Memory
    requires t in x.tasks && Valid(x.tasks[t].queue)
  {
    if Full(x.tasks[t].queue) then x.(drops := x.drops + 1)
    else x.(tasks := x.tasks[t := PushedNode(x.tasks[t], event)], pushes := x.pushes + 1)
  }

  /** y is what is left of x by a push that does what AfterPush says. */
  ghost predicate PushIsRight(x: Memory, t: Addr, event: OSEvent, y: Memory)
    requires Wired(x) && t in x.ring
  {
    Wired(y) && StateOf(y) == AfterPush(StateOf(x), x.tasks[t].id, event)
  }

  lemma PushRefused(x: Memory, t: Addr, event: OSEvent, y: Memory)
    requires Wired(x) && t in x.ring && Full(x.tasks[t].queue) && y == x.(drops := x.drops + 1)
    ensures PushIsRight(x, t, event, y)
  {
    Recount(x, x.pushes, x.pops, x.drops + 1, 0);
    RecordOf(x, t);
    Capacity(x.tasks[t].queue);
  }

  lemma NodePushed(n: Node, event: OSEvent)
    requires Valid(n.queue) && !Full(n.queue)
    ensures Valid(PushedNode(n, event).queue) && Abs(PushedNode(n, event)) == Receive(Abs(n), event)
    ensures |Abs(n).events| < SIZE - 1
  {
    Capacity(n.queue);
    PushAppends(n.queue, event);
  }

  lemma PushedState(v: State, id: nat, event: OSEvent)
    requires Has(v.tasks, id) && |TaskOf(v, id).events| < SIZE - 1
    ensures AfterPush(v, id, event) == Update(v, id, Receive(TaskOf(v, id), event)).(pushes := v.pushes + 1)
  {
  }

  lemma PushRefines(x: Memory, t: Addr, event: OSEvent, y: Memory)
    requires Wired(x) && t in x.ring && !Full(x.tasks[t].queue)
    requires y == x.(tasks := x.tasks[t := PushedNode(x.tasks[t], event)], pushes := x.pushes + 1)
    ensures PushIsRight(x, t, event, y)
  {
    var n := x.tasks[t];
    RecordOf(x, t);
    NodePushed(n, event);
    PushedState(StateOf(x), n.id, event);
    WriteRecord(x, t, PushedNode(n, event));
    Recount(x.(tasks := x.tasks[t := PushedNode(n, event)]), x.pushes + 1, x.pops, x.drops, 0);
  }

  lemma EnqueueRefines(x: Memory, t: Addr, event: OSEvent)
    requires Wired(x) && t in x.ring
    ensures t in x.tasks && Valid(x.tasks[t].queue)
    ensures PushIsRight(x, t, event, PushMemory(x, t, event))
  {
    if Full(x.tasks[t].queue) {
      PushRefused(x, t, event, PushMemory(x, t, event));
    } else {
      PushRefines(x, t, event, PushMemory(x, t, event));
    }
  }

  lemma PopRefines(x: Memory)
    requires Wired(x) && !Empty(x.tasks[x.current].queue)
    ensures var n := x.tasks[x.current];
            var y := x.(tasks := x.tasks[x.current := n.(queue := Popped(n.queue))], pops := x.pops + 1);
            Wired(y) && StateOf(y) == AfterPop(StateOf(x))
  {
    var n := x.tasks[x.current];
    RecordOf(x, x.current);
    Capacity(n.queue);
    PopRemoves(n.queue);
    WriteRecord(x, x.current, n.(queue := Popped(n.queue)));
    Recount(x.(tasks := x.tasks[x.current := n.(queue := Popped(n.queue))]), x.pushes, x.pops + 1, x.drops, 0);
    assert Contents(Popped(n.queue)) == Contents(n.queue)[1..];
  }

  ghost function PopMemory(x: Memory): Memory
    requires x.current in x.tasks
  {
    var n := x.tasks[x.current];
    if Empty(n.queue) then x
    else x.(tasks := x.tasks[x.current := n.(queue := Popped(n.queue))], pops := x.pops + 1)
  }

  lemma DequeueRefines(x: Memory)
    requires Wired(x)
    ensures x.current in x.tasks && Valid(x.tasks[x.current].queue)
    ensures Wired(PopMemory(x)) && StateOf(PopMemory(x)) == AfterPop(StateOf(x))
    ensures TaskOf(StateOf(x), StateOf(x).current).events == Contents(x.tasks[x.current].queue)
  {
    RecordOf(x, x.current);
    Capacity(x.tasks[x.current].queue);
    if !Empty(x.tasks[x.current].queue) {
      PopRefines(x);
    }
  }

  function Zeroed(): Queue { Queue(seq(SIZE, _ => OSEvent(0, 0, 0, 0, 0, 0)), 0, 0) }

  /** A new task's record, ready to be linked in behind the head. */
  predicate Newborn(x: Memory, n: Node)
  {
    && x.head in x.tasks && n == Node(x.nextId, Ready, 0, n.queue, x.tasks[x.head].next)
    && Valid(n.queue) && Contents(n.queue) == []
  }

  ghost function CreateMemory(x: Memory, a: Addr, n: Node): Memory
    requires x.head in x.tasks && |x.ring| > 0
  {
    x.(tasks := Inserted(x.tasks, x.head, a, n), ring := Behind(x.ring, a), nextId := x.nextId + 1)
  }

  lemma CreateRefines(x: Memory, a: Addr, n: Node)
    requires Wired(x) && a !in x.tasks && Newborn(x, n)
    ensures Wired(CreateMemory(x, a, n)) && StateOf(CreateMemory(x, a, n)) == AfterCreate(StateOf(x))
  {
    var m, r := Inserted(x.tasks, x.head, a, n), Behind(x.ring, a);
    Insert(x.tasks, x.ring, a, n);
    BehindIds(View(x.tasks, x.ring), Abs(n), x.nextId);
    BehindKeeps(x.ring, a, x.current);
    BehindKeeps(x.ring, a, x.idle);
    forall i | 0 <= i < |r|
      ensures m[r[i]].id < x.nextId + 1
    {
      CreateBound(x, a, n, i);
    }
    assert m[x.current].id == x.tasks[x.current].id && m[x.idle].id == x.tasks[x.idle].id;
  }

  lemma BehindKeeps(ring: seq<Addr>, a: Addr, b: Addr)
    requires |ring| > 0 && b in ring
    ensures b in Behind(ring, a)
  {
    assert ring == [ring[0]] + ring[1..];
  }

  lemma CreateBound(x: Memory, a: Addr, n: Node, i: nat)
    requires Wired(x) && a !in x.tasks && Newborn(x, n) && i <= |x.ring|
    ensures var m, r := Inserted(x.tasks, x.head, a, n), Behind(x.ring, a);
            r[i] in m && m[r[i]].id < x.nextId + 1
  {
    InsertedAt(x.tasks, x.ring, a, n, i);
  }

  lemma BehindIds(s: seq<Task>, t: Task, nextId: nat)
    requires |s| > 0 && Distinct(Ids(s)) && t.id == nextId && forall i :: 0 <= i < |s| ==> s[i].id < nextId
    ensures Distinct(Ids(Behind(s, t)))
  {
    IdsAre(Behind(s, t), Behind(Ids(s), t.id));
    BehindHolds(Ids(s), t.id);
  }

  /** The index of the k-th task that Schedule looks at, starting behind index c. */
  function Place(n: nat, c: nat, k: nat): (i: int)
  {
    if c + 1 + k < n then c + 1 + k else c + 1 + k - n
  }

  /** The walk round the circle is back at c after all other places. */
  lemma PlaceOfSelf(ring: seq<Addr>, c: nat, k: nat)
    requires Distinct(ring) && c < |ring| && k < |ring|
    ensures ring[Place(|ring|, c, k)] == ring[c] <==> k == |ring| - 1
    ensures k < |ring| - 1 ==> Succ(|ring|, Place(|ring|, c, k)) == Place(|ring|, c, k + 1)
  {
  }

  /** Dead, or asleep until later. */
  predicate Rests(m: map<Addr, Node>, a: Addr, now: nat)
  {
    a in m && (m[a].state == Dead || (m[a].state == Sleeping && m[a].wake > now))
  }

  predicate CanRun(m: map<Addr, Node>, a: Addr, now: nat)
  {
    a in m && (m[a].state == Ready || m[a].state == Running || (m[a].state == Sleeping && now >= m[a].wake))
  }

  function SetRunning(m: map<Addr, Node>, a: Addr): map<Addr, Node>
    requires a in m
  {
    m[a := m[a].(state := Running)]
  }

  lemma OrderPlace(x: Memory, k: nat)
    requires Wired(x) && k < |x.ring|
    ensures var v, i := StateOf(x), Place(|x.ring|, IndexOf(x.ring, x.current), k);
            && Position(v.tasks, v.current) == IndexOf(x.ring, x.current)
            && 0 <= i < |x.ring| && Order(v.tasks, Position(v.tasks, v.current))[k] == Abs(x.tasks[x.ring[i]])
  {
    PositionAt(StateOf(x).tasks, IndexOf(x.ring, x.current));
  }

  /** What the search loop found, in terms of the task sequence. */
  lemma ChoiceRefines(x: Memory, now: nat, k: nat, next: Addr)
    requires Wired(x) && k < |x.ring| && next == x.ring[Place(|x.ring|, IndexOf(x.ring, x.current), k)]
    requires forall j :: 0 <= j < k ==> Rests(x.tasks, x.ring[Place(|x.ring|, IndexOf(x.ring, x.current), j)], now)
    requires k < |x.ring| - 1 ==> CanRun(x.tasks, next, now)
    ensures Chosen(StateOf(x), now) ==
            if k < |x.ring| - 1 then x.tasks[next].id
            else if CanRun(x.tasks, x.current, now) then x.tasks[x.current].id
            else x.tasks[x.idle].id
  {
    var v := StateOf(x);
    forall j | 0 <= j < k
      ensures !Runnable(Order(v.tasks, Position(v.tasks, v.current))[j], now)
    {
      OrderPlace(x, j);
    }
    OrderPlace(x, k);
    ChosenBy(v, now, k);
    RecordOf(x, x.current);
  }

  ghost function SwitchMemory(x: Memory, next: Addr): Memory
    requires next in x.tasks
  {
    x.(tasks := SetRunning(x.tasks, next), current := next)
  }

  ghost predicate SwitchIsRight(x: Memory, now: nat, y: Memory)
    requires Wired(x)
  {
    Wired(y) && StateOf(y) == Switched(StateOf(x), now)
  }

  lemma SwitchRefines(x: Memory, now: nat, next: Addr)
    requires Wired(x) && next in x.ring && x.tasks[next].id == Chosen(StateOf(x), now)
    ensures next in x.tasks && SwitchIsRight(x, now, SwitchMemory(x, next))
  {
    RecordOf(x, next);
    WriteRecord(x, next, x.tasks[next].(state := Running));
  }

  lemma SwitchLater(x: Memory, y: Memory, next: Addr)
    requires next in x.tasks && next in y.tasks && y == x.(tasks := y.tasks)
    requires SetRunning(y.tasks, next) == SetRunning(x.tasks, next)
    ensures SwitchMemory(y, next) == SwitchMemory(x, next)
  {
  }

  // --- reaping ---

  /** Having looked at the tasks before index i, with `count` of the budget used up: what is left to do
      leads from y to the reaped state of x. */
  ghost predicate Sweeping(x: Memory, y: Memory, i: nat, count: nat)
  {
    && Wired(x) && Wired(y) && 0 < i <= |y.ring| && count <= REAP_LIMIT
    && y == x.(tasks := y.tasks, ring := y.ring, lost := y.lost)
    && StateOf(x).current == StateOf(y).current && StateOf(x).idle == StateOf(y).idle
    && var v, w := StateOf(x), StateOf(y);
       && Reaped(v).tasks == w.tasks[..i] + Sweep(w.tasks[i..], v.current, v.idle, REAP_LIMIT - count)
       && Reaped(v).lost == w.lost + SweepLoss(w.tasks[i..], v.current, v.idle, REAP_LIMIT - count)
  }

  /** The loop's two pointers: prev is at index i - 1, curr behind it. */
  ghost predicate At(y: Memory, i: nat, prev: Addr, curr: Addr)
  {
    && 0 < i <= |y.ring| && prev in y.tasks && curr in y.tasks
    && prev == y.ring[i - 1] && curr == if i == |y.ring| then y.head else y.ring[i]
  }

  lemma MoveOn(y: Memory, i: nat, prev: Addr, curr: Addr)
    requires Wired(y) && At(y, i, prev, curr) && curr != y.head
    ensures i < |y.ring| && y.ring[i] == curr && y.ring[i - 1] == prev && Valid(y.tasks[curr].queue)
    ensures At(y, i + 1, curr, y.tasks[curr].next)
    ensures curr != y.current && curr != y.idle ==>
            At(ReapMemory(y, i), i, prev, ReapMemory(y, i).tasks[prev].next)
  {
    assert Next(y.tasks, y.ring, i);
    if curr != y.current && curr != y.idle {
      ReapWired(y, i);
      assert Next(ReapMemory(y, i).tasks, ReapMemory(y, i).ring, i - 1);
    }
  }

  ghost function ReapMemory(y: Memory, i: nat): Memory
    requires Linked(y.tasks, y.ring) && 0 < i < |y.ring|
  {
    y.(tasks := Unlinked(y.tasks, y.ring[i - 1], y.ring[i]), ring := Without(y.ring, i),
       lost := y.lost + |Contents(y.tasks[y.ring[i]].queue)|)
  }

  lemma ReapStarts(x: Memory)
    requires Wired(x)
    ensures Sweeping(x, x, 1, 0) && At(x, 1, x.head, x.tasks[x.head].next)
  {
    assert Next(x.tasks, x.ring, 0);
    assert StateOf(x).tasks[..1] == [StateOf(x).tasks[0]];
  }

  lemma ReapEnds(x: Memory, y: Memory, i: nat, count: nat, prev: Addr, curr: Addr)
    requires Sweeping(x, y, i, count) && At(y, i, prev, curr) && (curr == y.head || count == REAP_LIMIT)
    ensures StateOf(y) == Reaped(StateOf(x))
  {
    var w := StateOf(y);
    SweepDone(w.tasks, i, w.current, w.idle, REAP_LIMIT - count);
  }

  lemma SweepDone(s: seq<Task>, i: nat, current: nat, idle: nat, budget: nat)
    requires i <= |s| && (i == |s| || budget == 0)
    ensures s[..i] + Sweep(s[i..], current, idle, budget) == s && SweepLoss(s[i..], current, idle, budget) == 0
  {
    assert s[..i] + s[i..] == s;
  }

  /** A record that is neither current nor idle can be taken out. */
  lemma ReapWired(y: Memory, i: nat)
    requires Wired(y) && 0 < i < |y.ring| && y.ring[i] != y.current && y.ring[i] != y.idle
    ensures Wired(ReapMemory(y, i))
    ensures var w, u := StateOf(y), StateOf(ReapMemory(y, i));
            u == w.(tasks := Without(w.tasks, i), lost := w.lost + |w.tasks[i].events|)
  {
    Unlink(y.tasks, y.ring, i);
    WithoutKeeps(y.ring, i, y.current);
    WithoutKeeps(y.ring, i, y.idle);
    WithoutIds(View(y.tasks, y.ring), i);
    ReapBounds(y, i);
    ReapOthers(y, i, y.current);
    ReapOthers(y, i, y.idle);
  }

  /** Records other than the one taken out keep their ids. */
  lemma ReapOthers(y: Memory, i: nat, a: Addr)
    requires Linked(y.tasks, y.ring) && 0 < i < |y.ring| && a in y.ring && a != y.ring[i]
    ensures a in ReapMemory(y, i).tasks && ReapMemory(y, i).tasks[a].id == y.tasks[a].id
  {
  }

  lemma ReapBounds(y: Memory, i: nat)
    requires Wired(y) && 0 < i < |y.ring|
    ensures var z := ReapMemory(y, i);
            forall j :: 0 <= j < |z.ring| ==> z.ring[j] in z.tasks && z.tasks[z.ring[j]].id < z.nextId
  {
    var z := ReapMemory(y, i);
    forall j | 0 <= j < |z.ring|
      ensures z.ring[j] in z.tasks && z.tasks[z.ring[j]].id < z.nextId
    {
      UnlinkedAt(y.tasks, y.ring, i, j);
    }
  }

  lemma WithoutKeeps(ring: seq<Addr>, i: nat, a: Addr)
    requires i < |ring| && a in ring && a != ring[i]
    ensures a in Without(ring, i)
  {
    assert ring == ring[..i] + [ring[i]] + ring[i + 1..];
  }

  lemma WithoutIds(s: seq<Task>, i: nat)
    requires i < |s| && Distinct(Ids(s))
    ensures Distinct(Ids(Without(s, i)))
  {
    IdsAre(Without(s, i), Without(Ids(s), i));
    WithoutHolds(Ids(s), i);
  }

  /** Sequences only: one turn of the sweep. */
  lemma SweepOne(s: seq<Task>, i: nat, current: nat, idle: nat, budget: nat)
    requires i < |s| && budget > 0
    ensures Doomed(s[i], current, idle) ==>
              && s[..i] + Sweep(s[i..], current, idle, budget) ==
                 Without(s, i)[..i] + Sweep(Without(s, i)[i..], current, idle, budget - 1)
              && SweepLoss(s[i..], current, idle, budget) ==
                 |s[i].events| + SweepLoss(Without(s, i)[i..], current, idle, budget - 1)
    ensures !Doomed(s[i], current, idle) ==>
              && s[..i] + Sweep(s[i..], current, idle, budget) ==
                  s[..i + 1] + Sweep(s[i + 1..], current, idle, budget - 1)
              && SweepLoss(s[i..], current, idle, budget) == SweepLoss(s[i + 1..], current, idle, budget - 1)
  {
    assert s[i..][1..] == s[i + 1..];
    assert Without(s, i)[i..] == s[i + 1..] && Without(s, i)[..i] == s[..i];
    assert s[..i + 1] == s[..i] + [s[i]];
  }

  lemma DoomedRecord(y: Memory, i: nat)
    requires Wired(y) && i < |y.ring|
    ensures Doomed(StateOf(y).tasks[i], StateOf(y).current, StateOf(y).idle) <==>
            y.ring[i] != y.current && y.ring[i] != y.idle && y.tasks[y.ring[i]].state == Dead
  {
    var c := Locate(y.tasks, y.ring, y.current);
    var d := Locate(y.tasks, y.ring, y.idle);
    PositionAt(StateOf(y).tasks, i);
  }

  lemma SweepingOn(x: Memory, y: Memory, i: nat, count: nat)
    requires Sweeping(x, y, i, count) && i < |y.ring| && count < REAP_LIMIT
    ensures var n := y.tasks[y.ring[i]];
            if y.ring[i] != y.current && y.ring[i] != y.idle && n.state == Dead
            then Sweeping(x, ReapMemory(y, i), i, count + 1)
            else Sweeping(x, y, i + 1, count + 1)
  {
    var w := StateOf(y);
    DoomedRecord(y, i);
    SweepOne(w.tasks, i, w.current, w.idle, REAP_LIMIT - count);
    if Doomed(w.tasks[i], w.current, w.idle) {
      ReapWired(y, i);
    }
  }

  class RunQueue {
    var tasks: map<Addr, Node>
    var head: Addr
    var current: Addr
    var idle: Addr
    var nextId: nat
    var pushes: nat
    var pops: nat
    var drops: nat
    ghost var ring: seq<Addr>
    ghost var lost: nat

    ghost function Mem(): Memory
      reads this
    {
      Memory(tasks, head, current, idle, nextId, pushes, pops, drops, ring, lost)
    }

    /** Init: the main task alone, then the idle task created behind it. */
    constructor (main: Addr, idleAddr: Addr, wake: nat)
      requires main != idleAddr
      ensures Wired(Mem()) && StateOf(Mem()) == Booted(wake) && Inv(StateOf(Mem()))
    {
      tasks := map[main := Node(0, Running, wake, Zeroed(), idleAddr), idleAddr := Node(1, Ready, 0, Zeroed(), main)];
      head, current, idle := main, main, idleAddr;
      nextId, pushes, pops, drops, lost := 2, 0, 0, 0, 0;
      ring := [main, idleAddr];
      new;
      assert Next(tasks, ring, 0) && Next(tasks, ring, 1);
      ViewIs(tasks, ring, Booted(wake).tasks);
      BootedInv(wake);
    }

    /** The part of CreateTask and CreateUserTask after both allocations. */
    method LinkIn(place: Addr, node: Node)
      requires head in tasks && |ring| > 0
      modifies this
      ensures Mem() == CreateMemory(old(Mem()), place, node)
    {
      nextId := nextId + 1;
      tasks := Inserted(tasks, head, place, node);
      ring := Behind(ring, place);
    }

    /** CreateTask and CreateUserTask: kmalloc may fail for the record or for the stack. */
    method CreateTask(outcome: Creation, place: Addr)
      requires Wired(Mem()) && place !in tasks
      modifies this
      ensures Wired(Mem()) && StateOf(Mem()) == Apply(old(StateOf(Mem())), Create(outcome))
    {
      if outcome == NoStack {
        Recount(Mem(), pushes, pops, drops, 1);
        nextId := nextId + 1;
      } else if outcome == Created {
        var node := Node(nextId, Ready, 0, Zeroed(), tasks[head].next);
        CreateRefines(Mem(), place, node);
        LinkIn(place, node);
      }
    }

    /** Sleep up to its yield; the wake time is a 64-bit sum. */
    method Sleep(now: nat, ms: nat)
      requires Wired(Mem())
      modifies this`tasks
      ensures Wired(Mem())
      ensures StateOf(Mem()) == Apply(old(StateOf(Mem())), TaskRing.Sleep((now + ms) % 0x1_0000_0000_0000_0000))
    {
      var node := tasks[current].(wake := (now + ms) % TICKS, state := Sleeping);
      RecordOf(Mem(), current);
      WriteRecord(Mem(), current, node);
      tasks := tasks[current := node];
    }

    method Exit()
      requires Wired(Mem())
      modifies this`tasks
      ensures Wired(Mem()) && StateOf(Mem()) == Apply(old(StateOf(Mem())), TaskRing.Exit)
    {
      if tasks[current].id == 0 {
        return;
      }
      var node := tasks[current].(state := Dead);
      RecordOf(Mem(), current);
      WriteRecord(Mem(), current, node);
      tasks := tasks[current := node];
    }

    /** GetTaskById: walk the circle once. */
    method GetTaskById(id: nat) returns (found: bool, t: Addr)
      requires Linked(tasks, ring) && head == ring[0]
      ensures found == Has(View(tasks, ring), id)
      ensures found ==> t in ring && tasks[t].id == id
    {
      t := head;
      ghost var i := 0;
      while true
        invariant 0 <= i < |ring| && t == ring[i]
        invariant forall j :: 0 <= j < i ==> tasks[ring[j]].id != id
        decreases |ring| - i
      {
        if tasks[t].id == id {
          HasAt(View(tasks, ring), i);
          return true, t;
        }
        assert Next(tasks, ring, i);
        t := tasks[t].next;
        i := i + 1;
        if t == head {
          return false, t;
        }
      }
    }

    /** The part of PushEventToTask that runs with interrupts off. */
    method Enqueue(t: Addr, event: OSEvent) returns (ok: bool)
      requires t in tasks && Valid(tasks[t].queue)
      modifies this`tasks, this`pushes, this`drops
      ensures Mem() == PushMemory(old(Mem()), t, event)
      ensures pushes == old(pushes) + if ok then 1 else 0
    {
      if Full(tasks[t].queue) {
        drops, ok := drops + 1, false;
      } else {
        tasks := tasks[t := PushedNode(tasks[t], event)];
        pushes, ok := pushes + 1, true;
      }
    }

    /** PushEventToTask: refused when there is no such task or its queue is full. */
    method PushEvent(target: nat, event: OSEvent) returns (ok: bool)
      requires Wired(Mem())
      modifies this`tasks, this`pushes, this`drops
      ensures Wired(Mem()) && StateOf(Mem()) == AfterPush(old(StateOf(Mem())), target, event)
      ensures pushes == old(pushes) + if ok then 1 else 0
    {
      var found, t := GetTaskById(target);
      if !found {
        return false;
      }
      EnqueueRefines(Mem(), t, event);
      ok := Enqueue(t, event);
    }

    /** The part of PopEventFromCurrentTask that runs with interrupts off. */
    method Dequeue() returns (ok: bool, event: OSEvent)
      requires current in tasks && Valid(tasks[current].queue)
      modifies this`tasks, this`pops
      ensures Mem() == PopMemory(old(Mem()))
      ensures ok == (Contents(old(tasks[current].queue)) != [])
      ensures ok ==> event == Contents(old(tasks[current].queue))[0]
    {
      var queue := tasks[current].queue;
      Capacity(queue);
      event := queue.slots[queue.tail];
      if Empty(queue) {
        return false, event;
      }
      PopRemoves(queue);
      tasks := tasks[current := tasks[current].(queue := Popped(queue))];
      pops := pops + 1;
      ok := true;
    }

    /** PopEventFromCurrentTask: the oldest event, if there is one. */
    method PopEvent() returns (ok: bool, event: OSEvent)
      requires Wired(Mem())
      modifies this`tasks, this`pops
      ensures Wired(Mem()) && StateOf(Mem()) == AfterPop(old(StateOf(Mem())))
      ensures var events := TaskOf(old(StateOf(Mem())), old(StateOf(Mem())).current).events;
              ok == (events != []) && (ok ==> event == events[0])
    {
      DequeueRefines(Mem());
      ok, event := Dequeue();
    }

    /** The search loop of Schedule: `next` walks on from the current task and stops at the first task that
        can run, waking it if it slept long enough, or at the current task. */
    method Scan(now: nat) returns (next: Addr, ghost k: nat)
      requires Linked(tasks, ring) && current in ring
      modifies this`tasks
      ensures k < |ring| && next == ring[Place(|ring|, IndexOf(ring, current), k)]
      ensures forall j :: 0 <= j < k ==> Rests(old(tasks), ring[Place(|ring|, IndexOf(ring, current), j)], now)
      ensures k == |ring| - 1 ==> tasks == old(tasks) && next == current
      ensures k < |ring| - 1 ==> CanRun(old(tasks), next, now) && next != current
      ensures next in tasks && next in old(tasks) && SetRunning(tasks, next) == SetRunning(old(tasks), next)
    {
      ghost var c := IndexOf(ring, current);
      var start := current;
      assert Next(tasks, ring, c);
      next := tasks[start].next;
      k := 0;
      while next != start
        invariant k < |ring| && next == ring[Place(|ring|, c, k)] && tasks == old(tasks)
        invariant forall j :: 0 <= j < k ==> Rests(tasks, ring[Place(|ring|, c, j)], now)
        decreases |ring| - k
      {
        PlaceOfSelf(ring, c, k);
        if tasks[next].state == Sleeping && now >= tasks[next].wake {
          tasks := tasks[next := tasks[next].(state := Ready)];
        }
        if tasks[next].state == Ready || tasks[next].state == Running {
          break;
        }
        assert Next(tasks, ring, Place(|ring|, c, k));
        next := tasks[next].next;
        k := k + 1;
      }
      PlaceOfSelf(ring, c, k);
    }

    /** Schedule when the search came back to the current task: it goes on if it can, else the idle task. */
    method Fallback(now: nat) returns (next: Addr)
      requires current in tasks && idle in tasks
      modifies this`tasks
      ensures next == if CanRun(old(tasks), current, now) then current else idle
      ensures next in tasks && SetRunning(tasks, next) == SetRunning(old(tasks), next)
    {
      next := current;
      if tasks[current].state == Sleeping {
        if now >= tasks[current].wake {
          tasks := SetRunning(tasks, current);
        } else if idle != current {
          next := idle;
          tasks := SetRunning(tasks, next);
        }
      } else if tasks[current].state == Dead {
        if idle != current {
          next := idle;
          tasks := SetRunning(tasks, next);
        }
      }
    }

    /** The whole choice of Schedule. */
    method Pick(now: nat) returns (next: Addr)
      requires Wired(Mem())
      modifies this`tasks
      ensures next in ring && next in tasks && next in old(tasks)
      ensures SetRunning(tasks, next) == SetRunning(old(tasks), next)
      ensures old(tasks)[next].id == Chosen(old(StateOf(Mem())), now)
    {
      ghost var k;
      ghost var x := Mem();
      next, k := Scan(now);
      ChoiceRefines(x, now, k, next);
      if next == current {
        next := Fallback(now);
      }
    }

    /** Unlinking and freeing one dead task. */
    method FreeTask(ghost i: nat, prev: Addr, curr: Addr)
      requires Linked(tasks, ring) && 0 < i < |ring| && prev == ring[i - 1] && curr == ring[i]
      modifies this`tasks, this`ring, this`lost
      ensures Mem() == ReapMemory(old(Mem()), i)
    {
      lost := lost + |Contents(tasks[curr].queue)|;
      tasks := Unlinked(tasks, prev, curr);
      ring := Without(ring, i);
    }

    /** One turn of the loop of ReapDeadTasks. */
    method Visit(ghost x: Memory, ghost i: nat, ghost count: nat, prev: Addr, curr: Addr)
      returns (prev': Addr, curr': Addr, ghost i': nat)
      requires Sweeping(x, Mem(), i, count) && At(Mem(), i, prev, curr) && curr != head && count < REAP_LIMIT
      modifies this`tasks, this`ring, this`lost
      ensures Sweeping(x, Mem(), i', count + 1) && At(Mem(), i', prev', curr')
    {
      ghost var y := Mem();
      MoveOn(y, i, prev, curr);
      SweepingOn(x, y, i, count);
      if curr != current && curr != idle && tasks[curr].state == Dead {
        FreeTask(i, prev, curr);
        prev', curr', i' := prev, tasks[prev].next, i;
      } else {
        prev', curr', i' := curr, tasks[curr].next, i + 1;
      }
    }

    /** ReapDeadTasks: look at up to 64 tasks behind the head and free the dead ones. */
    method ReapDeadTasks()
      requires Wired(Mem())
      modifies this`tasks, this`ring, this`lost
      ensures Wired(Mem()) && StateOf(Mem()) == Reaped(old(StateOf(Mem())))
    {
      ghost var x := Mem();
      var prev, count := head, 0;
      var curr := tasks[prev].next;
      ghost var i := 1;
      ReapStarts(x);
      while curr != head && count < REAP_LIMIT
        invariant count <= REAP_LIMIT && Sweeping(x, Mem(), i, count) && At(Mem(), i, prev, curr)
        decreases REAP_LIMIT - count
      {
        prev, curr, i := Visit(x, i, count, prev, curr);
        count := count + 1;
      }
      ReapEnds(x, Mem(), i, count, prev, curr);
    }

    method MakeCurrent(next: Addr)
      requires next in tasks
      modifies this`tasks, this`current
      ensures Mem() == SwitchMemory(old(Mem()), next)
    {
      current := next;
      tasks := SetRunning(tasks, current);
    }

    /** The first half of Schedule: choose a task and make it the running one. */
    method Switch(now: nat)
      requires Wired(Mem())
      modifies this`tasks, this`current
      ensures Wired(Mem()) && StateOf(Mem()) == Switched(old(StateOf(Mem())), now)
    {
      ghost var x := Mem();
      var next := Pick(now);
      SwitchRefines(x, now, next);
      SwitchLater(x, Mem(), next);
      MakeCurrent(next);
    }

    /** Schedule, apart from saving and loading processor state. */
    method Schedule(now: nat)
      requires Wired(Mem())
      modifies this
      ensures Wired(Mem()) && StateOf(Mem()) == Reaped(Switched(old(StateOf(Mem())), now))
    {
      Switch(now);
      ReapDeadTasks();
    }
  }
}
