/** The cooperative scheduler on values: what each call does to the task list, stated without reference to
    how the list is walked, and what every run of calls keeps.  The list is newest first, as tasks are only
    ever put in front. */
module SchedulerSpec {
  import opened Memory

  datatype TaskState = Ready | Running | Blocked | Dead

  datatype Task = Task(id: int, state: TaskState, priority: uint32, wakeTick: uint32)

  /** g_task_list, the id of g_current_task, g_next_id and g_sched_ticks. */
  datatype Sched = Sched(tasks: seq<Task>, current: int, nextId: int, ticks: uint32)

  // ---------------------------------------------------------------- choosing

  /** First pass: a blocked task whose time has come becomes ready. */
  function Woken(t: Task, ticks: uint32): (r: Task) {
    if t.state.Blocked? && t.wakeTick <= ticks then t.(state := Ready) else t
  }

  /** After the first pass, a ready task other than the current one. */
  predicate Candidate(t: Task, ticks: uint32, current: int) {
    Woken(t, ticks).state.Ready? && t.id != current
  }

  /** Second pass: k is the first of the candidates of highest priority among the first n tasks. */
  ghost predicate FirstOfHighest(ts: seq<Task>, n: nat, ticks: uint32, current: int, k: nat)
    requires n <= |ts|
  {
    && k < n && Candidate(ts[k], ticks, current)
    && forall j :: 0 <= j < n && Candidate(ts[j], ticks, current) ==>
         ts[j].priority <= ts[k].priority && (j < k ==> ts[j].priority < ts[k].priority)
  }

  ghost predicate NoCandidate(ts: seq<Task>, n: nat, ticks: uint32, current: int)
    requires n <= |ts|
  {
    forall j :: 0 <= j < n ==> !Candidate(ts[j], ticks, current)
  }

  /** Extending the walk by task i: a better candidate replaces the best one, anything else leaves it. */
  lemma SelectOne(ts: seq<Task>, i: nat, ticks: uint32, current: int, k: nat)
    requires i < |ts|
    ensures !Candidate(ts[i], ticks, current) && NoCandidate(ts, i, ticks, current) ==>
      NoCandidate(ts, i + 1, ticks, current)
    ensures Candidate(ts[i], ticks, current) && NoCandidate(ts, i, ticks, current) ==>
      FirstOfHighest(ts, i + 1, ticks, current, i)
    ensures FirstOfHighest(ts, i, ticks, current, k) ==>
      if Candidate(ts[i], ticks, current) && ts[i].priority > ts[k].priority
      then FirstOfHighest(ts, i + 1, ticks, current, i) else FirstOfHighest(ts, i + 1, ticks, current, k)
  {
  }

  // ---------------------------------------------------------------- calls

  function Init(ticks: uint32): (s: Sched) {
    Sched([Task(0, Running, 0, 0)], 0, 1, ticks)
  }

  /** What a yield does to one task: it may wake, and a switch takes the processor from one task, which
      is ready again unless it blocked or died, and gives it to another. */
  function AfterYield(t: Task, ticks: uint32, from: int, to: int): (r: Task) {
    var w := Woken(t, ticks);
    if from == to then w
    else if t.id == to then w.(state := Running)
    else if t.id == from && w.state.Running? then w.(state := Ready)
    else w
  }

  /** sys_yield: one tick, everybody due wakes, and the processor goes to the first of the ready tasks of
      highest priority other than the current one, or stays where it is if there is none. */
  ghost predicate Yielded(s: Sched, r: Sched) {
    && r.ticks == (s.ticks + 1) % TWO32 && r.nextId == s.nextId && |r.tasks| == |s.tasks|
    && (forall i :: 0 <= i < |s.tasks| ==> r.tasks[i] == AfterYield(s.tasks[i], r.ticks, s.current, r.current))
    && (if r.current == s.current then NoCandidate(s.tasks, |s.tasks|, r.ticks, s.current)
        else exists k: nat :: FirstOfHighest(s.tasks, |s.tasks|, r.ticks, s.current, k) && s.tasks[k].id == r.current)
  }

  datatype Call = CreateTask(priority: uint32, taskFits: bool, stackFits: bool) | YieldNow | Sleep(ms: uint32) | Exit

  /** Where the task with this id stands. */
  function Place(s: Sched, id: int): (i: int) {
    |s.tasks| - 1 - id
  }

  /** The state on which the call's sys_yield works. */
  function BeforeYield(s: Sched, call: Call): (r: Sched)
    requires 0 <= s.current < |s.tasks|
  {
    var p := Place(s, s.current);
    match call
    case Sleep(ms) => s.(tasks := s.tasks[p := s.tasks[p].(wakeTick := (s.ticks + ms) % TWO32, state := Blocked)])
    case Exit => s.(tasks := s.tasks[p := s.tasks[p].(state := Dead)])
    case _ => s
  }

  /** One call made by the current task; whether kmalloc succeeds is a parameter. */
  ghost predicate Stepped(s: Sched, call: Call, r: Sched)
    requires 0 <= s.current < |s.tasks|
  {
    if !call.CreateTask? then Yielded(BeforeYield(s, call), r)
    else if call.taskFits && call.stackFits then
      r == s.(tasks := [Task(s.nextId, Ready, call.priority, 0)] + s.tasks, nextId := s.nextId + 1)
    else r == s
  }

  /** Position of the first task with this id, or the length of the list. */
  function Find(ts: seq<Task>, id: int): (i: nat)
    ensures i <= |ts|
    ensures i < |ts| ==> ts[i].id == id
    ensures forall j :: 0 <= j < i ==> ts[j].id != id
  {
    if ts == [] || ts[0].id == id then 0 else 1 + Find(ts[1..], id)
  }

  // ---------------------------------------------------------------- the invariant

  /** Ids run down from nextId - 1 to 0 along the list, and the current task is one of them. */
  ghost predicate Numbered(s: Sched) {
    && s.nextId == |s.tasks| && 0 <= s.current < |s.tasks|
    && forall i :: 0 <= i < |s.tasks| ==> s.tasks[i].id == |s.tasks| - 1 - i
  }

  function TaskOf(s: Sched, id: int): (t: Task)
    requires 0 <= id < |s.tasks|
  {
    s.tasks[Place(s, id)]
  }

  ghost predicate OnlyCurrentRuns(s: Sched) {
    forall i :: 0 <= i < |s.tasks| && s.tasks[i].state.Running? ==> s.tasks[i].id == s.current
  }

  ghost predicate BlockedWait(s: Sched) {
    forall i :: 0 <= i < |s.tasks| && s.tasks[i].state.Blocked? ==> s.tasks[i].wakeTick > s.ticks
  }

  ghost predicate Inv(s: Sched) {
    Numbered(s) && OnlyCurrentRuns(s) && BlockedWait(s)
  }

  /** Every id handed out is found, and only those are. */
  lemma FindIsPlace(s: Sched, id: int)
    requires Numbered(s)
    ensures Find(s.tasks, id) == if 0 <= id < s.nextId then Place(s, id) else |s.tasks|
  {
    var i := Find(s.tasks, id);
    if 0 <= id < s.nextId { assert s.tasks[Place(s, id)].id == id; }
  }

  /** What a yield does to the task with id x. */
  lemma YieldTask(s: Sched, r: Sched, x: int)
    requires Numbered(s) && Yielded(s, r) && 0 <= x < s.nextId
    ensures Numbered(r)
    ensures TaskOf(r, x) == AfterYield(TaskOf(s, x), r.ticks, s.current, r.current)
    ensures r.current == x && s.current != x ==> Candidate(TaskOf(s, x), r.ticks, s.current)
    ensures r.current == s.current ==> !Candidate(TaskOf(s, x), r.ticks, s.current)
  {
  }

  /** The task list with everybody woken who is due. */
  ghost predicate AllWoken(ts: seq<Task>, ts': seq<Task>, ticks: uint32) {
    |ts'| == |ts| && forall i :: 0 <= i < |ts| ==> ts'[i] == Woken(ts[i], ticks)
  }

  /** Nobody to switch to. */
  lemma YieldStays(s: Sched, r: Sched)
    requires r.ticks == (s.ticks + 1) % TWO32 && r.nextId == s.nextId && r.current == s.current
    requires AllWoken(s.tasks, r.tasks, r.ticks) && NoCandidate(s.tasks, |s.tasks|, r.ticks, s.current)
    ensures Yielded(s, r)
  {
  }

  /** After sys_yield: either another task was switched to, and it alone runs, or no other task is ready. */
  lemma YieldOutcome(s: Sched, r: Sched)
    requires Numbered(s) && OnlyCurrentRuns(s) && Yielded(s, r)
    ensures Inv(r)
    ensures r.current != s.current ==>
      forall i :: 0 <= i < |r.tasks| ==> (r.tasks[i].state.Running? <==> r.tasks[i].id == r.current)
    ensures r.current == s.current ==>
      forall i :: 0 <= i < |r.tasks| && r.tasks[i].id != r.current ==> !r.tasks[i].state.Ready?
  {
    YieldTask(s, r, s.current);
  }

  /** Among the first n tasks there is a first of the highest, or no candidate. */
  lemma {:induction false} Chosen(ts: seq<Task>, n: nat, ticks: uint32, current: int) returns (found: bool, k: nat)
    requires n <= |ts|
    ensures if found then FirstOfHighest(ts, n, ticks, current, k) else NoCandidate(ts, n, ticks, current)
  {
    found, k := false, 0;
    if n > 0 {
      found, k := Chosen(ts, n - 1, ticks, current);
      SelectOne(ts, n - 1, ticks, current, k);
      if Candidate(ts[n - 1], ticks, current) && (!found || ts[n - 1].priority > ts[k].priority) {
        found, k := true, n - 1;
      }
    }
  }

  /** A yield has an outcome ... */
  lemma YieldExists(s: Sched) returns (r: Sched)
    requires Numbered(s)
    ensures Yielded(s, r)
  {
    var ticks := (s.ticks + 1) % TWO32;
    var found, k := Chosen(s.tasks, |s.tasks|, ticks, s.current);
    var to := if found then s.tasks[k].id else s.current;
    var tasks := seq(|s.tasks|, i requires 0 <= i < |s.tasks| => AfterYield(s.tasks[i], ticks, s.current, to));
    r := Sched(tasks, to, s.nextId, ticks);
  }

  /** ... and only one. */
  lemma YieldIsDetermined(s: Sched, r: Sched, r': Sched)
    requires Numbered(s) && Yielded(s, r) && Yielded(s, r')
    ensures r == r'
  {
    assert r.current == r'.current;
    assert r.tasks == r'.tasks;
  }

  // ---------------------------------------------------------------- runs

  const MAX_ID := 0x7FFF_FFFF

  /** A dead task makes no calls: it spins.  Ids do not overflow. */
  ghost predicate Legal(s: Sched, call: Call)
    requires 0 <= s.current < |s.tasks|
  {
    !TaskOf(s, s.current).state.Dead? && (call.CreateTask? ==> s.nextId < MAX_ID)
  }

  /** The states a run passes through, one call between each and the next. */
  ghost predicate Run(states: seq<Sched>, calls: seq<Call>) {
    && |states| == |calls| + 1
    && Inv(states[0])
    && forall i :: 0 <= i < |calls| ==> StepAt(states, calls, i)
  }

  ghost predicate StepAt(states: seq<Sched>, calls: seq<Call>, i: nat)
    requires i < |calls| && i + 1 < |states|
  {
    && 0 <= states[i].current < |states[i].tasks|
    && Legal(states[i], calls[i]) && Stepped(states[i], calls[i], states[i + 1])
  }

  lemma RunGrows(states: seq<Sched>, calls: seq<Call>, call: Call, r: Sched)
    requires Run(states, calls)
    requires var s := states[|calls|]; 0 <= s.current < |s.tasks| && Legal(s, call) && Stepped(s, call, r)
    ensures Run(states + [r], calls + [call])
  {
    var states', calls' := states + [r], calls + [call];
    forall i | 0 <= i < |calls'| ensures StepAt(states', calls', i) {
      if i < |calls| { assert StepAt(states, calls, i); }
    }
  }

  lemma StepInv(s: Sched, call: Call, r: Sched)
    requires Inv(s) && Stepped(s, call, r)
    ensures Inv(r) && s.nextId <= r.nextId
  {
    if !call.CreateTask? { YieldOutcome(BeforeYield(s, call), r); }
  }

  /** In every reachable state a running task is the current one and a blocked task's time has not come;
      ids are never taken back, and every id handed out so far is found. */
  lemma {:induction false} RunInv(states: seq<Sched>, calls: seq<Call>, n: nat)
    requires Run(states, calls) && n <= |calls|
    ensures Inv(states[n]) && states[0].nextId <= states[n].nextId
    ensures forall id :: 0 <= id < states[0].nextId ==> Find(states[n].tasks, id) < |states[n].tasks|
  {
    if n > 0 {
      RunInv(states, calls, n - 1);
      assert StepAt(states, calls, n - 1);
      StepInv(states[n - 1], calls[n - 1], states[n]);
    }
    forall id | 0 <= id < states[0].nextId ensures Find(states[n].tasks, id) < |states[n].tasks| {
      FindIsPlace(states[n], id);
    }
  }

  lemma IdsDistinct(s: Sched, i: nat, j: nat)
    requires Numbered(s) && i < j < |s.tasks|
    ensures 0 <= s.tasks[j].id < s.tasks[i].id < s.nextId
  {
  }

  // ---------------------------------------------------------------- what calls do

  /** A switch goes to a task that is ready or due, none that is has a higher priority, and of those with the
      same priority it is the newest; without a switch nobody else is ready or due. */
  lemma YieldChooses(s: Sched, r: Sched, x: int)
    requires Numbered(s) && Yielded(s, r) && 0 <= x < s.nextId
    ensures |r.tasks| == |s.tasks| && 0 <= r.current < |s.tasks|
    ensures r.current != s.current ==> ReadyOrDue(TaskOf(s, r.current), (s.ticks + 1) % TWO32)
    ensures x != s.current && ReadyOrDue(TaskOf(s, x), (s.ticks + 1) % TWO32) ==>
      && r.current != s.current
      && TaskOf(s, x).priority <= TaskOf(s, r.current).priority
      && (TaskOf(s, x).priority == TaskOf(s, r.current).priority ==> x <= r.current)
  {
    YieldTask(s, r, x);
    if r.current != s.current {
      var k: nat :| FirstOfHighest(s.tasks, |s.tasks|, r.ticks, s.current, k) && s.tasks[k].id == r.current;
      assert k == Place(s, r.current);
    }
  }

  predicate ReadyOrDue(t: Task, ticks: uint32) {
    t.state == Ready || (t.state == Blocked && t.wakeTick <= ticks)
  }

  /** sys_create_task: with both allocations the new task has the next id, is ready and has the priority passed,
      and nothing else changes; without them nothing changes at all. */
  lemma CreateAdds(s: Sched, p: uint32, taskFits: bool, stackFits: bool, r: Sched)
    requires Numbered(s) && Stepped(s, CreateTask(p, taskFits, stackFits), r)
    ensures !taskFits || !stackFits ==> r == s
    ensures taskFits && stackFits ==>
      && Numbered(r) && r.nextId == s.nextId + 1 && r.current == s.current && r.ticks == s.ticks
      && TaskOf(r, s.nextId).state == Ready && TaskOf(r, s.nextId).priority == p
      && forall x :: 0 <= x < s.nextId ==> TaskOf(r, x) == TaskOf(s, x)
  {
  }

  lemma StepPriority(s: Sched, call: Call, r: Sched, x: int)
    requires Inv(s) && Stepped(s, call, r) && 0 <= x < s.nextId
    ensures Inv(r) && x < r.nextId && TaskOf(r, x).priority == TaskOf(s, x).priority
  {
    StepInv(s, call, r);
    if !call.CreateTask? { YieldTask(BeforeYield(s, call), r, x); }
  }

  /** A task keeps its priority. */
  lemma {:induction false} PriorityKept(states: seq<Sched>, calls: seq<Call>, x: int, m: nat, n: nat)
    requires Run(states, calls) && m <= n <= |calls| && 0 <= x < states[m].nextId
    ensures Inv(states[m]) && Inv(states[n]) && x < states[n].nextId
    ensures TaskOf(states[n], x).priority == TaskOf(states[m], x).priority
  {
    RunInv(states, calls, m);
    if m < n {
      PriorityKept(states, calls, x, m, n - 1);
      assert StepAt(states, calls, n - 1);
      StepPriority(states[n - 1], calls[n - 1], states[n], x);
    }
  }

  /** What sys_query_task finds of a created task in every later state: the priority passed to sys_create_task. */
  lemma CreatedPriority(states: seq<Sched>, calls: seq<Call>, i: nat, p: uint32, n: nat)
    requires Run(states, calls) && i < n <= |calls| && calls[i] == CreateTask(p, true, true)
    ensures Inv(states[i]) && Inv(states[n]) && states[i].nextId < states[n].nextId
    ensures TaskOf(states[n], states[i].nextId).priority == p
  {
    RunInv(states, calls, i);
    assert StepAt(states, calls, i);
    CreateAdds(states[i], p, true, true, states[i + 1]);
    PriorityKept(states, calls, states[i].nextId, i + 1, n);
  }

  // ---------------------------------------------------------------- dead tasks

  lemma YieldDead(s: Sched, r: Sched, x: int)
    requires Numbered(s) && Yielded(s, r) && 0 <= x < s.nextId
    ensures Numbered(r) && r.nextId == s.nextId && (TaskOf(r, x).state == Dead <==> TaskOf(s, x).state == Dead)
  {
    YieldTask(s, r, x);
  }

  /** One call: the task that exits is dead, dead tasks stay so, and nobody else dies. */
  lemma StepDeadExactly(s: Sched, call: Call, r: Sched, x: int)
    requires Inv(s) && Legal(s, call) && Stepped(s, call, r) && 0 <= x < r.nextId
    ensures |r.tasks| == r.nextId
    ensures TaskOf(r, x).state == Dead <==>
      x < s.nextId && (TaskOf(s, x).state == Dead || (call == Exit && x == s.current))
  {
    if !call.CreateTask? { YieldDead(BeforeYield(s, call), r, x); }
  }

  /** Task x made call i, and it was an exit. */
  predicate ExitsAt(states: seq<Sched>, calls: seq<Call>, x: int, i: nat)
    requires i < |calls| && i < |states|
  {
    calls[i] == Exit && states[i].current == x
  }

  /** Over any run the dead tasks are those that were dead and those that called sys_task_exit. */
  lemma {:induction false} DeadExactly(states: seq<Sched>, calls: seq<Call>, x: int, n: nat)
    requires Run(states, calls) && n <= |calls| && 0 <= x < states[n].nextId
    ensures Inv(states[0]) && Inv(states[n])
    ensures TaskOf(states[n], x).state == Dead <==>
      || (x < states[0].nextId && TaskOf(states[0], x).state == Dead)
      || exists i :: 0 <= i < n && ExitsAt(states, calls, x, i)
  {
    RunInv(states, calls, n);
    if n > 0 {
      RunInv(states, calls, n - 1);
      assert StepAt(states, calls, n - 1);
      StepDeadExactly(states[n - 1], calls[n - 1], states[n], x);
      if x < states[n - 1].nextId {
        DeadExactly(states, calls, x, n - 1);
        assert ExitsAt(states, calls, x, n - 1) <==> calls[n - 1] == Exit && states[n - 1].current == x;
      } else {
        NotYetThere(states, calls, x, n);
      }
    }
  }

  /** A task that does not exist yet neither exists earlier nor makes a call. */
  lemma {:induction false} NotYetThere(states: seq<Sched>, calls: seq<Call>, x: int, n: nat)
    requires Run(states, calls) && 0 < n <= |calls| && states[n - 1].nextId <= x
    ensures states[0].nextId <= x && forall i :: 0 <= i < n ==> !ExitsAt(states, calls, x, i)
  {
    RunInv(states, calls, n - 1);
    if n > 1 {
      RunInv(states, calls, n - 2);
      assert StepAt(states, calls, n - 2);
      StepInv(states[n - 2], calls[n - 2], states[n - 1]);
      NotYetThere(states, calls, x, n - 1);
    }
  }

  /** A task that exits is dead from then on, and nothing switches to it. */
  lemma {:induction false} ExitIsForGood(states: seq<Sched>, calls: seq<Call>, i: nat, n: nat)
    requires Run(states, calls) && i < n <= |calls| && calls[i] == Exit
    ensures var x := states[i].current;
      && Inv(states[n]) && 0 <= x < states[n].nextId && TaskOf(states[n], x).state == Dead
      && (i + 1 < n ==> states[n].current != x)
  {
    var x := states[i].current;
    RunInv(states, calls, n - 1);
    assert StepAt(states, calls, n - 1);
    StepInv(states[n - 1], calls[n - 1], states[n]);
    if n == i + 1 {
      StepDeadExactly(states[i], Exit, states[n], x);
    } else {
      ExitIsForGood(states, calls, i, n - 1);
      StepDead(states[n - 1], calls[n - 1], states[n], x);
    }
  }

  lemma StepDead(s: Sched, call: Call, r: Sched, x: int)
    requires Inv(s) && Legal(s, call) && Stepped(s, call, r)
    requires 0 <= x < s.nextId && TaskOf(s, x).state.Dead?
    ensures x < r.nextId == |r.tasks| && TaskOf(r, x).state.Dead? && r.current != x
  {
    if !call.CreateTask? { YieldTask(BeforeYield(s, call), r, x); }
  }

  /** Once dead, a task stays dead and is never switched to again. */
  lemma {:induction false} RunDead(states: seq<Sched>, calls: seq<Call>, x: int, n: nat)
    requires Run(states, calls) && n <= |calls|
    requires 0 <= x < states[0].nextId && TaskOf(states[0], x).state.Dead?
    ensures Inv(states[n]) && x < states[n].nextId && TaskOf(states[n], x).state.Dead?
    ensures 0 < n || states[0].current != x ==> states[n].current != x
  {
    if n > 0 {
      RunDead(states, calls, x, n - 1);
      assert StepAt(states, calls, n - 1);
      StepInv(states[n - 1], calls[n - 1], states[n]);
      StepDead(states[n - 1], calls[n - 1], states[n], x);
    }
  }

  // ---------------------------------------------------------------- sleeping

  /** Task x sleeps until the counter reaches wake, and no longer. */
  ghost predicate SleepsUntil(s: Sched, x: int, wake: int) {
    && 0 <= x < |s.tasks|
    && var t := TaskOf(s, x);
       if s.ticks < wake then t.state.Blocked? && t.wakeTick == wake
       else t.state.Ready? || t.state.Running?
  }

  /** Going to sleep: without wrap-around of the counter or of the wake time the task sleeps as asked. */
  lemma SleepStarts(s: Sched, ms: uint32, r: Sched)
    requires Inv(s) && Stepped(s, Sleep(ms), r)
    requires s.ticks + ms < TWO32 && s.ticks + 1 < TWO32
    ensures SleepsUntil(r, s.current, s.ticks + ms)
  {
    YieldTask(BeforeYield(s, Sleep(ms)), r, s.current);
  }

  /** With wrap-around: right after sys_sleep the task is blocked exactly when the wrapped wake time is
      above the wrapped counter. */
  lemma SleepBlocks(s: Sched, ms: uint32, r: Sched)
    requires Inv(s) && Stepped(s, Sleep(ms), r)
    ensures |r.tasks| == |s.tasks|
    ensures TaskOf(r, s.current).state.Blocked? <==> (s.ticks + ms) % TWO32 > (s.ticks + 1) % TWO32
  {
    YieldTask(BeforeYield(s, Sleep(ms)), r, s.current);
  }

  lemma SleeperYields(s: Sched, r: Sched, x: int, wake: int)
    requires Numbered(s) && Yielded(s, r) && SleepsUntil(s, x, wake) && s.ticks + 1 < TWO32
    ensures SleepsUntil(r, x, wake) && r.ticks == s.ticks + 1
    ensures r.ticks < wake && s.current != x ==> r.current != x
  {
    YieldTask(s, r, x);
  }

  /** One more call, by anybody, leaves the sleeper as it should be and does not switch to it too early. */
  lemma SleepGoesOn(s: Sched, call: Call, r: Sched, x: int, wake: int)
    requires Inv(s) && Legal(s, call) && Stepped(s, call, r)
    requires SleepsUntil(s, x, wake) && s.ticks + 1 < TWO32
    requires s.current == x ==> !call.Sleep? && !call.Exit?
    ensures SleepsUntil(r, x, wake) && s.ticks <= r.ticks <= s.ticks + 1
    ensures r.ticks < wake && s.current != x ==> r.current != x
  {
    if !call.CreateTask? {
      assert TaskOf(BeforeYield(s, call), x) == TaskOf(s, x);
      SleeperYields(BeforeYield(s, call), r, x, wake);
    }
  }

  /** The run starts with task x going to sleep for ms, without wrap-around; after that x, if it gets to
      run at all, neither sleeps again nor exits. */
  ghost predicate SleepRun(states: seq<Sched>, calls: seq<Call>, x: int, ms: uint32) {
    && Run(states, calls) && |calls| > 0
    && calls[0] == Sleep(ms) && states[0].current == x
    && states[0].ticks + ms < TWO32 && states[0].ticks + |calls| < TWO32
    && forall i :: 0 < i < |calls| && states[i].current == x ==> !calls[i].Sleep? && !calls[i].Exit?
  }

  /** A sleeping task stays blocked while the counter is below its wake time and is ready or running after
      the first yield that reaches it; while it sleeps nothing switches to it. */
  lemma {:induction false} SleepLasts(states: seq<Sched>, calls: seq<Call>, x: int, ms: uint32, n: nat)
    requires SleepRun(states, calls, x, ms) && 0 < n <= |calls|
    ensures Inv(states[n]) && SleepsUntil(states[n], x, states[0].ticks + ms)
    ensures states[0].ticks < states[n].ticks <= states[0].ticks + n
    ensures 1 < n && states[n].ticks < states[0].ticks + ms && states[n].current == x ==> states[n - 1].current == x
  {
    assert StepAt(states, calls, n - 1);
    RunInv(states, calls, n - 1);
    StepInv(states[n - 1], calls[n - 1], states[n]);
    if n == 1 {
      SleepStarts(states[0], ms, states[1]);
    } else {
      SleepLasts(states, calls, x, ms, n - 1);
      SleepGoesOn(states[n - 1], calls[n - 1], states[n], x, states[0].ticks + ms);
    }
  }

  /** A yield, a sleep or an exit keeps the processor exactly when no other task is ready or due.  So a sleep
      may return at once, and an exit may reach the loop that the source calls unreachable. */
  lemma KeepsProcessor(s: Sched, call: Call, r: Sched)
    requires Inv(s) && !call.CreateTask? && Stepped(s, call, r)
    ensures r.current == s.current <==> NoCandidate(s.tasks, |s.tasks|, (s.ticks + 1) % TWO32, s.current)
  {
    var b := BeforeYield(s, call);
    assert forall i :: 0 <= i < |s.tasks| ==>
      (Candidate(s.tasks[i], r.ticks, s.current) <==> Candidate(b.tasks[i], r.ticks, s.current));
  }

  /** The boot task alone: its exit falls through to the loop, dead and still current; its sleep returns at
      once, blocked and still current. */
  lemma BootTaskAlone(ms: uint32) returns (exited: Sched, slept: Sched)
    requires ms > 1
    ensures Stepped(Init(0), Exit, exited) && exited.current == 0 && TaskOf(exited, 0).state.Dead?
    ensures Stepped(Init(0), Sleep(ms), slept) && slept.current == 0 && TaskOf(slept, 0).state.Blocked?
  {
    exited := YieldExists(BeforeYield(Init(0), Exit));
    KeepsProcessor(Init(0), Exit, exited);
    slept := YieldExists(BeforeYield(Init(0), Sleep(ms)));
    KeepsProcessor(Init(0), Sleep(ms), slept);
  }

  // ---------------------------------------------------------------- turns

  /** Everybody is ready or running. */
  ghost predicate Awake(s: Sched) {
    forall i :: 0 <= i < |s.tasks| ==> s.tasks[i].state.Ready? || s.tasks[i].state.Running?
  }

  /** Among the first n tasks, leaving out position skip, k has the highest priority and is the newest of those. */
  ghost predicate Leads(ts: seq<Task>, n: nat, skip: int, k: int)
    requires n <= |ts|
  {
    && 0 <= k < n && k != skip
    && forall j :: 0 <= j < n && j != skip ==>
         ts[j].priority <= ts[k].priority && (j < k ==> ts[j].priority < ts[k].priority)
  }

  lemma {:induction false} LeaderExists(ts: seq<Task>, n: nat, skip: int) returns (k: int)
    requires n <= |ts| && (n > 1 || (n == 1 && skip != 0))
    ensures Leads(ts, n, skip, k)
  {
    if n == 1 {
      k := 0;
    } else if n == 2 && skip == 0 {
      k := 1;
    } else {
      k := LeaderExists(ts, n - 1, skip);
      if n - 1 != skip && ts[n - 1].priority > ts[k].priority { k := n - 1; }
    }
  }

  /** With everybody awake a yield goes to the first task by priority, then by age, or, if that one yields, to
      the next in this order. */
  lemma FirstOrSecond(s: Sched, r: Sched, f: int, g: int)
    requires Inv(s) && Awake(s) && Yielded(s, r)
    requires Leads(s.tasks, |s.tasks|, -1, f) && Leads(s.tasks, |s.tasks|, f, g)
    ensures Place(r, r.current) == if Place(s, s.current) == f then g else f
  {
    var k := if Place(s, s.current) == f then g else f;
    assert Candidate(s.tasks[k], r.ticks, s.current);
  }

  /** The same tasks with the same priorities. */
  ghost predicate SameTasks(s: Sched, r: Sched) {
    |r.tasks| == |s.tasks| && forall i :: 0 <= i < |s.tasks| ==> r.tasks[i].priority == s.tasks[i].priority
  }

  lemma AwakeStays(s: Sched, r: Sched)
    requires Inv(s) && Awake(s) && Yielded(s, r)
    ensures Inv(r) && Awake(r) && SameTasks(s, r)
  {
    YieldOutcome(s, r);
  }

  /** A run in which everybody is awake and only ever yields. */
  ghost predicate AllYield(states: seq<Sched>, calls: seq<Call>) {
    Run(states, calls) && Awake(states[0]) && forall i :: 0 <= i < |calls| ==> calls[i].YieldNow?
  }

  lemma {:induction false} AwakeThroughout(states: seq<Sched>, calls: seq<Call>, n: nat)
    requires AllYield(states, calls) && n <= |calls|
    ensures Inv(states[n]) && Awake(states[n]) && SameTasks(states[0], states[n])
    ensures n < |calls| ==> Yielded(states[n], states[n + 1])
  {
    if n < |calls| { assert StepAt(states, calls, n) && calls[n].YieldNow?; }
    if n > 0 {
      AwakeThroughout(states, calls, n - 1);
      AwakeStays(states[n - 1], states[n]);
    }
  }

  lemma LeadsSame(s: Sched, r: Sched, skip: int, k: int)
    requires SameTasks(s, r) && Leads(s.tasks, |s.tasks|, skip, k)
    ensures Leads(r.tasks, |r.tasks|, skip, k)
  {
  }

  /** The processor only changes hands between the first and the second task, however often everybody yields. */
  lemma OnlyTwoRun(states: seq<Sched>, calls: seq<Call>, f: int, g: int, n: nat)
    requires AllYield(states, calls) && 0 < n <= |calls|
    requires Leads(states[0].tasks, |states[0].tasks|, -1, f) && Leads(states[0].tasks, |states[0].tasks|, f, g)
    ensures |states[n - 1].tasks| == |states[n].tasks| == |states[0].tasks|
    ensures Place(states[n], states[n].current) == if Place(states[n - 1], states[n - 1].current) == f then g else f
  {
    AwakeThroughout(states, calls, n - 1);
    AwakeThroughout(states, calls, n);
    LeadsSame(states[0], states[n - 1], -1, f);
    LeadsSame(states[0], states[n - 1], f, g);
    FirstOrSecond(states[n - 1], states[n], f, g);
  }

  /** Everybody else starves. */
  lemma OthersStarve(states: seq<Sched>, calls: seq<Call>, f: int, g: int, x: int, n: nat)
    requires AllYield(states, calls) && 0 < n <= |calls|
    requires Leads(states[0].tasks, |states[0].tasks|, -1, f) && Leads(states[0].tasks, |states[0].tasks|, f, g)
    requires 0 <= x < |states[0].tasks| && Place(states[0], x) != f && Place(states[0], x) != g
    ensures states[n].current != x
  {
    OnlyTwoRun(states, calls, f, g, n);
  }

  // ---------------------------------------------------------------- round-robin

  /** Nobody has a higher priority than the task at position i. */
  ghost predicate Top(ts: seq<Task>, i: int) {
    0 <= i < |ts| && forall j :: 0 <= j < |ts| ==> ts[j].priority <= ts[i].priority
  }

  /** Three different tasks share the highest priority. */
  ghost predicate ThreeTop(ts: seq<Task>) {
    exists i, j, k :: i < j < k && Top(ts, i) && Top(ts, j) && Top(ts, k)
  }

  /** Task x runs in one of the n states from state i. */
  ghost predicate TurnIn(states: seq<Sched>, x: int, i: nat, n: nat)
    requires i + n <= |states|
  {
    exists j :: i <= j < i + n && states[j].current == x
  }

  /** Round-robin at the highest priority: after the first yield every task of that priority runs in any stretch
      of as many states as there are tasks. */
  ghost predicate TakesTurns(states: seq<Sched>)
    requires |states| > 0
  {
    var s, n := states[0], |states[0].tasks|;
    forall x, i {:trigger TurnIn(states, x, i, n)} ::
      0 <= x < n && Top(s.tasks, Place(s, x)) && 0 < i && i + n <= |states| ==> TurnIn(states, x, i, n)
  }

  lemma AloneRuns(states: seq<Sched>, calls: seq<Call>, i: nat)
    requires AllYield(states, calls) && |states[0].tasks| == 1 && 0 < i < |states|
    ensures TurnIn(states, 0, i, 1)
  {
    AwakeThroughout(states, calls, i);
    assert states[i].current == 0;
  }

  /** The first two tasks run in any two states in a row. */
  lemma FirstTwoRun(states: seq<Sched>, calls: seq<Call>, f: int, g: int, x: int, i: nat, n: nat)
    requires AllYield(states, calls) && 0 < i && i + n <= |states| && n == |states[0].tasks| >= 2
    requires Leads(states[0].tasks, n, -1, f) && Leads(states[0].tasks, n, f, g)
    requires 0 <= x < n && (Place(states[0], x) == f || Place(states[0], x) == g)
    ensures TurnIn(states, x, i, n)
  {
    OnlyTwoRun(states, calls, f, g, i);
    OnlyTwoRun(states, calls, f, g, i + 1);
    assert states[i].current == x || states[i + 1].current == x;
  }

  /** A task of the highest priority is one of the first two, or a third. */
  lemma TopIsFirstOrSecond(ts: seq<Task>, f: int, g: int, p: int)
    requires Leads(ts, |ts|, -1, f) && Leads(ts, |ts|, f, g) && Top(ts, p)
    ensures p == f || p == g || ThreeTop(ts)
  {
    if p != f && p != g {
      assert ts[p].priority <= ts[g].priority <= ts[f].priority <= ts[p].priority;
      assert f < g < p;
      assert Top(ts, f) && Top(ts, g);
    }
  }

  /** A third one is neither. */
  lemma ThirdTop(ts: seq<Task>, f: int, g: int) returns (p: int)
    requires Leads(ts, |ts|, -1, f) && Leads(ts, |ts|, f, g) && ThreeTop(ts)
    ensures Top(ts, p) && p != f && p != g
  {
    var i, j, k :| i < j < k && Top(ts, i) && Top(ts, j) && Top(ts, k);
    p := if i != f && i != g then i else if j != f && j != g then j else k;
  }

  /** The comment promises round-robin among equal priorities.  With everybody awake and yielding, the tasks of
      the highest priority take turns exactly when there are at most two of them. */
  lemma RoundRobinExactly(states: seq<Sched>, calls: seq<Call>)
    requires AllYield(states, calls) && |calls| >= |states[0].tasks|
    ensures TakesTurns(states) <==> !ThreeTop(states[0].tasks)
  {
    var s, n := states[0], |states[0].tasks|;
    if n == 1 {
      forall x, i: nat | 0 <= x < n && 0 < i && i + n <= |states| ensures TurnIn(states, x, i, n) {
        AloneRuns(states, calls, i);
      }
    } else {
      var f := LeaderExists(s.tasks, n, -1);
      var g := LeaderExists(s.tasks, n, f);
      if ThreeTop(s.tasks) {
        var p := ThirdTop(s.tasks, f, g);
        ThirdStarves(states, calls, f, g, n - 1 - p);
      } else {
        forall x, i: nat | 0 <= x < n && Top(s.tasks, Place(s, x)) && 0 < i && i + n <= |states|
          ensures TurnIn(states, x, i, n)
        {
          TopIsFirstOrSecond(s.tasks, f, g, Place(s, x));
          FirstTwoRun(states, calls, f, g, x, i, n);
        }
      }
    }
  }

  lemma ThirdStarves(states: seq<Sched>, calls: seq<Call>, f: int, g: int, x: int)
    requires AllYield(states, calls) && |calls| >= |states[0].tasks|
    requires Leads(states[0].tasks, |states[0].tasks|, -1, f) && Leads(states[0].tasks, |states[0].tasks|, f, g)
    requires 0 <= x < |states[0].tasks| && Place(states[0], x) != f && Place(states[0], x) != g
    requires Top(states[0].tasks, Place(states[0], x))
    ensures !TakesTurns(states)
  {
    var n := |states[0].tasks|;
    forall j | 1 <= j < 1 + n ensures states[j].current != x { OthersStarve(states, calls, f, g, x, j); }
    assert !TurnIn(states, x, 1, n);
  }

  ghost predicate ThreeEquals(ts: seq<Task>) {
    |ts| == 3 && ts[0].priority == ts[1].priority == ts[2].priority
  }

  /** From the boot state: two tasks are created, then everybody yields n times; the boot task, of the same
      priority, never runs again. */
  lemma {:induction false} BootTaskStarves(n: nat) returns (states: seq<Sched>, calls: seq<Call>)
    ensures Run(states, calls) && states[0] == Init(0) && |calls| == n + 2
    ensures calls[0] == calls[1] == CreateTask(0, true, true) && forall i :: 2 <= i < |calls| ==> calls[i].YieldNow?
    ensures Awake(states[n + 2]) && ThreeEquals(states[n + 2].tasks)
    ensures forall j :: 2 < j <= n + 2 ==> states[j].current != 0
  {
    var create := CreateTask(0, true, true);
    if n == 0 {
      var s0 := Init(0);
      var s1 := Sched([Task(1, Ready, 0, 0)] + s0.tasks, 0, 2, 0);
      var s2 := Sched([Task(2, Ready, 0, 0)] + s1.tasks, 0, 3, 0);
      RunGrows([s0], [], create, s1);
      RunGrows([s0] + [s1], [] + [create], create, s2);
      states, calls := [s0] + [s1] + [s2], [] + [create] + [create];
    } else {
      states, calls := BootTaskStarves(n - 1);
      RunInv(states, calls, n + 1);
      var s := states[n + 1];
      var r := YieldExists(s);
      AwakeStays(s, r);
      FirstOrSecond(s, r, 0, 1);
      RunGrows(states, calls, YieldNow, r);
      states, calls := states + [r], calls + [YieldNow];
    }
  }
}
