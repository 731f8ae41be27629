/** The cooperative priority scheduler: task structs updated in place, each call proved to do what
    SchedulerSpec says. */
module Scheduler {
  import opened Memory
  import opened SchedulerSpec

  const INVALID_TASK_ID := -1

  /** task_t; its stack pointer and stack are the subject of ContextSwitch. */
  class TaskNode {
    var id: int
    var state: TaskState
    var priority: uint32
    var wakeTick: uint32
    const next: TaskNode?    // set once, when the task is put in front of the list

    constructor (id: int, state: TaskState, priority: uint32, next: TaskNode?)
      ensures View() == Task(id, state, priority, 0) && this.next == next
    {
      this.id, this.state, this.priority, this.wakeTick, this.next := id, state, priority, 0, next;
    }

    function View(): (t: Task)
      reads this
    {
      Task(id, state, priority, wakeTick)
    }
  }

  ghost function Views(ts: seq<TaskNode>): (r: seq<Task>)
    reads ts
    ensures |r| == |ts| && forall i :: 0 <= i < |ts| ==> r[i] == ts[i].View()
  {
    seq(|ts|, i requires 0 <= i < |ts| reads ts => ts[i].View())
  }

  /** The node at position i, or null after the last. */
  ghost function NodeAt(ts: seq<TaskNode>, i: nat): (t: TaskNode?) {
    if i < |ts| then ts[i] else null
  }

  ghost predicate LinkAt(ts: seq<TaskNode>, i: nat)
    requires i < |ts|
  {
    ts[i].next == NodeAt(ts, i + 1)
  }

  /** Following next from head visits ts. */
  ghost predicate Chain(head: TaskNode?, ts: seq<TaskNode>) {
    head == NodeAt(ts, 0) && forall i :: 0 <= i < |ts| ==> LinkAt(ts, i)
  }

  lemma ChainGrows(head: TaskNode?, ts: seq<TaskNode>, t: TaskNode)
    requires Chain(head, ts) && t.next == head
    ensures Chain(t, [t] + ts)
  {
    var ts' := [t] + ts;
    forall i | 0 <= i < |ts'| ensures LinkAt(ts', i) {
      if i > 0 { assert LinkAt(ts, i - 1); }
    }
  }

  class Kernel {
    var taskList: TaskNode?     // g_task_list
    ghost var list: seq<TaskNode>
    var current: TaskNode       // g_current_task
    var nextId: int             // g_next_id
    var ticks: uint32           // g_sched_ticks

    ghost function View(): (s: Sched)
      reads this, list, current
    {
      Sched(Views(list), current.id, nextId, ticks)
    }

    /** The list is numbered and holds the current task. */
    ghost predicate Linked()
      reads this, list, current
    {
      Chain(taskList, list) && current in list && Numbered(View())
    }

    ghost predicate Valid()
      reads this, list, current
    {
      Chain(taskList, list) && current in list && Inv(View())
    }

    /** sys_sched_init: the running thread becomes task 0. */
    constructor (ticks: uint32)
      ensures Valid() && View() == Init(ticks)
    {
      var boot := new TaskNode(0, Running, 0, null);
      taskList, list := boot, [boot];
      current := boot;
      nextId := 1;
      this.ticks := ticks;
    }

    /** The first step of pick_next's loop body. */
    method Wake(t: TaskNode, ghost i: nat)
      requires Linked() && i < |list| && list[i] == t
      modifies t`state
      ensures Linked()
      ensures Views(list) == old(Views(list))[i := Woken(old(t.View()), ticks)]
    {
      ghost var vs := Views(list);
      if t.state.Blocked? && t.wakeTick <= ticks { t.state := Ready; }
      forall j | 0 <= j < |list| && j != i ensures list[j].View() == vs[j] {
        assert vs[j].id != vs[i].id;
      }
      assert Views(list) == vs[i := Woken(vs[i], ticks)];
    }

    /** The first i tasks of vs have been woken if due. */
    ghost predicate Walked(vs: seq<Task>, i: nat)
      reads this, list
    {
      && |vs| == |list|
      && forall j :: 0 <= j < |list| ==> Views(list)[j] == if j < i then Woken(vs[j], ticks) else vs[j]
    }

    /** best is the choice among the first n tasks of vs, standing at k, or null if there is none. */
    ghost predicate BestSoFar(best: TaskNode?, vs: seq<Task>, n: nat, k: nat)
      reads this, list, current
      requires n <= |vs|
    {
      if best == null then NoCandidate(vs, n, ticks, current.id)
      else FirstOfHighest(vs, n, ticks, current.id, k) && k < |list| && best == list[k]
    }

    /** The body of pick_next's loop, for task i; vs is the list as it was before the loop. */
    method Visit(t: TaskNode, best: TaskNode?, ghost i: nat, ghost vs: seq<Task>, ghost k: nat)
      returns (best': TaskNode?, ghost k': nat)
      requires Linked() && i < |list| && list[i] == t
      requires Walked(vs, i) && BestSoFar(best, vs, i, k)
      modifies t`state
      ensures Linked()
      ensures Walked(vs, i + 1) && BestSoFar(best', vs, i + 1, k')
    {
      assert t.View() == vs[i];
      Wake(t, i);
      assert t.View() == Woken(vs[i], ticks) && (best != null ==> best.View() == Woken(vs[k], ticks));
      SameTask(t);
      SelectOne(vs, i, ticks, current.id, k);
      best', k' := best, k;
      if t.state != Ready && t != current { return; }
      if t == current { return; }
      if t.state.Ready? {
        if best == null || t.priority > best.priority { best', k' := t, i; }
      }
    }

    /** Wakes and selects in one walk over the list; the same as waking everybody who is due and then taking
        the first of the ready tasks of highest priority, or the current task if there is none. */
    method PickNext() returns (next: TaskNode, ghost k: nat)
      requires Linked()
      modifies list`state
      ensures Linked()
      ensures AllWoken(old(Views(list)), Views(list), ticks)
      ensures next == current ==> NoCandidate(old(Views(list)), |list|, ticks, current.id)
      ensures next != current ==>
        FirstOfHighest(old(Views(list)), |list|, ticks, current.id, k) && list[k] == next
    {
      ghost var vs := Views(list);
      var best: TaskNode? := null;
      k := 0;
      var t := taskList;
      ghost var i := 0;
      while t != null
        invariant Linked() && i <= |list| && t == NodeAt(list, i)
        invariant Walked(vs, i) && BestSoFar(best, vs, i, k)
        decreases |list| - i
      {
        assert LinkAt(list, i);
        best, k := Visit(t, best, i, vs, k);
        t, i := t.next, i + 1;
      }
      WalkDone(vs, best, k);
      if best == null { return current, k; }
      return best, k;
    }

    /** What the walk has established at its end. */
    lemma WalkDone(vs: seq<Task>, best: TaskNode?, k: nat)
      requires Linked() && Walked(vs, |list|) && BestSoFar(best, vs, |list|, k)
      ensures AllWoken(vs, Views(list), ticks)
      ensures best == null ==> NoCandidate(vs, |list|, ticks, current.id)
      ensures best != null ==> best != current && FirstOfHighest(vs, |list|, ticks, current.id, k) && list[k] == best
    {
      if best != null { assert Views(list)[k].id == vs[k].id; }
    }

    lemma SameTask(t: TaskNode)
      requires Linked() && t in list
      ensures t == current <==> t.id == current.id
    {
      var i :| 0 <= i < |list| && list[i] == t;
      var j :| 0 <= j < |list| && list[j] == current;
      assert Views(list)[i].id == |list| - 1 - i && Views(list)[j].id == |list| - 1 - j;
    }

    /** The state changes of a switch, after pick_next; s is the state before the yield. */
    method Switch(prev: TaskNode, next: TaskNode, ghost s: Sched, ghost k: nat)
      requires Linked() && prev == current && next != prev && k < |list| && list[k] == next
      requires |s.tasks| == |list| && s.nextId == nextId && s.current == prev.id && (s.ticks + 1) % TWO32 == ticks
      requires AllWoken(s.tasks, Views(list), ticks)
      requires FirstOfHighest(s.tasks, |list|, ticks, prev.id, k)
      modifies this`current, prev`state, next`state
      ensures list == old(list) && current == next && Linked() && Yielded(s, View())
    {
      SameTask(next);
      if prev.state.Running? { prev.state := Ready; }
      next.state := Running;
      current := next;
      forall i | 0 <= i < |list| ensures Views(list)[i] == AfterYield(s.tasks[i], ticks, prev.id, next.id) {
        Identify(i, prev, next);
      }
      assert s.tasks[k].id == next.id;
    }

    /** Two nodes of the list with the same id are the same node. */
    lemma Identify(i: nat, prev: TaskNode, next: TaskNode)
      requires i < |list| && prev in list && next in list
      requires forall j :: 0 <= j < |list| ==> list[j].id == |list| - 1 - j
      ensures (list[i] == prev <==> list[i].id == prev.id) && (list[i] == next <==> list[i].id == next.id)
    {
      var p :| 0 <= p < |list| && list[p] == prev;
      var q :| 0 <= q < |list| && list[q] == next;
      assert list[p].id == |list| - 1 - p && list[q].id == |list| - 1 - q && list[i].id == |list| - 1 - i;
    }

    /** sys_yield after the tick; s is the state before it. */
    method Reschedule(ghost s: Sched)
      requires Linked() && s == View().(ticks := s.ticks) && (s.ticks + 1) % TWO32 == ticks
      modifies this`current, list`state
      ensures Linked() && Yielded(s, View())
    {
      var prev := current;
      var next, k := PickNext();
      if next == prev {
        YieldStays(s, View());
      } else {
        Switch(prev, next, s, k);
      }
    }

    /** sys_yield. */
    method Yield()
      requires Linked() && OnlyCurrentRuns(View())
      modifies this`current, this`ticks, list`state
      ensures list == old(list) && Valid() && Yielded(old(View()), View())
    {
      ghost var s := View();
      ticks := (ticks + 1) % TWO32;
      Reschedule(s);
      YieldOutcome(s, View());
    }

    /** Storing a new state, and perhaps a new wake time, in the current task. */
    method Mark(state: TaskState, wakeTick: uint32)
      requires Linked()
      modifies current`state, current`wakeTick
      ensures Linked()
      ensures var s := old(View()); var p := Place(s, current.id);
        View() == s.(tasks := s.tasks[p := s.tasks[p].(state := state, wakeTick := wakeTick)])
    {
      ghost var s := View();
      ghost var p :| 0 <= p < |list| && list[p] == current;
      assert s.tasks[p].id == |list| - 1 - p;
      current.state := state;
      current.wakeTick := wakeTick;
      forall j | 0 <= j < |list| && j != p ensures list[j].View() == s.tasks[j] {
        assert s.tasks[j].id != s.tasks[p].id;
      }
      assert Views(list) == s.tasks[p := s.tasks[p].(state := state, wakeTick := wakeTick)];
    }

    /** sys_sleep. */
    method Sleep(ms: uint32)
      requires Valid()
      modifies this`current, this`ticks, list`state, list`wakeTick
      ensures list == old(list) && Valid() && Stepped(old(View()), SchedulerSpec.Sleep(ms), View())
    {
      ghost var s := View();
      Mark(Blocked, (ticks + ms) % TWO32);
      assert View() == BeforeYield(s, SchedulerSpec.Sleep(ms));
      Yield();
    }

    /** sys_task_exit, up to the point where the task would spin. */
    method Exit()
      requires Valid()
      modifies this`current, this`ticks, list`state, list`wakeTick
      ensures list == old(list) && Valid() && Stepped(old(View()), SchedulerSpec.Exit, View())
    {
      Mark(Dead, current.wakeTick);
      Yield();
    }

    /** sys_create_task; the parameters say whether each kmalloc succeeds. */
    method CreateTask(priority: uint32, taskFits: bool, stackFits: bool) returns (id: int)
      requires Valid() && nextId < MAX_ID
      modifies this`taskList, this`list, this`nextId
      ensures Valid() && Stepped(old(View()), SchedulerSpec.CreateTask(priority, taskFits, stackFits), View())
      ensures id == if taskFits && stackFits then old(nextId) else INVALID_TASK_ID
    {
      if !taskFits || !stackFits { return INVALID_TASK_ID; }
      ghost var s := View();
      var t := new TaskNode(nextId, Ready, priority, taskList);
      nextId := nextId + 1;
      ChainGrows(taskList, list, t);
      taskList, list := t, [t] + list;
      id := t.id;
      assert View().tasks == [Task(s.nextId, Ready, priority, 0)] + s.tasks;
    }

    /** find_task. */
    method FindTask(id: int) returns (t: TaskNode?)
      requires Chain(taskList, list)
      ensures t == NodeAt(list, Find(Views(list), id))
    {
      t := taskList;
      ghost var i := 0;
      while t != null && t.id != id
        invariant i <= |list| && t == NodeAt(list, i)
        invariant forall j :: 0 <= j < i ==> Views(list)[j].id != id
        decreases |list| - i
      {
        assert LinkAt(list, i);
        t, i := t.next, i + 1;
      }
      assert Find(Views(list), id) == i;
    }

    /** sys_query_task succeeds exactly on the ids handed out, given somewhere to put the answer. */
    method QueryTask(id: int, hasInfo: bool) returns (code: int, info: Task)
      requires Valid()
      ensures code == if 0 <= id < nextId && hasInfo then 0 else -1
      ensures code == 0 ==> var t := TaskOf(View(), id);
        info.id == id && info.state == t.state && info.priority == t.priority
    {
      var t := FindTask(id);
      FindIsPlace(View(), id);
      info := Task(INVALID_TASK_ID, Dead, 0, 0);
      if t == null || !hasInfo { return -1, info; }
      return 0, Task(t.id, t.state, t.priority, 0);
    }
  }
}
