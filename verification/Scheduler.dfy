/**
 The task table of kernel/scheduler.c: a fixed array of task control blocks in which tasks
 are created, finish, and are reaped by compacting the array in place.
 */
module Scheduler {
  const MAX_TASKS := 64
  const MIN_PRIORITY := 1
  const MAX_PRIORITY := 99

  datatype TaskState = Invalid | Running | Done

  datatype Task = Task(tid: nat, state: TaskState, priority: int)

  // Task numbers are 32 bits; fewer than 2^32 - 1 tasks are created.
  const TID_LIMIT := 0xFFFF_FFFF

  /** Some slot holds task tid in the given state. */
  ghost predicate Has(ts: seq<Task>, tid: nat, s: TaskState) {
    exists i :: 0 <= i < |ts| && ts[i].state == s && ts[i].tid == tid
  }

  /** The running tasks, in order. */
  function RunningIn(ts: seq<Task>): seq<Task> {
    if ts == [] then []
    else RunningIn(ts[..|ts| - 1]) + if ts[|ts| - 1].state == Running then [ts[|ts| - 1]] else []
  }

  /** How many slots are in the given state. */
  function CountOf(ts: seq<Task>, s: TaskState): nat {
    if ts == [] then 0 else CountOf(ts[..|ts| - 1], s) + if ts[|ts| - 1].state == s then 1 else 0
  }

  /** Slots in use. */
  function InUse(ts: seq<Task>): nat {
    CountOf(ts, Running) + CountOf(ts, Done)
  }

  /** What reaping leaves: the running tasks moved together, in order, and cleared slots behind them. */
  ghost predicate IsReaped(ts: seq<Task>, ts': seq<Task>) {
    && |ts'| == |ts| && |RunningIn(ts)| <= |ts|
    && ts'[..|RunningIn(ts)|] == RunningIn(ts)
    && forall i :: |RunningIn(ts)| <= i < |ts'| ==> ts'[i].state == Invalid && ts'[i].tid == 0
  }

  /** Every task in use has a number given out, and no two have the same. */
  ghost predicate Numbered(ts: seq<Task>, next: nat) {
    && (forall i :: 0 <= i < |ts| && ts[i].state != Invalid ==> 1 <= ts[i].tid < next)
    && (forall i, j :: 0 <= i < j < |ts| && ts[i].state != Invalid && ts[j].state != Invalid ==> ts[i].tid != ts[j].tid)
  }

  ghost predicate Sound(ts: seq<Task>, count: nat, next: nat) {
    |ts| == MAX_TASKS && count == InUse(ts) && next >= 1 && Numbered(ts, next)
  }

  // ---------- Counting ----------

  lemma {:induction false} CountUpdate(ts: seq<Task>, i: nat, t: Task, s: TaskState)
    requires i < |ts|
    ensures CountOf(ts[i := t], s) + (if ts[i].state == s then 1 else 0) == CountOf(ts, s) + if t.state == s then 1 else 0
  {
    if i == |ts| - 1 {
      assert ts[i := t][..|ts| - 1] == ts[..|ts| - 1];
    } else {
      assert ts[i := t][..|ts| - 1] == ts[..|ts| - 1][i := t];
      CountUpdate(ts[..|ts| - 1], i, t, s);
    }
  }

  lemma {:induction false} RunningCount(ts: seq<Task>)
    ensures |RunningIn(ts)| == CountOf(ts, Running) <= |ts|
    ensures forall i :: 0 <= i < |RunningIn(ts)| ==> RunningIn(ts)[i].state == Running
    ensures forall t :: t in RunningIn(ts) <==> t in ts && t.state == Running
  {
    if ts != [] {
      RunningCount(ts[..|ts| - 1]);
      assert ts == ts[..|ts| - 1] + [ts[|ts| - 1]];
    }
  }

  lemma {:induction false} CountConcat(x: seq<Task>, y: seq<Task>, s: TaskState)
    ensures CountOf(x + y, s) == CountOf(x, s) + CountOf(y, s)
  {
    if y == [] {
      assert x + y == x;
    } else {
      assert (x + y)[..|x + y| - 1] == x + y[..|y| - 1];
      CountConcat(x, y[..|y| - 1], s);
    }
  }

  lemma {:induction false} CountAll(ts: seq<Task>, s: TaskState, r: TaskState)
    requires forall i :: 0 <= i < |ts| ==> ts[i].state == s
    ensures CountOf(ts, r) == if r == s then |ts| else 0
  {
    if ts != [] {
      CountAll(ts[..|ts| - 1], s, r);
    }
  }

  lemma {:induction false} RunningNumbered(ts: seq<Task>, next: nat)
    requires Numbered(ts, next)
    ensures Numbered(RunningIn(ts), next)
  {
    if ts != [] {
      var rest, t := ts[..|ts| - 1], ts[|ts| - 1];
      RunningNumbered(rest, next);
      RunningCount(rest);
      var r := RunningIn(rest);
      assert RunningIn(ts) == r + if t.state == Running then [t] else [];
      hide RunningIn, CountOf;
      forall i | 0 <= i < |r| && t.state != Invalid ensures r[i].tid != t.tid {
        assert r[i] in rest;
        var j :| 0 <= j < |rest| && rest[j] == r[i];
        assert ts[j] == rest[j];
      }
    }
  }

  lemma ReapedNumbered(ts: seq<Task>, ts': seq<Task>, next: nat)
    requires Numbered(ts, next) && IsReaped(ts, ts')
    ensures Numbered(ts', next)
  {
    RunningNumbered(ts, next);
    hide RunningIn;
    var r := RunningIn(ts);
    assert forall i :: 0 <= i < |r| ==> ts'[i] == ts'[..|r|][i];
  }

  lemma ReapedCount(ts: seq<Task>, ts': seq<Task>)
    requires IsReaped(ts, ts')
    ensures CountOf(ts', Running) == CountOf(ts, Running) && CountOf(ts', Done) == 0
  {
    var r := RunningIn(ts);
    RunningCount(ts);
    var x, y := ts'[..|r|], ts'[|r|..];
    assert ts' == x + y;
    CountConcat(x, y, Running);
    CountConcat(x, y, Done);
    CountAll(x, Running, Running);
    CountAll(x, Running, Done);
    CountAll(y, Invalid, Running);
    CountAll(y, Invalid, Done);
  }

  lemma ReapedHas(ts: seq<Task>, ts': seq<Task>, tid: nat)
    requires IsReaped(ts, ts')
    ensures Has(ts', tid, Running) <==> Has(ts, tid, Running)
    ensures !Has(ts', tid, Done)
  {
    RunningCount(ts);
    hide RunningIn;
    var r := RunningIn(ts);
    assert forall i :: 0 <= i < |r| ==> ts'[i] == ts'[..|r|][i] && r[i] in r;
    if i :| 0 <= i < |ts'| && ts'[i].state == Running && ts'[i].tid == tid {
      var j :| 0 <= j < |ts| && ts[j] == ts'[i];
    }
    if j :| 0 <= j < |ts| && ts[j].state == Running && ts[j].tid == tid {
      assert ts[j] in r;
      var i :| 0 <= i < |r| && r[i] == ts[j];
    }
  }

  /** Reaping drops exactly the finished tasks: the table stays sound with the count lowered by their number. */
  lemma ReapedSound(ts: seq<Task>, ts': seq<Task>, count: nat, next: nat)
    requires Sound(ts, count, next) && IsReaped(ts, ts')
    ensures CountOf(ts, Done) <= count && Sound(ts', count - CountOf(ts, Done), next)
    ensures forall tid :: Has(ts', tid, Running) <==> Has(ts, tid, Running)
    ensures forall tid :: !Has(ts', tid, Done)
  {
    ReapedNumbered(ts, ts', next);
    ReapedCount(ts, ts');
    hide RunningIn, CountOf, Numbered, Has;
    forall tid: nat ensures (Has(ts', tid, Running) <==> Has(ts, tid, Running)) && !Has(ts', tid, Done) {
      ReapedHas(ts, ts', tid);
    }
  }

  // ---------- The scheduler ----------

  class Table {
    var tasks: array<Task>
    var count: nat
    var nextTid: nat

    ghost predicate Valid()
      reads this, tasks
    {
      tasks.Length == MAX_TASKS && Sound(tasks[..], count, nextTid)
    }

    constructor ()
      ensures Valid() && count == 0 && nextTid == 1 && fresh(tasks)
      ensures forall i :: 0 <= i < MAX_TASKS ==> tasks[i].state == Invalid && tasks[i].tid == 0
    {
      tasks := new Task[MAX_TASKS](_ => Task(0, Invalid, 0));
      count, nextTid := 0, 1;
      new;
      CountAll(tasks[..], Invalid, Running);
      CountAll(tasks[..], Invalid, Done);
    }

    /** The first slot not in use; -1 if all are. */
    method FreeSlot() returns (slot: int)
      requires tasks.Length == MAX_TASKS
      ensures -1 <= slot < MAX_TASKS
      ensures slot == -1 <==> forall i :: 0 <= i < MAX_TASKS ==> tasks[i].state != Invalid
      ensures slot >= 0 ==> tasks[slot].state == Invalid && forall i :: 0 <= i < slot ==> tasks[i].state != Invalid
    {
      for i := 0 to MAX_TASKS
        invariant forall j :: 0 <= j < i ==> tasks[j].state != Invalid
      {
        if tasks[i].state == Invalid {
          return i;
        }
      }
      return -1;
    }

    /** Creates a task; `hasArgs` and `started` say whether the arguments and the thread could be had. 0 is failure. The
        table stays sound exactly until the 32-bit number of the next task wraps to 0. */
    method Create(priority: int, hasArgs: bool, started: bool) returns (tid: nat)
      requires Valid() && nextTid <= TID_LIMIT
      modifies this, tasks
      ensures tasks == old(tasks) && (Valid() <==> nextTid != 0)
      ensures tid != 0 ==>
                && tid == old(nextTid) && nextTid == (tid + 1) % 0x1_0000_0000 && count == old(count) + 1
                && exists k :: 0 <= k < MAX_TASKS && Creates(old(tasks[..]), tasks[..], k, Task(tid, Running, priority))
      ensures tid == 0 ==> count == old(count) && (nextTid == old(nextTid) || nextTid == (old(nextTid) + 1) % 0x1_0000_0000)
      ensures tid == 0 ==> forall t, s :: s != Invalid ==> (Has(tasks[..], t, s) <==> Has(old(tasks[..]), t, s))
      ensures tid == 0 <==>
                || priority < MIN_PRIORITY || priority > MAX_PRIORITY || !hasArgs || !started
                || forall i :: 0 <= i < MAX_TASKS ==> old(tasks[i].state) != Invalid
    {
      if priority < MIN_PRIORITY || priority > MAX_PRIORITY {
        return 0;
      }
      if !hasArgs {
        return 0;
      }
      var slot := FreeSlot();
      if slot == -1 {
        return 0;
      }
      ghost var ts := tasks[..];
      tid := nextTid;
      nextTid := (nextTid + 1) % 0x1_0000_0000;
      tasks[slot] := Task(tid, Running, priority);
      assert tasks[..] == ts[slot := Task(tid, Running, priority)];
      CreateSound(ts, count, tid, slot, Task(tid, Running, priority));
      if !started {
        tasks[slot] := tasks[slot].(state := Invalid);
        assert tasks[..] == ts[slot := Task(tid, Invalid, priority)];
        CreateSound(ts, count, tid, slot, Task(tid, Invalid, priority));
        UncreatedHas(ts, slot, Task(tid, Invalid, priority));
        tid := 0;
      } else {
        count := count + 1;
        assert Creates(ts, tasks[..], slot, Task(tid, Running, priority));
      }
    }

    /** The end of a task's thread: marks the task done. It looks for the task by number, since reaping moves slots. */
    method Finish(tid: nat) returns (found: bool)
      requires Valid()
      modifies tasks
      ensures Valid()
      ensures found <==> Has(old(tasks[..]), tid, Running) || Has(old(tasks[..]), tid, Done)
      ensures found ==> exists i :: Finishes(old(tasks[..]), tasks[..], i, tid)
      ensures !found ==> tasks[..] == old(tasks[..])
    {
      ghost var ts := tasks[..];
      for i := 0 to MAX_TASKS
        invariant tasks[..] == ts
        invariant forall j :: 0 <= j < i ==> !(ts[j].state != Invalid && ts[j].tid == tid)
      {
        if tasks[i].state != Invalid && tasks[i].tid == tid {
          tasks[i] := tasks[i].(state := Done);
          assert tasks[..] == ts[i := ts[i].(state := Done)];
          FinishSound(ts, count, nextTid, i);
          assert Finishes(ts, tasks[..], i, tid);
          return true;
        }
      }
      return false;
    }

    /** Sets the simulated priority of a running task. */
    method SetPriority(tid: nat, priority: int)
      requires Valid()
      modifies tasks
      ensures Valid()
      ensures SamePriorityAside(old(tasks[..]), tasks[..])
      ensures forall i :: 0 <= i < MAX_TASKS ==>
                tasks[i].priority == if old(tasks[i].state) == Running && old(tasks[i].tid) == tid then priority else old(tasks[i].priority)
    {
      ghost var ts := tasks[..];
      for i := 0 to MAX_TASKS
        invariant tasks[..] == ts
        invariant forall j :: 0 <= j < i ==> !(ts[j].state == Running && ts[j].tid == tid)
      {
        if tasks[i].state == Running && tasks[i].tid == tid {
          tasks[i] := tasks[i].(priority := priority);
          assert tasks[..] == ts[i := ts[i].(priority := priority)];
          PrioritySound(ts, tasks[..], count, nextTid);
          return;
        }
      }
    }

    /** The manager's first phase: each running task's priority drifts by -1, 0 or 1 and is kept in range. */
    method AdjustPriorities(drift: seq<int>)
      requires Valid() && |drift| == MAX_TASKS && forall i :: 0 <= i < MAX_TASKS ==> -1 <= drift[i] <= 1
      modifies tasks
      ensures Valid()
      ensures SamePriorityAside(old(tasks[..]), tasks[..])
      ensures forall i :: 0 <= i < MAX_TASKS ==>
                tasks[i].priority == if tasks[i].state == Running then Clamp(old(tasks[i].priority) + drift[i]) else old(tasks[i].priority)
    {
      ghost var ts := tasks[..];
      for i := 0 to MAX_TASKS
        invariant SamePriorityAside(ts, tasks[..])
        invariant forall j :: 0 <= j < MAX_TASKS ==>
                    tasks[j].priority == if j < i && tasks[j].state == Running then Clamp(ts[j].priority + drift[j]) else ts[j].priority
      {
        if tasks[i].state != Running {
          continue;
        }
        var priority := tasks[i].priority + drift[i];
        priority := if priority < MIN_PRIORITY then MIN_PRIORITY else priority;
        priority := if priority > MAX_PRIORITY then MAX_PRIORITY else priority;
        if priority != tasks[i].priority {
          tasks[i] := tasks[i].(priority := priority);
        }
      }
      PrioritySound(ts, tasks[..], count, nextTid);
    }

    /** Moves the running tasks together with read and write indices, then clears the slots behind them. */
    method Reap()
      requires Valid()
      modifies this`count, tasks
      ensures Valid()
      ensures IsReaped(old(tasks[..]), tasks[..]) && count == old(count) - CountOf(old(tasks[..]), Done)
    {
      hide RunningIn, CountOf;
      ghost var ts := tasks[..];
      RunningNone(ts);
      var write, reaped := 0, 0;
      for read := 0 to MAX_TASKS
        invariant write <= read && count == old(count)
        invariant forall i :: read <= i < MAX_TASKS ==> tasks[i] == ts[i]
        invariant tasks[..write] == RunningIn(ts[..read]) && reaped == CountOf(ts[..read], Done)
      {
        RunningOne(ts, read);
        if tasks[read].state == Running {
          ghost var kept := tasks[..write];
          if read != write {
            tasks[write] := tasks[read];
          }
          write := write + 1;
          assert tasks[..write] == kept + [ts[read]];
        } else if tasks[read].state == Done {
          reaped := reaped + 1;
        }
      }
      assert ts[..MAX_TASKS] == ts;
      ghost var kept := tasks[..write];
      for i := write to MAX_TASKS
        invariant tasks[..write] == kept && count == old(count)
        invariant forall j :: write <= j < i ==> tasks[j].state == Invalid && tasks[j].tid == 0
      {
        tasks[i] := tasks[i].(state := Invalid, tid := 0);
      }
      assert IsReaped(ts, tasks[..]);
      ReapedSound(ts, tasks[..], count, nextTid);
      count := count - reaped;
    }
  }

  /** The first slot that holds task tid is marked done. */
  ghost predicate Finishes(ts: seq<Task>, ts': seq<Task>, i: nat, tid: nat) {
    && i < |ts| && ts[i].state != Invalid && ts[i].tid == tid
    && ts' == ts[i := ts[i].(state := Done)]
  }

  /** A priority brought into range. */
  function Clamp(p: int): (r: int)
    ensures MIN_PRIORITY <= r <= MAX_PRIORITY
    ensures MIN_PRIORITY <= p <= MAX_PRIORITY ==> r == p
  {
    if p < MIN_PRIORITY then MIN_PRIORITY else if p > MAX_PRIORITY then MAX_PRIORITY else p
  }

  /** Only priorities differ. */
  ghost predicate SamePriorityAside(ts: seq<Task>, ts': seq<Task>) {
    |ts| == |ts'| && forall i :: 0 <= i < |ts| ==> ts'[i].tid == ts[i].tid && ts'[i].state == ts[i].state
  }

  lemma FinishSound(ts: seq<Task>, count: nat, next: nat, i: nat)
    requires Sound(ts, count, next) && i < |ts| && ts[i].state != Invalid
    ensures Sound(ts[i := ts[i].(state := Done)], count, next)
  {
    CountUpdate(ts, i, ts[i].(state := Done), Running);
    CountUpdate(ts, i, ts[i].(state := Done), Done);
    hide CountOf;
  }

  lemma {:induction false} PriorityCount(ts: seq<Task>, ts': seq<Task>, s: TaskState)
    requires SamePriorityAside(ts, ts')
    ensures CountOf(ts', s) == CountOf(ts, s)
  {
    if ts != [] {
      PriorityCount(ts[..|ts| - 1], ts'[..|ts| - 1], s);
    }
  }

  lemma PrioritySound(ts: seq<Task>, ts': seq<Task>, count: nat, next: nat)
    requires Sound(ts, count, next) && SamePriorityAside(ts, ts')
    ensures Sound(ts', count, next)
  {
    PriorityCount(ts, ts', Running);
    PriorityCount(ts, ts', Done);
    hide CountOf;
  }

  lemma RunningNone(ts: seq<Task>)
    ensures RunningIn(ts[..0]) == [] && CountOf(ts[..0], Done) == 0
  {}

  lemma RunningOne(ts: seq<Task>, read: nat)
    requires read < |ts|
    ensures RunningIn(ts[..read + 1]) == RunningIn(ts[..read]) + if ts[read].state == Running then [ts[read]] else []
    ensures CountOf(ts[..read + 1], Done) == CountOf(ts[..read], Done) + if ts[read].state == Done then 1 else 0
  {
    assert ts[..read + 1][..read] == ts[..read];
  }

  /** Slot k, the first not in use, becomes t. */
  ghost predicate Creates(ts: seq<Task>, ts': seq<Task>, k: nat, t: Task) {
    && k < |ts| && ts[k].state == Invalid && ts' == ts[k := t]
    && forall i :: 0 <= i < k ==> ts[i].state != Invalid
  }

  /** Filling a free slot with the next number keeps the table sound. */
  lemma CreateSound(ts: seq<Task>, count: nat, next: nat, k: nat, t: Task)
    requires Sound(ts, count, next) && k < |ts| && ts[k].state == Invalid && t.tid == next && t.state != Done
    ensures Sound(ts[k := t], if t.state == Running then count + 1 else count, next + 1)
  {
    CountUpdate(ts, k, t, Running);
    CountUpdate(ts, k, t, Done);
    hide CountOf;
  }

  lemma UncreatedHas(ts: seq<Task>, k: nat, t: Task)
    requires k < |ts| && ts[k].state == Invalid && t.state == Invalid
    ensures forall tid, s :: s != Invalid ==> (Has(ts[k := t], tid, s) <==> Has(ts, tid, s))
  {
    var ts' := ts[k := t];
    forall tid, s | s != Invalid ensures Has(ts', tid, s) <==> Has(ts, tid, s) {
      if i :| 0 <= i < |ts| && ts[i].state == s && ts[i].tid == tid {
        assert ts'[i] == ts[i];
      }
    }
  }
}
