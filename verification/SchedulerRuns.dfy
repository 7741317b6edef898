/**
 The life of tasks in kernel/scheduler.c over every interleaving of creation, the end of
 task threads, priority changes and reaping, each critical section being one step.
 */
module SchedulerRuns {
  import opened Scheduler

  /** The table, and the numbers of tasks whose threads still run, have ended, and have been reaped. */
  datatype World = World(table: seq<Task>, count: nat, next: nat, running: set<nat>, done: set<nat>, reaped: set<nat>)

  datatype Step =
    | Create(slot: nat, priority: int)
    | CreateFails(slot: nat, priority: int)
    | Finish(tid: nat, slot: nat)
    | SetPriorities
    | Reap

  /** Creation fills the first free slot; each thread ends once, in the slot it finds by number; priorities change
      nothing else; reaping compacts. */
  ghost predicate Next(w: World, step: Step, w': World) {
    match step
    case Create(k, p) =>
      && w.next < TID_LIMIT && Creates(w.table, w'.table, k, Task(w.next, Running, p))
      && w' == w.(table := w'.table, count := w.count + 1, next := w.next + 1, running := w.running + {w.next})
    case CreateFails(k, p) =>
      && w.next < TID_LIMIT && Creates(w.table, w'.table, k, Task(w.next, Invalid, p))
      && w' == w.(table := w'.table, next := w.next + 1)
    case Finish(tid, i) =>
      && tid in w.running && Finishes(w.table, w'.table, i, tid)
      && w' == w.(table := w'.table, running := w.running - {tid}, done := w.done + {tid})
    case SetPriorities =>
      SamePriorityAside(w.table, w'.table) && w' == w.(table := w'.table)
    case Reap =>
      && IsReaped(w.table, w'.table)
      && w' == w.(table := w'.table, count := w'.count, done := {}, reaped := w.reaped + w.done)
      && w'.count == w.count - CountOf(w.table, Done)
  }

  /** The table is sound and holds exactly the tasks that run, as running, and those that ended and were not reaped, as done. */
  ghost predicate Inv(w: World) {
    && Sound(w.table, w.count, w.next)
    && (forall tid :: Has(w.table, tid, Running) <==> tid in w.running)
    && (forall tid :: Has(w.table, tid, Done) <==> tid in w.done)
    && (forall tid :: tid in w.running ==> 1 <= tid < w.next)
    && (forall tid :: tid in w.done ==> 1 <= tid < w.next)
    && (forall tid :: tid in w.reaped ==> 1 <= tid < w.next)
    && w.running !! w.done && w.running !! w.reaped && w.done !! w.reaped
  }

  /** A run starts with an empty table. */
  lemma StartInv(table: seq<Task>)
    requires |table| == MAX_TASKS && forall i :: 0 <= i < MAX_TASKS ==> table[i].state == Invalid
    ensures Inv(World(table, 0, 1, {}, {}, {}))
  {
    CountAll(table, Invalid, Running);
    CountAll(table, Invalid, Done);
  }

  lemma UpdateHas(ts: seq<Task>, k: nat, t: Task, tid: nat, s: TaskState)
    requires k < |ts| && s != Invalid
    requires forall i :: 0 <= i < |ts| && i != k && ts[i].state != Invalid ==> ts[i].tid != ts[k].tid || ts[k].state == Invalid
    ensures Has(ts[k := t], tid, s) <==>
            (t.state == s && t.tid == tid) || (Has(ts, tid, s) && (ts[k].state == Invalid || tid != ts[k].tid))
  {
    var ts' := ts[k := t];
    if Has(ts', tid, s) {
      var i :| 0 <= i < |ts'| && ts'[i].state == s && ts'[i].tid == tid;
      if i != k { assert ts[i] == ts'[i]; }
    }
    if t.state == s && t.tid == tid {
      assert ts'[k] == t;
    }
    if Has(ts, tid, s) && (ts[k].state == Invalid || tid != ts[k].tid) {
      var i :| 0 <= i < |ts| && ts[i].state == s && ts[i].tid == tid;
      assert ts'[i] == ts[i];
    }
  }

  lemma CreateKeeps(w: World, k: nat, t: Task, w': World)
    requires Inv(w) && Creates(w.table, w'.table, k, t) && t.tid == w.next && t.state != Done
    requires w' == w.(table := w'.table, next := w.next + 1,
                      count := if t.state == Running then w.count + 1 else w.count,
                      running := if t.state == Running then w.running + {w.next} else w.running)
    ensures Inv(w')
  {
    CreateSound(w.table, w.count, w.next, k, t);
    hide CountOf, Has;
    forall tid: nat
      ensures Has(w'.table, tid, Running) <==> tid in w'.running
      ensures Has(w'.table, tid, Done) <==> tid in w'.done
    {
      UpdateHas(w.table, k, t, tid, Running);
      UpdateHas(w.table, k, t, tid, Done);
    }
  }

  lemma FinishKeeps(w: World, tid: nat, i: nat, w': World)
    requires Inv(w) && Next(w, Finish(tid, i), w')
    ensures Inv(w')
  {
    FinishSound(w.table, w.count, w.next, i);
    hide CountOf, Has;
    var t := w.table[i].(state := Done);
    forall id: nat
      ensures Has(w'.table, id, Running) <==> id in w'.running
      ensures Has(w'.table, id, Done) <==> id in w'.done
    {
      UpdateHas(w.table, i, t, id, Running);
      UpdateHas(w.table, i, t, id, Done);
    }
  }

  lemma PrioritiesKeep(w: World, w': World)
    requires Inv(w) && Next(w, SetPriorities, w')
    ensures Inv(w')
  {
    PrioritySound(w.table, w'.table, w.count, w.next);
    forall tid: nat, s: TaskState ensures Has(w'.table, tid, s) <==> Has(w.table, tid, s) {
      if i :| 0 <= i < |w.table| && w.table[i].state == s && w.table[i].tid == tid {
        assert w'.table[i].state == s && w'.table[i].tid == tid;
      }
    }
  }

  lemma ReapKeeps(w: World, w': World)
    requires Inv(w) && Next(w, Reap, w')
    ensures Inv(w')
  {
    ReapedSound(w.table, w'.table, w.count, w.next);
    hide CountOf, Has, IsReaped, Numbered;
  }

  lemma NextKeeps(w: World, step: Step, w': World)
    requires Inv(w) && Next(w, step, w')
    ensures Inv(w')
  {
    hide Inv;
    match step
    case Create(k, p) => CreateKeeps(w, k, Task(w.next, Running, p), w');
    case CreateFails(k, p) => CreateKeeps(w, k, Task(w.next, Invalid, p), w');
    case Finish(tid, i) => FinishKeeps(w, tid, i, w');
    case SetPriorities => PrioritiesKeep(w, w');
    case Reap => ReapKeeps(w, w');
  }

  ghost predicate Run(ws: seq<World>, steps: seq<Step>) {
    |ws| == |steps| + 1 && forall i :: 0 <= i < |steps| ==> Next(ws[i], steps[i], ws[i + 1])
  }

  /** In every reachable state the count is the number of slots in use, and each task created is in exactly one slot
      as running until its thread ends, then as done until it is reaped, then in none. */
  lemma {:induction false} RunKeeps(ws: seq<World>, steps: seq<Step>, k: nat)
    requires Run(ws, steps) && Inv(ws[0]) && k <= |steps|
    ensures Inv(ws[k])
  {
    if k > 0 {
      RunKeeps(ws, steps, k - 1);
      hide Inv;
      NextKeeps(ws[k - 1], steps[k - 1], ws[k]);
    }
  }

  /** A task that runs has exactly one slot, so its thread always finds it when it ends. */
  lemma OneSlot(w: World, tid: nat) returns (i: nat)
    requires Inv(w) && tid in w.running
    ensures i < |w.table| && w.table[i].tid == tid && w.table[i].state == Running
    ensures forall j :: 0 <= j < |w.table| && j != i && w.table[j].state != Invalid ==> w.table[j].tid != tid
    ensures Next(w, Finish(tid, i), w.(table := w.table[i := w.table[i].(state := Done)], running := w.running - {tid}, done := w.done + {tid}))
  {
    assert Has(w.table, tid, Running);
    i :| 0 <= i < |w.table| && w.table[i].state == Running && w.table[i].tid == tid;
  }

  /** Once reaped, a task number stays reaped and is in no slot, for the rest of the run. */
  lemma {:induction false} ReapedForGood(ws: seq<World>, steps: seq<Step>, j: nat, k: nat, tid: nat)
    requires Run(ws, steps) && Inv(ws[0]) && j <= k <= |steps| && tid in ws[j].reaped
    ensures tid in ws[k].reaped && !Has(ws[k].table, tid, Running) && !Has(ws[k].table, tid, Done)
  {
    RunKeeps(ws, steps, k);
    if j < k {
      ReapedForGood(ws, steps, j, k - 1, tid);
    }
  }
}
