/**
 The interleaving of the spinlocks of kernel/memory.c: cores that keep to the order the memory operations are proved to
 keep to, on every return path, never deadlock.
 */
module LockOrder {
  import opened Locks
  import opened Wrappers

  /** From `held` on, locks are taken only above all locks held, released in reverse order, and all released at the end. */
  ghost predicate Disciplined(held: seq<Lock>, t: seq<Action>) {
    Follow(held, t) == Some([])
  }

  // ---------- Interleaving ----------

  /** A core: the locks it holds, oldest first, and what it has yet to do. */
  datatype Core = Core(held: seq<Lock>, rest: seq<Action>)

  /** The cores, and the holder of each lock that is taken. */
  datatype State = State(cores: seq<Core>, holder: map<Lock, nat>)

  ghost predicate Init(s: State) {
    s.holder == map[] && forall i :: 0 <= i < |s.cores| ==> s.cores[i].held == [] && Disciplined([], s.cores[i].rest)
  }

  predicate CanStep(s: State, i: nat) {
    && i < |s.cores| && s.cores[i].rest != []
    && (s.cores[i].rest[0].Acquire? ==> s.cores[i].rest[0].lock !in s.holder)
  }

  /** Core i performs its next action; an acquisition waits, spinning, until the lock is free. */
  function Step(s: State, i: nat): State
    requires CanStep(s, i)
  {
    var c := s.cores[i];
    match c.rest[0]
    case Acquire(l) => State(s.cores[i := Core(c.held + [l], c.rest[1..])], s.holder[l := i])
    case Release(l) =>
      var held := if c.held != [] then c.held[..|c.held| - 1] else c.held;
      State(s.cores[i := Core(held, c.rest[1..])], s.holder - {l})
  }

  ghost predicate Strict(held: seq<Lock>) {
    forall i, j :: 0 <= i < j < |held| ==> held[i] < held[j]
  }

  ghost predicate Orderly(s: State) {
    forall i :: 0 <= i < |s.cores| ==> Disciplined(s.cores[i].held, s.cores[i].rest) && Strict(s.cores[i].held)
  }

  ghost predicate HoldersHold(s: State) {
    forall l: Lock :: l in s.holder ==> s.holder[l] < |s.cores| && l in s.cores[s.holder[l]].held
  }

  ghost predicate HeldHaveHolder(s: State) {
    forall i, l: Lock :: 0 <= i < |s.cores| && l in s.cores[i].held ==> l in s.holder && s.holder[l] == i
  }

  /** Each core is disciplined, and a lock is taken exactly when one core, its holder, has it. */
  ghost predicate Inv(s: State) {
    Orderly(s) && HoldersHold(s) && HeldHaveHolder(s)
  }

  lemma InitInv(s: State)
    requires Init(s)
    ensures Inv(s)
  {}

  lemma NextDisciplined(c: Core)
    requires Disciplined(c.held, c.rest) && Strict(c.held) && c.rest != []
    ensures c.rest[0].Acquire? ==>
              var held := c.held + [c.rest[0].lock];
              Disciplined(held, c.rest[1..]) && Strict(held)
    ensures c.rest[0].Release? ==>
              && c.held != [] && c.held[|c.held| - 1] == c.rest[0].lock
              && Disciplined(c.held[..|c.held| - 1], c.rest[1..]) && Strict(c.held[..|c.held| - 1])
              && c.rest[0].lock !in c.held[..|c.held| - 1]
  {
    if c.rest[0].Acquire? {
      assert forall i :: 0 <= i < |c.held| ==> c.held[i] in c.held;
    }
  }

  lemma AcquireInv(s: State, i: nat)
    requires Inv(s) && CanStep(s, i) && s.cores[i].rest[0].Acquire?
    ensures Inv(Step(s, i))
  {
    NextDisciplined(s.cores[i]);
    hide Disciplined, Strict;
  }

  /** The lock core i releases is the last it holds, and no other core holds it. */
  lemma ReleaseHeld(s: State, i: nat)
    requires Inv(s) && CanStep(s, i) && s.cores[i].rest[0].Release?
    ensures var c, s', l := s.cores[i], Step(s, i), s.cores[i].rest[0].lock;
            && c.held != [] && s' == State(s.cores[i := Core(c.held[..|c.held| - 1], c.rest[1..])], s.holder - {l})
            && (forall m :: m in c.held <==> m in s'.cores[i].held || m == l)
            && l !in s'.cores[i].held && Orderly(s') && l in s.holder && s.holder[l] == i
  {
    NextDisciplined(s.cores[i]);
    hide Disciplined, Strict;
    var c, l := s.cores[i], s.cores[i].rest[0].lock;
    assert c.held == c.held[..|c.held| - 1] + [l];
    assert l in s.cores[i].held;
  }

  lemma ReleaseHoldersHold(s: State, i: nat)
    requires Inv(s) && CanStep(s, i) && s.cores[i].rest[0].Release?
    ensures HoldersHold(Step(s, i))
  {
    ReleaseHeld(s, i);
    hide Orderly, HeldHaveHolder, Step;
  }

  lemma ReleaseHeldHaveHolder(s: State, i: nat)
    requires Inv(s) && CanStep(s, i) && s.cores[i].rest[0].Release?
    ensures HeldHaveHolder(Step(s, i))
  {
    ReleaseHeld(s, i);
    hide Orderly, HoldersHold, Step;
  }

  lemma ReleaseInv(s: State, i: nat)
    requires Inv(s) && CanStep(s, i) && s.cores[i].rest[0].Release?
    ensures Inv(Step(s, i))
  {
    hide Orderly, HoldersHold, HeldHaveHolder, Step;
    ReleaseHeld(s, i);
    ReleaseHoldersHold(s, i);
    ReleaseHeldHaveHolder(s, i);
  }

  /** The states reached by scheduling the cores in the given order. */
  ghost predicate Schedules(s: State, order: seq<nat>)
    decreases |order|
  {
    order == [] || (CanStep(s, order[0]) && Schedules(Step(s, order[0]), order[1..]))
  }

  ghost function After(s: State, order: seq<nat>): State
    requires Schedules(s, order)
    decreases |order|
  {
    if order == [] then s else After(Step(s, order[0]), order[1..])
  }

  /** Whatever the interleaving: each lock has at most one holder, and each core holds its locks in order. */
  lemma {:induction false} Reachable(s: State, order: seq<nat>)
    requires Inv(s) && Schedules(s, order)
    ensures Inv(After(s, order))
    decreases |order|
  {
    if order != [] {
      if s.cores[order[0]].rest[0].Acquire? {
        AcquireInv(s, order[0]);
      } else {
        ReleaseInv(s, order[0]);
      }
      Reachable(Step(s, order[0]), order[1..]);
    }
  }

  /** A core that can go on, found by following who holds the lock a blocked core waits for: each wants a higher lock. */
  lemma Runnable(s: State, i: nat) returns (k: nat)
    requires Inv(s) && i < |s.cores| && s.cores[i].rest != []
    ensures CanStep(s, k)
    decreases if s.cores[i].rest[0].Acquire? then 3 - s.cores[i].rest[0].lock else 0
  {
    if CanStep(s, i) {
      return i;
    }
    var l := s.cores[i].rest[0].lock;
    var j := s.holder[l];
    assert s.cores[j].rest != [];
    if CanStep(s, j) {
      return j;
    }
    assert s.cores[j].rest[0].Acquire? && l < s.cores[j].rest[0].lock;
    k := Runnable(s, j);
  }

  /** No interleaving of memory operations on any number of cores deadlocks: until all are done, some core can go on. */
  lemma NoDeadlock(s: State, order: seq<nat>)
    requires Init(s) && Schedules(s, order)
    ensures var t := After(s, order);
            && Inv(t)
            && ((exists i :: 0 <= i < |t.cores| && t.cores[i].rest != []) ==> exists k :: CanStep(t, k))
            && ((forall i :: 0 <= i < |t.cores| ==> t.cores[i].rest == []) ==> t.holder == map[])
  {
    InitInv(s);
    Reachable(s, order);
    var t := After(s, order);
    if i :| 0 <= i < |t.cores| && t.cores[i].rest != [] {
      var k := Runnable(t, i);
    }
  }
}
