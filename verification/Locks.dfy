/**
 The spinlocks of kernel/memory.c: the heap lock, the lock of the address space and the lock of the physical memory
 manager. Every core keeps a log of what it acquires and releases, which the operations write where the source locks
 and unlocks.
 */
module Locks {
  import opened Wrappers

  // The order in which locks may be taken: heap, address space, physical memory.
  type Lock = l: nat | l < 3
  const HEAP: Lock := 0
  const SPACE: Lock := 1
  const PMM: Lock := 2

  datatype Action = Acquire(lock: Lock) | Release(lock: Lock)

  /** The locks held, oldest first, after t from `held` on; None if a lock is taken that is not above all held, or
      released that is not the last taken. */
  ghost function Follow(held: seq<Lock>, t: seq<Action>): Option<seq<Lock>>
    decreases |t|
  {
    if t == [] then Some(held)
    else match t[0]
      case Acquire(l) => if forall m :: m in held ==> m < l then Follow(held + [l], t[1..]) else None
      case Release(l) => if held != [] && held[|held| - 1] == l then Follow(held[..|held| - 1], t[1..]) else None
  }

  lemma {:induction false} FollowAppend(held: seq<Lock>, t: seq<Action>, a: Action)
    requires Follow(held, t).Some?
    ensures Follow(held, t + [a]) == Follow(Follow(held, t).value, [a])
    decreases |t|
  {
    if t == [] {
      assert t + [a] == [a];
    } else {
      assert (t + [a])[1..] == t[1..] + [a];
      match t[0]
      case Acquire(l) => FollowAppend(held + [l], t[1..], a);
      case Release(l) => FollowAppend(held[..|held| - 1], t[1..], a);
    }
  }

  class Log {
    ghost var trace: seq<Action>
    ghost var held: seq<Lock>

    /** All of the trace kept to the order, and led to the locks held. */
    ghost predicate Valid()
      reads this
    {
      Follow([], trace) == Some(held)
    }

    /** The core may take lock l. */
    ghost predicate Below(l: Lock)
      reads this
    {
      Valid() && forall m :: m in held ==> m < l
    }

    constructor ()
      ensures Valid() && held == [] && trace == []
    {
      trace, held := [], [];
    }

    ghost method Acquires(l: Lock)
      requires Below(l)
      modifies this
      ensures Valid() && held == old(held) + [l] && trace == old(trace) + [Acquire(l)]
    {
      FollowAppend([], trace, Acquire(l));
      assert [Acquire(l)][1..] == [];
      trace, held := trace + [Acquire(l)], held + [l];
    }

    ghost method Releases(l: Lock)
      requires Valid() && held != [] && held[|held| - 1] == l
      modifies this
      ensures Valid() && held == old(held)[..|old(held)| - 1] && trace == old(trace) + [Release(l)]
    {
      FollowAppend([], trace, Release(l));
      assert [Release(l)][1..] == [];
      trace, held := trace + [Release(l)], held[..|held| - 1];
    }
  }
}
