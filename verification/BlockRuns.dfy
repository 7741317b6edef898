/**
 Runs of the block allocator: regions are marked first, then clients allocate and free blocks they hold. As long as
 every allocation fits at the lowest free block, as single blocks do, the hint is lossless and allocation fails only
 when memory has no such run; otherwise the hint can skip free blocks.
 */
module BlockRuns {
  import opened Bits
  import opened BlockAllocator

  datatype Step =
    | Mark(base: nat, size: nat, used: bool)
    | Alloc(count: nat, addr: nat)
    | Free(addr: nat, count: nat)

  /** The allocator with the blocks its clients hold, and whether the first allocation has happened. */
  datatype World = World(state: State, held: set<nat>, started: bool)

  predicate Within(a: nat, count: nat, b: nat) {
    a <= b < a + count
  }

  function Range(a: nat, count: nat): set<nat> {
    set b: nat | b < a + count && Within(a, count, b)
  }

  /** One step. Regions are marked only before the first allocation and never free block 0, and clients free only
      blocks they hold. */
  ghost predicate Next(w: World, step: Step, w': World)
    requires Covered(w.state)
  {
    match step
    case Mark(base, size, used) =>
      && !w.started && MarkStays(w.state, base, size) && (used || RegionStart(base) > 0)
      && Marked(w.state, base, size, used, w'.state) && w' == w.(state := w'.state)
    case Alloc(count, addr) =>
      && Allocated(w.state, count, addr, w'.state)
      && w' == World(w'.state, if addr == 0 then w.held else w.held + Range(addr / BLOCK_SIZE, count), true)
    case Free(addr, count) =>
      && w.started && Range(addr / BLOCK_SIZE, count) <= w.held
      && Freed(w.state, addr, count, w'.state)
      && w' == w.(state := w'.state, held := if Frees(w.state, addr, count) then w.held - Range(addr / BLOCK_SIZE, count) else w.held)
  }

  /** Every block below the hint is taken. */
  ghost predicate HintLossless(s: State)
    requires Covered(s)
  {
    forall b: nat :: b < s.hint && b < s.total ==> Test(s.bitmap, b)
  }

  ghost predicate Full(s: State)
    requires Covered(s)
  {
    forall b: nat :: b < s.total ==> Test(s.bitmap, b)
  }

  /** Unless it is 0, addr is the address of the lowest free block. */
  ghost predicate Lowest(s: State, addr: nat)
    requires Covered(s)
  {
    addr != 0 ==>
      var a := addr / BLOCK_SIZE;
      a < s.total && !Test(s.bitmap, a) && forall b: nat :: b < a ==> Test(s.bitmap, b)
  }

  /** Block 0 is reserved, and held blocks are taken. */
  ghost predicate Holding(w: World) {
    && w.state.initialized && Covered(w.state) && 0 !in w.held && w.state.hint <= w.state.total
    && (w.state.total > 0 ==> Test(w.state.bitmap, 0))
    && forall b :: b in w.held ==> b < w.state.total && Test(w.state.bitmap, b)
  }

  ghost predicate Inv(w: World) {
    Holding(w) && HintLossless(w.state) && (!w.started ==> w.state.hint == 0 && w.held == {})
  }

  /** A run, newest step last. */
  ghost predicate Run(start: World, steps: seq<Step>, worlds: seq<World>)
  {
    && |worlds| == |steps| + 1 && worlds[0] == start
    && forall i :: 0 <= i < |steps| ==> Covered(worlds[i].state) && Next(worlds[i], steps[i], worlds[i + 1])
  }

  /** The lowest free block at or above the hint. */
  ghost predicate LowestFree(s: State, f: nat)
    requires Covered(s)
  {
    s.hint <= f < s.total && !Test(s.bitmap, f) && forall b :: s.hint <= b < f ==> Test(s.bitmap, b)
  }

  /** An allocation of count blocks finds them at the lowest free block, or finds none. A single block always fits. */
  ghost predicate Fitting(s: State, count: nat)
    requires Covered(s)
  {
    || count <= 1 || NoRun(s.bitmap, s.total, s.hint, count)
    || forall f: nat :: LowestFree(s, f) ==> f + count <= s.total && FreeRun(s.bitmap, f, count)
  }

  /** Right after initialisation everything is taken and nothing is held. */
  lemma InitInv(s: State)
    requires s.initialized && Covered(s) && s.hint == 0 && Full(s)
    ensures Inv(World(s, {}, false))
  {}

  /** Any step keeps held blocks taken, and an allocation hands out only blocks nobody holds. */
  lemma NextHolding(w: World, step: Step, w': World)
    requires Holding(w) && (!w.started ==> w.held == {}) && Next(w, step, w')
    ensures Holding(w') && (!w'.started ==> w'.held == {})
    ensures step.Alloc? && step.addr != 0 ==> Range(step.addr / BLOCK_SIZE, step.count) !! w.held
  {
  }

  lemma {:induction false} FindLowest(s: State, a: nat) returns (f: nat)
    requires Covered(s) && s.hint <= a < s.total && !Test(s.bitmap, a)
    ensures LowestFree(s, f) && f <= a
    decreases a
  {
    if b :| s.hint <= b < a && !Test(s.bitmap, b) {
      f := FindLowest(s, b);
    } else {
      f := a;
    }
  }

  /** Below a lossless hint no run starts, so searching from the hint misses none. */
  lemma SearchesAll(s: State, count: nat)
    requires Covered(s) && HintLossless(s) && count > 0
    ensures NoRun(s.bitmap, s.total, s.hint, count) <==> NoRun(s.bitmap, s.total, 0, count)
  {
    forall b: nat | b < s.hint && b + count <= s.total ensures !FreeRun(s.bitmap, b, count) {
      assert Test(s.bitmap, b);
    }
    hide FreeRun;
  }

  /** An allocation keeps the hint lossless if and only if its blocks fit at the lowest free block, or nowhere. */
  lemma RunAlloc(w: World, count: nat, addr: nat, w': World)
    requires Inv(w) && Next(w, Alloc(count, addr), w')
    ensures HintLossless(w'.state) <==> Fitting(w.state, count)
  {
    var s := w.state;
    if count > 0 && !NoRun(s.bitmap, s.total, s.hint, count) {
      var a := addr / BLOCK_SIZE;
      LeftmostFree(s.bitmap, w'.state.bitmap, s.total, s.hint, count, a);
      var f := FindLowest(s, a);
      hide NoRun;
      SkipsNone(s, count, a, f);
      HintBehind(s, count, a, w'.state, f);
      hide Leftmost, FreeRun, HintLossless;
    }
  }

  lemma SkipsNone(s: State, count: nat, a: nat, f: nat)
    requires Covered(s) && count > 0 && Leftmost(s.bitmap, s.total, s.hint, count, a) && LowestFree(s, f) && f <= a
    ensures a == f <==> f + count <= s.total && FreeRun(s.bitmap, f, count)
    ensures count == 1 ==> a == f
    ensures forall g: nat :: LowestFree(s, g) <==> g == f
  {
    if count == 1 {
      assert FreeRun(s.bitmap, f, 1);
    }
  }

  lemma HintBehind(s: State, count: nat, a: nat, s': State, f: nat)
    requires Covered(s) && HintLossless(s) && LowestFree(s, f) && f <= a && a + count <= s.total
    requires |s'.bitmap| == |s.bitmap| && s'.total == s.total && s'.hint == a + count && RangeSet(s.bitmap, s'.bitmap, a, count, true)
    ensures Covered(s') && (HintLossless(s') <==> a == f)
  {
    if f < a {
      assert !Test(s'.bitmap, f);
    }
  }

  lemma NextInv(w: World, step: Step, w': World)
    requires Inv(w) && Next(w, step, w') && (step.Alloc? ==> Fitting(w.state, step.count))
    ensures Inv(w')
  {
    NextHolding(w, step, w');
    match step
    case Alloc(count, addr) => RunAlloc(w, count, addr, w');
    case Free(addr, count) =>
    case Mark(base, size, used) =>
  }

  /** What an allocation promises while the hint is lossless: it fails exactly when memory has no such run anywhere, and
      for a single block, when memory is full. */
  lemma LosslessAlloc(w: World, count: nat, addr: nat, w': World)
    requires Inv(w) && count > 0 && Next(w, Alloc(count, addr), w')
    ensures addr == 0 <==> NoRun(w.state.bitmap, w.state.total, 0, count)
    ensures count == 1 ==> (addr == 0 <==> Full(w.state)) && Lowest(w.state, addr)
  {
    SearchesAll(w.state, count);
    if count == 1 {
      var bm := w.state.bitmap;
      forall b: nat | b < w.state.total ensures FreeRun(bm, b, 1) == !Test(bm, b) {}
    }
    hide FreeRun;
  }

  /** The hint is lossless over every run whose allocations fit at the lowest free block: each allocation fails exactly
      when memory has no run of its length, a single block exactly when memory is full, and then it is the lowest. */
  lemma {:induction false} LosslessRuns(start: World, steps: seq<Step>, worlds: seq<World>, i: nat)
    requires Inv(start) && Run(start, steps, worlds) && i < |worlds|
    requires forall k :: 0 <= k < |steps| && steps[k].Alloc? ==> Fitting(worlds[k].state, steps[k].count)
    ensures Inv(worlds[i])
    ensures i < |steps| && steps[i].Alloc? && steps[i].count > 0 ==>
              (steps[i].addr == 0 <==> NoRun(worlds[i].state.bitmap, worlds[i].state.total, 0, steps[i].count))
    ensures i < |steps| && steps[i].Alloc? && steps[i].count == 1 ==>
              (steps[i].addr == 0 <==> Full(worlds[i].state)) && Lowest(worlds[i].state, steps[i].addr)
  {
    hide Inv, Next, NoRun, Full, Lowest, Fitting;
    if i > 0 {
      LosslessRuns(start, steps, worlds, i - 1);
      NextInv(worlds[i - 1], steps[i - 1], worlds[i]);
    }
    if i < |steps| && steps[i].Alloc? && steps[i].count > 0 {
      LosslessAlloc(worlds[i], steps[i].count, steps[i].addr, worlds[i + 1]);
    }
  }

  /** Memory is full exactly when an exact counter says so. */
  lemma FullCounted(s: State)
    requires Counted(s)
    ensures Full(s) <==> s.usedBlocks == s.total
  {
    TakenBound(s.bitmap, 0, s.total);
  }

  /** Over every run, of any counts, no block is handed out while held. */
  lemma {:induction false} RunHolding(start: World, steps: seq<Step>, worlds: seq<World>, i: nat)
    requires Holding(start) && (!start.started ==> start.held == {}) && Run(start, steps, worlds) && i < |worlds|
    ensures Holding(worlds[i]) && (!worlds[i].started ==> worlds[i].held == {})
    ensures i < |steps| && steps[i].Alloc? && steps[i].addr != 0 ==>
              Range(steps[i].addr / BLOCK_SIZE, steps[i].count) !! worlds[i].held
  {
    if i > 0 {
      RunHolding(start, steps, worlds, i - 1);
      NextHolding(worlds[i - 1], steps[i - 1], worlds[i]);
    }
    if i < |steps| {
      NextHolding(worlds[i], steps[i], worlds[i + 1]);
    }
  }

  /** The counter is the number of blocks taken over every run whose regions flip all their blocks. */
  lemma {:induction false} RunCounted(start: World, steps: seq<Step>, worlds: seq<World>, i: nat)
    requires Holding(start) && (!start.started ==> start.held == {}) && Counted(start.state)
    requires Run(start, steps, worlds) && i < |worlds|
    requires forall k :: 0 <= k < |steps| && steps[k].Mark? ==> Flips(worlds[k].state, steps[k].base, steps[k].size, steps[k].used)
    ensures Counted(worlds[i].state)
  {
    if i > 0 {
      RunCounted(start, steps, worlds, i - 1);
      RunHolding(start, steps, worlds, i - 1);
      NextCounted(worlds[i - 1], steps[i - 1], worlds[i]);
    }
  }

  lemma NextCounted(w: World, step: Step, w': World)
    requires Holding(w) && Counted(w.state) && Next(w, step, w')
    requires step.Mark? ==> Flips(w.state, step.base, step.size, step.used)
    ensures Counted(w'.state)
  {
    match step
    case Mark(base, size, used) => MarkCounted(w.state, base, size, used, w'.state);
    case Alloc(count, addr) => AllocCounted(w.state, count, addr, w'.state);
    case Free(addr, count) =>
      FreeCounted(w.state, addr, count, w'.state);
      assert forall b: nat :: b in Range(addr / BLOCK_SIZE, count) ==> b in w.held;
  }

  /** Five blocks of which 1, 3 and 4 are free: after two blocks have been allocated, a single one cannot be, although
      block 1 is free. */
  lemma HintLoses()
    ensures exists w: World, w', w'' ::
              && Inv(w) && Next(w, Alloc(2, 3 * BLOCK_SIZE), w')
              && Next(w', Alloc(1, 0), w'') && !Full(w'.state)
  {
    var word: Word := seq(64, i => i != 1 && i != 3 && i != 4);
    var word': Word := seq(64, i => i != 1);
    var s := State(true, [word], 5, 2, 0);
    var s' := State(true, [word'], 5, 4, 5);
    var w := World(s, {}, false);
    var w' := World(s', {} + Range(3, 2), true);
    assert !FreeRun([word], 0, 2) by { assert Test([word], 0); }
    assert !FreeRun([word], 1, 2) by { assert Test([word], 2); }
    assert !FreeRun([word], 2, 2) by { assert Test([word], 2); }
    assert FreeRun([word], 3, 2);
    assert Leftmost([word], 5, 0, 2, 3);
    assert RangeSet([word], [word'], 3, 2, true);
    assert Next(w, Alloc(2, 3 * BLOCK_SIZE), w');
    assert !Test([word'], 1);
    assert Next(w', Alloc(1, 0), w');
  }
}
