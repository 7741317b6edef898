/**
 Whole runs of the memory system of kernel/memory.c: frames taken and returned by clients,
 pages mapped and unmapped, heap blocks allocated and freed, in any order. Each step is
 what the corresponding method promises of the state before and after it. A kmalloc that
 grows the heap is one step when nothing runs beside it, and otherwise several: taking and
 mapping a frame for each page, adding the region, and taking a block, with the steps of
 other cores between them.
 */
module MemoryRuns {
  import opened PageTables
  import opened AddressSpace
  import opened HeapBlocks
  import opened HeapRequests
  import opened KernelHeap

  /** Physical memory, the heap over it, and the frames clients hold. */
  datatype World = World(ram: Ram, used: set<nat>, clients: set<nat>, frames: seq<nat>, blocks: seq<Block>, brk: nat)

  datatype Op =
    | TakeFrame(frame: nat)
    | ReturnFrame(frame: nat)
    | WriteFrame(frame: nat, contents: Table)
    | MapPage(page: nat, leaf: Leaf)
    | UnmapPage(page: nat)
    | HeapMap(frame: nat)
    | HeapGrow(growth: nat)
    | HeapTake(size: nat)
    | Kmalloc(size: nat)
    | Kfree(index: nat)

  ghost function SetOf(fs: seq<nat>): set<nat> {
    set f | f in fs
  }

  /** One of the first k pages of the heap. */
  predicate HeapPages(k: nat, n: nat) {
    HeapPage(0) <= n < HeapPage(k)
  }

  /** The pages reserved for the heap. */
  predicate HeapWindow(n: nat) {
    HeapPages(1024 * 16, n)
  }

  /** One step. Clients return and write only frames they hold, write heap memory, and leave the backed pages of the heap
      alone. */
  ghost predicate Next(root: nat, w: World, op: Op, w': World) {
    match op
    case TakeFrame(f) =>
      f !in w.used && w' == w.(ram := w.ram[f := ZeroTable()], used := w.used + {f}, clients := w.clients + {f})
    case ReturnFrame(f) =>
      f in w.clients && w' == w.(used := w.used - {f}, clients := w.clients - {f})
    case WriteFrame(f, t) =>
      (f in w.clients || f in w.frames) && w' == w.(ram := w.ram[f := t])
    case MapPage(n, leaf) =>
      && n < PAGES && !HeapPages(|w.frames|, n) && w' == w.(ram := w'.ram, used := w'.used)
      && Tree(w'.ram, root, w'.used) && Occupied(w'.ram, root, Root)
      && Mapped(w.ram, w.used, w'.ram, w'.used, root, n, leaf)
    case UnmapPage(n) =>
      && n < PAGES && !HeapPages(|w.frames|, n) && w' == w.(ram := w'.ram, used := w'.used)
      && Tree(w'.ram, root, w'.used) && Occupied(w'.ram, root, Root)
      && Unmapped(w.ram, w.used, w'.ram, w'.used, root, n)
    case HeapMap(f) =>
      && f in w.clients && |w.frames| < 1024 * 16
      && w' == w.(ram := w'.ram, used := w'.used, clients := w.clients - {f}, frames := w.frames + [f])
      && Tree(w'.ram, root, w'.used) && Occupied(w'.ram, root, Root)
      && Mapped(w.ram, w.used, w'.ram, w'.used, root, HeapPage(|w.frames|), Leaf(f, HEAP_FLAGS))
    case HeapGrow(growth) =>
      && growth >= HEADER && growth % PAGE_SIZE == 0 && w.brk + growth <= HEAP_START + PAGE_SIZE * |w.frames|
      && w' == w.(blocks := Grow(w.blocks, w.brk, growth), brk := w.brk + growth)
    case HeapTake(size) =>
      && size % MIN_ALIGN == 0 && FirstFit(w.blocks, size) < |w.blocks|
      && w' == w.(blocks := Take(w.blocks, FirstFit(w.blocks, size), size))
    case Kmalloc(n) =>
      && IsBreak(w.brk) && w.brk == HEAP_START + PAGE_SIZE * |w.frames| && w'.clients == w.clients
      && Tree(w'.ram, root, w'.used) && Grown(w.ram, w.used, w.frames, w'.ram, w'.used, w'.frames, root)
      && w'.brk == HEAP_START + PAGE_SIZE * |w'.frames|
      && exists ptr :: Serve(w.blocks, w.brk, n) == Given(w'.blocks, w'.brk, ptr)
    case Kfree(k) =>
      k < |w.blocks| && !w.blocks[k].free && w' == w.(blocks := Free(w.blocks, k))
  }

  /** The frames in use are those reserved at boot, the tables, the heap's and the clients', and no frame is two of these. */
  ghost predicate Accounted(root: nat, reserved: set<nat>, w: World) {
    var tables, heap := TableFrames(w.ram, root), SetOf(w.frames);
    && w.used == reserved + tables + heap + w.clients
    && reserved !! tables && reserved !! heap && reserved !! w.clients
    && tables !! heap && tables !! w.clients && heap !! w.clients
  }

  ghost predicate Inv(root: nat, reserved: set<nat>, w: World) {
    && Tree(w.ram, root, w.used) && Occupied(w.ram, root, Root)
    && Backed(w.ram, root, w.used, w.frames)
    && Heap(w.blocks, HEAP_START, w.brk) && IsBreak(w.brk)
    && w.brk <= HEAP_START + PAGE_SIZE * |w.frames| && |w.frames| <= 1024 * 16
    && Accounted(root, reserved, w)
  }

  /** At boot the heap is empty and no client holds a frame: the frames in use that hold no table are the reserved ones. */
  lemma BootInv(root: nat, ram: Ram, used: set<nat>)
    requires Tree(ram, root, used) && Occupied(ram, root, Root)
    ensures Inv(root, used - TableFrames(ram, root), World(ram, used, {}, [], [], HEAP_START))
  {
    TablesUsed(ram, root, used);
    hide Tree, Occupied, TableFrames, Mapping;
    assert SetOf([]) == {};
  }

  // ---------- Every step keeps the invariant ----------

  /** Backing survives whatever leaves the heap's pages, frames and non-tables alone. */
  lemma BackedKept(ram: Ram, used: set<nat>, ram': Ram, used': set<nat>, root: nat, frames: seq<nat>)
    requires Backed(ram, root, used, frames)
    requires forall n: nat :: HeapPages(|frames|, n) && n in Mapping(ram, root) ==>
               n in Mapping(ram', root) && Mapping(ram', root)[n] == Mapping(ram, root)[n]
    requires forall i :: 0 <= i < |frames| ==> frames[i] in used' && frames[i] !in TableFrames(ram', root)
    ensures Backed(ram', root, used', frames)
  {
    hide Mapping, TableFrames;
    forall i | 0 <= i < |frames|
      ensures HeapPage(i) in Mapping(ram', root) && Mapping(ram', root)[HeapPage(i)] == Leaf(frames[i], HEAP_FLAGS)
    {
      assert HeapPages(|frames|, HeapPage(i)) && HeapPage(i) in Mapping(ram, root);
    }
  }

  lemma DataStep(root: nat, reserved: set<nat>, w: World, ram': Ram, used': set<nat>)
    requires Inv(root, reserved, w)
    requires forall f :: f in TableFrames(w.ram, root) ==> f in ram' && ram'[f] == w.ram[f] && f in used'
    requires ram'.Keys >= w.ram.Keys && SetOf(w.frames) <= used'
    ensures Tree(ram', root, used') && Occupied(ram', root, Root) && Backed(ram', root, used', w.frames)
    ensures TableFrames(ram', root) == TableFrames(w.ram, root) && Mapping(ram', root) == Mapping(w.ram, root)
  {
    DataKeepsTree(w.ram, ram', root, w.used, used');
    hide Mapping, TableFrames, Tree, Occupied;
    assert forall i :: 0 <= i < |w.frames| ==> w.frames[i] in SetOf(w.frames);
    BackedKept(w.ram, w.used, ram', used', root, w.frames);
  }

  lemma TakeFrameKeeps(root: nat, reserved: set<nat>, w: World, f: nat)
    requires Inv(root, reserved, w) && f !in w.used
    ensures Inv(root, reserved, w.(ram := w.ram[f := ZeroTable()], used := w.used + {f}, clients := w.clients + {f}))
    ensures Mapping(w.ram[f := ZeroTable()], root) == Mapping(w.ram, root)
  {
    DataStep(root, reserved, w, w.ram[f := ZeroTable()], w.used + {f});
  }

  lemma ReturnFrameKeeps(root: nat, reserved: set<nat>, w: World, f: nat)
    requires Inv(root, reserved, w) && f in w.clients
    ensures Inv(root, reserved, w.(used := w.used - {f}, clients := w.clients - {f}))
    ensures f in w.used && f !in TableFrames(w.ram, root)
  {
    DataStep(root, reserved, w, w.ram, w.used - {f});
  }

  lemma WriteFrameKeeps(root: nat, reserved: set<nat>, w: World, f: nat, t: Table)
    requires Inv(root, reserved, w) && (f in w.clients || f in w.frames)
    ensures Inv(root, reserved, w.(ram := w.ram[f := t]))
    ensures Mapping(w.ram[f := t], root) == Mapping(w.ram, root)
  {
    assert f in w.frames ==> f in SetOf(w.frames);
    DataStep(root, reserved, w, w.ram[f := t], w.used);
  }

  lemma MapPageKeeps(root: nat, reserved: set<nat>, w: World, n: nat, leaf: Leaf, w': World)
    requires Inv(root, reserved, w) && Next(root, w, MapPage(n, leaf), w')
    ensures Inv(root, reserved, w')
  {
    hide Mapping, TableFrames, Tree, Occupied;
    assert forall i :: 0 <= i < |w.frames| ==> w.frames[i] in SetOf(w.frames);
    BackedKept(w.ram, w.used, w'.ram, w'.used, root, w.frames);
  }

  lemma UnmapPageKeeps(root: nat, reserved: set<nat>, w: World, n: nat, w': World)
    requires Inv(root, reserved, w) && Next(root, w, UnmapPage(n), w')
    ensures Inv(root, reserved, w')
  {
    hide Mapping, TableFrames, Tree, Occupied;
    assert forall i :: 0 <= i < |w.frames| ==> w.frames[i] in SetOf(w.frames);
    BackedKept(w.ram, w.used, w'.ram, w'.used, root, w.frames);
  }

  /** The frames and tables the heap grew by were in nobody's hands. */
  lemma GrowthAccounted(root: nat, reserved: set<nat>, w: World, w': World)
    requires Accounted(root, reserved, w) && w'.clients == w.clients
    requires Grown(w.ram, w.used, w.frames, w'.ram, w'.used, w'.frames, root)
    ensures Accounted(root, reserved, w')
  {
    hide Mapping, TableFrames, PagesKept, DataKept, Occupied;
    var fresh', tables := NewFrames(w.frames, w'.frames), NewTables(w.ram, w'.ram, root);
    assert SetOf(w'.frames) == SetOf(w.frames) + fresh' by {
      assert w'.frames == w.frames + w'.frames[|w.frames|..];
    }
    assert TableFrames(w'.ram, root) == TableFrames(w.ram, root) + tables;
    forall f | f in SetOf(w'.frames) ensures f !in TableFrames(w'.ram, root) {
      var i :| 0 <= i < |w'.frames| && w'.frames[i] == f;
    }
  }

  lemma KmallocKeeps(root: nat, reserved: set<nat>, w: World, size: nat, w': World)
    requires Inv(root, reserved, w) && Next(root, w, Kmalloc(size), w')
    ensures Inv(root, reserved, w')
  {
    hide Mapping, TableFrames, Tree, Occupied, PagesKept, DataKept, Serve, Tiles, NewFrames, NewTables, SetOf, Accounted;
    ServeHeap(w.blocks, w.brk, size);
    GrowthAccounted(root, reserved, w, w');
  }

  lemma HeapMapKeeps(root: nat, reserved: set<nat>, w: World, f: nat, w': World)
    requires Inv(root, reserved, w) && Next(root, w, HeapMap(f), w')
    ensures Inv(root, reserved, w')
  {
    hide Mapping, TableFrames, Tree, Occupied, Tiles, Heap;
    MoveToHeap(w.ram, w.used, w.frames, f, w'.ram, w'.used, root);
    assert SetOf(w'.frames) == SetOf(w.frames) + {f};
  }

  /** Mapping a frame that is in use and neither a table nor the heap's as the next heap page. */
  lemma MoveToHeap(ram: Ram, used: set<nat>, frames: seq<nat>, f: nat, ram': Ram, used': set<nat>, root: nat)
    requires Backed(ram, root, used, frames) && f in used && f !in TableFrames(ram, root) && f !in frames
    requires Mapped(ram, used, ram', used', root, HeapPage(|frames|), Leaf(f, HEAP_FLAGS))
    ensures Backed(ram', root, used', frames + [f])
  {
    hide Mapping, TableFrames;
    var fs := frames + [f];
    forall i | 0 <= i < |fs|
      ensures HeapPage(i) in Mapping(ram', root) && Mapping(ram', root)[HeapPage(i)] == Leaf(fs[i], HEAP_FLAGS)
      ensures fs[i] in used' && fs[i] !in TableFrames(ram', root)
    {
      if i < |frames| {
        assert HeapPage(i) in Mapping(ram, root) && HeapPage(i) != HeapPage(|frames|);
      }
    }
  }

  lemma HeapGrowKeeps(root: nat, reserved: set<nat>, w: World, growth: nat, w': World)
    requires Inv(root, reserved, w) && Next(root, w, HeapGrow(growth), w')
    ensures Inv(root, reserved, w')
  {
    hide Mapping, TableFrames, Tree, Occupied, Tiles, Grow, Backed, SetOf;
    PageAligned(w.brk);
    PageAligned(growth);
    GrowHeap(w.blocks, HEAP_START, w.brk, growth);
    BreakGrows(w.brk, growth, |w.frames|);
  }

  lemma BreakGrows(brk: nat, growth: nat, pages: nat)
    requires IsBreak(brk) && growth % PAGE_SIZE == 0 && brk + growth <= HEAP_START + PAGE_SIZE * pages && pages <= 1024 * 16
    ensures IsBreak(brk + growth)
  {}

  lemma HeapTakeKeeps(root: nat, reserved: set<nat>, w: World, size: nat, w': World)
    requires Inv(root, reserved, w) && Next(root, w, HeapTake(size), w')
    ensures Inv(root, reserved, w')
  {
    hide Mapping, TableFrames, Tree, Occupied, Tiles, Take, Backed, SetOf;
    TakeHeap(w.blocks, FirstFit(w.blocks, size), size, HEAP_START, w.brk);
  }

  lemma KfreeKeeps(root: nat, reserved: set<nat>, w: World, k: nat)
    requires Inv(root, reserved, w) && k < |w.blocks|
    ensures Inv(root, reserved, w.(blocks := Free(w.blocks, k)))
  {
    FreeHeap(w.blocks, k, HEAP_START, w.brk);
  }

  /** Every step keeps the invariant. */
  lemma NextKeeps(root: nat, reserved: set<nat>, w: World, op: Op, w': World)
    requires Inv(root, reserved, w) && Next(root, w, op, w')
    ensures Inv(root, reserved, w')
  {
    hide Inv;
    match op
    case TakeFrame(f) => TakeFrameKeeps(root, reserved, w, f);
    case ReturnFrame(f) => ReturnFrameKeeps(root, reserved, w, f);
    case WriteFrame(f, t) => WriteFrameKeeps(root, reserved, w, f, t);
    case MapPage(n, leaf) => MapPageKeeps(root, reserved, w, n, leaf, w');
    case UnmapPage(n) => UnmapPageKeeps(root, reserved, w, n, w');
    case HeapMap(f) => HeapMapKeeps(root, reserved, w, f, w');
    case HeapGrow(growth) => HeapGrowKeeps(root, reserved, w, growth, w');
    case HeapTake(size) => HeapTakeKeeps(root, reserved, w, size, w');
    case Kmalloc(size) => KmallocKeeps(root, reserved, w, size, w');
    case Kfree(k) => KfreeKeeps(root, reserved, w, k);
  }

  ghost predicate Run(root: nat, ws: seq<World>, ops: seq<Op>) {
    |ws| == |ops| + 1 && forall i :: 0 <= i < |ops| ==> Next(root, ws[i], ops[i], ws[i + 1])
  }

  /** In every reachable state the tables form a tree of used, non-empty frames, the blocks tile the heap, every heap
      page has its own frame, and the frames in use split into reserved, table, heap and client frames. */
  lemma {:induction false} RunKeeps(root: nat, reserved: set<nat>, ws: seq<World>, ops: seq<Op>, k: nat)
    requires Run(root, ws, ops) && Inv(root, reserved, ws[0]) && k <= |ops|
    ensures Inv(root, reserved, ws[k])
  {
    hide Inv, Next;
    if k > 0 {
      RunKeeps(root, reserved, ws, ops, k - 1);
      NextKeeps(root, reserved, ws[k - 1], ops[k - 1], ws[k]);
    }
  }

  // ---------- The tables refine a partial map ----------

  /** A mapping outside the heap's pages. */
  ghost function Outside(m: map<nat, Leaf>): map<nat, Leaf> {
    map n | n in m && !HeapWindow(n) :: m[n]
  }

  /** What an operation does to the map clients see. */
  function Patch(m: map<nat, Leaf>, op: Op): map<nat, Leaf> {
    match op
    case MapPage(n, leaf) => if HeapWindow(n) then m else m[n := leaf]
    case UnmapPage(n) => if HeapWindow(n) then m else m - {n}
    case _ => m
  }

  function PatchAll(m: map<nat, Leaf>, ops: seq<Op>): map<nat, Leaf> {
    if ops == [] then m else Patch(PatchAll(m, ops[..|ops| - 1]), ops[|ops| - 1])
  }

  lemma SameOutside(m: map<nat, Leaf>, m': map<nat, Leaf>, lo: nat, hi: nat)
    requires hi <= 1024 * 16
    requires forall n: nat :: !(HeapPage(lo) <= n < HeapPage(hi)) ==> (n in m' <==> n in m) && (n in m ==> m'[n] == m[n])
    ensures Outside(m') == Outside(m)
  {
    forall n: nat | !HeapWindow(n) ensures (n in m' <==> n in m) && (n in m ==> m'[n] == m[n]) {
      assert !(HeapPage(lo) <= n < HeapPage(hi));
    }
  }

  lemma KmallocOutside(root: nat, reserved: set<nat>, w: World, size: nat, w': World)
    requires Inv(root, reserved, w) && Next(root, w, Kmalloc(size), w')
    ensures Outside(Mapping(w'.ram, root)) == Outside(Mapping(w.ram, root))
  {
    KmallocKeeps(root, reserved, w, size, w');
    hide Mapping, TableFrames, Tree, Occupied, DataKept, Serve, Tiles, NewFrames, NewTables, SetOf, Accounted, Backed, HeapPage, Outside;
    SameOutside(Mapping(w.ram, root), Mapping(w'.ram, root), |w.frames|, |w'.frames|);
  }

  lemma PatchOutside(m: map<nat, Leaf>, n: nat, leaf: Leaf)
    ensures Outside(m[n := leaf]) == if HeapWindow(n) then Outside(m) else Outside(m)[n := leaf]
    ensures Outside(m - {n}) == if HeapWindow(n) then Outside(m) else Outside(m) - {n}
  {}

  lemma InsideWindow(m: map<nat, Leaf>, i: nat, leaf: Leaf)
    requires i < 1024 * 16
    ensures Outside(m[HeapPage(i) := leaf]) == Outside(m)
  {
    assert HeapWindow(HeapPage(i));
  }

  lemma NextRefines(root: nat, reserved: set<nat>, w: World, op: Op, w': World)
    requires Inv(root, reserved, w) && Next(root, w, op, w')
    ensures Outside(Mapping(w'.ram, root)) == Patch(Outside(Mapping(w.ram, root)), op)
  {
    hide Mapping, TableFrames, Tree, Occupied, DataKept, Serve, Tiles, NewFrames, NewTables, Backed, Outside, HeapWindow;
    match op
    case TakeFrame(f) => TakeFrameKeeps(root, reserved, w, f);
    case ReturnFrame(f) =>
    case WriteFrame(f, t) => WriteFrameKeeps(root, reserved, w, f, t);
    case MapPage(n, leaf) => PatchOutside(Mapping(w.ram, root), n, leaf);
    case UnmapPage(n) => PatchOutside(Mapping(w.ram, root), n, Leaf(0, 0));
    case HeapMap(f) => InsideWindow(Mapping(w.ram, root), |w.frames|, Leaf(f, HEAP_FLAGS));
    case HeapGrow(growth) =>
    case HeapTake(size) =>
    case Kmalloc(size) => KmallocOutside(root, reserved, w, size, w');
    case Kfree(k) =>
  }

  /** After any run, what the page walk translates outside the heap is the initial mapping with the maps and
      unmaps of the run applied in order, whatever tables were created and freed on the way. */
  lemma {:induction false} RunRefines(root: nat, reserved: set<nat>, ws: seq<World>, ops: seq<Op>, k: nat)
    requires Run(root, ws, ops) && Inv(root, reserved, ws[0]) && k <= |ops|
    ensures Outside(Mapping(ws[k].ram, root)) == PatchAll(Outside(Mapping(ws[0].ram, root)), ops[..k])
  {
    if k > 0 {
      RunRefines(root, reserved, ws, ops, k - 1);
      RunKeeps(root, reserved, ws, ops, k - 1);
      hide Inv, Mapping, Outside;
      NextRefines(root, reserved, ws[k - 1], ops[k - 1], ws[k]);
      assert ops[..k][..k - 1] == ops[..k - 1];
    }
  }

  // ---------- Conservation and isolation ----------

  lemma {:induction false} DistinctCount(fs: seq<nat>)
    requires forall i, j :: 0 <= i < j < |fs| ==> fs[i] != fs[j]
    ensures |SetOf(fs)| == |fs|
  {
    if fs != [] {
      var rest, f := fs[..|fs| - 1], fs[|fs| - 1];
      DistinctCount(rest);
      assert SetOf(fs) == SetOf(rest) + {f};
      assert f !in SetOf(rest);
    }
  }

  /** The frames in use add up: reserved, tables, one per heap page, and those clients hold. */
  lemma UsedCount(root: nat, reserved: set<nat>, w: World)
    requires Inv(root, reserved, w)
    ensures |w.used| == |reserved| + |TableFrames(w.ram, root)| + |w.frames| + |w.clients|
  {
    DistinctCount(w.frames);
    hide TableFrames, Mapping, Tree, Occupied, SetOf, Tiles;
    var a := reserved + TableFrames(w.ram, root);
    var b := a + SetOf(w.frames);
    assert w.used == b + w.clients && a !! SetOf(w.frames) && b !! w.clients;
  }

  /** Frames reserved at boot stay in use, and never become a client's, a table or the heap's. */
  lemma ReservedForever(root: nat, reserved: set<nat>, ws: seq<World>, ops: seq<Op>, k: nat)
    requires Run(root, ws, ops) && Inv(root, reserved, ws[0]) && k <= |ops|
    ensures reserved <= ws[k].used && reserved !! ws[k].clients
    ensures reserved !! TableFrames(ws[k].ram, root) && forall f :: f in reserved ==> f !in ws[k].frames
  {
    RunKeeps(root, reserved, ws, ops, k);
    hide TableFrames, Tree, Occupied, Backed, Heap;
    assert forall f :: f in SetOf(ws[k].frames) <==> f in ws[k].frames;
  }

  /** No step but a write by its holder changes the contents of a frame a client holds. */
  lemma NextKeepsContents(root: nat, reserved: set<nat>, w: World, op: Op, w': World, f: nat)
    requires Inv(root, reserved, w) && Next(root, w, op, w')
    requires f in w.clients && f in w.ram && !(op.WriteFrame? && op.frame == f)
    ensures f in w'.ram && w'.ram[f] == w.ram[f]
  {
    hide Mapping, Tree, Occupied, TableFrames;
  }

  /** A frame held throughout a run and not written by its holder keeps its contents. */
  lemma {:induction false} RunKeepsContents(root: nat, reserved: set<nat>, ws: seq<World>, ops: seq<Op>, k: nat, f: nat)
    requires Run(root, ws, ops) && Inv(root, reserved, ws[0]) && k <= |ops| && f in ws[0].ram
    requires forall i :: 0 <= i <= k ==> f in ws[i].clients
    requires forall i :: 0 <= i < k ==> !(ops[i].WriteFrame? && ops[i].frame == f)
    ensures f in ws[k].ram && ws[k].ram[f] == ws[0].ram[f]
  {
    if k > 0 {
      RunKeepsContents(root, reserved, ws, ops, k - 1, f);
      RunKeeps(root, reserved, ws, ops, k - 1);
      hide Inv;
      NextKeepsContents(root, reserved, ws[k - 1], ops[k - 1], ws[k], f);
    }
  }
}
