/**
 A core that serves any list of memory requests with the operations of kernel/memory.c. What the operations do is a run of
 the memory system, and what they lock and unlock keeps to the order.
 */
module MemoryDriver {
  import opened Wrappers
  import opened PageTables
  import opened AddressSpace
  import opened HeapBlocks
  import opened HeapRequests
  import opened KernelHeap
  import opened MemoryRuns
  import Locks
  import LockOrder

  datatype Request =
    | WantFrame
    | GiveFrame(frame: nat)
    | WantPage(virt: nat, frame: nat, flags: bv64)
    | DropPage(virt: nat)
    | WantBytes(size: nat)
    | GiveBytes(ptr: nat)

  /** Served; halted for lack of memory; given up because frame 0 was handed out; or a heap growth that wrapped. */
  datatype Answer = Served | OutOfMemory | GaveUp | Astray

  /** The op, if there is one, leads from w to w'; if there is none, nothing changed. */
  ghost predicate Does(root: nat, w: World, op: Option<Op>, w': World) {
    match op
    case None => w' == w
    case Some(o) => Next(root, w, o, w')
  }

  /** Every pointer is the data of an allocated block. */
  ghost predicate Points(blocks: seq<Block>, ptrs: set<nat>) {
    forall p :: p in ptrs ==> exists b :: Live(blocks, b) && b.addr + HEADER == p
  }

  class Core {
    const heap: Allocator
    ghost const log: Locks.Log
    ghost const reserved: set<nat>
    // The frames and the heap blocks the core's clients hold.
    var clients: set<nat>
    var ptrs: set<nat>

    ghost function View(): World
      reads this, heap, heap.space, heap.space.pmm
    {
      World(heap.space.pmm.ram, heap.space.pmm.used, clients, heap.frames, heap.blocks, heap.brk)
    }

    ghost predicate Valid()
      reads this, heap, heap.space, heap.space.pmm, heap.space.pmm.bitmap, log
    {
      && heap.Valid() && Inv(heap.space.root, reserved, View())
      && log.Valid() && log.held == [] && Points(heap.blocks, ptrs)
    }

    /** Starts with an empty heap over the tables left at boot. */
    constructor (heap: Allocator, ghost log: Locks.Log)
      requires heap.Valid() && heap.blocks == [] && heap.frames == [] && heap.brk == HEAP_START
      requires log.Valid() && log.held == [] && Occupied(heap.space.pmm.ram, heap.space.root, Root)
      ensures Valid() && this.heap == heap && this.log == log && clients == {} && ptrs == {}
    {
      this.heap, this.log := heap, log;
      reserved := heap.space.pmm.used - TableFrames(heap.space.pmm.ram, heap.space.root);
      clients, ptrs := {}, {};
      BootInv(heap.space.root, heap.space.pmm.ram, heap.space.pmm.used);
    }

    method TakeOne() returns (r: Answer, ghost op: Option<Op>)
      requires Valid()
      modifies this`clients, log
      modifies heap.space.pmm`usedFrames, heap.space.pmm`used, heap.space.pmm`lastAllocated, heap.space.pmm`ram, heap.space.pmm.bitmap
      ensures r == Served ==> Valid() && Does(heap.space.root, old(View()), op, View())
      ensures r == OutOfMemory ==> heap.space.pmm.Exhausted()
      ensures r == Served || r == OutOfMemory
    {
      hide Inv, Locks.Follow, Mapping, TableFrames, Tree, Occupied, Live;
      ghost var w := View();
      var f := heap.space.AllocDataFrame(log);
      if f == None {
        return OutOfMemory, None;
      }
      clients := clients + {f.value};
      NextKeeps(heap.space.root, reserved, w, TakeFrame(f.value), View());
      InvBacked(heap.space.root, reserved, View());
      return Served, Some(TakeFrame(f.value));
    }

    method ReturnOne(frame: nat) returns (ghost op: Option<Op>)
      requires Valid()
      modifies this`clients, log
      modifies heap.space.pmm`usedFrames, heap.space.pmm`used, heap.space.pmm.bitmap
      ensures Valid() && Does(heap.space.root, old(View()), op, View())
    {
      hide Inv, Locks.Follow, Mapping, TableFrames, Tree, Occupied, Live;
      if frame !in clients {
        return None;
      }
      ghost var w := View();
      var ok := heap.space.pmm.FreeFrame(log, frame);
      clients := clients - {frame};
      NextKeeps(heap.space.root, reserved, w, ReturnFrame(frame), View());
      InvBacked(heap.space.root, reserved, View());
      return Some(ReturnFrame(frame));
    }

    /** The page of virt is one of the heap's: the core leaves those alone. */
    predicate OfHeap(virt: nat)
      requires heap.brk >= HEAP_START
      reads this, heap
    {
      HeapPages((heap.brk - HEAP_START) / PAGE_SIZE, PageNumber(virt))
    }

    method MapOne(virt: nat, frame: nat, flags: bv64) returns (r: Answer, ghost op: Option<Op>)
      requires Valid()
      modifies log
      modifies heap.space.pmm`usedFrames, heap.space.pmm`used, heap.space.pmm`lastAllocated, heap.space.pmm`ram, heap.space.pmm.bitmap
      ensures r == Served ==> Valid() && Does(heap.space.root, old(View()), op, View())
      ensures r == OutOfMemory ==> heap.space.pmm.Exhausted()
      ensures r == GaveUp ==> 0 !in old(heap.space.pmm.used)
      ensures r != Astray
    {
      hide Inv, Locks.Follow, Mapping, TableFrames, Tree, Live, Mapped, LeafOf, PageNumber;
      if OfHeap(virt) {
        return Served, None;
      }
      ghost var w := View();
      InvBacked(heap.space.root, reserved, w);
      var done := heap.space.MapPage(log, virt, frame, flags);
      match done
      case Panic => return OutOfMemory, None;
      case Failed => return GaveUp, None;
      case Done =>
        op := Some(MapPage(PageNumber(virt), LeafOf(frame, flags)));
        NextKeeps(heap.space.root, reserved, w, op.value, View());
        InvBacked(heap.space.root, reserved, View());
        return Served, op;
    }

    method UnmapOne(virt: nat) returns (ghost op: Option<Op>)
      requires Valid()
      modifies log
      modifies heap.space.pmm`usedFrames, heap.space.pmm`used, heap.space.pmm`ram, heap.space.pmm.bitmap
      ensures Valid() && Does(heap.space.root, old(View()), op, View())
    {
      hide Inv, Locks.Follow, Mapping, TableFrames, Tree, Live, Unmapped, PageNumber;
      if OfHeap(virt) {
        return None;
      }
      ghost var w := View();
      InvBacked(heap.space.root, reserved, w);
      var frame := heap.space.UnmapPage(log, virt);
      op := Some(UnmapPage(PageNumber(virt)));
      NextKeeps(heap.space.root, reserved, w, op.value, View());
      InvBacked(heap.space.root, reserved, View());
    }

    method MallocOne(n: nat) returns (r: Answer, ghost op: Option<Op>)
      requires Valid() && n < WORD
      modifies this`ptrs, log, heap`mem, heap`freeList, heap`blocks, heap`brk, heap`frames
      modifies heap.space.pmm`usedFrames, heap.space.pmm`used, heap.space.pmm`lastAllocated, heap.space.pmm`ram, heap.space.pmm.bitmap
      ensures r == Served ==> Valid() && Does(heap.space.root, old(View()), op, View())
      ensures r == OutOfMemory ==> heap.space.pmm.Exhausted()
      ensures r == GaveUp ==> 0 !in old(heap.space.pmm.used)
      ensures r == Astray ==> Serve(old(heap.blocks), old(heap.brk), n) == Lost
    {
      hide Inv, Locks.Follow, Mapping, TableFrames, Tree, Live, Grown, Serve, Tiles, Backed;
      ghost var w := View();
      var reply, ptr, rounds := heap.Kmalloc(log, n);
      match reply
      case Stray => return Astray, None;
      case Unbacked(cause) => return if cause == Panic then OutOfMemory else GaveUp, None;
      case Replied =>
        if n == 0 {
          assert View() == w;
          return Served, None;
        }
        ServeHeap(w.blocks, w.brk, n);
        PointsMore(w.blocks, heap.blocks, ptrs, ptr);
        if ptr != 0 {
          ptrs := ptrs + {ptr};
        }
        NextKeeps(heap.space.root, reserved, w, Kmalloc(n), View());
        return Served, Some(Kmalloc(n));
    }

    method FreeOne(ptr: nat) returns (ghost op: Option<Op>)
      requires Valid()
      modifies this`ptrs, log, heap`mem, heap`freeList, heap`blocks
      ensures Valid() && Does(heap.space.root, old(View()), op, View())
    {
      hide Inv, Locks.Follow, Mapping, TableFrames, Tree, Tiles, Backed, Free, IndexOf, Separate, Aligned, Points;
      if ptr !in ptrs {
        return None;
      }
      ghost var w := View();
      ghost var k := PointsLess(w.blocks, w.brk, ptrs, ptr);
      heap.Kfree(log, ptr);
      ptrs := ptrs - {ptr};
      op := Some(Kfree(k));
      NextKeeps(heap.space.root, reserved, w, op.value, View());
    }

    /** One request. */
    method Handle(q: Request) returns (r: Answer, ghost op: Option<Op>)
      requires Valid() && (q.WantBytes? ==> q.size < WORD)
      modifies this`clients, this`ptrs, log, heap`mem, heap`freeList, heap`blocks, heap`brk, heap`frames
      modifies heap.space.pmm`usedFrames, heap.space.pmm`used, heap.space.pmm`lastAllocated, heap.space.pmm`ram, heap.space.pmm.bitmap
      ensures r == Served ==> Valid() && Does(heap.space.root, old(View()), op, View())
      ensures r == OutOfMemory ==> heap.space.pmm.Exhausted()
      ensures r == GaveUp ==> 0 !in old(heap.space.pmm.used)
      ensures r == Astray ==> q.WantBytes? && Serve(old(heap.blocks), old(heap.brk), q.size) == Lost
    {
      hide Inv, Does, Points, Serve, Tiles, Backed, Tree, Locks.Follow;
      match q
      case WantFrame => r, op := TakeOne();
      case GiveFrame(frame) => op := ReturnOne(frame); r := Served;
      case WantPage(virt, frame, flags) => r, op := MapOne(virt, frame, flags);
      case DropPage(virt) => op := UnmapOne(virt); r := Served;
      case WantBytes(n) => r, op := MallocOne(n);
      case GiveBytes(ptr) => op := FreeOne(ptr); r := Served;
    }

    /** Any list of requests, until one is not served: what was done is a run of the memory system, and the locks taken
        and released on the way keep to the order and are all released. */
    method HandleAll(qs: seq<Request>) returns (r: Answer, ghost ws: seq<World>, ghost ops: seq<Op>)
      requires Valid() && forall i :: 0 <= i < |qs| && qs[i].WantBytes? ==> qs[i].size < WORD
      modifies this`clients, this`ptrs, log, heap`mem, heap`freeList, heap`blocks, heap`brk, heap`frames
      modifies heap.space.pmm`usedFrames, heap.space.pmm`used, heap.space.pmm`lastAllocated, heap.space.pmm`ram, heap.space.pmm.bitmap
      ensures Run(heap.space.root, ws, ops) && ws[0] == old(View())
      ensures r == Served ==> Valid() && ws[|ops|] == View() && LockOrder.Disciplined([], log.trace)
      ensures r == OutOfMemory ==> heap.space.pmm.Exhausted()
      ensures r == GaveUp ==> 0 !in ws[|ops|].used
    {
      hide Inv, Does, Points, Serve, Tiles, Backed, Tree, Locks.Follow, Next;
      ws, ops := [View()], [];
      for i := 0 to |qs|
        invariant Valid() && Run(heap.space.root, ws, ops) && ws[0] == old(View()) && ws[|ops|] == View()
      {
        ghost var op;
        r, op := Handle(qs[i]);
        if r != Served {
          return;
        }
        ws, ops := Longer(heap.space.root, ws, ops, op, View());
      }
      return Served, ws, ops;
    }
  }

  lemma InvBacked(root: nat, reserved: set<nat>, w: World)
    requires Inv(root, reserved, w)
    ensures Tree(w.ram, root, w.used) && Occupied(w.ram, root, Root) && Backed(w.ram, root, w.used, w.frames)
  {}

  /** A run one step longer, or the same if there was none. */
  lemma Longer(root: nat, ws: seq<World>, ops: seq<Op>, op: Option<Op>, w: World) returns (ws': seq<World>, ops': seq<Op>)
    requires Run(root, ws, ops) && Does(root, ws[|ops|], op, w)
    ensures Run(root, ws', ops') && ws'[0] == ws[0] && ws'[|ops'|] == w
  {
    hide Next;
    match op
    case None => ws', ops' := ws, ops;
    case Some(o) => ws', ops' := ws + [w], ops + [o];
  }

  lemma PointsMore(bs: seq<Block>, bs': seq<Block>, ptrs: set<nat>, ptr: nat)
    requires Points(bs, ptrs) && forall c :: Live(bs, c) ==> Live(bs', c)
    requires ptr != 0 ==> exists b :: Live(bs', b) && b.addr + HEADER == ptr
    ensures Points(bs', if ptr == 0 then ptrs else ptrs + {ptr})
  {
    hide Live;
  }

  /** A pointer names an allocated block, and freeing it leaves the blocks of the others. */
  lemma PointsLess(bs: seq<Block>, brk: nat, ptrs: set<nat>, ptr: nat) returns (k: nat)
    requires Tiles(bs, HEAP_START, brk) && Separate(bs) && Aligned(bs) && Points(bs, ptrs) && ptr in ptrs
    ensures ptr > HEADER && (exists b :: Live(bs, b) && b.addr + HEADER == ptr)
    ensures exists i :: 0 <= i < |bs| && bs[i].addr == ptr - HEADER
    ensures k == IndexOf(bs, ptr - HEADER) && k < |bs| && !bs[k].free && Points(Free(bs, k), ptrs - {ptr})
  {
    var b :| Live(bs, b) && b.addr + HEADER == ptr;
    LiveBounds(bs, HEAP_START, brk, b);
    k := LiveIndex(bs, b.addr, HEAP_START, brk);
    FreeHeap(bs, k, HEAP_START, brk);
    hide Tiles, Free, Separate, Aligned, IndexOf;
    forall p | p in ptrs - {ptr} ensures exists c :: Live(Free(bs, k), c) && c.addr + HEADER == p {
      var c :| Live(bs, c) && c.addr + HEADER == p;
      assert Live(Free(bs, k), c);
    }
  }
}
