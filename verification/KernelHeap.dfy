/**
 The kernel heap of kernel/memory.c: kmalloc and kfree over an address-sorted free list
 threaded through the block headers, growing page by page through the address space.
 */
module KernelHeap {
  import opened HeapBlocks
  import opened HeapRequests
  import opened FreeList
  import opened PageTables
  import opened PhysicalMemory
  import opened AddressSpace
  import Locks
  import opened Wrappers

  const HEAP_FLAGS: bv64 := PTE_WRITE | PTE_NX

  /** The walk over the list has reached the free block of index j. */
  ghost predicate At(bs: seq<Block>, j: nat, a: nat) {
    j < |bs| && bs[j].free && bs[j].addr == a
  }

  /** Where the next field of the free block j leads: past blocks that are not free. */
  lemma NextOf(m: Memory, bs: seq<Block>, j: nat, lo: nat, hi: nat) returns (i: nat)
    requires Tiles(bs, lo, hi) && lo > 0 && Links(m, bs, 0) && j < |bs| && bs[j].free
    ensures bs[j].addr in m && m[bs[j].addr].size == bs[j].size && m[bs[j].addr].magic == FREE_MAGIC
    ensures j < i <= |bs| && (i == |bs| <==> m[bs[j].addr].next == 0)
    ensures i < |bs| ==> At(bs, i, m[bs[j].addr].next)
    ensures forall l :: j < l < i ==> !bs[l].free
  {
    LinkAt(m, bs, 0, j);
    TilesNonNull(bs, lo, hi);
    i := FreeHeadIndex(bs[j + 1..]);
    i := i + j + 1;
    assert forall l :: j < l < i ==> bs[l] == bs[j + 1..][l - j - 1];
  }

  /** The headers keep their sizes, and their marks except at a. */
  ghost predicate SizesKept(m: Memory, m': Memory, a: nat) {
    && m.Keys == m'.Keys
    && forall c :: c in m ==> m'[c].size == m[c].size && (c != a ==> m'[c].magic == m[c].magic)
  }

  class Allocator {
    const space: Space
    var mem: Memory
    var freeList: nat
    var brk: nat
    ghost var blocks: seq<Block>
    ghost var frames: seq<nat>

    ghost predicate Listed()
      reads this
    {
      Links(mem, blocks, 0) && freeList == FreeHead(blocks)
    }

    constructor (space: Space)
      ensures this.space == space && mem == map[] && freeList == 0 && brk == HEAP_START
      ensures blocks == [] && frames == [] && (space.Valid() ==> Valid())
    {
      this.space := space;
      mem, freeList, brk := map[], 0, HEAP_START;
      blocks, frames := [], [];
    }

    /** The walk to the last free block below `block`, started at the first free block, which has index first. */
    method Predecessor(block: nat, ghost first: nat, ghost k: nat, ghost hi: nat) returns (current: nat, ghost j: nat)
      requires Tiles(blocks, HEAP_START, hi) && Listed()
      requires k < |blocks| && !blocks[k].free && blocks[k].addr == block
      requires At(blocks, first, freeList) && freeList < block
      ensures At(blocks, j, current) && j < k && current in mem
      ensures forall l :: j < l < k ==> !blocks[l].free
    {
      current, j := freeList, first;
      IndexOrder(blocks, j, k, HEAP_START, hi);
      ghost var i := NextOf(mem, blocks, j, HEAP_START, hi);
      while mem[current].next != 0 && mem[current].next < block
        invariant At(blocks, j, current) && j < k
        invariant current in mem && j < i <= |blocks| && (i == |blocks| <==> mem[current].next == 0)
        invariant i < |blocks| ==> At(blocks, i, mem[current].next)
        invariant forall l :: j < l < i ==> !blocks[l].free
        decreases k - j
      {
        current := mem[current].next;
        IndexOrder(blocks, i, k, HEAP_START, hi);
        j := i;
        i := NextOf(mem, blocks, j, HEAP_START, hi);
      }
      if i < |blocks| {
        IndexOrder(blocks, i, k, HEAP_START, hi);
      }
    }

    /** Inserts a block into the free list at its place in address order. */
    method AddToFreeList(block: nat, ghost k: nat, ghost hi: nat)
      requires Tiles(blocks, HEAP_START, hi) && Aligned(blocks) && Listed()
      requires k < |blocks| && !blocks[k].free && blocks[k].addr == block
      modifies this`mem, this`freeList, this`blocks
      ensures Listed() && blocks == Release(old(blocks), k)
      ensures SizesKept(old(mem), mem, block)
    {
      hide Tiles, Links, FreeHead;
      LinkAt(mem, blocks, 0, k);
      mem := mem[block := Header(mem[block].size, 0, FREE_MAGIC)];
      Relisted(old(mem), mem, blocks, k, HEAP_START, hi);
      assert block % MIN_ALIGN == 0;
      TilesNonNull(blocks, HEAP_START, hi);
      ghost var j := FreeHeadIndex(blocks);
      if freeList == 0 || block < freeList {
        BelowFirst(blocks, j, k, HEAP_START, hi);
        mem := mem[block := mem[block].(next := freeList)];
        Relisted(old(mem), mem, blocks, k, HEAP_START, hi);
        InsertFront(mem, blocks, k, HEAP_START, hi);
        freeList := block;
      } else {
        IndexOrder(blocks, j, k, HEAP_START, hi);
        var current;
        current, j := Predecessor(block, j, k, hi);
        mem := mem[block := mem[block].(next := mem[current].next)];
        Relisted(old(mem), mem, blocks, k, HEAP_START, hi);
        InsertAfter(mem, blocks, j, k, HEAP_START, hi);
        mem := mem[current := mem[current].(next := block)];
      }
      blocks := Release(blocks, k);
    }

    /** The heap between operations: blocks tile it, none free touching, the list holds the free ones, marks are right. */
    ghost predicate Consistent()
      reads this
    {
      Heap(blocks, HEAP_START, brk) && Listed() && Marked(mem, blocks)
    }

    /** The first-fit search: the lowest free block with room for n bytes and the free block before it, 0 for none. */
    method FindFit(n: nat) returns (current: nat, prev: nat, ghost k: nat, ghost p: nat)
      requires Consistent()
      ensures k == FirstFit(blocks, n)
      ensures current == if FirstFit(blocks, n) < |blocks| then blocks[FirstFit(blocks, n)].addr else 0
      ensures if current == 0 then k == |blocks| else At(blocks, k, current) && current in mem
      ensures Before(blocks, prev, p, k)
    {
      TilesNonNull(blocks, HEAP_START, brk);
      current, prev, p := freeList, 0, 0;
      k := FreeHeadIndex(blocks);
      if k < |blocks| { LinkAt(mem, blocks, 0, k); }
      while current != 0
        invariant k <= |blocks| && forall i :: 0 <= i < k ==> !Fits(blocks[i], n)
        invariant if current == 0 then k == |blocks| else At(blocks, k, current) && current in mem
        invariant Before(blocks, prev, p, k)
        decreases |blocks| - k
      {
        ghost var i: nat := NextOf(mem, blocks, k, HEAP_START, brk);
        assert mem[current].magic == FREE_MAGIC;
        if mem[current].size >= n {
          return;
        }
        if i < |blocks| { LinkAt(mem, blocks, 0, i); }
        prev, p := current, k;
        current, k := mem[current].next, i;
      }
    }

    /** Takes the free block k off the list. */
    method Unlink(current: nat, prev: nat, ghost k: nat, ghost p: nat)
      requires Tiles(blocks, HEAP_START, brk) && Listed() && At(blocks, k, current) && Before(blocks, prev, p, k)
      modifies this`mem, this`freeList, this`blocks
      ensures Listed() && blocks == MarkUsed(old(blocks), k)
      ensures MarksKept(old(mem), mem, 0, 0) && current in mem
    {
      if prev != 0 {
        RemoveAfter(mem, blocks, p, k, HEAP_START, brk);
        mem := mem[prev := mem[prev].(next := mem[current].next)];
      } else {
        NoFreeHead(blocks[..k]);
        RemoveFront(mem, blocks, k, HEAP_START, brk);
        freeList := mem[current].next;
      }
      blocks := MarkUsed(blocks, k);
    }

    /** Cuts the allocated block k in two, writing the header of the second part into its data area. */
    method CutBlock(current: nat, n: nat, ghost k: nat)
      requires Tiles(blocks, HEAP_START, brk) && Aligned(blocks) && Listed() && k < |blocks| && !blocks[k].free
      requires blocks[k].addr == current && n + HEADER <= blocks[k].size && n % MIN_ALIGN == 0 && current in mem
      modifies this`mem, this`blocks
      ensures Tiles(blocks, HEAP_START, brk) && Aligned(blocks) && Listed() && blocks == Cut(old(blocks), k, n)
      ensures MarksKept(old(mem), mem, current, End(old(blocks)[k])) && current in mem
    {
      LinkAt(mem, blocks, 0, k);
      var rest := mem[current].size - n - HEADER;
      ghost var m := mem;
      mem := mem[current + HEADER + n := Header(rest, 0, 0)];
      mem := mem[current := mem[current].(size := n)];
      CutList(m, mem, blocks, k, n, HEAP_START, brk);
      CutTiles(blocks, k, n, HEAP_START, brk);
      blocks := Cut(blocks, k, n);
    }

    /** Gives the rest of the allocated block k back to the list if a header and a minimal block fit in it. */
    method SplitBlock(current: nat, n: nat, ghost k: nat)
      requires Tiles(blocks, HEAP_START, brk) && Aligned(blocks) && Listed() && k < |blocks| && !blocks[k].free
      requires blocks[k].addr == current && n <= blocks[k].size && n % MIN_ALIGN == 0 && current in mem
      modifies this`mem, this`freeList, this`blocks
      ensures Listed() && current in mem
      ensures blocks == if Splits(old(blocks)[k], n) then Release(Cut(old(blocks), k, n), k + 1) else old(blocks)
      ensures MarksKept(old(mem), mem, current, End(old(blocks)[k]))
    {
      LinkAt(mem, blocks, 0, k);
      var remaining := mem[current].size - n;
      if remaining >= HEADER + MIN_ALIGN {
        CutBlock(current, n, k);
        AddToFreeList(current + HEADER + n, k + 1, brk);
      }
    }

    /** Takes block k off the list, splits it if the rest is large enough, and marks it allocated. */
    method TakeBlock(current: nat, prev: nat, n: nat, ghost k: nat, ghost p: nat)
      requires Consistent() && At(blocks, k, current) && n <= blocks[k].size && n % MIN_ALIGN == 0
      requires Before(blocks, prev, p, k)
      modifies this`mem, this`freeList, this`blocks
      ensures Consistent() && blocks == Take(old(blocks), k, n)
    {
      hide Tiles, Links, FreeHead, Take, Cut, Marked;
      ghost var bs := blocks;
      Unlink(current, prev, k, p);
      UsedTiles(bs, k, HEAP_START, brk);
      SplitBlock(current, n, k);
      TakeIs(bs, k, n);
      TakeHeap(bs, k, n, HEAP_START, brk);
      TakeMarked(old(mem), mem, bs, k, n, HEAP_START, brk);
      ghost var m := mem;
      LinkAt(m, blocks, 0, k);
      mem := mem[current := mem[current].(magic := USED_MAGIC)];
      Relisted(m, mem, blocks, k, HEAP_START, brk);
    }

    /** Joins touching free blocks in one pass over the free list. */
    method CoalesceFreeList(ghost hi: nat)
      requires Tiles(blocks, HEAP_START, hi) && Listed() && Marked(mem, blocks)
      modifies this`mem, this`blocks
      ensures Listed() && blocks == Coalesce(old(blocks))
      ensures Marked(mem, blocks)
    {
      hide Tiles, Links, FreeHead, Coalesce, Marked;
      ghost var goal := Coalesce(blocks);
      var current: nat := freeList;
      ghost var j: nat := PassStart(mem, blocks, HEAP_START, hi);
      while current != 0 && mem[current].next != 0
        invariant freeList == FreeHead(blocks) && Pass(mem, blocks, j, current, goal, HEAP_START, hi)
        decreases |blocks| - j
      {
        var next := mem[current].next;
        ghost var i: nat := PassNext(mem, blocks, j, current, goal, HEAP_START, hi);
        assert mem[current].magic == FREE_MAGIC && mem[next].magic == FREE_MAGIC;
        if current + HEADER + mem[current].size == next {
          PassJoin(mem, blocks, j, current, goal, HEAP_START, hi);
          mem := mem[current := Header(mem[current].size + HEADER + mem[next].size, mem[next].next, FREE_MAGIC)];
          blocks := JoinAt(blocks, j);
        } else {
          current := next;
          j := i;
        }
      }
      PassEnd(mem, blocks, j, current, goal, HEAP_START, hi);
    }

    /** The heap and the memory under it. */
    ghost predicate Valid()
      reads this, space, space.pmm, space.pmm.bitmap
    {
      && Consistent() && IsBreak(brk)
      && space.Valid()
      && brk == HEAP_START + PAGE_SIZE * |frames|
      && Backed(space.pmm.ram, space.root, space.pmm.used, frames)
    }

    /** Frees the block whose data starts at ptr; NULL is ignored. */
    method Kfree(ghost log: Locks.Log, ptr: nat)
      requires Valid() && log.Below(Locks.HEAP)
      requires ptr != 0 ==> exists b :: Live(blocks, b) && b.addr + HEADER == ptr
      modifies this`mem, this`freeList, this`blocks, log
      ensures Valid() && log.Valid() && log.held == old(log.held)
      ensures ptr == 0 ==> blocks == old(blocks)
      ensures ptr != 0 ==>
                && (exists i :: 0 <= i < |old(blocks)| && old(blocks)[i].addr == ptr - HEADER)
                && blocks == Free(old(blocks), IndexOf(old(blocks), ptr - HEADER))
    {
      hide Locks.Follow, Tiles, Links, FreeHead, Coalesce, Mapping, TableFrames, Tree, Backed, SizesKept, IndexOf;
      if ptr == 0 {
        return;
      }
      log.Acquires(Locks.HEAP);
      ghost var bs := blocks;
      ghost var k := LiveIndex(bs, ptr - HEADER, HEAP_START, brk);
      var block := ptr - HEADER;
      assert mem[block].magic == USED_MAGIC;
      AddToFreeList(block, k, brk);
      ReleaseTiles(bs, k, HEAP_START, brk);
      ReleaseMarked(old(mem), mem, bs, k, HEAP_START, brk);
      CoalesceFreeList(brk);
      FreeHeap(bs, k, HEAP_START, brk);
      log.Releases(Locks.HEAP);
    }

    /** One page of growth: a frame from the physical memory manager, mapped at the break. */
    method BackPage(ghost log: Locks.Log, addr: nat, ghost ram0: Ram, ghost used0: set<nat>, ghost frames0: seq<nat>)
      returns (r: Outcome)
      requires log.Below(Locks.SPACE)
      requires space.Valid() && addr == HEAP_START + PAGE_SIZE * |frames| && |frames| < 1024 * 16
      requires Grown(ram0, used0, frames0, space.pmm.ram, space.pmm.used, frames, space.root)
      modifies log, this`frames, space.pmm`usedFrames, space.pmm`used, space.pmm`lastAllocated, space.pmm`ram, space.pmm.bitmap
      ensures r != Panic ==> log.Valid() && log.held == old(log.held)
      ensures r == Panic ==> space.pmm.Exhausted()
      ensures r == Done ==>
                && space.Valid() && |frames| == old(|frames|) + 1
                && Grown(ram0, used0, frames0, space.pmm.ram, space.pmm.used, frames, space.root)
      ensures r == Failed ==>
                0 !in old(space.pmm.used) && space.Valid() && space.Pages() == old(space.Pages()) && frames == old(frames)
    {
      hide Locks.Follow, Mapping, TableFrames, Tree, Mapped, Backed, PagesKept, DataKept, PageNumber, HeapPage, LeafOf, TablesAdded, Occupied, NewFrames, NewTables, GivenUp, Grown;
      ghost var ram, used := space.pmm.ram, space.pmm.used;
      var f := space.AllocDataFrame(log);
      if f == None {
        return Panic;
      }
      if f.value == 0 {
        return Failed;
      }
      ghost var ram1 := space.pmm.ram;
      HeapPageNumber(|frames|);
      HeapLeaf(f.value);
      r := space.MapPage(log, addr, f.value, HEAP_FLAGS);
      if r == Failed {
        NotLinked(ram1, used + {f.value}, space.pmm.ram, space.pmm.used, space.root, f.value);
        var ok := space.pmm.FreeFrame(log, f.value);
      } else if r == Done {
        ghost var ram2, used2 := space.pmm.ram, space.pmm.used;
        GrowPage(ram0, used0, frames0, ram, used, frames, space.root, f.value, ram1, ram2, used2);
        frames := frames + [f.value];
        assert space.pmm.ram == ram2 && space.pmm.used == used2;
      }
    }

    /** Backs the pages from the break up to newBreak, which is not yet the break; none if newBreak lies below. */
    method BackPages(ghost log: Locks.Log, newBreak: nat) returns (r: Outcome)
      requires Valid() && log.Below(Locks.SPACE) && newBreak <= HEAP_MAX_BREAK && newBreak % PAGE_SIZE == 0
      modifies this`brk, this`frames, log
      modifies space.pmm`usedFrames, space.pmm`used, space.pmm`lastAllocated, space.pmm`ram, space.pmm.bitmap
      ensures r != Panic ==> log.Valid() && log.held == old(log.held)
      ensures r == Panic ==> space.pmm.Exhausted()
      ensures newBreak <= old(brk) ==> r == Done && frames == old(frames)
      ensures r == Done ==>
                && brk == old(brk) && space.Valid() && (brk <= newBreak ==> newBreak == HEAP_START + PAGE_SIZE * |frames|)
                && Grown(old(space.pmm.ram), old(space.pmm.used), old(frames), space.pmm.ram, space.pmm.used, frames, space.root)
      ensures r == Failed ==>
                && 0 !in old(space.pmm.used) && space.Valid() && brk == HEAP_START + PAGE_SIZE * |frames|
                && Stopped(old(space.Pages()), old(frames), space.Pages(), frames)
    {
      hide Locks.Follow, Mapping, TableFrames, Tree, Backed, PagesKept, DataKept, NewFrames, NewTables, Tiles, Links, FreeHead, Marked, Grown, Stopped;
      ghost var ram, used, frames0 := space.pmm.ram, space.pmm.used, frames;
      GrownNothing(ram, used, frames0, space.root);
      var addr := brk;
      while addr < newBreak
        invariant space.Valid() && addr == HEAP_START + PAGE_SIZE * |frames| && brk == old(brk)
        invariant brk <= addr && (addr <= newBreak || addr == brk) && (addr == brk ==> frames == frames0)
        invariant log.Valid() && log.held == old(log.held)
        invariant Grown(ram, used, frames0, space.pmm.ram, space.pmm.used, frames, space.root)
      {
        StoppedHere(ram, used, frames0, space.pmm.ram, space.pmm.used, frames, space.root);
        GrownUses(ram, used, frames0, space.pmm.ram, space.pmm.used, frames, space.root);
        r := BackPage(log, addr, ram, used, frames0);
        if r == Failed {
          brk := addr;
        }
        if r != Done {
          return;
        }
        addr := addr + PAGE_SIZE;
      }
      return Done;
    }

    /** Grows the heap by whole pages. Refused leaves everything as it was; Failed leaves the break where backing stopped.
        A break that wraps below the old one backs nothing. */
    method Expand(ghost log: Locks.Log, bytes: nat) returns (r: Expansion)
      requires Valid() && log.Below(Locks.SPACE) && ExpandedBreak(brk, bytes) % PAGE_SIZE == 0
      modifies this`brk, this`frames, log
      modifies space.pmm`usedFrames, space.pmm`used, space.pmm`lastAllocated, space.pmm`ram, space.pmm.bitmap
      ensures r != Broken(Panic) ==> log.Valid() && log.held == old(log.held)
      ensures r == Refused <==> ExpandedBreak(old(brk), bytes) > HEAP_MAX_BREAK
      ensures r == Broken(Panic) ==> space.pmm.Exhausted()
      ensures r != Wrapped && (ExpandedBreak(old(brk), bytes) <= old(brk) ==> r == Extended)
      ensures r == Refused ==>
                brk == old(brk) && frames == old(frames) && space.pmm.used == old(space.pmm.used) && space.pmm.ram == old(space.pmm.ram) && Valid()
      ensures r == Extended ==>
                && brk == ExpandedBreak(old(brk), bytes) && space.Valid()
                && (if old(brk) <= brk then brk == HEAP_START + PAGE_SIZE * |frames| else frames == old(frames))
                && Grown(old(space.pmm.ram), old(space.pmm.used), old(frames), space.pmm.ram, space.pmm.used, frames, space.root)
      ensures r == Broken(Failed) ==>
                && 0 !in old(space.pmm.used) && space.Valid() && brk == HEAP_START + PAGE_SIZE * |frames|
                && Stopped(old(space.Pages()), old(frames), space.Pages(), frames)
      ensures r != Broken(Done)
    {
      hide Locks.Follow, Mapping, TableFrames, Tree, Backed, PagesKept, DataKept, NewFrames, NewTables, Tiles, Links, ExpandedBreak, Grown, Stopped;
      var newBreak := ExpandedBreak(brk, bytes);
      if newBreak > HEAP_MAX_BREAK {
        return Refused;
      }
      var backed := BackPages(log, newBreak);
      if backed != Done {
        return Broken(backed);
      }
      brk := newBreak;
      return Extended;
    }

    /** Makes the new region a free block and merges it with what it touches. */
    method AddRegion(start: nat)
      requires Heap(blocks, HEAP_START, start) && Listed() && Marked(mem, blocks)
      requires start % MIN_ALIGN == 0 && brk % MIN_ALIGN == 0 && start + HEADER <= brk
      modifies this`mem, this`freeList, this`blocks
      ensures Consistent() && blocks == Grow(old(blocks), start, brk - start)
    {
      hide Tiles, Links, FreeHead, Coalesce, Marked, SizesKept;
      ghost var bs := blocks;
      var size := brk - start - HEADER;
      ghost var region := Block(start, size, false);
      AppendListed(mem, bs, HEAP_START, start, region);
      mem := mem[start := Header(size, 0, 0)];
      blocks := bs + [region];
      AddToFreeList(start, |bs|, brk);
      assert blocks == bs + [region.(free := true)];
      AppendMarked(old(mem), mem, bs, HEAP_START, start, region.(free := true));
      AppendTiles(bs, HEAP_START, start, region.(free := true));
      CoalesceFreeList(brk);
      GrowHeap(bs, HEAP_START, start, brk - start);
    }

    /** First fit in the present heap; 0 if nothing fits. */
    method TakeFirstFit(size: nat) returns (ptr: nat)
      requires Consistent() && size % MIN_ALIGN == 0
      modifies this`mem, this`freeList, this`blocks
      ensures Consistent()
      ensures var k := FirstFit(old(blocks), size);
              if k < |old(blocks)| then blocks == Take(old(blocks), k, size) && ptr == old(blocks)[k].addr + HEADER
              else blocks == old(blocks) && ptr == 0
    {
      var current, prev, k, p := FindFit(size);
      if current == 0 {
        return 0;
      }
      TakeBlock(current, prev, size, k, p);
      return current + HEADER;
    }

    /** The second half of kmalloc, after nothing fitted: grow and add the new region to the free list. Wrapped: the new
        break is not above the old one, so that the assertion on the size of the region stops it, or the header of the
        region is written behind the break. */
    method GrowFor(ghost log: Locks.Log, n: nat) returns (r: Expansion)
      requires Valid() && log.Below(Locks.SPACE)
      modifies this`mem, this`freeList, this`blocks, this`brk, this`frames, log
      modifies space.pmm`usedFrames, space.pmm`used, space.pmm`lastAllocated, space.pmm`ram, space.pmm.bitmap
      ensures r != Broken(Panic) ==> log.Valid() && log.held == old(log.held)
      ensures r == Broken(Panic) ==> space.pmm.Exhausted()
      ensures r == Refused <==> NewBreak(old(brk), n) > HEAP_MAX_BREAK
      ensures r == Wrapped <==> NewBreak(old(brk), n) <= old(brk)
      ensures r == Refused ==>
                && Valid() && brk == old(brk) && frames == old(frames) && blocks == old(blocks)
                && space.pmm.used == old(space.pmm.used) && space.pmm.ram == old(space.pmm.ram)
      ensures r == Extended ==>
                && Valid() && brk == NewBreak(old(brk), n) >= old(brk) + HEADER && blocks == Grow(old(blocks), old(brk), brk - old(brk))
                && Grown(old(space.pmm.ram), old(space.pmm.used), old(frames), space.pmm.ram, space.pmm.used, frames, space.root)
      ensures r == Broken(Failed) ==> 0 !in old(space.pmm.used)
      ensures r != Broken(Done)
    {
      hide Locks.Follow, Mapping, TableFrames, Tree, Backed, PagesKept, DataKept, NewFrames, NewTables, Tiles, Links, ExpandedBreak, Grow,
           Marked, FreeHead, Aligned, Coalesce, Separate, TotalSize, AlignedSize, Stopped;
      SizesAligned(brk, n);
      var start := brk;
      r := Expand(log, TotalSize(n));
      if r == Extended {
        if brk <= start {
          return Wrapped;
        }
        assert brk - start >= TotalSize(n);
        PageAligned(start);
        PageAligned(brk);
        AddRegion(start);
      }
    }

    /** One round of kmalloc, under the heap lock: the first block that fits, or growth. Refused is a round without growth,
        with the block found, or NULL because growth was refused. */
    method TryMalloc(ghost log: Locks.Log, n: nat) returns (e: Expansion, ptr: nat)
      requires Valid() && log.Below(Locks.HEAP)
      modifies this`mem, this`freeList, this`blocks, this`brk, this`frames, log
      modifies space.pmm`usedFrames, space.pmm`used, space.pmm`lastAllocated, space.pmm`ram, space.pmm.bitmap
      ensures e != Broken(Panic) && e != Wrapped ==> log.Valid() && log.held == old(log.held)
      ensures e == Broken(Panic) ==> space.pmm.Exhausted()
      ensures e == Broken(Failed) ==> 0 !in old(space.pmm.used)
      ensures e != Broken(Done)
      ensures e == Refused ==>
                && Valid() && frames == old(frames) && brk == old(brk)
                && space.pmm.used == old(space.pmm.used) && space.pmm.ram == old(space.pmm.ram)
      ensures var k := FirstFit(old(blocks), AlignedSize(n));
              if k < |old(blocks)|
              then e == Refused && blocks == Take(old(blocks), k, AlignedSize(n)) && ptr == old(blocks)[k].addr + HEADER
              else && ptr == 0 && (e == Refused ==> blocks == old(blocks))
                   && (e == Refused <==> NewBreak(old(brk), n) > HEAP_MAX_BREAK)
                   && (e == Wrapped <==> NewBreak(old(brk), n) <= old(brk))
      ensures e == Extended ==>
                && Valid() && brk == NewBreak(old(brk), n) >= old(brk) + HEADER && blocks == Grow(old(blocks), old(brk), brk - old(brk))
                && Grown(old(space.pmm.ram), old(space.pmm.used), old(frames), space.pmm.ram, space.pmm.used, frames, space.root)
    {
      hide Locks.Follow, Mapping, TableFrames, Tree, Backed, PagesKept, DataKept, NewFrames, NewTables, Tiles, Links,
           AlignUp, TotalSize, AlignedSize, ExpandedBreak, NewBreak, Grow, Take, FirstFit, Grown, Marked, Coalesce, Aligned, FreeHead;
      SizesAligned(brk, n);
      log.Acquires(Locks.HEAP);
      ptr := TakeFirstFit(AlignedSize(n));
      if ptr != 0 {
        log.Releases(Locks.HEAP);
        return Refused, ptr;
      }
      e := GrowFor(log, n);
      match e
      case Refused =>
        log.Releases(Locks.HEAP);
      case Broken(cause) =>
        if cause == Failed {
          log.Releases(Locks.HEAP);
        }
      case Wrapped =>
      case Extended =>
        log.Releases(Locks.HEAP);
    }

    /** Allocates n bytes, whatever n. Replied with ptr 0 is NULL; Unbacked means that the heap could not be backed, and
        Stray that the growth wrapped. `rounds` counts the calls of itself, each under its own taking of the lock. */
    method Kmalloc(ghost log: Locks.Log, n: nat) returns (r: Reply, ptr: nat, ghost rounds: nat)
      requires Valid() && log.Below(Locks.HEAP) && n < WORD
      modifies this`mem, this`freeList, this`blocks, this`brk, this`frames, log
      modifies space.pmm`usedFrames, space.pmm`used, space.pmm`lastAllocated, space.pmm`ram, space.pmm.bitmap
      ensures r != Unbacked(Panic) && r != Stray ==> log.Valid() && log.held == old(log.held)
      ensures r == Replied ==> Valid()
      ensures r == Replied ==>
                Grown(old(space.pmm.ram), old(space.pmm.used), old(frames), space.pmm.ram, space.pmm.used, frames, space.root)
      ensures r == Replied ==>
                if n == 0 then blocks == old(blocks) && brk == old(brk) && ptr == 0 && rounds == 0
                else Serve(old(blocks), old(brk), n) == Given(blocks, brk, ptr) && rounds == Rounds(old(blocks), old(brk), n)
      ensures r == Stray ==> n > 0 && Serve(old(blocks), old(brk), n) == Lost
      ensures FirstFit(old(blocks), AlignedSize(n)) < |old(blocks)| || n == 0 ==>
                r == Replied && space.pmm.used == old(space.pmm.used) && space.pmm.ram == old(space.pmm.ram) && frames == old(frames)
      ensures r == Unbacked(Panic) ==> space.pmm.Exhausted()
      ensures r == Unbacked(Failed) ==> 0 !in old(space.pmm.used)
      ensures r != Unbacked(Done)
      decreases HEAP_MAX_BREAK - brk
    {
      hide Locks.Follow, Mapping, TableFrames, Tree, Backed, PagesKept, DataKept, NewFrames, NewTables, Tiles, Links,
           AlignUp, TotalSize, AlignedSize, ExpandedBreak, NewBreak, Grow, Take, FirstFit, Grown, Marked, Coalesce, Aligned, FreeHead;
      SizesAligned(brk, n);
      GrownNothing(space.pmm.ram, space.pmm.used, frames, space.root);
      if n == 0 {
        return Replied, 0, 0;
      }
      var e;
      e, ptr := TryMalloc(log, n);
      match e
      case Refused =>
        return Replied, ptr, 1;
      case Wrapped =>
        return Stray, 0, 1;
      case Broken(cause) =>
        return Unbacked(cause), 0, 1;
      case Extended =>
        ghost var ram, used, fs := space.pmm.ram, space.pmm.used, frames;
        GrownUses(old(space.pmm.ram), old(space.pmm.used), old(frames), ram, used, fs, space.root);
        r, ptr, rounds := Kmalloc(log, n);
        rounds := rounds + 1;
        if r == Replied {
          GrownTwice(old(space.pmm.ram), old(space.pmm.used), old(frames), ram, used, fs,
                     space.pmm.ram, space.pmm.used, frames, space.root);
        }
    }
  }

  /** The reply of kmalloc: a block or NULL; not backed; or astray. */
  datatype Reply = Replied | Unbacked(cause: Outcome) | Stray

  /** Growth that broke off: the pages up to the break are backed, and no other page is touched. */
  ghost predicate Stopped(pages0: map<nat, Leaf>, frames0: seq<nat>, pages: map<nat, Leaf>, frames: seq<nat>) {
    && frames0 <= frames
    && (forall i :: 0 <= i < |frames| ==> HeapPage(i) in pages && pages[HeapPage(i)] == Leaf(frames[i], HEAP_FLAGS))
    && (forall n: nat :: !(HeapPage(|frames0|) <= n < HeapPage(|frames|)) ==>
                           (n in pages <==> n in pages0) && (n in pages0 ==> pages[n] == pages0[n]))
  }

  lemma StoppedHere(ram0: Ram, used0: set<nat>, frames0: seq<nat>, ram: Ram, used: set<nat>, frames: seq<nat>, root: nat)
    requires Grown(ram0, used0, frames0, ram, used, frames, root)
    ensures Stopped(Mapping(ram0, root), frames0, Mapping(ram, root), frames)
  {
    hide Mapping, TableFrames;
  }

  /** A data frame whose mapping was given up may be freed. */
  lemma NotLinked(ram: Ram, used: set<nat>, ram': Ram, used': set<nat>, root: nat, f: nat)
    requires GivenUp(ram, used, ram', used', root) && Tree(ram', root, used') && f in used && f !in TableFrames(ram, root)
    ensures f in used' && Tree(ram', root, used' - {f}) && Mapping(ram', root) == Mapping(ram, root) && 0 !in used
  {
    TablesInRam(ram', root);
    TablesUsed(ram', root, used');
    hide Tree, TableFrames, Mapping;
    DataKeepsTree(ram', ram', root, used', used' - {f});
  }

  lemma GrownUses(ram0: Ram, used0: set<nat>, frames0: seq<nat>, ram: Ram, used: set<nat>, frames: seq<nat>, root: nat)
    requires Grown(ram0, used0, frames0, ram, used, frames, root)
    ensures used0 <= used
  {}

  /** The direct map: from page `base` on, page f maps to frame f. */
  ghost predicate DirectMap(ram: Ram, root: nat, base: nat, count: nat) {
    forall n: nat :: base <= n < base + count ==> n in Mapping(ram, root) && Mapping(ram, root)[n].frame == n - base
  }

  /** Growing the heap keeps the direct map if and only if each new heap page that lies in it happens to be backed by the
      frame that belongs there; so always when heap and direct map do not meet. */
  lemma GrowthKeepsDirectMap(ram0: Ram, used0: set<nat>, frames0: seq<nat>, ram: Ram, used: set<nat>, frames: seq<nat>,
                             root: nat, base: nat, count: nat)
    requires Grown(ram0, used0, frames0, ram, used, frames, root) && DirectMap(ram0, root, base, count)
    ensures DirectMap(ram, root, base, count) <==>
            forall i :: |frames0| <= i < |frames| && base <= HeapPage(i) < base + count ==> frames[i] == HeapPage(i) - base
  {
    hide Mapping, TableFrames, Occupied, DataKept, NewTables, NewFrames;
    if forall i :: |frames0| <= i < |frames| && base <= HeapPage(i) < base + count ==> frames[i] == HeapPage(i) - base {
      forall n: nat | base <= n < base + count ensures n in Mapping(ram, root) && Mapping(ram, root)[n].frame == n - base {
        if HeapPage(|frames0|) <= n < HeapPage(|frames|) {
          var i := n - HeapPage(0);
          assert HeapPage(i) == n;
        }
      }
    }
  }

  /** If the frames that the direct map shows at the new heap pages are in use, growing keeps the direct map if and only if
      there are no such pages: a heap frame is a new one, so that it is never the one that belongs there. */
  lemma GrowthAvoidsDirectMap(ram0: Ram, used0: set<nat>, frames0: seq<nat>, ram: Ram, used: set<nat>, frames: seq<nat>,
                              root: nat, base: nat, count: nat)
    requires Grown(ram0, used0, frames0, ram, used, frames, root) && DirectMap(ram0, root, base, count)
    requires forall i :: |frames0| <= i < |frames| && base <= HeapPage(i) < base + count ==> HeapPage(i) - base in used0
    ensures DirectMap(ram, root, base, count) <==>
            forall i :: |frames0| <= i < |frames| ==> !(base <= HeapPage(i) < base + count)
  {
    hide Mapping, DirectMap, HeapPage, Grown;
    GrowthKeepsDirectMap(ram0, used0, frames0, ram, used, frames, root, base, count);
    GrownFresh(ram0, used0, frames0, ram, used, frames, root);
  }

  lemma GrownFresh(ram0: Ram, used0: set<nat>, frames0: seq<nat>, ram: Ram, used: set<nat>, frames: seq<nat>, root: nat)
    requires Grown(ram0, used0, frames0, ram, used, frames, root)
    ensures forall i :: |frames0| <= i < |frames| ==> frames[i] !in used0
  {
    hide Mapping, TableFrames, Backed, PagesKept, DataKept, Occupied;
    forall i | |frames0| <= i < |frames| ensures frames[i] !in used0 {
      assert frames[|frames0|..][i - |frames0|] == frames[i];
      assert frames[i] in NewFrames(frames0, frames);
    }
  }

  // The page of the usual offset of the direct map, 0xFFFF800000000000.
  const USUAL_OFFSET := 0xFFFF_8000_0000_0000 / 0x1000 % PAGES

  /** At the usual offset the heap starts 1 GiB into the direct map, so that the two meet with more memory than that. */
  lemma HeapInDirectMap(count: nat, i: nat)
    requires i < 1024 * 16
    ensures USUAL_OFFSET <= HeapPage(i) < USUAL_OFFSET + count <==> count > 0x4_0000 + i
  {}

  /** Growing again is growing by both. */
  lemma GrownTwice(ram0: Ram, used0: set<nat>, frames0: seq<nat>, ram1: Ram, used1: set<nat>, frames1: seq<nat>,
                   ram2: Ram, used2: set<nat>, frames2: seq<nat>, root: nat)
    requires Grown(ram0, used0, frames0, ram1, used1, frames1, root) && Grown(ram1, used1, frames1, ram2, used2, frames2, root)
    ensures Grown(ram0, used0, frames0, ram2, used2, frames2, root)
  {
    hide Mapping, TableFrames, Backed, Occupied;
    assert frames2[|frames0|..] == frames1[|frames0|..] + frames2[|frames1|..];
    assert NewFrames(frames0, frames2) == NewFrames(frames0, frames1) + NewFrames(frames1, frames2);
  }

  /** The outcome of kheap_expand: true, false because of the limit, or not backed; or a break that wrapped. */
  datatype Expansion = Extended | Refused | Broken(cause: Outcome) | Wrapped

  lemma GrownNothing(ram: Ram, used: set<nat>, frames: seq<nat>, root: nat)
    requires Tree(ram, root, used) && Backed(ram, root, used, frames)
    ensures Grown(ram, used, frames, ram, used, frames, root)
  {
    TablesUsed(ram, root, used);
    assert frames[|frames|..] == [];
  }

  lemma AppendMarked(m: Memory, m': Memory, bs: seq<Block>, lo: nat, hi: nat, b: Block)
    requires Tiles(bs, lo, hi) && Marked(m, bs) && b.addr == hi && b.free
    requires SizesKept(m[hi := Header(b.size, 0, 0)], m', hi)
    ensures Marked(m', bs + [b])
  {
    forall c | c in bs + [b] && !c.free ensures c.addr in m' && m'[c.addr].magic == USED_MAGIC {
      assert c in bs;
      LiveBounds(bs, lo, hi, c);
      assert c.addr in m;
    }
  }

  lemma AppendTiles(bs: seq<Block>, lo: nat, hi: nat, b: Block)
    requires Tiles(bs, lo, hi) && b.addr == hi
    ensures Tiles(bs + [b], lo, End(b))
  {
    assert [b][1..] == [];
    TilesConcat(bs, [b], lo, hi, End(b));
  }

  /** Page i of the heap, as a page number of the address space. */
  function HeapPage(i: nat): nat {
    HEAP_START / 0x1000 % PAGES + i
  }

  /** Every heap page is mapped writable and not executable to a frame of its own, which is in use and holds no table. */
  ghost predicate Backed(ram: Ram, root: nat, used: set<nat>, frames: seq<nat>) {
    && (forall i :: 0 <= i < |frames| ==>
          && HeapPage(i) in Mapping(ram, root) && Mapping(ram, root)[HeapPage(i)] == Leaf(frames[i], HEAP_FLAGS)
          && frames[i] in used && frames[i] !in TableFrames(ram, root))
    && (forall i, j :: 0 <= i < j < |frames| ==> frames[i] != frames[j])
  }

  lemma LiveIndex(bs: seq<Block>, a: nat, lo: nat, hi: nat) returns (k: nat)
    requires Tiles(bs, lo, hi) && exists b :: Live(bs, b) && b.addr == a
    ensures k < |bs| && bs[k].addr == a && !bs[k].free && k == IndexOf(bs, a)
  {
    var b :| Live(bs, b) && b.addr == a;
    var i :| 0 <= i < |bs| && bs[i] == b;
    k := IndexOf(bs, a);
    IndexOrder(bs, k, i, lo, hi);
  }

  lemma ReleaseMarked(m: Memory, m': Memory, bs: seq<Block>, k: nat, lo: nat, hi: nat)
    requires Tiles(bs, lo, hi) && Marked(m, bs) && k < |bs| && !bs[k].free && SizesKept(m, m', bs[k].addr)
    ensures Marked(m', Release(bs, k))
  {
    forall b | b in Release(bs, k) && !b.free ensures b.addr in m' && m'[b.addr].magic == USED_MAGIC {
      ReleaseLive(bs, k, lo, hi, b);
      var i :| 0 <= i < |bs| && bs[i] == b;
      IndexOrder(bs, i, k, lo, hi);
    }
  }

  // ---------- Growing through the address space ----------

  ghost function NewFrames(frames0: seq<nat>, frames: seq<nat>): set<nat>
    requires frames0 <= frames
  {
    set f | f in frames[|frames0|..]
  }

  ghost function NewTables(ram0: Ram, ram: Ram, root: nat): set<nat> {
    TableFrames(ram, root) - TableFrames(ram0, root)
  }

  /** Pages other than the new heap pages translate as before. */
  ghost predicate PagesKept(ram0: Ram, ram: Ram, root: nat, lo: nat, hi: nat) {
    forall n: nat :: !(HeapPage(lo) <= n < HeapPage(hi)) ==>
                       && (n in Mapping(ram, root) <==> n in Mapping(ram0, root))
                       && (n in Mapping(ram0, root) ==> Mapping(ram, root)[n] == Mapping(ram0, root)[n])
  }

  /** What growing the heap does to memory: the new heap pages are backed by new frames, no other page
      is touched, the frames newly in use are those and new tables, and no other data is overwritten. */
  ghost predicate Grown(ram0: Ram, used0: set<nat>, frames0: seq<nat>, ram: Ram, used: set<nat>, frames: seq<nat>, root: nat) {
    && frames0 <= frames && Backed(ram, root, used, frames)
    && PagesKept(ram0, ram, root, |frames0|, |frames|)
    && TableFrames(ram0, root) <= used0 && TableFrames(ram0, root) <= TableFrames(ram, root)
    && NewTables(ram0, ram, root) !! used0 && NewFrames(frames0, frames) !! used0
    && used == used0 + NewFrames(frames0, frames) + NewTables(ram0, ram, root)
    && DataKept(ram0, used0, ram, root)
    && (Occupied(ram0, root, Root) ==> Occupied(ram, root, Root))
  }

  lemma GrowBacked(ram: Ram, used: set<nat>, frames: seq<nat>, f: nat, ram1: Ram, ram2: Ram, used2: set<nat>, root: nat)
    requires Backed(ram, root, used, frames) && f !in used && TableFrames(ram, root) <= used
    requires Mapping(ram1, root) == Mapping(ram, root) && TableFrames(ram1, root) == TableFrames(ram, root)
    requires Mapped(ram1, used + {f}, ram2, used2, root, HeapPage(|frames|), Leaf(f, HEAP_FLAGS))
    ensures Backed(ram2, root, used2, frames + [f])
  {
    var fs := frames + [f];
    forall i | 0 <= i < |fs|
      ensures HeapPage(i) in Mapping(ram2, root) && Mapping(ram2, root)[HeapPage(i)] == Leaf(fs[i], HEAP_FLAGS)
      ensures fs[i] in used2 && fs[i] !in TableFrames(ram2, root)
    {
      if i < |frames| {
        assert HeapPage(i) in Mapping(ram, root) && HeapPage(i) != HeapPage(|frames|);
        assert frames[i] in used;
      }
    }
  }

  lemma GrowSets(ram0: Ram, used0: set<nat>, frames0: seq<nat>, ram: Ram, used: set<nat>, frames: seq<nat>, root: nat,
                 f: nat, ram2: Ram, used2: set<nat>)
    requires frames0 <= frames && TableFrames(ram0, root) <= used0 && TableFrames(ram0, root) <= TableFrames(ram, root) <= used
    requires NewTables(ram0, ram, root) !! used0 && NewFrames(frames0, frames) !! used0
    requires used == used0 + NewFrames(frames0, frames) + NewTables(ram0, ram, root)
    requires f !in used && used + {f} <= used2 && TableFrames(ram2, root) == TableFrames(ram, root) + (used2 - (used + {f}))
    ensures TableFrames(ram0, root) <= TableFrames(ram2, root)
    ensures NewTables(ram0, ram2, root) !! used0 && NewFrames(frames0, frames + [f]) !! used0
    ensures used2 == used0 + NewFrames(frames0, frames + [f]) + NewTables(ram0, ram2, root)
  {
    hide TableFrames;
    assert NewFrames(frames0, frames + [f]) == NewFrames(frames0, frames) + {f} by {
      assert (frames + [f])[|frames0|..] == frames[|frames0|..] + [f];
    }
    assert NewTables(ram0, ram2, root) == NewTables(ram0, ram, root) + (used2 - (used + {f}));
  }

  lemma GrowData(ram0: Ram, used0: set<nat>, ram: Ram, used: set<nat>, root: nat, f: nat, ram1: Ram, ram2: Ram)
    requires DataKept(ram0, used0, ram, root) && used0 <= used && NewTables(ram0, ram, root) !! used0
    requires f !in used && ram1 == ram[f := ZeroTable()] && TableFrames(ram1, root) == TableFrames(ram, root)
    requires DataKept(ram1, used + {f}, ram2, root)
    ensures DataKept(ram0, used0, ram2, root)
  {
    hide TableFrames, ZeroTable;
    forall d | d in used0 && d in ram0 && d !in TableFrames(ram0, root) ensures ram2[d] == ram0[d] {
      assert d in used && d != f && d !in TableFrames(ram, root);
    }
  }

  /** One more page: frame f taken and zeroed, then mapped. */
  lemma GrowPage(ram0: Ram, used0: set<nat>, frames0: seq<nat>, ram: Ram, used: set<nat>, frames: seq<nat>, root: nat,
                 f: nat, ram1: Ram, ram2: Ram, used2: set<nat>)
    requires Grown(ram0, used0, frames0, ram, used, frames, root) && TableFrames(ram, root) <= used && f !in used
    requires Mapping(ram1, root) == Mapping(ram, root) && TableFrames(ram1, root) == TableFrames(ram, root)
    requires ram1 == ram[f := ZeroTable()]
    requires Mapped(ram1, used + {f}, ram2, used2, root, HeapPage(|frames|), Leaf(f, HEAP_FLAGS))
    requires Occupied(ram, root, Root) ==> Occupied(ram2, root, Root)
    ensures Grown(ram0, used0, frames0, ram2, used2, frames + [f], root)
  {
    hide Mapping, TableFrames, Occupied, Backed, NewFrames, NewTables, DataKept;
    GrowBacked(ram, used, frames, f, ram1, ram2, used2, root);
    GrowSets(ram0, used0, frames0, ram, used, frames, root, f, ram2, used2);
    GrowData(ram0, used0, ram, used, root, f, ram1, ram2);
  }

  lemma HeapPageNumber(i: nat)
    requires i < 1024 * 16
    ensures PageNumber(HEAP_START + PAGE_SIZE * i) == HeapPage(i)
  {
    assert (HEAP_START + PAGE_SIZE * i) / 0x1000 == HEAP_START / 0x1000 + i;
  }

  lemma HeapLeaf(f: nat)
    requires f < FRAME_LIMIT
    ensures LeafOf(f, HEAP_FLAGS) == Leaf(f, HEAP_FLAGS)
  {}

  /** A new block off the list at the end of the heap. */
  lemma AppendListed(m: Memory, bs: seq<Block>, lo: nat, hi: nat, b: Block)
    requires Tiles(bs, lo, hi) && lo > 0 && Links(m, bs, 0) && b.addr == hi && !b.free
    ensures Links(m[hi := Header(b.size, 0, 0)], bs + [b], 0) && FreeHead(bs + [b]) == FreeHead(bs)
    ensures Tiles(bs + [b], lo, End(b))
  {
    var m' := m[hi := Header(b.size, 0, 0)];
    TilesNonNull(bs, lo, hi);
    TilesSplit(bs, |bs|, lo, hi);
    forall c | c in bs ensures c.addr != hi {
      LiveBounds(bs, lo, hi, c);
    }
    LinksFrame(m, m', bs, 0);
    assert [b][1..] == [];
    LinksConcat(m', bs, [b], 0);
    FreeHeadConcat(bs, [b]);
    TilesConcat(bs, [b], lo, hi, End(b));
  }

  /** The state of the coalescing pass at the free block j: everything before it is as it will be at the end. */
  ghost predicate Pass(m: Memory, bs: seq<Block>, j: nat, current: nat, goal: seq<Block>, lo: nat, hi: nat) {
    && lo > 0 && Tiles(bs, lo, hi) && Links(m, bs, 0) && Marked(m, bs)
    && j <= |bs| && goal == bs[..j] + Coalesce(bs[j..])
    && (if current == 0 then j == |bs| else At(bs, j, current) && current in m)
  }

  lemma PassStart(m: Memory, bs: seq<Block>, lo: nat, hi: nat) returns (j: nat)
    requires lo > 0 && Tiles(bs, lo, hi) && Links(m, bs, 0) && Marked(m, bs)
    ensures Pass(m, bs, j, FreeHead(bs), Coalesce(bs), lo, hi)
  {
    TilesNonNull(bs, lo, hi);
    j := FreeHeadIndex(bs);
    SkipTo(bs, 0, j);
    assert bs[0..] == bs;
    if j < |bs| { LinkAt(m, bs, 0, j); }
  }

  /** The next free block; if it does not touch this one, the pass may move on to it. */
  lemma PassNext(m: Memory, bs: seq<Block>, j: nat, current: nat, goal: seq<Block>, lo: nat, hi: nat) returns (i: nat)
    requires Pass(m, bs, j, current, goal, lo, hi) && current != 0 && m[current].next != 0
    ensures m[current].next in m && m[current].magic == FREE_MAGIC && m[m[current].next].magic == FREE_MAGIC
    ensures j < i < |bs| && At(bs, i, m[current].next)
    ensures if current + HEADER + m[current].size == m[current].next then i == j + 1
            else Pass(m, bs, i, m[current].next, goal, lo, hi)
  {
    hide Tiles, Links, FreeHead, Coalesce, Marked;
    i := NextOf(m, bs, j, lo, hi);
    LinkAt(m, bs, 0, i);
    TouchesNext(bs, j, i, lo, hi);
    if current + HEADER + m[current].size != m[current].next {
      SkipTo(bs, j, i);
      assert bs[..j] + (bs[j..i] + Coalesce(bs[i..])) == bs[..i] + Coalesce(bs[i..]);
    }
  }

  lemma PassJoin(m: Memory, bs: seq<Block>, j: nat, current: nat, goal: seq<Block>, lo: nat, hi: nat)
    requires Pass(m, bs, j, current, goal, lo, hi) && current != 0 && j + 1 < |bs| && At(bs, j + 1, m[current].next)
    ensures m[current].next in m
    ensures var c := m[m[current].next];
            Pass(m[current := Header(m[current].size + HEADER + c.size, c.next, FREE_MAGIC)], JoinAt(bs, j), j, current, goal, lo, hi)
    ensures FreeHead(JoinAt(bs, j)) == FreeHead(bs)
  {
    hide Tiles, Links, FreeHead, Coalesce, Marked;
    LinkAt(m, bs, 0, j);
    LinkAt(m, bs, 0, j + 1);
    var c := m[m[current].next];
    var h := Header(m[current].size + HEADER + c.size, c.next, FREE_MAGIC);
    var m', bs' := m[current := h], JoinAt(bs, j);
    assert h == Header(bs[j].size + HEADER + bs[j + 1].size, m[bs[j + 1].addr].next, FREE_MAGIC);
    JoinList(m, bs, j, lo, hi);
    assert Tiles(bs', lo, hi) by { JoinTiles(bs, j, lo, hi); }
    assert goal == bs'[..j] + Coalesce(bs'[j..]) by { JoinCoalesces(bs, j); }
    assert Marked(m', bs') by { JoinMarked(m, bs, j, h, lo, hi); }
    assert At(bs', j, current) by { assert bs'[j] == Join(bs[j], bs[j + 1]); }
  }

  lemma PassEnd(m: Memory, bs: seq<Block>, j: nat, current: nat, goal: seq<Block>, lo: nat, hi: nat)
    requires Pass(m, bs, j, current, goal, lo, hi) && (current == 0 || m[current].next == 0)
    ensures bs == goal
  {
    if current != 0 {
      var i := NextOf(m, bs, j, lo, hi);
      SkipTo(bs, j, i);
      assert bs[i..] == [];
    }
    assert bs[..j] + bs[j..] == bs;
  }

  /** A free block touches the next free one exactly when no block lies between them. */
  lemma TouchesNext(bs: seq<Block>, j: nat, i: nat, lo: nat, hi: nat)
    requires Tiles(bs, lo, hi) && j < i < |bs|
    ensures End(bs[j]) == bs[i].addr <==> i == j + 1
  {
    TilesSplit(bs, j, lo, hi);
    assert bs[j..][1..][0] == bs[j + 1];
    IndexOrder(bs, j + 1, i, lo, hi);
  }

  /** Coalescing passes over a block followed by blocks that are not free. */
  lemma SkipTo(bs: seq<Block>, j: nat, i: nat)
    requires j <= i <= |bs|
    requires forall l :: j < l < i ==> !bs[l].free
    requires j < i && bs[j].free ==> i != j + 1 || i == |bs|
    ensures Coalesce(bs[j..]) == bs[j..i] + Coalesce(bs[i..])
  {
    var x, y := bs[j..i], bs[i..];
    assert bs[j..] == x + y;
    assert Apart(x, y) by {
      forall l | 0 <= l < |x| && l + 1 < |x + y| ensures !(x[l].free && (x + y)[l + 1].free) {
        assert x[l] == bs[j + l] && (x + y)[l + 1] == bs[j + l + 1];
      }
    }
    CoalesceSkip(x, y);
  }

  lemma JoinCoalesces(bs: seq<Block>, j: nat)
    requires j + 1 < |bs| && bs[j].free && bs[j + 1].free
    ensures JoinAt(bs, j)[..j] == bs[..j] && Coalesce(JoinAt(bs, j)[j..]) == Coalesce(bs[j..])
  {
    var s := bs[j..];
    assert s[0] == bs[j] && s[1] == bs[j + 1] && s[2..] == bs[j + 2..];
    assert JoinAt(bs, j)[j..] == [Join(s[0], s[1])] + s[2..];
  }

  lemma JoinMarked(m: Memory, bs: seq<Block>, j: nat, h: Header, lo: nat, hi: nat)
    requires Tiles(bs, lo, hi) && j + 1 < |bs| && bs[j].free && bs[j + 1].free && Marked(m, bs)
    ensures Marked(m[bs[j].addr := h], JoinAt(bs, j))
  {
    forall b | b in JoinAt(bs, j) && !b.free ensures b in bs && b.addr != bs[j].addr {
      var l :| 0 <= l < |JoinAt(bs, j)| && JoinAt(bs, j)[l] == b;
      var l' := if l < j then l else l + 1;
      assert bs[l'] == b;
      IndexOrder(bs, l', j, lo, hi);
    }
  }

  /** Rewriting the header of a block off the list, its size apart, leaves the list as it was. */
  lemma Relisted(m: Memory, m': Memory, bs: seq<Block>, k: nat, lo: nat, hi: nat)
    requires Tiles(bs, lo, hi) && Links(m, bs, 0) && k < |bs| && !bs[k].free
    requires bs[k].addr in m && bs[k].addr in m' && m'[bs[k].addr].size == m[bs[k].addr].size
    requires forall a :: a in m && a != bs[k].addr ==> a in m' && m'[a] == m[a]
    ensures Links(m', bs, 0)
  {
    forall b | b in bs && b.free ensures b.addr != bs[k].addr {
      var i :| 0 <= i < |bs| && bs[i] == b;
      IndexOrder(bs, i, k, lo, hi);
    }
    LinksFrame(m, m', bs, 0);
  }

  /** Addresses are ordered as indices are. */
  lemma IndexOrder(bs: seq<Block>, i: nat, k: nat, lo: nat, hi: nat)
    requires Tiles(bs, lo, hi) && i < |bs| && k < |bs|
    ensures i < k <==> bs[i].addr < bs[k].addr
    ensures i == k <==> bs[i].addr == bs[k].addr
  {
    if i < k { TilesOrdered(bs, i, k, lo, hi); } else if k < i { TilesOrdered(bs, k, i, lo, hi); }
  }

  lemma BelowFirst(bs: seq<Block>, j: nat, k: nat, lo: nat, hi: nat)
    requires Tiles(bs, lo, hi) && k < |bs| && j <= |bs| && (j < |bs| ==> bs[k].addr < bs[j].addr)
    requires forall l :: 0 <= l < j ==> !bs[l].free
    ensures FreeHead(bs[..k]) == 0
  {
    if j < |bs| {
      IndexOrder(bs, k, j, lo, hi);
    }
    NoFreeHead(bs[..k]);
  }

  /** prev, of index p, is the free block before index k; 0 if there is none. */
  ghost predicate Before(bs: seq<Block>, prev: nat, p: nat, k: nat) {
    && k <= |bs|
    && if prev == 0 then forall i :: 0 <= i < k ==> !bs[i].free
       else p < k && At(bs, p, prev) && forall i :: p < i < k ==> !bs[i].free
  }

  /** Marks outside the range from lo to hi are kept. */
  ghost predicate MarksKept(m: Memory, m': Memory, lo: nat, hi: nat) {
    forall c :: c in m && !(lo <= c < hi) ==> c in m' && m'[c].magic == m[c].magic
  }

  lemma UsedTiles(bs: seq<Block>, k: nat, lo: nat, hi: nat)
    requires Tiles(bs, lo, hi) && Aligned(bs) && k < |bs|
    ensures Tiles(MarkUsed(bs, k), lo, hi) && Aligned(MarkUsed(bs, k))
  {
    var m := [bs[k].(free := false)];
    assert m[1..] == [];
    ReplaceTiles(bs, k, m, lo, hi);
    UpdateAround(bs, k, m[0]);
  }

  lemma CutTiles(bs: seq<Block>, k: nat, n: nat, lo: nat, hi: nat)
    requires Tiles(bs, lo, hi) && Aligned(bs) && k < |bs| && n + HEADER <= bs[k].size && n % MIN_ALIGN == 0
    ensures Tiles(Cut(bs, k, n), lo, hi) && Aligned(Cut(bs, k, n))
  {
    var b := bs[k];
    var m := [Block(b.addr, n, false), Block(b.addr + HEADER + n, b.size - n - HEADER, false)];
    hide Tiles;
    TilesPair(m[0], m[1], b.addr, End(b));
    ReplaceTiles(bs, k, m, lo, hi);
    SplitAligned(b.addr, b.size, n);
    ReplaceAligned(bs, k, m);
  }

  /** Unlinking, cutting and putting back the rest is what Take does. */
  lemma TakeIs(bs: seq<Block>, k: nat, n: nat)
    requires k < |bs| && Fits(bs[k], n)
    ensures Take(bs, k, n) == if Splits(bs[k], n) then Release(Cut(MarkUsed(bs, k), k, n), k + 1) else MarkUsed(bs, k)
  {
    if Splits(bs[k], n) {
      var us := MarkUsed(bs, k);
      assert us[..k] == bs[..k] && us[k + 1..] == bs[k + 1..];
    }
  }

  lemma TakeMarked(m: Memory, m': Memory, bs: seq<Block>, k: nat, n: nat, lo: nat, hi: nat)
    requires Tiles(bs, lo, hi) && k < |bs| && Fits(bs[k], n) && Marked(m, bs)
    requires MarksKept(m, m', bs[k].addr, End(bs[k])) && bs[k].addr in m'
    ensures Marked(m'[bs[k].addr := m'[bs[k].addr].(magic := USED_MAGIC)], Take(bs, k, n))
  {
    forall c | c in Take(bs, k, n) && !c.free && c.addr != bs[k].addr
      ensures c.addr in m' && m'[c.addr].magic == USED_MAGIC
    {
      TakeLive(bs, k, n, c);
      var i :| 0 <= i < |bs| && bs[i] == c;
      if i < k { TilesOrdered(bs, i, k, lo, hi); } else if k < i { TilesOrdered(bs, k, i, lo, hi); }
    }
  }
}
