/**
 Request sizes of the kernel heap of kernel/memory.c in 64-bit arithmetic, and the outcome
 of kmalloc as a function of the heap: which block it takes, whether it grows, when it fails.
 */
module HeapRequests {
  import opened HeapBlocks

  const WORD := 0x1_0000_0000_0000_0000
  const PAGE_SIZE := 0x1000
  const HEAP_START := 0xFFFF_8000_4000_0000
  const HEAP_MAX_BREAK := HEAP_START + PAGE_SIZE * 1024 * 16

  /** val + align - 1 rounded down, in 64 bits; align is a power of two. */
  function AlignUp(v: nat, align: nat): nat
    requires align == MIN_ALIGN || align == PAGE_SIZE
  {
    (v + align - 1) % WORD / align * align
  }

  function AlignedSize(n: nat): nat {
    AlignUp(n, MIN_ALIGN)
  }

  function TotalSize(n: nat): nat {
    (HEADER + AlignedSize(n)) % WORD
  }

  function Growth(n: nat): nat {
    AlignUp(TotalSize(n), PAGE_SIZE)
  }

  /** The break that kheap_expand compares with the maximum. */
  function ExpandedBreak(brk: nat, bytes: nat): nat {
    (brk + AlignUp(bytes, PAGE_SIZE)) % WORD
  }

  function NewBreak(brk: nat, n: nat): nat {
    ExpandedBreak(brk, TotalSize(n))
  }

  /** The same without a word size. */
  function RoundUp(v: nat, align: nat): (r: nat)
    requires align == MIN_ALIGN || align == PAGE_SIZE
  {
    (v + align - 1) / align * align
  }

  function TrueGrowth(n: nat): nat {
    RoundUp(HEADER + RoundUp(n, MIN_ALIGN), PAGE_SIZE)
  }

  predicate IsBreak(brk: nat) {
    HEAP_START <= brk <= HEAP_MAX_BREAK && brk % PAGE_SIZE == 0
  }

  lemma AlignUp16(v: nat)
    requires v + 15 < WORD
    ensures AlignUp(v, MIN_ALIGN) == RoundUp(v, MIN_ALIGN) && v <= AlignUp(v, MIN_ALIGN) < v + 16
    ensures AlignUp(v, MIN_ALIGN) % MIN_ALIGN == 0
  {}

  lemma AlignUpPage(v: nat)
    requires v + 4095 < WORD
    ensures AlignUp(v, PAGE_SIZE) == RoundUp(v, PAGE_SIZE) && v <= AlignUp(v, PAGE_SIZE) < v + 4096
    ensures AlignUp(v, PAGE_SIZE) % PAGE_SIZE == 0
  {}

  /** Away from 2^64 no size wraps. */
  lemma GrowthSmall(n: nat)
    requires n <= WORD - 0x2000
    ensures AlignedSize(n) == RoundUp(n, MIN_ALIGN) && TotalSize(n) == HEADER + AlignedSize(n)
    ensures Growth(n) == TrueGrowth(n) && Growth(n) >= TotalSize(n) && Growth(n) % PAGE_SIZE == 0
    ensures n <= AlignedSize(n) < n + 16 && AlignedSize(n) % MIN_ALIGN == 0
    ensures Growth(n) < n + 0x2000
  {
    hide AlignUp, RoundUp;
    AlignUp16(n);
    AlignUpPage(HEADER + AlignedSize(n));
  }

  /** The growth check compares the break the request really needs, unless the sum passes 2^64. */
  lemma NewBreakExact(brk: nat, n: nat)
    requires IsBreak(brk) && n < WORD
    ensures NewBreak(brk, n) == brk + TrueGrowth(n) <==> brk + TrueGrowth(n) < WORD
  {
    if n <= WORD - 0x2000 {
      GrowthSmall(n);
    } else {
      assert TrueGrowth(n) >= n;
    }
  }

  lemma AlignedLarge(n: nat)
    requires WORD - 0x2000 < n < WORD
    ensures AlignedSize(n) == if n > WORD - 16 then 0 else RoundUp(n, MIN_ALIGN)
    ensures n <= WORD - 16 ==> n <= RoundUp(n, MIN_ALIGN) <= WORD - 16
    ensures n <= WORD - 32 ==> RoundUp(n, MIN_ALIGN) <= WORD - 32
    ensures WORD - 32 < n <= WORD - 16 ==> RoundUp(n, MIN_ALIGN) == WORD - 16
  {}

  /** Near 2^64 the growth wraps to one page, to nothing, or not at all. */
  lemma GrowthLarge(n: nat)
    requires WORD - 0x2000 < n < WORD
    ensures n > WORD - 32 ==> Growth(n) == PAGE_SIZE
    ensures n <= WORD - 32 ==> Growth(n) == 0 || Growth(n) == TrueGrowth(n) < WORD
  {
    AlignedLarge(n);
    var total := HEADER + RoundUp(n, MIN_ALIGN);
    if n > WORD - 32 {
      assert TotalSize(n) == 16 || TotalSize(n) == 32;
    } else if total + PAGE_SIZE - 1 < WORD {
      assert TotalSize(n) == total;
    } else {
      assert TotalSize(n) == if total == WORD then 0 else total;
      assert Growth(n) == 0;
    }
  }

  lemma WrappedBreak(brk: nat, n: nat)
    requires IsBreak(brk) && n < WORD && brk + TrueGrowth(n) >= WORD
    ensures NewBreak(brk, n) > HEAP_MAX_BREAK <==> n > WORD - 32 && brk == HEAP_MAX_BREAK
  {
    var g := Growth(n);
    if n <= WORD - 0x2000 {
      GrowthSmall(n);
    } else {
      GrowthLarge(n);
    }
    assert n > WORD - 32 ==> g == PAGE_SIZE;
    assert n <= WORD - 32 ==> g == 0 || brk + g >= WORD > g;
  }

  /** Exactly when the check refuses the requests it should: when the break does not pass 2^64,
      or by luck when a wrapped request meets a heap already at its maximum. */
  lemma GrowthCheckExact(brk: nat, n: nat)
    requires IsBreak(brk) && n < WORD
    ensures (NewBreak(brk, n) > HEAP_MAX_BREAK <==> brk + TrueGrowth(n) > HEAP_MAX_BREAK)
            <==> (brk + TrueGrowth(n) < WORD || (n > WORD - 32 && brk == HEAP_MAX_BREAK))
  {
    NewBreakExact(brk, n);
    if brk + TrueGrowth(n) >= WORD {
      WrappedBreak(brk, n);
    }
  }

  /** A request for 2^47 bytes on the empty heap passes the check and would move the break below the heap. */
  lemma GrowthCheckFails()
    ensures NewBreak(HEAP_START, 0x8000_0000_0000) < HEAP_START
    ensures HEAP_MAX_BREAK < HEAP_START + TrueGrowth(0x8000_0000_0000)
  {}

  /** The aligned size is large enough unless rounding up wraps, and then it is 0. */
  lemma AlignedEnough(n: nat)
    requires n < WORD
    ensures n <= AlignedSize(n) <==> n <= WORD - 16
    ensures n > WORD - 16 ==> AlignedSize(n) == 0
  {}

  /** The request sizes as kmalloc computes them, as long as the break they need does not wrap. */
  lemma RequestSizes(brk: nat, n: nat)
    requires IsBreak(brk) && brk + TrueGrowth(n) < WORD
    ensures Request(AlignedSize(n), Growth(n)) && n <= AlignedSize(n)
    ensures AlignedSize(n) == RoundUp(n, MIN_ALIGN) && Growth(n) == TrueGrowth(n)
    ensures TotalSize(n) == HEADER + AlignedSize(n) && NewBreak(brk, n) == brk + Growth(n)
  {
    assert n <= TrueGrowth(n);
    GrowthSmall(n);
    NewBreakExact(brk, n);
  }

  /** Whatever the request, sizes and breaks stay aligned. */
  lemma SizesAligned(brk: nat, n: nat)
    requires IsBreak(brk)
    ensures AlignedSize(n) % MIN_ALIGN == 0 && NewBreak(brk, n) % PAGE_SIZE == 0
    ensures NewBreak(brk, n) > brk ==> NewBreak(brk, n) - brk >= TotalSize(n) && NewBreak(brk, n) >= brk + PAGE_SIZE
  {
    var g := AlignUp(TotalSize(n), PAGE_SIZE);
    assert g == 0 || g >= TotalSize(n);
    assert g % PAGE_SIZE == 0;
    hide AlignUp, TotalSize;
    BreakAligned(brk, g);
  }

  lemma BreakAligned(brk: nat, g: nat)
    requires brk % PAGE_SIZE == 0 && g % PAGE_SIZE == 0
    ensures (brk + g) % WORD % PAGE_SIZE == 0
  {
    var b, h := brk / PAGE_SIZE, g / PAGE_SIZE;
    assert brk + g == PAGE_SIZE * (b + h);
    var q := (brk + g) / WORD;
    assert (brk + g) % WORD == PAGE_SIZE * (b + h - WORD / PAGE_SIZE * q);
  }

  // ---------- kmalloc as a function of the heap ----------

  datatype Allocation = Allocation(blocks: seq<Block>, brk: nat, ptr: nat)

  /** size is the aligned request, growth the page-rounded growth it would need. */
  predicate Request(size: nat, growth: nat) {
    size % MIN_ALIGN == 0 && growth % PAGE_SIZE == 0 && HEADER + size <= growth
  }

  predicate Grows(bs: seq<Block>, brk: nat, size: nat, growth: nat) {
    FirstFit(bs, size) == |bs| && brk + growth <= HEAP_MAX_BREAK
  }

  /** The heap kmalloc allocates from: the present one, or the grown one when it grows. */
  function Source(bs: seq<Block>, brk: nat, size: nat, growth: nat): seq<Block>
    requires growth >= HEADER
  {
    if Grows(bs, brk, size, growth) then Grow(bs, brk, growth) else bs
  }

  /** kmalloc for a positive size: the first block that fits, in the present heap or else in the grown one; NULL if neither. */
  function Malloc(bs: seq<Block>, brk: nat, size: nat, growth: nat): Allocation
    requires growth >= HEADER
  {
    var s := Source(bs, brk, size, growth);
    var k := FirstFit(s, size);
    if k < |s|
    then Allocation(Take(s, k, size), if Grows(bs, brk, size, growth) then brk + growth else brk, s[k].addr + HEADER)
    else Allocation(bs, brk, 0)
  }

  lemma PageAligned(x: nat)
    requires x % PAGE_SIZE == 0
    ensures x % MIN_ALIGN == 0
  {
    var q := x / PAGE_SIZE;
    assert x == 16 * (256 * q);
  }

  lemma SourceHeap(bs: seq<Block>, brk: nat, size: nat, growth: nat)
    requires Heap(bs, HEAP_START, brk) && IsBreak(brk) && Request(size, growth)
    ensures var r, s := Malloc(bs, brk, size, growth), Source(bs, brk, size, growth);
            && IsBreak(r.brk) && brk <= r.brk && Heap(s, HEAP_START, r.brk)
            && (forall c :: Live(s, c) <==> Live(bs, c))
            && (Grows(bs, brk, size, growth) ==> FirstFit(s, size) == |s| - 1 && r.brk == brk + growth)
  {
    hide Tiles, Coalesce, Grow, Take;
    if Grows(bs, brk, size, growth) {
      PageAligned(brk);
      PageAligned(growth);
      GrowHeap(bs, HEAP_START, brk, growth);
      GrowFits(bs, brk, growth, size);
    }
  }

  /** NULL comes back exactly when no free block fits and the page-rounded growth passes the limit. */
  lemma MallocNull(bs: seq<Block>, brk: nat, size: nat, growth: nat)
    requires Heap(bs, HEAP_START, brk) && IsBreak(brk) && Request(size, growth)
    ensures Malloc(bs, brk, size, growth).ptr == 0 <==>
            (forall i :: 0 <= i < |bs| ==> !Fits(bs[i], size)) && brk + growth > HEAP_MAX_BREAK
    ensures Malloc(bs, brk, size, growth).ptr == 0 ==> Malloc(bs, brk, size, growth) == Allocation(bs, brk, 0)
  {
    SourceHeap(bs, brk, size, growth);
    var k := FirstFit(bs, size);
    assert k < |bs| ==> Fits(bs[k], size);
  }

  /** kmalloc keeps the heap well formed and adds one allocated block, aligned, large enough, and apart from all others. */
  lemma MallocHeap(bs: seq<Block>, brk: nat, size: nat, growth: nat)
    requires Heap(bs, HEAP_START, brk) && IsBreak(brk) && Request(size, growth)
    ensures var r := Malloc(bs, brk, size, growth);
            && Heap(r.blocks, HEAP_START, r.brk) && IsBreak(r.brk)
            && (r.ptr == 0 ==> r.blocks == bs)
            && (r.ptr != 0 ==>
                  exists b :: && Live(r.blocks, b) && b.addr + HEADER == r.ptr && r.ptr % MIN_ALIGN == 0 && size <= b.size
                              && !Live(bs, b) && forall c :: Live(r.blocks, c) <==> Live(bs, c) || c == b)
  {
    hide Tiles, Coalesce, Grow, Take, Separate;
    SourceHeap(bs, brk, size, growth);
    var r, s := Malloc(bs, brk, size, growth), Source(bs, brk, size, growth);
    var k := FirstFit(s, size);
    if k < |s| {
      var b := Taken(s, k, size);
      TakeHeap(s, k, size, HEAP_START, r.brk);
      TakeLive(s, k, size, b);
      assert b.addr % MIN_ALIGN == 0;
      forall c ensures Live(r.blocks, c) <==> Live(bs, c) || c == b {
        TakeLive(s, k, size, c);
      }
      NotLive(s, k, HEAP_START, r.brk, b);
    }
  }

  /** The block handed out is the lowest in the present heap that fits, if any does. */
  lemma MallocLowest(bs: seq<Block>, brk: nat, size: nat, growth: nat, i: nat)
    requires Heap(bs, HEAP_START, brk) && IsBreak(brk) && Request(size, growth)
    requires i < |bs| && Fits(bs[i], size)
    ensures var r := Malloc(bs, brk, size, growth);
            && r.brk == brk && r.ptr <= bs[i].addr + HEADER
            && exists k :: 0 <= k < |bs| && Fits(bs[k], size) && r.ptr == bs[k].addr + HEADER
  {
    var k := FirstFit(bs, size);
    if k < i { TilesOrdered(bs, k, i, HEAP_START, brk); }
  }

  /** A free block's address is the address of no allocated block. */
  lemma NotLive(bs: seq<Block>, k: nat, lo: nat, hi: nat, b: Block)
    requires Tiles(bs, lo, hi) && k < |bs| && bs[k].free && b.addr == bs[k].addr
    ensures !Live(bs, b)
  {
    if Live(bs, b) {
      var i :| 0 <= i < |bs| && bs[i] == b;
      if i < k { TilesOrdered(bs, i, k, lo, hi); } else if k < i { TilesOrdered(bs, k, i, lo, hi); }
    }
  }

  /** The index of the block with the given address. */
  function IndexOf(bs: seq<Block>, a: nat): (k: nat)
    requires exists i :: 0 <= i < |bs| && bs[i].addr == a
    ensures k < |bs| && bs[k].addr == a
    ensures forall i :: 0 <= i < k ==> bs[i].addr != a
  {
    if bs[0].addr == a then 0 else
      assert exists i :: 0 <= i < |bs[1..]| && bs[1..][i].addr == a by {
        var i :| 0 <= i < |bs| && bs[i].addr == a;
        assert bs[1..][i - 1].addr == a;
      }
      IndexOf(bs[1..], a) + 1
  }

  /** kfree of what kmalloc just returned restores the heap it was taken from: the very same free list
      if the heap did not grow, split or not, and otherwise the old heap with the new region merged in. */
  lemma MallocFree(bs: seq<Block>, brk: nat, size: nat, growth: nat)
    requires Heap(bs, HEAP_START, brk) && IsBreak(brk) && Request(size, growth)
    requires Malloc(bs, brk, size, growth).ptr != 0
    ensures var r := Malloc(bs, brk, size, growth);
            && (exists i :: 0 <= i < |r.blocks| && r.blocks[i].addr == r.ptr - HEADER)
            && Free(r.blocks, IndexOf(r.blocks, r.ptr - HEADER)) ==
               if r.brk == brk then bs else Grow(bs, brk, growth)
  {
    hide Tiles, Coalesce, Grow, Take, Free, Separate, Aligned, Live, IndexOf, FirstFit;
    SourceHeap(bs, brk, size, growth);
    var r, s := Malloc(bs, brk, size, growth), Source(bs, brk, size, growth);
    var k := FirstFit(s, size);
    TakeHeap(s, k, size, HEAP_START, r.brk);
    RoundTrip(s, k, size, HEAP_START, r.brk);
    assert r.blocks[k].addr == r.ptr - HEADER;
    var i := IndexOf(r.blocks, r.ptr - HEADER);
    if i < k { TilesOrdered(r.blocks, i, k, HEAP_START, r.brk); }
  }

  // ---------- Every request ----------

  /** What kmalloc gives; or it is lost: the growth wrapped, so that an assertion stops it or it writes behind the break. */
  datatype Service = Given(blocks: seq<Block>, brk: nat, ptr: nat) | Lost

  /** kmalloc for every positive size, in 64 bits: the first block that fits, or growth and another try. */
  function Serve(bs: seq<Block>, brk: nat, n: nat): Service
    requires IsBreak(brk)
    decreases HEAP_MAX_BREAK - brk
  {
    var k, next := FirstFit(bs, AlignedSize(n)), NewBreak(brk, n);
    if k < |bs| then Given(Take(bs, k, AlignedSize(n)), brk, bs[k].addr + HEADER)
    else if next > HEAP_MAX_BREAK then Given(bs, brk, 0)
    else if next <= brk then Lost
    else
      SizesAligned(brk, n);
      Serve(Grow(bs, brk, next - brk), next, n)
  }

  /** How many times kmalloc takes the heap lock for it. */
  function Rounds(bs: seq<Block>, brk: nat, n: nat): nat
    requires IsBreak(brk)
    decreases HEAP_MAX_BREAK - brk
  {
    var next := NewBreak(brk, n);
    if FirstFit(bs, AlignedSize(n)) < |bs| || next > HEAP_MAX_BREAK || next <= brk then 1
    else
      SizesAligned(brk, n);
      1 + Rounds(Grow(bs, brk, next - brk), next, n)
  }

  /** As long as the break does not wrap, kmalloc grows at most once, and is the allocation described above. */
  lemma ServeIsMalloc(bs: seq<Block>, brk: nat, n: nat)
    requires Heap(bs, HEAP_START, brk) && IsBreak(brk) && brk + TrueGrowth(n) < WORD
    ensures Request(AlignedSize(n), Growth(n)) && Rounds(bs, brk, n) <= 2
    ensures var r := Malloc(bs, brk, AlignedSize(n), Growth(n)); Serve(bs, brk, n) == Given(r.blocks, r.brk, r.ptr)
  {
    RequestSizes(brk, n);
    SizesAligned(brk, n);
    hide AlignedSize, Growth, TrueGrowth, NewBreak, Tiles, Separate, Aligned, Grow, Take, FirstFit, Coalesce;
    var size, growth := AlignedSize(n), Growth(n);
    if Grows(bs, brk, size, growth) {
      GrowFits(bs, brk, growth, size);
      ServeFits(Grow(bs, brk, growth), brk + growth, n);
    } else if FirstFit(bs, size) < |bs| {
      ServeFits(bs, brk, n);
      hide Serve, Rounds;
    }
  }

  lemma ServeFits(bs: seq<Block>, brk: nat, n: nat)
    requires IsBreak(brk) && FirstFit(bs, AlignedSize(n)) < |bs|
    ensures var k := FirstFit(bs, AlignedSize(n));
            Serve(bs, brk, n) == Given(Take(bs, k, AlignedSize(n)), brk, bs[k].addr + HEADER) && Rounds(bs, brk, n) == 1
  {
    hide FirstFit, Take, AlignedSize, NewBreak;
  }

  /** Whatever the request, a heap that is not lost stays well formed, and keeps every allocated block. */
  lemma {:induction false} ServeHeap(bs: seq<Block>, brk: nat, n: nat)
    requires Heap(bs, HEAP_START, brk) && IsBreak(brk) && Serve(bs, brk, n).Given?
    ensures var r := Serve(bs, brk, n);
            && IsBreak(r.brk) && brk <= r.brk && Heap(r.blocks, HEAP_START, r.brk)
            && forall c :: Live(bs, c) ==> Live(r.blocks, c)
    ensures var r := Serve(bs, brk, n);
            r.ptr != 0 ==> exists b :: Live(r.blocks, b) && !Live(bs, b) && b.addr + HEADER == r.ptr
    decreases HEAP_MAX_BREAK - brk
  {
    hide AlignedSize, NewBreak, Heap, Live, Grow, Take, FirstFit;
    SizesAligned(brk, n);
    var next := NewBreak(brk, n);
    if FirstFit(bs, AlignedSize(n)) < |bs| {
      ServeFits(bs, brk, n);
      hide Serve;
      ServeTakes(bs, brk, FirstFit(bs, AlignedSize(n)), AlignedSize(n));
    } else if next > HEAP_MAX_BREAK {
      assert Serve(bs, brk, n) == Given(bs, brk, 0);
    } else {
      var gs := Grow(bs, brk, next - brk);
      assert Serve(bs, brk, n) == Serve(gs, next, n);
      hide Serve;
      NextHeap(bs, brk, next);
      ServeHeap(gs, next, n);
    }
  }

  lemma NextHeap(bs: seq<Block>, brk: nat, next: nat)
    requires Heap(bs, HEAP_START, brk) && IsBreak(brk) && brk + HEADER <= next && next % PAGE_SIZE == 0
    ensures Heap(Grow(bs, brk, next - brk), HEAP_START, next)
    ensures forall c :: Live(Grow(bs, brk, next - brk), c) <==> Live(bs, c)
  {
    PageAligned(brk);
    PageAligned(next);
    GrowHeap(bs, HEAP_START, brk, next - brk);
  }

  lemma ServeTakes(bs: seq<Block>, brk: nat, k: nat, size: nat)
    requires Heap(bs, HEAP_START, brk) && k < |bs| && Fits(bs[k], size) && size % MIN_ALIGN == 0
    ensures Heap(Take(bs, k, size), HEAP_START, brk)
    ensures forall c :: Live(bs, c) ==> Live(Take(bs, k, size), c)
    ensures exists b :: Live(Take(bs, k, size), b) && !Live(bs, b) && b.addr == bs[k].addr
  {
    TakeHeap(bs, k, size, HEAP_START, brk);
    forall c ensures Live(Take(bs, k, size), c) <==> Live(bs, c) || c == Taken(bs, k, size) {
      TakeLive(bs, k, size, c);
    }
    NotLive(bs, k, HEAP_START, brk, Taken(bs, k, size));
  }

  /** A block as large as asked for, or NULL. */
  ghost predicate Honest(s: Service, n: nat) {
    s.Given? && (s.ptr == 0 || exists b :: Live(s.blocks, b) && b.addr + HEADER == s.ptr && n <= b.size)
  }

  /** No block is as large as a request near 2^64. */
  lemma NoneHuge(bs: seq<Block>, brk: nat, n: nat)
    requires Heap(bs, HEAP_START, brk) && IsBreak(brk) && n > HEAP_MAX_BREAK - HEAP_START
    ensures FirstFit(bs, n) == |bs|
    ensures forall b :: Live(bs, b) ==> b.size < n
  {
    forall b | b in bs ensures b.size < n {
      LiveBounds(bs, HEAP_START, brk, b);
    }
    hide Tiles;
    assert forall i :: 0 <= i < |bs| ==> bs[i] in bs && !Fits(bs[i], n);
  }

  /** A request just short of wrapping to 0 grows the heap page by page to its limit and gets NULL. */
  lemma {:induction false} ServeInVain(bs: seq<Block>, brk: nat, n: nat)
    requires Heap(bs, HEAP_START, brk) && IsBreak(brk) && WORD - 32 < n <= WORD - 16
    ensures Serve(bs, brk, n).Given? && Serve(bs, brk, n).ptr == 0
    decreases HEAP_MAX_BREAK - brk
  {
    AlignedEnough(n);
    GrowthLarge(n);
    NoneHuge(bs, brk, AlignedSize(n));
    hide Heap, AlignedSize, Growth, FirstFit, Grow;
    if brk < HEAP_MAX_BREAK {
      assert NewBreak(brk, n) == brk + PAGE_SIZE;
      OnePage(bs, brk);
      ServeInVain(Grow(bs, brk, PAGE_SIZE), brk + PAGE_SIZE, n);
    }
  }

  lemma OnePage(bs: seq<Block>, brk: nat)
    requires Heap(bs, HEAP_START, brk) && IsBreak(brk) && brk < HEAP_MAX_BREAK
    ensures IsBreak(brk + PAGE_SIZE) && Heap(Grow(bs, brk, PAGE_SIZE), HEAP_START, brk + PAGE_SIZE)
    ensures FirstFit(Grow(bs, brk, PAGE_SIZE), 0) < |Grow(bs, brk, PAGE_SIZE)|
  {
    PageAligned(brk);
    GrowHeap(bs, HEAP_START, brk, PAGE_SIZE);
    GrowShape(bs, brk, PAGE_SIZE);
    hide Tiles, Heap, Coalesce;
    var gs := Grow(bs, brk, PAGE_SIZE);
    assert Fits(gs[|gs| - 1], 0);
    hide Grow;
  }

  /** A request whose size wraps to 0 is given any free block, or a new page, and is honest only if there is none left. */
  lemma ServeWrapped(bs: seq<Block>, brk: nat, n: nat)
    requires Heap(bs, HEAP_START, brk) && IsBreak(brk) && WORD - 16 < n < WORD
    ensures Honest(Serve(bs, brk, n), n) <==> FirstFit(bs, 0) == |bs| && brk == HEAP_MAX_BREAK
  {
    AlignedEnough(n);
    GrowthLarge(n);
    hide AlignedSize, Growth, Grow, FirstFit, Take;
    var k := FirstFit(bs, 0);
    if k < |bs| {
      GivenSmall(bs, brk, n);
    } else if brk < HEAP_MAX_BREAK {
      assert NewBreak(brk, n) == brk + PAGE_SIZE;
      OnePage(bs, brk);
      var gs := Grow(bs, brk, PAGE_SIZE);
      assert Serve(bs, brk, n) == Serve(gs, brk + PAGE_SIZE, n);
      GivenSmall(gs, brk + PAGE_SIZE, n);
    }
  }

  lemma GivenSmall(bs: seq<Block>, brk: nat, n: nat)
    requires Heap(bs, HEAP_START, brk) && IsBreak(brk) && WORD - 16 < n < WORD && FirstFit(bs, 0) < |bs|
    ensures !Honest(Serve(bs, brk, n), n)
  {
    AlignedEnough(n);
    var k := FirstFit(bs, 0);
    TakeHeap(bs, k, 0, HEAP_START, brk);
    NoneHuge(Take(bs, k, 0), brk, n);
    TilesSplit(bs, k, HEAP_START, brk);
    hide AlignedSize, Take, FirstFit, Live;
  }

  lemma TrueGrowthBound(n: nat)
    ensures n <= TrueGrowth(n) < n + 0x2000
  {}

  /** A request whose break passes 2^64 without wrapping to a page is lost. */
  lemma ServeLost(bs: seq<Block>, brk: nat, n: nat)
    requires Heap(bs, HEAP_START, brk) && IsBreak(brk) && n <= WORD - 32 && brk + TrueGrowth(n) >= WORD
    ensures Serve(bs, brk, n) == Lost
  {
    WrappedBreak(brk, n);
    if n <= WORD - 0x2000 {
      GrowthSmall(n);
    } else {
      GrowthLarge(n);
    }
    AlignedEnough(n);
    TrueGrowthBound(n);
    var g := Growth(n);
    assert g == 0 || (g == TrueGrowth(n) && g < WORD);
    hide AlignedSize, TrueGrowth, FirstFit, Growth, RoundUp, AlignUp, TotalSize;
    NoneHuge(bs, brk, AlignedSize(n));
  }

  /** kmalloc gives NULL or a block as large as asked for if and only if the break the request needs does not pass 2^64,
      or the size just misses wrapping to 0, or it wraps and there is neither a free block nor room to grow. */
  lemma ServeExact(bs: seq<Block>, brk: nat, n: nat)
    requires Heap(bs, HEAP_START, brk) && IsBreak(brk) && 0 < n < WORD
    ensures Honest(Serve(bs, brk, n), n) <==>
            || brk + TrueGrowth(n) < WORD
            || WORD - 32 < n <= WORD - 16
            || (n > WORD - 16 && (forall i :: 0 <= i < |bs| ==> !bs[i].free) && brk == HEAP_MAX_BREAK)
  {
    assert n <= TrueGrowth(n);
    hide TrueGrowth, Serve, Heap;
    if brk + TrueGrowth(n) < WORD {
      ServeIsMalloc(bs, brk, n);
      RequestSizes(brk, n);
      MallocHeap(bs, brk, AlignedSize(n), Growth(n));
      hide Malloc, AlignedSize, Growth;
    } else if n > WORD - 16 {
      ServeWrapped(bs, brk, n);
      var k := FirstFit(bs, 0);
      assert forall i :: 0 <= i < |bs| ==> (Fits(bs[i], 0) <==> bs[i].free);
    } else if n > WORD - 32 {
      ServeInVain(bs, brk, n);
    } else {
      ServeLost(bs, brk, n);
    }
  }

  /** On a heap of one free page, a request for 2^64 - 1 bytes is given a block of no bytes. */
  lemma ServeCheats()
    ensures var bs := [Block(HEAP_START, PAGE_SIZE - HEADER, true)];
            && Heap(bs, HEAP_START, HEAP_START + PAGE_SIZE)
            && Serve(bs, HEAP_START + PAGE_SIZE, WORD - 1).Given?
            && Serve(bs, HEAP_START + PAGE_SIZE, WORD - 1).ptr == HEAP_START + HEADER
            && Serve(bs, HEAP_START + PAGE_SIZE, WORD - 1).blocks[0] == Block(HEAP_START, 0, false)
  {
    var bs := [Block(HEAP_START, PAGE_SIZE - HEADER, true)];
    assert bs[1..] == [] && Tiles([], HEAP_START + PAGE_SIZE, HEAP_START + PAGE_SIZE);
    assert Tiles(bs, HEAP_START, HEAP_START + PAGE_SIZE) && Aligned(bs) && Separate(bs);
    AlignedEnough(WORD - 1);
    assert FirstFit(bs, 0) == 0;
    hide AlignedSize, NewBreak;
    assert Take(bs, 0, 0)[0] == Block(HEAP_START, 0, false);
  }
}
