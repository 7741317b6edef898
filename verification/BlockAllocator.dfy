/**
 The block allocator of kernel/arch/x86_64/mm/pmm.c: a bitmap over blocks of 4 KiB with a
 hint from which allocation searches upwards for a run of free blocks.
 */
module BlockAllocator {
  import opened Bits

  const BLOCK_SIZE := 4096
  const WORD := 0x1_0000_0000_0000_0000

  /** All blocks from a to a + count are free. */
  ghost predicate FreeRun(bitmap: seq<Word>, a: nat, count: nat)
    requires a + count <= 64 * |bitmap|
  {
    forall b :: a <= b < a + count ==> !Test(bitmap, b)
  }

  /** The lowest run of count free blocks at or above `from` starts at a. */
  ghost predicate Leftmost(bitmap: seq<Word>, total: nat, from: nat, count: nat, a: nat)
    requires total <= 64 * |bitmap|
  {
    && from <= a && a + count <= total && FreeRun(bitmap, a, count)
    && forall b :: from <= b < a ==> !FreeRun(bitmap, b, count)
  }

  ghost predicate NoRun(bitmap: seq<Word>, total: nat, from: nat, count: nat)
    requires total <= 64 * |bitmap|
  {
    forall b :: from <= b && b + count <= total ==> !FreeRun(bitmap, b, count)
  }

  /** bitmap' is bitmap with the blocks from a to a + count set to `used`. */
  ghost predicate RangeSet(bitmap: seq<Word>, bitmap': seq<Word>, a: nat, count: nat, used: bool)
    requires |bitmap'| == |bitmap|
  {
    forall b :: 0 <= b < 64 * |bitmap| ==> Test(bitmap', b) == if a <= b < a + count then used else Test(bitmap, b)
  }

  /** How many blocks from a up to z are taken. */
  function TakenIn(bitmap: seq<Word>, a: nat, z: nat): nat
    requires a <= z <= 64 * |bitmap|
    decreases z - a
  {
    if a == z then 0 else TakenIn(bitmap, a, z - 1) + if Test(bitmap, z - 1) then 1 else 0
  }

  lemma {:induction false} TakenSplit(bitmap: seq<Word>, a: nat, m: nat, z: nat)
    requires a <= m <= z <= 64 * |bitmap|
    ensures TakenIn(bitmap, a, z) == TakenIn(bitmap, a, m) + TakenIn(bitmap, m, z)
    decreases z - m
  {
    if m < z {
      TakenSplit(bitmap, a, m, z - 1);
    }
  }

  lemma {:induction false} TakenSame(bitmap: seq<Word>, bitmap': seq<Word>, a: nat, z: nat)
    requires |bitmap| == |bitmap'| && a <= z <= 64 * |bitmap|
    requires forall b :: a <= b < z ==> Test(bitmap, b) == Test(bitmap', b)
    ensures TakenIn(bitmap, a, z) == TakenIn(bitmap', a, z)
    decreases z - a
  {
    if a < z {
      TakenSame(bitmap, bitmap', a, z - 1);
    }
  }

  lemma {:induction false} TakenAll(bitmap: seq<Word>, a: nat, z: nat, used: bool)
    requires a <= z <= 64 * |bitmap| && forall b :: a <= b < z ==> Test(bitmap, b) == used
    ensures TakenIn(bitmap, a, z) == if used then z - a else 0
    decreases z - a
  {
    if a < z {
      TakenAll(bitmap, a, z - 1, used);
    }
  }

  lemma {:induction false} TakenBound(bitmap: seq<Word>, a: nat, z: nat)
    requires a <= z <= 64 * |bitmap|
    ensures TakenIn(bitmap, a, z) <= z - a
    ensures TakenIn(bitmap, a, z) == z - a <==> forall b :: a <= b < z ==> Test(bitmap, b)
    ensures TakenIn(bitmap, a, z) == 0 <==> forall b :: a <= b < z ==> !Test(bitmap, b)
    decreases z - a
  {
    if a < z {
      TakenBound(bitmap, a, z - 1);
    }
  }

  function Min(a: nat, b: nat): nat {
    if a < b then a else b
  }

  /** Setting a range changes the number of taken blocks by the blocks in it that were in the other state. */
  lemma RangeCount(bitmap: seq<Word>, bitmap': seq<Word>, total: nat, a: nat, count: nat, used: bool)
    requires |bitmap| == |bitmap'| && total <= 64 * |bitmap| && a + count <= 64 * |bitmap|
    requires RangeSet(bitmap, bitmap', a, count, used)
    ensures var lo, hi := Min(a, total), Min(a + count, total);
            TakenIn(bitmap', 0, total) == TakenIn(bitmap, 0, total) - TakenIn(bitmap, lo, hi) + if used then hi - lo else 0
  {
    hide TakenIn;
    var lo, hi := Min(a, total), Min(a + count, total);
    TakenSplit(bitmap, 0, lo, total);
    TakenSplit(bitmap, lo, hi, total);
    TakenSplit(bitmap', 0, lo, total);
    TakenSplit(bitmap', lo, hi, total);
    TakenSame(bitmap, bitmap', 0, lo);
    TakenSame(bitmap, bitmap', hi, total);
    TakenAll(bitmap', lo, hi, used);
  }

  datatype State = State(initialized: bool, bitmap: seq<Word>, total: nat, usedBlocks: int, hint: nat)

  /** The bitmap covers all blocks, with no word to spare. */
  predicate Covered(s: State) {
    s.total <= 64 * |s.bitmap| < s.total + 64 && s.total < WORD / BLOCK_SIZE
  }

  /** The counter is the number of blocks taken. */
  ghost predicate Counted(s: State) {
    Covered(s) && s.usedBlocks == TakenIn(s.bitmap, 0, s.total)
  }

  /** What allocating count blocks does: the lowest run at or above the hint is taken. Address 0, which is also the
      address of block 0, means there is none. */
  ghost predicate Allocated(s: State, count: nat, addr: nat, s': State)
    requires Covered(s)
  {
    if !s.initialized || count == 0 || NoRun(s.bitmap, s.total, s.hint, count) then
      addr == 0 && s' == s
    else
      var a := addr / BLOCK_SIZE;
      && addr % BLOCK_SIZE == 0 && Leftmost(s.bitmap, s.total, s.hint, count, a)
      && |s'.bitmap| == |s.bitmap| && RangeSet(s.bitmap, s'.bitmap, a, count, true)
      && s' == s.(bitmap := s'.bitmap, usedBlocks := s.usedBlocks + count, hint := a + count)
  }

  /** Whether a call that frees count blocks at addr passes the checks; the end of the range is computed in 64 bits. */
  predicate Frees(s: State, addr: nat, count: nat) {
    addr != 0 && s.initialized && count != 0 && (addr / BLOCK_SIZE + count) % WORD <= s.total
  }

  /** The block that write i of a range goes to, in 64 bits. */
  function Target(start: nat, i: nat): nat {
    (start + i) % WORD
  }

  /** Writing a range of count blocks from start on stays in the bitmap. */
  ghost predicate Stays(s: State, start: nat, count: nat) {
    forall i: nat :: i < count ==> Target(start, i) < 64 * |s.bitmap|
  }

  lemma StaysIff(s: State, start: nat, count: nat)
    requires Covered(s) && start < WORD
    ensures Stays(s, start, count) <==> count == 0 || start + count <= 64 * |s.bitmap|
  {
    if count > 0 && start + count > 64 * |s.bitmap| {
      var i := if start + count < WORD then count - 1 else WORD - 1 - start;
      assert Target(start, i) >= 64 * |s.bitmap|;
    }
  }

  ghost predicate FreeStays(s: State, addr: nat, count: nat) {
    Frees(s, addr, count) ==> Stays(s, addr / BLOCK_SIZE, count)
  }

  /** Freeing writes only to the bitmap exactly when the range check refuses or the end of the range does not wrap. */
  lemma FreeStaysIff(s: State, addr: nat, count: nat)
    requires Covered(s) && addr < WORD && count < WORD
    ensures FreeStays(s, addr, count) <==> (Frees(s, addr, count) ==> addr / BLOCK_SIZE + count < WORD)
  {
    StaysIff(s, addr / BLOCK_SIZE, count);
  }

  /** A count of 2^64 - 1 at block 1 passes the checks of every initialised allocator, and its writes leave the bitmap. */
  lemma FreeEscapes(s: State)
    requires Covered(s) && s.initialized
    ensures Frees(s, BLOCK_SIZE, WORD - 1) && !FreeStays(s, BLOCK_SIZE, WORD - 1)
  {
    FreeStaysIff(s, BLOCK_SIZE, WORD - 1);
  }

  /** What freeing does: address 0 and blocks out of range are ignored; the hint moves down to the freed blocks. */
  ghost predicate Freed(s: State, addr: nat, count: nat, s': State)
    requires Covered(s)
  {
    if !Frees(s, addr, count) then s' == s else
      var a := addr / BLOCK_SIZE;
      && a + count < WORD && |s'.bitmap| == |s.bitmap| && RangeSet(s.bitmap, s'.bitmap, a, count, false)
      && s' == s.(bitmap := s'.bitmap, usedBlocks := s.usedBlocks - count, hint := if a < s.hint then a else s.hint)
  }

  ghost predicate Held(s: State, a: nat, count: nat)
    requires Covered(s)
  {
    a + count <= s.total && forall b :: a <= b < a + count ==> Test(s.bitmap, b)
  }

  /** The next block boundary, in 64 bits. */
  function RoundUp(x: nat): nat {
    (x + BLOCK_SIZE - 1) % WORD / BLOCK_SIZE * BLOCK_SIZE
  }

  function RegionStart(base: nat): nat {
    RoundUp(base) / BLOCK_SIZE
  }

  /** The bytes before the first block boundary of a region. */
  function Gap(base: nat): nat {
    (RoundUp(base) - base) % WORD
  }

  /** The number of blocks marked: the bytes after the first boundary, in 64 bits. */
  function RegionBlocks(base: nat, size: nat): nat {
    (size - Gap(base)) % WORD / BLOCK_SIZE
  }

  /** The blocks of a region that reaches a boundary and does not wrap are those that lie wholly inside it. */
  lemma RegionIs(base: nat, size: nat, b: nat)
    requires base + size <= WORD - BLOCK_SIZE && Gap(base) <= size
    ensures RegionStart(base) <= b < RegionStart(base) + RegionBlocks(base, size) <==>
            base <= b * BLOCK_SIZE && (b + 1) * BLOCK_SIZE <= base + size
  {
  }

  ghost predicate MarkStays(s: State, base: nat, size: nat) {
    Stays(s, RegionStart(base), RegionBlocks(base, size))
  }

  /** The region reaches a block boundary, and what lies behind that is covered by the bitmap. */
  predicate InRange(s: State, base: nat, size: nat) {
    Gap(base) <= size && (size - Gap(base) < BLOCK_SIZE || RegionStart(base) + (size - Gap(base)) / BLOCK_SIZE <= 64 * |s.bitmap|)
  }

  lemma Wrapped(base: nat, size: nat)
    requires base < WORD && size < WORD
    ensures Gap(base) < BLOCK_SIZE && RegionStart(base) < WORD
    ensures RegionBlocks(base, size) == if Gap(base) <= size then (size - Gap(base)) / BLOCK_SIZE else WORD / BLOCK_SIZE - 1
  {}

  /** Marking writes only to the bitmap exactly when the region is in range; a region that reaches no boundary wraps to
      2^52 - 1 blocks, which no bitmap covers unless memory ends at 2^64. */
  lemma MarkStaysIff(s: State, base: nat, size: nat)
    requires Covered(s) && base < WORD && size < WORD
    ensures MarkStays(s, base, size) <==>
            InRange(s, base, size) || (size < Gap(base) && RegionStart(base) + WORD / BLOCK_SIZE - 1 <= 64 * |s.bitmap|)
  {
    Wrapped(base, size);
    StaysIff(s, RegionStart(base), RegionBlocks(base, size));
    hide RoundUp, RegionStart, Gap, RegionBlocks, Stays;
  }

  /** A region of 1 KiB inside a block is marked as 2^52 - 1 blocks. */
  lemma MarkEscapes(s: State)
    requires Covered(s)
    ensures RegionBlocks(0x1FFE_0800, 0x400) == WORD / BLOCK_SIZE - 1 && !MarkStays(s, 0x1FFE_0800, 0x400)
  {
    Wrapped(0x1FFE_0800, 0x400);
    assert Gap(0x1FFE_0800) == 0x800 && RegionStart(0x1FFE_0800) == 0x1_FFE1;
    MarkStaysIff(s, 0x1FFE_0800, 0x400);
    hide Gap, RegionStart, RegionBlocks, MarkStays;
  }

  /** What marking a region does: the counter moves by the number of its blocks, whatever state they were in, and the
      hint does not move. */
  ghost predicate Marked(s: State, base: nat, size: nat, used: bool, s': State)
    requires Covered(s)
  {
    var n := RegionBlocks(base, size);
    && |s'.bitmap| == |s.bitmap| && RangeSet(s.bitmap, s'.bitmap, RegionStart(base), n, used)
    && s' == s.(bitmap := s'.bitmap, usedBlocks := if used then s.usedBlocks + n else s.usedBlocks - n)
  }

  /** All blocks of the region are blocks of memory in the other state. */
  ghost predicate Flips(s: State, base: nat, size: nat, used: bool)
    requires Covered(s)
  {
    var a, n := RegionStart(base), RegionBlocks(base, size);
    n > 0 ==> a + n <= s.total && forall b :: a <= b < a + n ==> Test(s.bitmap, b) == !used
  }

  /** Allocation keeps the counter exact. */
  lemma AllocCounted(s: State, count: nat, addr: nat, s': State)
    requires Counted(s) && Allocated(s, count, addr, s')
    ensures Counted(s')
  {
    hide TakenIn;
    if s' != s {
      var a := addr / BLOCK_SIZE;
      RangeCount(s.bitmap, s'.bitmap, s.total, a, count, true);
      TakenBound(s.bitmap, a, a + count);
    }
  }

  /** Freeing keeps the counter exact if and only if every block freed was taken. */
  lemma FreeCounted(s: State, addr: nat, count: nat, s': State)
    requires Counted(s) && Freed(s, addr, count, s')
    ensures Counted(s') <==> (Frees(s, addr, count) ==> Held(s, addr / BLOCK_SIZE, count))
  {
    hide TakenIn;
    if Frees(s, addr, count) {
      var a := addr / BLOCK_SIZE;
      assert a + count <= s.total;
      RangeCount(s.bitmap, s'.bitmap, s.total, a, count, false);
      TakenBound(s.bitmap, a, a + count);
    }
  }

  /** Marking a region keeps the counter exact if and only if every block of it was one of memory in the other state. */
  lemma MarkCounted(s: State, base: nat, size: nat, used: bool, s': State)
    requires Counted(s) && MarkStays(s, base, size) && Marked(s, base, size, used, s')
    ensures Counted(s') <==> Flips(s, base, size, used)
  {
    var a, n := RegionStart(base), RegionBlocks(base, size);
    StaysIff(s, a, n);
    hide TakenIn, RegionStart, RegionBlocks, Stays;
    if n > 0 {
      var lo, hi := Min(a, s.total), Min(a + n, s.total);
      RangeCount(s.bitmap, s'.bitmap, s.total, a, n, used);
      TakenBound(s.bitmap, lo, hi);
    } else {
      TakenSame(s.bitmap, s'.bitmap, 0, s.total);
    }
  }

  class Allocator {
    var initialized: bool
    var bitmap: array<Word>
    var total: nat
    var usedBlocks: int
    var hint: nat

    ghost function View(): State
      reads this, bitmap
    {
      State(initialized, bitmap[..], total, usedBlocks, hint)
    }

    constructor ()
      ensures !initialized && fresh(bitmap)
    {
      initialized, total, usedBlocks, hint := false, 0, 0, 0;
      bitmap := new Word[0];
    }

    /** Takes over the bitmap for memSize bytes of memory and marks every block taken; a second call does nothing. */
    method Init(memSize: nat, base: array<Word>)
      requires memSize < WORD && base.Length == (memSize / BLOCK_SIZE + 63) / 64
      modifies this, base
      ensures old(initialized) ==> unchanged(this) && unchanged(base)
      ensures !old(initialized) ==>
                && initialized && bitmap == base && total == memSize / BLOCK_SIZE && hint == 0 && Counted(View()) && usedBlocks == total
                && forall b :: 0 <= b < total ==> Test(bitmap[..], b)
    {
      if initialized {
        return;
      }
      total := memSize / BLOCK_SIZE;
      bitmap := base;
      hint := 0;
      for i := 0 to base.Length
        invariant bitmap == base && total == memSize / BLOCK_SIZE && hint == 0
        invariant forall j :: 0 <= j < i ==> base[j] == AllOnes()
      {
        bitmap[i] := AllOnes();
      }
      usedBlocks := total;
      TakenAll(bitmap[..], 0, total, true);
      initialized := true;
    }

    method SetBlocks(block: nat, count: nat, used: bool)
      requires block + count <= 64 * bitmap.Length
      modifies bitmap
      ensures RangeSet(old(bitmap[..]), bitmap[..], block, count, used)
    {
      ghost var bm := bitmap[..];
      for i := 0 to count
        invariant RangeSet(bm, bitmap[..], block, i, used)
      {
        var b := block + i;
        ghost var before := bitmap[..];
        bitmap[b / 64] := bitmap[b / 64][b % 64 := used];
        assert forall c :: 0 <= c < 64 * |bm| ==> Test(bitmap[..], c) == if c == b then used else Test(before, c);
      }
    }

    /** The scan upwards from the hint for count free blocks in a row; -1 if there are none. */
    method FindRun(count: nat) returns (first: int)
      requires Covered(View()) && count > 0
      ensures first == -1 || (first >= 0 && Leftmost(bitmap[..], total, hint, count, first))
      ensures first == -1 <==> NoRun(bitmap[..], total, hint, count)
    {
      hide FreeRun, Test;
      var consecutive := 0;
      var i := hint;
      ghost var bm := bitmap[..];
      ScanStart(bm, total, hint, count);
      while i < total
        invariant consecutive < count && hint <= i - consecutive && (i <= total || i == hint)
        invariant Scanned(bm, total, hint, count, i, consecutive)
        decreases total - i
      {
        BitOf(bitmap, i);
        if !bitmap[i / 64][i % 64] {
          ScanFree(bm, total, hint, count, i, consecutive);
          consecutive := consecutive + 1;
          if consecutive == count {
            return i - count + 1;
          }
        } else {
          ScanTaken(bm, total, hint, count, i, consecutive);
          consecutive := 0;
        }
        i := i + 1;
      }
      return -1;
    }

    method AllocBlocks(count: nat) returns (addr: nat)
      requires Covered(View())
      modifies this`usedBlocks, this`hint, bitmap
      ensures Allocated(old(View()), count, addr, View())
    {
      hide NoRun, Leftmost;
      if !initialized || count == 0 {
        return 0;
      }
      var first := FindRun(count);
      if first == -1 {
        return 0;
      }
      LeftmostIn(bitmap[..], total, hint, count, first);
      SetBlocks(first, count, true);
      usedBlocks := usedBlocks + count;
      hint := first + count;
      return first * BLOCK_SIZE;
    }

    /** False: some write leaves the bitmap, and nothing is said of the state then. */
    method FreeBlocks(addr: nat, count: nat) returns (inside: bool)
      requires Covered(View()) && addr < WORD && count < WORD
      modifies this`usedBlocks, this`hint, bitmap
      ensures inside <==> FreeStays(old(View()), addr, count)
      ensures inside ==> Freed(old(View()), addr, count, View())
    {
      FreeStaysIff(View(), addr, count);
      if addr == 0 || !initialized || count == 0 {
        return true;
      }
      var start := addr / BLOCK_SIZE;
      if (start + count) % WORD > total {
        return true;
      }
      if start + count >= WORD {
        return false;
      }
      SetBlocks(start, count, false);
      usedBlocks := usedBlocks - count;
      if start < hint {
        hint := start;
      }
      return true;
    }

    /** One attempt at an aligned run: the lowest run is taken, and given back if it is not aligned. */
    method TryAligned(alignment: nat) returns (addr: nat)
      requires Covered(View()) && 0 < alignment < WORD && alignment % BLOCK_SIZE == 0
      modifies this`usedBlocks, this`hint, bitmap
      ensures Covered(View()) && Attempt(old(View()), alignment, addr, View())
      ensures old(Counted(View())) ==> Counted(View())
    {
      hide TakenIn, Allocated, Freed, FreeStays, Attempt, Counted;
      ghost var s := View();
      addr := AllocBlocks(alignment / BLOCK_SIZE);
      ghost var s1 := View();
      AllocCovered(s, alignment / BLOCK_SIZE, addr, s1);
      if Counted(s) {
        AllocCounted(s, alignment / BLOCK_SIZE, addr, s1);
      }
      if addr % alignment != 0 {
        Misaligned(s, alignment, addr, s1);
        var inside := FreeBlocks(addr, alignment / BLOCK_SIZE);
        FreeCovered(s1, addr, alignment / BLOCK_SIZE, View());
        if Counted(s1) {
          FreeCounted(s1, addr, alignment / BLOCK_SIZE, View());
        }
      }
      AttemptEffect(s, alignment, addr, s1, View());
    }

    /** Tries three times for a run of alignment bytes that is aligned. The retries cannot help: giving back a run that is
        not aligned moves the hint to its start, and the next try finds it again. False is the failed assertion on an
        alignment that is not a multiple of the block size, or the division by zero. */
    method AllocBlockAligned(alignment: nat) returns (ok: bool, addr: nat)
      requires Covered(View()) && alignment < WORD
      modifies this`usedBlocks, this`hint, bitmap
      ensures Covered(View()) && (old(Counted(View())) ==> Counted(View()))
      ensures ok <==> alignment % BLOCK_SIZE == 0 && alignment != 0
      ensures ok && (!initialized || NoRun(old(bitmap[..]), total, old(hint), alignment / BLOCK_SIZE)) ==>
                addr == 0 && bitmap[..] == old(bitmap[..]) && hint == old(hint)
      ensures ok && initialized ==>
                forall a: nat :: Leftmost(old(bitmap[..]), total, old(hint), alignment / BLOCK_SIZE, a) ==>
                  && Aligned(old(bitmap[..]), bitmap[..], alignment, a, a * BLOCK_SIZE, hint)
                  && addr == if a * BLOCK_SIZE % alignment == 0 then a * BLOCK_SIZE else 0
    {
      if alignment % BLOCK_SIZE != 0 || alignment == 0 {
        return false, 0;
      }
      hide TakenIn, FreeRun, Test, RangeSet, SameBits, NoRun, Leftmost;
      ghost var bm := bitmap[..];
      ghost var from := hint;
      ghost var n := alignment / BLOCK_SIZE;
      LeftmostOnly(bm, total, from, n);
      SameSelf(bm);
      var attempts := 0;
      while attempts < 3
        invariant Covered(View()) && (old(Counted(View())) ==> Counted(View())) && SameBits(bm, bitmap[..])
        invariant attempts == 0 ==> bitmap[..] == bm && hint == from
        invariant attempts > 0 ==> initialized && Leftmost(bm, total, from, n, hint) && hint * BLOCK_SIZE % alignment != 0
      {
        attempts := attempts + 1;
        ghost var before, start := bitmap[..], hint;
        if attempts > 1 {
          LeftmostAgain(bm, before, total, from, n, start);
        }
        ghost var s := View();
        addr := TryAligned(alignment);
        assert Attempt(s, alignment, addr, View());
        assert attempts > 1 ==> addr == start * BLOCK_SIZE;
        if addr % alignment == 0 {
          return true, addr;
        }
        SameTrans(bm, before, bitmap[..]);
      }
      return true, 0;
    }

    /** False: some write leaves the bitmap, and nothing is said of the state then. */
    method MarkRegion(base: nat, size: nat, used: bool) returns (inside: bool)
      requires Covered(View())
      modifies this`usedBlocks, bitmap
      ensures inside <==> MarkStays(old(View()), base, size)
      ensures inside ==> Marked(old(View()), base, size, used, View())
    {
      var start, blocks := RegionStart(base), RegionBlocks(base, size);
      StaysIff(View(), start, blocks);
      hide RegionStart, RegionBlocks, Stays;
      if blocks > 0 && start + blocks > 64 * bitmap.Length {
        return false;
      }
      if blocks > 0 {
        SetBlocks(start, blocks, used);
      }
      usedBlocks := if used then usedBlocks + blocks else usedBlocks - blocks;
      return true;
    }
  }

  ghost predicate SameBits(bm: seq<Word>, bm': seq<Word>) {
    |bm| == |bm'| && forall b :: 0 <= b < 64 * |bm| ==> Test(bm', b) == Test(bm, b)
  }

  /** What an attempt at an aligned run does when the lowest run starts at block a. */
  ghost predicate Aligned(bm: seq<Word>, bm': seq<Word>, alignment: nat, a: nat, addr: nat, hint: nat)
    requires |bm| == |bm'| && alignment > 0
  {
    addr == a * BLOCK_SIZE &&
    if addr % alignment == 0
    then RangeSet(bm, bm', a, alignment / BLOCK_SIZE, true) && hint == a + alignment / BLOCK_SIZE
    else SameBits(bm, bm') && hint == a
  }

  ghost predicate Attempt(s: State, alignment: nat, addr: nat, s': State)
    requires Covered(s) && alignment > 0
  {
    var n := alignment / BLOCK_SIZE;
    && |s'.bitmap| == |s.bitmap| && s'.total == s.total && s'.initialized == s.initialized
    && (!s.initialized || NoRun(s.bitmap, s.total, s.hint, n) ==> addr == 0 && s' == s)
    && (s.initialized ==> forall a: nat :: Leftmost(s.bitmap, s.total, s.hint, n, a) ==> Aligned(s.bitmap, s'.bitmap, alignment, a, addr, s'.hint))
    && (addr % alignment != 0 ==>
          && s.initialized && SameBits(s.bitmap, s'.bitmap)
          && addr == s'.hint * BLOCK_SIZE && Leftmost(s.bitmap, s.total, s.hint, n, s'.hint))
  }

  lemma AllocCovered(s: State, count: nat, addr: nat, s': State)
    requires Covered(s) && Allocated(s, count, addr, s')
    ensures Covered(s')
  {}

  lemma FreeCovered(s: State, addr: nat, count: nat, s': State)
    requires Covered(s) && Freed(s, addr, count, s')
    ensures Covered(s')
  {}

  /** A run that is not aligned is a run of taken blocks that may be freed. */
  lemma Misaligned(s: State, alignment: nat, addr: nat, s': State)
    requires Covered(s) && Covered(s') && 0 < alignment && alignment % BLOCK_SIZE == 0
    requires Allocated(s, alignment / BLOCK_SIZE, addr, s') && addr % alignment != 0
    ensures var a, n := addr / BLOCK_SIZE, alignment / BLOCK_SIZE;
            && s.initialized && 0 < n && 0 < a && addr == a * BLOCK_SIZE && addr < WORD
            && Leftmost(s.bitmap, s.total, s.hint, n, a) && Held(s', a, n)
            && Frees(s', addr, n) && FreeStays(s', addr, n)
  {
    hide NoRun, FreeRun, FreeStays, Frees;
    CanFree(s', addr / BLOCK_SIZE, alignment / BLOCK_SIZE);
  }

  lemma AttemptEffect(s: State, alignment: nat, addr: nat, s1: State, s2: State)
    requires Covered(s) && Covered(s1) && 0 < alignment && alignment % BLOCK_SIZE == 0
    requires Allocated(s, alignment / BLOCK_SIZE, addr, s1)
    requires if addr % alignment == 0 then s2 == s1 else Freed(s1, addr, alignment / BLOCK_SIZE, s2)
    ensures Attempt(s, alignment, addr, s2)
  {
    var n := alignment / BLOCK_SIZE;
    LeftmostOnly(s.bitmap, s.total, s.hint, n);
    if addr % alignment != 0 {
      Misaligned(s, alignment, addr, s1);
      LeftmostFree(s.bitmap, s1.bitmap, s.total, s.hint, n, addr / BLOCK_SIZE);
      SetClear(s.bitmap, s1.bitmap, s2.bitmap, addr / BLOCK_SIZE, n);
    }
    hide NoRun, Leftmost, FreeRun, FreeStays, Frees, RangeSet, SameBits;
  }

  /** Six blocks of which 1, 2, 4 and 5 are free: an aligned run of two exists, but the lowest run is not aligned. */
  lemma AlignedMissed()
    ensures exists bm: seq<Word> ::
              && |bm| == 1 && Leftmost(bm, 6, 0, 2, 1) && 1 * BLOCK_SIZE % (2 * BLOCK_SIZE) != 0
              && FreeRun(bm, 4, 2) && 4 * BLOCK_SIZE % (2 * BLOCK_SIZE) == 0
  {
    var word: Word := seq(64, i => i != 1 && i != 2 && i != 4 && i != 5);
    var bm := [word];
    assert Test(bm, 0);
    assert !FreeRun(bm, 0, 2);
    assert FreeRun(bm, 1, 2) && FreeRun(bm, 4, 2);
    assert Leftmost(bm, 6, 0, 2, 1);
  }

  lemma LeftmostOnly(bm: seq<Word>, total: nat, from: nat, n: nat)
    requires total <= 64 * |bm|
    ensures forall a: nat, b: nat :: Leftmost(bm, total, from, n, a) && Leftmost(bm, total, from, n, b) ==> a == b
    ensures forall a: nat :: Leftmost(bm, total, from, n, a) ==> !NoRun(bm, total, from, n)
  {
    hide FreeRun;
  }

  lemma CanFree(s: State, a: nat, n: nat)
    requires Covered(s) && s.initialized && 0 < a && 0 < n && a + n <= s.total
    ensures Frees(s, a * BLOCK_SIZE, n) && FreeStays(s, a * BLOCK_SIZE, n)
  {
    StaysIff(s, a, n);
  }

  lemma LeftmostIn(bm: seq<Word>, total: nat, from: nat, n: nat, a: nat)
    requires total <= 64 * |bm| && Leftmost(bm, total, from, n, a)
    ensures a + n <= total
  {}

  lemma LeftmostFree(bm: seq<Word>, bm': seq<Word>, total: nat, from: nat, n: nat, a: nat)
    requires |bm| == |bm'| && total <= 64 * |bm| && Leftmost(bm, total, from, n, a) && RangeSet(bm, bm', a, n, true)
    ensures a + n <= total && FreeRun(bm, a, n) && forall b :: a <= b < a + n ==> Test(bm', b)
  {}

  lemma SetClear(bm: seq<Word>, bm': seq<Word>, bm'': seq<Word>, a: nat, n: nat)
    requires |bm| == |bm'| == |bm''| && a + n <= 64 * |bm| && FreeRun(bm, a, n)
    requires RangeSet(bm, bm', a, n, true) && RangeSet(bm', bm'', a, n, false)
    ensures SameBits(bm, bm'')
  {}

  lemma SameSelf(bm: seq<Word>)
    ensures SameBits(bm, bm)
  {}

  lemma SameTrans(bm: seq<Word>, bm': seq<Word>, bm'': seq<Word>)
    requires SameBits(bm, bm') && SameBits(bm', bm'')
    ensures SameBits(bm, bm'')
    ensures |bm| > 0 ==> Test(bm', 0) == Test(bm'', 0)
  {}

  /** Searching again from the start of the lowest run finds the same run. */
  lemma LeftmostAgain(bm: seq<Word>, bm': seq<Word>, total: nat, from: nat, n: nat, a: nat)
    requires SameBits(bm, bm') && total <= 64 * |bm| && Leftmost(bm, total, from, n, a)
    ensures Leftmost(bm', total, a, n, a) && forall b: nat :: Leftmost(bm', total, a, n, b) ==> b == a
  {
    assert forall b: nat :: b + n <= total ==> FreeRun(bm', b, n) == FreeRun(bm, b, n);
    hide FreeRun;
  }

  /** The scan has reached block i: the last c blocks are free, the one before them is not unless the scan began there,
      and no run of count free blocks ends at or before i. */
  ghost predicate Scanned(bm: seq<Word>, total: nat, from: nat, count: nat, i: nat, c: nat)
    requires total <= 64 * |bm|
  {
    i <= total ==>
      && from + c <= i && FreeRun(bm, i - c, c)
      && (i - c > from ==> Test(bm, i - c - 1))
      && (forall b :: from <= b && b + count <= i ==> !FreeRun(bm, b, count))
  }

  lemma ScanStart(bm: seq<Word>, total: nat, from: nat, count: nat)
    requires total <= 64 * |bm| && count > 0
    ensures Scanned(bm, total, from, count, from, 0)
  {}

  lemma NotFree(bm: seq<Word>, a: nat, count: nat, b: nat)
    requires a + count <= 64 * |bm| && a <= b < a + count && Test(bm, b)
    ensures !FreeRun(bm, a, count)
  {}

  lemma ScanFree(bm: seq<Word>, total: nat, from: nat, count: nat, i: nat, c: nat)
    requires total <= 64 * |bm| && i < total && c < count && from + c <= i && Scanned(bm, total, from, count, i, c) && !Test(bm, i)
    ensures c + 1 == count ==> Leftmost(bm, total, from, count, i - c)
    ensures c + 1 < count ==> Scanned(bm, total, from, count, i + 1, c + 1)
  {
    assert FreeRun(bm, i - c, c + 1);
    forall b | from <= b && b + count <= i + 1 && b < i - c ensures !FreeRun(bm, b, count) {
      if b + count > i {
        NotFree(bm, b, count, i - c - 1);
      }
    }
  }

  lemma ScanTaken(bm: seq<Word>, total: nat, from: nat, count: nat, i: nat, c: nat)
    requires total <= 64 * |bm| && i < total && c < count && from + c <= i && Scanned(bm, total, from, count, i, c) && Test(bm, i)
    ensures Scanned(bm, total, from, count, i + 1, 0)
  {
    forall b | from <= b && b + count <= i + 1 ensures !FreeRun(bm, b, count) {
      if b + count > i {
        NotFree(bm, b, count, i);
      }
    }
  }

  lemma BitOf(bitmap: array<Word>, b: nat)
    requires b < 64 * bitmap.Length
    ensures Test(bitmap[..], b) == bitmap[b / 64][b % 64]
  {}
}
