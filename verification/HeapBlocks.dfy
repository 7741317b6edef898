/**
 The kernel heap of kernel/memory.c as a value: the blocks, allocated and free, in address
 order. First fit, splitting, releasing and coalescing are functions on this sequence.
 */
module HeapBlocks {
  const HEADER := 32
  const MIN_ALIGN := 16

  /** A block: the address of its header, the size of the data area after it, and whether it is free. */
  datatype Block = Block(addr: nat, size: nat, free: bool)

  function End(b: Block): nat {
    b.addr + HEADER + b.size
  }

  /** The blocks cover the range from lo to hi, each starting where the one before it ends. */
  ghost predicate Tiles(bs: seq<Block>, lo: nat, hi: nat) {
    if bs == [] then lo == hi else bs[0].addr == lo && Tiles(bs[1..], End(bs[0]), hi)
  }

  ghost predicate Aligned(bs: seq<Block>) {
    forall i :: 0 <= i < |bs| ==> bs[i].addr % MIN_ALIGN == 0 && bs[i].size % MIN_ALIGN == 0
  }

  /** No two free blocks touch. */
  ghost predicate Separate(bs: seq<Block>) {
    forall i :: 0 <= i < |bs| - 1 ==> !(bs[i].free && bs[i + 1].free)
  }

  ghost predicate Heap(bs: seq<Block>, lo: nat, hi: nat) {
    Tiles(bs, lo, hi) && Aligned(bs) && Separate(bs)
  }

  /** The free blocks, in address order: what the free list holds. */
  function FreeBlocks(bs: seq<Block>): seq<Block> {
    if bs == [] then [] else (if bs[0].free then [bs[0]] else []) + FreeBlocks(bs[1..])
  }

  predicate Fits(b: Block, n: nat) {
    b.free && n <= b.size
  }

  /** The index of the lowest free block with room for n bytes; |bs| if there is none. */
  function FirstFit(bs: seq<Block>, n: nat): (k: nat)
    ensures k <= |bs|
    ensures k < |bs| ==> Fits(bs[k], n)
    ensures forall i :: 0 <= i < k ==> !Fits(bs[i], n)
  {
    if bs == [] then 0 else if Fits(bs[0], n) then 0 else FirstFit(bs[1..], n) + 1
  }

  predicate Splits(b: Block, n: nat) {
    b.size >= n + HEADER + MIN_ALIGN
  }

  /** Allocates n bytes from block k: split off the rest if a header and a minimal block fit in it. */
  function Take(bs: seq<Block>, k: nat, n: nat): seq<Block>
    requires k < |bs| && n <= bs[k].size
  {
    var b := bs[k];
    if Splits(b, n)
    then bs[..k] + [Block(b.addr, n, false), Block(b.addr + HEADER + n, b.size - n - HEADER, true)] + bs[k + 1..]
    else bs[k := b.(free := false)]
  }

  function Release(bs: seq<Block>, k: nat): seq<Block>
    requires k < |bs|
  {
    bs[k := bs[k].(free := true)]
  }

  function Join(b: Block, c: Block): Block {
    b.(size := b.size + HEADER + c.size)
  }

  /** Joins every run of touching free blocks into one. */
  function Coalesce(bs: seq<Block>): seq<Block>
    decreases |bs|
  {
    if |bs| < 2 then bs
    else if bs[0].free && bs[1].free then Coalesce([Join(bs[0], bs[1])] + bs[2..])
    else [bs[0]] + Coalesce(bs[1..])
  }

  // ---------- Tiling ----------

  lemma {:induction false} TilesConcat(x: seq<Block>, y: seq<Block>, lo: nat, mid: nat, hi: nat)
    requires Tiles(x, lo, mid)
    ensures Tiles(x + y, lo, hi) <==> Tiles(y, mid, hi)
  {
    if x == [] {
      assert x + y == y;
    } else {
      assert (x + y)[1..] == x[1..] + y;
      TilesConcat(x[1..], y, End(x[0]), mid, hi);
    }
  }

  lemma {:induction false} TilesSplit(bs: seq<Block>, k: nat, lo: nat, hi: nat)
    requires Tiles(bs, lo, hi) && k <= |bs|
    ensures var mid := if k < |bs| then bs[k].addr else hi;
            Tiles(bs[..k], lo, mid) && Tiles(bs[k..], mid, hi)
    ensures lo <= hi && (k < |bs| ==> lo <= bs[k].addr && End(bs[k]) <= hi)
  {
    if bs == [] {
    } else if k == 0 {
      assert bs[..0] == [] && bs[0..] == bs;
      TilesSplit(bs[1..], |bs| - 1, End(bs[0]), hi);
    } else {
      TilesSplit(bs[1..], k - 1, End(bs[0]), hi);
      assert bs[1..][..k - 1] == bs[..k][1..];
      assert bs[1..][k - 1..] == bs[k..];
    }
  }

  /** Later blocks lie entirely above earlier ones. */
  lemma TilesOrdered(bs: seq<Block>, i: nat, j: nat, lo: nat, hi: nat)
    requires Tiles(bs, lo, hi) && i < j < |bs|
    ensures End(bs[i]) <= bs[j].addr && lo <= bs[i].addr && End(bs[j]) <= hi
  {
    TilesSplit(bs, j, lo, hi);
    TilesSplit(bs[..j], i, lo, bs[j].addr);
    TilesSplit(bs, i, lo, hi);
  }

  // ---------- Coalescing ----------

  lemma {:induction false} CoalesceHeap(bs: seq<Block>, lo: nat, hi: nat)
    requires Tiles(bs, lo, hi) && Aligned(bs)
    ensures Heap(Coalesce(bs), lo, hi)
    ensures bs != [] ==> Coalesce(bs) != [] && Coalesce(bs)[0].free == bs[0].free
    decreases |bs|
  {
    if |bs| < 2 {
    } else if bs[0].free && bs[1].free {
      var cs := [Join(bs[0], bs[1])] + bs[2..];
      assert bs[1..][1..] == bs[2..] && cs[1..] == bs[2..];
      CoalesceHeap(cs, lo, hi);
    } else {
      CoalesceHeap(bs[1..], End(bs[0]), hi);
      var r := [bs[0]] + Coalesce(bs[1..]);
      assert r[1..] == Coalesce(bs[1..]);
      forall i | 0 <= i < |r| - 1 ensures !(r[i].free && r[i + 1].free) {
        assert i > 0 ==> r[i] == Coalesce(bs[1..])[i - 1];
        assert r[i + 1] == Coalesce(bs[1..])[i];
      }
    }
  }

  /** Coalescing changes nothing where no free blocks touch. */
  lemma {:induction false} CoalesceSeparate(bs: seq<Block>)
    requires Separate(bs)
    ensures Coalesce(bs) == bs
    decreases |bs|
  {
    if |bs| >= 2 {
      assert !(bs[0].free && bs[0 + 1].free);
      forall i | 0 <= i < |bs[1..]| - 1 ensures !(bs[1..][i].free && bs[1..][i + 1].free) {
        assert !(bs[i + 1].free && bs[i + 1 + 1].free);
      }
      CoalesceSeparate(bs[1..]);
      assert bs == [bs[0]] + bs[1..];
    }
  }

  /** No free block of x touches a free block in x + y. */
  ghost predicate Apart(x: seq<Block>, y: seq<Block>) {
    forall i :: 0 <= i < |x| && i + 1 < |x + y| ==> !(x[i].free && (x + y)[i + 1].free)
  }

  lemma ApartTail(x: seq<Block>, y: seq<Block>)
    requires Apart(x, y) && x != []
    ensures Apart(x[1..], y) && (x + y)[1..] == x[1..] + y
    ensures |x + y| >= 2 ==> !(x[0].free && (x + y)[1].free)
  {
    forall i | 0 <= i < |x[1..]| && i + 1 < |x[1..] + y| ensures !(x[1..][i].free && (x[1..] + y)[i + 1].free) {
      assert !(x[i + 1].free && (x + y)[i + 1 + 1].free);
    }
    assert 0 + 1 < |x + y| ==> !(x[0].free && (x + y)[0 + 1].free);
  }

  /** A prefix whose free blocks touch nothing free stays as it is. */
  lemma {:induction false} CoalesceSkip(x: seq<Block>, y: seq<Block>)
    requires Apart(x, y)
    ensures Coalesce(x + y) == x + Coalesce(y)
    decreases |x|
  {
    if x == [] {
      assert x + y == y && x + Coalesce(y) == Coalesce(y);
    } else {
      ApartTail(x, y);
      hide Apart;
      CoalesceSkip(x[1..], y);
      assert Coalesce(x + y) == [x[0]] + Coalesce(x[1..] + y) by {
        if |x + y| < 2 {
          assert x + y == [x[0]] && x[1..] + y == [];
        }
      }
      assert x == [x[0]] + x[1..];
    }
  }

  // ---------- Allocated blocks ----------

  /** b is one of the allocated blocks. */
  ghost predicate Live(bs: seq<Block>, b: Block) {
    b in bs && !b.free
  }

  /** Coalescing neither loses, adds nor changes an allocated block. */
  lemma {:induction false} CoalesceKeepsLive(bs: seq<Block>, b: Block)
    ensures Live(Coalesce(bs), b) <==> Live(bs, b)
    decreases |bs|
  {
    if |bs| >= 2 {
      assert bs == [bs[0]] + bs[1..] && bs[1..] == [bs[1]] + bs[2..];
      if bs[0].free && bs[1].free {
        CoalesceKeepsLive([Join(bs[0], bs[1])] + bs[2..], b);
      } else {
        CoalesceKeepsLive(bs[1..], b);
      }
    }
  }

  lemma LiveBounds(bs: seq<Block>, lo: nat, hi: nat, b: Block)
    requires Tiles(bs, lo, hi) && b in bs
    ensures lo <= b.addr && End(b) <= hi
  {
    var i :| 0 <= i < |bs| && bs[i] == b;
    TilesSplit(bs, i, lo, hi);
  }

  lemma SeparateTail(bs: seq<Block>)
    requires Separate(bs) && bs != []
    ensures Separate(bs[1..])
  {
    forall i | 0 <= i < |bs[1..]| - 1 ensures !(bs[1..][i].free && bs[1..][i + 1].free) {
      assert !(bs[i + 1].free && bs[i + 1 + 1].free);
    }
  }

  /** The end of the leading free block, if there is one, is the lowest allocated block or the end of the heap. */
  lemma LeadingGap(bs: seq<Block>, cs: seq<Block>, lo: nat, hi: nat)
    requires Tiles(bs, lo, hi) && Separate(bs) && Tiles(cs, lo, hi) && Separate(cs)
    requires forall b :: Live(bs, b) <==> Live(cs, b)
    requires bs != [] && cs != [] && bs[0].free && cs[0].free
    ensures End(bs[0]) <= End(cs[0])
  {
    if |cs| == 1 {
      assert cs[1..] == [];
      TilesSplit(bs, 0, lo, hi);
    } else {
      var c := cs[1];
      assert !(cs[0].free && cs[0 + 1].free);
      assert Live(cs, c);
      assert bs == [bs[0]] + bs[1..];
      LiveBounds(bs[1..], End(bs[0]), hi, c);
      assert cs[1..][0] == c;
    }
  }

  lemma LeadingLive(bs: seq<Block>, cs: seq<Block>, lo: nat, hi: nat)
    requires Tiles(bs, lo, hi) && Tiles(cs, lo, hi)
    requires forall b :: Live(bs, b) <==> Live(cs, b)
    requires bs != [] && !bs[0].free
    ensures cs != [] && cs[0] == bs[0]
  {
    assert Live(bs, bs[0]);
    assert Live(cs, bs[0]);
    if cs[0] != bs[0] {
      assert cs == [cs[0]] + cs[1..];
      LiveBounds(cs[1..], End(cs[0]), hi, bs[0]);
    }
  }

  lemma LiveTail(bs: seq<Block>, lo: nat, hi: nat, b: Block)
    requires Tiles(bs, lo, hi) && bs != []
    ensures Live(bs[1..], b) <==> Live(bs, b) && b != bs[0]
  {
    assert bs == [bs[0]] + bs[1..];
    if bs[0] in bs[1..] {
      LiveBounds(bs[1..], End(bs[0]), hi, bs[0]);
    }
  }

  /** The allocated blocks determine the heap: two heaps over one range with the same allocated blocks are equal. */
  lemma {:induction false} Canonical(bs: seq<Block>, cs: seq<Block>, lo: nat, hi: nat)
    requires Tiles(bs, lo, hi) && Separate(bs) && Tiles(cs, lo, hi) && Separate(cs)
    requires forall b :: Live(bs, b) <==> Live(cs, b)
    ensures bs == cs
    decreases |bs|
  {
    if bs == [] {
      if cs != [] {
        TilesSplit(cs, 0, lo, hi);
      }
    } else {
      TilesSplit(bs, 0, lo, hi);
      assert cs != [];
      if !bs[0].free {
        LeadingLive(bs, cs, lo, hi);
      } else if !cs[0].free {
        LeadingLive(cs, bs, lo, hi);
      } else {
        LeadingGap(bs, cs, lo, hi);
        LeadingGap(cs, bs, lo, hi);
      }
      assert bs[0] == cs[0];
      SeparateTail(bs);
      SeparateTail(cs);
      forall b ensures Live(bs[1..], b) <==> Live(cs[1..], b) {
        LiveTail(bs, lo, hi, b);
        LiveTail(cs, lo, hi, b);
      }
      Canonical(bs[1..], cs[1..], End(bs[0]), hi);
      assert bs == [bs[0]] + bs[1..] && cs == [cs[0]] + cs[1..];
    }
  }

  // ---------- Allocating and freeing ----------

  /** The block that Take hands out. */
  function Taken(bs: seq<Block>, k: nat, n: nat): Block
    requires k < |bs| && n <= bs[k].size
  {
    Block(bs[k].addr, if Splits(bs[k], n) then n else bs[k].size, false)
  }

  lemma Around(bs: seq<Block>, k: nat)
    requires k < |bs|
    ensures bs == bs[..k] + [bs[k]] + bs[k + 1..]
  {}

  /** Replacing block k by blocks over the same range keeps the tiling. */
  lemma ReplaceTiles(bs: seq<Block>, k: nat, m: seq<Block>, lo: nat, hi: nat)
    requires Tiles(bs, lo, hi) && k < |bs| && Tiles(m, bs[k].addr, End(bs[k]))
    ensures Tiles(bs[..k] + m + bs[k + 1..], lo, hi)
  {
    var x, y := bs[..k], bs[k + 1..];
    TilesSplit(bs, k, lo, hi);
    assert bs[k..][1..] == y;
    TilesConcat(m, y, bs[k].addr, End(bs[k]), hi);
    TilesConcat(x, m + y, lo, bs[k].addr, hi);
    assert x + (m + y) == x + m + y;
  }

  lemma SplitAligned(a: nat, s: nat, n: nat)
    requires a % MIN_ALIGN == 0 && s % MIN_ALIGN == 0 && n % MIN_ALIGN == 0 && n + HEADER <= s
    ensures (a + HEADER + n) % MIN_ALIGN == 0 && (s - n - HEADER) % MIN_ALIGN == 0
  {}

  /** Replacing block k by aligned blocks keeps the alignment. */
  lemma ReplaceAligned(bs: seq<Block>, k: nat, m: seq<Block>)
    requires Aligned(bs) && k < |bs| && Aligned(m)
    ensures Aligned(bs[..k] + m + bs[k + 1..])
  {
    var r := bs[..k] + m + bs[k + 1..];
    forall i | 0 <= i < |r| ensures r[i].addr % MIN_ALIGN == 0 && r[i].size % MIN_ALIGN == 0 {
      if i < k {
        assert r[i] == bs[i];
      } else if i < k + |m| {
        assert r[i] == m[i - k];
      } else {
        assert r[i] == bs[i - |m| + 1];
      }
    }
  }

  lemma TilesPair(c: Block, d: Block, lo: nat, hi: nat)
    requires c.addr == lo && d.addr == End(c) && hi == End(d)
    ensures Tiles([c, d], lo, hi)
  {
    assert [c, d][1..] == [d] && [d][1..] == [];
    assert Tiles([d], d.addr, hi);
  }

  lemma TakeTiles(bs: seq<Block>, k: nat, n: nat, lo: nat, hi: nat)
    requires Tiles(bs, lo, hi) && k < |bs| && n <= bs[k].size
    ensures Tiles(Take(bs, k, n), lo, hi)
  {
    var b := bs[k];
    if Splits(b, n) {
      var m := [Block(b.addr, n, false), Block(b.addr + HEADER + n, b.size - n - HEADER, true)];
      TilesPair(m[0], m[1], b.addr, End(b));
      ReplaceTiles(bs, k, m, lo, hi);
    } else {
      var m := [b.(free := false)];
      assert m[1..] == [];
      ReplaceTiles(bs, k, m, lo, hi);
      assert bs[..k] + m + bs[k + 1..] == bs[k := m[0]];
    }
  }

  /** Allocation keeps the heap well formed. The rest split off touches no free block, though nothing coalesces it. */
  lemma TakeHeap(bs: seq<Block>, k: nat, n: nat, lo: nat, hi: nat)
    requires Heap(bs, lo, hi) && k < |bs| && Fits(bs[k], n) && n % MIN_ALIGN == 0
    ensures Heap(Take(bs, k, n), lo, hi)
    ensures k < |Take(bs, k, n)| && Take(bs, k, n)[k] == Taken(bs, k, n)
  {
    TakeTiles(bs, k, n, lo, hi);
    var ts := Take(bs, k, n);
    var grown := if Splits(bs[k], n) then 1 else 0;
    forall i | 0 <= i < |ts| - 1 ensures !(ts[i].free && ts[i + 1].free) {
      if i + 1 < k {
        assert !(bs[i].free && bs[i + 1].free);
      } else if i > k {
        assert !(bs[i - grown].free && bs[i - grown + 1].free);
      }
    }
  }

  /** Allocation adds the block it hands out and touches no other. */
  lemma TakeLive(bs: seq<Block>, k: nat, n: nat, c: Block)
    requires k < |bs| && Fits(bs[k], n)
    ensures Live(Take(bs, k, n), c) <==> Live(bs, c) || c == Taken(bs, k, n)
  {
    var x, b, y := bs[..k], bs[k], bs[k + 1..];
    Around(bs, k);
    if !Splits(b, n) {
      assert bs[k := b.(free := false)] == x + [b.(free := false)] + y;
    }
  }

  lemma ReleaseTiles(bs: seq<Block>, k: nat, lo: nat, hi: nat)
    requires Tiles(bs, lo, hi) && k < |bs|
    ensures Tiles(Release(bs, k), lo, hi)
  {
    var m := [bs[k].(free := true)];
    assert m[1..] == [];
    ReplaceTiles(bs, k, m, lo, hi);
    assert bs[..k] + m + bs[k + 1..] == Release(bs, k);
  }

  lemma ReleaseLive(bs: seq<Block>, k: nat, lo: nat, hi: nat, c: Block)
    requires Tiles(bs, lo, hi) && k < |bs|
    ensures Live(Release(bs, k), c) <==> Live(bs, c) && c != bs[k]
  {
    var rs := Release(bs, k);
    if Live(rs, c) {
      var i :| 0 <= i < |rs| && rs[i] == c;
      assert i != k && bs[i] == c;
      if i < k { TilesOrdered(bs, i, k, lo, hi); } else { TilesOrdered(bs, k, i, lo, hi); }
    }
    if Live(bs, c) && c != bs[k] {
      var i :| 0 <= i < |bs| && bs[i] == c;
      assert rs[i] == c;
    }
  }

  /** What kfree does to block k. */
  function Free(bs: seq<Block>, k: nat): seq<Block>
    requires k < |bs|
  {
    Coalesce(Release(bs, k))
  }

  /** Freeing keeps the heap well formed and takes away exactly one allocated block. */
  lemma FreeHeap(bs: seq<Block>, k: nat, lo: nat, hi: nat)
    requires Heap(bs, lo, hi) && k < |bs|
    ensures Heap(Free(bs, k), lo, hi)
    ensures forall c :: Live(Free(bs, k), c) <==> Live(bs, c) && c != bs[k]
  {
    ReleaseTiles(bs, k, lo, hi);
    CoalesceHeap(Release(bs, k), lo, hi);
    forall c ensures Live(Free(bs, k), c) <==> Live(bs, c) && c != bs[k] {
      CoalesceKeepsLive(Release(bs, k), c);
      ReleaseLive(bs, k, lo, hi, c);
    }
  }

  /** Freeing what was just allocated restores the heap, split or not. */
  lemma RoundTrip(bs: seq<Block>, k: nat, n: nat, lo: nat, hi: nat)
    requires Heap(bs, lo, hi) && k < |bs| && Fits(bs[k], n) && n % MIN_ALIGN == 0
    ensures k < |Take(bs, k, n)| && Free(Take(bs, k, n), k) == bs
  {
    var ts := Take(bs, k, n);
    TakeHeap(bs, k, n, lo, hi);
    FreeHeap(ts, k, lo, hi);
    forall c ensures Live(Free(ts, k), c) <==> Live(bs, c) {
      TakeLive(bs, k, n, c);
      if c == ts[k] && c in bs {
        var i :| 0 <= i < |bs| && bs[i] == c;
        if i < k { TilesOrdered(bs, i, k, lo, hi); } else if i > k { TilesOrdered(bs, k, i, lo, hi); }
      }
    }
    Canonical(Free(ts, k), bs, lo, hi);
  }

  /** The order of frees does not matter: the same blocks freed leave the same heap. */
  lemma FreesCommute(bs: seq<Block>, i: nat, j: nat, i': nat, j': nat, lo: nat, hi: nat)
    requires Heap(bs, lo, hi) && i < |bs| && j < |bs|
    requires j' < |Free(bs, i)| && Free(bs, i)[j'] == bs[j]
    requires i' < |Free(bs, j)| && Free(bs, j)[i'] == bs[i]
    ensures Free(Free(bs, i), j') == Free(Free(bs, j), i')
  {
    FreeHeap(bs, i, lo, hi);
    FreeHeap(bs, j, lo, hi);
    FreeHeap(Free(bs, i), j', lo, hi);
    FreeHeap(Free(bs, j), i', lo, hi);
    Canonical(Free(Free(bs, i), j'), Free(Free(bs, j), i'), lo, hi);
  }

  // ---------- Growing ----------

  /** The heap after growing by g bytes: a free block over the new range, coalesced with what it touches. */
  function Grow(bs: seq<Block>, hi: nat, g: nat): seq<Block>
    requires g >= HEADER
  {
    Coalesce(bs + [Block(hi, g - HEADER, true)])
  }

  lemma GrowHeap(bs: seq<Block>, lo: nat, hi: nat, g: nat)
    requires Heap(bs, lo, hi) && g >= HEADER && g % MIN_ALIGN == 0 && hi % MIN_ALIGN == 0
    ensures Heap(Grow(bs, hi, g), lo, hi + g)
    ensures forall c :: Live(Grow(bs, hi, g), c) <==> Live(bs, c)
  {
    var added := Block(hi, g - HEADER, true);
    assert [added][1..] == [];
    TilesConcat(bs, [added], lo, hi, hi + g);
    CoalesceHeap(bs + [added], lo, hi + g);
    forall c ensures Live(Grow(bs, hi, g), c) <==> Live(bs, c) {
      CoalesceKeepsLive(bs + [added], c);
    }
  }

  /** Growing leaves the heap as it was with the new range added, joined with a free block at the old end if there is one. */
  lemma GrowShape(bs: seq<Block>, hi: nat, g: nat)
    requires Separate(bs) && g >= HEADER
    ensures var added := Block(hi, g - HEADER, true);
            Grow(bs, hi, g) == if bs != [] && bs[|bs| - 1].free
                               then bs[..|bs| - 1] + [Join(bs[|bs| - 1], added)] else bs + [added]
  {
    var added := Block(hi, g - HEADER, true);
    if bs != [] && bs[|bs| - 1].free {
      var x, l := bs[..|bs| - 1], bs[|bs| - 1];
      assert bs + [added] == x + [l, added];
      assert Apart(x, [l, added]) by {
        forall i | 0 <= i < |x| && i + 1 < |x + [l, added]| ensures !(x[i].free && (x + [l, added])[i + 1].free) {
          assert !(bs[i].free && bs[i + 1].free);
        }
      }
      CoalesceSkip(x, [l, added]);
      assert [Join(l, added)] + [l, added][2..] == [Join(l, added)];
      assert Coalesce([l, added]) == [Join(l, added)];
    } else {
      forall i | 0 <= i < |bs + [added]| - 1 ensures !((bs + [added])[i].free && (bs + [added])[i + 1].free) {
        assert i + 1 < |bs| ==> !(bs[i].free && bs[i + 1].free);
      }
      CoalesceSeparate(bs + [added]);
    }
  }

  /** If nothing fitted before, growing by enough for a header and n bytes makes the last block the first fit. */
  lemma GrowFits(bs: seq<Block>, hi: nat, g: nat, n: nat)
    requires Separate(bs) && g >= HEADER + n && FirstFit(bs, n) == |bs|
    ensures FirstFit(Grow(bs, hi, g), n) == |Grow(bs, hi, g)| - 1
  {
    GrowShape(bs, hi, g);
    var gs := Grow(bs, hi, g);
    forall i | 0 <= i < |gs| - 1 ensures !Fits(gs[i], n) {
      assert gs[i] == bs[i];
    }
    assert Fits(gs[|gs| - 1], n);
  }
}
