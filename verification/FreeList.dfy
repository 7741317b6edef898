/**
 The free list of the kernel heap as it lies in memory: headers at block addresses, free
 blocks chained by their next fields in address order, 0 ending the chain. Links says that
 a stretch of blocks is chained up correctly when the first free block after it is `tail`.
 */
module FreeList {
  import opened HeapBlocks

  // KHEAP_MAGIC marks a free block, its complement an allocated one.
  const FREE_MAGIC := 0xDEAD_BEEF_CAFE_BABE
  const USED_MAGIC := 0x2152_4110_3501_4541

  datatype Header = Header(size: nat, next: nat, magic: nat)

  type Memory = map<nat, Header>

  function Then(a: nat, b: nat): nat {
    if a != 0 then a else b
  }

  /** The address of the first free block, 0 if there is none. */
  function FreeHead(bs: seq<Block>): nat {
    if bs == [] then 0 else if bs[0].free then bs[0].addr else FreeHead(bs[1..])
  }

  ghost predicate HeaderOf(m: Memory, b: Block, next: nat) {
    b.addr in m && m[b.addr].size == b.size && (b.free ==> m[b.addr].next == next && m[b.addr].magic == FREE_MAGIC)
  }

  ghost predicate Links(m: Memory, bs: seq<Block>, tail: nat) {
    bs == [] || (HeaderOf(m, bs[0], Then(FreeHead(bs[1..]), tail)) && Links(m, bs[1..], tail))
  }

  /** The blocks that are not free carry the mark of an allocated block. */
  ghost predicate Marked(m: Memory, bs: seq<Block>) {
    forall b :: b in bs && !b.free ==> b.addr in m && m[b.addr].magic == USED_MAGIC
  }

  ghost predicate NonNull(bs: seq<Block>) {
    forall i :: 0 <= i < |bs| ==> bs[i].addr != 0
  }

  lemma TilesNonNull(bs: seq<Block>, lo: nat, hi: nat)
    requires Tiles(bs, lo, hi) && lo > 0
    ensures NonNull(bs)
  {
    forall i | 0 <= i < |bs| ensures bs[i].addr != 0 {
      TilesSplit(bs, i, lo, hi);
    }
  }

  lemma {:induction false} FreeHeadConcat(x: seq<Block>, y: seq<Block>)
    requires NonNull(x)
    ensures FreeHead(x + y) == Then(FreeHead(x), FreeHead(y))
  {
    if x == [] {
      assert x + y == y;
    } else {
      assert (x + y)[1..] == x[1..] + y;
      FreeHeadConcat(x[1..], y);
    }
  }

  lemma {:induction false} LinksConcat(m: Memory, x: seq<Block>, y: seq<Block>, tail: nat)
    requires NonNull(x) && NonNull(y)
    ensures Links(m, x + y, tail) <==> Links(m, x, Then(FreeHead(y), tail)) && Links(m, y, tail)
  {
    if x == [] {
      assert x + y == y;
    } else {
      assert (x + y)[1..] == x[1..] + y;
      FreeHeadConcat(x[1..], y);
      LinksConcat(m, x[1..], y, tail);
    }
  }

  /** A stretch stays chained if its sizes and the next and magic fields of its free blocks stay. */
  lemma {:induction false} LinksFrame(m: Memory, m': Memory, bs: seq<Block>, tail: nat)
    requires Links(m, bs, tail)
    requires forall b :: b in bs && b.addr in m ==>
               b.addr in m' && m'[b.addr].size == m[b.addr].size && (b.free ==> m'[b.addr] == m[b.addr])
    ensures Links(m', bs, tail)
  {
    if bs != [] {
      LinksFrame(m, m', bs[1..], tail);
    }
  }

  /** A stretch without free blocks does not care what follows it. */
  lemma {:induction false} LinksNoFree(m: Memory, bs: seq<Block>, tail: nat, tail': nat)
    requires Links(m, bs, tail) && NonNull(bs) && FreeHead(bs) == 0
    ensures Links(m, bs, tail')
  {
    if bs != [] {
      LinksNoFree(m, bs[1..], tail, tail');
    }
  }

  /** Where the first free block is. */
  lemma {:induction false} FreeHeadIndex(bs: seq<Block>) returns (i: nat)
    requires NonNull(bs)
    ensures i <= |bs| && (FreeHead(bs) == 0 <==> i == |bs|)
    ensures i < |bs| ==> bs[i].free && bs[i].addr == FreeHead(bs)
    ensures forall j :: 0 <= j < i ==> !bs[j].free
  {
    if bs == [] {
      i := 0;
    } else if bs[0].free {
      i := 0;
    } else {
      i := FreeHeadIndex(bs[1..]);
      i := i + 1;
      assert forall j :: 1 <= j < i ==> bs[j] == bs[1..][j - 1];
    }
  }

  lemma {:induction false} NoFreeHead(bs: seq<Block>)
    requires forall j :: 0 <= j < |bs| ==> !bs[j].free
    ensures FreeHead(bs) == 0
  {
    if bs != [] {
      NoFreeHead(bs[1..]);
    }
  }

  /** The header of block k, and what its next field points to. */
  lemma {:induction false} LinkAt(m: Memory, bs: seq<Block>, tail: nat, k: nat)
    requires Links(m, bs, tail) && k < |bs|
    ensures HeaderOf(m, bs[k], Then(FreeHead(bs[k + 1..]), tail))
  {
    if k > 0 {
      LinkAt(m, bs[1..], tail, k - 1);
      assert bs[1..][k..] == bs[k + 1..];
    }
  }

  /** The chain from the first free block runs through exactly the free blocks, in address order. */
  ghost predicate Chain(m: Memory, head: nat, fs: seq<Block>)
    decreases fs
  {
    if fs == [] then head == 0
    else head == fs[0].addr && head in m && m[head].size == fs[0].size && Chain(m, m[head].next, fs[1..])
  }

  lemma {:induction false} LinksAreChain(m: Memory, bs: seq<Block>)
    requires Links(m, bs, 0) && NonNull(bs)
    ensures Chain(m, FreeHead(bs), FreeBlocks(bs))
  {
    if bs != [] {
      LinksAreChain(m, bs[1..]);
      if bs[0].free {
        assert FreeBlocks(bs)[1..] == FreeBlocks(bs[1..]);
      } else {
        assert FreeBlocks(bs) == FreeBlocks(bs[1..]);
      }
    }
  }

  // ---------- Changes to the list ----------

  /** Links of a sequence split around block k. */
  lemma LinksAround(m: Memory, x: seq<Block>, b: Block, y: seq<Block>)
    requires NonNull(x) && NonNull(y) && b.addr != 0
    ensures Links(m, x + [b] + y, 0) <==>
            && Links(m, x, if b.free then b.addr else FreeHead(y))
            && HeaderOf(m, b, FreeHead(y))
            && Links(m, y, 0)
    ensures FreeHead(x + [b] + y) == Then(FreeHead(x), if b.free then b.addr else FreeHead(y))
  {
    assert x + [b] + y == x + ([b] + y) && ([b] + y)[1..] == y;
    LinksConcat(m, x, [b] + y, 0);
    FreeHeadConcat(x, [b] + y);
  }

  lemma LinksHead(m: Memory, b: Block, y: seq<Block>)
    ensures Links(m, [b] + y, 0) <==> HeaderOf(m, b, FreeHead(y)) && Links(m, y, 0)
    ensures FreeHead([b] + y) == if b.free then b.addr else FreeHead(y)
  {
    assert ([b] + y)[1..] == y;
  }

  lemma Split(bs: seq<Block>, k: nat, lo: nat, hi: nat)
    requires Tiles(bs, lo, hi) && lo > 0 && k < |bs|
    ensures NonNull(bs[..k]) && NonNull(bs[k + 1..]) && bs[k].addr != 0
    ensures bs == bs[..k] + [bs[k]] + bs[k + 1..]
    ensures forall c :: c in bs[..k] ==> End(c) <= bs[k].addr
    ensures forall c :: c in bs[k + 1..] ==> End(bs[k]) <= c.addr
  {
    hide Tiles;
    TilesNonNull(bs, lo, hi);
    forall c | c in bs[..k] ensures End(c) <= bs[k].addr {
      var i :| 0 <= i < k && bs[i] == c;
      TilesOrdered(bs, i, k, lo, hi);
    }
    forall c | c in bs[k + 1..] ensures End(bs[k]) <= c.addr {
      var i :| 0 <= i < |bs[k + 1..]| && bs[k + 1..][i] == c;
      TilesOrdered(bs, k, k + 1 + i, lo, hi);
    }
  }

  lemma UpdateAround(bs: seq<Block>, k: nat, b: Block)
    requires k < |bs|
    ensures bs[k := b] == bs[..k] + [b] + bs[k + 1..]
  {}

  /** Putting an allocated block, its header already set, with no free block below it at the front of the list. */
  lemma InsertFront(m: Memory, bs: seq<Block>, k: nat, lo: nat, hi: nat)
    requires Tiles(bs, lo, hi) && lo > 0 && k < |bs| && !bs[k].free
    requires Links(m, bs, 0) && FreeHead(bs[..k]) == 0
    requires bs[k].addr in m && m[bs[k].addr] == Header(bs[k].size, FreeHead(bs), FREE_MAGIC)
    ensures Links(m, Release(bs, k), 0) && FreeHead(Release(bs, k)) == bs[k].addr
  {
    var x, b, y := bs[..k], bs[k], bs[k + 1..];
    Split(bs, k, lo, hi);
    LinksAround(m, x, b, y);
    LinksNoFree(m, x, FreeHead(y), b.addr);
    LinksAround(m, x, b.(free := true), y);
    UpdateAround(bs, k, b.(free := true));
  }

  /** Links of a stretch split around its last free block. */
  lemma LinksBetween(m: Memory, w: seq<Block>, p: Block, z: seq<Block>, tail: nat)
    requires NonNull(w) && NonNull(z) && p.addr != 0 && p.free && FreeHead(z) == 0
    ensures Links(m, w + [p] + z, tail) <==> Links(m, w, p.addr) && HeaderOf(m, p, tail) && Links(m, z, tail)
  {
    assert w + [p] + z == w + ([p] + z) && ([p] + z)[1..] == z;
    LinksConcat(m, w, [p] + z, tail);
  }

  /** Changing the next field of the last free block of a stretch changes what the stretch leads to. */
  lemma Redirect(m: Memory, x: seq<Block>, j: nat, lo: nat, hi: nat, tail: nat, tail': nat)
    requires Tiles(x, lo, hi) && lo > 0 && j < |x| && x[j].free
    requires forall i :: j < i < |x| ==> !x[i].free
    requires Links(m, x, tail)
    ensures x[j].addr in m && m[x[j].addr].next == tail
    ensures Links(m[x[j].addr := m[x[j].addr].(next := tail')], x, tail')
  {
    var w, p, z := x[..j], x[j], x[j + 1..];
    Split(x, j, lo, hi);
    NoFreeHead(z);
    LinksBetween(m, w, p, z, tail);
    var m' := m[p.addr := m[p.addr].(next := tail')];
    LinksNoFree(m, z, tail, tail');
    LinksFrame(m, m', w, p.addr);
    LinksFrame(m, m', z, tail');
    LinksBetween(m', w, p, z, tail');
  }

  lemma {:induction false} HasFreeHead(bs: seq<Block>, j: nat)
    requires NonNull(bs) && j < |bs| && bs[j].free
    ensures FreeHead(bs) != 0
  {
    if j > 0 {
      HasFreeHead(bs[1..], j - 1);
    }
  }

  /** Putting an allocated block, its header already set, into the list after the last free block below it. */
  lemma InsertAfter(m: Memory, bs: seq<Block>, j: nat, k: nat, lo: nat, hi: nat)
    requires Tiles(bs, lo, hi) && lo > 0 && j < k < |bs| && bs[j].free && !bs[k].free
    requires Links(m, bs, 0) && bs[j].addr in m
    requires forall i :: j < i < k ==> !bs[i].free
    requires bs[k].addr in m && m[bs[k].addr] == Header(bs[k].size, m[bs[j].addr].next, FREE_MAGIC)
    ensures var m' := m[bs[j].addr := m[bs[j].addr].(next := bs[k].addr)];
            Links(m', Release(bs, k), 0) && FreeHead(Release(bs, k)) == FreeHead(bs)
  {
    hide Tiles, Links, FreeHead;
    var x, b, y := bs[..k], bs[k], bs[k + 1..];
    var p, b' := bs[j], b.(free := true);
    var m' := m[p.addr := m[p.addr].(next := b.addr)];
    Split(bs, k, lo, hi);
    LinksAround(m, x, b, y);
    assert End(p) <= b.addr by { assert p in x; }
    assert Links(m', x, b.addr) && m[p.addr].next == FreeHead(y) by {
      TilesSplit(bs, k, lo, hi);
      Redirect(m, x, j, lo, b.addr, FreeHead(y), b.addr);
    }
    assert Links(m', y, 0) by { LinksFrame(m, m', y, 0); }
    assert FreeHead(x) != 0 by { HasFreeHead(x, j); }
    UpdateAround(bs, k, b');
    LinksAround(m', x, b', y);
  }

  function MarkUsed(bs: seq<Block>, k: nat): seq<Block>
    requires k < |bs|
  {
    bs[k := bs[k].(free := false)]
  }

  /** Taking the first free block out of the list. */
  lemma RemoveFront(m: Memory, bs: seq<Block>, k: nat, lo: nat, hi: nat)
    requires Tiles(bs, lo, hi) && lo > 0 && k < |bs| && bs[k].free
    requires Links(m, bs, 0) && FreeHead(bs[..k]) == 0
    ensures bs[k].addr in m
    ensures Links(m, MarkUsed(bs, k), 0) && FreeHead(MarkUsed(bs, k)) == m[bs[k].addr].next
  {
    var x, b, y := bs[..k], bs[k], bs[k + 1..];
    var b' := b.(free := false);
    Split(bs, k, lo, hi);
    LinksAround(m, x, b, y);
    LinksNoFree(m, x, b.addr, FreeHead(y));
    LinksAround(m, x, b', y);
    UpdateAround(bs, k, b');
  }

  /** Taking a free block out of the list that has a free block below it. */
  lemma RemoveAfter(m: Memory, bs: seq<Block>, j: nat, k: nat, lo: nat, hi: nat)
    requires Tiles(bs, lo, hi) && lo > 0 && j < k < |bs| && bs[j].free && bs[k].free
    requires Links(m, bs, 0)
    requires forall i :: j < i < k ==> !bs[i].free
    ensures bs[j].addr in m && bs[k].addr in m
    ensures var m' := m[bs[j].addr := m[bs[j].addr].(next := m[bs[k].addr].next)];
            Links(m', MarkUsed(bs, k), 0) && FreeHead(MarkUsed(bs, k)) == FreeHead(bs)
  {
    hide Tiles, Links, FreeHead;
    var x, b, y := bs[..k], bs[k], bs[k + 1..];
    var p, b' := bs[j], b.(free := false);
    Split(bs, k, lo, hi);
    LinksAround(m, x, b, y);
    assert End(p) <= b.addr by { assert p in x; }
    assert p.addr in m && Links(m[p.addr := m[p.addr].(next := FreeHead(y))], x, FreeHead(y)) by {
      TilesSplit(bs, k, lo, hi);
      Redirect(m, x, j, lo, b.addr, b.addr, FreeHead(y));
    }
    var m' := m[p.addr := m[p.addr].(next := m[b.addr].next)];
    assert Links(m', y, 0) by { LinksFrame(m, m', y, 0); }
    assert FreeHead(x) != 0 by { HasFreeHead(x, j); }
    UpdateAround(bs, k, b');
    LinksAround(m', x, b', y);
  }

  /** An allocated block cut in two, both parts still off the list. */
  function Cut(bs: seq<Block>, k: nat, n: nat): seq<Block>
    requires k < |bs| && n + HEADER <= bs[k].size
  {
    var b := bs[k];
    bs[..k] + [Block(b.addr, n, false), Block(b.addr + HEADER + n, b.size - n - HEADER, false)] + bs[k + 1..]
  }

  lemma CutList(m: Memory, m': Memory, bs: seq<Block>, k: nat, n: nat, lo: nat, hi: nat)
    requires Tiles(bs, lo, hi) && lo > 0 && k < |bs| && !bs[k].free && n + HEADER <= bs[k].size
    requires Links(m, bs, 0)
    requires var b := bs[k];
             && b.addr in m' && m'[b.addr].size == n
             && b.addr + HEADER + n in m' && m'[b.addr + HEADER + n].size == b.size - n - HEADER
             && forall a :: a in m && a != b.addr && a != b.addr + HEADER + n ==> a in m' && m'[a] == m[a]
    ensures Links(m', Cut(bs, k, n), 0) && FreeHead(Cut(bs, k, n)) == FreeHead(bs)
  {
    hide Tiles, Links, FreeHead;
    var x, b, y := bs[..k], bs[k], bs[k + 1..];
    var c, d := Block(b.addr, n, false), Block(b.addr + HEADER + n, b.size - n - HEADER, false);
    Split(bs, k, lo, hi);
    LinksAround(m, x, b, y);
    assert Links(m', x, FreeHead(y)) by { LinksFrame(m, m', x, FreeHead(y)); }
    assert Links(m', y, 0) by { LinksFrame(m, m', y, 0); }
    LinksHead(m', d, y);
    LinksAround(m', x, c, [d] + y);
    assert x + [c] + ([d] + y) == Cut(bs, k, n);
  }

  /** Two touching free blocks made one. */
  function JoinAt(bs: seq<Block>, j: nat): seq<Block>
    requires j + 1 < |bs|
  {
    bs[..j] + [Join(bs[j], bs[j + 1])] + bs[j + 2..]
  }

  lemma JoinTiles(bs: seq<Block>, j: nat, lo: nat, hi: nat)
    requires Tiles(bs, lo, hi) && j + 1 < |bs|
    ensures Tiles(JoinAt(bs, j), lo, hi)
  {
    var x, b, c, y := bs[..j], bs[j], bs[j + 1], bs[j + 2..];
    TilesSplit(bs, j, lo, hi);
    assert bs[j..][1..] == [c] + y && ([c] + y)[1..] == y;
    assert ([Join(b, c)] + y)[1..] == y;
    TilesConcat(x, [Join(b, c)] + y, lo, b.addr, hi);
    assert x + ([Join(b, c)] + y) == JoinAt(bs, j);
  }

  lemma JoinList(m: Memory, bs: seq<Block>, j: nat, lo: nat, hi: nat)
    requires Tiles(bs, lo, hi) && lo > 0 && j + 1 < |bs| && bs[j].free && bs[j + 1].free
    requires Links(m, bs, 0)
    ensures bs[j].addr in m && bs[j + 1].addr in m
    ensures var m' := m[bs[j].addr := Header(bs[j].size + HEADER + bs[j + 1].size, m[bs[j + 1].addr].next, FREE_MAGIC)];
            Links(m', JoinAt(bs, j), 0) && FreeHead(JoinAt(bs, j)) == FreeHead(bs)
  {
    hide Tiles, Links, FreeHead;
    var x, b, c, y := bs[..j], bs[j], bs[j + 1], bs[j + 2..];
    Split(bs, j, lo, hi);
    assert bs[j + 1..] == [c] + y;
    LinksAround(m, x, b, [c] + y);
    LinksHead(m, c, y);
    assert NonNull(y) by { TilesNonNull(bs, lo, hi); }
    var m' := m[b.addr := Header(b.size + HEADER + c.size, m[c.addr].next, FREE_MAGIC)];
    assert Links(m', x, b.addr) by { LinksFrame(m, m', x, b.addr); }
    assert Links(m', y, 0) by { LinksFrame(m, m', y, 0); }
    LinksAround(m', x, Join(b, c), y);
  }
}
