/**
 The frame-bitmap part of memory_init in kernel/memory.c: the bitmap is sized from the highest address of the memory
 map, placed in a usable region, and filled so that it records which frames may be handed out.
 */
module MemoryInit {
  import opened Bits
  import opened PageTables
  import opened PhysicalMemory
  import opened Wrappers

  const PAGE := 4096
  const MIB := 0x10_0000
  const ADDRESS_LIMIT := 0x10_0000_0000_0000

  datatype Region = Region(base: nat, length: nat, usable: bool)

  function Top(r: Region): nat {
    r.base + r.length
  }

  /** Physical addresses are below 2^52, so no sum of the initialisation wraps. */
  ghost predicate Physical(regions: seq<Region>) {
    forall i :: 0 <= i < |regions| ==> Top(regions[i]) <= ADDRESS_LIMIT
  }

  function AlignUp(x: nat, a: nat): nat
    requires a > 0
  {
    (x + a - 1) / a * a
  }

  /** The end of the highest region, or 0 if all are empty at 0. */
  method HighestAddress(regions: seq<Region>) returns (h: nat)
    ensures forall i :: 0 <= i < |regions| ==> Top(regions[i]) <= h
    ensures h == 0 || exists i :: 0 <= i < |regions| && Top(regions[i]) == h
  {
    h := 0;
    for i := 0 to |regions|
      invariant forall j :: 0 <= j < i ==> Top(regions[j]) <= h
      invariant h == 0 || exists j :: 0 <= j < i && Top(regions[j]) == h
    {
      if regions[i].usable && Top(regions[i]) > h {
        h := Top(regions[i]);
      }
      if Top(regions[i]) > h {
        h := Top(regions[i]);
      }
    }
  }

  /** The lowest page boundary of the region that is not below 1 MiB. */
  function Spot(r: Region): nat {
    AlignUp(if r.base < MIB then MIB else r.base, PAGE)
  }

  /** The region can hold the bitmap at its spot. */
  predicate Fits(r: Region, bytes: nat) {
    r.usable && Spot(r) + bytes <= Top(r) && (r.base < MIB ==> Top(r) > MIB)
  }

  /** The place of the bitmap: the spot of the first region that can hold it. */
  method PlaceBitmap(regions: seq<Region>, bytes: nat) returns (r: Option<nat>)
    ensures r == None <==> forall i :: 0 <= i < |regions| ==> !Fits(regions[i], bytes)
    ensures r.Some? ==> exists i ::
              && 0 <= i < |regions| && Fits(regions[i], bytes) && r.value == Spot(regions[i])
              && forall j :: 0 <= j < i ==> !Fits(regions[j], bytes)
  {
    for i := 0 to |regions|
      invariant forall j :: 0 <= j < i ==> !Fits(regions[j], bytes)
    {
      var e := regions[i];
      if e.usable && e.length >= bytes {
        var candidate := e.base;
        if candidate < MIB {
          if e.base + e.length > MIB {
            candidate := MIB;
          } else {
            continue;
          }
        }
        candidate := AlignUp(candidate, PAGE);
        if candidate + bytes <= e.base + e.length {
          return Some(candidate);
        }
      }
    }
    return None;
  }

  /** The frame lies wholly inside the region. */
  predicate Inside(r: Region, f: nat) {
    r.base <= f * PAGE && (f + 1) * PAGE <= Top(r)
  }

  ghost predicate Available(regions: seq<Region>, f: nat) {
    exists i :: 0 <= i < |regions| && regions[i].usable && Inside(regions[i], f)
  }

  /** The frame holds a byte of the bitmap. */
  predicate HoldsBitmap(place: nat, bytes: nat, f: nat) {
    f * PAGE < place + bytes && place < (f + 1) * PAGE
  }

  lemma InsideFrames(r: Region, f: nat)
    ensures AlignUp(r.base, PAGE) / PAGE <= f < Top(r) / PAGE <==> Inside(r, f)
  {}

  lemma BitmapFrames(place: nat, bytes: nat, f: nat)
    requires place % PAGE == 0 && bytes > 0
    ensures place / PAGE <= f < AlignUp(place + bytes, PAGE) / PAGE <==> HoldsBitmap(place, bytes, f)
  {}

  function UpTo(n: nat): (s: set<nat>)
    ensures |s| == n && forall f: nat :: f in s <==> f < n
  {
    if n == 0 then {} else UpTo(n - 1) + {n - 1}
  }

  /** Clears the bits of a range of frames, counting those that were set. */
  method FreeRange(pmm: Pmm, start: nat, end: nat)
    requires pmm.Valid() && end <= pmm.highest + 1
    modifies pmm`usedFrames, pmm`used, pmm.bitmap
    ensures pmm.Valid()
    ensures forall f :: f in pmm.used <==> f in old(pmm.used) && !(start <= f < end)
  {
    if end > start {
      for f := start to end
        invariant pmm.Valid()
        invariant forall g :: g in pmm.used <==> g in old(pmm.used) && !(start <= g < f)
      {
        assert Test(pmm.bitmap[..], f) == pmm.bitmap[f / 64][f % 64];
        if pmm.bitmap[f / 64][f % 64] {
          pmm.ClearBit(f);
          pmm.usedFrames := pmm.usedFrames - 1;
          pmm.used := pmm.used - {f};
        }
      }
    }
  }

  /** Sets the bits of a range of frames, counting those that were clear. */
  method TakeRange(pmm: Pmm, start: nat, end: nat)
    requires pmm.Valid() && start <= end <= pmm.highest + 1
    modifies pmm`usedFrames, pmm`used, pmm.bitmap
    ensures pmm.Valid()
    ensures forall f :: f in pmm.used <==> f in old(pmm.used) || start <= f < end
  {
    for f := start to end
      invariant pmm.Valid()
      invariant forall g :: g in pmm.used <==> g in old(pmm.used) || start <= g < f
    {
      assert Test(pmm.bitmap[..], f) == pmm.bitmap[f / 64][f % 64];
      if !pmm.bitmap[f / 64][f % 64] {
        pmm.SetBit(f);
        pmm.usedFrames := pmm.usedFrames + 1;
        pmm.used := pmm.used + {f};
      }
    }
  }

  /** Frees the frames wholly inside usable regions. */
  method FreeUsable(pmm: Pmm, regions: seq<Region>)
    requires pmm.Valid() && forall i :: 0 <= i < |regions| ==> Top(regions[i]) <= (pmm.highest + 1) * PAGE
    modifies pmm`usedFrames, pmm`used, pmm.bitmap
    ensures pmm.Valid()
    ensures forall f: nat :: f in pmm.used <==> f in old(pmm.used) && !Available(regions, f)
  {
    for i := 0 to |regions|
      invariant pmm.Valid()
      invariant forall f: nat :: f in pmm.used <==> f in old(pmm.used) && !Available(regions[..i], f)
    {
      ghost var before := pmm.used;
      if regions[i].usable {
        var start := AlignUp(regions[i].base, PAGE) / PAGE;
        var end := Top(regions[i]) / PAGE;
        FreeRange(pmm, start, end);
      }
      forall f: nat ensures Available(regions[..i + 1], f) <==> Available(regions[..i], f) || (regions[i].usable && Inside(regions[i], f)) {
        OneMore(regions, i, f);
        InsideFrames(regions[i], f);
      }
    }
    assert regions[..|regions|] == regions;
  }

  lemma OneMore(regions: seq<Region>, i: nat, f: nat)
    requires i < |regions|
    ensures Available(regions[..i + 1], f) <==> Available(regions[..i], f) || (regions[i].usable && Inside(regions[i], f))
  {
    if Available(regions[..i], f) {
      var j :| 0 <= j < i && regions[..i][j].usable && Inside(regions[..i][j], f);
      assert regions[..i + 1][j] == regions[..i][j];
    }
    if regions[i].usable && Inside(regions[i], f) {
      assert regions[..i + 1][i] == regions[i];
    }
  }

  function TotalFrames(highest: nat): nat {
    AlignUp(highest, PAGE) / PAGE
  }

  function BitmapWords(highest: nat): nat {
    AlignUp(TotalFrames(highest), 64) / 64
  }

  /** A bitmap that fits covers all frames and lies below the highest address. */
  lemma Sizes(r: Region, highest: nat)
    requires Top(r) <= highest <= ADDRESS_LIMIT && Fits(r, BitmapWords(highest) * 8)
    ensures 0 < TotalFrames(highest) <= 64 * BitmapWords(highest) && TotalFrames(highest) <= ADDRESS_LIMIT / PAGE
    ensures Spot(r) % PAGE == 0 && highest <= TotalFrames(highest) * PAGE
    ensures Spot(r) / PAGE <= AlignUp(Spot(r) + BitmapWords(highest) * 8, PAGE) / PAGE <= TotalFrames(highest)
  {}

  /** A frame is free exactly when it lies wholly inside some usable region and holds no byte of the bitmap. */
  ghost predicate Ready(regions: seq<Region>, highest: nat, place: nat, used: set<nat>) {
    && (forall f :: f in used ==> f < TotalFrames(highest))
    && (forall f: nat :: f < TotalFrames(highest) ==>
          (f !in used <==> Available(regions, f) && !HoldsBitmap(place, BitmapWords(highest) * 8, f)))
  }

  /** Starts with a bitmap of ones: every frame is used. */
  method MarkAll(pmm: Pmm, words: nat)
    requires pmm.highest < 64 * words && forall f: nat :: f <= pmm.highest ==> f in pmm.ram
    modifies pmm
    ensures pmm.Valid() && pmm.highest == old(pmm.highest) && pmm.ram == old(pmm.ram) && fresh(pmm.bitmap)
    ensures forall f: nat :: f in pmm.used <==> f <= pmm.highest
  {
    pmm.bitmap := new Word[words](_ => AllOnes());
    pmm.usedFrames := pmm.highest + 1;
    pmm.used := UpTo(pmm.highest + 1);
  }

  /** Marks every frame used, frees the frames wholly inside usable regions, and takes those of the bitmap itself. */
  method FillBitmap(pmm: Pmm, regions: seq<Region>, highest: nat, place: nat)
    requires pmm.highest + 1 == TotalFrames(highest) <= 64 * BitmapWords(highest) && place % PAGE == 0
    requires forall i :: 0 <= i < |regions| ==> Top(regions[i]) <= TotalFrames(highest) * PAGE
    requires place / PAGE <= AlignUp(place + BitmapWords(highest) * 8, PAGE) / PAGE <= TotalFrames(highest)
    requires forall f: nat :: f <= pmm.highest ==> f in pmm.ram
    modifies pmm
    ensures pmm.Valid() && pmm.highest == old(pmm.highest) && pmm.ram == old(pmm.ram)
    ensures Ready(regions, highest, place, pmm.used)
  {
    var words := BitmapWords(highest);
    forall f: nat ensures place / PAGE <= f < AlignUp(place + words * 8, PAGE) / PAGE <==> HoldsBitmap(place, words * 8, f) {
      BitmapFrames(place, words * 8, f);
    }
    hide AlignUp, HoldsBitmap, Available, TotalFrames, BitmapWords, Records;
    MarkAll(pmm, words);
    FreeUsable(pmm, regions);
    TakeRange(pmm, place / PAGE, AlignUp(place + words * 8, PAGE) / PAGE);
  }

  /** Builds the bitmap; false is the panic when no region can hold it. */
  method InitFrames(pmm: Pmm, regions: seq<Region>) returns (ok: bool, highest: nat, place: nat)
    requires Physical(regions) && forall f: nat :: f < ADDRESS_LIMIT / PAGE ==> f in pmm.ram
    modifies pmm
    ensures forall i :: 0 <= i < |regions| ==> Top(regions[i]) <= highest
    ensures highest == 0 || exists i :: 0 <= i < |regions| && Top(regions[i]) == highest
    ensures ok <==> exists i :: 0 <= i < |regions| && Fits(regions[i], BitmapWords(highest) * 8)
    ensures ok ==> place >= MIB && pmm.Valid() && pmm.highest + 1 == TotalFrames(highest) && pmm.ram == old(pmm.ram)
    ensures ok ==> exists i :: 0 <= i < |regions| && Fits(regions[i], BitmapWords(highest) * 8) && place == Spot(regions[i])
    ensures ok ==> Ready(regions, highest, place, pmm.used)
  {
    hide Available, HoldsBitmap;
    highest := HighestAddress(regions);
    place := 0;
    var total := AlignUp(highest, PAGE) / PAGE;
    pmm.highest := if total == 0 then 0xFFFF_FFFF_FFFF_FFFF else total - 1;
    var words := AlignUp(total, 64) / 64;
    var spot := PlaceBitmap(regions, words * 8);
    if spot == None {
      return false, highest, place;
    }
    place := spot.value;
    ghost var i :| 0 <= i < |regions| && Fits(regions[i], words * 8) && place == Spot(regions[i]);
    Sizes(regions[i], highest);
    assert place >= MIB;
    hide AlignUp, Spot, Fits, TotalFrames, BitmapWords;
    FillBitmap(pmm, regions, highest, place);
    return true, highest, place;
  }

  /** A memory map without memory always panics. */
  lemma NoMemory(regions: seq<Region>, bytes: nat)
    requires forall i :: 0 <= i < |regions| ==> Top(regions[i]) == 0
    ensures forall i :: 0 <= i < |regions| ==> !Fits(regions[i], bytes)
  {
    forall i | 0 <= i < |regions| ensures !Fits(regions[i], bytes) {
      assert Top(regions[i]) == 0;
    }
  }
}
