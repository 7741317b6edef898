/**
 From the initialised frame bitmap of kernel/memory.c to its runs: the state that memory_init leaves meets the invariant
 of the memory system, and the frames that hold the bitmap are never anything else.
 */
module MemoryBoot {
  import opened PageTables
  import opened HeapRequests
  import opened MemoryRuns
  import MemoryInit

  /** The frame shares a byte with the region. */
  predicate Touches(r: MemoryInit.Region, f: nat) {
    r.base < (f + 1) * MemoryInit.PAGE && f * MemoryInit.PAGE < MemoryInit.Top(r)
  }

  /** What the boot loader leaves: tables that form a tree without empty ones, in frames of memory that share no byte with
      a usable region. */
  ghost predicate Adopted(regions: seq<MemoryInit.Region>, highest: nat, ram: Ram, root: nat) {
    && Tree(ram, root, TableFrames(ram, root)) && Occupied(ram, root, Root)
    && forall f :: f in TableFrames(ram, root) ==>
         && f < MemoryInit.TotalFrames(highest)
         && forall i :: 0 <= i < |regions| && regions[i].usable ==> !Touches(regions[i], f)
  }

  ghost predicate Placed(regions: seq<MemoryInit.Region>, highest: nat, place: nat) {
    && (forall i :: 0 <= i < |regions| ==> MemoryInit.Top(regions[i]) <= highest)
    && exists i ::
         && 0 <= i < |regions| && MemoryInit.Fits(regions[i], MemoryInit.BitmapWords(highest) * 8)
         && place == MemoryInit.Spot(regions[i])
  }

  lemma InsideTouches(r: MemoryInit.Region, f: nat)
    requires MemoryInit.Inside(r, f)
    ensures Touches(r, f)
  {}

  /** A frame that holds a byte of the bitmap touches the region the bitmap was placed in, and is a frame of memory. */
  lemma BitmapTouches(r: MemoryInit.Region, highest: nat, f: nat)
    requires MemoryInit.Top(r) <= highest && MemoryInit.Fits(r, MemoryInit.BitmapWords(highest) * 8)
    requires MemoryInit.HoldsBitmap(MemoryInit.Spot(r), MemoryInit.BitmapWords(highest) * 8, f)
    ensures Touches(r, f) && f < MemoryInit.TotalFrames(highest)
  {}

  /** The bitmap lies above 1 MiB. */
  lemma BitmapAbove(r: MemoryInit.Region, bytes: nat)
    ensures !MemoryInit.HoldsBitmap(MemoryInit.Spot(r), bytes, 0)
  {}

  /** The bitmap that initialisation leaves has the tables and itself marked, so that the memory system starts in a state
      that meets its invariant, and all of the bitmap is reserved. */
  lemma InitInv(regions: seq<MemoryInit.Region>, highest: nat, place: nat, used: set<nat>, ram: Ram, root: nat)
    requires Placed(regions, highest, place) && MemoryInit.Ready(regions, highest, place, used) && Adopted(regions, highest, ram, root)
    ensures Inv(root, used - TableFrames(ram, root), World(ram, used, {}, [], [], HEAP_START))
    ensures forall f: nat :: MemoryInit.HoldsBitmap(place, MemoryInit.BitmapWords(highest) * 8, f) ==>
              f in used - TableFrames(ram, root)
  {
    var bytes := MemoryInit.BitmapWords(highest) * 8;
    hide Tree, Occupied, TableFrames, Inv, Mapping, TableAt;
    var i :| 0 <= i < |regions| && MemoryInit.Fits(regions[i], bytes) && place == MemoryInit.Spot(regions[i]);
    forall f: nat | MemoryInit.HoldsBitmap(place, bytes, f) ensures f in used && f !in TableFrames(ram, root) {
      BitmapTouches(regions[i], highest, f);
    }
    hide MemoryInit.Spot, MemoryInit.Fits, MemoryInit.BitmapWords, MemoryInit.TotalFrames;
    forall f | f in TableFrames(ram, root) ensures f in used {
      if MemoryInit.Available(regions, f) {
        var j :| 0 <= j < |regions| && regions[j].usable && MemoryInit.Inside(regions[j], f);
        InsideTouches(regions[j], f);
      }
    }
    TablesInRam(ram, root);
    DataKeepsTree(ram, ram, root, TableFrames(ram, root), used);
    BootInv(root, ram, used);
  }

  /** Frame 0, whose address is the failure code, is reserved exactly when no usable region covers it. */
  lemma ZeroReserved(regions: seq<MemoryInit.Region>, highest: nat, place: nat, used: set<nat>)
    requires Placed(regions, highest, place) && MemoryInit.Ready(regions, highest, place, used)
    ensures 0 in used <==> !MemoryInit.Available(regions, 0)
  {
    var bytes := MemoryInit.BitmapWords(highest) * 8;
    var i :| 0 <= i < |regions| && MemoryInit.Fits(regions[i], bytes) && place == MemoryInit.Spot(regions[i]);
    BitmapAbove(regions[i], bytes);
    assert MemoryInit.TotalFrames(highest) > 0 by { assert highest >= MemoryInit.Top(regions[i]); }
    hide MemoryInit.Available, MemoryInit.HoldsBitmap, MemoryInit.BitmapWords;
  }

  /** Whatever runs after boot, no frame of a client, of the heap or of a table ever holds a byte of the bitmap. */
  lemma BitmapForever(regions: seq<MemoryInit.Region>, highest: nat, place: nat, used: set<nat>, ram: Ram, root: nat,
                      ws: seq<World>, ops: seq<Op>, k: nat, f: nat)
    requires Placed(regions, highest, place) && MemoryInit.Ready(regions, highest, place, used) && Adopted(regions, highest, ram, root)
    requires Run(root, ws, ops) && ws[0] == World(ram, used, {}, [], [], HEAP_START) && k <= |ops|
    requires MemoryInit.HoldsBitmap(place, MemoryInit.BitmapWords(highest) * 8, f)
    ensures f in ws[k].used && f !in ws[k].clients && f !in ws[k].frames && f !in TableFrames(ws[k].ram, root)
  {
    InitInv(regions, highest, place, used, ram, root);
    var reserved := used - TableFrames(ram, root);
    hide Inv, Tree, Occupied, TableFrames, Mapping, MemoryInit.Ready, Adopted, Placed, MemoryInit.BitmapWords;
    ReservedForever(root, reserved, ws, ops, k);
  }
}
