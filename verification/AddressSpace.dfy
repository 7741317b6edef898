/**
 The virtual memory manager of kernel/memory.c: mapping and unmapping 4 KiB pages in the
 page tables of one address space. Tables are allocated from, and given back to, the
 physical memory manager.
 */
module AddressSpace {
  import opened PageTables
  import opened PhysicalMemory
  import Locks
  import opened Wrappers

  // Frame numbers take bits 12..51 of an entry, so physical addresses stay below 2^52.
  const FRAME_LIMIT := 0x100_0000_0000
  const PTE_PRESENT: bv64 := 1
  const PTE_ADDR_MASK: bv64 := 0x000F_FFFF_FFFF_F000

  /** Done; failed because frame 0 was handed out, whose address is the failure code; or halted for lack of memory. */
  datatype Outcome = Done | Failed | Panic

  /** The page number the tables are indexed by: bits 12..47 of the address. */
  function PageNumber(virt: nat): (n: nat)
    ensures n < PAGES
  {
    virt / 0x1000 % PAGES
  }

  /** The leaf that mapping a frame with the given flag word creates. */
  function LeafOf(frame: nat, flags: bv64): Leaf {
    Leaf(frame % FRAME_LIMIT, flags & !PTE_ADDR_MASK & !PTE_PRESENT)
  }

  lemma Shifts(virt: nat)
    ensures virt / 0x20_0000 == virt / 0x1000 / 512
    ensures virt / 0x4000_0000 == virt / 0x20_0000 / 512
    ensures virt / 0x80_0000_0000 == virt / 0x4000_0000 / 512
  {}

  lemma PageIndices(x: nat)
    ensures var n := x % PAGES;
            && n % 512 == x % 512 && n / 512 % 512 == x / 512 % 512
            && n / 512 / 512 % 512 == x / 512 / 512 % 512
            && n / 512 / 512 / 512 == x / 512 / 512 / 512 % 512
  {
    var q, n := x / PAGES, x % PAGES;
    assert x / 512 == q * 0x800_0000 + n / 512;
    assert x / 512 / 512 == q * 0x4_0000 + n / 512 / 512;
    assert x / 512 / 512 / 512 == q * 512 + n / 512 / 512 / 512;
  }

  /** Shifting the address and masking nine bits gives the indices of its page number. */
  lemma AddressIndices(virt: nat)
    ensures PathOf(PageNumber(virt)) ==
            Child(Child(Child(Root, virt / 0x80_0000_0000 % 512), virt / 0x4000_0000 % 512), virt / 0x20_0000 % 512)
    ensures SlotOf(PageNumber(virt)) == virt / 0x1000 % 512
  {
    PageIndices(virt / 0x1000);
    Shifts(virt);
  }

  /** What allocating tables on the way to a page does: the mapping stays, the newly used frames
      are the new tables, and every frame in use that is not a table keeps its contents. */
  ghost predicate TablesAdded(ram: Ram, used: set<nat>, ram': Ram, used': set<nat>, root: nat) {
    && Mapping(ram', root) == Mapping(ram, root)
    && TableFrames(ram, root) <= used <= used'
    && TableFrames(ram', root) == TableFrames(ram, root) + (used' - used)
    && DataKept(ram, used, ram', root)
  }

  /** Frames in use that hold no table keep their contents. */
  ghost predicate DataKept(ram: Ram, used: set<nat>, ram': Ram, root: nat) {
    && ram.Keys <= ram'.Keys
    && forall f :: f in used && f in ram && f !in TableFrames(ram, root) ==> ram'[f] == ram[f]
  }

  /** A walk given up because frame 0 was handed out: it stays used, and so do the tables linked so far. */
  ghost predicate GivenUp(ram: Ram, used: set<nat>, ram': Ram, used': set<nat>, root: nat) {
    && Mapping(ram', root) == Mapping(ram, root)
    && 0 !in used && used' == used + {0} + (TableFrames(ram', root) - TableFrames(ram, root))
    && TableFrames(ram, root) <= used && TableFrames(ram', root) - TableFrames(ram, root) !! used
    && DataKept(ram, used, ram', root)
  }

  lemma AddedNothing(ram: Ram, used: set<nat>, root: nat)
    requires TableFrames(ram, root) <= used
    ensures TablesAdded(ram, used, ram, used, root)
  {}

  lemma AddedTwice(ram: Ram, used: set<nat>, ram1: Ram, used1: set<nat>, ram2: Ram, used2: set<nat>, root: nat)
    requires TablesAdded(ram, used, ram1, used1, root) && TablesAdded(ram1, used1, ram2, used2, root)
    ensures TablesAdded(ram, used, ram2, used2, root)
  {
    assert used2 - used == (used1 - used) + (used2 - used1);
  }

  lemma LinkAdds(ram: Ram, root: nat, used: set<nat>, p: Path, t: nat, i: nat, g: nat)
    requires Tree(ram, root, used)
    requires IsPath(Child(p, i)) && TableAt(ram, root, p) == Some(t)
    requires !ram[t][i].present && g !in used
    ensures TablesAdded(ram, used, LinkTable(ram, t, i, g), used + {g}, root)
  {
    TablesUsed(ram, root, used);
    LinkKeepsMapping(ram, root, used, p, t, i, g);
    LinkAddsFrame(ram, root, used, p, t, i, g);
    assert (used + {g}) - used == {g};
    assert t in TableFrames(ram, root) by { assert IsTable(ram, root, t); }
  }

  /** Linking the frame g, fresh from the allocator, below entry i of the table at p, in a walk begun at ram0. */
  lemma LinkEffect(ram0: Ram, used0: set<nat>, ram: Ram, root: nat, used: set<nat>, p: Path, t: nat, i: nat, g: nat)
    requires Tree(ram, root, used) && TablesAdded(ram0, used0, ram, used, root)
    requires IsPath(Child(p, i)) && TableAt(ram, root, p) == Some(t)
    requires !ram[t][i].present && g !in used
    ensures var ram' := LinkTable(ram, t, i, g);
            && Tree(ram', root, used + {g}) && TableAt(ram', root, Child(p, i)) == Some(g)
            && TablesAdded(ram0, used0, ram', used + {g}, root)
            && (Occupied(ram, root, p) ==> Occupied(ram', root, Child(p, i)))
  {
    var ram' := LinkTable(ram, t, i, g);
    assert Tree(ram', root, used + {g}) && TableAt(ram', root, Child(p, i)) == Some(g) by {
      LinkKeepsTree(ram, root, used, p, t, i, g);
    }
    assert TablesAdded(ram0, used0, ram', used + {g}, root) by {
      LinkAdds(ram, root, used, p, t, i, g);
      AddedTwice(ram0, used0, ram, used, ram', used + {g}, root);
    }
    if Occupied(ram, root, p) {
      LinkKeepsOccupied(ram, root, used, p, t, i, g);
    }
  }

  lemma GiveUpEffect(ram0: Ram, used0: set<nat>, ram: Ram, root: nat, used: set<nat>)
    requires Tree(ram, root, used) && TablesAdded(ram0, used0, ram, used, root) && 0 !in used
    ensures var ram' := ram[0 := ZeroTable()];
            Tree(ram', root, used + {0}) && GivenUp(ram0, used0, ram', used + {0}, root)
  {
    var ram' := ram[0 := ZeroTable()];
    TablesUsed(ram, root, used);
    DataKeepsTree(ram, ram', root, used, used + {0});
  }

  /** A page mapped: one key of the mapping set, and the newly used frames are the new tables. */
  ghost predicate Mapped(ram: Ram, used: set<nat>, ram': Ram, used': set<nat>, root: nat, n: nat, leaf: Leaf) {
    && Mapping(ram', root) == Mapping(ram, root)[n := leaf]
    && used <= used'
    && TableFrames(ram', root) == TableFrames(ram, root) + (used' - used)
    && DataKept(ram, used, ram', root)
  }

  /** A page unmapped: one key of the mapping gone, and the frames given back were tables and are tables no more. */
  ghost predicate Unmapped(ram: Ram, used: set<nat>, ram': Ram, used': set<nat>, root: nat, n: nat) {
    && Mapping(ram', root) == Mapping(ram, root) - {n}
    && used' <= used && used - used' <= TableFrames(ram, root)
    && TableFrames(ram', root) == TableFrames(ram, root) - (used - used')
    && DataKept(ram, used, ram', root)
  }

  lemma LeafEffect(ram: Ram, used: set<nat>, root: nat, n: nat, t: nat, e: Entry)
    requires Tree(ram, root, used) && n < PAGES && TableAt(ram, root, PathOf(n)) == Some(t)
    ensures t in ram
    ensures var ram' := SetEntry(ram, t, SlotOf(n), e);
            && Tree(ram', root, used)
            && (forall q :: IsPath(q) ==> TableAt(ram', root, q) == TableAt(ram, root, q))
            && (e.present ==> Mapped(ram, used, ram', used, root, n, Leaf(e.frame, e.flags)))
            && (!e.present ==> Unmapped(ram, used, ram', used, root, n))
            && (Occupied(ram, root, PathOf(n)) ==>
                  Occupied(ram', root, PathOf(n)) && (HasPresent(ram'[t]) ==> Occupied(ram', root, Root)))
  {
    PathIsPath(n);
    LeafKeepsTree(ram, root, used, PathOf(n), t, SlotOf(n), e);
    LeafPatchesMapping(ram, root, used, n, t, e);
    LeafKeepsFrames(ram, root, used, PathOf(n), t, SlotOf(n), e);
    assert used - used == {};
    assert t in TableFrames(ram, root) by { assert IsTable(ram, root, t); }
    if Occupied(ram, root, PathOf(n)) {
      LeafKeepsOccupied(ram, root, used, PathOf(n), t, SlotOf(n), e);
    }
  }

  lemma AbsentEffect(ram: Ram, used: set<nat>, root: nat, n: nat)
    requires n !in Mapping(ram, root)
    ensures Unmapped(ram, used, ram, used, root, n)
  {
    assert Mapping(ram, root) - {n} == Mapping(ram, root);
    assert used - used == {};
  }

  lemma MapAdds(ram: Ram, used: set<nat>, ram1: Ram, used1: set<nat>, ram2: Ram, root: nat, n: nat, leaf: Leaf)
    requires TablesAdded(ram, used, ram1, used1, root) && Mapped(ram1, used1, ram2, used1, root, n, leaf)
    ensures Mapped(ram, used, ram2, used1, root, n, leaf)
  {}

  /** Writing the leaf entry of page n at the end of a walk begun at ram0. */
  lemma MapEffect(ram0: Ram, used0: set<nat>, ram: Ram, used: set<nat>, root: nat, n: nat, t: nat, leaf: Leaf)
    requires Tree(ram, root, used) && n < PAGES && TableAt(ram, root, PathOf(n)) == Some(t)
    requires TablesAdded(ram0, used0, ram, used, root)
    ensures t in ram
    ensures var ram' := SetEntry(ram, t, SlotOf(n), Entry(true, leaf.frame, leaf.flags));
            && Tree(ram', root, used) && Mapped(ram0, used0, ram', used, root, n, leaf)
            && (Occupied(ram, root, PathOf(n)) ==> Occupied(ram', root, Root))
  {
    var e := Entry(true, leaf.frame, leaf.flags);
    LeafEffect(ram, used, root, n, t, e);
    var ram' := SetEntry(ram, t, SlotOf(n), e);
    assert HasPresent(ram'[t]) by { assert ram'[t][SlotOf(n)].present; }
    MapAdds(ram0, used0, ram, used, ram', root, n, leaf);
  }

  lemma UnlinkRemoves(ram: Ram, used: set<nat>, root: nat, p: Path, t: nat, i: nat)
    requires Tree(ram, root, used) && IsPath(Child(p, i)) && TableAt(ram, root, p) == Some(t)
    requires ram[t][i].present && ram[t][i].frame in ram && !HasPresent(ram[ram[t][i].frame])
    ensures var ram', g := SetEntry(ram, t, i, ABSENT), ram[t][i].frame;
            && Mapping(ram', root) == Mapping(ram, root)
            && g in TableFrames(ram, root) && g in used
            && TableFrames(ram', root) == TableFrames(ram, root) - {g}
            && DataKept(ram, used, ram', root)
  {
    TablesUsed(ram, root, used);
    UnlinkKeepsMapping(ram, root, used, p, t, i);
    UnlinkRemovesFrame(ram, root, used, p, t, i);
    assert t in TableFrames(ram, root) by { assert IsTable(ram, root, t); }
  }

  lemma RemovedTwice(ram0: Ram, used0: set<nat>, ram: Ram, used: set<nat>, ram': Ram, root: nat, n: nat, g: nat)
    requires Unmapped(ram0, used0, ram, used, root, n) && TableFrames(ram0, root) <= used0
    requires Mapping(ram', root) == Mapping(ram, root) && DataKept(ram, used, ram', root)
    requires g in used && g in TableFrames(ram, root) && TableFrames(ram', root) == TableFrames(ram, root) - {g}
    ensures Unmapped(ram0, used0, ram', used - {g}, root, n)
  {
    hide Mapping, TableFrames;
    assert used0 - (used - {g}) == (used0 - used) + {g};
  }

  /** Unlinking an emptied table and freeing its frame, after the unmapping of page n begun at ram0. */
  lemma UnlinkEffect(ram0: Ram, used0: set<nat>, ram: Ram, used: set<nat>, root: nat, n: nat, p: Path, t: nat, i: nat)
    requires Tree(ram, root, used) && IsPath(Child(p, i)) && TableAt(ram, root, p) == Some(t)
    requires ram[t][i].present && ram[t][i].frame in ram && !HasPresent(ram[ram[t][i].frame])
    requires Unmapped(ram0, used0, ram, used, root, n) && TableFrames(ram0, root) <= used0
    ensures var ram', g := SetEntry(ram, t, i, ABSENT), ram[t][i].frame;
            && g in used && Tree(ram', root, used - {g})
            && (forall q :: IsPath(q) && q != Child(p, i) ==> TableAt(ram', root, q) == TableAt(ram, root, q))
            && Unmapped(ram0, used0, ram', used - {g}, root, n)
            && (Occupied(ram, root, Child(p, i)) ==> Occupied(ram', root, p))
  {
    UnlinkKeepsTree(ram, root, used, p, t, i);
    if Occupied(ram, root, Child(p, i)) {
      UnlinkKeepsOccupied(ram, root, used, p, t, i);
    }
    UnlinkRemoves(ram, used, root, p, t, i);
    RemovedTwice(ram0, used0, ram, used, SetEntry(ram, t, i, ABSENT), root, n, ram[t][i].frame);
  }

  /** The scan for a present entry. */
  method IsTableEmpty(t: Table) returns (empty: bool)
    ensures empty <==> !HasPresent(t)
  {
    for i := 0 to ENTRIES
      invariant forall j :: 0 <= j < i ==> !t[j].present
    {
      if t[i].present {
        return false;
      }
    }
    return true;
  }

  class Space {
    const pmm: Pmm
    const root: nat

    /** Adopts the tables the boot loader left at the given PML4 frame. */
    constructor (pmm: Pmm, root: nat)
      ensures this.pmm == pmm && this.root == root
    {
      this.pmm := pmm;
      this.root := root;
    }

    ghost predicate Valid()
      reads this, pmm, pmm.bitmap
    {
      && pmm.Valid() && pmm.highest < FRAME_LIMIT
      && Tree(pmm.ram, root, pmm.used)
    }

    ghost function Pages(): map<nat, Leaf>
      reads this, pmm
    {
      Mapping(pmm.ram, root)
    }

    ghost function Tables(): set<nat>
      reads this, pmm
    {
      TableFrames(pmm.ram, root)
    }

    /** A frame taken from the physical memory manager to hold data: no table and no mapping changes. */
    method AllocDataFrame(ghost log: Locks.Log) returns (f: Option<nat>)
      requires Valid() && log.Below(Locks.PMM)
      modifies pmm`usedFrames, pmm`used, pmm`lastAllocated, pmm`ram, pmm.bitmap, log
      ensures Valid() && log.Valid() && log.held == old(log.held)
      ensures f == None ==> pmm.used == old(pmm.used) && pmm.Exhausted()
      ensures f.Some? ==>
                && f.value !in old(pmm.used) && pmm.used == old(pmm.used) + {f.value} && f.value <= pmm.highest
                && pmm.ram == old(pmm.ram)[f.value := ZeroTable()]
                && Pages() == old(Pages()) && Tables() == old(Tables()) && Tables() <= old(pmm.used)
                && (Occupied(old(pmm.ram), root, Root) ==> Occupied(pmm.ram, root, Root))
    {
      ghost var ram, used := pmm.ram, pmm.used;
      TablesUsed(ram, root, used);
      f := pmm.AllocFrame(log);
      DataKeepsTree(ram, pmm.ram, root, used, pmm.used);
    }

    /** The table below entry i of t, allocated and linked if there is none. The ghost ram0 and used0
        are the state before the walk this step belongs to. */
    method NextLevel(ghost log: Locks.Log, ghost ram0: Ram, ghost used0: set<nat>, ghost p: Path, t: nat, i: nat)
      returns (r: Outcome, next: nat)
      requires log.Below(Locks.PMM)
      requires Valid() && IsPath(Child(p, i)) && TableAt(pmm.ram, root, p) == Some(t)
      requires TablesAdded(ram0, used0, pmm.ram, pmm.used, root)
      modifies pmm`usedFrames, pmm`used, pmm`lastAllocated, pmm`ram, pmm.bitmap, log
      ensures Valid() && log.Valid() && log.held == old(log.held)
      ensures r == Done ==>
                && TableAt(pmm.ram, root, Child(p, i)) == Some(next)
                && TablesAdded(ram0, used0, pmm.ram, pmm.used, root)
                && (Occupied(old(pmm.ram), root, p) ==> Occupied(pmm.ram, root, Child(p, i)))
      ensures r == Failed ==> GivenUp(ram0, used0, pmm.ram, pmm.used, root)
      ensures r == Panic ==>
                && TablesAdded(ram0, used0, pmm.ram, pmm.used, root)
                && pmm.Exhausted()
    {
      hide Locks.Follow, Mapping, TableFrames, Tree, Occupied, TablesAdded, DataKept;
      ghost var ram, used := pmm.ram, pmm.used;
      TreeHas(ram, root, used, p);
      if pmm.ram[t][i].present {
        if Occupied(ram, root, p) {
          assert HasPresent(pmm.ram[t]);
          OccupiedAgain(ram, root, p, t);
          OccupiedBut(ram, root, Child(p, i));
        }
        return Done, pmm.ram[t][i].frame;
      }
      var g := pmm.AllocFrame(log);
      if g == None {
        return Panic, 0;
      }
      if g.value == 0 {
        GiveUpEffect(ram0, used0, ram, root, used);
        return Failed, 0;
      }
      next := g.value;
      LinkEffect(ram0, used0, ram, root, used, p, t, i, next);
      pmm.Store(t, i, Entry(true, next, PTE_WRITE));
      assert pmm.ram == LinkTable(ram, t, i, next);
      return Done, next;
    }

    /** The three steps from the root to the table holding the leaf entry of virt. A step that fails gives up the lock of
        the address space. */
    method WalkTo(ghost log: Locks.Log, virt: nat) returns (r: Outcome, pt: nat)
      requires Valid() && log.Below(Locks.PMM) && log.held != [] && log.held[|log.held| - 1] == Locks.SPACE
      modifies pmm`usedFrames, pmm`used, pmm`lastAllocated, pmm`ram, pmm.bitmap, log
      ensures Valid() && log.Valid()
      ensures log.held == if r == Failed then old(log.held)[..|old(log.held)| - 1] else old(log.held)
      ensures r == Done ==>
                && TableAt(pmm.ram, root, PathOf(PageNumber(virt))) == Some(pt)
                && TablesAdded(old(pmm.ram), old(pmm.used), pmm.ram, pmm.used, root)
                && (Occupied(old(pmm.ram), root, Root) ==> Occupied(pmm.ram, root, PathOf(PageNumber(virt))))
      ensures r == Failed ==> GivenUp(old(pmm.ram), old(pmm.used), pmm.ram, pmm.used, root)
      ensures r == Panic ==>
                && TablesAdded(old(pmm.ram), old(pmm.used), pmm.ram, pmm.used, root)
                && pmm.Exhausted()
    {
      hide Locks.Follow, Mapping, TableFrames, Tree, Occupied, PageNumber, TablesAdded, GivenUp;
      ghost var path := PathOf(PageNumber(virt));
      AddressIndices(virt);
      PathIsPath(PageNumber(virt));
      ParentPaths(path);
      ghost var ram, used := pmm.ram, pmm.used;
      TablesUsed(ram, root, used);
      AddedNothing(ram, used, root);
      assert TableAt(ram, root, Root) == Some(root);
      hide TableAt, IsPath, Level, PathOf;
      pt := 0;
      var pdpt, pd;
      r, pdpt := NextLevel(log, ram, used, Root, root, virt / 0x80_0000_0000 % 512);
      if r == Panic { return; }
      if r == Failed { log.Releases(Locks.SPACE); return; }
      r, pd := NextLevel(log, ram, used, path.parent.parent, pdpt, virt / 0x4000_0000 % 512);
      if r == Panic { return; }
      if r == Failed { log.Releases(Locks.SPACE); return; }
      r, pt := NextLevel(log, ram, used, path.parent, pd, virt / 0x20_0000 % 512);
      if r == Failed { log.Releases(Locks.SPACE); }
    }

    /** Maps the page of virt to a frame, allocating the tables on the way. A page already mapped is remapped. */
    method MapPage(ghost log: Locks.Log, virt: nat, frame: nat, flags: bv64) returns (r: Outcome)
      requires Valid() && log.Below(Locks.SPACE)
      modifies pmm`usedFrames, pmm`used, pmm`lastAllocated, pmm`ram, pmm.bitmap, log
      ensures Valid() && (r != Panic ==> log.Valid() && log.held == old(log.held))
      ensures r == Done ==>
                && Mapped(old(pmm.ram), old(pmm.used), pmm.ram, pmm.used, root, PageNumber(virt), LeafOf(frame, flags))
                && (Occupied(old(pmm.ram), root, Root) ==> Occupied(pmm.ram, root, Root))
      ensures r == Failed ==> GivenUp(old(pmm.ram), old(pmm.used), pmm.ram, pmm.used, root)
      ensures r == Panic ==>
                && TablesAdded(old(pmm.ram), old(pmm.used), pmm.ram, pmm.used, root)
                && pmm.Exhausted()
    {
      hide Locks.Follow, Mapping, TableFrames, Tree, Occupied, DataKept, PageNumber, HasPresent, SlotOf, PathOf;
      ghost var n := PageNumber(virt);
      ghost var ram, used := pmm.ram, pmm.used;
      log.Acquires(Locks.SPACE);
      var pt;
      r, pt := WalkTo(log, virt);
      if r != Done { return; }
      ghost var ram1, used1 := pmm.ram, pmm.used;
      var leaf := LeafOf(frame, flags);
      AddressIndices(virt);
      MapEffect(ram, used, ram1, used1, root, n, pt, leaf);
      pmm.Store(pt, virt / 0x1000 % 512, Entry(true, leaf.frame, leaf.flags));
      log.Releases(Locks.SPACE);
    }

    /** Gives back the table below entry i of t if it has no present entry left. */
    method Reclaim(ghost log: Locks.Log, ghost ram0: Ram, ghost used0: set<nat>, ghost n: nat, ghost p: Path, t: nat, i: nat)
      returns (freed: bool)
      requires log.Below(Locks.PMM)
      requires Valid() && IsPath(Child(p, i)) && TableAt(pmm.ram, root, p) == Some(t)
      requires t in pmm.ram && pmm.ram[t][i].present
      requires Unmapped(ram0, used0, pmm.ram, pmm.used, root, n) && TableFrames(ram0, root) <= used0
      requires Occupied(ram0, root, Root) ==> Occupied(pmm.ram, root, Child(p, i))
      modifies pmm`usedFrames, pmm`used, pmm`ram, pmm.bitmap, log
      ensures Valid() && log.Valid() && log.held == old(log.held)
      ensures forall q :: IsPath(q) && q != Child(p, i) ==> TableAt(pmm.ram, root, q) == old(TableAt(pmm.ram, root, q))
      ensures Unmapped(ram0, used0, pmm.ram, pmm.used, root, n)
      ensures Occupied(ram0, root, Root) ==> Occupied(pmm.ram, root, if freed then p else Root)
    {
      hide Locks.Follow, Mapping, TableFrames, Tree, Occupied, Unmapped, DataKept, HasPresent;
      ghost var ram, used := pmm.ram, pmm.used;
      var child := pmm.ram[t][i].frame;
      assert TableAt(ram, root, Child(p, i)) == Some(child);
      TreeHas(ram, root, used, Child(p, i));
      var empty := IsTableEmpty(pmm.ram[child]);
      if !empty {
        if Occupied(ram0, root, Root) {
          OccupiedAgain(ram, root, Child(p, i), child);
        }
        return false;
      }
      UnlinkEffect(ram0, used0, ram, used, root, n, p, t, i);
      pmm.Store(t, i, ABSENT);
      var ok := pmm.FreeFrame(log, child);
      assert ok;
      return true;
    }

    /** The read-only walk to the leaf entry of virt, and the tables it goes through. An absent entry on the way gives up
        the lock of the address space. */
    method FindLeaf(ghost log: Locks.Log, virt: nat) returns (found: bool, pdpt: nat, pd: nat, pt: nat)
      requires Valid() && log.Valid() && log.held != [] && log.held[|log.held| - 1] == Locks.SPACE
      modifies log
      ensures log.Valid() && log.held == if found then old(log.held) else old(log.held)[..|old(log.held)| - 1]
      ensures found <==> PageNumber(virt) in Pages()
      ensures var path := PathOf(PageNumber(virt));
              found ==>
                && TableAt(pmm.ram, root, path.parent.parent) == Some(pdpt)
                && TableAt(pmm.ram, root, path.parent) == Some(pd)
                && TableAt(pmm.ram, root, path) == Some(pt)
    {
      hide Locks.Follow, Mapping, PageNumber, SlotOf, IsPath, Level, HasPresent;
      ghost var path := PathOf(PageNumber(virt));
      AddressIndices(virt);
      PathIsPath(PageNumber(virt));
      ParentPaths(path);
      MappingHas(pmm.ram, root, PageNumber(virt));
      pdpt, pd, pt := 0, 0, 0;
      assert TableAt(pmm.ram, root, Root) == Some(root);
      var pml4e := pmm.ram[root][virt / 0x80_0000_0000 % 512];
      if !pml4e.present { log.Releases(Locks.SPACE); return false, pdpt, pd, pt; }
      pdpt := pml4e.frame;
      assert TableAt(pmm.ram, root, path.parent.parent) == Some(pdpt);
      var pdpte := pmm.ram[pdpt][virt / 0x4000_0000 % 512];
      if !pdpte.present { log.Releases(Locks.SPACE); return false, pdpt, pd, pt; }
      pd := pdpte.frame;
      assert TableAt(pmm.ram, root, path.parent) == Some(pd);
      var pde := pmm.ram[pd][virt / 0x20_0000 % 512];
      if !pde.present { log.Releases(Locks.SPACE); return false, pdpt, pd, pt; }
      pt := pde.frame;
      assert TableAt(pmm.ram, root, path) == Some(pt);
      var pte := pmm.ram[pt][virt / 0x1000 % 512];
      if !pte.present { log.Releases(Locks.SPACE); return false, pdpt, pd, pt; }
      return true, pdpt, pd, pt;
    }

    /** Gives back the tables above page n that its unmapping has emptied, lowest first. */
    method ReclaimTables(ghost log: Locks.Log, ghost ram0: Ram, ghost used0: set<nat>, virt: nat, pdpt: nat, pd: nat)
      requires Valid() && log.Below(Locks.PMM)
      requires var path := PathOf(PageNumber(virt));
               && TableAt(pmm.ram, root, path.parent.parent) == Some(pdpt)
               && TableAt(pmm.ram, root, path.parent) == Some(pd)
               && TableAt(pmm.ram, root, path).Some?
               && (Occupied(ram0, root, Root) ==> Occupied(pmm.ram, root, path))
      requires Unmapped(ram0, used0, pmm.ram, pmm.used, root, PageNumber(virt)) && TableFrames(ram0, root) <= used0
      modifies pmm`usedFrames, pmm`used, pmm`ram, pmm.bitmap, log
      ensures Valid() && log.Valid() && log.held == old(log.held)
      ensures Unmapped(ram0, used0, pmm.ram, pmm.used, root, PageNumber(virt))
      ensures Occupied(ram0, root, Root) ==> Occupied(pmm.ram, root, Root)
    {
      hide Locks.Follow, Mapping, TableFrames, Tree, Occupied, DataKept, Unmapped;
      ghost var n := PageNumber(virt);
      ghost var path := PathOf(n);
      AddressIndices(virt);
      PathIsPath(n);
      var freed := Reclaim(log, ram0, used0, n, path.parent, pd, virt / 0x20_0000 % 512);
      if freed {
        assert TableAt(pmm.ram, root, path.parent) == Some(pd);
        freed := Reclaim(log, ram0, used0, n, path.parent.parent, pdpt, virt / 0x4000_0000 % 512);
        if freed {
          assert TableAt(pmm.ram, root, path.parent.parent) == Some(pdpt);
          freed := Reclaim(log, ram0, used0, n, Root, root, virt / 0x80_0000_0000 % 512);
        }
      }
    }

    /** Unmaps the page of virt and gives back the tables this empties. Returns the frame it was mapped to, 0 if none.
        No call of FreeFrame in it panics. */
    method UnmapPage(ghost log: Locks.Log, virt: nat) returns (frame: nat)
      requires Valid() && log.Below(Locks.SPACE)
      modifies pmm`usedFrames, pmm`used, pmm`ram, pmm.bitmap, log
      ensures Valid() && log.Valid() && log.held == old(log.held)
      ensures frame == (if PageNumber(virt) in old(Pages()) then old(Pages())[PageNumber(virt)].frame else 0)
      ensures Unmapped(old(pmm.ram), old(pmm.used), pmm.ram, pmm.used, root, PageNumber(virt))
      ensures Occupied(old(pmm.ram), root, Root) ==> Occupied(pmm.ram, root, Root)
    {
      hide Locks.Follow, Mapping, TableFrames, Tree, Occupied, DataKept, PageNumber, SlotOf, PathOf, TableAt, IsPath, Level, HasPresent;
      ghost var n := PageNumber(virt);
      ghost var ram, used := pmm.ram, pmm.used;
      MappingHas(ram, root, n);
      log.Acquires(Locks.SPACE);
      var found, pdpt, pd, pt := FindLeaf(log, virt);
      if !found {
        AbsentEffect(ram, used, root, n);
        return 0;
      }
      AddressIndices(virt);
      TablesUsed(ram, root, used);
      LeafEffect(ram, used, root, n, pt, ABSENT);
      PathIsPath(n);
      ParentPaths(PathOf(n));
      if Occupied(ram, root, Root) {
        OccupiedBut(ram, root, PathOf(n));
      }
      TranslateAt(ram, root, n, pt);
      frame := pmm.ram[pt][virt / 0x1000 % 512].frame;
      pmm.Store(pt, virt / 0x1000 % 512, ABSENT);
      ReclaimTables(log, ram, used, virt, pdpt, pd);
      log.Releases(Locks.SPACE);
    }
  }
}
