/**
 The four-level x86-64 page table of kernel/memory.c as values: the contents of
 physical frames, the walk through them, and the effect of the three writes the
 kernel performs (link a fresh table, unlink an empty table, write a leaf entry).
 */
module PageTables {
  import opened Wrappers

  const ENTRIES := 512
  // Page numbers are bits 12..47 of a virtual address.
  const PAGES := 0x10_0000_0000

  /** A table entry: the present bit, the frame number (bits 12..51) and the other bits in place. */
  datatype Entry = Entry(present: bool, frame: nat, flags: bv64)

  /** What a mapped page translates to. */
  datatype Leaf = Leaf(frame: nat, flags: bv64)

  const ABSENT := Entry(false, 0, 0)
  const PTE_WRITE: bv64 := 0x2
  const PTE_NX: bv64 := 0x8000_0000_0000_0000

  type Table = t: seq<Entry> | |t| == ENTRIES witness seq(ENTRIES, _ => ABSENT)

  function ZeroTable(): Table {
    seq(ENTRIES, _ => ABSENT)
  }

  /** The contents of physical memory, frame by frame, read as tables. */
  type Ram = map<nat, Table>

  /** The way from the root to a table. Leaf entries are not tables, so a path has at most three steps. */
  datatype Path = Root | Child(parent: Path, index: nat)

  ghost function Level(p: Path): nat {
    match p
    case Root => 0
    case Child(q, _) => Level(q) + 1
  }

  ghost predicate IsPath(p: Path) {
    match p
    case Root => true
    case Child(q, i) => IsPath(q) && Level(q) < 3 && i < ENTRIES
  }

  /** The frame of the table the walk reaches along p, if every entry on the way is present. */
  ghost function TableAt(ram: Ram, root: nat, p: Path): Option<nat> {
    match p
    case Root => Some(root)
    case Child(q, i) =>
      match TableAt(ram, root, q)
      case None => None
      case Some(t) =>
        if t in ram && i < ENTRIES && ram[t][i].present then Some(ram[t][i].frame) else None
  }

  predicate HasPresent(t: Table) {
    exists i :: 0 <= i < ENTRIES && t[i].present
  }

  /** Every table the walk reaches is a used frame of RAM, and no frame is reached along two paths. */
  ghost predicate Tree(ram: Ram, root: nat, used: set<nat>) {
    && (forall p :: IsPath(p) && TableAt(ram, root, p).Some? ==>
          TableAt(ram, root, p).value in ram && TableAt(ram, root, p).value in used)
    && (forall p, q :: IsPath(p) && IsPath(q) && TableAt(ram, root, p).Some? ==>
          TableAt(ram, root, p) == TableAt(ram, root, q) ==> p == q)
  }

  /** Every table except the root, and except the one at `spare`, has a present entry. */
  ghost predicate Occupied(ram: Ram, root: nat, spare: Path) {
    forall p :: IsPath(p) && p != Root && p != spare && TableAt(ram, root, p).Some? ==>
      TableAt(ram, root, p).value in ram ==> HasPresent(ram[TableAt(ram, root, p).value])
  }

  lemma TreeHas(ram: Ram, root: nat, used: set<nat>, p: Path)
    requires Tree(ram, root, used) && IsPath(p) && TableAt(ram, root, p).Some?
    ensures TableAt(ram, root, p).value in ram && TableAt(ram, root, p).value in used
  {}

  lemma OccupiedBut(ram: Ram, root: nat, p: Path)
    requires Occupied(ram, root, Root)
    ensures Occupied(ram, root, p)
  {}

  lemma OccupiedAgain(ram: Ram, root: nat, p: Path, t: nat)
    requires Occupied(ram, root, p) && TableAt(ram, root, p) == Some(t) && t in ram && HasPresent(ram[t])
    ensures Occupied(ram, root, Root)
  {}

  ghost predicate IsTable(ram: Ram, root: nat, f: nat) {
    exists p :: IsPath(p) && TableAt(ram, root, p) == Some(f)
  }

  ghost function TableFrames(ram: Ram, root: nat): set<nat> {
    set f | f in ram && IsTable(ram, root, f)
  }

  /** Writes entry i of table t. */
  function SetEntry(ram: Ram, t: nat, i: nat, e: Entry): (r: Ram)
    requires t in ram && i < ENTRIES
  {
    ram[t := ram[t][i := e]]
  }

  /** Links the zeroed frame g as the table below entry i of t. */
  function LinkTable(ram: Ram, t: nat, i: nat, g: nat): (r: Ram)
    requires t in ram && i < ENTRIES && g != t
  {
    SetEntry(ram[g := ZeroTable()], t, i, Entry(true, g, PTE_WRITE))
  }

  /** The walk of ram' is that of ram, except that the table at x is now `at`. */
  ghost predicate WalkPatched(ram: Ram, ram': Ram, root: nat, x: Path, at: Option<nat>) {
    forall q :: IsPath(q) ==> TableAt(ram', root, q) == if q == x then at else TableAt(ram, root, q)
  }

  // ---------- Linking a fresh table ----------

  lemma {:induction false} LinkWalk(ram: Ram, root: nat, used: set<nat>, p: Path, t: nat, i: nat, g: nat, q: Path)
    requires Tree(ram, root, used)
    requires IsPath(Child(p, i)) && TableAt(ram, root, p) == Some(t)
    requires !ram[t][i].present && g !in used
    requires IsPath(q)
    ensures TableAt(LinkTable(ram, t, i, g), root, q) ==
            if q == Child(p, i) then Some(g) else TableAt(ram, root, q)
  {
    if q.Child? {
      LinkWalk(ram, root, used, p, t, i, g, q.parent);
      if q.parent == Child(p, i) {
        assert TableAt(ram, root, q.parent) == None;
      } else if TableAt(ram, root, q.parent).Some? {
        assert TableAt(ram, root, q.parent).value in used;
      }
    }
  }

  /** Linking a fresh zeroed frame adds exactly one table to the walk. */
  lemma LinkKeepsTree(ram: Ram, root: nat, used: set<nat>, p: Path, t: nat, i: nat, g: nat)
    requires Tree(ram, root, used)
    requires IsPath(Child(p, i)) && TableAt(ram, root, p) == Some(t)
    requires !ram[t][i].present && g !in used
    ensures var ram' := LinkTable(ram, t, i, g);
            WalkPatched(ram, ram', root, Child(p, i), Some(g)) && Tree(ram', root, used + {g})
  {
    var ram' := LinkTable(ram, t, i, g);
    forall q | IsPath(q)
      ensures TableAt(ram', root, q) == if q == Child(p, i) then Some(g) else TableAt(ram, root, q)
    {
      LinkWalk(ram, root, used, p, t, i, g, q);
    }
    assert TableAt(ram, root, Child(p, i)) == None;
  }

  lemma LinkKeepsOccupied(ram: Ram, root: nat, used: set<nat>, p: Path, t: nat, i: nat, g: nat)
    requires Tree(ram, root, used) && Occupied(ram, root, p)
    requires IsPath(Child(p, i)) && TableAt(ram, root, p) == Some(t)
    requires !ram[t][i].present && g !in used
    ensures Occupied(LinkTable(ram, t, i, g), root, Child(p, i))
  {
    var ram' := LinkTable(ram, t, i, g);
    LinkKeepsTree(ram, root, used, p, t, i, g);
    assert ram'[t][i].present;
    forall q | IsPath(q) && q != Root && q != Child(p, i) && TableAt(ram', root, q).Some?
      ensures HasPresent(ram'[TableAt(ram', root, q).value])
    {
      assert TableAt(ram', root, q) == TableAt(ram, root, q);
      if q != p {
        assert TableAt(ram, root, q).value != t;
        assert TableAt(ram, root, q).value in used;
      }
    }
  }

  // ---------- Unlinking an empty table ----------

  lemma {:induction false} UnlinkWalk(ram: Ram, root: nat, used: set<nat>, p: Path, t: nat, i: nat, q: Path)
    requires Tree(ram, root, used)
    requires IsPath(Child(p, i)) && TableAt(ram, root, p) == Some(t)
    requires ram[t][i].present && ram[t][i].frame in ram && !HasPresent(ram[ram[t][i].frame])
    requires IsPath(q)
    ensures TableAt(SetEntry(ram, t, i, ABSENT), root, q) ==
            if q == Child(p, i) then None else TableAt(ram, root, q)
  {
    if q.Child? {
      UnlinkWalk(ram, root, used, p, t, i, q.parent);
      if q.parent == Child(p, i) {
        assert TableAt(ram, root, q) == None;
      }
    }
  }

  /** Unlinking an empty table removes exactly that table from the walk, so its frame may be freed. */
  lemma UnlinkKeepsTree(ram: Ram, root: nat, used: set<nat>, p: Path, t: nat, i: nat)
    requires Tree(ram, root, used)
    requires IsPath(Child(p, i)) && TableAt(ram, root, p) == Some(t)
    requires ram[t][i].present && ram[t][i].frame in ram && !HasPresent(ram[ram[t][i].frame])
    ensures var ram' := SetEntry(ram, t, i, ABSENT);
            && WalkPatched(ram, ram', root, Child(p, i), None)
            && Tree(ram', root, used - {ram[t][i].frame})
  {
    var ram' := SetEntry(ram, t, i, ABSENT);
    forall q | IsPath(q)
      ensures TableAt(ram', root, q) == if q == Child(p, i) then None else TableAt(ram, root, q)
    {
      UnlinkWalk(ram, root, used, p, t, i, q);
    }
    assert TableAt(ram, root, Child(p, i)) == Some(ram[t][i].frame);
  }

  lemma UnlinkKeepsOccupied(ram: Ram, root: nat, used: set<nat>, p: Path, t: nat, i: nat)
    requires Tree(ram, root, used) && Occupied(ram, root, Child(p, i))
    requires IsPath(Child(p, i)) && TableAt(ram, root, p) == Some(t)
    requires ram[t][i].present && ram[t][i].frame in ram && !HasPresent(ram[ram[t][i].frame])
    ensures var ram' := SetEntry(ram, t, i, ABSENT);
            Occupied(ram', root, p) && (HasPresent(ram'[t]) ==> Occupied(ram', root, Root))
  {
    var ram' := SetEntry(ram, t, i, ABSENT);
    UnlinkKeepsTree(ram, root, used, p, t, i);
    forall q | IsPath(q) && q != Root && q != p && TableAt(ram', root, q).Some?
      ensures HasPresent(ram'[TableAt(ram', root, q).value])
    {
      assert TableAt(ram', root, q) == TableAt(ram, root, q);
      assert TableAt(ram, root, q).value != t;
    }
  }

  // ---------- Writing a leaf entry ----------

  lemma {:induction false} LeafWalk(ram: Ram, root: nat, used: set<nat>, p: Path, t: nat, i: nat, e: Entry, q: Path)
    requires Tree(ram, root, used)
    requires IsPath(p) && Level(p) == 3 && TableAt(ram, root, p) == Some(t) && i < ENTRIES
    requires IsPath(q)
    ensures TableAt(SetEntry(ram, t, i, e), root, q) == TableAt(ram, root, q)
  {
    if q.Child? {
      LeafWalk(ram, root, used, p, t, i, e, q.parent);
    }
  }

  /** Writing a leaf entry moves no table. */
  lemma LeafKeepsTree(ram: Ram, root: nat, used: set<nat>, p: Path, t: nat, i: nat, e: Entry)
    requires Tree(ram, root, used)
    requires IsPath(p) && Level(p) == 3 && TableAt(ram, root, p) == Some(t) && i < ENTRIES
    ensures var ram' := SetEntry(ram, t, i, e);
            && (forall q :: IsPath(q) ==> TableAt(ram', root, q) == TableAt(ram, root, q))
            && Tree(ram', root, used)
  {
    var ram' := SetEntry(ram, t, i, e);
    forall q | IsPath(q) ensures TableAt(ram', root, q) == TableAt(ram, root, q) {
      LeafWalk(ram, root, used, p, t, i, e, q);
    }
  }

  lemma LeafKeepsOccupied(ram: Ram, root: nat, used: set<nat>, p: Path, t: nat, i: nat, e: Entry)
    requires Tree(ram, root, used) && Occupied(ram, root, p)
    requires IsPath(p) && Level(p) == 3 && TableAt(ram, root, p) == Some(t) && i < ENTRIES
    ensures var ram' := SetEntry(ram, t, i, e);
            Occupied(ram', root, p) && (HasPresent(ram'[t]) ==> Occupied(ram', root, Root))
  {
    LeafKeepsTree(ram, root, used, p, t, i, e);
    var ram' := SetEntry(ram, t, i, e);
    forall q | IsPath(q) && q != Root && q != p && TableAt(ram', root, q).Some?
      ensures HasPresent(ram'[TableAt(ram', root, q).value])
    {
      assert TableAt(ram', root, q) == TableAt(ram, root, q);
    }
  }

  // ---------- Translation ----------

  /** The path to the table holding the leaf entry of page n: bits 39..47, 30..38 and 21..29 of its address. */
  function PathOf(n: nat): Path {
    Child(Child(Child(Root, n / 512 / 512 / 512), n / 512 / 512 % 512), n / 512 % 512)
  }

  /** Bits 12..20 of the address of page n. */
  function SlotOf(n: nat): (i: nat)
    ensures i < ENTRIES
  {
    n % 512
  }

  lemma PathIsPath(n: nat)
    requires n < PAGES
    ensures IsPath(PathOf(n)) && Level(PathOf(n)) == 3
  {
    assert n / 512 < 0x800_0000;
    assert n / 512 / 512 < 0x4_0000;
    var pdpt := Child(Root, n / 512 / 512 / 512);
    var pd := Child(pdpt, n / 512 / 512 % 512);
    assert IsPath(Root) && Level(Root) == 0;
    assert IsPath(pdpt) && Level(pdpt) == 1;
    assert IsPath(pd) && Level(pd) == 2;
  }

  /** The four indices determine the page number. */
  lemma PathInjective(m: nat, n: nat)
    requires PathOf(m) == PathOf(n) && SlotOf(m) == SlotOf(n)
    ensures m == n
  {
    assert m / 512 / 512 == n / 512 / 512;
    assert m / 512 == n / 512;
  }

  ghost function Translate(ram: Ram, root: nat, n: nat): Option<Leaf> {
    match TableAt(ram, root, PathOf(n))
    case None => None
    case Some(t) =>
      if t in ram && ram[t][SlotOf(n)].present
      then Some(Leaf(ram[t][SlotOf(n)].frame, ram[t][SlotOf(n)].flags)) else None
  }

  /** The partial map from page numbers to leaves that the tables stand for. */
  ghost function Mapping(ram: Ram, root: nat): map<nat, Leaf> {
    map n | 0 <= n < PAGES && Translate(ram, root, n).Some? :: Translate(ram, root, n).value
  }

  /** A page is in the mapping exactly when the walk to it ends at a present entry. */
  lemma MappingHas(ram: Ram, root: nat, n: nat)
    requires n < PAGES
    ensures n in Mapping(ram, root) <==> Translate(ram, root, n).Some?
    ensures n in Mapping(ram, root) ==> Mapping(ram, root)[n] == Translate(ram, root, n).value
  {}

  lemma TranslateAt(ram: Ram, root: nat, n: nat, t: nat)
    requires TableAt(ram, root, PathOf(n)) == Some(t) && t in ram
    ensures Translate(ram, root, n).Some? <==> ram[t][SlotOf(n)].present
    ensures Translate(ram, root, n).Some? ==>
              Translate(ram, root, n).value == Leaf(ram[t][SlotOf(n)].frame, ram[t][SlotOf(n)].flags)
  {}

  lemma ParentPaths(p: Path)
    requires IsPath(p) && Level(p) == 3
    ensures p.Child? && IsPath(p.parent) && p.parent.Child? && IsPath(p.parent.parent) && p.parent.parent.Child?
    ensures p.parent.parent.parent == Root
  {
    assert Level(p.parent) == 2;
    assert Level(p.parent.parent) == 1;
    assert Level(p.parent.parent.parent) == 0;
  }

  lemma SameTranslations(ram: Ram, ram': Ram, root: nat)
    requires forall n :: 0 <= n < PAGES ==> Translate(ram', root, n) == Translate(ram, root, n)
    ensures Mapping(ram', root) == Mapping(ram, root)
  {}

  /** A fresh table translates nothing, so linking it leaves the mapping as it was. */
  lemma LinkKeepsMapping(ram: Ram, root: nat, used: set<nat>, p: Path, t: nat, i: nat, g: nat)
    requires Tree(ram, root, used)
    requires IsPath(Child(p, i)) && TableAt(ram, root, p) == Some(t)
    requires !ram[t][i].present && g !in used
    ensures Mapping(LinkTable(ram, t, i, g), root) == Mapping(ram, root)
  {
    var ram' := LinkTable(ram, t, i, g);
    LinkKeepsTree(ram, root, used, p, t, i, g);
    forall n | 0 <= n < PAGES ensures Translate(ram', root, n) == Translate(ram, root, n) {
      PathIsPath(n);
      var q := PathOf(n);
      assert TableAt(ram', root, q) == if q == Child(p, i) then Some(g) else TableAt(ram, root, q);
      if q == Child(p, i) {
        assert TableAt(ram, root, q) == None;
      } else if TableAt(ram, root, q).Some? {
        assert TableAt(ram, root, q).value in used;
      }
    }
    SameTranslations(ram, ram', root);
  }

  /** An empty table translates nothing, so unlinking it leaves the mapping as it was. */
  lemma UnlinkKeepsMapping(ram: Ram, root: nat, used: set<nat>, p: Path, t: nat, i: nat)
    requires Tree(ram, root, used)
    requires IsPath(Child(p, i)) && TableAt(ram, root, p) == Some(t)
    requires ram[t][i].present && ram[t][i].frame in ram && !HasPresent(ram[ram[t][i].frame])
    ensures Mapping(SetEntry(ram, t, i, ABSENT), root) == Mapping(ram, root)
  {
    var ram' := SetEntry(ram, t, i, ABSENT);
    UnlinkKeepsTree(ram, root, used, p, t, i);
    assert TableAt(ram, root, Child(p, i)) == Some(ram[t][i].frame);
    forall n | 0 <= n < PAGES ensures Translate(ram', root, n) == Translate(ram, root, n) {
      PathIsPath(n);
      var q := PathOf(n);
      assert TableAt(ram', root, q) == if q == Child(p, i) then None else TableAt(ram, root, q);
    }
    SameTranslations(ram, ram', root);
  }

  lemma LeafTranslates(ram: Ram, root: nat, used: set<nat>, n: nat, t: nat, e: Entry, m: nat)
    requires Tree(ram, root, used)
    requires n < PAGES && TableAt(ram, root, PathOf(n)) == Some(t) && m < PAGES
    ensures t in ram
    ensures Translate(SetEntry(ram, t, SlotOf(n), e), root, m) ==
            if m != n then Translate(ram, root, m) else if e.present then Some(Leaf(e.frame, e.flags)) else None
  {
    hide PathOf, SlotOf;
    PathIsPath(n);
    PathIsPath(m);
    LeafKeepsTree(ram, root, used, PathOf(n), t, SlotOf(n), e);
    var ram' := SetEntry(ram, t, SlotOf(n), e);
    if m != n && PathOf(m) == PathOf(n) && SlotOf(m) == SlotOf(n) {
      PathInjective(m, n);
    }
    assert TableAt(ram', root, PathOf(m)) == TableAt(ram, root, PathOf(m));
  }

  /** A leaf write changes the translation of one page and of no other. */
  lemma LeafPatchesMapping(ram: Ram, root: nat, used: set<nat>, n: nat, t: nat, e: Entry)
    requires Tree(ram, root, used)
    requires n < PAGES && TableAt(ram, root, PathOf(n)) == Some(t)
    ensures t in ram
    ensures Mapping(SetEntry(ram, t, SlotOf(n), e), root) ==
            if e.present then Mapping(ram, root)[n := Leaf(e.frame, e.flags)] else Mapping(ram, root) - {n}
  {
    hide PathOf, SlotOf, Tree, TableAt, Translate;
    LeafTranslates(ram, root, used, n, t, e, n);
    var ram' := SetEntry(ram, t, SlotOf(n), e);
    forall m | 0 <= m < PAGES
      ensures Translate(ram', root, m) ==
              if m != n then Translate(ram, root, m)
              else if e.present then Some(Leaf(e.frame, e.flags)) else None
    {
      LeafTranslates(ram, root, used, n, t, e, m);
    }
  }

  // ---------- The set of table frames ----------

  lemma LinkAddsFrame(ram: Ram, root: nat, used: set<nat>, p: Path, t: nat, i: nat, g: nat)
    requires Tree(ram, root, used)
    requires IsPath(Child(p, i)) && TableAt(ram, root, p) == Some(t)
    requires !ram[t][i].present && g !in used
    ensures TableFrames(LinkTable(ram, t, i, g), root) == TableFrames(ram, root) + {g}
    ensures g !in TableFrames(ram, root)
  {
    var ram' := LinkTable(ram, t, i, g);
    LinkKeepsTree(ram, root, used, p, t, i, g);
    assert TableAt(ram', root, Child(p, i)) == Some(g);
    forall f: nat | IsTable(ram, root, f) ensures IsTable(ram', root, f) && f != g && f in ram {
      var q :| IsPath(q) && TableAt(ram, root, q) == Some(f);
      assert TableAt(ram', root, q) == Some(f);
    }
    forall f: nat | IsTable(ram', root, f) ensures f == g || IsTable(ram, root, f) {
      var q :| IsPath(q) && TableAt(ram', root, q) == Some(f);
      assert q != Child(p, i) ==> TableAt(ram, root, q) == Some(f);
    }
  }

  lemma UnlinkRemovesFrame(ram: Ram, root: nat, used: set<nat>, p: Path, t: nat, i: nat)
    requires Tree(ram, root, used)
    requires IsPath(Child(p, i)) && TableAt(ram, root, p) == Some(t)
    requires ram[t][i].present && ram[t][i].frame in ram && !HasPresent(ram[ram[t][i].frame])
    ensures TableFrames(SetEntry(ram, t, i, ABSENT), root) == TableFrames(ram, root) - {ram[t][i].frame}
    ensures ram[t][i].frame in TableFrames(ram, root)
  {
    var ram' := SetEntry(ram, t, i, ABSENT);
    var g := ram[t][i].frame;
    UnlinkKeepsTree(ram, root, used, p, t, i);
    assert TableAt(ram, root, Child(p, i)) == Some(g);
    forall f: nat | IsTable(ram, root, f) && f != g ensures IsTable(ram', root, f) {
      var q :| IsPath(q) && TableAt(ram, root, q) == Some(f);
      assert TableAt(ram', root, q) == Some(f);
    }
    forall f: nat | IsTable(ram', root, f) ensures f != g && IsTable(ram, root, f) {
      var q :| IsPath(q) && TableAt(ram', root, q) == Some(f);
      assert q != Child(p, i) && TableAt(ram, root, q) == Some(f);
    }
  }

  lemma LeafKeepsFrames(ram: Ram, root: nat, used: set<nat>, p: Path, t: nat, i: nat, e: Entry)
    requires Tree(ram, root, used)
    requires IsPath(p) && Level(p) == 3 && TableAt(ram, root, p) == Some(t) && i < ENTRIES
    ensures TableFrames(SetEntry(ram, t, i, e), root) == TableFrames(ram, root)
  {
    var ram' := SetEntry(ram, t, i, e);
    LeafKeepsTree(ram, root, used, p, t, i, e);
    forall f: nat ensures IsTable(ram, root, f) <==> IsTable(ram', root, f) {
      if IsTable(ram, root, f) {
        var q :| IsPath(q) && TableAt(ram, root, q) == Some(f);
        assert TableAt(ram', root, q) == Some(f);
      }
      if IsTable(ram', root, f) {
        var q :| IsPath(q) && TableAt(ram', root, q) == Some(f);
        assert TableAt(ram, root, q) == Some(f);
      }
    }
  }

  lemma TablesInRam(ram: Ram, root: nat)
    ensures forall f :: f in TableFrames(ram, root) ==> f in ram
  {}

  lemma TablesUsed(ram: Ram, root: nat, used: set<nat>)
    requires Tree(ram, root, used)
    ensures TableFrames(ram, root) <= used
  {
    forall f | f in TableFrames(ram, root) ensures f in used {
      var q :| IsPath(q) && TableAt(ram, root, q) == Some(f);
    }
  }

  // ---------- Writes outside the tables ----------

  lemma {:induction false} DataWalk(ram: Ram, ram': Ram, root: nat, used: set<nat>, q: Path)
    requires Tree(ram, root, used) && IsPath(q)
    requires forall f :: f in TableFrames(ram, root) ==> f in ram' && ram'[f] == ram[f]
    ensures TableAt(ram', root, q) == TableAt(ram, root, q)
  {
    if q.Child? {
      DataWalk(ram, ram', root, used, q.parent);
      if TableAt(ram, root, q.parent).Some? {
        var t := TableAt(ram, root, q.parent).value;
        assert IsTable(ram, root, t) && t in TableFrames(ram, root);
      }
    }
  }

  /** Writing frames that are not tables, and using more frames, changes nothing the walk sees. */
  lemma DataKeepsTree(ram: Ram, ram': Ram, root: nat, used: set<nat>, used': set<nat>)
    requires Tree(ram, root, used)
    requires forall f :: f in TableFrames(ram, root) ==> f in ram' && ram'[f] == ram[f] && f in used'
    requires ram'.Keys >= ram.Keys
    ensures Tree(ram', root, used') && TableFrames(ram', root) == TableFrames(ram, root)
    ensures Mapping(ram', root) == Mapping(ram, root)
    ensures Occupied(ram, root, Root) ==> Occupied(ram', root, Root)
  {
    forall q | IsPath(q)
      ensures TableAt(ram', root, q) == TableAt(ram, root, q)
      ensures TableAt(ram, root, q).Some? ==> TableAt(ram, root, q).value in TableFrames(ram, root)
    {
      DataWalk(ram, ram', root, used, q);
      if TableAt(ram, root, q).Some? {
        assert IsTable(ram, root, TableAt(ram, root, q).value);
      }
    }
    forall n | 0 <= n < PAGES ensures Translate(ram', root, n) == Translate(ram, root, n) {
      PathIsPath(n);
    }
    forall f: nat ensures IsTable(ram', root, f) <==> IsTable(ram, root, f) {
      if IsTable(ram, root, f) {
        var q :| IsPath(q) && TableAt(ram, root, q) == Some(f);
        assert TableAt(ram', root, q) == Some(f);
      }
      if IsTable(ram', root, f) {
        var q :| IsPath(q) && TableAt(ram', root, q) == Some(f);
        assert TableAt(ram, root, q) == Some(f);
      }
    }
    SameTranslations(ram, ram', root);
  }
}
