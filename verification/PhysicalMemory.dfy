/**
 The physical memory manager of kernel/memory.c: a bitmap over page frames, a next-fit
 hint, a word-at-a-time search, and the frames themselves, which allocation zeroes.
 Frames are named by number; the physical address of frame f is f * 4096.
 */
module PhysicalMemory {
  import opened Bits
  import opened PageTables
  import Locks
  import opened Wrappers

  /** The bits set among the first `total` are those of the frames in `used`. */
  ghost predicate Records(bitmap: seq<Word>, total: nat, used: set<nat>)
    requires total <= 64 * |bitmap|
  {
    && (forall f :: f in used ==> f < total)
    && (forall f {:trigger Test(bitmap, f)} :: 0 <= f < total ==> (Test(bitmap, f) <==> f in used))
  }

  /** How many words after word s the cyclic search over `size` words reaches word w. */
  function Rank(w: nat, s: nat, size: nat): (r: nat)
    requires w < size && s < size
    ensures r < size
  {
    if s <= w then w - s else w + size - s
  }

  lemma ModUnique(x: nat, q: nat, r: nat, size: nat)
    requires r < size && x == q * size + r
    ensures x % size == r
  {
    var d := x / size - q;
    assert d * size == r - x % size;
    assert d >= 1 ==> d * size >= size;
    assert d <= -1 ==> d * size + size <= 0;
  }

  /** The i-th word the search visits is the one of rank i. */
  lemma VisitedWord(start: nat, i: nat, size: nat)
    requires i < size
    ensures Rank((start + i) % size, start % size, size) == i
    ensures forall w :: 0 <= w < size && Rank(w, start % size, size) == i ==> w == (start + i) % size
  {
    var q, s := start / size, start % size;
    if s + i < size {
      ModUnique(start + i, q, s + i, size);
    } else {
      assert (q + 1) * size == q * size + size;
      ModUnique(start + i, q + 1, s + i - size, size);
    }
  }

  class Pmm {
    var bitmap: array<Word>
    var highest: nat
    var usedFrames: nat
    var lastAllocated: nat
    var ram: Ram

    ghost var used: set<nat>

    /** The bitmap records the frames in use, the counter counts them, and every frame has contents. */
    ghost predicate Valid()
      reads this, bitmap
    {
      && highest < 64 * bitmap.Length
      && Records(bitmap[..], highest + 1, used)
      && usedFrames == |used|
      && (forall f :: 0 <= f <= highest ==> f in ram)
    }

    /** No frame is left. */
    ghost predicate Exhausted()
      reads this`highest, this`used
    {
      forall f :: 0 <= f <= highest ==> f in used
    }

    method SetBit(f: nat)
      requires f < 64 * bitmap.Length
      modifies bitmap
      ensures forall g :: 0 <= g < 64 * bitmap.Length ==> Test(bitmap[..], g) == (g == f || old(Test(bitmap[..], g)))
    {
      bitmap[f / 64] := bitmap[f / 64][f % 64 := true];
    }

    method ClearBit(f: nat)
      requires f < 64 * bitmap.Length
      modifies bitmap
      ensures forall g :: 0 <= g < 64 * bitmap.Length ==> Test(bitmap[..], g) == (g != f && old(Test(bitmap[..], g)))
    {
      bitmap[f / 64] := bitmap[f / 64][f % 64 := false];
    }

    /** The search for one free frame: -1 exactly when every frame in range is used, else the
        first free frame in range, going word by word, cyclically, from the word of the hint. */
    method FindFirstFree() returns (r: int)
      requires highest < 64 * bitmap.Length
      ensures r == -1 <==> forall f :: 0 <= f <= highest ==> Test(bitmap[..], f)
      ensures r != -1 ==> 0 <= r <= highest && !Test(bitmap[..], r)
      ensures r != -1 ==>
                forall f :: 0 <= f <= highest && Precedes(f, r, lastAllocated, bitmap.Length) ==> Test(bitmap[..], f)
    {
      var size := bitmap.Length;
      var startWord := lastAllocated / 64;
      ghost var s := startWord % size;
      for i := 0 to size
        invariant forall f :: 0 <= f <= highest && Rank(f / 64, s, size) < i ==> Test(bitmap[..], f)
      {
        var w := (startWord + i) % size;
        VisitedWord(startWord, i, size);
        var word := bitmap[w];
        if word != AllOnes() {
          NotAllOnes(word);
          var bit := Ctz(Complement(word));
          var frame := w * 64 + bit;
          assert frame / 64 == w && frame % 64 == bit;
          assert !Test(bitmap[..], frame);
          forall f | 0 <= f <= highest && f / 64 == w && f % 64 < bit ensures Test(bitmap[..], f) {
            assert !Complement(word)[f % 64];
          }
          if frame <= highest {
            return frame;
          }
        } else {
          assert forall k :: 0 <= k < 64 ==> word[k];
        }
      }
      return -1;
    }

    /** Takes a free frame and zeroes it; None if there is none. */
    method TakeFree() returns (r: Option<nat>)
      requires Valid()
      modifies this`usedFrames, this`lastAllocated, this`ram, this`used, bitmap
      ensures Valid()
      ensures r == None <==> forall f :: 0 <= f <= highest ==> f in old(used)
      ensures r == None ==> used == old(used) && ram == old(ram)
      ensures r.Some? ==>
                && r.value <= highest && r.value !in old(used)
                && used == old(used) + {r.value} && ram == old(ram)[r.value := ZeroTable()]
                && forall f :: 0 <= f <= highest && Precedes(f, r.value, old(lastAllocated), bitmap.Length) ==> f in old(used)
    {
      var found := FindFirstFree();
      if found == -1 {
        forall f | 0 <= f <= highest ensures f in used {
          assert Test(bitmap[..], f);
        }
        return None;
      }
      SetBit(found);
      usedFrames := usedFrames + 1;
      lastAllocated := found;
      ram := ram[found := ZeroTable()];
      used := used + {found};
      return Some(found);
    }

    /** Allocates a frame under the lock; None is the out-of-memory panic, with the lock released. */
    method AllocFrame(ghost log: Locks.Log) returns (r: Option<nat>)
      requires Valid() && log.Below(Locks.PMM)
      modifies this`usedFrames, this`lastAllocated, this`ram, this`used, bitmap, log
      ensures Valid() && log.Valid() && log.held == old(log.held)
      ensures r == None <==> forall f :: 0 <= f <= highest ==> f in old(used)
      ensures r == None ==> used == old(used) && ram == old(ram)
      ensures r.Some? ==>
                && r.value <= highest && r.value !in old(used)
                && used == old(used) + {r.value} && ram == old(ram)[r.value := ZeroTable()]
                && forall f :: 0 <= f <= highest && Precedes(f, r.value, old(lastAllocated), bitmap.Length) ==> f in old(used)
    {
      hide Locks.Follow, Records, Precedes, ZeroTable;
      log.Acquires(Locks.PMM);
      r := TakeFree();
      if r == None {
        log.Releases(Locks.PMM);
        return;
      }
      log.Releases(Locks.PMM);
    }

    /** Stores a table entry through the direct map of physical memory. */
    method Store(t: nat, i: nat, e: Entry)
      requires Valid() && t in ram && i < ENTRIES
      modifies this`ram
      ensures Valid()
      ensures ram == SetEntry(old(ram), t, i, e)
    {
      ram := SetEntry(ram, t, i, e);
    }

    /** Returns a frame; false is the panic on a frame out of range or already free. */
    method FreeFrame(ghost log: Locks.Log, f: nat) returns (ok: bool)
      requires Valid() && log.Below(Locks.PMM)
      modifies this`usedFrames, this`used, bitmap, log
      ensures Valid() && log.Valid() && log.held == old(log.held)
      ensures ok <==> f in old(used)
      ensures used == old(used) - {f}
    {
      hide Locks.Follow;
      if f > highest {
        return false;
      }
      log.Acquires(Locks.PMM);
      if !bitmap[f / 64][f % 64] {
        assert !Test(bitmap[..], f);
        log.Releases(Locks.PMM);
        return false;
      }
      assert Test(bitmap[..], f);
      ClearBit(f);
      usedFrames := usedFrames - 1;
      used := used - {f};
      log.Releases(Locks.PMM);
      return true;
    }
  }

  /** f comes before r in the search order of a search whose hint is `hint`. */
  predicate Precedes(f: nat, r: nat, hint: nat, size: nat)
    requires f < 64 * size && r < 64 * size
  {
    var s := hint / 64 % size;
    || Rank(f / 64, s, size) < Rank(r / 64, s, size)
    || (f / 64 == r / 64 && f % 64 < r % 64)
  }
}
