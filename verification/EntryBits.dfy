/**
 The bits of a page-table entry of kernel/memory.c. The page-table model keeps an entry as a present bit, a frame number
 and flags; these lemmas say that the words the kernel stores carry exactly those. Flags are read off the words as bit
 vectors, frame numbers off the words as numbers.
 */
module EntryBits {
  import opened Bits
  import opened PageTables
  import opened AddressSpace

  /** The word stored for a mapped page. */
  function LeafWord(phys: bv64, flags: bv64): bv64 {
    (phys & PTE_ADDR_MASK) | (flags & !PTE_ADDR_MASK) | PTE_PRESENT
  }

  /** The word stored for a new table. */
  function TableWord(phys: bv64): bv64 {
    phys | PTE_PRESENT | PTE_WRITE
  }

  predicate Present(word: bv64) {
    word & PTE_PRESENT != 0
  }

  function Address(word: bv64): bv64 {
    word & PTE_ADDR_MASK
  }

  function Flags(word: bv64): bv64 {
    word & !PTE_ADDR_MASK & !PTE_PRESENT
  }

  /** Reading back a page's entry gives the bits 12..51 of the address and the flags of its leaf. */
  lemma LeafReadsBack(phys: bv64, flags: bv64)
    ensures Present(LeafWord(phys, flags)) && Address(LeafWord(phys, flags)) == phys & PTE_ADDR_MASK
    ensures Flags(LeafWord(phys, flags)) == flags & !PTE_ADDR_MASK & !PTE_PRESENT
  {}

  /** Reading back a table's entry gives the address of the table, for every page-aligned address below 2^52; and for no
      other address. */
  lemma TableReadsBack(phys: bv64)
    ensures Present(TableWord(phys)) && (Address(TableWord(phys)) == phys <==> phys & !PTE_ADDR_MASK == 0)
  {}

  // ---------- The frame number ----------

  /** The number that bits stand for, lowest first. */
  function Value(bits: seq<bool>): nat {
    if bits == [] then 0 else (if bits[0] then 1 else 0) + 2 * Value(bits[1..])
  }

  function Pow2(n: nat): (r: nat)
    ensures r > 0
  {
    if n == 0 then 1 else 2 * Pow2(n - 1)
  }

  lemma {:induction false} ValueBound(bits: seq<bool>)
    ensures Value(bits) < Pow2(|bits|)
  {
    if bits != [] {
      ValueBound(bits[1..]);
    }
  }

  lemma {:induction false} ValueConcat(x: seq<bool>, y: seq<bool>)
    ensures Value(x + y) == Value(x) + Pow2(|x|) * Value(y)
  {
    if x == [] {
      assert x + y == y;
    } else {
      assert (x + y)[1..] == x[1..] + y;
      ValueConcat(x[1..], y);
      Double(Pow2(|x| - 1), Value(y));
    }
  }

  lemma Double(a: nat, b: nat)
    ensures 2 * (a * b) == (2 * a) * b
  {}

  lemma {:induction false} ValueZero(bits: seq<bool>)
    requires forall i :: 0 <= i < |bits| ==> !bits[i]
    ensures Value(bits) == 0
  {
    if bits != [] {
      ValueZero(bits[1..]);
    }
  }

  /** The word with the bits 12..51 of w and no others: w & PTE_ADDR_MASK. */
  function Masked(w: Word): Word {
    seq(64, (i: nat) requires i < 64 => 12 <= i < 52 && w[i])
  }

  lemma Powers()
    ensures Pow2(12) == 0x1000 && Pow2(40) == FRAME_LIMIT && Pow2(52) == 0x10_0000_0000_0000
  {
    assert Pow2(8) == 256;
    assert Pow2(12) == 4096;
    assert Pow2(16) == 65536;
    assert Pow2(20) == 0x10_0000;
    assert Pow2(24) == 0x100_0000;
    assert Pow2(28) == 0x1000_0000;
    assert Pow2(32) == 0x1_0000_0000;
    assert Pow2(36) == 0x10_0000_0000;
    assert Pow2(40) == 0x100_0000_0000;
    assert Pow2(44) == 0x1000_0000_0000;
    assert Pow2(48) == 0x1_0000_0000_0000;
    assert Pow2(52) == 0x10_0000_0000_0000;
  }

  /** A word is its low 12 bits, its frame number and its high 12 bits. */
  lemma Fields(w: Word)
    ensures Value(w[..12]) < 0x1000 && Value(w[12..52]) < FRAME_LIMIT
    ensures Value(w) == Value(w[..12]) + 0x1000 * (Value(w[12..52]) + FRAME_LIMIT * Value(w[52..]))
  {
    Powers();
    hide Pow2, Value;
    ValueBound(w[..12]);
    ValueBound(w[12..52]);
    assert w == w[..12] + w[12..] && w[12..] == w[12..52] + w[52..];
    ValueConcat(w[..12], w[12..]);
    ValueConcat(w[12..52], w[52..]);
  }

  /** The frame number of an address is what its bits 12..51 say, and masking the address leaves just that: the model's
      frame modulo 2^40 is the kernel's address & PTE_ADDR_MASK. */
  lemma FrameField(phys: Word)
    ensures Value(phys[12..52]) == Value(phys) / 0x1000 % FRAME_LIMIT
    ensures Value(Masked(phys)) == 0x1000 * (Value(phys) / 0x1000 % FRAME_LIMIT)
  {
    Fields(phys);
    Fields(Masked(phys));
    ValueZero(Masked(phys)[..12]);
    ValueZero(Masked(phys)[52..]);
    assert Masked(phys)[12..52] == phys[12..52];
    hide Value;
    Quotient(Value(phys), Value(phys[..12]), Value(phys[12..52]), Value(phys[52..]));
  }

  lemma Quotient(v: nat, low: nat, mid: nat, high: nat)
    requires low < 0x1000 && mid < FRAME_LIMIT && v == low + 0x1000 * (mid + FRAME_LIMIT * high)
    ensures v / 0x1000 % FRAME_LIMIT == mid
  {
    assert v / 0x1000 == mid + FRAME_LIMIT * high;
  }

  /** The leaf of a mapped page has the frame that its stored address bits name. */
  lemma LeafFrame(phys: Word, flags: bv64)
    ensures 0x1000 * LeafOf(Value(phys) / 0x1000, flags).frame == Value(Masked(phys))
  {
    FrameField(phys);
    hide Value, Masked;
  }
}
