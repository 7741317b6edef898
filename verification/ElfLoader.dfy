/**
 The ELF loader of kernel/startup.c: checks of the file header, and the loop that maps and fills the loadable segments.
 The file is a sequence of bytes, and memory a map from addresses to bytes.
 */
module ElfLoader {
  type Byte = b: nat | b < 256

  type Memory = map<nat, Byte>

  const WORD := 0x1_0000_0000_0000_0000
  const INT_LIMIT := 0x8000_0000
  const EHDR_SIZE := 64
  const PHDR_SIZE := 56
  const PT_LOAD := 1

  /** A byte of the mapped file; the rest of its last page reads as zero. */
  function At(file: seq<Byte>, o: nat): Byte {
    if o < |file| then file[o] else 0
  }

  function U16(file: seq<Byte>, o: nat): (r: nat)
    ensures r < 0x1_0000
  {
    At(file, o) + 0x100 * At(file, o + 1)
  }

  function U32(file: seq<Byte>, o: nat): (r: nat)
    ensures r < 0x1_0000_0000
  {
    U16(file, o) + 0x1_0000 * U16(file, o + 2)
  }

  function U64(file: seq<Byte>, o: nat): (r: nat)
    ensures r < WORD
  {
    U32(file, o) + 0x1_0000_0000 * U32(file, o + 4)
  }

  datatype Ehdr = Ehdr(magic: seq<Byte>, cls: Byte, data: Byte, version: Byte, fileType: nat, machine: nat,
                       entry: nat, phoff: nat, ehsize: nat, phentsize: nat, phnum: nat)

  function Header(file: seq<Byte>): Ehdr {
    Ehdr([At(file, 0), At(file, 1), At(file, 2), At(file, 3)], At(file, 4), At(file, 5), At(file, 6), U16(file, 16),
         U16(file, 18), U64(file, 24), U64(file, 32), U16(file, 52), U16(file, 54), U16(file, 56))
  }

  datatype Verdict = Accepted | Rejected(reason: Reason)

  datatype Reason =
    | BadMagic | BadClass | BadEncoding | BadVersion | NotExecutable | BadMachine | BadHeaderSize | BadEntrySize
    | NoHeaders | OffsetOut | SizeOverflow | EndOverflow | TableOut | NoEntryPoint

  /** The checks of the header, in the loader's order. */
  function Validate(h: Ehdr, size: nat): Verdict {
    if h.magic != [0x7F, 0x45, 0x4C, 0x46] then Rejected(BadMagic)
    else if h.cls != 2 then Rejected(BadClass)
    else if h.data != 1 && h.data != 2 then Rejected(BadEncoding)
    else if h.version != 1 then Rejected(BadVersion)
    else if h.fileType != 2 then Rejected(NotExecutable)
    else if h.machine != 62 then Rejected(BadMachine)
    else if h.ehsize < EHDR_SIZE then Rejected(BadHeaderSize)
    else if h.phentsize < PHDR_SIZE then Rejected(BadEntrySize)
    else if h.phnum == 0 then Rejected(NoHeaders)
    else if h.phoff == 0 || h.phoff > size then Rejected(OffsetOut)
    else if h.phnum * h.phentsize >= WORD then Rejected(SizeOverflow)
    else if h.phoff + h.phnum * h.phentsize >= WORD then Rejected(EndOverflow)
    else if h.phoff + h.phnum * h.phentsize > size then Rejected(TableOut)
    else if h.entry == 0 then Rejected(NoEntryPoint)
    else Accepted
  }

  predicate Valid(file: seq<Byte>) {
    Validate(Header(file), |file|) == Accepted
  }

  datatype Phdr = Phdr(kind: nat, offset: nat, vaddr: nat, filesz: nat, memsz: nat)

  function SegmentAt(file: seq<Byte>, o: nat): Phdr {
    Phdr(U32(file, o), U64(file, o + 8), U64(file, o + 16), U64(file, o + 32), U64(file, o + 40))
  }

  /** Where program header i is read. */
  function HeaderOffset(h: Ehdr, i: nat): nat {
    h.phoff + i * h.phentsize
  }

  /** The program headers of a file. */
  function Segments(file: seq<Byte>): seq<Phdr> {
    var h := Header(file);
    seq(h.phnum, i requires 0 <= i => SegmentAt(file, HeaderOffset(h, i)))
  }

  /** The stride of the table is computed in a signed 32-bit integer. */
  predicate StrideFits(h: Ehdr) {
    h.phnum > 0 ==> (h.phnum - 1) * h.phentsize < INT_LIMIT
  }

  lemma Times(a: nat, b: nat, c: nat)
    requires a <= b
    ensures a * c <= b * c
  {}

  /** Every program header of an accepted file is read from inside it. */
  lemma HeadersInFile(h: Ehdr, size: nat, i: nat)
    requires Validate(h, size) == Accepted && i < h.phnum
    ensures 0 < HeaderOffset(h, i) && HeaderOffset(h, i) + PHDR_SIZE <= size
  {
    Times(i + 1, h.phnum, h.phentsize);
    assert (i + 1) * h.phentsize == i * h.phentsize + h.phentsize;
  }

  /** The stride fits for every header up to the last exactly when it does for the last, and always in files of up to
      2 GiB. */
  lemma StrideInSmallFiles(h: Ehdr, size: nat)
    requires Validate(h, size) == Accepted
    ensures StrideFits(h) <==> forall i: nat :: i < h.phnum ==> i * h.phentsize < INT_LIMIT
    ensures size <= INT_LIMIT ==> StrideFits(h)
  {
    HeadersInFile(h, size, h.phnum - 1);
    forall i: nat | i < h.phnum ensures i * h.phentsize <= (h.phnum - 1) * h.phentsize {
      Times(i, h.phnum - 1, h.phentsize);
    }
  }

  /** Larger files can pass every check with a stride that does not fit. */
  lemma StrideCanOverflow()
    ensures exists h: Ehdr, size: nat :: Validate(h, size) == Accepted && h.phnum < 0x1_0000 && h.phentsize < 0x1_0000 && !StrideFits(h)
  {
    var h := Ehdr([0x7F, 0x45, 0x4C, 0x46], 2, 1, 1, 2, 62, 1, 64, 64, 0xFFFF, 0xFFFF);
    assert Validate(h, 0x1_0000_0000) == Accepted && !StrideFits(h);
  }

  /** What the loop demands of a program header: segments other than PT_LOAD are not looked at. */
  predicate SegmentOk(p: Phdr, size: nat, page: nat)
    requires page > 0
  {
    p.kind == PT_LOAD ==>
      && p.offset <= size && p.offset + p.filesz < WORD && p.offset + p.filesz <= size && p.filesz <= p.memsz
      && (p.memsz != 0 ==> p.vaddr % page == 0 && p.vaddr + p.memsz < WORD)
  }

  predicate Loaded(p: Phdr) {
    p.kind == PT_LOAD && p.memsz != 0
  }

  function RoundUp(x: nat, page: nat): (r: nat)
    requires page > 0
  {
    (x + page - 1) / page * page
  }

  function MapEnd(p: Phdr, page: nat): nat
    requires page > 0
  {
    RoundUp(p.vaddr + p.memsz, page)
  }

  /** The segment's page-rounded range covers address a. */
  predicate Covers(p: Phdr, page: nat, a: nat)
    requires page > 0
  {
    Loaded(p) && p.vaddr <= a < MapEnd(p, page)
  }

  /** The byte a segment puts at an address it covers: file data, then zeros. */
  function ByteOf(file: seq<Byte>, p: Phdr, a: nat): Byte
  {
    if p.vaddr <= a < p.vaddr + p.filesz then At(file, p.offset + (a - p.vaddr)) else 0
  }

  /** Segment i is the last to cover a. */
  ghost predicate LastCover(segments: seq<Phdr>, page: nat, i: nat, a: nat)
    requires page > 0
  {
    i < |segments| && Covers(segments[i], page, a) && forall j :: i < j < |segments| ==> !Covers(segments[j], page, a)
  }

  ghost predicate Uncovered(segments: seq<Phdr>, page: nat, a: nat)
    requires page > 0
  {
    forall i :: 0 <= i < |segments| ==> !Covers(segments[i], page, a)
  }

  /** m is m0 with the segments loaded: each address is as the last segment that covers it says, and addresses no segment
      covers are untouched. */
  ghost predicate Image(file: seq<Byte>, segments: seq<Phdr>, page: nat, m0: Memory, m: Memory)
    requires page > 0
  {
    && (forall i: nat, a: nat :: LastCover(segments, page, i, a) ==> a in m && m[a] == ByteOf(file, segments[i], a))
    && (forall a: nat :: Uncovered(segments, page, a) ==> Same(m0, m, a))
  }

  predicate Same(m0: Memory, m: Memory, a: nat) {
    if a in m then a in m0 && m0[a] == m[a] else a !in m0
  }

  predicate In(lo: nat, hi: nat, a: nat) {
    lo <= a < hi
  }

  /** An anonymous mapping over a range: its bytes become zero. */
  function Zeroed(m: Memory, lo: nat, hi: nat): Memory {
    m + map a: nat | a < hi && In(lo, hi, a) :: 0
  }

  /** A copy of the bytes of the file from offset o on over a range. */
  function Copied(m: Memory, file: seq<Byte>, o: nat, lo: nat, hi: nat): Memory
    requires lo <= hi && o + (hi - lo) <= |file|
  {
    m + map a: nat | a < hi && In(lo, hi, a) :: At(file, o + (a - lo))
  }

  /** Rounding up gives the least multiple of the page size at or above x. */
  lemma RoundUpIs(x: nat, page: nat)
    requires page > 0
    ensures x <= RoundUp(x, page)
    ensures forall v: nat :: v % page == 0 && x <= v ==> RoundUp(x, page) <= v
  {
    var q := (x + page - 1) / page;
    assert x + page - 1 == q * page + (x + page - 1) % page;
    forall v: nat | v % page == 0 && x <= v ensures RoundUp(x, page) <= v {
      var k := v / page;
      assert v == k * page && (k + 1) * page == k * page + page;
      if k < q {
        Times(k + 1, q, page);
      } else {
        Times(q, k, page);
      }
    }
  }

  /** m' is m with the segment loaded, as far as address a goes. */
  ghost predicate Gets(file: seq<Byte>, p: Phdr, page: nat, m: Memory, m': Memory, a: nat)
    requires page > 0
  {
    if Covers(p, page, a) then a in m' && m'[a] == ByteOf(file, p, a) else Same(m, m', a)
  }

  /** What one segment does to memory. */
  lemma SegmentBytes(file: seq<Byte>, p: Phdr, page: nat, m: Memory, m': Memory, a: nat)
    requires page > 0 && SegmentOk(p, |file|, page)
    requires m' == if Loaded(p) then Copied(Zeroed(m, p.vaddr, MapEnd(p, page)), file, p.offset, p.vaddr, p.vaddr + p.filesz) else m
    ensures Gets(file, p, page, m, m', a)
  {
    RoundUpIs(p.vaddr + p.memsz, page);
    hide RoundUp;
  }

  /** Undefined: the stride of the table overflows, which the language leaves undefined. */
  datatype Outcome = Done(memory: Memory) | Failed | Undefined

  /** Maps and fills one segment, if it is to be loaded and the mapping succeeds. */
  method LoadSegment(file: seq<Byte>, p: Phdr, page: nat, mapOk: bool, m: Memory) returns (r: Outcome)
    requires page > 0
    ensures r.Done? <==> SegmentOk(p, |file|, page) && (Loaded(p) ==> mapOk)
    ensures r != Undefined
    ensures r.Done? ==> forall a: nat :: Gets(file, p, page, m, r.memory, a)
  {
    hide Zeroed, Copied, MapEnd, Gets;
    if p.kind != PT_LOAD {
      NotLoaded(file, p, page, m);
      return Done(m);
    }
    if p.offset > |file| {
      return Failed;
    }
    if p.offset + p.filesz >= WORD {
      return Failed;
    }
    if p.offset + p.filesz > |file| {
      return Failed;
    }
    if p.memsz < p.filesz {
      return Failed;
    }
    if p.memsz == 0 {
      NotLoaded(file, p, page, m);
      return Done(m);
    }
    if p.vaddr % page != 0 {
      return Failed;
    }
    if p.vaddr + p.memsz >= WORD {
      return Failed;
    }
    if !mapOk {
      return Failed;
    }
    var memory := Zeroed(m, p.vaddr, MapEnd(p, page));
    if p.filesz > 0 {
      memory := Copied(memory, file, p.offset, p.vaddr, p.vaddr + p.filesz);
    } else {
      CopiedNothing(memory, file, p.offset, p.vaddr);
    }
    forall a: nat ensures Gets(file, p, page, m, memory, a) {
      SegmentBytes(file, p, page, m, memory, a);
    }
    return Done(memory);
  }

  lemma NotLoaded(file: seq<Byte>, p: Phdr, page: nat, m: Memory)
    requires page > 0 && !Loaded(p)
    ensures forall a: nat :: Gets(file, p, page, m, m, a)
  {}

  lemma CopiedNothing(m: Memory, file: seq<Byte>, o: nat, lo: nat)
    requires o <= |file|
    ensures Copied(m, file, o, lo, lo) == m
  {}

  /** Loading one more segment turns the image of those before it into the image of all. */
  lemma LoadStep(file: seq<Byte>, segments: seq<Phdr>, p: Phdr, page: nat, m0: Memory, m: Memory, m': Memory)
    requires page > 0 && Image(file, segments, page, m0, m)
    requires forall a: nat :: Gets(file, p, page, m, m', a)
    ensures Image(file, segments + [p], page, m0, m')
  {
    hide Covers, ByteOf;
    var all := segments + [p];
    forall i: nat, a: nat | LastCover(all, page, i, a) ensures a in m' && m'[a] == ByteOf(file, all[i], a) {
      assert Gets(file, p, page, m, m', a);
      if i < |segments| {
        assert !Covers(all[|segments|], page, a);
        assert forall j :: 0 <= j < |segments| ==> all[j] == segments[j];
        assert LastCover(segments, page, i, a);
      }
    }
    forall a: nat | Uncovered(all, page, a) ensures Same(m0, m', a) {
      assert Gets(file, p, page, m, m', a);
      assert !Covers(all[|segments|], page, a);
      assert forall j :: 0 <= j < |segments| ==> all[j] == segments[j];
      assert Uncovered(segments, page, a);
    }
  }

  lemma NoSegments(file: seq<Byte>, page: nat, m: Memory)
    requires page > 0
    ensures Image(file, [], page, m, m)
  {}

  /** Loads the segments of an accepted file in order; any bad segment or failed mapping stops the loader, and a stride
      that overflows leaves it undefined. */
  method LoadSegments(file: seq<Byte>, page: nat, mapOk: seq<bool>, m0: Memory) returns (r: Outcome)
    requires Valid(file) && page > 0 && |mapOk| == |Segments(file)|
    ensures r == Undefined ==> !StrideFits(Header(file))
    ensures r.Done? <==> StrideFits(Header(file)) && forall i :: 0 <= i < |Segments(file)| ==>
              SegmentOk(Segments(file)[i], |file|, page) && (Loaded(Segments(file)[i]) ==> mapOk[i])
    ensures r.Done? ==> Image(file, Segments(file), page, m0, r.memory)
  {
    hide Header, SegmentAt, Image, SegmentOk, Loaded, Gets, Validate;
    ghost var segments := Segments(file);
    var memory := m0;
    var i := 0;
    NoSegments(file, page, m0);
    while i < Header(file).phnum
      invariant i <= Header(file).phnum && (i < Header(file).phnum ==> i * Header(file).phentsize < INT_LIMIT)
      invariant i == Header(file).phnum ==> StrideFits(Header(file))
      invariant forall j :: 0 <= j < i ==> SegmentOk(segments[j], |file|, page) && (Loaded(segments[j]) ==> mapOk[j])
      invariant Image(file, segments[..i], page, m0, memory)
    {
      if i + 1 < Header(file).phnum && (i + 1) * Header(file).phentsize >= INT_LIMIT {
        Times(i + 1, Header(file).phnum - 1, Header(file).phentsize);
        return Undefined;
      }
      var p := SegmentAt(file, Header(file).phoff + i * Header(file).phentsize);
      assert p == segments[i];
      var next := LoadSegment(file, p, page, mapOk[i], memory);
      if next.Failed? {
        return Failed;
      }
      LoadStep(file, segments[..i], p, page, m0, memory, next.memory);
      assert segments[..i] + [p] == segments[..i + 1];
      memory := next.memory;
      i := i + 1;
    }
    assert segments[..i] == segments;
    return Done(memory);
  }

  /** The image is determined: no two memories are the image of the same segments over the same memory. */
  lemma ImageUnique(file: seq<Byte>, segments: seq<Phdr>, page: nat, m0: Memory, m: Memory, m': Memory)
    requires page > 0 && Image(file, segments, page, m0, m) && Image(file, segments, page, m0, m')
    ensures m == m'
  {
    hide Covers, ByteOf;
    forall a: nat ensures Same(m, m', a) {
      if !Uncovered(segments, page, a) {
        var i := LastOf(segments, page, a);
        assert LastCover(segments, page, i, a);
      }
    }
    assert forall a: nat :: Same(m, m', a) ==> (a in m.Keys <==> a in m'.Keys);
    assert m.Keys == m'.Keys;
    assert forall a: nat :: a in m ==> Same(m, m', a) && m[a] == m'[a];
  }

  ghost function LastOf(segments: seq<Phdr>, page: nat, a: nat): (i: nat)
    requires page > 0 && !Uncovered(segments, page, a)
    ensures LastCover(segments, page, i, a)
  {
    var n := |segments| - 1;
    if Covers(segments[n], page, a) then n
    else
      assert !Uncovered(segments[..n], page, a);
      LastOf(segments[..n], page, a)
  }

  /** Because segments start on page boundaries, their page-rounded ranges meet exactly when the segments do. */
  lemma RoundingAddsNoOverlap(p: Phdr, q: Phdr, size: nat, page: nat)
    requires page > 0 && SegmentOk(p, size, page) && SegmentOk(q, size, page) && Loaded(p) && Loaded(q)
    ensures (exists a: nat :: Covers(p, page, a) && Covers(q, page, a)) <==>
            p.vaddr < q.vaddr + q.memsz && q.vaddr < p.vaddr + p.memsz
  {
    RoundUpIs(p.vaddr + p.memsz, page);
    RoundUpIs(q.vaddr + q.memsz, page);
    hide RoundUp;
    if p.vaddr < q.vaddr + q.memsz && q.vaddr < p.vaddr + p.memsz {
      var a := if p.vaddr < q.vaddr then q.vaddr else p.vaddr;
      assert Covers(p, page, a) && Covers(q, page, a);
    }
  }

  predicate Apart(p: Phdr, q: Phdr) {
    Loaded(p) && Loaded(q) ==> p.vaddr + p.memsz <= q.vaddr || q.vaddr + q.memsz <= p.vaddr
  }

  /** Segments that do not overlap are all present together: file data, then zeros up to the memory size. */
  lemma AllPresent(file: seq<Byte>, segments: seq<Phdr>, page: nat, m0: Memory, m: Memory, i: nat, k: nat)
    requires page > 0 && Image(file, segments, page, m0, m) && i < |segments| && Loaded(segments[i]) && k < segments[i].memsz
    requires forall j :: 0 <= j < |segments| ==> SegmentOk(segments[j], |file|, page)
    requires forall j :: 0 <= j < |segments| && j != i ==> Apart(segments[i], segments[j])
    ensures var p := segments[i];
            && p.vaddr + k in m
            && (k < p.filesz ==> p.offset + k < |file| && m[p.vaddr + k] == file[p.offset + k])
            && (k >= p.filesz ==> m[p.vaddr + k] == 0)
  {
    var p, a := segments[i], segments[i].vaddr + k;
    RoundUpIs(p.vaddr + p.memsz, page);
    assert Covers(p, page, a);
    forall j | i < j < |segments| ensures !Covers(segments[j], page, a) {
      if Loaded(segments[j]) {
        RoundingAddsNoOverlap(p, segments[j], |file|, page);
      }
    }
    assert LastCover(segments, page, i, a);
  }
}
