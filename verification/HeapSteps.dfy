/**
 One step of the kernel heap at a time, on values: what a placement, a growth, a
 release or a shrink does to the layout, to the stored headers and to the
 counters of kernel/kmalloc.c.
 */
module HeapSteps {
  import opened HeapLayout
  import opened Machine
  import opened SeqOps
  import opened HeapLinks

  /** Fresh pages: inside the address space and apart from every live block. */
  predicate FreshPages(lay: seq<Block>, base: int, pages: int) {
    && 0 < base && base % PAGE_SIZE == 0 && 0 < pages
    && base + pages * PAGE_SIZE <= WORD
    && forall k :: 0 <= k < |lay| ==> Apart(lay[k], Block(base, pages, 0, []))
  }

  ghost predicate SourceOk(lay: seq<Block>, source: int -> int) {
    forall n :: n > 0 ==> source(n) == 0 || FreshPages(lay, source(n), n)
  }

  /** The 32-bit `size` that kmemalign works with: enlarged only for alignments
      above 1. */
  function PayloadSize(req: int, aln: int): (size: nat)
    ensures size < WORD
  {
    Wrap(if aln > 1 then req + aln + ALIGN_INFO else req)
  }

  /** The 32-bit byte count that a gap is compared with. */
  function Need(size: int): (need: nat)
    ensures SizeOk(size) ==> need == size + MINOR_SIZE
  {
    Wrap(size + MINOR_SIZE)
  }

  /** The sizes that stay below 2^32 when both headers are added. */
  predicate SizeOk(size: int) {
    0 <= size && size + MAJOR_SIZE + MINOR_SIZE < WORD
  }

  /** Sizes that no gap and no fresh pages can ever hold: kmemalign refuses them. */
  predicate TooBig(size: int) {
    SizeOk(size) && size + MAJOR_SIZE + MINOR_SIZE + PAGE_SIZE > WORD
  }

  /** The requests that kmemalign deals with rightly; see HeapTheorems.RequestSafeIff. */
  predicate Servable(req: int, aln: int) {
    SafeRequest(req, aln) || (0 <= req && 0 <= aln && TooBig(PayloadSize(req, aln)))
  }

  predicate SafeRequest(req: int, aln: int) {
    || (req == 0 && 0 <= aln <= 1)
    || (Alignment(aln) && 0 <= req && SizeOk(req + aln + ALIGN_INFO))
  }

  /** The request and alignment kmemalign looks for: a size of 0 becomes kmalloc(1). */
  function Served(req: int, aln: int): (int, int) {
    if PayloadSize(req, aln) == 0 then (1, DEFAULT_ALIGNMENT) else (req, aln)
  }

  lemma ServedSafe(req: int, aln: int)
    requires SafeRequest(req, aln)
    ensures Alignment(aln) ==> PayloadSize(req, aln) == req + aln + ALIGN_INFO && Served(req, aln) == (req, aln)
    ensures PayloadSize(req, aln) == 0 <==> aln <= 1
    ensures aln <= 1 ==> Served(req, aln) == (1, 16)
    ensures Alignment(Served(req, aln).1) && 0 <= Served(req, aln).0
  {
  }

  lemma BigNeverFits(lay: seq<Block>, i: int, size: int)
    requires LayoutOk(lay) && AlignedOk(lay) && SumsOk(lay) && 0 <= i < |lay| && TooBig(size)
    ensures lay[i].Size() - (MAJOR_SIZE + lay[i].used) < size + MINOR_SIZE
  {
    var b := lay[i];
    assert BlockOk(b) && b.base % PAGE_SIZE == 0 && b.base >= PAGE_SIZE;
    UsedPrefix(b, |b.mins|);
    assert b.mins[..|b.mins|] == b.mins;
  }

  lemma BigNoPages(lay: seq<Block>, source: int -> int, size: int)
    requires SourceOk(lay, source) && TooBig(size)
    ensures source(PagesFor(size)) == 0
  {
    var n := PagesFor(size);
    assert source(n) == 0 || FreshPages(lay, source(n), n);
  }

  /** Pages that allocate_new_page asks for, in 32-bit arithmetic. */
  function PagesFor(size: int): (n: int)
    ensures n >= PAGE_COUNT
    ensures SizeOk(size) ==> n * PAGE_SIZE >= size + MAJOR_SIZE + MINOR_SIZE
  {
    var st := Wrap(Wrap(size + MAJOR_SIZE) + MINOR_SIZE);
    var n := if st % PAGE_SIZE == 0 then st / PAGE_SIZE else st / PAGE_SIZE + 1;
    if n < PAGE_COUNT then PAGE_COUNT else n
  }

  /** No smaller number of pages, at least 16, holds the size and both headers. */
  lemma PagesForLeast(size: int, n: int)
    requires SizeOk(size) && n >= PAGE_COUNT && n * PAGE_SIZE >= size + MAJOR_SIZE + MINOR_SIZE
    ensures PagesFor(size) <= n
  {
    var st := size + MAJOR_SIZE + MINOR_SIZE;
    assert Wrap(Wrap(size + MAJOR_SIZE) + MINOR_SIZE) == st;
  }

  /** Free bytes of a block by its counters. */
  function FreeBytes(b: Block): int {
    b.Size() - (MAJOR_SIZE + b.used)
  }

  /** The block that growing by `size` bytes adds: roomy enough. */
  function NewBlock(size: int, source: int -> int): (b: Block)
    requires SizeOk(size)
    ensures b.mins == [] && Gap(b, 0) >= size + MINOR_SIZE
  {
    Block(source(PagesFor(size)), PagesFor(size), 0, [])
  }

  predicate HeadersOk(major: Majors, minor: Minors, mem: Mem, lay: seq<Block>) {
    && LayoutOk(lay) && AlignedOk(lay) && SumsOk(lay)
    && MajorsOk(major, lay) && MinorsOk(minor, lay) && RecordsOk(mem, lay)
  }

  /** Headers changed between two states only where `lay` has live minors. */
  predicate OnlyMinors(minor: Minors, minor': Minors, lay: seq<Block>) {
    && (forall x :: x in minor ==> x in minor')
    && (forall x :: x in minor' && !IsMinor(lay, x) ==> x in minor && minor'[x] == minor[x])
  }

  predicate OnlyMajors(major: Majors, major': Majors, lay: seq<Block>) {
    && (forall x :: x in major ==> x in major')
    && (forall x :: x in major' && !IsMajor(lay, x) ==> x in major && major'[x] == major[x])
  }

  /** Bytes changed only in the alignment record of `m`. */
  ghost predicate OnlyRecord(mem: Mem, mem': Mem, m: Min) {
    forall x :: !(m.ptr - ALIGN_INFO <= x < m.ptr - ALIGN_INFO + 4) ==> Byte(mem', x) == Byte(mem, x)
  }

  predicate Fits(lay: seq<Block>, i: int, j: int, size: int, req: int, aln: int) {
    && 0 <= i < |lay| && 0 <= j <= |lay[i].mins|
    && Alignment(aln) && 0 <= req && size == req + aln + ALIGN_INFO
    && Gap(lay[i], j) >= size + MINOR_SIZE
  }

  /** The minor that an allocation puts into gap j of block i. */
  function Placed(lay: seq<Block>, i: int, j: int, size: int, req: int, aln: int): (m: Min)
    requires Fits(lay, i, j, size, req, aln)
    ensures MinOk(m) && PtrOk(m)
    ensures m.addr == GapStart(lay[i], j) && m.addr < m.End() <= GapEnd(lay[i], j)
  {
    NewMin(lay[i], j, size, req, aln)
  }

  /** One placement, whichever of the cases took it, keeps every header, record
      and counter in step with the layout. */
  lemma PlaceOk(major: Majors, minor: Minors, mem: Mem, lay: seq<Block>,
                i: int, j: int, size: int, req: int, aln: int)
    requires HeadersOk(major, minor, mem, lay) && Fits(lay, i, j, size, req, aln)
    ensures var m := Placed(lay, i, j, size, req, aln);
            && lay[i].base in major
            && HeadersOk(UpdateMajor(major, WithMin(lay[i], j, m)), LinkMinor(minor, lay[i], j, m),
                         WriteRecord(mem, m), InsertMin(lay, i, j, m))
  {
    var m := Placed(lay, i, j, size, req, aln);
    LinkMinorLayout(minor, lay, i, j, m);
    WriteRecordLayout(mem, lay, i, j, m);
    BasesDiffer(lay);
    assert MajorOk(major, lay, i);
    UpdateMajorLayout(major, lay, i, WithMin(lay[i], j, m));
    SumInsert(lay[i].mins, j, m);
    PlaceAligned(lay, i, j, m);
  }

  lemma PlaceAligned(lay: seq<Block>, i: int, j: int, m: Min)
    requires AlignedOk(lay) && 0 <= i < |lay| && 0 <= j <= |lay[i].mins| && PtrOk(m)
    ensures AlignedOk(InsertMin(lay, i, j, m))
  {
    hide PtrOk;
    var lay' := InsertMin(lay, i, j, m);
    forall k, l | 0 <= k < |lay'| && 0 <= l < |lay'[k].mins| ensures PtrOk(lay'[k].mins[l]) {
      if k == i && l == j {
        assert lay'[k].mins[l] == m;
      } else {
        assert lay'[k].mins[l] == lay[k].mins[if k != i || l < j then l else l - 1];
      }
    }
  }

  lemma PlaceFrame(major: Majors, minor: Minors, lay: seq<Block>, i: int, j: int, m: Min)
    requires MajorsOk(major, lay) && MinorsOk(minor, lay)
    requires 0 <= i < |lay| && 0 <= j <= |lay[i].mins|
    ensures lay[i].base in major
    ensures OnlyMinors(minor, LinkMinor(minor, lay[i], j, m), InsertMin(lay, i, j, m))
    ensures OnlyMajors(major, UpdateMajor(major, WithMin(lay[i], j, m)), InsertMin(lay, i, j, m))
  {
    assert MajorOk(major, lay, i);
    var lay' := InsertMin(lay, i, j, m);
    assert lay'[i].base == lay[i].base;
    assert lay'[i].mins[j] == m;
    if j > 0 { assert lay'[i].mins[j-1] == lay[i].mins[j-1]; }
    if j < |lay[i].mins| { assert lay'[i].mins[j+1] == lay[i].mins[j]; }
  }

  lemma SameBases(lay: seq<Block>, i: int, b: Block, x: int)
    requires 0 <= i < |lay| && b.base == lay[i].base && IsMajor(lay, x)
    ensures IsMajor(lay[i := b], x)
  {
    var k :| 0 <= k < |lay| && lay[k].base == x;
    assert lay[i := b][k].base == x;
  }

  /** What a placement leaves alone, and the totals after it. */
  lemma PlaceOther(major: Majors, minor: Minors, mem: Mem, lay: seq<Block>,
                   i: int, j: int, m: Min, bet: int)
    requires MajorsOk(major, lay) && MinorsOk(minor, lay)
    requires 0 <= i < |lay| && 0 <= j <= |lay[i].mins| && MinOk(m)
    requires bet == 0 || IsMajor(lay, bet)
    ensures lay[i].base in major
    ensures OnlyMinors(minor, LinkMinor(minor, lay[i], j, m), InsertMin(lay, i, j, m))
    ensures OnlyMajors(major, UpdateMajor(major, WithMin(lay[i], j, m)), InsertMin(lay, i, j, m))
    ensures OnlyRecord(mem, WriteRecord(mem, m), m)
    ensures InUse(InsertMin(lay, i, j, m)) == InUse(lay) + m.size
    ensures Allocated(InsertMin(lay, i, j, m)) == Allocated(lay)
    ensures bet == 0 || IsMajor(InsertMin(lay, i, j, m), bet)
  {
    PlaceFrame(major, minor, lay, i, j, m);
    WriteRecordReads(mem, m);
    InUseUpdate(lay, i, WithMin(lay[i], j, m));
    SumInsert(lay[i].mins, j, m);
    if bet != 0 { SameBases(lay, i, WithMin(lay[i], j, m), bet); }
  }

  lemma GrowQuiet(minor: Minors, mem: Mem, lay: seq<Block>, b: Block)
    requires AlignedOk(lay) && SumsOk(lay) && MinorsOk(minor, lay) && RecordsOk(mem, lay)
    requires b.base % PAGE_SIZE == 0 && b.mins == [] && b.used == 0
    ensures AlignedOk(lay + [b]) && SumsOk(lay + [b]) && MinorsOk(minor, lay + [b]) && RecordsOk(mem, lay + [b])
    ensures InUse(lay + [b]) == InUse(lay) && Allocated(lay + [b]) == Allocated(lay) + b.Size()
  {
    assert (lay + [b])[..|lay|] == lay;
  }

  lemma GrowFrame(major: Majors, lay: seq<Block>, b: Block)
    requires MajorsOk(major, lay)
    ensures OnlyMajors(major, AppendMajor(major, lay, b), lay + [b])
  {
    assert (lay + [b])[|lay|] == b;
    if lay != [] { assert (lay + [b])[|lay|-1] == lay[|lay|-1]; }
  }

  /** An empty block of fresh pages hooked behind the last one keeps everything
      in step. */
  lemma GrowOk(major: Majors, minor: Minors, mem: Mem, lay: seq<Block>, b: Block)
    requires HeadersOk(major, minor, mem, lay) && FreshPages(lay, b.base, b.pages)
    requires b.mins == [] && b.used == 0
    ensures HeadersOk(AppendMajor(major, lay, b), minor, mem, lay + [b])
    ensures lay != [] ==> b.base != lay[|lay|-1].base
    ensures InUse(lay + [b]) == InUse(lay) && Allocated(lay + [b]) == Allocated(lay) + b.Size()
    ensures OnlyMajors(major, AppendMajor(major, lay, b), lay + [b])
  {
    assert b == Block(b.base, b.pages, 0, []);
    AppendLayout(lay, b);
    hide MinorsOk, RecordsOk, AlignedOk, SumsOk;
    GrowQuiet(minor, mem, lay, b);
    BasesDiffer(lay + [b]);
    if lay != [] { assert (lay + [b])[|lay|-1].base != (lay + [b])[|lay|].base; }
    hide LayoutOk;
    AppendMajorLayout(major, lay, b);
    GrowFrame(major, lay, b);
  }

  lemma FreshOf(lay: seq<Block>, source: int -> int, size: int)
    requires SizeOk(size) && SourceOk(lay, source) && source(PagesFor(size)) != 0
    ensures FreshPages(lay, NewBlock(size, source).base, NewBlock(size, source).pages)
    ensures PagesFor(size) * PAGE_SIZE < WORD
  {
  }

  lemma SameMajors(major: Majors, lay: seq<Block>)
    ensures OnlyMajors(major, major, lay)
  {
  }

  lemma SameMinors(minor: Minors, lay: seq<Block>)
    ensures OnlyMinors(minor, minor, lay)
  {
  }

  lemma MoreBases(lay: seq<Block>, b: Block, x: int)
    requires IsMajor(lay, x)
    ensures IsMajor(lay + [b], x)
  {
    var k :| 0 <= k < |lay| && lay[k].base == x;
    assert (lay + [b])[k].base == x;
  }

  lemma LastMajor(major: Majors, lay: seq<Block>)
    requires LayoutOk(lay) && MajorsOk(major, lay) && lay != []
    ensures lay[|lay|-1].base != 0 && lay[|lay|-1].base in major && major[lay[|lay|-1].base].next == 0
  {
    assert BlockOk(lay[|lay|-1]) && MajorOk(major, lay, |lay| - 1);
  }

  lemma OnlyMajorsTrans(major0: Majors, major1: Majors, lay1: seq<Block>, i: int, b: Block, major2: Majors)
    requires 0 <= i < |lay1| && b.base == lay1[i].base
    requires OnlyMajors(major0, major1, lay1) && OnlyMajors(major1, major2, lay1[i := b])
    ensures OnlyMajors(major0, major2, lay1[i := b])
  {
    forall x | IsMajor(lay1, x) ensures IsMajor(lay1[i := b], x) {
      SameBases(lay1, i, b, x);
    }
  }

  /** A block whose free byte count is short has no gap that is long enough. */
  lemma QuickTest(lay: seq<Block>, i: int, need: int)
    requires LayoutOk(lay) && SumsOk(lay) && 0 <= i < |lay|
    requires lay[i].Size() - (MAJOR_SIZE + lay[i].used) < need
    ensures NoRoom(lay[i], need)
  {
    assert BlockOk(lay[i]);
    forall j | 0 <= j <= |lay[i].mins| ensures Gap(lay[i], j) < need {
      FreeBoundsGap(lay[i], j);
    }
  }

  lemma HasRoom(b: Block, j: int, need: int)
    requires 0 <= j <= |b.mins| && Gap(b, j) >= need
    ensures !NoRoom(b, need)
  {
  }

  /** What the search may assume about the block it stands on. */
  lemma AtMajor(major: Majors, lay: seq<Block>, i: int)
    requires LayoutOk(lay) && MajorsOk(major, lay) && 0 <= i < |lay|
    ensures lay[i].base != 0 && lay[i].base in major && major[lay[i].base] == MajorAt(lay, i)
    ensures major[lay[i].base].next == 0 <==> i + 1 == |lay|
    ensures IsMajor(lay, lay[i].base)
  {
    assert MajorOk(major, lay, i) && BlockOk(lay[i]);
    if i + 1 < |lay| { assert BlockOk(lay[i+1]); }
  }

  lemma AtBlockFacts(major: Majors, minor: Minors, lay: seq<Block>, i: int)
    requires LayoutOk(lay) && MajorsOk(major, lay) && MinorsOk(minor, lay) && 0 <= i < |lay|
    ensures lay[i].base in major && major[lay[i].base] == MajorAt(lay, i)
    ensures BlockOk(lay[i]) && MinorsOf(minor, lay[i])
    ensures lay[i].mins != [] ==> lay[i].mins[0].addr > 0
  {
    assert MajorOk(major, lay, i) && BlockOk(lay[i]) && MinorsOf(minor, lay[i]);
    if lay[i].mins != [] { assert MinOk(lay[i].mins[0]); }
  }

  /** What an allocation does to the layout: one new minor at the start of a gap
      of an old block or, when it had to grow, of the fresh last block. */
  ghost predicate Allocation(lay: seq<Block>, lay': seq<Block>, grown: bool, i: int, j: int,
                             size: int, req: int, aln: int, source: int -> int, p: int) {
    && SizeOk(size)
    && var space := if grown then lay + [NewBlock(size, source)] else lay;
    && Fits(space, i, j, size, req, aln)
    && lay' == InsertMin(space, i, j, Placed(space, i, j, size, req, aln))
    && p == Placed(space, i, j, size, req, aln).ptr
    && (grown ==> i == |lay| && j == 0)
  }

  /** None of the first n blocks has a gap of `need` bytes. */
  predicate FullTo(lay: seq<Block>, n: int, need: int) {
    forall k :: 0 <= k < n && k < |lay| ==> NoRoom(lay[k], need)
  }

  predicate Full(lay: seq<Block>, need: int) {
    FullTo(lay, |lay|, need)
  }

  /** No gap holds the size, and there are no pages for it. */
  predicate Refused(lay: seq<Block>, size: int, source: int -> int) {
    Full(lay, size + MINOR_SIZE) && source(PagesFor(size)) == 0
  }

  lemma FullStep(lay: seq<Block>, i: int, need: int)
    requires 0 <= i < |lay| && NoRoom(lay[i], need)
    ensures FullTo(lay, i, need) ==> FullTo(lay, i + 1, need)
    ensures FullTo(lay, 0, need)
  {
  }

  /** kmalloc(size) succeeds: some gap holds it, or there are pages for it. */
  predicate CanMove(lay: seq<Block>, size: int, source: int -> int) {
    var need := PayloadSize(size, DEFAULT_ALIGNMENT);
    Full(lay, need + MINOR_SIZE) ==> source(PagesFor(need)) != 0
  }

  /** What kmalloc makes of a size it can deal with. */
  lemma ServedMalloc(size: int)
    requires Servable(size, DEFAULT_ALIGNMENT)
    ensures Served(size, DEFAULT_ALIGNMENT) == (size, DEFAULT_ALIGNMENT)
    ensures !TooBig(PayloadSize(size, DEFAULT_ALIGNMENT)) ==>
              PayloadSize(size, DEFAULT_ALIGNMENT) == size + DEFAULT_ALIGNMENT + ALIGN_INFO
  {
  }

  /** An allocation that was made could be made. */
  lemma CouldMove(lay: seq<Block>, lay': seq<Block>, grown: bool, i: int, j: int, size: int, source: int -> int, p: int)
    requires var need := size + DEFAULT_ALIGNMENT + ALIGN_INFO;
             && PayloadSize(size, DEFAULT_ALIGNMENT) == need
             && Allocation(lay, lay', grown, i, j, need, size, DEFAULT_ALIGNMENT, source, p)
             && (grown <==> Full(lay, need + MINOR_SIZE))
    requires LayoutOk(lay')
    ensures CanMove(lay, size, source)
  {
    hide PagesFor, Full, Gap, Placed;
    if grown { assert BlockOk(lay'[|lay|]); }
  }

  /** What a krealloc that moves does: a new minor, the old bytes in it, and the old
      minor gone; no other byte changes. */
  ghost predicate MovedTo(lay: seq<Block>, mid: seq<Block>, lay': seq<Block>, mem: Mem, mem': Mem, grown: bool,
                          i: int, j: int, k: int, l: int, size: int, source: int -> int, p: int, r: int)
    requires 0 <= i < |lay| && 0 <= j < |lay[i].mins|
  {
    var need, req := size + DEFAULT_ALIGNMENT + ALIGN_INFO, lay[i].mins[j].req;
    && Allocation(lay, mid, grown, k, l, need, size, DEFAULT_ALIGNMENT, source, r)
    && 0 <= i < |mid| && 0 <= Shifted(i, j, k, l) < |mid[i].mins|
    && lay' == RemoveMin(mid, i, Shifted(i, j, k, l))
    && (forall x :: r <= x < r + req ==> Byte(mem', x) == Byte(mem, x - r + p))
    && (forall x :: !(r - ALIGN_INFO <= x < r + req) ==> Byte(mem', x) == Byte(mem, x))
  }

  /** What a krealloc does that gets no memory: the old bytes go to address 0 and the
      old minor is gone. */
  ghost predicate LostAt0(lay: seq<Block>, lay': seq<Block>, mem: Mem, mem': Mem, i: int, j: int, p: int)
    requires 0 <= i < |lay| && 0 <= j < |lay[i].mins|
  {
    var req := lay[i].mins[j].req;
    && lay' == RemoveMin(lay, i, j)
    && (forall x :: 0 <= x < req ==> Byte(mem', x) == Byte(mem, x + p))
    && (forall x :: !(0 <= x < req) ==> Byte(mem', x) == Byte(mem, x))
  }

  /** Copying to r after only the record before r has been written. */
  lemma BytesMoved(mem0: Mem, mem1: Mem, mem2: Mem, r: int, p: int, n: int)
    requires 0 <= n && (p + n <= r - ALIGN_INFO || r <= p)
    requires forall x :: !(r - ALIGN_INFO <= x < r) ==> Byte(mem1, x) == Byte(mem0, x)
    requires forall x :: r <= x < r + n ==> Byte(mem2, x) == Byte(mem1, x - r + p)
    requires forall x :: !(r <= x < r + n) ==> Byte(mem2, x) == Byte(mem1, x)
    ensures forall x :: r <= x < r + n ==> Byte(mem2, x) == Byte(mem0, x - r + p)
    ensures forall x :: !(r - ALIGN_INFO <= x < r + n) ==> Byte(mem2, x) == Byte(mem0, x)
  {
    hide Byte;
    forall x | r <= x < r + n ensures Byte(mem2, x) == Byte(mem0, x - r + p) {
      assert Byte(mem1, x - r + p) == Byte(mem0, x - r + p);
    }
  }

  /** n bytes at address 0 lie below every block. */
  predicate LowFits(lay: seq<Block>, n: int) {
    forall k :: 0 <= k < |lay| ==> n <= lay[k].base
  }

  lemma LowStores(mem: Mem, mem': Mem, lay: seq<Block>, n: int)
    requires LayoutOk(lay) && RecordsOk(mem, lay) && LowFits(lay, n)
    requires forall x :: !(0 <= x < n) ==> Byte(mem', x) == Byte(mem, x)
    ensures RecordsOk(mem', lay)
  {
    forall k, l | 0 <= k < |lay| && 0 <= l < |lay[k].mins| ensures RecordOk(mem', lay[k].mins[l]) {
      assert RecordOk(mem, lay[k].mins[l]);
      assert BlockOk(lay[k]) && MinOk(lay[k].mins[l]);
    }
  }

  lemma LivePtrLow(lay: seq<Block>, i: int, j: int, n: int)
    requires LayoutOk(lay) && LowFits(lay, n) && 0 <= i < |lay| && 0 <= j < |lay[i].mins|
    ensures n <= lay[i].mins[j].ptr
  {
    assert BlockOk(lay[i]) && MinOk(lay[i].mins[j]);
  }

  /** ptr is what kmemalign returned for the live minor (i, j). */
  predicate IsLive(lay: seq<Block>, i: int, j: int, ptr: int) {
    0 <= i < |lay| && 0 <= j < |lay[i].mins| && lay[i].mins[j].ptr == ptr
  }

  /** UNALIGN undoes ALIGN: the record before a live pointer leads back to the
      start of its payload. */
  lemma UnalignLive(mem: Mem, lay: seq<Block>, i: int, j: int)
    requires LayoutOk(lay) && RecordsOk(mem, lay) && 0 <= i < |lay| && 0 <= j < |lay[i].mins|
    ensures UnalignedPtr(mem, lay[i].mins[j].ptr) == lay[i].mins[j].addr + MINOR_SIZE
  {
    assert BlockOk(lay[i]);
    assert MinOk(lay[i].mins[j]) && RecordOk(mem, lay[i].mins[j]);
  }

  lemma LiveHeader(minor: Minors, lay: seq<Block>, i: int, j: int)
    requires LayoutOk(lay) && MinorsOk(minor, lay) && 0 <= i < |lay| && 0 <= j < |lay[i].mins|
    ensures lay[i].mins[j].addr in minor && minor[lay[i].mins[j].addr] == MinorAt(lay[i], j)
    ensures lay[i].mins[j].addr > 0 && lay[i].mins[j].ptr > 0 && BlockOk(lay[i]) && MinorsOf(minor, lay[i])
  {
    assert BlockOk(lay[i]) && MinorsOf(minor, lay[i]) && MinOk(lay[i].mins[j]);
    assert MinorOk(minor, lay[i], j);
  }

  lemma LiveReq(lay: seq<Block>, i: int, j: int)
    requires LayoutOk(lay) && 0 <= i < |lay| && 0 <= j < |lay[i].mins|
    ensures 0 <= lay[i].mins[j].req && lay[i].mins[j].ptr > 0
  {
    assert BlockOk(lay[i]) && MinOk(lay[i].mins[j]);
  }

  lemma LiveMins(lay: seq<Block>, i: int)
    requires LayoutOk(lay) && 0 <= i < |lay|
    ensures lay[i].mins != [] ==> lay[i].mins[0].addr != 0
  {
    assert BlockOk(lay[i]);
    if lay[i].mins != [] { assert MinOk(lay[i].mins[0]); }
  }

  lemma WithoutAligned(lay: seq<Block>, i: int, j: int)
    requires 0 <= i < |lay| && 0 <= j < |lay[i].mins| && AlignedOk(lay)
    ensures AlignedOk(lay[i := WithoutMin(lay[i], j)])
  {
    hide PtrOk;
    var lay' := lay[i := WithoutMin(lay[i], j)];
    forall k, l | 0 <= k < |lay'| && 0 <= l < |lay'[k].mins| ensures PtrOk(lay'[k].mins[l]) {
      assert lay'[k].mins[l] == lay[k].mins[if k != i || l < j then l else l + 1];
    }
  }

  lemma WithoutSums(lay: seq<Block>, i: int, j: int)
    requires 0 <= i < |lay| && 0 <= j < |lay[i].mins| && SumsOk(lay) && AlignedOk(lay)
    ensures SumsOk(lay[i := WithoutMin(lay[i], j)]) && AlignedOk(lay[i := WithoutMin(lay[i], j)])
    ensures InUse(lay[i := WithoutMin(lay[i], j)]) == InUse(lay) - lay[i].mins[j].size
    ensures Allocated(lay[i := WithoutMin(lay[i], j)]) == Allocated(lay)
  {
    hide AlignedOk;
    WithoutAligned(lay, i, j);
    SumRemove(lay[i].mins, j);
    InUseUpdate(lay, i, WithoutMin(lay[i], j));
  }

  /** Unlinking one minor keeps headers, records and sums in step; its block may
      be left empty. */
  lemma FreeOk(major: Majors, minor: Minors, mem: Mem, lay: seq<Block>, i: int, j: int)
    requires HeadersOk(major, minor, mem, lay) && 0 <= i < |lay| && 0 <= j < |lay[i].mins|
    ensures lay[i].base in major
    ensures HeadersOk(UpdateMajor(major, WithoutMin(lay[i], j)), UnlinkMinor(minor, lay[i], j), mem,
                      lay[i := WithoutMin(lay[i], j)])
  {
    assert MajorOk(major, lay, i);
    UnlinkMinorLayout(minor, lay, i, j);
    BasesDiffer(lay);
    UpdateMajorLayout(major, lay, i, WithoutMin(lay[i], j));
    RecordsRemove(mem, lay, i, j);
    WithoutSums(lay, i, j);
  }

  /** A free changes headers only where the layout had live ones. */
  lemma FreeFrame(major: Majors, minor: Minors, lay: seq<Block>, i: int, j: int)
    requires MajorsOk(major, lay) && MinorsOk(minor, lay) && 0 <= i < |lay| && 0 <= j < |lay[i].mins|
    ensures lay[i].base in major
    ensures OnlyMinors(minor, UnlinkMinor(minor, lay[i], j), lay)
    ensures OnlyMajors(major, UpdateMajor(major, WithoutMin(lay[i], j)), lay)
  {
    assert MajorOk(major, lay, i) && MinorsOf(minor, lay[i]);
    var b := lay[i];
    assert IsMinor(lay, b.mins[j].addr) && IsMajor(lay, b.base);
    assert j > 0 ==> IsMinor(lay, b.mins[j-1].addr);
    assert j + 1 < |b.mins| ==> IsMinor(lay, b.mins[j+1].addr);
  }

  lemma ReleaseFrame(major: Majors, lay: seq<Block>, i: int)
    requires MajorsOk(major, lay) && 0 <= i < |lay|
    ensures OnlyMajors(major, UnlinkMajor(major, lay, i), lay)
  {
    assert i > 0 ==> IsMajor(lay, lay[i-1].base);
    assert i + 1 < |lay| ==> IsMajor(lay, lay[i+1].base);
  }

  /** Frames over the same blocks, whatever their minors, compose. */
  lemma ReleaseFrames(major0: Majors, major1: Majors, major2: Majors, lay: seq<Block>, i: int, b: Block)
    requires 0 <= i < |lay| && b.base == lay[i].base
    requires OnlyMajors(major0, major1, lay) && OnlyMajors(major1, major2, lay[i := b])
    ensures OnlyMajors(major0, major2, lay)
  {
    forall x | IsMajor(lay[i := b], x) ensures IsMajor(lay, x) {
      SameBases(lay[i := b], i, lay[i], x);
      assert lay[i := b][i := lay[i]] == lay;
    }
  }

  lemma OnlyTwice(major0: Majors, major1: Majors, major2: Majors, minor0: Minors, minor1: Minors, minor2: Minors,
                  lay: seq<Block>)
    requires OnlyMajors(major0, major1, lay) && OnlyMajors(major1, major2, lay)
    requires OnlyMinors(minor0, minor1, lay) && OnlyMinors(minor1, minor2, lay)
    ensures OnlyMajors(major0, major2, lay) && OnlyMinors(minor0, minor2, lay)
  {
  }

  lemma ReleaseSums(lay: seq<Block>, i: int)
    requires SumsOk(lay) && AlignedOk(lay) && 0 <= i < |lay|
    ensures SumsOk(RemoveAt(lay, i)) && AlignedOk(RemoveAt(lay, i))
  {
    hide PtrOk;
    var lay' := RemoveAt(lay, i);
    forall k | 0 <= k < |lay'| ensures lay'[k].base % PAGE_SIZE == 0 && lay'[k].used == Used(lay'[k].mins) {
      assert lay'[k] == lay[if k < i then k else k + 1];
    }
    forall k, l | 0 <= k < |lay'| && 0 <= l < |lay'[k].mins| ensures PtrOk(lay'[k].mins[l]) {
      assert lay'[k] == lay[if k < i then k else k + 1];
    }
  }

  lemma ReleaseOk(major: Majors, minor: Minors, mem: Mem, lay: seq<Block>, i: int)
    requires HeadersOk(major, minor, mem, lay) && 0 <= i < |lay| && lay[i].mins == []
    ensures HeadersOk(UnlinkMajor(major, lay, i), minor, mem, RemoveAt(lay, i))
    ensures InUse(RemoveAt(lay, i)) == InUse(lay)
    ensures Allocated(RemoveAt(lay, i)) == Allocated(lay) - lay[i].Size()
  {
    hide LayoutOk, AlignedOk, SumsOk, MajorsOk, MinorsOk, RecordsOk;
    UnlinkMajorLayout(major, minor, lay, i);
    RecordsRemoveBlock(mem, lay, i);
    TotalsRemove(lay, i);
    ReleaseSums(lay, i);
  }

  /** The neighbours of block i as its header names them. */
  lemma Neighbours(major: Majors, lay: seq<Block>, i: int)
    requires LayoutOk(lay) && MajorsOk(major, lay) && 0 <= i < |lay|
    ensures i > 0 ==> lay[i-1].base in major && lay[i-1].base != 0 && lay[i-1].base != lay[i].base
    ensures i + 1 < |lay| ==> lay[i+1].base in major && lay[i+1].base != 0 && lay[i+1].base != lay[i].base
    ensures 0 < i && i + 1 < |lay| ==> lay[i-1].base != lay[i+1].base
    ensures i > 0 ==> lay[0].base != lay[i].base
  {
    BasesDiffer(lay);
    if i > 0 { assert MajorOk(major, lay, i - 1) && BlockOk(lay[i-1]); }
    if i + 1 < |lay| { assert MajorOk(major, lay, i + 1) && BlockOk(lay[i+1]); }
  }

  lemma OtherMajor(lay: seq<Block>, i: int, x: int)
    requires 0 <= i < |lay| && IsMajor(lay, x) && x != lay[i].base
    ensures IsMajor(RemoveAt(lay, i), x)
  {
    var k :| 0 <= k < |lay| && lay[k].base == x;
    assert RemoveAt(lay, i)[if k < i then k else k - 1] == lay[k];
  }

  /** The low 8, 16 or 24 bits of the magic survived: an overrun of 1 to 3 bytes. */
  predicate Overrun(magic: int) {
    || magic % 0x100_0000 == LIBALLOC_MAGIC % 0x100_0000
    || magic % 0x1_0000 == LIBALLOC_MAGIC % 0x1_0000
    || magic % 0x100 == LIBALLOC_MAGIC % 0x100
  }

  /** Where minor (i, j) is after an allocation put one at (k, l). */
  function Shifted(i: int, j: int, k: int, l: int): int {
    if i == k && l <= j then j + 1 else j
  }

  /** An old minor is still there after an allocation, with the same values. */
  lemma StillLive(lay: seq<Block>, lay': seq<Block>, grown: bool, k: int, l: int, size: int, req: int,
                  aln: int, source: int -> int, p: int, i: int, j: int)
    requires Allocation(lay, lay', grown, k, l, size, req, aln, source, p)
    requires 0 <= i < |lay| && 0 <= j < |lay[i].mins|
    ensures 0 <= i < |lay'| && 0 <= Shifted(i, j, k, l) < |lay'[i].mins|
    ensures lay'[i].mins[Shifted(i, j, k, l)] == lay[i].mins[j]
    ensures 0 <= k < |lay'| && 0 <= l < |lay'[k].mins| && (k != i || l != Shifted(i, j, k, l))
    ensures lay'[k].mins[l].ptr == p && lay'[k].mins[l].req == req
  {
  }

  /** The bytes of an old allocation, the record of a new one and its bytes are
      three disjoint ranges. */
  lemma MoveApart(lay: seq<Block>, i: int, j: int, k: int, l: int)
    requires LayoutOk(lay) && 0 <= i < |lay| && 0 <= j < |lay[i].mins|
    requires 0 <= k < |lay| && 0 <= l < |lay[k].mins| && (k != i || l != j)
    ensures var m, n := lay[i].mins[j], lay[k].mins[l];
            || m.ptr + m.req <= n.ptr - ALIGN_INFO
            || n.ptr + n.req <= m.ptr - ALIGN_INFO
  {
    Disjoint(lay, i, j, k, l);
    assert BlockOk(lay[i]) && BlockOk(lay[k]);
    assert MinOk(lay[i].mins[j]) && MinOk(lay[k].mins[l]);
  }

  /** Shrinking a request in place. */
  function Shrink(lay: seq<Block>, i: int, j: int, size: int): seq<Block>
    requires 0 <= i < |lay| && 0 <= j < |lay[i].mins|
  {
    lay[i := lay[i].(mins := lay[i].mins[j := lay[i].mins[j].(req := size)])]
  }

  /** Only the requested size of minor (i, j) is another. */
  predicate Resized(lay: seq<Block>, lay': seq<Block>, i: int, j: int, size: int) {
    && |lay'| == |lay|
    && (forall k :: 0 <= k < |lay| ==>
          && lay'[k].base == lay[k].base && lay'[k].pages == lay[k].pages && lay'[k].used == lay[k].used
          && |lay'[k].mins| == |lay[k].mins|)
    && (forall k, l :: 0 <= k < |lay| && 0 <= l < |lay[k].mins| && l < |lay'[k].mins| ==>
          lay'[k].mins[l] == if k == i && l == j then lay[k].mins[l].(req := size) else lay[k].mins[l])
  }

  lemma ShrinkResizes(lay: seq<Block>, i: int, j: int, size: int)
    requires 0 <= i < |lay| && 0 <= j < |lay[i].mins|
    ensures Resized(lay, Shrink(lay, i, j, size), i, j, size)
  {
  }

  lemma {:induction false} SumsShrink(mins: seq<Min>, j: int, m: Min)
    requires 0 <= j < |mins| && m.size == mins[j].size
    ensures Used(mins[j := m]) == Used(mins) && Payload(mins[j := m]) == Payload(mins)
    decreases |mins|
  {
    var s := mins[j := m];
    if j == |mins| - 1 {
      assert s[..|s|-1] == mins[..|mins|-1];
    } else {
      assert s[..|s|-1] == mins[..|mins|-1][j := m];
      SumsShrink(mins[..|mins|-1], j, m);
    }
  }

  lemma ShrinkBlock(b: Block, j: int, size: int)
    requires BlockOk(b) && 0 <= j < |b.mins| && 0 <= size <= b.mins[j].req
    ensures BlockOk(b.(mins := b.mins[j := b.mins[j].(req := size)]))
  {
    var s := b.mins[j := b.mins[j].(req := size)];
    assert MinOk(b.mins[j]);
    forall x, y | 0 <= x < y < |s| ensures s[x].End() <= s[y].addr {
      assert b.mins[x].End() <= b.mins[y].addr;
    }
  }

  lemma ShrinkAligned(lay: seq<Block>, i: int, j: int, size: int)
    requires AlignedOk(lay) && 0 <= i < |lay| && 0 <= j < |lay[i].mins|
    ensures AlignedOk(Shrink(lay, i, j, size))
  {
    hide AlignedPtr, Alignment;
    var lay' := Shrink(lay, i, j, size);
    forall k, l | 0 <= k < |lay'| && 0 <= l < |lay'[k].mins| ensures PtrOk(lay'[k].mins[l]) {
      assert PtrOk(lay[k].mins[l]);
    }
  }

  lemma ShrinkLayout(lay: seq<Block>, i: int, j: int, size: int)
    requires LayoutOk(lay) && AlignedOk(lay) && SumsOk(lay)
    requires 0 <= i < |lay| && 0 <= j < |lay[i].mins| && 0 <= size <= lay[i].mins[j].req
    ensures var lay' := Shrink(lay, i, j, size); LayoutOk(lay') && AlignedOk(lay') && SumsOk(lay')
    ensures InUse(Shrink(lay, i, j, size)) == InUse(lay)
    ensures Allocated(Shrink(lay, i, j, size)) == Allocated(lay)
  {
    hide AlignedOk;
    var b := Shrink(lay, i, j, size)[i];
    SumsShrink(lay[i].mins, j, b.mins[j]);
    InUseUpdate(lay, i, b);
    ShrinkBlock(lay[i], j, size);
    UpdateKeepsLayout(lay, i, b);
    ShrinkAligned(lay, i, j, size);
  }

  lemma ShrinkMinor(minor: Minors, lay: seq<Block>, i: int, j: int, size: int, k: int, l: int)
    requires LayoutOk(lay) && MinorsOk(minor, lay) && 0 <= i < |lay| && 0 <= j < |lay[i].mins|
    requires lay[i].mins[j].addr in minor && 0 <= k < |lay| && 0 <= l < |lay[k].mins|
    ensures var a := lay[i].mins[j].addr;
            MinorOk(minor[a := minor[a].(req := size)], Shrink(lay, i, j, size)[k], l)
  {
    assert MinorsOf(minor, lay[k]);
    assert MinorOk(minor, lay[k], l);
    if k != i || l != j { Disjoint(lay, i, j, k, l); }
    hide LayoutOk, MinorsOk, MinorsOf;
  }

  lemma ShrinkHeaders(major: Majors, minor: Minors, mem: Mem, lay: seq<Block>, i: int, j: int, size: int)
    requires LayoutOk(lay) && MajorsOk(major, lay) && MinorsOk(minor, lay) && RecordsOk(mem, lay)
    requires 0 <= i < |lay| && 0 <= j < |lay[i].mins| && lay[i].mins[j].addr in minor
    ensures var a := lay[i].mins[j].addr; var lay' := Shrink(lay, i, j, size);
            && MajorsOk(major, lay')
            && MinorsOk(minor[a := minor[a].(req := size)], lay')
            && RecordsOk(mem, lay')
  {
    hide LayoutOk, Load16;
    var a, lay' := lay[i].mins[j].addr, Shrink(lay, i, j, size);
    var minor' := minor[a := minor[a].(req := size)];
    forall k | 0 <= k < |lay'| ensures MajorOk(major, lay', k) {
      assert MajorOk(major, lay, k);
    }
    forall k | 0 <= k < |lay'| ensures MinorsOf(minor', lay'[k]) {
      forall l | 0 <= l < |lay'[k].mins| ensures MinorOk(minor', lay'[k], l) {
        ShrinkMinor(minor, lay, i, j, size, k, l);
      }
    }
    forall k, l | 0 <= k < |lay'| && 0 <= l < |lay'[k].mins| ensures RecordOk(mem, lay'[k].mins[l]) {
      assert RecordOk(mem, lay[k].mins[l]);
    }
  }

  /** What UNALIGN makes of a pointer. */
  function UnalignedPtr(mem: Mem, ptr: int): int {
    var diff := Load16(mem, ptr - ALIGN_INFO);
    if diff < Load16(mem, ptr - ALIGN_INFO + 2) + ALIGN_INFO then ptr - diff else ptr
  }
}
