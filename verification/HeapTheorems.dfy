/**
 What the callers of the kernel heap may rely on, over any state the allocator
 can reach.
 */
module HeapTheorems {
  import opened HeapLayout
  import opened Machine
  import opened HeapLinks
  import opened HeapSearch
  import opened HeapSteps
  import opened KHeap

  /** Freeing what was just allocated gives back the live set, the list of
      blocks, every block header and all totals, whichever case placed it. */
  method AllocateAndFree(h: Heap, aln: int, req: int, source: int -> int) returns (p: int)
    requires h.Valid() && Servable(req, aln) && SourceOk(h.lay, source)
    modifies h
    ensures h.Valid() && h.lay == old(h.lay) && h.memRoot == old(h.memRoot)
    ensures h.inuse == old(h.inuse) && h.taken == old(h.taken)
    ensures forall k :: 0 <= k < |h.lay| ==>
              h.lay[k].base in h.major && h.lay[k].base in old(h.major)
              && h.major[h.lay[k].base] == old(h.major)[h.lay[k].base]
    ensures p == 0 <==> var (r, a) := Served(req, aln); Refused(h.lay, PayloadSize(r, a), source)
    ensures p != 0 ==> h.DeadPtr(p)
  {
    hide LayoutOk, AlignedOk, SumsOk, MajorsOk, MinorsOk, RecordsOk, InUse, Allocated, Full, PagesFor, SourceOk;
    hide OnlyMajors, OnlyMinors, OnlyRecord, Refused, BetAfter, Chosen, FirstGap, BetFreed, Servable, PayloadSize;
    ghost var lay0, major0 := h.lay, h.major;
    ghost var grown, i, j;
    p, grown, i, j := h.Kmemalign(aln, req, source);
    if p != 0 {
      ghost var (r, a) := Served(req, aln);
      Undo(lay0, h.lay, grown, i, j, r + a + ALIGN_INFO, r, a, source, p);
      h.Kfree(p, i, j);
    }
    SameHeaders(major0, h.major, lay0);
  }

  lemma SameHeaders(major: Majors, major': Majors, lay: seq<Block>)
    requires MajorsOk(major, lay) && MajorsOk(major', lay)
    ensures forall k :: 0 <= k < |lay| ==>
              lay[k].base in major && lay[k].base in major' && major'[lay[k].base] == major[lay[k].base]
  {
    forall k | 0 <= k < |lay|
      ensures lay[k].base in major && lay[k].base in major' && major'[lay[k].base] == major[lay[k].base]
    {
      assert MajorOk(major, lay, k) && MajorOk(major', lay, k);
    }
  }

  lemma Undo(lay: seq<Block>, lay': seq<Block>, grown: bool, i: int, j: int,
             size: int, req: int, aln: int, source: int -> int, p: int)
    requires AllUsed(lay) && Allocation(lay, lay', grown, i, j, size, req, aln, source, p)
    ensures IsLive(lay', i, j, p) && RemoveMin(lay', i, j) == lay
  {
    hide PagesFor, Gap;
    var b := NewBlock(size, source);
    var space := if grown then lay + [b] else lay;
    var m := Placed(space, i, j, size, req, aln);
    if grown {
      GrowThenFree(lay, b, m);
    } else {
      AllocThenFree(lay, i, j, m);
    }
  }

  /** A second kfree of the same pointer is noticed and changes no structure, as long as
      the block with its header has not been given back. */
  method FreeTwice(h: Heap, p: int, ghost i: int, ghost j: int)
    requires h.Valid() && IsLive(h.lay, i, j, p) && p != 0 && |h.lay[i].mins| > 1
    modifies h
    ensures h.Valid() && h.lay == RemoveMin(old(h.lay), i, j)
    ensures h.errorCount == old(h.errorCount) + 1
  {
    h.Kfree(p, i, j);
    NotLive(h, p, i, j);
    h.Kfree(p, i, j);
  }

  lemma NotLive(h: Heap, p: int, i: int, j: int)
    requires h.Valid() && h.DeadPtr(p)
    ensures !IsLive(h.lay, i, j, p)
  {
    if IsLive(h.lay, i, j, p) {
      UnalignLive(h.mem, h.lay, i, j);
      LiveHeader(h.minor, h.lay, i, j);
    }
  }

  /** A live pointer is aligned as asked; the record before it and the requested
      bytes after it lie in its own payload. */
  lemma LivePointer(h: Heap, i: int, j: int)
    requires h.Valid() && 0 <= i < |h.lay| && 0 <= j < |h.lay[i].mins|
    ensures var m := h.lay[i].mins[j];
            && m.ptr % m.aln == 0
            && m.addr + MINOR_SIZE <= m.ptr - ALIGN_INFO
            && m.ptr + m.req <= m.addr + MINOR_SIZE + m.size
            && h.lay[i].base + MAJOR_SIZE <= m.addr && m.End() <= h.lay[i].Limit()
  {
    assert BlockOk(h.lay[i]) && MinOk(h.lay[i].mins[j]) && PtrOk(h.lay[i].mins[j]);
  }

  /** A byte a caller owns is no byte of any header, of any alignment record or
      of any other allocation.  With the frames that Kmemalign promises (headers
      change only at live headers, bytes only in the new record) no call changes
      a byte of another live allocation. */
  lemma OwnedByte(lay: seq<Block>, i: int, j: int, x: int, k: int, l: int)
    requires LayoutOk(lay) && 0 <= i < |lay| && 0 <= j < |lay[i].mins|
    requires lay[i].mins[j].ptr <= x < lay[i].mins[j].ptr + lay[i].mins[j].req
    requires 0 <= k < |lay|
    ensures !(lay[k].base <= x < lay[k].base + MAJOR_SIZE)
    ensures 0 <= l < |lay[k].mins| ==>
              var n := lay[k].mins[l];
              && !(n.addr <= x < n.addr + MINOR_SIZE)
              && !(n.ptr - ALIGN_INFO <= x < n.ptr)
              && (k != i || l != j ==> !(n.addr <= x < n.End()))
  {
    var m := lay[i].mins[j];
    assert BlockOk(lay[i]) && BlockOk(lay[k]) && MinOk(m);
    if k != i { assert Apart(lay[if i < k then i else k], lay[if i < k then k else i]); }
    if 0 <= l < |lay[k].mins| {
      assert MinOk(lay[k].mins[l]);
      if k != i || l != j { Disjoint(lay, i, j, k, l); }
    }
  }

  // ---- isolation -------------------------------------------------------

  /** No header that changed covers byte x. */
  ghost predicate HeadersMiss(major: Majors, major': Majors, minor: Minors, minor': Minors, x: int) {
    && (forall a :: a in major' && a <= x < a + MAJOR_SIZE ==> a in major && major'[a] == major[a])
    && (forall a :: a in minor' && a <= x < a + MINOR_SIZE ==> a in minor && minor'[a] == minor[a])
  }

  /** Headers that change only at live ones miss every owned byte. */
  lemma FrameMisses(lay: seq<Block>, major: Majors, major': Majors, minor: Minors, minor': Minors,
                    i: int, j: int, x: int)
    requires LayoutOk(lay) && 0 <= i < |lay| && 0 <= j < |lay[i].mins|
    requires lay[i].mins[j].ptr <= x < lay[i].mins[j].ptr + lay[i].mins[j].req
    requires OnlyMajors(major, major', lay) && OnlyMinors(minor, minor', lay)
    ensures HeadersMiss(major, major', minor, minor', x)
  {
    hide LayoutOk;
    forall a | IsMajor(lay, a) ensures !(a <= x < a + MAJOR_SIZE) {
      var k :| 0 <= k < |lay| && lay[k].base == a;
      OwnedByte(lay, i, j, x, k, 0);
    }
    forall a | IsMinor(lay, a) ensures !(a <= x < a + MINOR_SIZE) {
      var k, l :| 0 <= k < |lay| && 0 <= l < |lay[k].mins| && lay[k].mins[l].addr == a;
      OwnedByte(lay, i, j, x, k, l);
    }
  }

  /** A byte x of the live allocation (k, l). */
  predicate Owns(lay: seq<Block>, k: int, l: int, x: int) {
    && 0 <= k < |lay| && 0 <= l < |lay[k].mins|
    && lay[k].mins[l].ptr <= x < lay[k].mins[l].ptr + lay[k].mins[l].req
  }

  /** kmemalign changes no byte of a live allocation, by a store or by a header. */
  method AllocateIsolated(h: Heap, aln: int, req: int, source: int -> int, ghost k: int, ghost l: int, ghost x: int)
    returns (p: int, ghost grown: bool, ghost i: int, ghost j: int)
    requires h.Valid() && Servable(req, aln) && SourceOk(h.lay, source) && Owns(h.lay, k, l, x)
    modifies h
    ensures h.Valid() && Byte(h.mem, x) == old(Byte(h.mem, x))
    ensures HeadersMiss(old(h.major), h.major, old(h.minor), h.minor, x)
    ensures var (r, a) := Served(req, aln);
            && (p != 0 ==> Allocation(old(h.lay), h.lay, grown, i, j, r + a + ALIGN_INFO, r, a, source, p))
            && (p == 0 ==> Refused(h.lay, PayloadSize(r, a), source))
  {
    hide LayoutOk, AlignedOk, SumsOk, MajorsOk, MinorsOk, RecordsOk, InUse, Allocated, Full, PagesFor, SourceOk;
    hide OnlyMajors, OnlyMinors, HeadersMiss, Fits, Placed;
    ghost var lay0, major0, minor0 := h.lay, h.major, h.minor;
    p, grown, i, j := h.Kmemalign(aln, req, source);
    ghost var l' := l;
    if p != 0 {
      ghost var (r, a) := Served(req, aln);
      StillLive(lay0, h.lay, grown, i, j, r + a + ALIGN_INFO, r, a, source, p, k, l);
      l' := Shifted(k, l, i, j);
      MoveApart(h.lay, k, l', i, j);
    }
    FrameMisses(h.lay, major0, h.major, minor0, h.minor, k, l', x);
  }

  /** kfree changes no byte of any other live allocation. */
  method FreeIsolated(h: Heap, p: int, ghost i: int, ghost j: int, ghost k: int, ghost l: int, ghost x: int)
    requires h.Valid() && (p == 0 || IsLive(h.lay, i, j, p) || h.DeadPtr(p)) && Owns(h.lay, k, l, x)
    modifies h
    ensures h.Valid() && Byte(h.mem, x) == old(Byte(h.mem, x))
    ensures HeadersMiss(old(h.major), h.major, old(h.minor), h.minor, x)
    ensures p != 0 && IsLive(old(h.lay), i, j, p) ==> h.lay == RemoveMin(old(h.lay), i, j)
  {
    hide LayoutOk, AlignedOk, SumsOk, MajorsOk, MinorsOk, RecordsOk, InUse, Allocated, OnlyMajors, OnlyMinors;
    hide HeadersMiss;
    ghost var lay0, major0, minor0 := h.lay, h.major, h.minor;
    h.Kfree(p, i, j);
    FrameMisses(lay0, major0, h.major, minor0, h.minor, k, l, x);
  }

  /** krealloc changes no byte of any other live allocation, whatever it does. */
  method ReallocIsolated(h: Heap, p: int, size: int, source: int -> int, ghost i: int, ghost j: int,
                         ghost k: int, ghost l: int, ghost x: int) returns (r: int)
    requires h.Valid() && 0 <= size && (p == 0 || IsLive(h.lay, i, j, p) || h.DeadPtr(p)) && SourceOk(h.lay, source)
    requires size > 0 && (p == 0 || (IsLive(h.lay, i, j, p) && h.lay[i].mins[j].req < size)) ==>
               Servable(size, DEFAULT_ALIGNMENT)
    requires IsLive(h.lay, i, j, p) && h.lay[i].mins[j].req < size ==>
               CanMove(h.lay, size, source) || LowFits(h.lay, h.lay[i].mins[j].req)
    requires Owns(h.lay, k, l, x) && (k != i || l != j)
    modifies h
    ensures h.Valid() && Byte(h.mem, x) == old(Byte(h.mem, x))
    ensures HeadersMiss(old(h.major), h.major, old(h.minor), h.minor, x)
    ensures size > 0 && p != 0 && IsLive(old(h.lay), i, j, p) && size > old(h.lay)[i].mins[j].req ==>
              (r != 0 <==> CanMove(old(h.lay), size, source))
  {
    hide LayoutOk, AlignedOk, SumsOk, MajorsOk, MinorsOk, RecordsOk, InUse, Allocated, Full, PagesFor, SourceOk;
    hide OnlyMajors, OnlyMinors, HeadersMiss, Fits, Placed, CanMove, LowFits, Servable;
    ghost var lay0, major0, minor0 := h.lay, h.major, h.minor;
    ghost var mid, grown, u, v;
    ghost var moves := size > 0 && p != 0 && IsLive(lay0, i, j, p) && size > lay0[i].mins[j].req;
    if moves && !CanMove(lay0, size, source) { LivePtrLow(lay0, k, l, lay0[i].mins[j].req); }
    r, mid, grown, u, v := h.Krealloc(p, size, source, i, j);
    ghost var l' := l;
    if (moves || (size > 0 && p == 0)) && r != 0 {
      ghost var need := size + DEFAULT_ALIGNMENT + ALIGN_INFO;
      StillLive(lay0, mid, grown, u, v, need, size, DEFAULT_ALIGNMENT, source, r, k, l);
      l' := Shifted(k, l, u, v);
      MoveApart(mid, k, l', u, v);
    }
    FrameMisses(mid, major0, h.major, minor0, h.minor, k, l', x);
  }

  /** Eight bytes are allocated, there are no more pages, and krealloc asks for 70000: the
      result is NULL and the allocation is gone. */
  method ReallocLoses() returns (h: Heap, p: int, r: int)
    ensures fresh(h) && h.Valid() && p != 0 && r == 0 && h.lay == []
  {
    hide LayoutOk, AlignedOk, SumsOk, MajorsOk, MinorsOk, RecordsOk, InUse, Allocated, OnlyMajors, OnlyMinors;
    hide OnlyRecord, Allocation, Byte, NoRoom, Gap;
    h := new Heap();
    var pages := n => if n == PAGE_COUNT then 0xD000_0000 else 0;
    OnePage(pages);
    assert PayloadSize(8, 16) == 40 && PagesFor(40) == PAGE_COUNT && PayloadSize(70000, 16) == 70032;
    ghost var grown, i, j;
    p, grown, i, j := h.Kmemalign(16, 8, pages);
    OneSmallBlock(h.lay, grown, i, j, pages, p);
    ghost var mid, grown', k, l;
    r, mid, grown', k, l := h.Krealloc(p, 70000, _ => 0, 0, 0);
  }

  lemma OnePage(source: int -> int)
    requires forall n :: source(n) == if n == PAGE_COUNT then 0xD000_0000 else 0
    ensures SourceOk([], source)
  {
  }

  lemma OneSmallBlock(lay: seq<Block>, grown: bool, i: int, j: int, source: int -> int, p: int)
    requires Allocation([], lay, grown, i, j, 40, 8, 16, source, p) && PagesFor(40) == PAGE_COUNT
    requires source(PAGE_COUNT) == 0xD000_0000
    ensures |lay| == 1 && |lay[0].mins| == 1 && lay[0].mins[0].ptr == p && lay[0].mins[0].req == 8
    ensures LowFits(lay, 8) && Full(lay, 70056) && RemoveMin(lay, 0, 0) == []
  {
    assert lay[0].base == 0xD000_0000 && lay[0].pages == PAGE_COUNT;
    forall g | 0 <= g <= 1 ensures Gap(lay[0], g) < 70056 {
    }
  }

  // ---- which requests are served rightly ---------------------------------

  /** The powers of two that do not fit the 16-bit alignment record. */
  predicate BigAlignment(aln: int) {
    aln in {0x1_0000, 0x2_0000, 0x4_0000, 0x8_0000, 0x10_0000, 0x20_0000, 0x40_0000, 0x80_0000, 0x100_0000,
            0x200_0000, 0x400_0000, 0x800_0000, 0x1000_0000, 0x2000_0000, 0x4000_0000, 0x8000_0000}
  }

  /** What ALIGN adds to the payload start q, with the mask aln - 1 and 32-bit
      arithmetic; the mask of alignment 0 is all ones. */
  function Offset(q: int, aln: int): nat
    requires 0 <= aln
  {
    var shifted := Wrap(q + ALIGN_INFO);
    var diff := if aln == 0 then shifted else shifted % aln;
    ALIGN_INFO + if diff == 0 then 0 else Wrap(aln - diff)
  }

  /** A minor put at the start of a gap of `gap` bytes lies in the gap, its payload
      holds the record and the requested bytes, the pointer is aligned, and UNALIGN
      with the 16 bits that were kept leads back to the payload. */
  predicate PlacedWell(start: int, gap: int, req: int, aln: int)
    requires 0 <= aln
  {
    var q, offset := start + MINOR_SIZE, Offset(start + MINOR_SIZE, aln);
    WellAt(gap, PayloadSize(req, aln), q, Wrap(q + offset), offset % 0x1_0000, req, aln, aln % 0x1_0000)
  }

  /** The same, for payload start q, pointer p and the 16 bits kept of the offset and of
      the alignment. */
  predicate WellAt(gap: int, size: int, q: int, p: int, kept: int, req: int, aln: int, keptAln: int)
    requires 0 <= aln
  {
    && MINOR_SIZE + size <= gap
    && q + ALIGN_INFO <= p && p + req <= q + size
    && (aln > 0 ==> p % aln == 0)
    && (if kept < keptAln + ALIGN_INFO then p - kept else p) == q
  }

  /** A gap that a block can have and that the tests of cases 3 and 4 accept for the
      request. */
  predicate Accepted(start: int, gap: int, req: int, aln: int) {
    PAGE_SIZE + MAJOR_SIZE <= start && start + gap <= WORD && Need(PayloadSize(req, aln)) <= gap
  }

  /** Fresh pages at `base` for the request, where case 2 tests nothing. */
  predicate Fresh(base: int, req: int, aln: int) {
    0 < base && base % PAGE_SIZE == 0 && base + PagesFor(PayloadSize(req, aln)) * PAGE_SIZE <= WORD
  }

  /** Wherever kmemalign may put the request, it is placed well. */
  ghost predicate ServedWell(req: int, aln: int)
    requires 0 <= aln
  {
    && (forall start, gap :: Accepted(start, gap, req, aln) ==> PlacedWell(start, gap, req, aln))
    && (forall base :: Fresh(base, req, aln) ==>
          PlacedWell(base + MAJOR_SIZE, PagesFor(PayloadSize(req, aln)) * PAGE_SIZE - MAJOR_SIZE, req, aln))
  }

  /** kmemalign deals with a request rightly, wherever it finds or makes room for it, if
      and only if it is alignment 0 or 1 and no bytes, or a power of two from 2 to 32768
      and a size that leaves room for both headers in 32 bits, or a size so large that
      it can only be refused. */
  lemma RequestSafeIff(req: int, aln: int)
    requires 0 <= req && (0 <= aln <= 1 || Alignment(aln) || BigAlignment(aln))
    ensures Servable(req, aln) <==>
              var (r, a) := Served(req, aln); req <= r && ServedWell(r, a)
  {
    var (r, a) := Served(req, aln);
    if TooBig(PayloadSize(req, aln)) {
      BigRefused(req, aln);
    } else if SafeRequest(req, aln) {
      ServedSafe(req, aln);
      SafeServed(r, a);
    } else if req <= r {
      UnsafeServed(r, a);
    }
  }

  /** No gap and no fresh pages are ever accepted for a size that is too big. */
  lemma BigRefused(req: int, aln: int)
    requires 0 <= req && 0 <= aln && TooBig(PayloadSize(req, aln))
    ensures ServedWell(req, aln)
    ensures forall start, gap :: !Accepted(start, gap, req, aln)
    ensures forall base :: !Fresh(base, req, aln)
  {
    hide PlacedWell;
    var size := PayloadSize(req, aln);
    assert Need(size) == size + MINOR_SIZE && PagesFor(size) * PAGE_SIZE >= size + MAJOR_SIZE + MINOR_SIZE;
    hide PagesFor, Need, PayloadSize;
    forall base ensures !Fresh(base, req, aln) {
      assert 0 < base && base % PAGE_SIZE == 0 ==> base >= PAGE_SIZE;
    }
  }

  lemma SafeServed(req: int, aln: int)
    requires Alignment(aln) && 0 <= req && SizeOk(req + aln + ALIGN_INFO)
    ensures ServedWell(req, aln)
  {
    hide PlacedWell, PagesFor;
    var size := PayloadSize(req, aln);
    ServedSafe(req, aln);
    assert 2 <= aln <= 32768;
    hide Alignment, PayloadSize, Served;
    forall start, gap | Accepted(start, gap, req, aln) ensures PlacedWell(start, gap, req, aln) {
      SafePlaced(start, gap, req, aln);
    }
    forall base | Fresh(base, req, aln)
      ensures PlacedWell(base + MAJOR_SIZE, PagesFor(size) * PAGE_SIZE - MAJOR_SIZE, req, aln)
    {
      SafePlaced(base + MAJOR_SIZE, PagesFor(size) * PAGE_SIZE - MAJOR_SIZE, req, aln);
    }
  }

  lemma SafePlaced(start: int, gap: int, req: int, aln: int)
    requires 2 <= aln <= 32768 && 0 <= req && PayloadSize(req, aln) == req + aln + ALIGN_INFO
    requires 0 < start && start + gap <= WORD && req + aln + ALIGN_INFO + MINOR_SIZE <= gap
    ensures PlacedWell(start, gap, req, aln)
  {
    hide Offset, AlignedPtr, PayloadSize, WellAt, Wrap;
    var q := start + MINOR_SIZE;
    var p := AlignedPtr(q, aln);
    OffsetIsAlign(q, aln);
    Unwrapped(p);
    SafeWell(gap, req + aln + ALIGN_INFO, q, p, req, aln);
  }

  lemma Unwrapped(x: int)
    requires 0 <= x < WORD
    ensures Wrap(x) == x
  {
  }

  lemma SafeWell(gap: int, size: int, q: int, p: int, req: int, aln: int)
    requires 0 < aln && size == req + aln + ALIGN_INFO && MINOR_SIZE + size <= gap
    requires q + ALIGN_INFO <= p < q + ALIGN_INFO + aln && p % aln == 0
    ensures WellAt(gap, size, q, p, p - q, req, aln, aln)
  {
  }

  lemma OffsetIsAlign(q: int, aln: int)
    requires 0 < aln <= 32768 && 0 <= q && q + ALIGN_INFO < WORD
    ensures Offset(q, aln) == AlignedPtr(q, aln) - q
  {
  }

  lemma UnsafeServed(req: int, aln: int)
    requires 0 <= req && (0 <= aln <= 1 || Alignment(aln) || BigAlignment(aln))
    requires 0 <= aln && PayloadSize(req, aln) != 0 && !Servable(req, aln)
    ensures !ServedWell(req, aln)
  {
    hide PlacedWell, Alignment, BigAlignment, Fresh;
    var size, start := PayloadSize(req, aln), PAGE_SIZE + MAJOR_SIZE;
    if size + MINOR_SIZE >= WORD {
      assert Accepted(start, Need(size), req, aln);
      NeedWraps(start, Need(size), req, aln);
    } else if !SizeOk(size) {
      NoPages(req, aln);
    } else {
      assert Accepted(start, Need(size), req, aln);
      if aln <= 1 {
        LowAlignment(start, Need(size), req, aln);
      } else if BigAlignment(aln) {
        NotRecovered(start, Need(size), req, aln);
      } else {
        SizeWraps(start, Need(size), req, aln);
      }
    }
  }

  /** At most alignment 1: the bytes do not fit behind the record. */
  lemma LowAlignment(start: int, gap: int, req: int, aln: int)
    requires 0 <= aln <= 1 && 0 < start < WORD - 100 && 0 < req
    ensures !PlacedWell(start, gap, req, aln)
  {
  }

  /** A power of two above 32768: the record cannot lead back. */
  lemma NotRecovered(start: int, gap: int, req: int, aln: int)
    requires BigAlignment(aln) && 0 < start < WORD - 100
    ensures !PlacedWell(start, gap, req, aln)
  {
    var q := start + MINOR_SIZE;
    var offset := Offset(q, aln);
    assert aln % 0x1_0000 == 0 && 0 < aln < WORD;
    hide BigAlignment;
    OffsetBounds(q, aln);
    assert q + ALIGN_INFO <= Wrap(q + offset) ==> Wrap(q + offset) == q + offset;
  }

  lemma OffsetBounds(q: int, aln: int)
    requires 0 < aln < WORD
    ensures ALIGN_INFO <= Offset(q, aln) < ALIGN_INFO + aln
  {
  }

  /** A size that wraps with the minor's header: a gap is accepted that is too small. */
  lemma NeedWraps(start: int, gap: int, req: int, aln: int)
    requires 0 <= aln && PayloadSize(req, aln) + MINOR_SIZE >= WORD && gap == Need(PayloadSize(req, aln))
    ensures !PlacedWell(start, gap, req, aln)
  {
  }

  /** A request that wraps with its alignment: the payload is too small for the bytes. */
  lemma SizeWraps(start: int, gap: int, req: int, aln: int)
    requires Alignment(aln) && 0 <= req && req + aln + ALIGN_INFO >= WORD
    ensures !PlacedWell(start, gap, req, aln)
  {
    assert 2 <= aln <= 32768;
    hide Alignment;
    assert PayloadSize(req, aln) <= req + aln + ALIGN_INFO - WORD;
  }

  /** A size that wraps only with both headers: case 2 puts it into 16 pages. */
  lemma NoPages(req: int, aln: int)
    requires 0 <= aln && !SizeOk(PayloadSize(req, aln)) && PayloadSize(req, aln) + MINOR_SIZE < WORD
    ensures !ServedWell(req, aln)
  {
    var size := PayloadSize(req, aln);
    assert PagesFor(size) == PAGE_COUNT;
    assert Fresh(PAGE_SIZE, req, aln);
    assert !PlacedWell(PAGE_SIZE + MAJOR_SIZE, PagesFor(size) * PAGE_SIZE - MAJOR_SIZE, req, aln);
  }

  /** A request of 4 GB less 8 bytes gets a payload of 24 bytes. */
  lemma HugeRequestTruncated()
    ensures PayloadSize(0xFFFF_FFF8, 16) == 24
  {
  }

  /** A request of 4 GB less 56 bytes keeps its size, but every gap is accepted for it,
      even an empty one, and fresh memory for it is 16 pages. */
  lemma WrappedRequestAccepted()
    ensures var req, aln := 0xFFFF_FFC8, 16;
            && PayloadSize(req, aln) == req + aln + ALIGN_INFO
            && Need(PayloadSize(req, aln)) == 0 && Accepted(PAGE_SIZE + MAJOR_SIZE, 0, req, aln)
            && PagesFor(PayloadSize(req, aln)) == PAGE_COUNT
            && !Servable(req, aln) && !PlacedWell(PAGE_SIZE + MAJOR_SIZE, 0, req, aln)
  {
  }
}
