/**
 The kernel allocator of kernel/kmalloc.c: kmemalign, kfree and krealloc over
 in-memory headers.  The page source (`liballoc_alloc`) is the parameter
 `source`: source(n) is the address of n fresh pages, or 0.
 */
module KHeap {
  import opened HeapLayout
  import opened Machine
  import opened SeqOps
  import opened HeapLinks
  import opened HeapSteps
  import opened HeapSearch

  class Heap {
    var major: Majors
    var minor: Minors
    var mem: Mem
    var memRoot: int
    var bestBet: int
    var taken: int
    var inuse: int
    var warningCount: int
    var errorCount: int
    var possibleOverruns: int
    ghost var lay: seq<Block>

    /** Every stored header, counter and alignment record is the one the layout
        calls for, and the layout is well formed. */
    ghost predicate Shape()
      reads this
    {
      && HeadersOk(major, minor, mem, lay)
      && memRoot == (if lay == [] then 0 else lay[0].base)
      && (bestBet == 0 || IsMajor(lay, bestBet))
      && inuse == InUse(lay)
      && taken == Allocated(lay)
    }

    /** Shape, and no block is empty: what holds between calls. */
    ghost predicate Valid()
      reads this
    {
      Shape() && AllUsed(lay)
    }

    constructor ()
      ensures Valid() && lay == []
    {
      major, minor, mem := map[], map[], map[];
      memRoot, bestBet, taken, inuse := 0, 0, 0, 0;
      warningCount, errorCount, possibleOverruns := 0, 0, 0;
      lay := [];
    }

    /** The ALIGN macro on payload start q. */
    method Align(q: int, aln: int) returns (p: int)
      requires Alignment(aln)
      modifies this`mem
      ensures p == AlignedPtr(q, aln)
      ensures mem == Store16(Store16(old(mem), p - ALIGN_INFO, p - q), p - ALIGN_INFO + 2, aln)
    {
      p := q + ALIGN_INFO;
      var diff := p % aln;
      if diff != 0 {
        diff := aln - diff;
        p := p + diff;
      }
      mem := Store16(mem, p - ALIGN_INFO, diff + ALIGN_INFO);
      mem := Store16(mem, p - ALIGN_INFO + 2, aln);
    }

    /** The UNALIGN macro: what it reads before a live pointer leads back to the
        start of the payload. */
    method Unalign(ptr: int) returns (q: int)
      ensures q == UnalignedPtr(mem, ptr)
      ensures q == if Load16(mem, ptr - 16) < Load16(mem, ptr - 14) + 16 then ptr - Load16(mem, ptr - 16) else ptr
    {
      var diff := Load16(mem, ptr - ALIGN_INFO);
      var aln := Load16(mem, ptr - ALIGN_INFO + 2);
      if diff < aln + ALIGN_INFO {
        q := ptr - diff;
      } else {
        q := ptr;
      }
    }

    /** The headers of the block that a placement works on. */
    ghost predicate AtBlock(maj: int, b: Block)
      reads this
    {
      && maj == b.base && maj in major
      && major[maj].usage == MAJOR_SIZE + b.used
      && major[maj].first == (if b.mins == [] then 0 else b.mins[0].addr)
      && MinorsOf(minor, b)
    }

    /** CASE 2: the first minor of an empty block. */
    method PlaceFirst(maj: int, size: int, req: int, aln: int, ghost b: Block, ghost m: Min) returns (p: int)
      requires AtBlock(maj, b) && b.mins == []
      requires Alignment(aln) && m == NewMin(b, 0, size, req, aln)
      modifies this`major, this`minor, this`mem, this`inuse
      ensures major == UpdateMajor(old(major), WithMin(b, 0, m))
      ensures minor == LinkMinor(old(minor), b, 0, m)
      ensures mem == WriteRecord(old(mem), m)
      ensures inuse == old(inuse) + size && p == m.ptr
    {
      var first := maj + MAJOR_SIZE;
      major := major[maj := major[maj].(first := first)];
      minor := minor[first := MinorHdr(0, 0, maj, LIBALLOC_MAGIC, size, req)];
      major := major[maj := major[maj].(usage := major[maj].usage + size + MINOR_SIZE)];
      inuse := inuse + size;
      p := Align(first + MINOR_SIZE, aln);
    }

    /** CASE 3: room between the block header and the first minor. */
    method PlaceFront(maj: int, size: int, req: int, aln: int, ghost b: Block, ghost m: Min) returns (p: int)
      requires AtBlock(maj, b) && b.mins != [] && b.mins[0].addr != maj + MAJOR_SIZE
      requires Alignment(aln) && m == NewMin(b, 0, size, req, aln)
      modifies this`major, this`minor, this`mem, this`inuse
      ensures major == UpdateMajor(old(major), WithMin(b, 0, m))
      ensures minor == LinkMinor(old(minor), b, 0, m)
      ensures mem == WriteRecord(old(mem), m)
      ensures inuse == old(inuse) + size && p == m.ptr
    {
      assert MinorOk(minor, b, 0);
      var next := major[maj].first;
      var first := maj + MAJOR_SIZE;
      minor := minor[next := minor[next].(prev := first)];
      major := major[maj := major[maj].(first := first)];
      minor := minor[first := MinorHdr(0, next, maj, LIBALLOC_MAGIC, size, req)];
      major := major[maj := major[maj].(usage := major[maj].usage + size + MINOR_SIZE)];
      inuse := inuse + size;
      p := Align(first + MINOR_SIZE, aln);
    }

    /** CASE 4.1: room between the last minor and the end of the block. */
    method PlaceLast(maj: int, min: int, size: int, req: int, aln: int, ghost b: Block, ghost m: Min) returns (p: int)
      requires AtBlock(maj, b) && b.mins != [] && min == b.mins[|b.mins|-1].addr
      requires b.mins[|b.mins|-1].size > 0
      requires Alignment(aln) && m == NewMin(b, |b.mins|, size, req, aln)
      modifies this`major, this`minor, this`mem, this`inuse
      ensures major == UpdateMajor(old(major), WithMin(b, |b.mins|, m))
      ensures minor == LinkMinor(old(minor), b, |b.mins|, m)
      ensures mem == WriteRecord(old(mem), m)
      ensures inuse == old(inuse) + size && p == m.ptr
    {
      assert MinorOk(minor, b, |b.mins| - 1);
      var newMin := min + MINOR_SIZE + minor[min].size;
      minor := minor[min := minor[min].(next := newMin)];
      minor := minor[newMin := MinorHdr(min, 0, maj, LIBALLOC_MAGIC, size, req)];
      major := major[maj := major[maj].(usage := major[maj].usage + size + MINOR_SIZE)];
      inuse := inuse + size;
      p := Align(newMin + MINOR_SIZE, aln);
    }

    /** CASE 4.2: room between minors j-1 and j. */
    method PlaceBetween(maj: int, min: int, size: int, req: int, aln: int, ghost b: Block, ghost j: int, ghost m: Min)
      returns (p: int)
      requires AtBlock(maj, b) && 0 < j < |b.mins| && min == b.mins[j-1].addr
      requires min < GapStart(b, j) < b.mins[j].addr && b.mins[j].addr != 0
      requires Alignment(aln) && m == NewMin(b, j, size, req, aln)
      modifies this`major, this`minor, this`mem, this`inuse
      ensures major == UpdateMajor(old(major), WithMin(b, j, m))
      ensures minor == LinkMinor(old(minor), b, j, m)
      ensures mem == WriteRecord(old(mem), m)
      ensures inuse == old(inuse) + size && p == m.ptr
    {
      assert MinorOk(minor, b, j - 1) && MinorOk(minor, b, j);
      var newMin := min + MINOR_SIZE + minor[min].size;
      var next := minor[min].next;
      minor := minor[newMin := MinorHdr(min, next, maj, LIBALLOC_MAGIC, size, req)];
      minor := minor[next := minor[next].(prev := newMin)];
      minor := minor[min := minor[min].(next := newMin)];
      major := major[maj := major[maj].(usage := major[maj].usage + size + MINOR_SIZE)];
      inuse := inuse + size;
      p := Align(newMin + MINOR_SIZE, aln);
    }

    /** Whichever case placed the minor, the whole state follows the layout. */
    ghost method Settle(i: int, j: int, size: int, req: int, aln: int,
                        major0: Majors, minor0: Minors, mem0: Mem)
      requires HeadersOk(major0, minor0, mem0, lay) && Fits(lay, i, j, size, req, aln)
      requires lay[i].base in major0
      requires major == UpdateMajor(major0, WithMin(lay[i], j, Placed(lay, i, j, size, req, aln)))
      requires minor == LinkMinor(minor0, lay[i], j, Placed(lay, i, j, size, req, aln))
      requires mem == WriteRecord(mem0, Placed(lay, i, j, size, req, aln))
      requires memRoot == lay[0].base && (bestBet == 0 || IsMajor(lay, bestBet))
      requires inuse == InUse(lay) + size && taken == Allocated(lay)
      modifies this`lay
      ensures Shape() && lay == InsertMin(old(lay), i, j, Placed(old(lay), i, j, size, req, aln))
      ensures OnlyMajors(major0, major, lay) && OnlyMinors(minor0, minor, lay)
      ensures OnlyRecord(mem0, mem, Placed(old(lay), i, j, size, req, aln))
    {
      hide LayoutOk, AlignedOk, SumsOk, MajorsOk, MinorsOk, RecordsOk, OnlyMajors, OnlyMinors, OnlyRecord, InUse;
      hide Allocated, IsMajor, PtrOk;
      PlaceOk(major0, minor0, mem0, lay, i, j, size, req, aln);
      PlaceOther(major0, minor0, mem0, lay, i, j, Placed(lay, i, j, size, req, aln), bestBet);
      lay := InsertMin(lay, i, j, Placed(lay, i, j, size, req, aln));
    }

    /** CASE 4: walk the minors of a block for a gap behind one of them. */
    method ScanMinors(maj: int, need: int, ghost b: Block) returns (min: int, ghost j: int)
      requires AtBlock(maj, b) && major[maj].size == b.Size() && BlockOk(b) && b.mins != []
      ensures min == 0 ==> forall l :: 1 <= l <= |b.mins| ==> Gap(b, l) < need
      ensures min != 0 ==> 1 <= j <= |b.mins| && min == b.mins[j-1].addr && Gap(b, j) >= need
      ensures min != 0 ==> forall l :: 1 <= l < j ==> Gap(b, l) < need
    {
      min, j := major[maj].first, 1;
      while min != 0
        invariant 1 <= j <= |b.mins| + 1
        invariant min == if j <= |b.mins| then b.mins[j-1].addr else 0
        invariant forall l :: 1 <= l < j ==> Gap(b, l) < need
        decreases |b.mins| + 1 - j
      {
        assert MinorOk(minor, b, j - 1);
        assert j < |b.mins| ==> MinOk(b.mins[j]);
        if minor[min].next == 0 {
          var diff := maj + major[maj].size - min - MINOR_SIZE - minor[min].size;
          if diff >= need { return; }
        }
        if minor[min].next != 0 {
          var diff := minor[min].next - min - MINOR_SIZE - minor[min].size;
          if diff >= need { return; }
        }
        min, j := minor[min].next, j + 1;
      }
    }

    /** CASES 2 to 4 on one block: place the minor, or learn that no gap of the
        block is large enough. */
    method TryBlock(maj: int, size: int, req: int, aln: int, ghost i: int) returns (p: int, ghost j: int)
      requires Shape() && 0 <= i < |lay| && lay[i].base == maj
      requires Alignment(aln) && 0 <= req && size == req + aln + ALIGN_INFO && SizeOk(size)
      requires lay[i].mins == [] ==> Gap(lay[i], 0) >= size + MINOR_SIZE
      modifies this`major, this`minor, this`mem, this`inuse, this`lay
      ensures Shape()
      ensures p != 0 ==> Fits(old(lay), i, j, size, req, aln) && FirstGap(old(lay)[i], j, size + MINOR_SIZE)
      ensures p != 0 ==> lay == InsertMin(old(lay), i, j, Placed(old(lay), i, j, size, req, aln))
      ensures p != 0 ==> p == Placed(old(lay), i, j, size, req, aln).ptr
      ensures p != 0 ==> OnlyMajors(old(major), major, lay) && OnlyMinors(old(minor), minor, lay)
      ensures p != 0 ==> OnlyRecord(old(mem), mem, Placed(old(lay), i, j, size, req, aln))
      ensures p == 0 ==> NoRoom(old(lay)[i], size + MINOR_SIZE)
      ensures p == 0 ==> unchanged(this)
    {
      hide LayoutOk, AlignedOk, SumsOk, MajorsOk, MinorsOk, RecordsOk, OnlyMajors, OnlyMinors, OnlyRecord, InUse;
      hide Allocated, IsMajor, PtrOk;
      ghost var b := lay[i];
      ghost var major0, minor0, mem0 := major, minor, mem;
      AtBlockFacts(major, minor, lay, i);
      if major[maj].first == 0 {
        j := 0;
        p := PlaceFirst(maj, size, req, aln, b, Placed(lay, i, 0, size, req, aln));
        Settle(i, 0, size, req, aln, major0, minor0, mem0);
        return;
      }
      var diff := major[maj].first - maj - MAJOR_SIZE;
      if diff >= Need(size) {
        j := 0;
        p := PlaceFront(maj, size, req, aln, b, Placed(lay, i, 0, size, req, aln));
        Settle(i, 0, size, req, aln, major0, minor0, mem0);
        return;
      }
      var min;
      min, j := ScanMinors(maj, Need(size), b);
      if min == 0 {
        p := 0;
        return;
      }
      assert MinOk(b.mins[j-1]);
      assert MinorOk(minor, b, j - 1);
      assert j < |b.mins| ==> MinOk(b.mins[j]);
      ghost var m := Placed(lay, i, j, size, req, aln);
      if minor[min].next == 0 {
        p := PlaceLast(maj, min, size, req, aln, b, m);
      } else {
        p := PlaceBetween(maj, min, size, req, aln, b, j, m);
      }
      Settle(i, j, size, req, aln, major0, minor0, mem0);
    }

    /** allocate_new_page: the header of a fresh major, not yet linked. */
    method AllocateNewPage(size: int, source: int -> int) returns (maj: int)
      requires source(PagesFor(size)) != 0 ==> PagesFor(size) * PAGE_SIZE < WORD
      modifies this`major, this`taken, this`warningCount
      ensures maj == source(PagesFor(size)) && warningCount == old(warningCount) + (if maj == 0 then 1 else 0)
      ensures maj == 0 ==> major == old(major) && taken == old(taken)
      ensures maj != 0 ==>
                && major == old(major)[maj := MajorHdr(0, 0, PagesFor(size), PagesFor(size) * PAGE_SIZE, MAJOR_SIZE, 0)]
                && taken == old(taken) + PagesFor(size) * PAGE_SIZE
    {
      var st := Wrap(size + MAJOR_SIZE);
      st := Wrap(st + MINOR_SIZE);
      if st % PAGE_SIZE == 0 {
        st := st / PAGE_SIZE;
      } else {
        st := st / PAGE_SIZE + 1;
      }
      if st < PAGE_COUNT { st := PAGE_COUNT; }
      maj := source(st);
      if maj == 0 {
        warningCount := warningCount + 1;
        return;
      }
      major := major[maj := MajorHdr(0, 0, st, Wrap(st * PAGE_SIZE), MAJOR_SIZE, 0)];
      taken := taken + major[maj].size;
    }

    /** Get pages and hook them behind `last`, or make them the root when there
        is no block yet (last == 0). */
    method Hook(last: int, size: int, source: int -> int, ghost before: seq<Block>) returns (maj: int)
      requires SizeOk(size) && MajorsOk(major, before)
      requires source(PagesFor(size)) != 0 ==> PagesFor(size) * PAGE_SIZE < WORD
      requires last == if before == [] then 0 else before[|before|-1].base
      requires before != [] ==> last != 0 && last in major && major[last].next == 0
      requires before != [] ==> last != source(PagesFor(size))
      modifies this`major, this`taken, this`warningCount, this`memRoot
      ensures maj == source(PagesFor(size)) && warningCount == old(warningCount) + (if maj == 0 then 1 else 0)
      ensures maj == 0 ==> major == old(major) && taken == old(taken)
      ensures maj != 0 ==> major == AppendMajor(old(major), before, NewBlock(size, source))
      ensures maj != 0 ==> taken == old(taken) + PagesFor(size) * PAGE_SIZE
      ensures memRoot == if last == 0 then maj else old(memRoot)
    {
      hide PagesFor, MajorsOk;
      maj := AllocateNewPage(size, source);
      if last == 0 {
        memRoot := maj;
      } else {
        major := major[last := major[last].(next := maj)];
      }
      if maj == 0 { return; }
      if last != 0 {
        major := major[maj := major[maj].(prev := last)];
      }
    }

    method Grow(last: int, size: int, source: int -> int) returns (maj: int)
      requires Shape() && SourceOk(lay, source) && SizeOk(size)
      requires last == if lay == [] then 0 else lay[|lay|-1].base
      modifies this`major, this`taken, this`warningCount, this`memRoot, this`lay
      ensures Shape() && maj == source(PagesFor(size))
      ensures warningCount == old(warningCount) + if maj == 0 then 1 else 0
      ensures maj == 0 ==> lay == old(lay) && major == old(major) && taken == old(taken)
      ensures maj != 0 ==> lay == old(lay) + [NewBlock(size, source)]
      ensures OnlyMajors(old(major), major, lay)
    {
      hide FreshPages, SourceOk, IsMajor, InUse, Allocated, PagesFor, LayoutOk, AlignedOk, SumsOk, MajorsOk, MinorsOk;
      hide RecordsOk, OnlyMajors;
      ghost var b := NewBlock(size, source);
      if lay != [] { LastMajor(major, lay); }
      SameMajors(major, lay);
      if source(PagesFor(size)) != 0 {
        FreshOf(lay, source, size);
        GrowOk(major, minor, mem, lay, b);
      }
      maj := Hook(last, size, source, lay);
      if maj == 0 { return; }
      if bestBet != 0 { MoreBases(lay, b, bestBet); }
      lay := lay + [b];
    }

    /** Where the search stands: on block i, nothing placed yet, at most one
        block added, and every block passed since the last (re)start is full. */
    ghost predicate Searching(lay0: seq<Block>, bet0: int, major0: Majors, size: int, source: int -> int,
                              grown: bool, started: bool, i: int, maj: int)
      reads this
    {
      && Shape() && SizeOk(size) && SourceOk(lay0, source)
      && 0 <= i < |lay| && maj == lay[i].base && maj != 0
      && (grown ==> lay == lay0 + [NewBlock(size, source)] && i == |lay0| && !started)
      && (!grown ==> lay == lay0 && major == major0)
      && AllUsed(lay0)
      && OnlyMajors(major0, major, lay)
      && (!started ==> FullTo(lay0, i, size + MINOR_SIZE))
      && (!grown ==> Sweeping(lay0, bet0, size, started, i))
    }

    /** Set up the search: make the root if there is none, then start at the best
        bet if it looks large enough. */
    method StartSearch(size: int, source: int -> int)
      returns (maj: int, started: bool, bestSize: int, ghost grown: bool, ghost i: int)
      requires Valid() && SourceOk(lay, source) && SizeOk(size)
      modifies this`major, this`taken, this`warningCount, this`memRoot, this`lay
      ensures maj == 0 ==> Valid() && lay == old(lay) && major == old(major)
      ensures maj == 0 ==> Full(lay, size + MINOR_SIZE) && source(PagesFor(size)) == 0
      ensures maj != 0 ==>
                Searching(old(lay), old(bestBet), old(major), size, source, grown, started, i, maj) && i < |lay|
      ensures maj != 0 ==> bestSize == FreeAt(lay, bestBet)
      ensures maj != 0 ==> Noted(old(lay), lay, bestBet, size, started, i, bestBet)
      ensures grown ==> FreshSeen(old(lay), size) && source(PagesFor(size)) != 0
      ensures maj == 0 ==> Noted(lay, lay, bestBet, size, false, |lay|, bestBet)
      ensures warningCount == old(warningCount) + if maj == 0 then 1 else 0
    {
      hide SourceOk, InUse, Allocated, Gap, PagesFor, LayoutOk, AlignedOk, SumsOk, MajorsOk, MinorsOk, RecordsOk;
      hide NoRoom, OnlyMajors, Sweeping, Noted, NoneFrom;
      grown, i, started, bestSize := false, 0, false, 0;
      if lay != [] { AtMajor(major, lay, 0); }
      SameMajors(major, lay);
      if memRoot == 0 {
        NotedStart([], 0, size);
        var root := Grow(0, size, source);
        if root == 0 {
          maj := 0;
          return;
        }
        grown := true;
        NotedGrow([], NewBlock(size, source), 0, size, 0);
        assert [] + [NewBlock(size, source)] == lay;
      }
      maj := memRoot;
      if bestBet != 0 {
        bestSize, i := BestFree();
        if bestSize > Need(size) {
          maj, started := bestBet, true;
        } else {
          i := 0;
        }
      }
      if !grown {
        SweepStart(lay, bestBet, size, started, i);
        NotedStart(lay, bestBet, size);
      }
    }

    /** Free bytes of the best bet. */
    method BestFree() returns (free: int, ghost k: int)
      requires Shape() && bestBet != 0
      ensures 0 <= k < |lay| && lay[k].base == bestBet
      ensures k == IndexOf(lay, bestBet) && free == FreeBytes(lay[k]) == FreeAt(lay, bestBet)
    {
      hide LayoutOk, AlignedOk, SumsOk, MajorsOk, MinorsOk, RecordsOk;
      k :| 0 <= k < |lay| && lay[k].base == bestBet;
      BasesDiffer(lay);
      IndexOfIs(lay, k);
      AtMajor(major, lay, k);
      free := major[bestBet].size - major[bestBet].usage;
    }

    /** Note the block's free bytes, and remember it if it is the best so far;
        too few free bytes rule the block out. */
    method Measure(maj: int, started: bool, bestSize: int, size: int, source: int -> int,
                   ghost lay0: seq<Block>, ghost bet0: int, ghost major0: Majors, ghost grown: bool, ghost i: int)
      returns (diff: int, bestSize': int)
      requires Searching(lay0, bet0, major0, size, source, grown, started, i, maj)
      requires bestSize == FreeAt(lay, bestBet) && Noted(lay0, lay, bet0, size, started, i, bestBet)
      modifies this`bestBet
      ensures Searching(lay0, bet0, major0, size, source, grown, started, i, maj)
      ensures diff == FreeBytes(lay[i])
      ensures bestSize' == FreeAt(lay, bestBet) && Noted(lay0, lay, bet0, size, started, i + 1, bestBet)
      ensures bestBet == (if bestSize < diff then maj else old(bestBet))
      ensures bestSize' == if bestSize < diff then diff else bestSize
      ensures diff < size + MINOR_SIZE ==> !grown && NoRoom(lay[i], size + MINOR_SIZE)
      ensures TooBig(size) ==> diff < size + MINOR_SIZE
    {
      hide LayoutOk, AlignedOk, SumsOk, MajorsOk, MinorsOk, RecordsOk, OnlyMajors, SourceOk, InUse, Allocated;
      hide IsMajor, NoRoom, Gap, PagesFor, Noted, NoneFrom, FreeAt;
      AtMajor(major, lay, i);
      BasesDiffer(lay);
      NotedMore(lay0, lay, bet0, size, started, i, bestBet, if bestSize < FreeBytes(lay[i]) then maj else bestBet);
      bestSize' := bestSize;
      diff := major[maj].size - major[maj].usage;
      if bestSize' < diff {
        bestBet := maj;
        bestSize' := diff;
      }
      if TooBig(size) { BigNeverFits(lay, i, size); }
      if diff < Need(size) {
        QuickTest(lay, i, size + MINOR_SIZE);
      }
      HasRoom(NewBlock(size, source), 0, size + MINOR_SIZE);
    }

    /** Leave a block that has no room: hop to the next one, restart at the root
        if the search began at the best bet, or get fresh pages. */
    method Advance(maj: int, started: bool, size: int, source: int -> int,
                   ghost lay0: seq<Block>, ghost bet0: int, ghost major0: Majors, ghost i: int)
      returns (next: int, started': bool, fresh': bool, ghost i': int)
      requires Searching(lay0, bet0, major0, size, source, false, started, i, maj)
      requires NoRoom(lay[i], size + MINOR_SIZE) && Noted(lay0, lay, bet0, size, started, i + 1, bestBet)
      requires bet0 == 0 || IsMajor(lay0, bet0)
      modifies this`major, this`taken, this`warningCount, this`memRoot, this`lay
      ensures next != 0 ==> Searching(lay0, bet0, major0, size, source, fresh', started', i', next) && i' < |lay|
      ensures next != 0 && !fresh' ==> unchanged(this)
      ensures next != 0 && !fresh' ==> (started && !started') || (started == started' && i' == i + 1)
      ensures next == 0 ==> Valid() && lay == lay0 && major == major0
      ensures next == 0 ==> Full(lay0, size + MINOR_SIZE) && source(PagesFor(size)) == 0
      ensures fresh' ==> next != 0 && !started && !started' && Full(lay0, size + MINOR_SIZE)
      ensures fresh' ==> source(PagesFor(size)) != 0 && i + 1 == |lay0|
      ensures next != 0 ==> Noted(lay0, lay, bet0, size, started', i', bestBet)
      ensures next != 0 ==> FreeAt(lay, bestBet) == old(FreeAt(lay, bestBet))
      ensures next == 0 ==> Noted(lay0, lay0, bet0, size, false, |lay0|, bestBet)
      ensures warningCount == old(warningCount) + if next == 0 then 1 else 0
    {
      hide Shape, AllUsed, FullTo, SourceOk, Gap, PagesFor, OnlyMajors, NoRoom, Sweeping, Noted, FreeAt, NoneFrom;
      hide GoodBet, IsMajor;
      started', fresh', i' := started, false, i + 1;
      OnBlock(lay0, bet0, major0, size, source, started, i, maj);
      if major[maj].next != 0 {
        next := major[maj].next;
        return;
      }
      if started {
        next, started', i' := memRoot, false, 0;
        NotedRestart(lay, bet0, size, bestBet);
        return;
      }
      NotedGrow(lay, NewBlock(size, source), bet0, size, bestBet);
      next := Grow(maj, size, source);
      fresh' := next != 0;
    }

    /** What is known where a block has no room. */
    lemma OnBlock(lay0: seq<Block>, bet0: int, major0: Majors, size: int, source: int -> int,
                  started: bool, i: int, maj: int)
      requires Searching(lay0, bet0, major0, size, source, false, started, i, maj)
      requires NoRoom(lay[i], size + MINOR_SIZE)
      ensures maj in major && major[maj].next == if i + 1 == |lay| then 0 else lay[i+1].base
      ensures memRoot == lay[0].base != 0 && (i + 1 < |lay| ==> lay[i+1].base != 0)
      ensures !started ==> FullTo(lay0, i + 1, size + MINOR_SIZE)
      ensures FullTo(lay0, 0, size + MINOR_SIZE) && (started ==> GoodBet(lay, bet0, size))
      ensures Sweeping(lay, bet0, size, started, i + 1)
      ensures started && i + 1 == |lay| ==> Sweeping(lay, bet0, size, false, 0)
      ensures bestBet == 0 || IsMajor(lay, bestBet)
    {
      hide AlignedOk, SumsOk, MinorsOk, RecordsOk, InUse, Allocated, SourceOk, OnlyMajors, NoRoom, FullTo, NoneFrom;
      AtMajor(major, lay, i);
      AtMajor(major, lay, 0);
      if i + 1 < |lay| { AtMajor(major, lay, i + 1); }
      FullStep(lay, i, size + MINOR_SIZE);
      SweepStep(lay, bet0, size, started, i);
    }

    /** The state after a successful allocation, for a search begun in lay0. */
    ghost predicate Done(lay0: seq<Block>, bet0: int, major0: Majors, minor0: Minors, mem0: Mem,
                         req: int, aln: int, source: int -> int, p: int, grown: bool, i: int, j: int)
      reads this
    {
      var size := req + aln + ALIGN_INFO;
      && Valid() && p != 0
      && Allocation(lay0, lay, grown, i, j, size, req, aln, source, p)
      && (grown <==> Full(lay0, size + MINOR_SIZE))
      && (!grown ==> Chosen(lay0, bet0, size, i) && FirstGap(lay0[i], j, size + MINOR_SIZE))
      && BetAfter(lay0, if grown then lay0 + [NewBlock(size, source)] else lay0, bet0, size, grown, i, bestBet)
      && OnlyMajors(major0, major, lay) && OnlyMinors(minor0, minor, lay)
      && OnlyRecord(mem0, mem, lay[i].mins[j])
    }

    /** Try the block the search stands on, keeping the frame of the search. */
    method Visit(maj: int, started: bool, req: int, aln: int, source: int -> int,
                 ghost lay0: seq<Block>, ghost bet0: int, ghost major0: Majors, ghost grown: bool, ghost i: int)
      returns (p: int, ghost j: int)
      requires Alignment(aln) && 0 <= req
      requires Searching(lay0, bet0, major0, req + aln + ALIGN_INFO, source, grown, started, i, maj)
      requires var size := req + aln + ALIGN_INFO;
               Noted(lay0, lay, bet0, size, started, if grown && !FreshSeen(lay0, size) then i else i + 1, bestBet)
      modifies this`major, this`minor, this`mem, this`inuse, this`lay
      ensures p != 0 ==> Valid() && Done(lay0, bet0, major0, old(minor), old(mem), req, aln, source, p, grown, i, j)
      ensures p == 0 ==> !grown && unchanged(this) && NoRoom(lay[i], req + aln + ALIGN_INFO + MINOR_SIZE)
    {
      var size := req + aln + ALIGN_INFO;
      ghost var lay1, major1 := lay, major;
      hide PagesFor, LayoutOk, AlignedOk, SumsOk, MajorsOk, MinorsOk, RecordsOk, OnlyMajors, OnlyMinors, OnlyRecord;
      hide NoRoom, Noted, BetAfter, Chosen, Sweeping, FreshSeen;
      if grown {
        assert lay[i] == NewBlock(size, source);
        HasRoom(lay[i], 0, size + MINOR_SIZE);
      } else {
        assert lay0[i].mins != [];
      }
      p, j := TryBlock(maj, size, req, aln, i);
      if p != 0 {
        HasRoom(lay1[i], j, size + MINOR_SIZE);
        if !grown { SweptChosen(lay0, bet0, size, started, i); }
        NotedDone(lay0, lay1, bet0, size, started, grown, i, bestBet);
        OnlyMajorsTrans(major0, major1, lay1, i, lay[i], major);
        assert AllUsed(lay) by {
          forall k | 0 <= k < |lay| ensures lay[k].mins != [] {
            if k < |lay0| { assert lay0[k].mins != []; }
          }
        }
      }
    }

    /** The search of kmemalign: the lowest gap that fits of the first block that has one,
        from the best bet on if that looks large enough, then from the root on; new pages
        exactly when no gap of any block is large enough. */
    method Allocate(size: int, aln: int, req: int, source: int -> int)
      returns (p: int, ghost grown: bool, ghost i: int, ghost j: int)
      requires Valid() && SizeOk(size) && SourceOk(lay, source)
      requires TooBig(size) || (Alignment(aln) && 0 <= req && size == req + aln + ALIGN_INFO)
      modifies this`major, this`minor, this`mem, this`memRoot, this`bestBet, this`taken, this`inuse
      modifies this`warningCount, this`lay
      ensures Valid()
      ensures p != 0 ==>
                Done(old(lay), old(bestBet), old(major), old(minor), old(mem), req, aln, source, p, grown, i, j)
      ensures p == 0 ==> lay == old(lay) && major == old(major) && minor == old(minor) && mem == old(mem)
      ensures p == 0 <==> Refused(old(lay), size, source)
      ensures p == 0 ==> Noted(lay, lay, old(bestBet), size, false, |lay|, bestBet)
      ensures warningCount == old(warningCount) + if p == 0 then 1 else 0
      ensures TooBig(size) ==> p == 0
    {
      hide Valid, Searching, Done, Full, SourceOk, PagesFor, NoRoom, Alignment, TooBig, Noted, FreeAt, IsMajor;
      hide Block.Size, FreshSeen, FreeBytes;
      if TooBig(size) { BigNoPages(lay, source, size); }
      ghost var lay0, bet0, major0, w0 := lay, bestBet, major, warningCount;
      BetListed();
      var maj, startedBet, bestSize;
      maj, startedBet, bestSize, grown, i := StartSearch(size, source);
      j := 0;
      while maj != 0
        invariant minor == old(minor) && mem == old(mem) && warningCount == w0 + if maj == 0 then 1 else 0
        invariant maj != 0 ==> Searching(lay0, bet0, major0, size, source, grown, startedBet, i, maj) && i < |lay|
        invariant maj != 0 ==> bestSize == FreeAt(lay, bestBet)
        invariant maj != 0 ==> Noted(lay0, lay, bet0, size, startedBet, i, bestBet) && (grown ==> FreshSeen(lay0, size))
        invariant maj == 0 ==> Valid() && lay == lay0 && major == major0
        invariant maj == 0 ==> Full(lay0, size + MINOR_SIZE) && source(PagesFor(size)) == 0
        invariant maj == 0 ==> Noted(lay0, lay0, bet0, size, false, |lay0|, bestBet)
        invariant grown && maj != 0 ==> source(PagesFor(size)) != 0
        decreases if maj == 0 then 0 else 1, startedBet, !grown, |lay| - i
      {
        var diff;
        diff, bestSize := Measure(maj, startedBet, bestSize, size, source, lay0, bet0, major0, grown, i);
        var fresh' := false;
        if diff < Need(size) {
          OnOld(lay0, bet0, major0, size, source, grown, startedBet, i, maj);
          FreshAfter(lay0, size, i, diff);
          maj, startedBet, fresh', i := Advance(maj, startedBet, size, source, lay0, bet0, major0, i);
          if !fresh' { continue; }
          grown := true;
        }
        p, j := Visit(maj, startedBet, req, aln, source, lay0, bet0, major0, grown, i);
        if p != 0 {
          DoneGrown(lay0, bet0, major0, old(minor), old(mem), req, aln, source, p, grown, i, j);
          return;
        }
        OnOld(lay0, bet0, major0, size, source, grown, startedBet, i, maj);
        FreshAfter(lay0, size, i, diff);
        maj, startedBet, fresh', i := Advance(maj, startedBet, size, source, lay0, bet0, major0, i);
        grown := fresh';
      }
      p := 0;
    }

    lemma DoneGrown(lay0: seq<Block>, bet0: int, major0: Majors, minor0: Minors, mem0: Mem,
                    req: int, aln: int, source: int -> int, p: int, grown: bool, i: int, j: int)
      requires Done(lay0, bet0, major0, minor0, mem0, req, aln, source, p, grown, i, j)
      ensures grown <==> Full(lay0, req + aln + ALIGN_INFO + MINOR_SIZE)
    {
    }

    lemma BetListed()
      requires Valid()
      ensures bestBet == 0 || IsMajor(lay, bestBet)
    {
    }

    /** Before any growth the search is on the blocks of before. */
    lemma OnOld(lay0: seq<Block>, bet0: int, major0: Majors, size: int, source: int -> int,
                grown: bool, started: bool, i: int, maj: int)
      requires Searching(lay0, bet0, major0, size, source, grown, started, i, maj)
      ensures 0 <= i && (!grown ==> lay == lay0)
    {
    }

    /** kmemalign: one new minor for the request, or NULL when nothing fits and no
        pages are to be had. */
    method Kmemalign(aln: int, req: int, source: int -> int)
      returns (p: int, ghost grown: bool, ghost i: int, ghost j: int)
      requires Valid() && Servable(req, aln) && SourceOk(lay, source)
      modifies this`major, this`minor, this`mem, this`memRoot, this`bestBet, this`taken, this`inuse
      modifies this`warningCount, this`lay
      ensures Valid()
      ensures var (r, a) := Served(req, aln); var size := PayloadSize(r, a);
              && (p != 0 ==>
                    Done(old(lay), old(bestBet), old(major), old(minor), old(mem), r, a, source, p, grown, i, j))
              && (p == 0 <==> Refused(old(lay), size, source))
              && (TooBig(size) ==> p == 0)
      ensures p == 0 ==> lay == old(lay) && major == old(major) && minor == old(minor) && mem == old(mem)
      ensures OnlyMajors(old(major), major, lay) && OnlyMinors(old(minor), minor, lay)
      ensures warningCount ==
              old(warningCount) + (if PayloadSize(req, aln) == 0 then 1 else 0) + (if p == 0 then 1 else 0)
      decreases PayloadSize(req, aln) == 0
    {
      hide OnlyMajors, OnlyMinors, OnlyRecord, Allocation, LayoutOk, AlignedOk, SumsOk, MajorsOk, MinorsOk;
      hide RecordsOk, InUse, Allocated, Full, SourceOk, PagesFor, BetAfter, Chosen, FirstGap;
      if SafeRequest(req, aln) { ServedSafe(req, aln); }
      ServedSafe(1, DEFAULT_ALIGNMENT);
      var size := Wrap(req);
      if aln > 1 { size := Wrap(size + aln + ALIGN_INFO); }
      if size == 0 {
        warningCount := warningCount + 1;
        p, grown, i, j := Kmemalign(DEFAULT_ALIGNMENT, 1, source);
        return;
      }
      SameMajors(major, lay);
      SameMinors(minor, lay);
      p, grown, i, j := Allocate(size, aln, req, source);
    }

    /** Take the minor out of its block's list and mark it dead. */
    method UnlinkMin(min: int, ghost b: Block, ghost j: int) returns (maj: int)
      requires 0 <= j < |b.mins| && min == b.mins[j].addr
      requires AtBlock(b.base, b) && BlockOk(b)
      modifies this`major, this`minor, this`inuse
      ensures maj == b.base
      ensures minor == UnlinkMinor(old(minor), b, j)
      ensures major == UpdateMajor(old(major), WithoutMin(b, j))
      ensures inuse == old(inuse) - b.mins[j].size
    {
      assert MinorOk(minor, b, j);
      assert j > 0 ==> MinorOk(minor, b, j - 1) && MinOk(b.mins[j-1]) && b.mins[j-1].addr < min;
      assert j + 1 < |b.mins| ==> MinorOk(minor, b, j + 1) && MinOk(b.mins[j+1]) && min < b.mins[j+1].addr;
      maj := minor[min].block;
      inuse := inuse - minor[min].size;
      major := major[maj := major[maj].(usage := major[maj].usage - (minor[min].size + MINOR_SIZE))];
      minor := minor[min := minor[min].(magic := LIBALLOC_DEAD)];
      if minor[min].next != 0 {
        minor := minor[minor[min].next := minor[minor[min].next].(prev := minor[min].prev)];
      }
      if minor[min].prev != 0 {
        minor := minor[minor[min].prev := minor[minor[min].prev].(next := minor[min].next)];
      }
      if minor[min].prev == 0 {
        major := major[maj := major[maj].(first := minor[min].next)];
      }
    }

    /** Take an empty block off the list of majors. */
    method UnlinkMaj(maj: int, ghost i: int)
      requires HeadersOk(major, minor, mem, lay) && 0 <= i < |lay| && lay[i].base == maj && memRoot == lay[0].base
      modifies this`major, this`taken, this`memRoot, this`bestBet
      ensures major == UnlinkMajor(old(major), lay, i)
      ensures taken == old(taken) - lay[i].Size()
      ensures memRoot == (if i == 0 then (if |lay| == 1 then 0 else lay[1].base) else lay[0].base)
      ensures bestBet == if old(bestBet) == maj then 0 else old(bestBet)
    {
      hide LayoutOk, AlignedOk, SumsOk, MajorsOk, MinorsOk, RecordsOk;
      Neighbours(major, lay, i);
      AtMajor(major, lay, i);
      if memRoot == maj { memRoot := major[maj].next; }
      if bestBet == maj { bestBet := 0; }
      if major[maj].prev != 0 {
        major := major[major[maj].prev := major[major[maj].prev].(next := major[maj].next)];
      }
      if major[maj].next != 0 {
        major := major[major[maj].next := major[major[maj].next].(prev := major[maj].prev)];
      }
      taken := taken - major[maj].size;
    }

    /** Unlink the live minor (i, j); its block may be left empty. */
    method Detach(min: int, ghost i: int, ghost j: int) returns (maj: int)
      requires Valid() && 0 <= i < |lay| && 0 <= j < |lay[i].mins| && lay[i].mins[j].addr == min
      modifies this`major, this`minor, this`inuse, this`lay
      ensures Shape() && lay == old(lay)[i := WithoutMin(old(lay)[i], j)]
      ensures min in minor && minor[min].magic == LIBALLOC_DEAD
      ensures maj == lay[i].base && maj in major && (major[maj].first == 0 <==> lay[i].mins == [])
      ensures OnlyMajors(old(major), major, old(lay)) && OnlyMinors(old(minor), minor, old(lay))
    {
      hide LayoutOk, AlignedOk, SumsOk, MajorsOk, MinorsOk, RecordsOk, InUse, Allocated, OnlyMajors, OnlyMinors;
      ghost var b := lay[i];
      LiveHeader(minor, lay, i, j);
      AtMajor(major, lay, i);
      FreeOk(major, minor, mem, lay, i, j);
      FreeFrame(major, minor, lay, i, j);
      WithoutSums(lay, i, j);
      maj := UnlinkMin(min, b, j);
      if bestBet != 0 { SameBases(lay, i, WithoutMin(b, j), bestBet); }
      lay := lay[i := WithoutMin(b, j)];
      LiveMins(lay, i);
    }

    /** Unlink the live minor (i, j), giving the block back with its last minor. */
    method Release(min: int, ghost i: int, ghost j: int)
      requires Valid() && 0 <= i < |lay| && 0 <= j < |lay[i].mins| && lay[i].mins[j].addr == min
      modifies this`major, this`minor, this`taken, this`inuse, this`memRoot, this`bestBet, this`lay
      ensures Valid() && lay == RemoveMin(old(lay), i, j)
      ensures min in minor && minor[min].magic == LIBALLOC_DEAD
      ensures OnlyMajors(old(major), major, old(lay)) && OnlyMinors(old(minor), minor, old(lay))
      ensures BetFreed(lay, |old(lay)[i].mins| == 1, old(lay)[i].base, i, old(bestBet), bestBet)
    {
      hide LayoutOk, AlignedOk, SumsOk, MajorsOk, MinorsOk, RecordsOk, InUse, Allocated, OnlyMajors, OnlyMinors;
      ghost var lay0, major0 := lay, major;
      var maj := Detach(min, i, j);
      if major[maj].first == 0 {
        ReleaseOk(major, minor, mem, lay, i);
        if bestBet != 0 && bestBet != maj { OtherMajor(lay, i, bestBet); }
        ghost var major1 := major;
        ReleaseFrame(major, lay, i);
        UnlinkMaj(maj, i);
        ReleaseFrames(major0, major1, major, lay0, i, lay[i]);
        lay := RemoveAt(lay, i);
        assert lay == RemoveAt(old(lay), i);
      } else {
        AtMajor(major, lay, i);
        if bestBet != 0 {
          var bestSize, _ := BestFree();
          var majSize := major[maj].size - major[maj].usage;
          if majSize > bestSize { bestBet := maj; }
        }
      }
    }

    /** kfree. */
    method Kfree(ptr: int, ghost i: int, ghost j: int)
      requires Valid()
      requires ptr == 0 || IsLive(lay, i, j, ptr) || DeadPtr(ptr)
      modifies this
      ensures Valid() && mem == old(mem)
      ensures ptr != 0 && IsLive(old(lay), i, j, ptr) ==> lay == RemoveMin(old(lay), i, j) && DeadPtr(ptr)
      ensures ptr == 0 || !IsLive(old(lay), i, j, ptr) ==>
                lay == old(lay) && major == old(major) && minor == old(minor)
                && memRoot == old(memRoot) && bestBet == old(bestBet)
      ensures ptr != 0 && IsLive(old(lay), i, j, ptr) ==>
                BetFreed(lay, |old(lay)[i].mins| == 1, old(lay)[i].base, i, old(bestBet), bestBet)
      ensures errorCount == old(errorCount) + if ptr == 0 || IsLive(old(lay), i, j, ptr) then 0 else 1
      ensures warningCount == old(warningCount) + if ptr == 0 then 1 else 0
      ensures possibleOverruns ==
                old(possibleOverruns) + if ptr != 0 && old(DeadPtr(ptr) && Overrun(MagicAt(ptr))) then 1 else 0
      ensures OnlyMajors(old(major), major, old(lay)) && OnlyMinors(old(minor), minor, old(lay))
    {
      hide LayoutOk, AlignedOk, SumsOk, MajorsOk, MinorsOk, RecordsOk, InUse, Allocated, OnlyMajors, OnlyMinors;
      SameMajors(major, lay);
      SameMinors(minor, lay);
      if ptr == 0 {
        warningCount := warningCount + 1;
        return;
      }
      if IsLive(lay, i, j, ptr) {
        UnalignLive(mem, lay, i, j);
        LiveHeader(minor, lay, i, j);
      }
      var q := Unalign(ptr);
      var min := q - MINOR_SIZE;
      if minor[min].magic != LIBALLOC_MAGIC {
        errorCount := errorCount + 1;
        if Overrun(minor[min].magic) { possibleOverruns := possibleOverruns + 1; }
        return;
      }
      Release(min, i, j);
    }

    /** A pointer whose recovered header does not carry the magic: freed before,
        or never handed out. */
    ghost predicate DeadPtr(ptr: int)
      reads this
    {
      && UnalignedPtr(mem, ptr) - MINOR_SIZE in minor
      && minor[UnalignedPtr(mem, ptr) - MINOR_SIZE].magic != LIBALLOC_MAGIC
    }

    /** The magic of the header that a pointer leads back to. */
    ghost function MagicAt(ptr: int): int
      reads this
    {
      var a := UnalignedPtr(mem, ptr) - MINOR_SIZE;
      if a in minor then minor[a].magic else 0
    }

    /** liballoc_memcpy: whole words first, then the bytes left over. */
    method Memcpy(dst: int, src: int, count: int)
      requires 0 <= count && (dst + count <= src || src + count <= dst)
      modifies this`mem
      ensures forall x :: dst <= x < dst + count ==> Byte(mem, x) == Byte(old(mem), x - dst + src)
      ensures forall x :: !(dst <= x < dst + count) ==> Byte(mem, x) == Byte(old(mem), x)
    {
      var d, c, n := dst, src, count;
      while n >= 4
        invariant 0 <= n <= count && d == dst + (count - n) && c == src + (count - n)
        invariant forall x :: dst <= x < d ==> Byte(mem, x) == Byte(old(mem), x - dst + src)
        invariant forall x :: !(dst <= x < d) ==> Byte(mem, x) == Byte(old(mem), x)
      {
        ghost var was := mem;
        mem := mem[d := Byte(mem, c)][d + 1 := Byte(mem, c + 1)][d + 2 := Byte(mem, c + 2)][d + 3 := Byte(mem, c + 3)];
        assert forall x :: !(d <= x < d + 4) ==> Byte(mem, x) == Byte(was, x);
        d, c, n := d + 4, c + 4, n - 4;
      }
      while n > 0
        invariant 0 <= n <= count && d == dst + (count - n) && c == src + (count - n)
        invariant forall x :: dst <= x < d ==> Byte(mem, x) == Byte(old(mem), x - dst + src)
        invariant forall x :: !(dst <= x < d) ==> Byte(mem, x) == Byte(old(mem), x)
      {
        ghost var was := mem;
        mem := mem[d := Byte(mem, c)];
        assert forall x :: x != d ==> Byte(mem, x) == Byte(was, x);
        d, c, n := d + 1, c + 1, n - 1;
      }
    }

    method ShrinkTo(min: int, size: int, ghost i: int, ghost j: int)
      requires Valid() && 0 <= i < |lay| && 0 <= j < |lay[i].mins| && lay[i].mins[j].addr == min
      requires 0 <= size <= lay[i].mins[j].req
      modifies this`minor, this`lay
      ensures Valid() && lay == Shrink(old(lay), i, j, size) && OnlyMinors(old(minor), minor, old(lay))
      ensures Resized(old(lay), lay, i, j, size)
    {
      hide LayoutOk, AlignedOk, SumsOk, MajorsOk, MinorsOk, RecordsOk, InUse, Allocated;
      LiveHeader(minor, lay, i, j);
      assert IsMinor(lay, min);
      ShrinkResizes(lay, i, j, size);
      ShrinkLayout(lay, i, j, size);
      ShrinkHeaders(major, minor, mem, lay, i, j, size);
      if bestBet != 0 { SameBases(lay, i, Shrink(lay, i, j, size)[i], bestBet); }
      minor := minor[min := minor[min].(req := size)];
      lay := Shrink(lay, i, j, size);
    }

    /** The growing half of krealloc: allocate, copy, free, whether or not there was
        memory. */
    method MoveTo(p: int, size: int, source: int -> int, ghost i: int, ghost j: int)
      returns (r: int, ghost mid: seq<Block>, ghost grown: bool, ghost k: int, ghost l: int)
      requires Valid() && IsLive(lay, i, j, p) && lay[i].mins[j].req < size
      requires Servable(size, DEFAULT_ALIGNMENT) && SourceOk(lay, source)
      requires CanMove(lay, size, source) || LowFits(lay, lay[i].mins[j].req)
      modifies this
      ensures Valid() && errorCount == old(errorCount) && (r != 0 <==> CanMove(old(lay), size, source))
      ensures LayoutOk(mid) && OnlyMajors(old(major), major, mid) && OnlyMinors(old(minor), minor, mid)
      ensures r != 0 ==> MovedTo(old(lay), mid, lay, old(mem), mem, grown, i, j, k, l, size, source, p, r)
      ensures r == 0 ==> mid == old(lay) && LostAt0(old(lay), lay, old(mem), mem, i, j, p)
    {
      hide Shape, HeadersOk, Allocation, SourceOk, PagesFor, OnlyMajors, OnlyMinors, LayoutOk, CanMove, LowFits;
      hide Byte, Servable, RemoveMin, DeadPtr;
      ghost var mem0, major0, minor0 := mem, major, minor;
      var realSize := RequestOf(p, i, j);
      r, grown, k, l := AllocBeside(p, size, source, i, j);
      mid := lay;
      ghost var mem1, j' := mem, if r == 0 then j else Shifted(i, j, k, l);
      if r != 0 {
        Copy(r, p, realSize, k, l);
        BytesMoved(mem0, mem1, mem, r, p, realSize);
      } else {
        CopyLow(p, realSize, i, j);
      }
      ghost var major1, minor1 := major, minor;
      LayoutValid();
      Kfree(p, i, j');
      OnlyTwice(major0, major1, major, minor0, minor1, minor, mid);
    }

    /** The copy of a krealloc that got NULL: to address 0, below the heap. */
    method CopyLow(src: int, count: int, ghost i: int, ghost j: int)
      requires Valid() && IsLive(lay, i, j, src) && 0 <= count && LowFits(lay, count)
      modifies this`mem
      ensures Valid()
      ensures forall x :: 0 <= x < count ==> Byte(mem, x) == Byte(old(mem), x + src)
      ensures forall x :: !(0 <= x < count) ==> Byte(mem, x) == Byte(old(mem), x)
    {
      hide LayoutOk, AlignedOk, SumsOk, MajorsOk, MinorsOk, RecordsOk, InUse, Allocated, LowFits;
      ghost var was := mem;
      LivePtrLow(lay, i, j, count);
      Memcpy(0, src, count);
      LowStores(was, mem, lay, count);
    }

    lemma LayoutValid()
      requires Valid()
      ensures LayoutOk(lay)
    {
    }

    /** The requested size in the header behind a live pointer. */
    method RequestOf(p: int, ghost i: int, ghost j: int) returns (req: int)
      requires Valid() && IsLive(lay, i, j, p)
      ensures req == lay[i].mins[j].req >= 0
    {
      LiveHeader(minor, lay, i, j);
      UnalignLive(mem, lay, i, j);
      LiveReq(lay, i, j);
      var q := Unalign(p);
      req := minor[q - MINOR_SIZE].req;
    }

    /** kmalloc next to a live allocation, which it leaves alone. */
    method AllocBeside(p: int, size: int, source: int -> int, ghost i: int, ghost j: int)
      returns (r: int, ghost grown: bool, ghost k: int, ghost l: int)
      requires Valid() && IsLive(lay, i, j, p) && lay[i].mins[j].req < size && 0 <= lay[i].mins[j].req
      requires Servable(size, DEFAULT_ALIGNMENT) && SourceOk(lay, source)
      modifies this`major, this`minor, this`mem, this`memRoot, this`bestBet, this`taken, this`inuse
      modifies this`warningCount, this`lay
      ensures Valid() && p > 0 && (r != 0 <==> CanMove(old(lay), size, source))
      ensures r == 0 ==> lay == old(lay) && mem == old(mem)
      ensures var need := size + DEFAULT_ALIGNMENT + ALIGN_INFO;
              r != 0 ==> Allocation(old(lay), lay, grown, k, l, need, size, DEFAULT_ALIGNMENT, source, r)
      ensures r != 0 ==> IsLive(lay, i, Shifted(i, j, k, l), p)
      ensures r != 0 ==> IsLive(lay, k, l, r) && lay[k].mins[l].req == size
      ensures r != 0 ==> p + old(lay)[i].mins[j].req <= r - ALIGN_INFO || r + size <= p - ALIGN_INFO
      ensures OnlyMajors(old(major), major, lay) && OnlyMinors(old(minor), minor, lay)
      ensures r != 0 ==> forall x :: !(r - ALIGN_INFO <= x < r) ==> Byte(mem, x) == Byte(old(mem), x)
    {
      hide LayoutOk, AlignedOk, SumsOk, MajorsOk, MinorsOk, RecordsOk, InUse, Allocated, Full, PagesFor, SourceOk;
      hide OnlyMajors, OnlyMinors, NewBlock, Fits, Gap, Placed, InsertMin, TooBig, PayloadSize;
      ghost var lay0 := lay;
      LiveReq(lay, i, j);
      ServedMalloc(size);
      r, grown, k, l := Kmemalign(DEFAULT_ALIGNMENT, size, source);
      if r != 0 {
        ghost var need := size + DEFAULT_ALIGNMENT + ALIGN_INFO;
        StillLive(lay0, lay, grown, k, l, need, size, DEFAULT_ALIGNMENT, source, r, i, j);
        MoveApart(lay, i, Shifted(i, j, k, l), k, l);
        CouldMove(lay0, lay, grown, k, l, size, source, r);
      }
    }

    /** Copy into the front of a live allocation from a disjoint range. */
    method Copy(dst: int, src: int, count: int, ghost k: int, ghost l: int)
      requires Valid() && IsLive(lay, k, l, dst) && 0 <= count <= lay[k].mins[l].req
      requires dst + count <= src || src + count <= dst
      modifies this`mem
      ensures Valid()
      ensures forall x :: dst <= x < dst + count ==> Byte(mem, x) == Byte(old(mem), x - dst + src)
      ensures forall x :: !(dst <= x < dst + count) ==> Byte(mem, x) == Byte(old(mem), x)
    {
      hide LayoutOk, AlignedOk, SumsOk, MajorsOk, MinorsOk, RecordsOk, InUse, Allocated;
      ghost var was := mem;
      Memcpy(dst, src, count);
      UserStores(was, mem, lay, k, l);
    }

    /** krealloc. */
    method Krealloc(p: int, size: int, source: int -> int, ghost i: int, ghost j: int)
      returns (r: int, ghost mid: seq<Block>, ghost grown: bool, ghost k: int, ghost l: int)
      requires Valid() && 0 <= size
      requires p == 0 || IsLive(lay, i, j, p) || DeadPtr(p)
      requires SourceOk(lay, source)
      requires size > 0 && (p == 0 || (IsLive(lay, i, j, p) && lay[i].mins[j].req < size)) ==>
                 Servable(size, DEFAULT_ALIGNMENT)
      requires IsLive(lay, i, j, p) && lay[i].mins[j].req < size ==>
                 CanMove(lay, size, source) || LowFits(lay, lay[i].mins[j].req)
      modifies this
      ensures Valid()
      // headers change only where live ones are, before or after; mid has both
      ensures LayoutOk(mid) && OnlyMajors(old(major), major, mid) && OnlyMinors(old(minor), minor, mid)
      // size 0 frees
      ensures size == 0 ==> r == 0 && mem == old(mem) && mid == old(lay)
      ensures size == 0 && p != 0 && IsLive(old(lay), i, j, p) ==> lay == RemoveMin(old(lay), i, j)
      // NULL allocates
      ensures size > 0 && p == 0 ==> mid == lay
      ensures size > 0 && p == 0 && r != 0 ==>
                Done(old(lay), old(bestBet), old(major), old(minor), old(mem), size, DEFAULT_ALIGNMENT, source,
                     r, grown, k, l)
      ensures size > 0 && p == 0 && r == 0 ==>
                lay == old(lay) && mem == old(mem) && source(PagesFor(PayloadSize(size, DEFAULT_ALIGNMENT))) == 0
      // a dead pointer is refused
      ensures size > 0 && p != 0 && !IsLive(old(lay), i, j, p) ==>
                && r == 0 && lay == old(lay) == mid && mem == old(mem) && errorCount == old(errorCount) + 1
                && possibleOverruns == old(possibleOverruns) + if old(Overrun(MagicAt(p))) then 1 else 0
      // a smaller size stays in place
      ensures size > 0 && p != 0 && IsLive(old(lay), i, j, p) && size <= old(lay)[i].mins[j].req ==>
                r == p && Resized(old(lay), lay, i, j, size) && mem == old(mem) && mid == old(lay)
      // a larger one moves, with all the old bytes, exactly when there is memory
      ensures size > 0 && p != 0 && IsLive(old(lay), i, j, p) && size > old(lay)[i].mins[j].req ==>
                && (r != 0 <==> CanMove(old(lay), size, source))
                && (r != 0 ==> MovedTo(old(lay), mid, lay, old(mem), mem, grown, i, j, k, l, size, source, p, r))
                && (r == 0 ==> mid == old(lay) && LostAt0(old(lay), lay, old(mem), mem, i, j, p))
    {
      hide LayoutOk, AlignedOk, SumsOk, MajorsOk, MinorsOk, RecordsOk, InUse, Allocated, Full, PagesFor, SourceOk;
      hide OnlyMajors, OnlyMinors, OnlyRecord, Byte, Allocation, Done, UnalignedPtr, CanMove, MovedTo, LostAt0;
      hide Servable, TooBig, PayloadSize, LowFits, Resized;
      mid, grown, k, l := lay, false, 0, 0;
      SameMajors(major, lay);
      SameMinors(minor, lay);
      if size == 0 {
        Kfree(p, i, j);
        r := 0;
        return;
      }
      if p == 0 {
        ServedMalloc(size);
        r, grown, k, l := Kmemalign(DEFAULT_ALIGNMENT, size, source);
        mid := lay;
        return;
      }
      if IsLive(lay, i, j, p) {
        UnalignLive(mem, lay, i, j);
        LiveHeader(minor, lay, i, j);
      }
      var q := Unalign(p);
      var min := q - MINOR_SIZE;
      if minor[min].magic != LIBALLOC_MAGIC {
        errorCount := errorCount + 1;
        if Overrun(minor[min].magic) { possibleOverruns := possibleOverruns + 1; }
        r := 0;
        return;
      }
      if minor[min].req >= size {
        ShrinkTo(min, size, i, j);
        r := p;
        return;
      }
      r, mid, grown, k, l := MoveTo(p, size, source, i, j);
    }
  }
}
