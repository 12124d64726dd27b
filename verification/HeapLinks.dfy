/**
 The in-memory headers of the kernel heap: doubly linked majors, doubly linked
 minors, owner pointers and the alignment record hidden before each user
 pointer.  Addresses are integers and 0 is NULL.  `HeadersOk` says that the
 stored headers are exactly the ones a layout calls for; the lemmas show that
 the pointer updates of kernel/kmalloc.c follow the layout operations.
 */
module HeapLinks {
  import opened HeapLayout
  import opened Machine
  import opened SeqOps

  const LIBALLOC_MAGIC := 0xc001c0de
  const LIBALLOC_DEAD := 0xdeaddead

  datatype MajorHdr = MajorHdr(prev: int, next: int, pages: int, size: int, usage: int, first: int)

  datatype MinorHdr = MinorHdr(prev: int, next: int, block: int, magic: int, size: int, req: int)

  type Majors = map<int, MajorHdr>
  type Minors = map<int, MinorHdr>

  /** The header that block k of the layout must have. */
  function MajorAt(lay: seq<Block>, k: int): MajorHdr
    requires 0 <= k < |lay|
  {
    MajorHdr(
      if k == 0 then 0 else lay[k-1].base,
      if k + 1 == |lay| then 0 else lay[k+1].base,
      lay[k].pages,
      lay[k].Size(),
      MAJOR_SIZE + lay[k].used,
      if lay[k].mins == [] then 0 else lay[k].mins[0].addr)
  }

  /** The header that minor l of a block must have. */
  function MinorAt(b: Block, l: int): MinorHdr
    requires 0 <= l < |b.mins|
  {
    MinorHdr(
      if l == 0 then 0 else b.mins[l-1].addr,
      if l + 1 == |b.mins| then 0 else b.mins[l+1].addr,
      b.base,
      LIBALLOC_MAGIC,
      b.mins[l].size,
      b.mins[l].req)
  }

  predicate MajorOk(major: Majors, lay: seq<Block>, k: int)
    requires 0 <= k < |lay|
  {
    lay[k].base in major && major[lay[k].base] == MajorAt(lay, k)
  }

  predicate MajorsOk(major: Majors, lay: seq<Block>) {
    forall k :: 0 <= k < |lay| ==> MajorOk(major, lay, k)
  }

  predicate MinorOk(minor: Minors, b: Block, l: int)
    requires 0 <= l < |b.mins|
  {
    b.mins[l].addr in minor && minor[b.mins[l].addr] == MinorAt(b, l)
  }

  predicate MinorsOf(minor: Minors, b: Block) {
    forall l :: 0 <= l < |b.mins| ==> MinorOk(minor, b, l)
  }

  predicate MinorsOk(minor: Minors, lay: seq<Block>) {
    forall k :: 0 <= k < |lay| ==> MinorsOf(minor, lay[k])
  }

  /** x is the address of a live minor header. */
  predicate IsMinor(lay: seq<Block>, x: int) {
    exists k, l :: 0 <= k < |lay| && 0 <= l < |lay[k].mins| && lay[k].mins[l].addr == x
  }

  predicate IsMajor(lay: seq<Block>, x: int) {
    exists k :: 0 <= k < |lay| && lay[k].base == x
  }

  // ---- minors ---------------------------------------------------------

  /** The minor headers after `m` has been linked into gap j of `b`. */
  function LinkMinor(minor: Minors, b: Block, j: int, m: Min): Minors
    requires MinorsOf(minor, b) && 0 <= j <= |b.mins|
  {
    assert j > 0 ==> MinorOk(minor, b, j - 1);
    assert j < |b.mins| ==> MinorOk(minor, b, j);
    var before := if j == 0 then 0 else b.mins[j-1].addr;
    var after := if j == |b.mins| then 0 else b.mins[j].addr;
    var m1 := if j == 0 then minor else minor[before := minor[before].(next := m.addr)];
    var m2 := if j == |b.mins| then m1 else m1[after := m1[after].(prev := m.addr)];
    m2[m.addr := MinorHdr(before, after, b.base, LIBALLOC_MAGIC, m.size, m.req)]
  }

  predicate DistinctAddrs(mins: seq<Min>) {
    forall u, v :: 0 <= u < v < |mins| ==> mins[u].addr != mins[v].addr
  }

  lemma AddrsDiffer(b: Block)
    requires BlockOk(b)
    ensures DistinctAddrs(b.mins)
  {
    forall u, v | 0 <= u < v < |b.mins| ensures b.mins[u].addr != b.mins[v].addr {
      assert MinOk(b.mins[u]);
      assert b.mins[u].End() <= b.mins[v].addr;
    }
  }

  lemma LinkMinorAt(minor: Minors, b: Block, j: int, m: Min, l: int)
    requires MinorsOf(minor, b) && 0 <= j <= |b.mins| && 0 <= l <= |b.mins|
    requires DistinctAddrs(b.mins) && forall u :: 0 <= u < |b.mins| ==> b.mins[u].addr != m.addr
    ensures MinorOk(LinkMinor(minor, b, j, m), WithMin(b, j, m), l)
  {
    if l != j {
      var u := if l < j then l else l - 1;
      assert WithMin(b, j, m).mins[l] == b.mins[u];
      assert MinorOk(minor, b, u);
      assert j > 0 && u != j - 1 ==> b.mins[u].addr != b.mins[j-1].addr;
      assert j < |b.mins| && u != j ==> b.mins[u].addr != b.mins[j].addr;
    }
  }

  lemma LinkMinorBlock(minor: Minors, b: Block, j: int, m: Min)
    requires BlockOk(b) && MinorsOf(minor, b) && 0 <= j <= |b.mins|
    requires MinOk(m) && m.addr == GapStart(b, j) && m.addr < m.End() <= GapEnd(b, j)
    ensures MinorsOf(LinkMinor(minor, b, j, m), WithMin(b, j, m))
  {
    AddrsDiffer(b);
    FreshAddr(b, j, m);
    forall l | 0 <= l <= |b.mins| ensures MinorOk(LinkMinor(minor, b, j, m), WithMin(b, j, m), l) {
      LinkMinorAt(minor, b, j, m, l);
    }
  }

  lemma FreshAddr(b: Block, j: int, m: Min)
    requires BlockOk(b) && 0 <= j <= |b.mins|
    requires m.addr == GapStart(b, j) && m.addr < m.End() <= GapEnd(b, j)
    ensures forall u :: 0 <= u < |b.mins| ==> b.mins[u].addr != m.addr
  {
    GapBounds(b, j);
    forall u | 0 <= u < |b.mins| ensures b.mins[u].addr != m.addr {
      assert MinOk(b.mins[u]);
    }
  }

  /** Minors of a block keep their headers when only addresses inside another
      block changed. */
  lemma OtherBlock(minor: Minors, minor': Minors, c: Block, b: Block)
    requires BlockOk(c) && MinorsOf(minor, c) && Apart(b, c)
    requires forall x :: x in minor && !(b.base <= x < b.Limit()) ==> x in minor' && minor'[x] == minor[x]
    ensures MinorsOf(minor', c)
  {
    forall l | 0 <= l < |c.mins| ensures MinorOk(minor', c, l) {
      assert MinOk(c.mins[l]);
      assert MinorOk(minor, c, l);
    }
  }

  lemma LinkMinorLayout(minor: Minors, lay: seq<Block>, i: int, j: int, m: Min)
    requires LayoutOk(lay) && MinorsOk(minor, lay)
    requires 0 <= i < |lay| && 0 <= j <= |lay[i].mins|
    requires MinOk(m) && m.addr == GapStart(lay[i], j) && m.addr < m.End() <= GapEnd(lay[i], j)
    ensures LayoutOk(InsertMin(lay, i, j, m))
    ensures MinorsOk(LinkMinor(minor, lay[i], j, m), InsertMin(lay, i, j, m))
  {
    var b := lay[i];
    var lay' := InsertMin(lay, i, j, m);
    InsertKeepsBlock(b, j, m);
    UpdateKeepsLayout(lay, i, lay'[i]);
    LinkMinorBlock(minor, b, j, m);
    GapBounds(b, j);
    forall k | 0 <= k < |lay| && k != i ensures MinorsOf(LinkMinor(minor, b, j, m), lay'[k]) {
      assert Apart(lay[if i < k then i else k], lay[if i < k then k else i]);
      LinkMinorInside(minor, b, j, m);
      OtherBlock(minor, LinkMinor(minor, b, j, m), lay[k], b);
    }
  }

  lemma LinkMinorInside(minor: Minors, b: Block, j: int, m: Min)
    requires BlockOk(b) && MinorsOf(minor, b) && 0 <= j <= |b.mins|
    requires m.addr == GapStart(b, j) && m.addr < m.End() <= GapEnd(b, j)
    ensures forall x :: x in minor && !(b.base <= x < b.Limit()) ==>
              x in LinkMinor(minor, b, j, m) && LinkMinor(minor, b, j, m)[x] == minor[x]
  {
    GapBounds(b, j);
    if j > 0 { assert MinOk(b.mins[j-1]); }
    if j < |b.mins| { assert MinOk(b.mins[j]); }
  }

  /** The minor headers after minor j of `b` has been unlinked and marked dead. */
  function UnlinkMinor(minor: Minors, b: Block, j: int): Minors
    requires MinorsOf(minor, b) && 0 <= j < |b.mins|
  {
    assert MinorOk(minor, b, j);
    assert j > 0 ==> MinorOk(minor, b, j - 1);
    assert j + 1 < |b.mins| ==> MinorOk(minor, b, j + 1);
    var a := b.mins[j].addr;
    var before := if j == 0 then 0 else b.mins[j-1].addr;
    var after := if j + 1 == |b.mins| then 0 else b.mins[j+1].addr;
    var m1 := minor[a := minor[a].(magic := LIBALLOC_DEAD)];
    var m2 := if after == 0 || j + 1 == |b.mins| then m1 else m1[after := m1[after].(prev := before)];
    if before == 0 || j == 0 then m2 else m2[before := m2[before].(next := after)]
  }

  lemma UnlinkMinorAt(minor: Minors, b: Block, j: int, l: int)
    requires MinorsOf(minor, b) && 0 <= j < |b.mins| && 0 <= l < |b.mins| - 1
    requires DistinctAddrs(b.mins) && forall u :: 0 <= u < |b.mins| ==> b.mins[u].addr != 0
    ensures MinorOk(UnlinkMinor(minor, b, j), WithoutMin(b, j), l)
  {
    var u := if l < j then l else l + 1;
    assert WithoutMin(b, j).mins[l] == b.mins[u];
    assert MinorOk(minor, b, u);
    assert b.mins[u].addr != b.mins[j].addr;
    assert j > 0 && u != j - 1 ==> b.mins[u].addr != b.mins[j-1].addr;
    assert j + 1 < |b.mins| && u != j + 1 ==> b.mins[u].addr != b.mins[j+1].addr;
  }

  lemma UnlinkMinorBlock(minor: Minors, b: Block, j: int)
    requires BlockOk(b) && MinorsOf(minor, b) && 0 <= j < |b.mins|
    ensures MinorsOf(UnlinkMinor(minor, b, j), WithoutMin(b, j))
  {
    AddrsDiffer(b);
    forall u | 0 <= u < |b.mins| ensures b.mins[u].addr != 0 {
      assert MinOk(b.mins[u]);
    }
    forall l | 0 <= l < |b.mins| - 1 ensures MinorOk(UnlinkMinor(minor, b, j), WithoutMin(b, j), l) {
      UnlinkMinorAt(minor, b, j, l);
    }
  }

  lemma UnlinkMinorInside(minor: Minors, b: Block, j: int)
    requires BlockOk(b) && MinorsOf(minor, b) && 0 <= j < |b.mins|
    ensures forall x :: x in minor && !(b.base <= x < b.Limit()) ==>
              x in UnlinkMinor(minor, b, j) && UnlinkMinor(minor, b, j)[x] == minor[x]
  {
    assert MinOk(b.mins[j]);
    if j > 0 { assert MinOk(b.mins[j-1]); }
    if j + 1 < |b.mins| { assert MinOk(b.mins[j+1]); }
  }

  lemma UnlinkMinorLayout(minor: Minors, lay: seq<Block>, i: int, j: int)
    requires LayoutOk(lay) && MinorsOk(minor, lay)
    requires 0 <= i < |lay| && 0 <= j < |lay[i].mins|
    ensures LayoutOk(lay[i := WithoutMin(lay[i], j)])
    ensures MinorsOk(UnlinkMinor(minor, lay[i], j), lay[i := WithoutMin(lay[i], j)])
  {
    var b := lay[i];
    var lay' := lay[i := WithoutMin(b, j)];
    RemoveKeepsBlock(b, j);
    UpdateKeepsLayout(lay, i, lay'[i]);
    UnlinkMinorBlock(minor, b, j);
    forall k | 0 <= k < |lay| && k != i ensures MinorsOf(UnlinkMinor(minor, b, j), lay'[k]) {
      assert Apart(lay[if i < k then i else k], lay[if i < k then k else i]);
      UnlinkMinorInside(minor, b, j);
      OtherBlock(minor, UnlinkMinor(minor, b, j), lay[k], b);
    }
  }

  // ---- majors ---------------------------------------------------------

  predicate DistinctBases(lay: seq<Block>) {
    forall k, l :: 0 <= k < l < |lay| ==> lay[k].base != lay[l].base
  }

  lemma BasesDiffer(lay: seq<Block>)
    requires LayoutOk(lay)
    ensures DistinctBases(lay)
  {
    forall k, l | 0 <= k < l < |lay| ensures lay[k].base != lay[l].base {
      assert BlockOk(lay[k]) && BlockOk(lay[l]);
      assert Apart(lay[k], lay[l]);
    }
  }

  /** Storing a block's new `usage` and `first` is all a change of its minors
      asks of the major headers. */
  function UpdateMajor(major: Majors, b: Block): Majors
    requires b.base in major
  {
    major[b.base := major[b.base].(
      usage := MAJOR_SIZE + b.used, first := if b.mins == [] then 0 else b.mins[0].addr)]
  }

  lemma UpdateMajorLayout(major: Majors, lay: seq<Block>, i: int, b: Block)
    requires DistinctBases(lay) && MajorsOk(major, lay) && 0 <= i < |lay|
    requires b.base in major && b.base == lay[i].base && b.pages == lay[i].pages
    ensures MajorsOk(UpdateMajor(major, b), lay[i := b])
  {
    var major' := UpdateMajor(major, b);
    var lay' := lay[i := b];
    forall k | 0 <= k < |lay'| ensures MajorOk(major', lay', k) {
      assert MajorOk(major, lay, k);
      assert k != i ==> lay[k].base != lay[i].base;
    }
  }

  lemma AppendLayout(lay: seq<Block>, b: Block)
    requires LayoutOk(lay) && BlockOk(b)
    requires forall k :: 0 <= k < |lay| ==> Apart(lay[k], b)
    ensures LayoutOk(lay + [b])
  {
    var lay' := lay + [b];
    forall k, l | 0 <= k < l < |lay'| ensures Apart(lay'[k], lay'[l]) {
      if l < |lay| {
        assert lay'[l] == lay[l] && lay'[k] == lay[k];
      } else {
        assert lay'[l] == b && lay'[k] == lay[k];
      }
    }
  }

  /** The major headers after a fresh block is hooked behind the last one. */
  function AppendMajor(major: Majors, lay: seq<Block>, b: Block): Majors
    requires MajorsOk(major, lay)
  {
    if lay == [] then major[b.base := MajorHdr(0, 0, b.pages, b.Size(), MAJOR_SIZE + b.used, 0)]
    else
      assert MajorOk(major, lay, |lay| - 1);
      var last := lay[|lay|-1].base;
      major[b.base := MajorHdr(last, 0, b.pages, b.Size(), MAJOR_SIZE + b.used, 0)]
           [last := major[last].(next := b.base)]
  }

  lemma AppendMajorLayout(major: Majors, lay: seq<Block>, b: Block)
    requires MajorsOk(major, lay) && DistinctBases(lay + [b]) && b.mins == []
    ensures MajorsOk(AppendMajor(major, lay, b), lay + [b])
  {
    var lay' := lay + [b];
    var major' := AppendMajor(major, lay, b);
    forall k | 0 <= k < |lay'| ensures MajorOk(major', lay', k) {
      if k < |lay| {
        assert lay'[k] == lay[k] && lay'[|lay|] == b;
        assert lay'[k].base != lay'[|lay|].base;
        assert MajorOk(major, lay, k);
        if k + 1 < |lay| {
          assert lay'[k+1] == lay[k+1];
          assert lay'[k].base != lay'[|lay|-1].base;
        }
      }
    }
  }

  /** The major headers after block i has been taken out of the list. */
  function UnlinkMajor(major: Majors, lay: seq<Block>, i: int): Majors
    requires MajorsOk(major, lay) && 0 <= i < |lay|
  {
    assert i > 0 ==> MajorOk(major, lay, i - 1);
    assert i + 1 < |lay| ==> MajorOk(major, lay, i + 1);
    var before := if i == 0 then 0 else lay[i-1].base;
    var after := if i + 1 == |lay| then 0 else lay[i+1].base;
    var m1 := if i == 0 then major else major[before := major[before].(next := after)];
    if i + 1 == |lay| then m1 else m1[after := m1[after].(prev := before)]
  }

  lemma UnlinkMajorAt(major: Majors, lay: seq<Block>, i: int, k: int)
    requires MajorsOk(major, lay) && DistinctBases(lay) && 0 <= i < |lay| && 0 <= k < |lay| - 1
    ensures MajorOk(UnlinkMajor(major, lay, i), RemoveAt(lay, i), k)
  {
    var u := if k < i then k else k + 1;
    assert RemoveAt(lay, i)[k] == lay[u];
    assert MajorOk(major, lay, u);
    assert i > 0 && u != i - 1 ==> lay[u].base != lay[i-1].base;
    assert i + 1 < |lay| && u != i + 1 ==> lay[u].base != lay[i+1].base;
  }

  lemma UnlinkMajorLayout(major: Majors, minor: Minors, lay: seq<Block>, i: int)
    requires LayoutOk(lay) && MajorsOk(major, lay) && MinorsOk(minor, lay) && 0 <= i < |lay|
    ensures LayoutOk(RemoveAt(lay, i))
    ensures MajorsOk(UnlinkMajor(major, lay, i), RemoveAt(lay, i))
    ensures MinorsOk(minor, RemoveAt(lay, i))
  {
    var lay' := RemoveAt(lay, i);
    forall k | 0 <= k < |lay'| ensures BlockOk(lay'[k]) && MinorsOf(minor, lay'[k]) {
      assert lay'[k] == lay[if k < i then k else k + 1];
    }
    forall k, l | 0 <= k < l < |lay'| ensures Apart(lay'[k], lay'[l]) {
      assert lay'[k] == lay[if k < i then k else k + 1];
      assert lay'[l] == lay[if l < i then l else l + 1];
    }
    BasesDiffer(lay);
    forall k | 0 <= k < |lay| - 1 ensures MajorOk(UnlinkMajor(major, lay, i), lay', k) {
      UnlinkMajorAt(major, lay, i, k);
    }
  }

  // ---- the alignment record ------------------------------------------

  /** An `unsigned short` at a, low byte first. */
  function Load16(mem: Mem, a: int): int {
    Byte(mem, a) + 256 * Byte(mem, a + 1)
  }

  function Store16(mem: Mem, a: int, v: int): Mem {
    mem[a := v % 256][a + 1 := (v / 256) % 256]
  }

  /** The record before the user pointer leads back to the payload start. */
  predicate RecordOk(mem: Mem, m: Min) {
    && Load16(mem, m.ptr - ALIGN_INFO) == m.ptr - (m.addr + MINOR_SIZE)
    && Load16(mem, m.ptr - ALIGN_INFO + 2) == m.aln
  }

  predicate RecordsOk(mem: Mem, lay: seq<Block>) {
    forall k, l :: 0 <= k < |lay| && 0 <= l < |lay[k].mins| ==> RecordOk(mem, lay[k].mins[l])
  }

  /** The bytes ALIGN stores for `m`. */
  function WriteRecord(mem: Mem, m: Min): Mem {
    Store16(Store16(mem, m.ptr - ALIGN_INFO, m.ptr - (m.addr + MINOR_SIZE)),
            m.ptr - ALIGN_INFO + 2, m.aln)
  }

  lemma WriteRecordReads(mem: Mem, m: Min)
    requires MinOk(m)
    ensures RecordOk(WriteRecord(mem, m), m)
    ensures forall x :: !(m.ptr - ALIGN_INFO <= x < m.ptr - ALIGN_INFO + 4) ==>
              Byte(WriteRecord(mem, m), x) == Byte(mem, x)
  {
    var d := m.ptr - (m.addr + MINOR_SIZE);
    assert 0 <= d < 65536 && 0 <= m.aln < 65536;
  }

  lemma WriteRecordLayout(mem: Mem, lay: seq<Block>, i: int, j: int, m: Min)
    requires 0 <= i < |lay| && 0 <= j <= |lay[i].mins|
    requires RecordsOk(mem, lay) && MinOk(m)
    requires LayoutOk(InsertMin(lay, i, j, m))
    ensures RecordsOk(WriteRecord(mem, m), InsertMin(lay, i, j, m))
  {
    var lay' := InsertMin(lay, i, j, m);
    WriteRecordReads(mem, m);
    assert lay'[i].mins[j] == m;
    forall k, l | 0 <= k < |lay'| && 0 <= l < |lay'[k].mins|
      ensures RecordOk(WriteRecord(mem, m), lay'[k].mins[l])
    {
      var n := lay'[k].mins[l];
      if k != i || l != j {
        var u := if k != i || l < j then l else l - 1;
        assert n == lay[k].mins[u];
        assert RecordOk(mem, n);
        Disjoint(lay', i, j, k, l);
        assert BlockOk(lay'[k]);
        assert MinOk(n);
      }
    }
  }

  /** Stores between the pointer of a live minor and the end of its requested
      bytes leave every alignment record alone. */
  lemma UserStores(mem: Mem, mem': Mem, lay: seq<Block>, i: int, j: int)
    requires LayoutOk(lay) && RecordsOk(mem, lay)
    requires 0 <= i < |lay| && 0 <= j < |lay[i].mins|
    requires forall x :: !(lay[i].mins[j].ptr <= x < lay[i].mins[j].ptr + lay[i].mins[j].req) ==>
               Byte(mem', x) == Byte(mem, x)
    ensures RecordsOk(mem', lay)
  {
    assert BlockOk(lay[i]) && MinOk(lay[i].mins[j]);
    forall k, l | 0 <= k < |lay| && 0 <= l < |lay[k].mins| ensures RecordOk(mem', lay[k].mins[l]) {
      assert RecordOk(mem, lay[k].mins[l]);
      assert BlockOk(lay[k]) && MinOk(lay[k].mins[l]);
      if k != i || l != j {
        Disjoint(lay, i, j, k, l);
      }
    }
  }

  /** RecordsOk survives removals of minors or blocks. */
  lemma RecordsRemove(mem: Mem, lay: seq<Block>, i: int, j: int)
    requires RecordsOk(mem, lay) && 0 <= i < |lay| && 0 <= j < |lay[i].mins|
    ensures RecordsOk(mem, lay[i := WithoutMin(lay[i], j)])
  {
    var lay' := lay[i := WithoutMin(lay[i], j)];
    forall k, l | 0 <= k < |lay'| && 0 <= l < |lay'[k].mins| ensures RecordOk(mem, lay'[k].mins[l]) {
      var u := if k != i || l < j then l else l + 1;
      assert lay'[k].mins[l] == lay[k].mins[u];
    }
  }

  lemma RecordsRemoveBlock(mem: Mem, lay: seq<Block>, i: int)
    requires RecordsOk(mem, lay) && 0 <= i < |lay|
    ensures RecordsOk(mem, RemoveAt(lay, i))
  {
    var lay' := RemoveAt(lay, i);
    forall k, l | 0 <= k < |lay'| && 0 <= l < |lay'[k].mins| ensures RecordOk(mem, lay'[k].mins[l]) {
      assert lay'[k] == lay[if k < i then k else k + 1];
    }
  }
}
