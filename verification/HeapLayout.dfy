/**
 The abstract layout of the kernel heap of kernel/kmalloc.c.

 The allocator keeps a list of "majors" (runs of pages obtained from the page
 source); each major carries a header and an address-ordered list of "minors",
 and each minor is a header followed by its payload.  A `Block` is the abstract
 value of a major and a `Min` that of a minor.
 */
module HeapLayout {
  import opened Machine
  import opened SeqOps

  /** sizeof(struct liballoc_major) and sizeof(struct liballoc_minor) on i686 */
  const MAJOR_SIZE := 24
  const MINOR_SIZE := 24
  const ALIGN_INFO := 16
  const DEFAULT_ALIGNMENT := 16
  const PAGE_COUNT := 16

  /** The powers of two that fit the 16-bit alignment record. */
  predicate Alignment(aln: int) {
    aln in {2, 4, 8, 16, 32, 64, 128, 256, 512, 1024, 2048, 4096, 8192, 16384, 32768}
  }

  /** What the ALIGN macro turns the start `q` of a payload into. */
  function AlignedPtr(q: int, aln: int): (p: int)
    requires aln > 0
    ensures p % aln == 0
    ensures q + ALIGN_INFO <= p < q + ALIGN_INFO + aln
  {
    var shifted := q + ALIGN_INFO;
    var diff := shifted % aln;
    if diff != 0 then AlignedUp(shifted, aln); shifted + (aln - diff) else shifted
  }

  lemma AlignedUp(x: int, aln: int)
    requires aln > 0
    ensures (x + (aln - x % aln)) % aln == 0
  {
    var q := x / aln;
    assert x + (aln - x % aln) == (q + 1) * aln;
    MultipleMod(q + 1, aln);
  }

  lemma MultipleMod(k: int, n: int)
    requires n > 0
    ensures (k * n) % n == 0
  {
    // k * n == q * n + r with 0 <= r < n, so (k - q) * n == r leaves only r == 0
    var q, r := (k * n) / n, (k * n) % n;
    assert (k - q) * n == r;
    assert k - q <= 0 by { if k - q >= 1 { SmallMultiple(k - q, n); } }
    assert k - q >= 0 by { if q - k >= 1 { SmallMultiple(q - k, n); } }
  }

  lemma SmallMultiple(d: int, n: int)
    requires d >= 1 && n > 0
    ensures d * n >= n
  {
  }

  /** A live allocation: header address, payload size, requested size, the
      pointer handed to the caller and its alignment. */
  datatype Min = Min(addr: int, size: int, req: int, ptr: int, aln: int) {
    function End(): int { addr + MINOR_SIZE + size }
  }

  datatype Block = Block(base: int, pages: int, used: int, mins: seq<Min>) {
    function Size(): int { pages * PAGE_SIZE }
    function Limit(): int { base + pages * PAGE_SIZE }
  }

  /** The pointer and the 16-byte record before it lie inside the payload, and
      so do the `req` bytes after it. */
  predicate MinOk(m: Min) {
    && 0 <= m.req && 0 < m.aln < 65536
    && m.addr + MINOR_SIZE + ALIGN_INFO <= m.ptr < m.addr + MINOR_SIZE + ALIGN_INFO + m.aln
    && m.ptr - m.addr < 65536
    && m.ptr + m.req <= m.End()
  }

  /** The pointer is the one ALIGN computes, for an alignment the record can
      hold. */
  predicate PtrOk(m: Min) {
    Alignment(m.aln) && m.ptr == AlignedPtr(m.addr + MINOR_SIZE, m.aln)
  }

  predicate Ordered(mins: seq<Min>) {
    forall i, j :: 0 <= i < j < |mins| ==> mins[i].End() <= mins[j].addr
  }

  predicate Within(mins: seq<Min>, lo: int, hi: int) {
    forall i :: 0 <= i < |mins| ==> MinOk(mins[i]) && lo <= mins[i].addr && mins[i].End() <= hi
  }

  predicate BlockOk(b: Block) {
    && 0 < b.base
    && 0 < b.pages && b.Limit() <= WORD
    && Ordered(b.mins)
    && Within(b.mins, b.base + MAJOR_SIZE, b.Limit())
  }

  predicate Apart(b: Block, c: Block) {
    b.Limit() <= c.base || c.Limit() <= b.base
  }

  predicate LayoutOk(lay: seq<Block>) {
    && (forall k :: 0 <= k < |lay| ==> BlockOk(lay[k]))
    && (forall k, l :: 0 <= k < l < |lay| ==> Apart(lay[k], lay[l]))
  }

  /** Blocks start on a page and every live pointer is aligned as asked. */
  predicate AlignedOk(lay: seq<Block>) {
    && (forall k :: 0 <= k < |lay| ==> lay[k].base % PAGE_SIZE == 0)
    && (forall k, l :: 0 <= k < |lay| && 0 <= l < |lay[k].mins| ==> PtrOk(lay[k].mins[l]))
  }

  /** The `usage` counters, less the block header, are the exact sums. */
  predicate SumsOk(lay: seq<Block>) {
    forall k :: 0 <= k < |lay| ==> lay[k].used == Used(lay[k].mins)
  }

  predicate AllUsed(lay: seq<Block>) {
    forall k :: 0 <= k < |lay| ==> lay[k].mins != []
  }

  // ---- counters -------------------------------------------------------

  /** Bytes the minors take, headers included. */
  function Used(mins: seq<Min>): int {
    if mins == [] then 0 else Used(mins[..|mins|-1]) + mins[|mins|-1].size + MINOR_SIZE
  }

  /** Payload bytes of the minors: what `l_inuse` counts. */
  function Payload(mins: seq<Min>): int {
    if mins == [] then 0 else Payload(mins[..|mins|-1]) + mins[|mins|-1].size
  }

  function InUse(lay: seq<Block>): int {
    if lay == [] then 0 else InUse(lay[..|lay|-1]) + Payload(lay[|lay|-1].mins)
  }

  function Allocated(lay: seq<Block>): int {
    if lay == [] then 0 else Allocated(lay[..|lay|-1]) + lay[|lay|-1].Size()
  }

  // ---- gaps -----------------------------------------------------------

  /** Gap j lies before minor j (the last one after all minors). */
  function GapStart(b: Block, j: int): int
    requires 0 <= j <= |b.mins|
  {
    if j == 0 then b.base + MAJOR_SIZE else b.mins[j-1].End()
  }

  function GapEnd(b: Block, j: int): int
    requires 0 <= j <= |b.mins|
  {
    if j == |b.mins| then b.Limit() else b.mins[j].addr
  }

  function Gap(b: Block, j: int): int
    requires 0 <= j <= |b.mins|
  {
    GapEnd(b, j) - GapStart(b, j)
  }

  /** No contiguous gap of `b` can take `need` bytes. */
  predicate NoRoom(b: Block, need: int) {
    forall j :: 0 <= j <= |b.mins| ==> Gap(b, j) < need
  }

  /** Gap j is the lowest one of `b` that can take `need` bytes. */
  predicate FirstGap(b: Block, j: int, need: int) {
    && 0 <= j <= |b.mins| && Gap(b, j) >= need
    && forall l :: 0 <= l < j ==> Gap(b, l) < need
  }

  /** Block b with minor m put into gap j. */
  function WithMin(b: Block, j: int, m: Min): (r: Block)
    requires 0 <= j <= |b.mins|
  {
    b.(mins := InsertAt(b.mins, j, m), used := b.used + m.size + MINOR_SIZE)
  }

  /** Block b without minor j. */
  function WithoutMin(b: Block, j: int): (r: Block)
    requires 0 <= j < |b.mins|
  {
    b.(mins := RemoveAt(b.mins, j), used := b.used - (b.mins[j].size + MINOR_SIZE))
  }

  function InsertMin(lay: seq<Block>, i: int, j: int, m: Min): (r: seq<Block>)
    requires 0 <= i < |lay| && 0 <= j <= |lay[i].mins|
  {
    lay[i := WithMin(lay[i], j, m)]
  }

  /** The layout after minor j of block i is freed: the block goes with its
      last minor. */
  function RemoveMin(lay: seq<Block>, i: int, j: int): (r: seq<Block>)
    requires 0 <= i < |lay| && 0 <= j < |lay[i].mins|
  {
    if |lay[i].mins| == 1 then RemoveAt(lay, i)
    else lay[i := WithoutMin(lay[i], j)]
  }

  // ---- facts about gaps and sums --------------------------------------

  /** The minors up to j and gap j together never exceed what precedes the end
      of gap j. */
  lemma {:induction false} UsedPrefix(b: Block, j: int)
    requires BlockOk(b) && 0 <= j <= |b.mins|
    ensures 0 <= Used(b.mins[..j]) <= GapStart(b, j) - b.base - MAJOR_SIZE
  {
    if j > 0 {
      UsedPrefix(b, j - 1);
      assert b.mins[..j][..j-1] == b.mins[..j-1];
      if j > 1 { assert b.mins[j-2].End() <= b.mins[j-1].addr; }
    }
  }

  lemma {:induction false} UsedSuffix(b: Block, j: int)
    requires BlockOk(b) && 0 <= j <= |b.mins|
    ensures Used(b.mins) - Used(b.mins[..j]) <= b.Limit() - GapEnd(b, j)
    decreases |b.mins| - j
  {
    if j == |b.mins| {
      assert b.mins[..j] == b.mins;
    } else {
      UsedSuffix(b, j + 1);
      assert b.mins[..j+1][..j] == b.mins[..j];
      if j + 1 < |b.mins| { assert b.mins[j].End() <= b.mins[j+1].addr; }
    }
  }

  /** A block's free byte count bounds each of its gaps: this is what makes the
      quick "not enough space in this major" test sound. */
  lemma FreeBoundsGap(b: Block, j: int)
    requires BlockOk(b) && 0 <= j <= |b.mins|
    ensures Gap(b, j) <= b.Size() - (MAJOR_SIZE + Used(b.mins))
  {
    UsedPrefix(b, j);
    UsedSuffix(b, j);
  }

  lemma {:induction false} SumInsert(mins: seq<Min>, j: int, m: Min)
    requires 0 <= j <= |mins|
    ensures Used(InsertAt(mins, j, m)) == Used(mins) + m.size + MINOR_SIZE
    ensures Payload(InsertAt(mins, j, m)) == Payload(mins) + m.size
    decreases |mins|
  {
    var s := InsertAt(mins, j, m);
    if j == |mins| {
      assert s[..|s|-1] == mins;
    } else {
      assert s[..|s|-1] == InsertAt(mins[..|mins|-1], j, m);
      SumInsert(mins[..|mins|-1], j, m);
    }
  }

  lemma SumRemove(mins: seq<Min>, j: int)
    requires 0 <= j < |mins|
    ensures Used(RemoveAt(mins, j)) == Used(mins) - mins[j].size - MINOR_SIZE
    ensures Payload(RemoveAt(mins, j)) == Payload(mins) - mins[j].size
  {
    SumInsert(RemoveAt(mins, j), j, mins[j]);
    RemoveInsert(mins, j);
  }

  lemma {:induction false} InUseUpdate(lay: seq<Block>, i: int, b: Block)
    requires 0 <= i < |lay| && b.pages == lay[i].pages
    ensures InUse(lay[i := b]) == InUse(lay) - Payload(lay[i].mins) + Payload(b.mins)
    ensures Allocated(lay[i := b]) == Allocated(lay)
    decreases |lay|
  {
    var s := lay[i := b];
    if i == |lay| - 1 {
      assert s[..|s|-1] == lay[..|lay|-1];
    } else {
      assert s[..|s|-1] == lay[..|lay|-1][i := b];
      InUseUpdate(lay[..|lay|-1], i, b);
    }
  }

  lemma {:induction false} TotalsInsert(lay: seq<Block>, i: int, b: Block)
    requires 0 <= i <= |lay|
    ensures InUse(InsertAt(lay, i, b)) == InUse(lay) + Payload(b.mins)
    ensures Allocated(InsertAt(lay, i, b)) == Allocated(lay) + b.Size()
    decreases |lay|
  {
    var s := InsertAt(lay, i, b);
    if i == |lay| {
      assert s[..|s|-1] == lay;
    } else {
      assert s[..|s|-1] == InsertAt(lay[..|lay|-1], i, b);
      TotalsInsert(lay[..|lay|-1], i, b);
    }
  }

  lemma TotalsRemove(lay: seq<Block>, i: int)
    requires 0 <= i < |lay|
    ensures InUse(RemoveAt(lay, i)) == InUse(lay) - Payload(lay[i].mins)
    ensures Allocated(RemoveAt(lay, i)) == Allocated(lay) - lay[i].Size()
  {
    TotalsInsert(RemoveAt(lay, i), i, lay[i]);
    RemoveInsert(lay, i);
  }

  // ---- the layout invariant is kept -----------------------------------

  /** The minor that an allocation puts at the start of gap j. */
  function NewMin(b: Block, j: int, size: int, req: int, aln: int): (m: Min)
    requires 0 <= j <= |b.mins| && aln > 0
    ensures m.addr == GapStart(b, j) && m.size == size && m.req == req && m.aln == aln
    ensures m.ptr == AlignedPtr(m.addr + MINOR_SIZE, aln)
  {
    var a := GapStart(b, j);
    Min(a, size, req, AlignedPtr(a + MINOR_SIZE, aln), aln)
  }

  lemma GapBounds(b: Block, j: int)
    requires BlockOk(b) && 0 <= j <= |b.mins|
    ensures b.base + MAJOR_SIZE <= GapStart(b, j)
    ensures GapEnd(b, j) <= b.Limit()
    ensures forall k :: 0 <= k < j ==> b.mins[k].End() <= GapStart(b, j)
    ensures forall k :: j <= k < |b.mins| ==> GapEnd(b, j) <= b.mins[k].addr
  {
  }

  lemma InsertKeepsOrder(b: Block, j: int, m: Min)
    requires BlockOk(b) && 0 <= j <= |b.mins|
    requires m.addr == GapStart(b, j) && m.addr <= m.End() <= GapEnd(b, j)
    ensures Ordered(InsertAt(b.mins, j, m))
  {
    GapBounds(b, j);
    var s := InsertAt(b.mins, j, m);
    forall x, y | 0 <= x < y < |s| ensures s[x].End() <= s[y].addr {
      assert s[j] == m;
      assert x != j ==> s[x] == b.mins[if x < j then x else x - 1];
      assert y != j ==> s[y] == b.mins[if y < j then y else y - 1];
    }
  }

  lemma InsertKeepsBlock(b: Block, j: int, m: Min)
    requires BlockOk(b) && 0 <= j <= |b.mins|
    requires MinOk(m) && m.addr == GapStart(b, j) && m.addr <= m.End() <= GapEnd(b, j)
    ensures BlockOk(WithMin(b, j, m))
  {
    GapBounds(b, j);
    InsertKeepsOrder(b, j, m);
    var s := InsertAt(b.mins, j, m);
    forall x | 0 <= x < |s|
      ensures MinOk(s[x]) && b.base + MAJOR_SIZE <= s[x].addr && s[x].End() <= b.Limit()
    {
      assert x == j ==> s[x] == m;
      assert x != j ==> s[x] == b.mins[if x < j then x else x - 1];
    }
  }

  lemma RemoveKeepsBlock(b: Block, j: int)
    requires BlockOk(b) && 0 <= j < |b.mins|
    ensures BlockOk(WithoutMin(b, j))
  {
    var s := RemoveAt(b.mins, j);
    forall x, y | 0 <= x < y < |s| ensures s[x].End() <= s[y].addr {
      assert s[x] == b.mins[if x < j then x else x + 1];
      assert s[y] == b.mins[if y < j then y else y + 1];
    }
    forall x | 0 <= x < |s|
      ensures MinOk(s[x]) && b.base + MAJOR_SIZE <= s[x].addr && s[x].End() <= b.Limit()
    {
      assert s[x] == b.mins[if x < j then x else x + 1];
    }
  }

  lemma UpdateKeepsLayout(lay: seq<Block>, i: int, b: Block)
    requires LayoutOk(lay) && 0 <= i < |lay|
    requires BlockOk(b) && b.base == lay[i].base && b.pages == lay[i].pages
    ensures LayoutOk(lay[i := b])
  {
  }

  /** Two different places of the layout never share a byte: headers, payloads
      and block headers of distinct minors are disjoint. */
  lemma Disjoint(lay: seq<Block>, i: int, j: int, k: int, l: int)
    requires LayoutOk(lay)
    requires 0 <= i < |lay| && 0 <= j < |lay[i].mins|
    requires 0 <= k < |lay| && 0 <= l < |lay[k].mins|
    requires i != k || j != l
    ensures lay[i].mins[j].End() <= lay[k].mins[l].addr || lay[k].mins[l].End() <= lay[i].mins[j].addr
    ensures lay[i].mins[j].addr != lay[k].mins[l].addr
    ensures lay[i].mins[j].ptr != lay[k].mins[l].ptr
  {
    var m, n := lay[i].mins[j], lay[k].mins[l];
    assert MinOk(m) && MinOk(n);
    if i != k {
      var x, y := if i < k then i else k, if i < k then k else i;
      assert Apart(lay[x], lay[y]);
    }
  }

  // ---- what an allocation followed by its release gives back -----------

  lemma AllocThenFree(lay: seq<Block>, i: int, j: int, m: Min)
    requires 0 <= i < |lay| && 0 <= j <= |lay[i].mins| && lay[i].mins != []
    ensures RemoveMin(InsertMin(lay, i, j, m), i, j) == lay
  {
    var grown := InsertMin(lay, i, j, m);
    InsertRemove(lay[i].mins, j, m);
    assert WithoutMin(grown[i], j) == lay[i];
    assert grown[i := lay[i]] == lay;
  }

  lemma GrowThenFree(lay: seq<Block>, b: Block, m: Min)
    requires b.mins == []
    ensures RemoveMin(InsertMin(lay + [b], |lay|, 0, m), |lay|, 0) == lay
  {
    var grown := InsertMin(lay + [b], |lay|, 0, m);
    assert RemoveAt(grown, |lay|) == lay;
  }
}
