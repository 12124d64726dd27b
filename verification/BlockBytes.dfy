/**
 Bytes under block I/O: a bounce buffer is contiguous in virtual memory but lies
 in scattered physical frames; sectors move between a disk and physical memory.
 */
module BlockBytes {
  import opened BlockRequest
  import opened Machine

  /** resolve_physical: frameOf gives the frame of a virtual page. */
  function Phys(frameOf: int -> int, v: int): int {
    frameOf(v / PAGE_SIZE) * PAGE_SIZE + v % PAGE_SIZE
  }

  /** The pages of [lo, hi) lie in distinct frames. */
  ghost predicate Mapped(frameOf: int -> int, lo: int, hi: int) {
    forall p, q :: lo / PAGE_SIZE <= p < q <= (hi - 1) / PAGE_SIZE ==> frameOf(p) != frameOf(q)
  }

  lemma PhysInjective(frameOf: int -> int, lo: int, hi: int, v: int, w: int)
    requires Mapped(frameOf, lo, hi) && lo <= v < hi && lo <= w < hi
    requires Phys(frameOf, v) == Phys(frameOf, w)
    ensures v == w
  {
    var p, q := v / PAGE_SIZE, w / PAGE_SIZE;
    assert frameOf(p) == frameOf(q);
    assert p < q ==> frameOf(p) != frameOf(q);
    assert q < p ==> frameOf(q) != frameOf(p);
  }

  lemma PhysSamePage(frameOf: int -> int, v: int, k: int)
    requires 0 <= k && v % PAGE_SIZE + k < PAGE_SIZE
    ensures Phys(frameOf, v + k) == Phys(frameOf, v) + k
  {
  }

  predicate SectorSize(size: int) {
    0 < size && PAGE_SIZE % size == 0
  }

  lemma ProductOrder(c: int, p: int, size: int)
    requires size > 0
    ensures c * size < p * size <==> c < p
    ensures c * size >= 0 <==> c >= 0
  {
    if c < p {
      assert (p - c) * size > 0;
    } else {
      assert (c - p) * size >= 0;
    }
  }

  lemma ProductDiv(d: int, size: int)
    requires size > 0
    ensures (d * size) / size == d && (d * size) % size == 0
  {
    var q, r := (d * size) / size, (d * size) % size;
    assert (d - q) * size == r;
    ProductOrder(d - q, 1, size);
    ProductOrder(d - q, 0, size);
  }

  /** A sector-aligned address has its sector in one page, and the rest of the
      page is a whole number of sectors, at least one. */
  lemma SectorsInPage(v: int, size: int)
    requires SectorSize(size) && v % size == 0
    ensures var room := PAGE_SIZE - v % PAGE_SIZE;
            size <= room && (room / size) * size == room && room / size >= 1
  {
    var p, k, q, o := PAGE_SIZE / size, v / size, v / PAGE_SIZE, v % PAGE_SIZE;
    assert p * size == PAGE_SIZE && k * size == v;
    var c := k - q * p;
    assert c * size == o by {
      assert (q * p) * size == q * (p * size);
      assert c * size == k * size - (q * p) * size;
    }
    ProductOrder(c, p, size);
    var d := p - c;
    assert d * size == PAGE_SIZE - o;
    ProductDiv(d, size);
    ProductOrder(1, d + 1, size);
    assert d >= 1;
    assert d * size >= 1 * size by { ProductOrder(d, 1, size); }
  }

  lemma NextSector(v: int, size: int, n: int)
    requires size > 0 && v % size == 0
    ensures (v + n * size) % size == 0
  {
    assert v == (v / size) * size;
    assert v + n * size == (v / size + n) * size;
    ProductDiv(v / size + n, size);
  }

  // ---- memory and disk ------------------------------------------------

  /** A byte of virtual memory. */
  function VByte(mem: Mem, frameOf: int -> int, v: int): int {
    Byte(mem, Phys(frameOf, v))
  }

  function DByte(disk: seq<int>, d: int): int {
    if 0 <= d < |disk| then disk[d] else 0
  }

  function Splice(s: seq<int>, at: int, data: seq<int>): (r: seq<int>)
    requires 0 <= at && at + |data| <= |s|
    ensures |r| == |s|
  {
    s[..at] + data + s[at + |data|..]
  }

  /** The physical addresses of n sectors of virtual memory from v on. */
  function VirtSectors(frameOf: int -> int, v: int, n: nat, size: int): (s: seq<int>)
    ensures |s| == n
    decreases n
  {
    if n == 0 then [] else [Phys(frameOf, v)] + VirtSectors(frameOf, v + size, n - 1, size)
  }

  lemma {:induction false} VirtConcat(frameOf: int -> int, v: int, n: nat, m: nat, size: int)
    ensures VirtSectors(frameOf, v, n + m, size)
         == VirtSectors(frameOf, v, n, size) + VirtSectors(frameOf, v + n * size, m, size)
    decreases n
  {
    if n > 0 {
      VirtConcat(frameOf, v + size, n - 1, m, size);
      assert v + size + (n - 1) * size == v + n * size;
    }
  }

  /** Sectors that stay within one page are consecutive in physical memory. */
  lemma {:induction false} VirtInPage(frameOf: int -> int, v: int, n: nat, size: int)
    requires size > 0 && v % PAGE_SIZE + n * size <= PAGE_SIZE
    ensures VirtSectors(frameOf, v, n, size) == Addresses(Phys(frameOf, v), n, size)
    decreases n
  {
    if n > 1 {
      assert n * size == size + (n - 1) * size;
      ProductOrder(0, n - 1, size);
      assert v % PAGE_SIZE + size < PAGE_SIZE;
      PhysSamePage(frameOf, v, size);
      assert (v + size) % PAGE_SIZE == v % PAGE_SIZE + size;
      VirtInPage(frameOf, v + size, n - 1, size);
    } else if n == 1 {
      assert VirtSectors(frameOf, v + size, 0, size) == [];
      assert Addresses(Phys(frameOf, v) + size, 0, size) == [];
    }
  }

  // ---- moving sectors -------------------------------------------------

  /** n bytes of the disk from d on, put into memory at a. */
  function CopyIn(mem: Mem, a: int, disk: seq<int>, d: int, n: nat): Mem {
    if n == 0 then mem else CopyIn(mem, a, disk, d, n - 1)[a + n - 1 := DByte(disk, d + n - 1)]
  }

  lemma {:induction false} CopyInBytes(mem: Mem, a: int, disk: seq<int>, d: int, n: nat, x: int)
    ensures Byte(CopyIn(mem, a, disk, d, n), x) == if a <= x < a + n then DByte(disk, d + x - a) else Byte(mem, x)
    decreases n
  {
    if n > 0 { CopyInBytes(mem, a, disk, d, n - 1, x); }
  }

  /** Sectors `first`, `first` + 1, ... of the disk into the listed addresses. */
  function DiskToMem(mem: Mem, disk: seq<int>, first: int, addrs: seq<int>, size: nat): Mem
    decreases |addrs|
  {
    if addrs == [] then mem
    else DiskToMem(CopyIn(mem, addrs[0], disk, first * size, size), disk, first + 1, addrs[1..], size)
  }

  lemma {:induction false} DiskToMemSplit(mem: Mem, disk: seq<int>, first: int, addrs: seq<int>, size: nat, k: nat)
    requires k <= |addrs|
    ensures DiskToMem(mem, disk, first, addrs, size)
         == DiskToMem(DiskToMem(mem, disk, first, addrs[..k], size), disk, first + k, addrs[k..], size)
    decreases k
  {
    if k > 0 {
      DiskToMemSplit(CopyIn(mem, addrs[0], disk, first * size, size), disk, first + 1, addrs[1..], size, k - 1);
      assert addrs[..k][1..] == addrs[1..][..k-1];
      assert addrs[1..][k-1..] == addrs[k..];
    }
  }

  /** The bytes of a sector in memory. */
  function SectorBytes(mem: Mem, a: int, size: nat): (s: seq<int>)
    ensures |s| == size
  {
    seq(size, i => Byte(mem, a + i))
  }

  predicate OnDisk(disk: seq<int>, first: int, n: nat, size: nat) {
    0 <= first && (first + n) * size <= |disk|
  }

  lemma OnDiskNext(disk: seq<int>, first: int, n: nat, size: nat)
    requires OnDisk(disk, first, n, size) && n > 0 && size > 0
    ensures 0 <= first * size && first * size + size <= |disk|
    ensures OnDisk(disk, first + 1, n - 1, size)
  {
    assert (first + n) * size == first * size + size + (n - 1) * size;
    ProductOrder(first, 0, size);
    ProductOrder(n - 1, 0, size);
    assert (first + 1 + (n - 1)) * size == (first + n) * size;
  }

  /** The listed memory sectors onto disk sectors `first`, `first` + 1, ... */
  function MemToDisk(disk: seq<int>, mem: Mem, first: int, addrs: seq<int>, size: nat): (r: seq<int>)
    requires size > 0 && OnDisk(disk, first, |addrs|, size)
    ensures |r| == |disk|
    decreases |addrs|
  {
    if addrs == [] then disk
    else
      OnDiskNext(disk, first, |addrs|, size);
      MemToDisk(Splice(disk, first * size, SectorBytes(mem, addrs[0], size)), mem, first + 1, addrs[1..], size)
  }

  /** Being on the disk depends only on the disk's length. */
  lemma OnDiskSame(disk: seq<int>, disk': seq<int>, first: int, n: nat, size: nat, first0: int, n0: nat)
    requires |disk| == |disk'| && OnDisk(disk, first0, n0, size) && first0 <= first && first + n == first0 + n0
    ensures OnDisk(disk', first, n, size)
  {
  }

  lemma OnDiskSplit(disk: seq<int>, first: int, n: nat, k: nat, size: nat)
    requires k <= n && OnDisk(disk, first, n, size)
    ensures OnDisk(disk, first, k, size) && OnDisk(disk, first + k, n - k, size)
  {
    assert first + k + (n - k) == first + n;
    assert (first + n) * size == (first + k) * size + (n - k) * size;
  }

  lemma {:induction false} MemToDiskSplit(disk: seq<int>, mem: Mem, first: int, addrs: seq<int>, size: nat, k: nat)
    requires size > 0 && OnDisk(disk, first, |addrs|, size) && k <= |addrs|
    ensures OnDisk(disk, first, k, size) && OnDisk(disk, first + k, |addrs| - k, size)
    ensures MemToDisk(disk, mem, first, addrs, size)
         == MemToDisk(MemToDisk(disk, mem, first, addrs[..k], size), mem, first + k, addrs[k..], size)
    decreases k
  {
    hide Splice, SectorBytes;
    OnDiskSplit(disk, first, |addrs|, k, size);
    if k > 0 {
      OnDiskNext(disk, first, |addrs|, size);
      OnDiskNext(disk, first, k, size);
      var disk' := Splice(disk, first * size, SectorBytes(mem, addrs[0], size));
      MemToDiskSplit(disk', mem, first + 1, addrs[1..], size, k - 1);
      assert addrs[..k][1..] == addrs[1..][..k-1];
      assert addrs[1..][k-1..] == addrs[k..];
    }
  }

  // ---- what it means for virtual memory ---------------------------------

  /** Reading n sectors into virtual memory at v puts exactly the disk's bytes
      there and leaves the rest of the mapped range alone. */
  lemma {:induction false} ReadEffect(mem: Mem, disk: seq<int>, first: int, frameOf: int -> int,
                                      v: int, n: nat, size: nat, lo: int, hi: int, w: int)
    requires SectorSize(size) && v % size == 0 && lo <= v && v + n * size <= hi
    requires Mapped(frameOf, lo, hi) && lo <= w < hi
    ensures VByte(DiskToMem(mem, disk, first, VirtSectors(frameOf, v, n, size), size), frameOf, w)
         == if v <= w < v + n * size then DByte(disk, first * size + w - v) else VByte(mem, frameOf, w)
    decreases n
  {
    hide Phys, CopyIn, VByte, DByte, Mapped;
    if n > 0 {
      var a := Phys(frameOf, v);
      var mem' := CopyIn(mem, a, disk, first * size, size);
      assert n * size == size + (n - 1) * size;
      ProductOrder(n - 1, 0, size);
      NextSector(v, size, 1);
      ReadEffect(mem', disk, first + 1, frameOf, v + size, n - 1, size, lo, hi, w);
      assert (first + 1) * size + w - (v + size) == first * size + w - v;
      ReadOne(mem, disk, first * size, frameOf, v, size, lo, hi, w);
    }
  }

  lemma ReadOne(mem: Mem, disk: seq<int>, d: int, frameOf: int -> int, v: int, size: nat, lo: int, hi: int, w: int)
    requires SectorSize(size) && v % size == 0 && lo <= v && v + size <= hi
    requires Mapped(frameOf, lo, hi) && lo <= w < hi
    ensures VByte(CopyIn(mem, Phys(frameOf, v), disk, d, size), frameOf, w)
         == if v <= w < v + size then DByte(disk, d + w - v) else VByte(mem, frameOf, w)
  {
    SectorsInPage(v, size);
    var a, x := Phys(frameOf, v), Phys(frameOf, w);
    CopyInBytes(mem, a, disk, d, size, x);
    if v <= w < v + size {
      PhysSamePage(frameOf, v, w - v);
    } else if a <= x < a + size {
      PhysSamePage(frameOf, v, x - a);
      PhysInjective(frameOf, lo, hi, v + (x - a), w);
    }
  }

  /** The bytes of virtual memory from v on. */
  function VBytes(mem: Mem, frameOf: int -> int, v: int, n: nat): (s: seq<int>)
    ensures |s| == n
  {
    seq(n, i => VByte(mem, frameOf, v + i))
  }

  /** Writing n sectors from virtual memory at v replaces exactly their bytes on
      the disk by the bytes of the buffer. */
  lemma {:induction false} WriteEffect(disk: seq<int>, mem: Mem, first: int, frameOf: int -> int,
                                       v: int, n: nat, size: nat)
    requires SectorSize(size) && v % size == 0 && OnDisk(disk, first, n, size)
    ensures 0 <= first * size && 0 <= n * size && first * size + n * size <= |disk|
    ensures MemToDisk(disk, mem, first, VirtSectors(frameOf, v, n, size), size)
         == Splice(disk, first * size, VBytes(mem, frameOf, v, n * size))
    decreases n
  {
    hide SectorBytes, VBytes, Splice, Phys, SectorSize;
    WriteArith(disk, first, n, size);
    if n > 0 {
      NextSector(v, size, 1);
      var at := first * size;
      var one := SectorBytes(mem, Phys(frameOf, v), size);
      WriteSector(mem, frameOf, v, size);
      WriteEffect(Splice(disk, at, one), mem, first + 1, frameOf, v + size, n - 1, size);
      var rest := VBytes(mem, frameOf, v + size, (n - 1) * size);
      VBytesConcat(mem, frameOf, v, size, (n - 1) * size);
      SpliceTwice(disk, at, one, rest);
    } else {
      SpliceNothing(disk, first * size, VBytes(mem, frameOf, v, n * size));
    }
  }

  /** Bytes outside [lo, hi) are the same. */
  predicate KeptOutside(disk: seq<int>, disk': seq<int>, lo: int, hi: int) {
    |disk| == |disk'| && forall d :: 0 <= d < |disk| && !(lo <= d < hi) ==> disk'[d] == disk[d]
  }

  lemma WriteArith(disk: seq<int>, first: int, n: nat, size: nat)
    requires SectorSize(size) && OnDisk(disk, first, n, size)
    ensures size > 0 && 0 <= first * size && 0 <= n * size && first * size + n * size <= |disk|
    ensures n > 0 ==> OnDisk(disk, first + 1, n - 1, size) && first * size + size <= |disk|
    ensures n > 0 ==> (first + 1) * size == first * size + size && n * size == size + (n - 1) * size
    ensures n > 0 ==> 0 <= (n - 1) * size
  {
    ProductOrder(first, 0, size);
    ProductOrder(n, 0, size);
    assert (first + n) * size == first * size + n * size;
    if n > 0 {
      OnDiskNext(disk, first, n, size);
      ProductOrder(n - 1, 0, size);
    }
  }

  lemma VBytesConcat(mem: Mem, frameOf: int -> int, v: int, n: nat, m: nat)
    ensures VBytes(mem, frameOf, v, n + m) == VBytes(mem, frameOf, v, n) + VBytes(mem, frameOf, v + n, m)
  {
    hide VByte;
  }

  lemma SpliceNothing(s: seq<int>, at: int, data: seq<int>)
    requires 0 <= at <= |s| && |data| == 0
    ensures Splice(s, at, data) == s
  {
  }

  lemma WriteSector(mem: Mem, frameOf: int -> int, v: int, size: nat)
    requires SectorSize(size) && v % size == 0
    ensures SectorBytes(mem, Phys(frameOf, v), size) == VBytes(mem, frameOf, v, size)
  {
    SectorsInPage(v, size);
    var s, t := SectorBytes(mem, Phys(frameOf, v), size), VBytes(mem, frameOf, v, size);
    forall i | 0 <= i < size ensures s[i] == t[i] {
      PhysSamePage(frameOf, v, i);
    }
  }

  lemma SpliceTwice(s: seq<int>, at: int, a: seq<int>, b: seq<int>)
    requires 0 <= at && at + |a| + |b| <= |s|
    ensures Splice(Splice(s, at, a), at + |a|, b) == Splice(s, at, a + b)
  {
  }

  /** memcpy into virtual memory. */
  function StoreV(mem: Mem, frameOf: int -> int, v: int, data: seq<int>): Mem
    decreases |data|
  {
    if data == [] then mem
    else StoreV(mem, frameOf, v, data[..|data|-1])[Phys(frameOf, v + |data| - 1) := data[|data|-1]]
  }

  lemma {:induction false} StoreVBytes(mem: Mem, frameOf: int -> int, v: int, data: seq<int>, lo: int, hi: int, w: int)
    requires Mapped(frameOf, lo, hi) && lo <= v && v + |data| <= hi && lo <= w < hi
    ensures VByte(StoreV(mem, frameOf, v, data), frameOf, w)
         == if v <= w < v + |data| then data[w - v] else VByte(mem, frameOf, w)
    decreases |data|
  {
    if data != [] {
      StoreVBytes(mem, frameOf, v, data[..|data|-1], lo, hi, w);
      if Phys(frameOf, w) == Phys(frameOf, v + |data| - 1) {
        PhysInjective(frameOf, lo, hi, w, v + |data| - 1);
      }
    }
  }
}
