/**
 Byte-granular block I/O: read_blkdev and write_blkdev of kernel/fs/dev.c through
 a bounce buffer, over the requests of kernel/block.c.  The driver transfers any
 number of sectors at a time and reports them with end_request; it may retry, and
 it may report an error.  The bounce buffer's address is a parameter (0 when
 kmemalign failed), and so is what every other allocation comes to.
 */
module BlkDev {
  import opened BlockRequest
  import opened BlockBytes
  import opened Machine

  /** What the driver reports of one attempt. */
  datatype Report = Moved(n: nat) | Retry | Failed

  /** What one request meets with: whether it, its n-th bio and its place in the queue
      can be allocated, and what the driver reports of its n-th attempt.  From attempt
      number `patience` on there are no more retries. */
  datatype Chance = Chance(reqOk: bool, bioOk: nat -> bool, postOk: bool, report: nat -> Report, patience: nat)

  ghost predicate Lucky(ch: Chance) {
    ch.reqOk && ch.postOk && forall n :: ch.bioOk(n)
  }

  ghost predicate NoFault(ch: Chance) {
    forall n :: !ch.report(n).Failed?
  }

  /** How many of `left` sectors the driver moves, from attempt `step` on, before it
      first reports an error. */
  function MovedBy(ch: Chance, left: nat, step: nat): (n: nat)
    ensures n <= left
    decreases left, if step < ch.patience then ch.patience - step else 0
  {
    if left == 0 || ch.report(step).Failed? then 0
    else if ch.report(step).Retry? && step < ch.patience then MovedBy(ch, left, step + 1)
    else
      var k := AttemptOf(ch.report(step), left);
      k + MovedBy(ch, left - k, step + 1)
  }

  /** The sectors of one attempt that moves some. */
  function AttemptOf(report: Report, left: nat): (k: nat)
    ensures k <= left && (left > 0 ==> k > 0)
  {
    var k := if report.Moved? && report.n >= 1 then report.n else 1;
    if k > left then left else k
  }

  /** The driver moves all n sectors of a request. */
  predicate Whole(ch: Chance, n: nat) {
    MovedBy(ch, n, 0) == n
  }

  lemma {:induction false} MovedAll(ch: Chance, left: nat, step: nat)
    requires NoFault(ch)
    ensures MovedBy(ch, left, step) == left
    decreases left, if step < ch.patience then ch.patience - step else 0
  {
    if left > 0 {
      if ch.report(step).Retry? && step < ch.patience {
        MovedAll(ch, left, step + 1);
      } else {
        MovedAll(ch, left - AttemptOf(ch.report(step), left), step + 1);
      }
    }
  }

  // ---- finding the device and the partition ---------------------------------

  datatype Part = Part(minor: nat, offset: nat, size: nat)

  datatype Device = Device(minor: nat, maxPart: nat, parts: seq<Part>)

  /** The first partition with the minor number, or the number of partitions. */
  function FirstWith(parts: seq<Part>, minor: nat): (i: nat)
    ensures i <= |parts|
  {
    if parts == [] then 0 else if parts[0].minor == minor then 0 else 1 + FirstWith(parts[1..], minor)
  }

  predicate HasPart(parts: seq<Part>, minor: nat) {
    FirstWith(parts, minor) < |parts|
  }

  /** FirstWith finds the first match, and misses none. */
  lemma {:induction false} FirstWithIs(parts: seq<Part>, minor: nat)
    ensures HasPart(parts, minor) ==> parts[FirstWith(parts, minor)].minor == minor
    ensures forall i :: 0 <= i < FirstWith(parts, minor) ==> parts[i].minor != minor
    decreases |parts|
  {
    if parts != [] && parts[0].minor != minor {
      FirstWithIs(parts[1..], minor);
      assert forall i :: 0 < i < |parts| ==> parts[i] == parts[1..][i-1];
    }
  }

  /** The loops of get_blkdev and create_request_blkdev over the partitions. */
  method FindPartition(parts: seq<Part>, minor: nat) returns (i: nat)
    ensures i == FirstWith(parts, minor)
  {
    i := 0;
    while i < |parts|
      invariant 0 <= i <= |parts| && FirstWith(parts, minor) == i + FirstWith(parts[i..], minor)
    {
      if parts[i].minor == minor { return; }
      assert parts[i..][1..] == parts[i+1..];
      i := i + 1;
    }
  }

  /** The device that get_blkdev looks at: the first whose numbers reach past the
      minor, or the last of all. */
  predicate Candidate(devs: seq<Device>, i: int, minor: nat) {
    && 0 <= i < |devs| && (i == |devs| - 1 || minor < devs[i].minor + devs[i].maxPart)
    && forall j :: 0 <= j < i ==> devs[j].minor + devs[j].maxPart <= minor
  }

  /** Devices have disjoint ranges of minor numbers, in increasing order, and their
      partitions have numbers in their ranges. */
  predicate Registered(devs: seq<Device>) {
    && (forall i, j :: 0 <= i < j < |devs| ==> devs[i].minor + devs[i].maxPart <= devs[j].minor)
    && (forall i, k :: 0 <= i < |devs| && 0 <= k < |devs[i].parts| ==>
          devs[i].minor <= devs[i].parts[k].minor < devs[i].minor + devs[i].maxPart)
  }

  /** get_blkdev: the index of the device, or -1 for NULL.  It gives the device that has
      a partition with the minor number, and NULL exactly when there is none. */
  method GetBlkdev(devs: seq<Device>, minor: nat) returns (r: int)
    ensures r == -1 || (Candidate(devs, r, minor) && HasPart(devs[r].parts, minor))
    ensures r == -1 ==> forall i :: Candidate(devs, i, minor) ==> !HasPart(devs[i].parts, minor)
    ensures Registered(devs) && r == -1 ==> forall i :: 0 <= i < |devs| ==> !HasPart(devs[i].parts, minor)
  {
    r := -1;
    var i := 0;
    while i < |devs|
      invariant 0 <= i <= |devs| && r == i - 1
      invariant forall j :: 0 <= j < i ==> devs[j].minor + devs[j].maxPart <= minor
    {
      r := i;
      if minor < devs[i].minor + devs[i].maxPart { break; }
      i := i + 1;
    }
    if r == -1 { return; }
    assert Candidate(devs, r, minor);
    CandidateHas(devs, r, minor);
    var k := FindPartition(devs[r].parts, minor);
    if k == |devs[r].parts| { r := -1; }
  }

  /** The candidate has a partition with the minor number if any device has. */
  lemma CandidateHas(devs: seq<Device>, r: int, minor: nat)
    requires Candidate(devs, r, minor)
    ensures forall i :: Candidate(devs, i, minor) ==> i == r
    ensures Registered(devs) ==>
              forall i :: 0 <= i < |devs| && HasPart(devs[i].parts, minor) ==> i == r
  {
    if Registered(devs) {
      forall i | 0 <= i < |devs| && HasPart(devs[i].parts, minor) ensures i == r {
        FirstWithIs(devs[i].parts, minor);
        assert devs[i].parts[FirstWith(devs[i].parts, minor)].minor == minor;
      }
    }
  }

  // ---- what a transfer comes to ---------------------------------------------

  /** How far one request gets: served, not allocated, or stopped by an ASSERT. */
  datatype Stage = Fine | NoMemory | Panic

  /** How a call ends: with a result, in a kernel panic, or in a division by zero. */
  datatype Outcome = Returned(ret: int) | Panicked | Faulted

  function Ended(stage: Stage, n: nat): Outcome {
    match stage
    case Fine => Returned(n)
    case NoMemory => Returned(-ENOMEM)
    case Panic => Panicked
  }

  /** The bios that `nsects` sectors of virtual memory at v are cut into. */
  function BioCount(frameOf: int -> int, v: int, nsects: nat, size: nat): nat
    decreases nsects
  {
    if nsects == 0 || size == 0 then 0
    else
      var k := BioAt(frameOf, v, nsects, size).nsectors;
      if 0 < k <= nsects then 1 + BioCount(frameOf, v + k * size, nsects - k, size) else 0
  }

  lemma BiosNone(frameOf: int -> int, v: int, size: nat, bioOk: nat -> bool)
    ensures BiosOk(bioOk, 0)
    ensures forall w :: BioCount(frameOf, w, 0, size) == 0
  {
  }

  /** One bio more, which can be allocated or not. */
  lemma BioCountStep(frameOf: int -> int, v: int, nsects: nat, size: nat, bioOk: nat -> bool, n: nat)
    requires nsects > 0 && size > 0 && 0 < BioAt(frameOf, v, nsects, size).nsectors <= nsects
    ensures var k := BioAt(frameOf, v, nsects, size).nsectors;
            BioCount(frameOf, v, nsects, size) == 1 + BioCount(frameOf, v + k * size, nsects - k, size)
    ensures BiosOk(bioOk, n + 1) <==> BiosOk(bioOk, n) && bioOk(n)
    ensures !bioOk(n) ==> !BiosOk(bioOk, n + BioCount(frameOf, v, nsects, size))
  {
  }

  /** Sectors that `count` bytes from byte `delta` of a sector touch. */
  function SectorCount(delta: nat, count: nat, size: nat): (n: nat)
    requires size > 0 && delta < size
    ensures delta + count <= n * size < delta + count + size
  {
    var total := count + delta;
    assert total == (total / size) * size + total % size;
    if total % size == 0 then total / size
    else
      assert (total / size + 1) * size == (total / size) * size + size;
      total / size + 1
  }

  /** Disk and memory after sectors `first`, ... have been moved to or from the listed
      addresses. */
  ghost predicate Carried(write: bool, disk0: seq<int>, mem0: Mem, disk: seq<int>, mem: Mem,
                          first: int, addrs: seq<int>, size: nat) {
    if write then size > 0 && OnDisk(disk0, first, |addrs|, size) && mem == mem0
                  && disk == MemToDisk(disk0, mem0, first, addrs, size)
    else disk == disk0 && mem == DiskToMem(mem0, disk0, first, addrs, size)
  }

  lemma CarriedNone(write: bool, disk: seq<int>, mem: Mem, first: int, left: seq<int>, size: nat)
    requires size > 0 && (write ==> OnDisk(disk, first, |left|, size))
    ensures Carried(write, disk, mem, disk, mem, first, left[..0], size)
  {
    if write { OnDiskSplit(disk, first, |left|, 0, size); }
  }

  lemma DropMore(s: seq<int>, i: nat, k: nat)
    requires i + k <= |s|
    ensures s[i..][k..] == s[i + k..]
  {
  }

  class Drive {
    const size: nat
    const frameOf: int -> int
    const parts: seq<Part>
    const minor: nat
    /** Where the partition with the minor number is, if there is one. */
    const partOffset: nat := if HasPart(parts, minor) then parts[FirstWith(parts, minor)].offset else 0
    const partSize: nat := if HasPart(parts, minor) then parts[FirstWith(parts, minor)].size else 0
    var disk: seq<int>
    var mem: Mem

    ghost predicate Known() {
      HasPart(parts, minor)
    }

    constructor (size: nat, frameOf: int -> int, parts: seq<Part>, minor: nat, disk: seq<int>)
      ensures this.size == size && this.frameOf == frameOf && this.parts == parts && this.minor == minor
      ensures this.disk == disk && mem == map[]
    {
      this.size, this.frameOf, this.parts, this.minor := size, frameOf, parts, minor;
      this.disk, this.mem := disk, map[];
    }

    /** get_block_size: 0 for a minor number without a partition. */
    method GetBlockSize() returns (r: nat)
      ensures r == if Known() then size else 0
    {
      var i := FindPartition(parts, minor);
      r := if i < |parts| then size else 0;
    }

    /** Transfer one sector. */
    method Transfer(write: bool, sector: int, a: int)
      requires size > 0 && (write ==> OnDisk(disk, sector, 1, size))
      modifies this
      ensures write ==> mem == old(mem) && disk == MemToDisk(old(disk), old(mem), sector, [a], size)
      ensures !write ==> disk == old(disk) && mem == DiskToMem(old(mem), disk, sector, [a], size)
    {
      if write {
        OnDiskNext(disk, sector, 1, size);
        var bytes := SectorBytes(mem, a, size);
        disk := Splice(disk, sector * size, bytes);
      } else {
        ghost var was := mem;
        var i := 0;
        while i < size
          invariant 0 <= i <= size && disk == old(disk)
          invariant mem == CopyIn(was, a, disk, sector * size, i)
        {
          mem := mem[a + i := DByte(disk, sector * size + i)];
          i := i + 1;
        }
      }
    }

    /** Transfer consecutive sectors to or from the listed addresses. */
    method TransferAll(write: bool, first: int, addrs: seq<int>)
      requires size > 0 && (write ==> OnDisk(disk, first, |addrs|, size))
      modifies this
      ensures |disk| == |old(disk)|
      ensures write ==> mem == old(mem) && disk == MemToDisk(old(disk), old(mem), first, addrs, size)
      ensures !write ==> disk == old(disk) && mem == DiskToMem(old(mem), disk, first, addrs, size)
    {
      hide OnDisk;
      var j := 0;
      while j < |addrs|
        invariant 0 <= j <= |addrs| && |disk| == |old(disk)|
        invariant write ==> OnDisk(disk, first + j, |addrs| - j, size) && mem == old(mem)
        invariant write ==>
                    MemToDisk(old(disk), mem, first, addrs, size) == MemToDisk(disk, mem, first + j, addrs[j..], size)
        invariant !write ==> disk == old(disk)
        invariant !write ==>
                    DiskToMem(old(mem), disk, first, addrs, size) == DiskToMem(mem, disk, first + j, addrs[j..], size)
      {
        ghost var rest := addrs[j..];
        assert rest[..1] == [addrs[j]] && rest[1..] == addrs[j+1..];
        if write {
          OnDiskSplit(disk, first + j, |addrs| - j, 1, size);
          MemToDiskSplit(disk, mem, first + j, rest, size, 1);
        } else {
          DiskToMemSplit(mem, disk, first + j, rest, size, 1);
        }
        Transfer(write, first + j, addrs[j]);
        if write { OnDiskSame(old(disk), disk, first + j + 1, |addrs| - j - 1, size, first, |addrs|); }
        j := j + 1;
      }
    }

    /** The driver: serve the request in attempts of whatever outcome the chance has,
        reporting each with end_request until that returns 0.  The sectors moved before
        the first error are served; an error drops the others. */
    method Serve(req: Request, ch: Chance) returns (ghost served: nat)
      requires req.Valid() && req.sectorSize == size > 0 && req.status != Interrupted
      requires req.write ==> OnDisk(disk, req.firstSector, req.nsectors, size)
      modifies this, req
      ensures req.Valid() && req.status == Finished && req.Left() == []
      ensures served == MovedBy(ch, |old(req.Left())|, 0)
      ensures Carried(req.write, old(disk), old(mem), disk, mem, old(req.firstSector), old(req.Left())[..served], size)
    {
      hide OnDisk, Carried, Flatten, NonEmpty, Request.Left;
      var more, step := 1, 0;
      ghost var first0, left0 := req.firstSector, req.Left();
      served := 0;
      CarriedNone(req.write, disk, mem, first0, left0, size);
      while more != 0
        invariant req.Valid() && served <= |left0|
        invariant if more != 0 then req.status != Interrupted else req.status == Finished && req.Left() == []
        invariant more != 0 ==> req.Left() == left0[served..] && req.firstSector == first0 + served
        invariant MovedBy(ch, |left0|, 0) == served + (if more == 0 then 0 else MovedBy(ch, |left0| - served, step))
        invariant Carried(req.write, old(disk), old(mem), disk, mem, first0, left0[..served], size)
        decreases if more == 0 then 0 else 1, |left0| - served, if step < ch.patience then ch.patience - step else 0
      {
        var report := ch.report(step);
        more, served := Attempt(req, report, step < ch.patience, old(disk), old(mem), first0, left0, served);
        step := step + 1;
      }
    }

    /** One attempt of the driver and its end_request. */
    method Attempt(req: Request, report: Report, mayRetry: bool,
                   ghost disk0: seq<int>, ghost mem0: Mem, ghost first0: int, ghost left: seq<int>, ghost served: nat)
      returns (more: int, ghost served': nat)
      requires req.Valid() && req.sectorSize == size > 0 && req.status != Interrupted
      requires req.write ==> OnDisk(disk0, first0, |left|, size)
      requires served <= |left| && req.Left() == left[served..] && req.firstSector == first0 + served
      requires Carried(req.write, disk0, mem0, disk, mem, first0, left[..served], size)
      modifies this, req
      ensures req.Valid()
      ensures served' == served + if report.Failed? || (report.Retry? && mayRetry) then 0
                                  else AttemptOf(report, |left| - served)
      ensures more == 0 <==> report.Failed? || served' == |left|
      ensures more == 0 ==> req.status == Finished && req.Left() == []
      ensures more != 0 ==> req.status != Interrupted && req.Left() == left[served'..]
      ensures more != 0 ==> req.firstSector == first0 + served'
      ensures Carried(req.write, disk0, mem0, disk, mem, first0, left[..served'], size)
    {
      hide OnDisk, Carried, Flatten, NonEmpty;
      served' := served;
      assert req.nsectors == |left| - served;
      if report.Failed? {
        more := req.EndRequest(-1, 0);
        assert req.nsectors == |req.Left()| == 0;
      } else if report.Retry? && mayRetry {
        more := req.EndRequest(0, 0);
        assert req.nsectors == |req.Left()| == |left| - served';
      } else {
        var k := AttemptOf(report, req.nsectors);
        var addrs := Flatten(req.bios, size)[..k];
        Carry(req.write, req.firstSector, addrs, disk0, mem0, first0, left, served);
        DropMore(left, served, k);
        more := req.EndRequest(1, k);
        served' := served + k;
        assert req.nsectors == |req.Left()| == |left| - served';
      }
    }

    /** Transfer the sectors that follow the `served` first of `left`. */
    method Carry(write: bool, first: int, addrs: seq<int>,
                 ghost disk0: seq<int>, ghost mem0: Mem, ghost first0: int, ghost left: seq<int>, ghost served: nat)
      requires size > 0 && (write ==> OnDisk(disk0, first0, |left|, size))
      requires served + |addrs| <= |left| && addrs == left[served..][..|addrs|] && first == first0 + served
      requires Carried(write, disk0, mem0, disk, mem, first0, left[..served], size)
      modifies this
      ensures Carried(write, disk0, mem0, disk, mem, first0, left[..served + |addrs|], size)
    {
      hide OnDisk;
      ServedMore(disk0, mem0, first0, left, served, |addrs|, write);
      TransferAll(write, first, addrs);
    }

    /** Serving k more sectors after `served` is serving served + k. */
    lemma ServedMore(disk: seq<int>, mem: Mem, first: int, left: seq<int>, served: nat, k: nat, write: bool)
      requires size > 0 && served + k <= |left| && (write ==> OnDisk(disk, first, |left|, size))
      ensures left[..served + k][served..] == left[served..][..k]
      ensures write ==> OnDisk(disk, first, served, size) && OnDisk(disk, first, served + k, size)
      ensures write ==> |MemToDisk(disk, mem, first, left[..served], size)| == |disk|
      ensures write ==> OnDisk(MemToDisk(disk, mem, first, left[..served], size), first + served, k, size)
      ensures write ==>
                MemToDisk(disk, mem, first, left[..served + k], size)
                == MemToDisk(MemToDisk(disk, mem, first, left[..served], size),
                             mem, first + served, left[served..][..k], size)
      ensures !write ==>
                DiskToMem(mem, disk, first, left[..served + k], size)
                == DiskToMem(DiskToMem(mem, disk, first, left[..served], size),
                             disk, first + served, left[served..][..k], size)
    {
      hide DiskToMem, MemToDisk, OnDisk;
      var upto := left[..served + k];
      assert upto[..served] == left[..served] && upto[served..] == left[served..][..k];
      if write {
        OnDiskSplit(disk, first, |left|, served + k, size);
        OnDiskSplit(disk, first, served + k, served, size);
        MemToDiskSplit(disk, mem, first, upto, size, served);
        OnDiskSame(disk, MemToDisk(disk, mem, first, left[..served], size), first + served, k, size, first, served + k);
      } else {
        DiskToMemSplit(mem, disk, first, upto, size, served);
      }
    }

    /** The loop that cuts the bounce buffer into page-bounded bios; it stops when one
        cannot be allocated. */
    method AddBounce(req: Request, bounce: int, count: nat, bioOk: nat -> bool) returns (ret: int)
      requires req.Valid() && req.status == Unsched && req.sectorSize == size
      requires SectorSize(size) && bounce % size == 0
      modifies req`bios, req`nsectors
      ensures req.Valid() && ret == if BiosOk(bioOk, BioCount(frameOf, bounce, count, size)) then 0 else -ENOMEM
      ensures ret == 0 ==> |req.bios| == |old(req.bios)| + BioCount(frameOf, bounce, count, size)
      ensures ret == 0 ==> req.Left() == old(req.Left()) + VirtSectors(frameOf, bounce, count, size)
      ensures |old(req.bios)| <= |req.bios| && req.bios[..|old(req.bios)|] == old(req.bios)
      ensures forall i :: |old(req.bios)| <= i < |req.bios| ==> InOnePage(req.bios[i], size)
    {
      hide SectorSize, InOnePage, BioAt, Phys, VirtSectors, Sectors, Flatten, NonEmpty, BiosOk, BioCount;
      VirtNone(frameOf, bounce, size);
      SectorPositive(size);
      var bounceOffset, nsects, n := 0, count, 0;
      BiosNone(frameOf, bounce, size, bioOk);
      ghost var k: nat := 0;
      while nsects > 0
        invariant k + nsects == count && bounceOffset == k * size && 0 <= nsects
        invariant req.Valid() && req.status == Unsched
        invariant req.Left() == old(req.Left()) + VirtSectors(frameOf, bounce, k, size)
        invariant |old(req.bios)| <= |req.bios| && req.bios[..|old(req.bios)|] == old(req.bios)
        invariant forall i :: |old(req.bios)| <= i < |req.bios| ==> InOnePage(req.bios[i], size)
        invariant n >= 0 && BiosOk(bioOk, n) && |req.bios| == |old(req.bios)| + n
        invariant n + BioCount(frameOf, bounce + bounceOffset, nsects, size) == BioCount(frameOf, bounce, count, size)
        decreases nsects
      {
        ghost var v := bounce + bounceOffset;
        NextSector(bounce, size, k);
        var bio := BioAt(frameOf, bounce + bounceOffset, nsects, size);
        BioIsVirt(frameOf, v, nsects, size);
        VirtConcat(frameOf, bounce, k, bio.nsectors, size);
        Multiple(k, bio.nsectors, size);
        BioCountStep(frameOf, v, nsects, size, bioOk, n);
        bounceOffset := bounceOffset + bio.nsectors * size;
        nsects := nsects - bio.nsectors;
        k := k + bio.nsectors;
        ret := req.AddBio(bio, bioOk(n));
        if ret < 0 { return; }
        n := n + 1;
      }
      ret := 0;
    }

    /** create_request_blkdev: refused when no partition has the minor number, when the
        request starts past the partition, or when it cannot be allocated; otherwise it
        goes to the first partition with the number. */
    method CreateRequest(first: nat, write: bool, ok: bool) returns (req: Request?)
      ensures req == null <==> !Known() || first > partSize || !ok
      ensures req != null ==> fresh(req) && req.Valid() && req.Left() == [] && req.status == Unsched
      ensures req != null ==> req.write == write && req.sectorSize == size
      ensures req != null ==> req.firstSector == first + parts[FirstWith(parts, minor)].offset
    {
      var i := FindPartition(parts, minor);
      if i == |parts| { return null; }
      if first > parts[i].size || !ok { return null; }
      req := new Request(write, size, first + parts[i].offset);
    }

    /** How far a request for `count` sectors from `first` on gets, with its buffer at v. */
    ghost function StageOf(first: int, v: int, count: nat, ch: Chance): Stage {
      if first > partSize || !ch.reqOk || !BiosOk(ch.bioOk, BioCount(frameOf, v, count, size)) then NoMemory
      else if !ch.postOk then Panic
      else Fine
    }

    /** Read `count` sectors of the partition from `first` on into virtual memory
        at v, in bios of at most a page.  An error that the driver reports does not
        show in the result. */
    method ReadInto(first: nat, v: int, count: nat, ch: Chance, ghost lo: int, ghost hi: int)
      returns (stage: Stage)
      requires Known() && SectorSize(size) && v % size == 0
      requires lo <= v && v + count * size <= hi && Mapped(frameOf, lo, hi)
      modifies this
      ensures disk == old(disk) && stage == StageOf(first, v, count, ch)
      ensures stage != Fine ==> mem == old(mem)
      ensures stage == Fine ==>
                Filled(old(mem), mem, disk, first + partOffset, frameOf, v, MovedBy(ch, count, 0), size, lo, hi)
    {
      hide SectorSize, Mapped, Filled, FirstWith, DiskToMem, MemToDisk, VirtSectors, OnDisk, Flatten;
      hide BiosOk, BioCount, MovedBy;
      SectorPositive(size);
      var req := CreateRequest(first, false, ch.reqOk);
      if req == null { return NoMemory; }
      var ret := AddBounce(req, v, count, ch.bioOk);
      if ret < 0 {
        stage := GiveUp(req);
        return;
      }
      ret := req.Post(ch.postOk);
      if ret < 0 {
        stage := GiveUp(req);
        return;
      }
      assert req.Left() == VirtSectors(frameOf, v, count, size);
      ghost var served := Serve(req, ch);
      SectorsFront(frameOf, v, count, served, size);
      ReadRegion(old(mem), disk, first + partOffset, frameOf, v, served, size, lo, hi);
      stage := Fine;
    }

    /** free_request on the way out: its ASSERT admits no request that is waiting to be
        served. */
    method GiveUp(req: Request) returns (stage: Stage)
      ensures stage == if req.Freeable() then NoMemory else Panic
    {
      stage := if req.Freeable() then NoMemory else Panic;
    }

    /** Write `count` sectors from virtual memory at v. */
    method WriteFrom(first: nat, v: int, count: nat, ch: Chance) returns (stage: Stage)
      requires Known() && SectorSize(size) && v % size == 0
      requires OnDisk(disk, first + partOffset, count, size)
      modifies this
      ensures mem == old(mem) && stage == StageOf(first, v, count, ch)
      ensures stage != Fine ==> disk == old(disk)
      ensures var lo, n := (first + partOffset) * size, MovedBy(ch, count, 0) * size;
              && 0 <= lo && 0 <= n <= count * size && lo + count * size <= |old(disk)|
              && (stage == Fine ==> disk == Splice(old(disk), lo, VBytes(mem, frameOf, v, n)))
    {
      hide SectorSize, FirstWith, Splice, MemToDisk, OnDisk, DiskToMem, Flatten, BiosOk, BioCount, MovedBy;
      WriteArith(disk, first + partOffset, count, size);
      PartOfSectors(MovedBy(ch, count, 0), count, size);
      var req := CreateRequest(first, true, ch.reqOk);
      if req == null { return NoMemory; }
      var ret := AddBounce(req, v, count, ch.bioOk);
      if ret < 0 {
        stage := GiveUp(req);
        return;
      }
      ret := req.Post(ch.postOk);
      if ret < 0 {
        stage := GiveUp(req);
        return;
      }
      assert req.Left() == VirtSectors(frameOf, v, count, size);
      ghost var served := Serve(req, ch);
      SectorsFront(frameOf, v, count, served, size);
      OnDiskSplit(old(disk), first + partOffset, count, served, size);
      WriteEffect(old(disk), mem, first + partOffset, frameOf, v, served, size);
      stage := Fine;
    }

    /** read_blkdev: the sectors that the driver moves before it reports an error show
        the disk's bytes, the others what was in the bounce buffer; the caller is not
        told.  Without a partition there is no sector size to divide by. */
    method ReadBlkdev(off: nat, count: nat, bounce: int, ch: Chance) returns (end: Outcome, buf: seq<int>)
      requires SectorSize(size) && bounce % size == 0
      requires Known() ==> OnDisk(disk, off / size + partOffset, SectorCount(off % size, count, size), size)
      requires Mapped(frameOf, bounce, bounce + SectorCount(off % size, count, size) * size)
      modifies this
      ensures disk == old(disk)
      ensures end == if !Known() then Faulted else if bounce == 0 then Returned(-ENOMEM)
                     else Ended(StageOf(off / size, bounce, SectorCount(off % size, count, size), ch), count)
      ensures Known() && bounce != 0 && Lucky(ch) ==>
                end == if off / size > partSize then Returned(-ENOMEM) else Returned(count)
      ensures end != Returned(count) ==> buf == [] && mem == old(mem)
      ensures Known() ==> 0 <= partOffset * size + off && partOffset * size + off + count <= |disk|
      ensures end == Returned(count) ==>
                ReadBytes(buf, old(mem), disk, partOffset * size + off, frameOf, bounce + off % size, count,
                          MovedBy(ch, SectorCount(off % size, count, size), 0) * size - off % size)
    {
      hide SectorSize, OnDisk, Mapped, SectorCount, FirstWith, StageOf, MovedBy, ReadBytes, Lucky;
      SectorPositive(size);
      if Lucky(ch) { LuckyFine(this, off / size, bounce, SectorCount(off % size, count, size), ch); }
      var sectorSize := GetBlockSize();
      if sectorSize == 0 { return Faulted, []; }
      ByteRange(disk, partOffset, off, count, size);
      var delta := off % sectorSize;
      var first := (off - delta) / sectorSize;
      var nsects := SectorCount(delta, count, sectorSize);
      if bounce == 0 { return Returned(-ENOMEM), []; }
      end, buf := Fetch(first, delta, count, nsects, bounce, ch, partOffset * size + off);
    }

    /** Read the sectors and copy the bytes out of the bounce buffer. */
    method Fetch(first: nat, delta: nat, count: nat, nsects: nat, bounce: int, ch: Chance, ghost at: int)
      returns (end: Outcome, buf: seq<int>)
      requires Known() && SectorSize(size) && bounce % size == 0
      requires Mapped(frameOf, bounce, bounce + nsects * size)
      requires delta + count <= nsects * size && at == (first + partOffset) * size + delta
      requires 0 <= at && at + count <= |disk|
      modifies this
      ensures disk == old(disk) && end == Ended(StageOf(first, bounce, nsects, ch), count)
      ensures end != Returned(count) ==> buf == [] && mem == old(mem)
      ensures end == Returned(count) ==>
                ReadBytes(buf, old(mem), disk, at, frameOf, bounce + delta, count,
                          MovedBy(ch, nsects, 0) * size - delta)
    {
      hide SectorSize, Mapped, Filled, VBytes, FirstWith, StageOf, MovedBy, ReadBytes;
      var stage := ReadInto(first, bounce, nsects, ch, bounce, bounce + nsects * size);
      if stage != Fine { return Ended(stage, count), []; }
      buf := VBytes(mem, frameOf, bounce + delta, count);
      FilledBytes(old(mem), mem, disk, first + partOffset, frameOf, bounce, delta, count, nsects,
                  MovedBy(ch, nsects, 0), size, at);
      end := Returned(count);
    }

    /** How far the reads get that fill what a write of `count` bytes leaves of its first
        and last sector. */
    ghost function PrefillStage(first: int, delta: nat, count: nat, nsects: nat, bounce: int,
                                head: Chance, tail: Chance): Stage
      requires size > 0
    {
      if delta > 0 && StageOf(first, bounce, 1, head) != Fine then StageOf(first, bounce, 1, head)
      else if (count + delta) % size != 0 then StageOf(first + nsects - 1, bounce + (nsects - 1) * size, 1, tail)
      else Fine
    }

    /** The reads that fill what a write leaves of its first and last sector. */
    method Prefill(first: nat, delta: nat, count: nat, nsects: nat, bounce: int, head: Chance, tail: Chance)
      returns (stage: Stage)
      requires Known() && SectorSize(size) && bounce % size == 0 && delta < size
      requires nsects == SectorCount(delta, count, size) && Mapped(frameOf, bounce, bounce + nsects * size)
      modifies this
      ensures disk == old(disk) && stage == PrefillStage(first, delta, count, nsects, bounce, head, tail)
      ensures stage == Fine && Clean(delta, count, size, head, tail) ==>
                Prefilled(mem, disk, first + partOffset, frameOf, bounce, delta, count, nsects, size)
    {
      hide SectorSize, Mapped, Filled, Prefilled, FirstWith, StageOf, MovedBy;
      SectorPositive(size);
      SectorsCover(delta, count, size);
      ghost var mem0, hi := mem, bounce + nsects * size;
      ghost var first' := first + partOffset;
      stage := Fine;
      if delta > 0 {
        stage := ReadInto(first, bounce, 1, head, bounce, hi);
        if stage != Fine { return; }
      }
      ghost var mem1 := mem;
      if (count + delta) % size != 0 {
        NextSector(bounce, size, nsects - 1);
        stage := ReadInto(first + nsects - 1, bounce + (nsects - 1) * size, 1, tail, bounce, hi);
        if stage != Fine { return; }
      }
      if Clean(delta, count, size, head, tail) {
        PrefilledBy(mem0, mem1, mem, disk, first', frameOf, bounce, delta, count, nsects, size);
      }
    }

    /** How far the whole of write_blkdev gets. */
    ghost function WriteStage(off: nat, count: nat, bounce: int, head: Chance, tail: Chance, body: Chance): Stage
      requires size > 0
    {
      var first, delta, nsects := off / size, off % size, SectorCount(off % size, count, size);
      var stage := PrefillStage(first, delta, count, nsects, bounce, head, tail);
      if stage != Fine then stage else StageOf(first, bounce, nsects, body)
    }

    /** One of the requests that a write of `count` bytes makes starts past the partition's
        size. */
    predicate StartsPast(off: nat, count: nat)
      requires size > 0
    {
      off / size > partSize || ((off + count) % size > 0 && (off + count) / size > partSize)
    }

    /** write_blkdev: the bytes that fall into the sectors which the driver moves before
        it reports an error are replaced, no others; the caller is not told.  If a read
        that fills the buffer meets an error, no sector changes but those of the
        transfer. */
    method WriteBlkdev(off: nat, buf: seq<int>, bounce: int, head: Chance, tail: Chance, body: Chance)
      returns (end: Outcome)
      requires SectorSize(size) && bounce % size == 0
      requires Known() ==> OnDisk(disk, off / size + partOffset, SectorCount(off % size, |buf|, size), size)
      requires Mapped(frameOf, bounce, bounce + SectorCount(off % size, |buf|, size) * size)
      modifies this
      ensures end == if !Known() then Faulted else if bounce == 0 then Returned(-ENOMEM)
                     else Ended(WriteStage(off, |buf|, bounce, head, tail, body), |buf|)
      ensures Known() && bounce != 0 && Lucky(head) && Lucky(tail) && Lucky(body) ==>
                end == if StartsPast(off, |buf|) then Returned(-ENOMEM) else Returned(|buf|)
      ensures end != Returned(|buf|) ==> disk == old(disk)
      ensures |disk| == |old(disk)|
      ensures Known() ==> 0 <= partOffset * size + off && partOffset * size + off + |buf| <= |old(disk)|
      ensures end == Returned(|buf|) && Clean(off % size, |buf|, size, head, tail) ==>
                var n := Reach(MovedBy(body, SectorCount(off % size, |buf|, size), 0) * size, off % size, |buf|);
                disk == Splice(old(disk), partOffset * size + off, buf[..n])
      ensures Known() ==>
                KeptOutside(old(disk), disk, (off / size + partOffset) * size,
                            (off / size + partOffset) * size + SectorCount(off % size, |buf|, size) * size)
    {
      hide SectorSize, OnDisk, Mapped, SectorCount, Prefilled, Splice, FirstWith, KeptOutside, StageOf, MovedBy;
      hide Clean, PrefillStage, Lucky, StartsPast;
      SectorPositive(size);
      if Lucky(head) && Lucky(tail) && Lucky(body) { LuckyWrites(this, off, |buf|, bounce, head, tail, body); }
      var sectorSize := GetBlockSize();
      if sectorSize == 0 { return Faulted; }
      ByteRange(disk, partOffset, off, |buf|, size);
      var delta := off % sectorSize;
      var first := (off - delta) / sectorSize;
      var nsects := SectorCount(delta, |buf|, sectorSize);
      SameDisk(disk, (first + partOffset) * size, (first + partOffset) * size + nsects * size);
      if bounce == 0 { return Returned(-ENOMEM); }
      var stage := Prefill(first, delta, |buf|, nsects, bounce, head, tail);
      if stage != Fine { return Ended(stage, |buf|); }
      ghost var clean := Clean(delta, |buf|, size, head, tail);
      end := Flush(first, delta, buf, nsects, bounce, body, clean, partOffset * size + off);
    }

    /** Copy the bytes into the bounce buffer and write its sectors.  `clean` says that
        the rest of the buffer holds the disk's bytes. */
    method Flush(first: nat, delta: nat, buf: seq<int>, nsects: nat, bounce: int, body: Chance,
                 ghost clean: bool, ghost at: int)
      returns (end: Outcome)
      requires Known() && SectorSize(size) && bounce % size == 0
      requires Mapped(frameOf, bounce, bounce + nsects * size)
      requires OnDisk(disk, first + partOffset, nsects, size) && delta + |buf| <= nsects * size
      requires clean ==> Prefilled(mem, disk, first + partOffset, frameOf, bounce, delta, |buf|, nsects, size)
      requires at == (first + partOffset) * size + delta && 0 <= at && at + |buf| <= |disk|
      modifies this
      ensures end == Ended(StageOf(first, bounce, nsects, body), |buf|)
      ensures end != Returned(|buf|) ==> disk == old(disk)
      ensures |disk| == |old(disk)|
      ensures end == Returned(|buf|) && clean ==>
                disk == Splice(old(disk), at, buf[..Reach(MovedBy(body, nsects, 0) * size, delta, |buf|)])
      ensures KeptOutside(old(disk), disk, (first + partOffset) * size, (first + partOffset) * size + nsects * size)
    {
      hide SectorSize, OnDisk, Mapped, Prefilled, Splice, FirstWith, StoreV, VBytes, KeptOutside, StageOf, MovedBy;
      hide Reach;
      SectorPositive(size);
      ghost var filled, moved := mem, MovedBy(body, nsects, 0);
      mem := StoreV(mem, frameOf, bounce + delta, buf);
      if clean {
        Patched(filled, disk, first + partOffset, frameOf, bounce, delta, buf, nsects, moved, size);
      }
      var stage := WriteFrom(first, bounce, nsects, body);
      end := Ended(stage, |buf|);
      SameDisk(old(disk), (first + partOffset) * size, (first + partOffset) * size + nsects * size);
      SpliceKept(old(disk), (first + partOffset) * size, VBytes(mem, frameOf, bounce, moved * size), nsects * size);
    }
  }

  ghost predicate BiosOk(bioOk: nat -> bool, n: nat) {
    forall i :: 0 <= i < n ==> bioOk(i)
  }

  /** The reads that a write of `count` bytes needs meet no error. */
  predicate Clean(delta: nat, count: nat, size: nat, head: Chance, tail: Chance)
    requires size > 0
  {
    (delta > 0 ==> Whole(head, 1)) && ((count + delta) % size != 0 ==> Whole(tail, 1))
  }

  /** How many of `count` bytes from byte delta on lie in the first n bytes. */
  function Reach(n: int, delta: nat, count: nat): (r: nat)
    ensures r <= count
  {
    if n <= delta then 0 else if n - delta < count then n - delta else count
  }

  /** Of the bytes read, the first n are the disk's and the others those that were in
      memory at v. */
  predicate ReadBytes(buf: seq<int>, mem: Mem, disk: seq<int>, at: int, frameOf: int -> int, v: int,
                      count: nat, n: int) {
    && |buf| == count
    && forall i :: 0 <= i < count ==> buf[i] == if i < n then DByte(disk, at + i) else VByte(mem, frameOf, v + i)
  }

  lemma PartOfSectors(m: nat, n: nat, size: nat)
    requires m <= n && size > 0
    ensures 0 <= m * size <= n * size
  {
    ProductOrder(m, 0, size);
    ProductOrder(n, m, size);
  }

  lemma SectorsFront(frameOf: int -> int, v: int, n: nat, m: nat, size: int)
    requires m <= n
    ensures VirtSectors(frameOf, v, n, size)[..m] == VirtSectors(frameOf, v, m, size)
  {
    VirtConcat(frameOf, v, m, n - m, size);
  }

  lemma SpliceKept(disk: seq<int>, lo: int, data: seq<int>, n: int)
    requires 0 <= lo && lo + |data| <= |disk| && |data| <= n
    ensures KeptOutside(disk, Splice(disk, lo, data), lo, lo + n)
  {
  }

  // ---- theorems ----------------------------------------------------------

  /** All allocations succeed and the request starts inside: it is served. */
  lemma LuckyFine(d: Drive, first: int, v: int, count: nat, ch: Chance)
    requires Lucky(ch)
    ensures d.StageOf(first, v, count, ch) == if first <= d.partSize then Fine else NoMemory
  {
  }

  /** A write ends as the first of its requests that is not served does: the one for a
      first sector it does not fill, the one for such a last sector, the one that writes. */
  lemma WriteEndsAt(d: Drive, off: nat, count: nat, bounce: int, head: Chance, tail: Chance, body: Chance)
    requires d.size > 0
    ensures var stage, last := d.WriteStage(off, count, bounce, head, tail, body), (off + count) / d.size;
            var atHead := d.StageOf(off / d.size, bounce, 1, head);
            var atTail := d.StageOf(last, bounce + (last - off / d.size) * d.size, 1, tail);
            var atBody := d.StageOf(off / d.size, bounce, SectorCount(off % d.size, count, d.size), body);
            var cutHead, cutTail := off % d.size > 0, (off + count) % d.size > 0;
            && (stage == Fine <==> (cutHead ==> atHead == Fine) && (cutTail ==> atTail == Fine) && atBody == Fine)
            && (cutHead && atHead != Fine ==> stage == atHead)
            && ((cutHead ==> atHead == Fine) && cutTail && atTail != Fine ==> stage == atTail)
            && ((cutHead ==> atHead == Fine) && (cutTail ==> atTail == Fine) ==> stage == atBody)
  {
    SectorsUpTo(off, count, d.size);
  }

  /** A last sector that the bytes do not fill is the one that their end lies in. */
  lemma SectorsUpTo(off: nat, count: nat, size: nat)
    requires size > 0
    ensures (count + off % size) % size == (off + count) % size
    ensures (off + count) % size != 0 ==> off / size + SectorCount(off % size, count, size) - 1 == (off + count) / size
  {
    var q, k := off / size, (count + off % size) / size;
    Multiple(q, k, size);
    DivideExact(off + count, q + k, (count + off % size) % size, size);
  }

  lemma Multiple(q: nat, k: nat, size: nat)
    ensures (q + k) * size == q * size + k * size
  {
  }

  lemma DivideExact(a: nat, q: nat, r: nat, size: nat)
    requires r < size && a == q * size + r
    ensures a / size == q && a % size == r
  {
    var q', r' := a / size, a % size;
    assert a == q' * size + r';
    assert (q' + 1) * size == q' * size + size && (q + 1) * size == q * size + size;
    ProductOrder(q, q' + 1, size);
    ProductOrder(q', q + 1, size);
  }

  /** With every allocation made, a write is refused exactly when it starts past the
      partition's size, or ends past it inside a sector. */
  lemma LuckyWrites(d: Drive, off: nat, count: nat, bounce: int, head: Chance, tail: Chance, body: Chance)
    requires d.size > 0 && Lucky(head) && Lucky(tail) && Lucky(body)
    ensures d.WriteStage(off, count, bounce, head, tail, body) ==
            if d.StartsPast(off, count) then NoMemory else Fine
  {
    var size := d.size;
    var last := (off + count) / size;
    WriteEndsAt(d, off, count, bounce, head, tail, body);
    LuckyFine(d, off / size, bounce, 1, head);
    LuckyFine(d, last, bounce + (last - off / size) * size, 1, tail);
    LuckyFine(d, off / size, bounce, SectorCount(off % size, count, size), body);
  }

  /** What was written is what is read back. */
  method WriteThenRead(d: Drive, off: nat, buf: seq<int>, bounce: int,
                       head: Chance, tail: Chance, body: Chance, back: Chance) returns (end: Outcome, data: seq<int>)
    requires d.Known() && SectorSize(d.size) && bounce % d.size == 0 && bounce != 0
    requires OnDisk(d.disk, off / d.size + d.partOffset, SectorCount(off % d.size, |buf|, d.size), d.size)
    requires Mapped(d.frameOf, bounce, bounce + SectorCount(off % d.size, |buf|, d.size) * d.size)
    requires d.WriteStage(off, |buf|, bounce, head, tail, body) == Fine && Lucky(back)
    requires NoFault(head) && NoFault(tail) && NoFault(body) && NoFault(back)
    modifies d
    ensures end == Returned(|buf|) && data == buf && d.partOffset * d.size + off + |buf| <= |old(d.disk)|
    ensures d.disk == Splice(old(d.disk), d.partOffset * d.size + off, buf)
  {
    hide Lucky, NoFault, Mapped, OnDisk, MovedBy, KeptOutside, DByte, VByte, SectorSize;
    ghost var n, at := SectorCount(off % d.size, |buf|, d.size), d.partOffset * d.size + off;
    SectorPositive(d.size);
    ByteRange(d.disk, d.partOffset, off, |buf|, d.size);
    MovedAll(head, 1, 0);
    MovedAll(tail, 1, 0);
    MovedAll(body, n, 0);
    MovedAll(back, n, 0);
    LuckyFine(d, off / d.size, bounce, n, back);
    ghost var disk0 := d.disk;
    end := d.WriteBlkdev(off, buf, bounce, head, tail, body);
    assert buf[..|buf|] == buf;
    assert d.disk == Splice(disk0, at, buf);
    OnDiskSame(disk0, d.disk, off / d.size + d.partOffset, n, d.size, off / d.size + d.partOffset, n);
    end, data := d.ReadBlkdev(off, |buf|, bounce, back);
    ReadBack(data, disk0, at, buf, d.disk, d.frameOf, n * d.size - off % d.size);
  }

  lemma ReadBack(data: seq<int>, disk0: seq<int>, at: int, buf: seq<int>, disk: seq<int>, frameOf: int -> int, n: int)
    requires 0 <= at && at + |buf| <= |disk0| && disk == Splice(disk0, at, buf) && |data| == |buf| <= n
    requires forall i :: 0 <= i < |buf| ==> data[i] == DByte(disk, at + i)
    ensures data == buf
  {
    forall i | 0 <= i < |buf| ensures data[i] == buf[i] {
      SpliceAt(disk0, at, buf, i);
    }
  }

  // ---- staying inside the partition ----------------------------------------

  /** Where the partition starts and ends on the disk, in bytes. */
  function PartStart(partOffset: nat, size: nat): nat { partOffset * size }

  function PartEnd(partOffset: nat, partSize: nat, size: nat): nat { (partOffset + partSize) * size }

  lemma PartBounds(partOffset: nat, partSize: nat, size: nat)
    ensures PartEnd(partOffset, partSize, size) == PartStart(partOffset, size) + partSize * size
  {
  }

  /** Every write of n bytes at `at` leaves every disk of `len` bytes alone outside
      [lo, hi). */
  ghost predicate WritesStay(len: nat, at: nat, n: nat, lo: int, hi: int)
    requires at + n <= len
  {
    forall disk, buf :: |disk| == len && |buf| == n ==> KeptOutside(disk, Splice(disk, at, buf), lo, hi)
  }

  /** The n bytes at `at` depend on no byte of the disk outside [lo, hi). */
  ghost predicate ReadsStay(len: nat, at: nat, n: nat, lo: int, hi: int)
    requires at + n <= len
  {
    forall disk, disk' :: |disk| == len && SameInside(disk, disk', lo, hi) ==> Slice(disk, at, n) == Slice(disk', at, n)
  }

  /** Bytes inside [lo, hi) are the same. */
  predicate SameInside(disk: seq<int>, disk': seq<int>, lo: int, hi: int) {
    |disk| == |disk'| && forall d :: 0 <= d < |disk| && lo <= d < hi ==> disk'[d] == disk[d]
  }

  function Slice(disk: seq<int>, at: nat, n: nat): seq<int>
    requires at + n <= |disk|
  {
    disk[at..at + n]
  }

  /** What write_blkdev does to the disk when it is not refused stays inside the
      partition, for every disk and every buffer, if and only if the last byte is
      inside. */
  lemma WriteInsideIff(partOffset: nat, partSize: nat, size: nat, off: nat, n: nat, len: nat)
    requires n > 0 && PartStart(partOffset, size) + off + n <= len
    ensures WritesStay(len, PartStart(partOffset, size) + off, n,
                       PartStart(partOffset, size), PartEnd(partOffset, partSize, size))
       <==> off + n <= partSize * size
  {
    PartBounds(partOffset, partSize, size);
    hide PartStart, PartEnd, WritesStay;
    var lo, hi := PartStart(partOffset, size), PartEnd(partOffset, partSize, size);
    WritesStayIff(len, lo + off, n, lo, hi);
  }

  lemma WritesStayIff(len: nat, at: nat, n: nat, lo: int, hi: int)
    requires n > 0 && lo <= at && at + n <= len
    ensures WritesStay(len, at, n, lo, hi) <==> at + n <= hi
  {
    if hi < at + n {
      var disk, buf := seq(len, _ => 0), seq(n, _ => 1);
      assert Splice(disk, at, buf)[at + n - 1] == 1 && disk[at + n - 1] == 0;
      assert !KeptOutside(disk, Splice(disk, at, buf), lo, hi);
    }
  }

  /** What read_blkdev returns depends on the partition alone, for every disk, if and
      only if the last byte is inside. */
  lemma ReadInsideIff(partOffset: nat, partSize: nat, size: nat, off: nat, n: nat, len: nat)
    requires n > 0 && PartStart(partOffset, size) + off + n <= len
    ensures ReadsStay(len, PartStart(partOffset, size) + off, n,
                      PartStart(partOffset, size), PartEnd(partOffset, partSize, size))
       <==> off + n <= partSize * size
  {
    PartBounds(partOffset, partSize, size);
    hide PartStart, PartEnd, ReadsStay;
    var lo, hi := PartStart(partOffset, size), PartEnd(partOffset, partSize, size);
    ReadsStayIff(len, lo + off, n, lo, hi);
  }

  lemma ReadsStayIff(len: nat, at: nat, n: nat, lo: int, hi: int)
    requires n > 0 && lo <= at && at + n <= len
    ensures ReadsStay(len, at, n, lo, hi) <==> at + n <= hi
  {
    if hi < at + n {
      var last := at + n - 1;
      var disk := seq(len, _ => 0);
      var disk' := disk[last := 1];
      assert SameInside(disk, disk', lo, hi);
      assert Slice(disk, at, n)[n-1] == 0 && Slice(disk', at, n)[n-1] == 1;
    }
  }

  /** write_blkdev keeps the disk outside the partition when its last byte is inside,
      also if it fails half-way; otherwise, if it is carried out, it puts there whatever
      the buffer has for the bytes past the partition. */
  method WriteOutside(d: Drive, off: nat, buf: seq<int>, bounce: int, head: Chance, tail: Chance, body: Chance)
    returns (end: Outcome)
    requires d.Known() && SectorSize(d.size) && bounce % d.size == 0 && |buf| > 0
    requires OnDisk(d.disk, off / d.size + d.partOffset, SectorCount(off % d.size, |buf|, d.size), d.size)
    requires Mapped(d.frameOf, bounce, bounce + SectorCount(off % d.size, |buf|, d.size) * d.size)
    modifies d
    ensures |d.disk| == |old(d.disk)|
    ensures end == if bounce == 0 then Returned(-ENOMEM)
                   else Ended(d.WriteStage(off, |buf|, bounce, head, tail, body), |buf|)
    ensures off + |buf| <= d.partSize * d.size ==>
              KeptOutside(old(d.disk), d.disk, PartStart(d.partOffset, d.size),
                          PartEnd(d.partOffset, d.partSize, d.size))
    ensures end == Returned(|buf|) && Clean(off % d.size, |buf|, d.size, head, tail)
            && Whole(body, SectorCount(off % d.size, |buf|, d.size)) ==>
              forall i :: 0 <= i < |buf| && d.partSize * d.size <= off + i ==>
                var at := PartStart(d.partOffset, d.size) + off + i;
                PartEnd(d.partOffset, d.partSize, d.size) <= at < |d.disk| && d.disk[at] == buf[i]
  {
    hide SectorCount, Mapped, OnDisk, SectorSize, MovedBy;
    SectorPositive(d.size);
    TouchedInside(off, |buf|, d.size, d.partOffset, d.partSize);
    ByteRange(d.disk, d.partOffset, off, |buf|, d.size);
    end := d.WriteBlkdev(off, buf, bounce, head, tail, body);
    assert buf[..|buf|] == buf;
  }

  /** The sectors of a transfer lie inside the partition when its bytes do. */
  lemma TouchedInside(off: nat, count: nat, size: nat, partOffset: nat, partSize: nat)
    requires size > 0 && count > 0
    ensures PartEnd(partOffset, partSize, size) == PartStart(partOffset, size) + partSize * size
    ensures off + count <= partSize * size ==>
              PartStart(partOffset, size) <= (off / size + partOffset) * size
              && (off / size + partOffset) * size + SectorCount(off % size, count, size) * size
                 <= PartEnd(partOffset, partSize, size)
  {
    var f, n := off / size, SectorCount(off % size, count, size);
    SectorsInsideIff(off, count, size, partSize);
    assert (f + partOffset) * size == f * size + partOffset * size;
    assert (f + n) * size == f * size + n * size;
    ProductOrder(f, 0, size);
    ProductOrder(partSize, f + n, size);
  }

  /** Only the first (and, for a write, the last partial) sector is compared with
      the partition's size.  The sectors of a transfer lie inside the partition exactly
      when its bytes do. */
  lemma SectorsInsideIff(off: nat, count: nat, size: nat, partSize: nat)
    requires size > 0 && count > 0
    ensures off / size + SectorCount(off % size, count, size) <= partSize <==> off + count <= partSize * size
  {
    var f, d := off / size, off % size;
    var n := SectorCount(d, count, size);
    assert off == f * size + d;
    assert (f + n) * size == f * size + n * size;
    ProductOrder(partSize, f + n, size);
    if partSize < f + n {
      assert (f + n) * size >= partSize * size + size by {
        assert (f + n) * size == partSize * size + (f + n - partSize) * size;
        ProductOrder(f + n - partSize - 1, 0, size);
        assert (f + n - partSize) * size == (f + n - partSize - 1) * size + size;
      }
    }
  }

  /** Two sectors written at the start of a one-sector partition: accepted, and the
      byte behind the partition changes. */
  method WritePastPartition() returns (d: Drive, ghost was: seq<int>, end: Outcome)
    ensures fresh(d) && d.size == 512 && d.partOffset == 0 && d.partSize == 1
    ensures was == seq(1024, _ => 0) && end == Returned(1024)
    ensures |d.disk| == 1024 && d.disk[512] == 1
  {
    d := new Drive(512, x => x, [Part(0, 0, 1)], 0, seq(1024, _ => 0));
    was := d.disk;
    var ch := Chance(true, _ => true, true, _ => Moved(1), 0);
    assert SectorCount(0, 1024, 512) == 2;
    MovedAll(ch, 2, 0);
    var buf := seq(1024, _ => 1);
    end := WriteOutside(d, 0, buf, PAGE_SIZE, ch, ch, ch);
    assert buf[512] == 1;
  }

  /** A write that is carried out, with the reads it needs untroubled, does what it is
      asked if and only if the driver moves all its sectors before it reports an error,
      or the bytes it does not move are on the disk already; the result is the same
      either way. */
  method WriteRightIff(d: Drive, off: nat, buf: seq<int>, bounce: int, head: Chance, tail: Chance, body: Chance)
    returns (end: Outcome)
    requires d.Known() && SectorSize(d.size) && bounce % d.size == 0 && bounce != 0
    requires OnDisk(d.disk, off / d.size + d.partOffset, SectorCount(off % d.size, |buf|, d.size), d.size)
    requires Mapped(d.frameOf, bounce, bounce + SectorCount(off % d.size, |buf|, d.size) * d.size)
    requires d.WriteStage(off, |buf|, bounce, head, tail, body) == Fine
    requires Clean(off % d.size, |buf|, d.size, head, tail)
    modifies d
    ensures end == Returned(|buf|)
    ensures var at, nsects := d.partOffset * d.size + off, SectorCount(off % d.size, |buf|, d.size);
            var n := Reach(MovedBy(body, nsects, 0) * d.size, off % d.size, |buf|);
            && 0 <= at && at + |buf| <= |old(d.disk)|
            && (d.disk == Splice(old(d.disk), at, buf) <==>
                Whole(body, nsects) || buf[n..] == old(d.disk)[at + n..at + |buf|])
  {
    hide SectorCount, Mapped, OnDisk, SectorSize, KeptOutside, MovedBy, Clean, Splice;
    SectorPositive(d.size);
    ghost var disk0, at, nsects := d.disk, d.partOffset * d.size + off, SectorCount(off % d.size, |buf|, d.size);
    ByteRange(disk0, d.partOffset, off, |buf|, d.size);
    end := d.WriteBlkdev(off, buf, bounce, head, tail, body);
    SpliceFrontIff(disk0, at, buf, Reach(MovedBy(body, nsects, 0) * d.size, off % d.size, |buf|));
  }

  /** Splicing in only the first n bytes is splicing them all exactly when the others
      are there already. */
  lemma SpliceFrontIff(s: seq<int>, at: int, data: seq<int>, n: nat)
    requires 0 <= at && at + |data| <= |s| && n <= |data|
    ensures Splice(s, at, data[..n]) == Splice(s, at, data) <==> data[n..] == s[at + n..at + |data|]
  {
    var a, b := Splice(s, at, data[..n]), Splice(s, at, data);
    assert a[at + n..at + |data|] == s[at + n..at + |data|] && b[at + n..at + |data|] == data[n..];
    if data[n..] == s[at + n..at + |data|] {
      assert forall i :: at + n <= i < at + |data| ==> a[i] == s[i] && b[i] == data[n..][i - at - n];
      assert a == b;
    }
  }

  /** A read that is carried out returns the bytes of the partition if and only if the
      driver moves all its sectors before it reports an error, or the bounce buffer holds
      the bytes it does not move already; the result is the same either way. */
  method ReadRightIff(d: Drive, off: nat, count: nat, bounce: int, ch: Chance) returns (end: Outcome, buf: seq<int>)
    requires d.Known() && SectorSize(d.size) && bounce % d.size == 0 && bounce != 0
    requires OnDisk(d.disk, off / d.size + d.partOffset, SectorCount(off % d.size, count, d.size), d.size)
    requires Mapped(d.frameOf, bounce, bounce + SectorCount(off % d.size, count, d.size) * d.size)
    requires d.StageOf(off / d.size, bounce, SectorCount(off % d.size, count, d.size), ch) == Fine
    modifies d
    ensures end == Returned(count)
    ensures var at, nsects := d.partOffset * d.size + off, SectorCount(off % d.size, count, d.size);
            var delta, n := off % d.size, MovedBy(ch, nsects, 0) * d.size;
            && 0 <= at && at + count <= |d.disk|
            && (buf == d.disk[at..at + count] <==>
                Whole(ch, nsects) || HeldFrom(old(d.mem), d.frameOf, bounce + delta, d.disk, at, n - delta, count))
  {
    hide SectorCount, Mapped, OnDisk, SectorSize, MovedBy, ReadBytes, HeldFrom;
    SectorPositive(d.size);
    ByteRange(d.disk, d.partOffset, off, count, d.size);
    ghost var mem0, at, nsects := d.mem, d.partOffset * d.size + off, SectorCount(off % d.size, count, d.size);
    end, buf := d.ReadBlkdev(off, count, bounce, ch);
    ReadBytesIff(buf, mem0, d.disk, at, d.frameOf, bounce + off % d.size, count,
                 MovedBy(ch, nsects, 0) * d.size - off % d.size);
    HeldNone(mem0, d.frameOf, bounce + off % d.size, d.disk, at, nsects * d.size - off % d.size, count);
  }

  /** Memory at v holds the disk's bytes at `at`, from number n up to `count`. */
  predicate HeldFrom(mem: Mem, frameOf: int -> int, v: int, disk: seq<int>, at: int, n: int, count: nat) {
    forall i :: 0 <= i < count && n <= i ==> Held(mem, frameOf, v, disk, at, i)
  }

  predicate Held(mem: Mem, frameOf: int -> int, v: int, disk: seq<int>, at: int, i: int) {
    VByte(mem, frameOf, v + i) == DByte(disk, at + i)
  }

  lemma HeldNone(mem: Mem, frameOf: int -> int, v: int, disk: seq<int>, at: int, n: int, count: nat)
    requires count <= n
    ensures HeldFrom(mem, frameOf, v, disk, at, n, count)
  {
  }

  lemma ReadBytesIff(buf: seq<int>, mem: Mem, disk: seq<int>, at: int, frameOf: int -> int, v: int, count: nat, n: int)
    requires ReadBytes(buf, mem, disk, at, frameOf, v, count, n) && 0 <= at && at + count <= |disk|
    ensures buf == disk[at..at + count] <==> HeldFrom(mem, frameOf, v, disk, at, n, count)
  {
    hide VByte;
    var slice := disk[at..at + count];
    if HeldFrom(mem, frameOf, v, disk, at, n, count) {
      forall i | 0 <= i < count ensures buf[i] == slice[i] {
        assert n <= i ==> Held(mem, frameOf, v, disk, at, i);
      }
    } else {
      var i :| 0 <= i < count && n <= i && !Held(mem, frameOf, v, disk, at, i);
      assert buf[i] != slice[i];
    }
  }

  lemma SameDisk(disk: seq<int>, lo: int, hi: int)
    ensures KeptOutside(disk, disk, lo, hi)
  {
  }

  lemma SpliceAt(s: seq<int>, at: int, data: seq<int>, i: nat)
    requires 0 <= at && at + |data| <= |s| && i < |data|
    ensures Splice(s, at, data)[at + i] == data[i]
  {
  }

  /** The driver reports an error for a write of one sector: nothing is written, and
      the caller is told that all of it was. */
  method ErrorUnreported() returns (d: Drive, end: Outcome)
    ensures fresh(d) && end == Returned(512) && d.disk == seq(512, _ => 0)
  {
    d := new Drive(512, x => x, [Part(0, 0, 1)], 0, seq(512, _ => 0));
    var bad := Chance(true, _ => true, true, _ => Failed, 0);
    assert SectorCount(0, 512, 512) == 1;
    var buf := seq(512, _ => 1);
    end := d.WriteBlkdev(0, buf, PAGE_SIZE, bad, bad, bad);
    assert buf[..0] == [];
  }

  /** A minor number without a partition makes read_blkdev divide by zero. */
  method UnknownMinorFaults() returns (d: Drive, end: Outcome)
    ensures fresh(d) && d.parts == [Part(1, 0, 1)] && d.minor == 7 && end == Faulted
  {
    d := new Drive(512, x => x, [Part(1, 0, 1)], 7, seq(512, _ => 0));
    assert [Part(1, 0, 1)][1..] == [];
    var ch := Chance(true, _ => true, true, _ => Moved(1), 0);
    var buf;
    end, buf := d.ReadBlkdev(0, 0, PAGE_SIZE, ch);
  }

  /** A request that cannot be queued is freed as pending: the ASSERT of free_request
      stops the kernel. */
  method QueueFullPanics() returns (d: Drive, end: Outcome)
    ensures fresh(d) && end == Panicked
  {
    d := new Drive(512, x => x, [Part(0, 0, 1)], 0, seq(512, _ => 0));
    var ch := Chance(true, _ => true, false, _ => Moved(1), 0);
    assert SectorCount(0, 512, 512) == 1;
    var buf;
    end, buf := d.ReadBlkdev(0, 512, PAGE_SIZE, ch);
  }

  lemma SectorsCover(delta: nat, count: nat, size: nat)
    requires size > 0 && delta < size
    ensures var n := SectorCount(delta, count, size);
            && 0 <= n * size
            && ((count + delta) % size != 0 ==> n >= 1 && (n - 1) * size + size == n * size && 0 <= (n - 1) * size)
            && ((count + delta) % size == 0 ==> n * size == delta + count)
            && (delta > 0 ==> size <= n * size)
  {
    var n := SectorCount(delta, count, size);
    ProductOrder(n, 0, size);
    if delta > 0 {
      assert n >= 1 by { ProductOrder(0, n, size); }
      assert n * size == (n - 1) * size + size;
      ProductOrder(n - 1, 0, size);
    }
    if (count + delta) % size != 0 {
      assert n >= 1 by { ProductOrder(0, n, size); }
      assert n * size == (n - 1) * size + size;
      ProductOrder(n - 1, 0, size);
    }
  }

  /** Outside [delta, delta + count) the bounce buffer holds the disk's bytes. */
  ghost predicate Prefilled(mem: Mem, disk: seq<int>, first: int, frameOf: int -> int,
                            bounce: int, delta: nat, count: nat, n: nat, size: nat) {
    forall w :: bounce <= w < bounce + n * size && !(bounce + delta <= w < bounce + delta + count) ==>
      VByte(mem, frameOf, w) == DByte(disk, first * size + w - bounce)
  }

  lemma PrefilledBy(mem0: Mem, mem1: Mem, mem2: Mem, disk: seq<int>, first: int, frameOf: int -> int,
                    bounce: int, delta: nat, count: nat, n: nat, size: nat)
    requires size > 0 && delta < size && n == SectorCount(delta, count, size)
    requires delta > 0 ==> Filled(mem0, mem1, disk, first, frameOf, bounce, 1, size, bounce, bounce + n * size)
    requires (count + delta) % size != 0 ==>
               Filled(mem1, mem2, disk, first + n - 1, frameOf, bounce + (n - 1) * size, 1, size,
                      bounce, bounce + n * size)
    requires (count + delta) % size == 0 ==> mem2 == mem1
    ensures Prefilled(mem2, disk, first, frameOf, bounce, delta, count, n, size)
  {
    SectorsCover(delta, count, size);
    hide VByte, DByte, SectorCount;
    forall w | bounce <= w < bounce + n * size && !(bounce + delta <= w < bounce + delta + count)
      ensures VByte(mem2, frameOf, w) == DByte(disk, first * size + w - bounce)
    {
      if (count + delta) % size != 0 && bounce + (n - 1) * size <= w {
        assert (first + n - 1) * size + w - (bounce + (n - 1) * size) == first * size + w - bounce by {
          assert (first + n - 1) * size == first * size + (n - 1) * size;
        }
      }
    }
  }

  /** The bytes to be written are the disk's own bytes with `buf` in place, so writing
      the first m sectors back replaces exactly what of `buf` is in them. */
  lemma Patched(mem: Mem, disk: seq<int>, first: int, frameOf: int -> int,
                bounce: int, delta: nat, buf: seq<int>, n: nat, m: nat, size: nat)
    requires size > 0 && delta + |buf| <= n * size && m <= n && OnDisk(disk, first, n, size)
    requires Mapped(frameOf, bounce, bounce + n * size)
    requires Prefilled(mem, disk, first, frameOf, bounce, delta, |buf|, n, size)
    ensures 0 <= m * size <= n * size && 0 <= first * size && first * size + n * size <= |disk|
    ensures var mem' := StoreV(mem, frameOf, bounce + delta, buf);
            Splice(disk, first * size, VBytes(mem', frameOf, bounce, m * size))
            == Splice(disk, first * size + delta, buf[..Reach(m * size, delta, |buf|)])
  {
    ProductOrder(first, 0, size);
    PartOfSectors(m, n, size);
    assert (first + n) * size == first * size + n * size;
    hide Prefilled, Mapped, StoreV, VByte, Splice, OnDisk;
    var mem', at, k := StoreV(mem, frameOf, bounce + delta, buf), first * size, Reach(m * size, delta, |buf|);
    var data := VBytes(mem', frameOf, bounce, m * size);
    forall i | 0 <= i < m * size
      ensures data[i] == if delta <= i < delta + k then buf[i - delta] else disk[at + i]
    {
      PatchedByte(mem, disk, first, frameOf, bounce, delta, buf, n, size, i);
      assert data[i] == VByte(mem', frameOf, bounce + i);
    }
    if k == 0 {
      SpliceSame(disk, at, data);
      SpliceNothing(disk, at + delta, buf[..k]);
    } else {
      SpliceInside(disk, at, data, delta, buf[..k]);
    }
  }

  lemma SpliceSame(s: seq<int>, at: int, data: seq<int>)
    requires 0 <= at && at + |data| <= |s| && forall i :: 0 <= i < |data| ==> data[i] == s[at + i]
    ensures Splice(s, at, data) == s
  {
  }

  lemma PatchedByte(mem: Mem, disk: seq<int>, first: int, frameOf: int -> int,
                    bounce: int, delta: nat, buf: seq<int>, n: nat, size: nat, i: nat)
    requires delta + |buf| <= n * size && i < n * size && 0 <= first * size && first * size + n * size <= |disk|
    requires Mapped(frameOf, bounce, bounce + n * size)
    requires Prefilled(mem, disk, first, frameOf, bounce, delta, |buf|, n, size)
    ensures VByte(StoreV(mem, frameOf, bounce + delta, buf), frameOf, bounce + i)
         == if delta <= i < delta + |buf| then buf[i - delta] else disk[first * size + i]
  {
    hide Mapped, StoreV, VByte;
    StoreVBytes(mem, frameOf, bounce + delta, buf, bounce, bounce + n * size, bounce + i);
  }

  lemma SpliceInside(s: seq<int>, at: int, data: seq<int>, d: nat, buf: seq<int>)
    requires 0 <= at && at + |data| <= |s| && d + |buf| <= |data|
    requires forall i :: 0 <= i < |data| ==> data[i] == if d <= i < d + |buf| then buf[i - d] else s[at + i]
    ensures Splice(s, at, data) == Splice(s, at + d, buf)
  {
  }

  /** mem' is mem with sectors `first`, ... of the disk at [v, v + count * size), as
      seen through the mapping of [lo, hi). */
  ghost predicate Filled(mem: Mem, mem': Mem, disk: seq<int>, first: int, frameOf: int -> int,
                         v: int, count: nat, size: nat, lo: int, hi: int) {
    forall w :: lo <= w < hi ==>
      VByte(mem', frameOf, w)
      == if v <= w < v + count * size then DByte(disk, first * size + w - v) else VByte(mem, frameOf, w)
  }

  /** The bytes a buffer filled with m sectors shows from byte delta on. */
  lemma FilledBytes(mem: Mem, mem': Mem, disk: seq<int>, first: int, frameOf: int -> int,
                    v: int, delta: nat, count: nat, n: nat, m: nat, size: nat, at: int)
    requires Filled(mem, mem', disk, first, frameOf, v, m, size, v, v + n * size)
    requires delta + count <= n * size && at == first * size + delta
    ensures ReadBytes(VBytes(mem', frameOf, v + delta, count), mem, disk, at, frameOf, v + delta,
                      count, m * size - delta)
  {
    hide VByte, DByte;
    var buf := VBytes(mem', frameOf, v + delta, count);
    forall i | 0 <= i < count
      ensures buf[i] == if i < m * size - delta then DByte(disk, at + i) else VByte(mem, frameOf, v + delta + i)
    {
      assert VByte(mem', frameOf, v + delta + i) == buf[i];
    }
  }

  lemma ReadRegion(mem: Mem, disk: seq<int>, first: int, frameOf: int -> int,
                   v: int, count: nat, size: nat, lo: int, hi: int)
    requires SectorSize(size) && v % size == 0 && lo <= v && v + count * size <= hi && Mapped(frameOf, lo, hi)
    ensures Filled(mem, DiskToMem(mem, disk, first, VirtSectors(frameOf, v, count, size), size),
                   disk, first, frameOf, v, count, size, lo, hi)
  {
    var mem' := DiskToMem(mem, disk, first, VirtSectors(frameOf, v, count, size), size);
    forall w | lo <= w < hi
      ensures VByte(mem', frameOf, w)
           == if v <= w < v + count * size then DByte(disk, first * size + w - v) else VByte(mem, frameOf, w)
    {
      ReadEffect(mem, disk, first, frameOf, v, count, size, lo, hi, w);
    }
  }

  lemma SectorPositive(size: int)
    requires SectorSize(size)
    ensures size > 0
  {
  }

  lemma VirtNone(frameOf: int -> int, v: int, size: int)
    ensures VirtSectors(frameOf, v, 0, size) == []
  {
  }

  /** Where the bytes of a transfer lie, relative to its sectors. */
  lemma ByteRange(disk: seq<int>, partOffset: nat, off: nat, count: nat, size: nat)
    requires size > 0 && OnDisk(disk, off / size + partOffset, SectorCount(off % size, count, size), size)
    ensures 0 <= off % size < size && (off - off % size) / size == off / size >= 0
    ensures off % size + count <= SectorCount(off % size, count, size) * size
    ensures (off / size + partOffset) * size + off % size == partOffset * size + off
    ensures 0 <= partOffset * size && partOffset * size + off + count <= |disk|
  {
    var f, d, n := off / size, off % size, SectorCount(off % size, count, size);
    assert off - d == f * size;
    ProductOrder(-1, f, size);
    ProductDiv(f, size);
    assert (f + partOffset) * size == f * size + partOffset * size;
    assert (f + partOffset + n) * size == (f + partOffset) * size + n * size;
    ProductOrder(partOffset, 0, size);
  }

  /** A bio starts on its page and does not leave it. */
  predicate InOnePage(b: Bio, size: nat) {
    b.page % PAGE_SIZE == 0 && 0 <= b.offset && b.offset + b.nsectors * size <= PAGE_SIZE && b.nsectors > 0
  }

  /** The bio for as many of `nsects` sectors at virtual address v as fit the page. */
  function BioAt(frameOf: int -> int, v: int, nsects: nat, size: nat): Bio
    requires size > 0
  {
    var phys := Phys(frameOf, v);
    var offset := phys % PAGE_SIZE;
    var page := (phys / PAGE_SIZE) * PAGE_SIZE;
    Bio(page, offset, if PAGE_SIZE - offset < nsects * size then (PAGE_SIZE - offset) / size else nsects)
  }

  lemma BioIsVirt(frameOf: int -> int, v: int, nsects: nat, size: nat)
    requires SectorSize(size) && v % size == 0 && nsects > 0
    ensures var b := BioAt(frameOf, v, nsects, size);
            && 1 <= b.nsectors <= nsects && InOnePage(b, size)
            && Sectors(b, size) == VirtSectors(frameOf, v, b.nsectors, size)
            && (b.nsectors == nsects || b.offset + b.nsectors * size == PAGE_SIZE)
  {
    SectorsInPage(v, size);
    var b := BioAt(frameOf, v, nsects, size);
    var phys := Phys(frameOf, v);
    assert b.offset == v % PAGE_SIZE && b.page + b.offset == phys;
    ProductOrder((PAGE_SIZE - b.offset) / size, nsects, size);
    assert b.nsectors * size <= PAGE_SIZE - b.offset;
    VirtInPage(frameOf, v, b.nsectors, size);
  }
}
