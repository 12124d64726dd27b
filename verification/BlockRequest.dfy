/**
 Block requests of kernel/block.c: a request is a list of bios, each a run of
 sectors inside one physical page.  `Flatten` is the list of the physical
 addresses of the sectors still to be served, in order.
 */
module BlockRequest {
  import opened Machine

  datatype Bio = Bio(page: int, offset: int, nsectors: nat)

  datatype Status = Unsched | Pending | Running | Finished | Interrupted

  /** The addresses of n sectors of `size` bytes from address a on. */
  function Addresses(a: int, n: nat, size: int): (s: seq<int>)
    ensures |s| == n
    decreases n
  {
    if n == 0 then [] else [a] + Addresses(a + size, n - 1, size)
  }

  function Sectors(b: Bio, size: int): (s: seq<int>)
    ensures |s| == b.nsectors
  {
    Addresses(b.page + b.offset, b.nsectors, size)
  }

  function Flatten(bios: seq<Bio>, size: int): seq<int> {
    if bios == [] then [] else Sectors(bios[0], size) + Flatten(bios[1..], size)
  }

  predicate NonEmpty(bios: seq<Bio>) {
    forall i :: 0 <= i < |bios| ==> bios[i].nsectors > 0
  }

  lemma {:induction false} AddressesDrop(a: int, n: nat, size: int, k: nat)
    requires k <= n
    ensures Addresses(a, n, size)[k..] == Addresses(a + k * size, n - k, size)
    decreases k
  {
    if k > 0 {
      AddressesDrop(a + size, n - 1, size, k - 1);
      assert a + size + (k - 1) * size == a + k * size;
      assert Addresses(a, n, size)[k..] == Addresses(a + size, n - 1, size)[k-1..];
    }
  }

  lemma {:induction false} AddressesConcat(a: int, n: nat, m: nat, size: int)
    ensures Addresses(a, n + m, size) == Addresses(a, n, size) + Addresses(a + n * size, m, size)
    decreases n
  {
    if n > 0 {
      AddressesConcat(a + size, n - 1, m, size);
      assert a + size + (n - 1) * size == a + n * size;
    }
  }

  lemma {:induction false} FlattenAppend(bios: seq<Bio>, b: Bio, size: int)
    ensures Flatten(bios + [b], size) == Flatten(bios, size) + Sectors(b, size)
    decreases |bios|
  {
    hide Sectors;
    if bios == [] {
      assert bios + [b] == [b];
    } else {
      FlattenAppend(bios[1..], b, size);
      assert (bios + [b])[1..] == bios[1..] + [b];
    }
  }

  /** What end_request's loop leaves of the bios, and of the count it was given,
      when n sectors are done. */
  function Consume(bios: seq<Bio>, n: nat, size: int): (r: (seq<Bio>, nat)) {
    if bios == [] then ([], n)
    else if bios[0].nsectors <= n then Consume(bios[1..], n - bios[0].nsectors, size)
    else ([bios[0].(offset := bios[0].offset + n * size, nsectors := bios[0].nsectors - n)] + bios[1..], 0)
  }

  /** The bios left over are exactly the unserved suffix, and the count comes out
      zero (the ASSERT of end_request) iff no more was done than was asked. */
  lemma {:induction false} ConsumeSuffix(bios: seq<Bio>, n: nat, size: int)
    ensures n <= |Flatten(bios, size)| ==>
              Flatten(Consume(bios, n, size).0, size) == Flatten(bios, size)[n..]
    ensures Consume(bios, n, size).1 == 0 <==> n <= |Flatten(bios, size)|
    ensures NonEmpty(bios) ==> NonEmpty(Consume(bios, n, size).0)
    decreases |bios|
  {
    if bios != [] {
      var b, rest := bios[0], bios[1..];
      if b.nsectors <= n {
        ConsumeSuffix(rest, n - b.nsectors, size);
      } else {
        var b' := b.(offset := b.offset + n * size, nsectors := b.nsectors - n);
        AddressesDrop(b.page + b.offset, b.nsectors, size, n);
        assert Sectors(b', size) == Sectors(b, size)[n..];
        assert ([b'] + rest)[1..] == rest;
      }
    }
  }

  /** Two sectors reported done where one was left: the ASSERT of end_request fails. */
  lemma TooManyReported()
    ensures Consume([Bio(0, 0, 1)], 2, 512).1 == 1
  {
    assert [Bio(0, 0, 1)][1..] == [];
  }

  class Request {
    const write: bool
    const sectorSize: int
    var firstSector: int
    var nsectors: int
    var status: Status
    var bios: seq<Bio>

    ghost function Left(): seq<int>
      reads this
    {
      Flatten(bios, sectorSize)
    }

    /** nsectors is the sum over the bios, none of which is empty. */
    ghost predicate Valid()
      reads this
    {
      NonEmpty(bios) && nsectors == |Left()|
    }

    constructor (write: bool, sectorSize: int, first: int)
      ensures Valid() && Left() == [] && status == Unsched
      ensures this.write == write && this.sectorSize == sectorSize && firstSector == first
    {
      this.write, this.sectorSize := write, sectorSize;
      firstSector, nsectors, status, bios := first, 0, Unsched, [];
    }

    /** add_bio_to_request_blkdev; `ok` is false when no list node can be allocated. */
    method AddBio(bio: Bio, ok: bool) returns (ret: int)
      requires Valid() && status == Unsched && bio.nsectors > 0
      modifies this`bios, this`nsectors
      ensures Valid() && ret == (if ok then 0 else -ENOMEM)
      ensures bios == if ok then old(bios) + [bio] else old(bios)
      ensures Left() == old(Left()) + if ok then Sectors(bio, sectorSize) else []
    {
      if !ok { return -ENOMEM; }
      FlattenAppend(bios, bio, sectorSize);
      bios := bios + [bio];
      nsectors := nsectors + bio.nsectors;
      ret := 0;
    }

    /** post_request_blkdev up to the driver: the request is pending, whether or not it
        could be queued. */
    method Post(ok: bool) returns (ret: int)
      requires status == Unsched
      modifies this`status
      ensures status == Pending && ret == if ok then 0 else -ENOMEM
    {
      status := Pending;
      ret := if ok then 0 else -ENOMEM;
    }

    /** What the ASSERT of free_request admits. */
    predicate Freeable()
      reads this
    {
      status == Unsched || status == Interrupted || status == Finished
    }

    /** end_request: whatever part of the request is reported done, the rest is
        exactly what is left, and the request finishes exactly when nothing is. */
    method EndRequest(error: int, done: nat) returns (more: int)
      requires Valid()
      requires error >= 0 ==> done <= nsectors
      modifies this
      ensures Valid()
      ensures Left() == old(Left())[(if error < 0 then old(nsectors) else done)..]
      ensures firstSector + nsectors == old(firstSector + nsectors)
      ensures status == (if old(status) != Interrupted && nsectors == 0 then Finished else old(status))
      ensures more == if old(status) == Interrupted || nsectors == 0 then 0 else 1
    {
      var n: nat := done;
      if error < 0 { n := nsectors; }
      ConsumeSuffix(bios, n, sectorSize);
      nsectors := nsectors - n;
      firstSector := firstSector + n;
      ghost var total := Consume(bios, n, sectorSize);
      while true
        invariant Consume(bios, n, sectorSize) == total
        decreases |bios|
        modifies this`bios
      {
        if |bios| == 0 {
          assert n == 0;
          break;
        }
        var bio := bios[0];
        if bio.nsectors <= n {
          n := n - bio.nsectors;
          bios := bios[1..];
          continue;
        }
        bios := [bio.(offset := bio.offset + n * sectorSize, nsectors := bio.nsectors - n)] + bios[1..];
        break;
      }
      assert bios == total.0;
      if status == Interrupted { return 0; }
      if nsectors == 0 {
        status := Finished;
        return 0;
      }
      more := 1;
    }
  }
}
