/**
 Cluster chains of kernel/fs/fat32.c: linked lists kept in the file allocation
 table.  The table is one buffer of spf * bps bytes, so that an entry index is a
 cluster number; an allocation that has to read a second buffer is not modelled.
 */
module Fat {

  const LAST_CLUSTER := 0x0FFF_FFF8

  /** The low 28 bits of an entry; the high 4 are reserved. */
  function Link(entry: nat): nat {
    entry % 0x1000_0000
  }

  predicate Distinct(s: seq<nat>) {
    forall i, j :: 0 <= i < j < |s| ==> s[i] != s[j]
  }

  predicate LinkOk(fat: seq<nat>, ch: seq<nat>, i: int)
    requires 0 <= i < |ch|
  {
    && 2 <= ch[i] < |fat|
    && (if i + 1 == |ch| then Link(fat[ch[i]]) >= LAST_CLUSTER else Link(fat[ch[i]]) == ch[i+1])
  }

  /** ch lists the clusters of a chain, first to last. */
  predicate IsChain(fat: seq<nat>, ch: seq<nat>) {
    && ch != [] && Distinct(ch) && |fat| < LAST_CLUSTER
    && forall i :: 0 <= i < |ch| ==> LinkOk(fat, ch, i)
  }

  /** No link of the chain before its end reads as an end mark with its reserved
      bits. */
  predicate CleanLinks(fat: seq<nat>, ch: seq<nat>) {
    forall i :: 0 <= i < |ch| - 1 && 0 <= ch[i] < |fat| ==> fat[ch[i]] < LAST_CLUSTER
  }

  predicate StepOk(fat: seq<nat>, ch: seq<nat>, i: int)
    requires 0 <= i < |ch|
  {
    2 <= ch[i] < |fat| && Link(fat[ch[i]]) != 0 && (i + 1 < |ch| ==> Link(fat[ch[i]]) == ch[i+1])
  }

  /** ch follows links, but its last cluster may lead on: the front of a chain. */
  predicate IsPath(fat: seq<nat>, ch: seq<nat>) {
    && ch != [] && Distinct(ch) && |fat| < LAST_CLUSTER
    && forall i :: 0 <= i < |ch| ==> StepOk(fat, ch, i)
  }

  lemma ChainFront(fat: seq<nat>, ch: seq<nat>, n: nat)
    requires IsChain(fat, ch) && 0 < n <= |ch|
    ensures IsPath(fat, ch[..n])
  {
    forall i | 0 <= i < n ensures StepOk(fat, ch[..n], i) {
      assert LinkOk(fat, ch, i);
      assert i + 1 < |ch| ==> LinkOk(fat, ch, i + 1);
    }
  }

  // ---- following a chain ----------------------------------------------

  /** follow_cluster_chain: the depth-th cluster, or 0 past the end. */
  method FollowClusterChain(fat: array<nat>, cluster0: nat, depth: nat, ghost ch: seq<nat>) returns (r: nat)
    requires IsChain(fat[..], ch) && cluster0 == ch[0]
    ensures r == if depth < |ch| then ch[depth] else 0
  {
    assert LinkOk(fat[..], ch, 0);
    if depth == 0 { return cluster0; }
    var index := Link(cluster0);
    var left := depth;
    while left > 0
      invariant 0 <= left <= depth && depth - left < |ch| && index == ch[depth - left] < fat.Length
    {
      ghost var i := depth - left;
      assert LinkOk(fat[..], ch, i);
      assert i + 1 < |ch| ==> LinkOk(fat[..], ch, i + 1);
      index := Link(fat[index]);
      if index == 0 || index >= LAST_CLUSTER { return 0; }
      left := left - 1;
    }
    r := index;
  }

  // ---- free clusters ----------------------------------------------------

  /** The free clusters from i on, lowest first. */
  function FreeFrom(fat: seq<nat>, i: nat): seq<nat>
    decreases |fat| - i
  {
    if i >= |fat| then []
    else if Link(fat[i]) == 0 then [i] + FreeFrom(fat, i + 1)
    else FreeFrom(fat, i + 1)
  }

  /** f lists exactly the free clusters from i on, in increasing order. */
  predicate ListsFree(fat: seq<nat>, i: nat, f: seq<nat>) {
    && (forall k :: 0 <= k < |f| ==> i <= f[k] < |fat| && Link(fat[f[k]]) == 0)
    && (forall k, l :: 0 <= k < l < |f| ==> f[k] < f[l])
    && (forall c :: i <= c < |fat| && Link(fat[c]) == 0 ==> c in f)
  }

  lemma ListsFreeStep(fat: seq<nat>, i: nat, g: seq<nat>)
    requires i < |fat| && ListsFree(fat, i + 1, g)
    ensures Link(fat[i]) == 0 ==> ListsFree(fat, i, [i] + g)
    ensures Link(fat[i]) != 0 ==> ListsFree(fat, i, g)
  {
    var f := [i] + g;
    assert f[0] == i && forall k :: 0 < k < |f| ==> f[k] == g[k-1];
    assert forall c :: c in g ==> c in f;
  }

  lemma {:induction false} FreeFromIsFree(fat: seq<nat>, i: nat)
    ensures ListsFree(fat, i, FreeFrom(fat, i))
    decreases |fat| - i
  {
    if i < |fat| {
      FreeFromIsFree(fat, i + 1);
      ListsFreeStep(fat, i, FreeFrom(fat, i + 1));
    }
  }

  /** Only which entries are zero matters. */
  lemma {:induction false} FreeFromSame(fat: seq<nat>, fat': seq<nat>, i: nat)
    requires |fat| == |fat'|
    requires forall c :: i <= c < |fat| ==> (Link(fat[c]) == 0 <==> Link(fat'[c]) == 0)
    ensures FreeFrom(fat, i) == FreeFrom(fat', i)
    decreases |fat| - i
  {
    if i < |fat| { FreeFromSame(fat, fat', i + 1); }
  }

  // ---- the seek to the end of the chain ---------------------------------

  /** Where the seek loop of alloc_clusters stops on a chain: at the first entry
      that is not below the end mark as a whole 32-bit word. */
  function SeekIndex(fat: seq<nat>, ch: seq<nat>, i: nat): (k: nat)
    requires i < |ch| && forall j :: 0 <= j < |ch| ==> 0 <= ch[j] < |fat|
    ensures i <= k < |ch|
    decreases |ch| - i
  {
    if i + 1 == |ch| || fat[ch[i]] >= LAST_CLUSTER then i else SeekIndex(fat, ch, i + 1)
  }

  /** Entry k of the chain is the first that reads as an end mark as a whole word, or the
      last of all. */
  predicate SeekStops(fat: seq<nat>, ch: seq<nat>, k: int)
    requires forall j :: 0 <= j < |ch| ==> 0 <= ch[j] < |fat|
  {
    && 0 <= k < |ch| && (k == |ch| - 1 || fat[ch[k]] >= LAST_CLUSTER)
    && forall j :: 0 <= j < k ==> fat[ch[j]] < LAST_CLUSTER
  }

  lemma {:induction false} SeekIndexStops(fat: seq<nat>, ch: seq<nat>, i: nat)
    requires i < |ch| && forall j :: 0 <= j < |ch| ==> 0 <= ch[j] < |fat|
    requires forall j :: 0 <= j < i ==> fat[ch[j]] < LAST_CLUSTER
    ensures SeekStops(fat, ch, SeekIndex(fat, ch, i))
    decreases |ch| - i
  {
    if i + 1 < |ch| && fat[ch[i]] < LAST_CLUSTER { SeekIndexStops(fat, ch, i + 1); }
  }

  /** The seek finds the end of the chain exactly when no link before the end has
      reserved bits set; otherwise the chain would be cut there. */
  lemma {:induction false} SeekFindsEndIff(fat: seq<nat>, ch: seq<nat>, i: nat)
    requires i < |ch| && forall j :: 0 <= j < |ch| ==> 0 <= ch[j] < |fat|
    ensures SeekIndex(fat, ch, i) == |ch| - 1 <==> forall j :: i <= j < |ch| - 1 ==> fat[ch[j]] < LAST_CLUSTER
    decreases |ch| - i
  {
    if i + 1 < |ch| && fat[ch[i]] < LAST_CLUSTER { SeekFindsEndIff(fat, ch, i + 1); }
  }

  // ---- extending a chain --------------------------------------------------

  /** A free cluster marked as the last and linked from the end of a path makes a
      chain of the path and the cluster, wherever the path led before. */
  lemma ExtendPath(fat: seq<nat>, ch: seq<nat>, c: nat)
    requires IsPath(fat, ch) && 2 <= c < |fat| && Link(fat[c]) == 0
    ensures 0 <= ch[|ch|-1] < |fat| && ch[|ch|-1] != c
    ensures IsChain(fat[c := LAST_CLUSTER][ch[|ch|-1] := c], ch + [c])
  {
    var last := ch[|ch|-1];
    forall i | 0 <= i < |ch| ensures ch[i] != c && 2 <= ch[i] < |fat| {
      assert StepOk(fat, ch, i);
    }
    var fat' := fat[c := LAST_CLUSTER][last := c];
    var ch' := ch + [c];
    forall i | 0 <= i < |ch'| ensures LinkOk(fat', ch', i) {
      if i < |ch| {
        assert StepOk(fat, ch, i);
        assert i < |ch| - 1 ==> ch[i] != last;
      }
    }
  }

  lemma ChainIsPath(fat: seq<nat>, ch: seq<nat>)
    requires IsChain(fat, ch)
    ensures IsPath(fat, ch)
  {
    ChainFront(fat, ch, |ch|);
    assert ch[..|ch|] == ch;
  }

  /** A chain that shares no cluster with a change is still there. */
  lemma ChainKept(fat: seq<nat>, fat': seq<nat>, other: seq<nat>)
    requires IsChain(fat, other) && |fat| == |fat'|
    requires forall i :: 0 <= i < |other| && 0 <= other[i] < |fat| ==> fat'[other[i]] == fat[other[i]]
    ensures IsChain(fat', other)
  {
    forall i | 0 <= i < |other| ensures LinkOk(fat', other, i) {
      assert LinkOk(fat, other, i);
    }
  }

  /** Free clusters are in no chain. */
  lemma ChainNotFree(fat: seq<nat>, ch: seq<nat>, c: nat)
    requires IsChain(fat, ch) && c in ch
    ensures c < |fat| && Link(fat[c]) != 0
  {
    var i :| 0 <= i < |ch| && ch[i] == c;
    assert LinkOk(fat, ch, i);
    if i + 1 < |ch| { assert LinkOk(fat, ch, i + 1); }
  }

  /** Entries 0 and 1 hold the media byte and the end mark, never a free cluster. */
  predicate ReservedEntries(fat: seq<nat>) {
    |fat| >= 2 && Link(fat[0]) != 0 && Link(fat[1]) != 0
  }

  /** The path `front` has been given the clusters `got`; the search from index
      `search` on has the rest of the free clusters to offer. */
  ghost predicate Extended(fat0: seq<nat>, fat: seq<nat>, front: seq<nat>, got: seq<nat>, search: nat) {
    && front != [] && |fat| == |fat0| && ReservedEntries(fat) && IsPath(fat, front + got)
    && (got != [] ==> IsChain(fat, front + got)) && (got == [] ==> fat == fat0)
    && FreeFrom(fat0, 0) == got + FreeFrom(fat, search)
    && (forall c :: 0 <= c < |fat| && c !in got && c != front[|front|-1] ==> fat[c] == fat0[c])
  }

  lemma ExtendedSkip(fat: seq<nat>, search: nat)
    requires search < |fat| && Link(fat[search]) != 0
    ensures FreeFrom(fat, search) == FreeFrom(fat, search + 1)
  {
  }

  /** Handing out the free cluster at `search`. */
  lemma ExtendedTake(fat0: seq<nat>, fat: seq<nat>, front: seq<nat>, got: seq<nat>, search: nat)
    requires Extended(fat0, fat, front, got, search)
    requires search < |fat| && Link(fat[search]) == 0
    ensures 0 <= (front + got)[|front + got| - 1] < |fat|
    ensures Extended(fat0, fat[search := LAST_CLUSTER][(front + got)[|front + got| - 1] := search], front,
                     got + [search], search)
  {
    var all := front + got;
    var last := all[|all|-1];
    assert StepOk(fat, all, |all| - 1);
    ExtendPath(fat, all, search);
    assert all + [search] == front + (got + [search]);
    var fat' := fat[search := LAST_CLUSTER][last := search];
    ChainIsPath(fat', front + (got + [search]));
    FreeFromSame(fat, fat', search + 1);
    assert Link(fat'[search]) != 0;
    assert FreeFrom(fat, search) == [search] + FreeFrom(fat', search);
    forall c | 0 <= c < |fat'| && c !in got + [search] && c != front[|front|-1] ensures fat'[c] == fat0[c] {
      assert c !in got;
      assert c != search by { assert search in got + [search]; }
      if got != [] { assert last == got[|got|-1] && last in got; }
    }
  }

  lemma ChainInside(fat: seq<nat>, ch: seq<nat>)
    requires IsChain(fat, ch)
    ensures forall j :: 0 <= j < |ch| ==> 0 <= ch[j] < |fat|
  {
    forall j | 0 <= j < |ch| ensures 0 <= ch[j] < |fat| {
      assert LinkOk(fat, ch, j);
    }
  }

  /** The seek loop of alloc_clusters. */
  method SeekEnd(fat: array<nat>, start: nat, ghost ch: seq<nat>) returns (index: nat)
    requires IsChain(fat[..], ch) && start == ch[0]
    ensures forall j :: 0 <= j < |ch| ==> 0 <= ch[j] < fat.Length
    ensures index == ch[SeekIndex(fat[..], ch, 0)]
    ensures SeekStops(fat[..], ch, SeekIndex(fat[..], ch, 0))
  {
    ChainInside(fat[..], ch);
    SeekIndexStops(fat[..], ch, 0);
    index := start;
    ghost var k := 0;
    while fat[index] < LAST_CLUSTER
      invariant 0 <= k < |ch| && index == ch[k] < fat.Length
      invariant SeekIndex(fat[..], ch, 0) == SeekIndex(fat[..], ch, k)
      decreases |ch| - k
    {
      assert LinkOk(fat[..], ch, k);
      index := Link(fat[index]);
      k := k + 1;
    }
    assert LinkOk(fat[..], ch, k);
  }

  /** The search loop of alloc_clusters: the next free cluster, or the table's end. */
  method NextFree(fat: array<nat>, from: nat) returns (search: nat)
    requires from < fat.Length
    ensures from <= search <= fat.Length && FreeFrom(fat[..], search) == FreeFrom(fat[..], from)
    ensures search < fat.Length ==> Link(fat[search]) == 0
  {
    search := from;
    while Link(fat[search]) != 0
      invariant from <= search < fat.Length && FreeFrom(fat[..], search) == FreeFrom(fat[..], from)
      decreases fat.Length - search
    {
      ExtendedSkip(fat[..], search);
      search := search + 1;
      if search >= fat.Length { return; }
    }
  }

  /** alloc_clusters on an existing chain: where the seek stops, as many of the lowest
      free clusters as are wanted and there are take over. */
  method AllocClusters(fat: array<nat>, start: nat, nclusters: nat, ghost ch: seq<nat>)
    returns (nalloc: nat, ghost k: nat, ghost got: seq<nat>)
    requires IsChain(fat[..], ch) && start == ch[0] && ReservedEntries(fat[..])
    modifies fat
    ensures (forall j :: 0 <= j < |ch| ==> 0 <= ch[j] < fat.Length) && k == SeekIndex(old(fat[..]), ch, 0)
    ensures nalloc == |got| == Least(nclusters, |old(FreeFrom(fat[..], 0))|)
    ensures got == old(FreeFrom(fat[..], 0))[..nalloc]
    ensures ReservedEntries(fat[..]) && (got == [] ==> fat[..] == old(fat[..]))
    ensures SeekStops(old(fat[..]), ch, k)
    ensures got != [] ==> IsChain(fat[..], ch[..k+1] + got)
    ensures forall c :: 0 <= c < fat.Length && c !in got && c != ch[k] ==> fat[c] == old(fat[c])
    ensures IsChain(fat[..], ch + got) <==> k == |ch| - 1 || got == []
    ensures IsChain(fat[..], ch + got) <==>
              CleanLinks(old(fat[..]), ch) || nclusters == 0 || old(FreeFrom(fat[..], 0)) == []
  {
    hide IsChain, IsPath, ReservedEntries, FreeFrom;
    ghost var fat0 := fat[..];
    var index := SeekEnd(fat, start, ch);
    k := SeekIndex(fat0, ch, 0);
    ghost var front := ch[..k+1];
    var search, left := 0, nclusters;
    nalloc, got := 0, [];
    ChainBasics(fat[..], ch);
    SeekFindsEndIff(fat0, ch, 0);
    ChainFront(fat[..], ch, k + 1);
    assert front + got == front;
    while left > 0
      invariant 0 <= left <= nclusters && nalloc == |got| == nclusters - left
      invariant 0 <= search < fat.Length && Extended(fat0, fat[..], front, got, search)
      invariant index == (front + got)[|front + got| - 1]
    {
      search := NextFree(fat, search);
      if search >= fat.Length {
        NoMoreFree(fat[..], search);
        CutIff(fat0, fat[..], ch, k, got);
        return;
      }
      ExtendedTake(fat0, fat[..], front, got, search);
      ghost var fat' := fat[..][search := LAST_CLUSTER][index := search];
      fat[search] := LAST_CLUSTER;
      fat[index] := search;
      assert fat[..] == fat';
      index := search;
      got := got + [search];
      nalloc := nalloc + 1;
      left := left - 1;
    }
    CutIff(fat0, fat[..], ch, k, got);
  }

  /** The extended chain is the old one and the new clusters exactly when the seek
      reached the end, or nothing was handed out: otherwise the chain is cut. */
  lemma CutIff(fat0: seq<nat>, fat: seq<nat>, ch: seq<nat>, k: nat, got: seq<nat>)
    requires IsChain(fat0, ch) && k < |ch| && |fat| == |fat0|
    requires got == [] ==> fat == fat0
    requires got != [] ==> IsChain(fat, ch[..k+1] + got)
    requires got <= FreeFrom(fat0, 0)
    ensures IsChain(fat, ch + got) <==> k == |ch| - 1 || got == []
  {
    if got == [] {
      assert ch + got == ch;
    } else if k == |ch| - 1 {
      assert ch[..k+1] == ch;
    } else {
      var short, long := ch[..k+1] + got, ch + got;
      assert short[k] == ch[k] && short[k+1] == got[0] && long[k] == ch[k] && long[k+1] == ch[k+1];
      assert LinkOk(fat, short, k);
      FreeFromIsFree(fat0, 0);
      assert got[0] == FreeFrom(fat0, 0)[0];
      ChainNotFree(fat0, ch, ch[k+1]);
      assert !LinkOk(fat, long, k);
    }
  }

  /** Asking for one cluster on a two-cluster chain whose first link has a reserved bit
      set: the second cluster is no longer reached. */
  method ReservedBitCutsChain() returns (fat: array<nat>, ghost was: seq<nat>)
    ensures was == [LAST_CLUSTER, LAST_CLUSTER, 0x1000_0003, LAST_CLUSTER, 0] && IsChain(was, [2, 3])
    ensures IsChain(fat[..], [2, 4]) && !IsChain(fat[..], [2, 3, 4])
  {
    fat := new nat[][LAST_CLUSTER, LAST_CLUSTER, 0x1000_0003, LAST_CLUSTER, 0];
    was := fat[..];
    assert LinkOk(was, [2, 3], 0) && LinkOk(was, [2, 3], 1);
    assert FreeFrom(was, 0) == [4] by { OneFree(was); }
    var n;
    ghost var k, got;
    n, k, got := AllocClusters(fat, 2, 1, [2, 3]);
    assert got == [4] && k == 0;
    assert [2, 3][..1] + [4] == [2, 4] && [2, 3] + [4] == [2, 3, 4];
  }

  lemma OneFree(fat: seq<nat>)
    requires |fat| == 5 && Link(fat[4]) == 0 && forall c :: 0 <= c < 4 ==> Link(fat[c]) != 0
    ensures FreeFrom(fat, 0) == [4]
  {
    assert FreeFrom(fat, 5) == [];
    assert FreeFrom(fat, 2) == FreeFrom(fat, 3) == FreeFrom(fat, 4) == [4];
  }

  function Least(a: nat, b: nat): nat {
    if a < b then a else b
  }

  lemma ChainBasics(fat: seq<nat>, ch: seq<nat>)
    requires IsChain(fat, ch)
    ensures ch != [] && |fat| > 0
  {
    assert LinkOk(fat, ch, 0);
  }

  lemma NoMoreFree(fat: seq<nat>, i: nat)
    requires i >= |fat|
    ensures FreeFrom(fat, i) == []
  {
  }

  /** Every other chain is still there and still apart from the extended one. */
  lemma OtherChainsKept(fat: seq<nat>, fat': seq<nat>, ch: seq<nat>, got: seq<nat>, other: seq<nat>)
    requires IsChain(fat, ch) && IsChain(fat, other) && |fat| == |fat'|
    requires forall c :: c in ch ==> c !in other
    requires forall c :: c in got ==> c in FreeFrom(fat, 0)
    requires forall c :: 0 <= c < |fat| && c !in got && c !in ch ==> fat'[c] == fat[c]
    ensures IsChain(fat', other)
    ensures forall c :: c in ch + got ==> c !in other
  {
    FreeFromIsFree(fat, 0);
    forall i | 0 <= i < |other|
      ensures other[i] < |fat| && other[i] !in got && fat'[other[i]] == fat[other[i]]
    {
      assert other[i] in other;
      ChainNotFree(fat, other, other[i]);
    }
    ChainKept(fat, fat', other);
  }

  /** After an extension, following the chain reaches the clusters up to where the seek
      stopped and then the new ones, and nothing past them. */
  method ExtendThenFollow(fat: array<nat>, start: nat, nclusters: nat, depth: nat, ghost ch: seq<nat>)
    returns (r: nat, ghost k: nat, ghost got: seq<nat>)
    requires IsChain(fat[..], ch) && ReservedEntries(fat[..]) && start == ch[0]
    modifies fat
    ensures (forall j :: 0 <= j < |ch| ==> 0 <= ch[j] < fat.Length) && k == SeekIndex(old(fat[..]), ch, 0)
    ensures got <= old(FreeFrom(fat[..], 0)) && |got| == Least(nclusters, |old(FreeFrom(fat[..], 0))|)
    ensures var chain := if got == [] then ch else ch[..k+1] + got;
            r == if depth < |chain| then chain[depth] else 0
  {
    var n;
    n, k, got := AllocClusters(fat, start, nclusters, ch);
    r := FollowClusterChain(fat, start, depth, if got == [] then ch else ch[..k+1] + got);
  }
}
