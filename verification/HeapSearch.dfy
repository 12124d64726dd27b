/**
 Where the search of kmemalign in kernel/kmalloc.c starts, which block it ends on, and
 which block it remembers as the best bet.
 */
module HeapSearch {
  import opened HeapLayout
  import opened HeapLinks
  import opened HeapSteps
  import opened SeqOps

  /** The place of the block at address a, or the number of blocks. */
  function IndexOf(lay: seq<Block>, a: int): (k: nat)
    ensures k <= |lay| && (k < |lay| ==> lay[k].base == a)
  {
    if lay == [] then 0 else if lay[0].base == a then 0 else 1 + IndexOf(lay[1..], a)
  }

  lemma {:induction false} IndexOfIs(lay: seq<Block>, k: int)
    requires DistinctBases(lay) && 0 <= k < |lay|
    ensures IndexOf(lay, lay[k].base) == k
    decreases |lay|
  {
    if k > 0 {
      assert lay[0].base != lay[k].base;
      var rest := lay[1..];
      assert forall i, j :: 0 <= i < j < |rest| ==> rest[i] == lay[i+1] && rest[j] == lay[j+1];
      assert DistinctBases(rest) by {
        forall i, j | 0 <= i < j < |rest| ensures rest[i].base != rest[j].base {
          assert lay[i+1].base != lay[j+1].base;
        }
      }
      IndexOfIs(rest, k - 1);
    }
  }

  /** The bet looks large enough for `size` bytes. */
  predicate GoodBet(lay: seq<Block>, bet: int, size: int) {
    var k := IndexOf(lay, bet);
    bet != 0 && k < |lay| && FreeBytes(lay[k]) > size + MINOR_SIZE
  }

  /** The search starts at the best bet if that looks large enough, else at the root. */
  function StartOf(lay: seq<Block>, bet: int, size: int): nat {
    if GoodBet(lay, bet, size) then IndexOf(lay, bet) else 0
  }

  /** No block from lo up to hi has room. */
  predicate NoneFrom(lay: seq<Block>, lo: int, hi: int, need: int) {
    forall k :: 0 <= lo <= k < hi && k < |lay| ==> NoRoom(lay[k], need)
  }

  /** Where the search stands: everything from its start, or, once it has restarted at the
      root, everything from the bet on and from the root on, has no room. */
  predicate Sweeping(lay: seq<Block>, bet: int, size: int, started: bool, i: int) {
    var st, need := StartOf(lay, bet, size), size + MINOR_SIZE;
    if started then GoodBet(lay, bet, size) && st <= i && NoneFrom(lay, st, i, need)
    else NoneFrom(lay, 0, i, need) && (GoodBet(lay, bet, size) ==> NoneFrom(lay, st, |lay|, need))
  }

  /** Block i is the first with room from the start on, or, if there is none from the bet
      on, the first with room at all. */
  predicate Chosen(lay: seq<Block>, bet: int, size: int, i: int) {
    var st, need := StartOf(lay, bet, size), size + MINOR_SIZE;
    && 0 <= i < |lay| && !NoRoom(lay[i], need)
    && ((st <= i && NoneFrom(lay, st, i, need)) || (NoneFrom(lay, st, |lay|, need) && NoneFrom(lay, 0, i, need)))
  }

  /** The search can end on one block only. */
  lemma ChosenOne(lay: seq<Block>, bet: int, size: int, i: int, i': int)
    requires Chosen(lay, bet, size, i) && Chosen(lay, bet, size, i')
    ensures i == i'
  {
  }

  lemma SweptChosen(lay: seq<Block>, bet: int, size: int, started: bool, i: int)
    requires Sweeping(lay, bet, size, started, i) && 0 <= i < |lay| && !NoRoom(lay[i], size + MINOR_SIZE)
    ensures Chosen(lay, bet, size, i)
  {
  }

  lemma SweepStart(lay: seq<Block>, bet: int, size: int, started: bool, i: int)
    requires started <==> GoodBet(lay, bet, size)
    requires i == StartOf(lay, bet, size)
    ensures Sweeping(lay, bet, size, started, i)
  {
  }

  lemma SweepStep(lay: seq<Block>, bet: int, size: int, started: bool, i: int)
    requires Sweeping(lay, bet, size, started, i) && 0 <= i < |lay| && NoRoom(lay[i], size + MINOR_SIZE)
    ensures Sweeping(lay, bet, size, started, i + 1)
    ensures started && i + 1 == |lay| ==> Sweeping(lay, bet, size, false, 0)
  {
  }

  // ---- the best bet --------------------------------------------------------

  /** Free bytes of the block at address a; 0 for NULL. */
  function FreeAt(lay: seq<Block>, a: int): int {
    if a == 0 || IndexOf(lay, a) == |lay| then 0 else FreeBytes(lay[IndexOf(lay, a)])
  }

  /** Block k has been passed when the search stands before block i. */
  predicate Passed(lay: seq<Block>, bet: int, size: int, started: bool, i: int, k: int) {
    var st := StartOf(lay, bet, size);
    if started then st <= k < i else 0 <= k < i || (GoodBet(lay, bet, size) && st <= k < |lay|)
  }

  /** The bet is the old one or one of the passed blocks, has more free bytes than the old
      one if it is another, and no passed block has more. */
  predicate Noted(lay0: seq<Block>, lay: seq<Block>, bet0: int, size: int, started: bool, i: int, bet: int) {
    && (bet == bet0 || FreeAt(lay, bet0) < FreeAt(lay, bet))
    && (forall k :: 0 <= k < |lay| && Passed(lay0, bet0, size, started, i, k) ==> FreeBytes(lay[k]) <= FreeAt(lay, bet))
    && (bet == bet0 || (IndexOf(lay, bet) < |lay| && Passed(lay0, bet0, size, started, i, IndexOf(lay, bet))))
  }

  lemma NotedStart(lay: seq<Block>, bet: int, size: int)
    ensures var good := GoodBet(lay, bet, size); Noted(lay, lay, bet, size, good, StartOf(lay, bet, size), bet)
  {
  }

  /** Looking at block i. */
  lemma NotedMore(lay0: seq<Block>, lay: seq<Block>, bet0: int, size: int, started: bool, i: int, bet: int, bet': int)
    requires Noted(lay0, lay, bet0, size, started, i, bet) && DistinctBases(lay) && 0 <= i < |lay| && lay[i].base != 0
    requires started ==> StartOf(lay0, bet0, size) <= i
    requires bet' == if FreeAt(lay, bet) < FreeBytes(lay[i]) then lay[i].base else bet
    ensures Noted(lay0, lay, bet0, size, started, i + 1, bet')
    ensures FreeAt(lay, bet') == if FreeAt(lay, bet) < FreeBytes(lay[i]) then FreeBytes(lay[i]) else FreeAt(lay, bet)
  {
    IndexOfIs(lay, i);
  }

  lemma NotedRestart(lay: seq<Block>, bet0: int, size: int, bet: int)
    requires Noted(lay, lay, bet0, size, true, |lay|, bet) && GoodBet(lay, bet0, size)
    ensures Noted(lay, lay, bet0, size, false, 0, bet)
  {
  }

  lemma {:induction false} IndexOfFront(lay: seq<Block>, b: Block, a: int)
    ensures IndexOf(lay, a) < |lay| ==> IndexOf(lay + [b], a) == IndexOf(lay, a)
    ensures IndexOf(lay, a) == |lay| ==> IndexOf(lay + [b], a) == if b.base == a then |lay| else |lay| + 1
    decreases |lay|
  {
    if lay == [] {
      assert lay + [b] == [b];
    } else {
      assert (lay + [b])[0] == lay[0] && (lay + [b])[1..] == lay[1..] + [b];
      IndexOfFront(lay[1..], b, a);
    }
  }

  lemma {:induction false} IndexOfListed(lay: seq<Block>, a: int)
    requires IsMajor(lay, a)
    ensures IndexOf(lay, a) < |lay|
    decreases |lay|
  {
    var k :| 0 <= k < |lay| && lay[k].base == a;
    if k > 0 {
      assert lay[1..][k-1].base == a;
      IndexOfListed(lay[1..], a);
    }
  }

  /** A new last block changes nothing for the bets of before. */
  lemma NotedGrow(lay: seq<Block>, b: Block, bet0: int, size: int, bet: int)
    requires Noted(lay, lay, bet0, size, false, |lay|, bet)
    requires (bet0 == 0 || IsMajor(lay, bet0)) && (bet == 0 || IsMajor(lay, bet))
    ensures Noted(lay, lay + [b], bet0, size, false, |lay|, bet)
    ensures FreeAt(lay + [b], bet) == FreeAt(lay, bet)
  {
    IndexOfFront(lay, b, bet0);
    IndexOfFront(lay, b, bet);
    if bet0 != 0 { IndexOfListed(lay, bet0); }
    if bet != 0 { IndexOfListed(lay, bet); }
    assert forall k :: 0 <= k < |lay| ==> (lay + [b])[k] == lay[k];
  }

  /** Fresh pages are looked at unless the last block before them was ruled out by its
      counters: then the new block is used at once. */
  predicate FreshSeen(lay: seq<Block>, size: int) {
    lay == [] || FreeBytes(lay[|lay|-1]) >= size + MINOR_SIZE
  }

  lemma FreshAfter(lay: seq<Block>, size: int, i: int, diff: int)
    requires SizeOk(size) && 0 <= i && (i < |lay| ==> diff == FreeBytes(lay[i]))
    ensures i + 1 == |lay| ==> (FreshSeen(lay, size) <==> diff >= Need(size))
  {
  }

  /** Block k is one of those that a search which ended on block i has looked at. */
  predicate Seen(lay: seq<Block>, bet: int, size: int, grown: bool, i: int, k: int) {
    var st := StartOf(lay, bet, size);
    if grown then 0 <= k < |lay| || (k == |lay| && FreshSeen(lay, size))
    else if st <= i then st <= k <= i
    else 0 <= k <= i || st <= k < |lay|
  }

  /** The best bet after a search: the old one, or a block it looked at with more free
      bytes; no block it looked at had more. */
  predicate BetAfter(lay0: seq<Block>, space: seq<Block>, bet0: int, size: int, grown: bool, i: int, bet: int) {
    && (bet == bet0 || FreeAt(space, bet0) < FreeAt(space, bet))
    && (forall k :: 0 <= k < |space| && Seen(lay0, bet0, size, grown, i, k) ==>
          FreeBytes(space[k]) <= FreeAt(space, bet))
    && (bet == bet0 || (IndexOf(space, bet) < |space| && Seen(lay0, bet0, size, grown, i, IndexOf(space, bet))))
  }

  lemma NotedDone(lay0: seq<Block>, space: seq<Block>, bet0: int, size: int,
                  started: bool, grown: bool, i: int, bet: int)
    requires 0 <= i < |space|
    requires Noted(lay0, space, bet0, size, started, if grown && !FreshSeen(lay0, size) then i else i + 1, bet)
    requires grown ==> !started && i == |lay0| && |space| == |lay0| + 1
    requires !grown ==> space == lay0 && Sweeping(lay0, bet0, size, started, i) && Chosen(lay0, bet0, size, i)
    ensures BetAfter(lay0, space, bet0, size, grown, i, bet)
  {
    var upto := if grown && !FreshSeen(lay0, size) then i else i + 1;
    forall k | 0 <= k < |space|
      ensures Seen(lay0, bet0, size, grown, i, k) <==> Passed(lay0, bet0, size, started, upto, k)
    {
    }
  }

  /** The best bet after a kfree in block i, at `base`: given up with its block, else block i
      if that now has more free bytes. */
  predicate BetFreed(lay': seq<Block>, gone: bool, base: int, i: int, bet0: int, bet: int) {
    if gone then bet == if bet0 == base then 0 else bet0
    else 0 <= i < |lay'| && bet == if bet0 != 0 && FreeBytes(lay'[i]) > FreeAt(lay', bet0) then base else bet0
  }
}
