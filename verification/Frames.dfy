/**
 The physical frame bitmap of kernel/paging.c: 32 frames to a word, refined to a
 set of frame numbers.
 */
module Frames {
  import opened Machine

  const NO_FRAME := 0xFFFF_FFFF

  function Mask(j: nat): bv32
    requires j < 32
  {
    (1 as bv32) << j
  }

  // The word operations, named so that proofs can treat them as wholes.

  function And(w: bv32, m: bv32): bv32 { w & m }

  function SetMask(w: bv32, m: bv32): bv32 { w | m }

  function ClearMask(w: bv32, m: bv32): bv32 { w & !m }

  predicate Bit(w: bv32, j: nat)
    requires j < 32
  {
    And(w, Mask(j)) != 0
  }

  lemma MasksApart(j: nat, k: nat)
    requires j < 32 && k < 32 && j != k
    ensures And(Mask(j), Mask(k)) == 0
  {
  }

  lemma MaskNonZero(j: nat)
    requires j < 32
    ensures Mask(j) != 0
  {
  }

  lemma SetApart(w: bv32, a: bv32, b: bv32)
    requires a & b == 0
    ensures (w | a) & b == w & b
  {
  }

  lemma ClearApart(w: bv32, a: bv32, b: bv32)
    requires a & b == 0
    ensures (w & !a) & b == w & b
  {
  }

  lemma SetOther(w: bv32, a: bv32, b: bv32)
    requires And(a, b) == 0
    ensures And(SetMask(w, a), b) == And(w, b)
  {
    SetApart(w, a, b);
  }

  lemma ClearOther(w: bv32, a: bv32, b: bv32)
    requires And(a, b) == 0
    ensures And(ClearMask(w, a), b) == And(w, b)
  {
    ClearApart(w, a, b);
  }

  lemma OwnBits(w: bv32, a: bv32)
    ensures And(SetMask(w, a), a) == a && And(ClearMask(w, a), a) == 0
  {
  }

  /** Setting or clearing bit j changes bit j and no other. */
  lemma ChangeBit(w: bv32, j: nat, k: nat)
    requires j < 32 && k < 32
    ensures Bit(SetMask(w, Mask(j)), k) <==> k == j || Bit(w, k)
    ensures Bit(ClearMask(w, Mask(j)), k) <==> k != j && Bit(w, k)
  {
    hide Mask, And, SetMask, ClearMask;
    MaskNonZero(j);
    if j == k {
      OwnBits(w, Mask(j));
    } else {
      MasksApart(j, k);
      SetOther(w, Mask(j), Mask(k));
      ClearOther(w, Mask(j), Mask(k));
    }
  }

  lemma AllOnes(w: bv32, j: nat)
    requires w == 0xFFFF_FFFF && j < 32
    ensures Bit(w, j)
  {
    hide Mask, And;
    MaskNonZero(j);
    AndOnes(Mask(j));
  }

  lemma AndOnes(m: bv32)
    ensures And(0xFFFF_FFFF, m) == m
  {
  }

  /** The least number from `from` up to `limit` outside `taken`, or NO_FRAME. */
  ghost function FirstFree(taken: set<nat>, from: nat, limit: nat): nat
    decreases limit - from
  {
    if from >= limit then NO_FRAME
    else if from !in taken then from
    else FirstFree(taken, from + 1, limit)
  }

  /** FirstFree is the least free frame below the limit, if there is one. */
  lemma {:induction false} FirstFreeIsLeast(taken: set<nat>, from: nat, limit: nat)
    requires from <= limit <= NO_FRAME
    ensures var f := FirstFree(taken, from, limit);
            && (f == NO_FRAME <==> forall g :: from <= g < limit ==> g in taken)
            && (f != NO_FRAME ==> from <= f < limit && f !in taken && forall g :: from <= g < f ==> g in taken)
    decreases limit - from
  {
    if from < limit && from in taken { FirstFreeIsLeast(taken, from + 1, limit); }
  }

  lemma {:induction false} FirstFreeSkip(taken: set<nat>, from: nat, upto: nat, limit: nat)
    requires from <= upto <= limit && forall g :: from <= g < upto ==> g in taken
    ensures FirstFree(taken, from, limit) == FirstFree(taken, upto, limit)
    decreases upto
  {
    if from < upto { FirstFreeSkip(taken, from, upto - 1, limit); }
  }

  lemma FirstFreeEnds(taken: set<nat>, from: nat, limit: nat)
    requires from == limit || (from < limit && from !in taken)
    ensures FirstFree(taken, from, limit) == if from == limit then NO_FRAME else from
  {
  }

  class FrameMap {
    const frames: array<bv32>
    const nframes: nat

    /** The set of frame numbers whose bit is set. */
    ghost function Taken(): set<nat>
      reads frames
    {
      set f: nat | f < 32 * frames.Length && Bit(frames[f / 32], f % 32)
    }

    lemma TakenInRange(f: nat)
      requires f in Taken()
      ensures f < 32 * frames.Length
    {
    }

    /** Frames that first_frame looks at: those of the whole words. */
    ghost function Limit(): nat {
      32 * (nframes / 32)
    }

    ghost predicate Valid() {
      nframes / 32 <= frames.Length && 32 * frames.Length <= NO_FRAME
    }

    constructor (nframes: nat)
      requires nframes < NO_FRAME
      ensures Valid() && this.nframes == nframes && fresh(frames) && Taken() == {}
      ensures frames.Length == nframes / 32
    {
      this.nframes := nframes;
      frames := new bv32[nframes / 32](_ => 0);
    }

    method SetFrame(addr: nat)
      requires addr / PAGE_SIZE < 32 * frames.Length
      modifies frames
      ensures Taken() == old(Taken()) + {addr / PAGE_SIZE}
    {
      hide Mask, And, SetMask, ClearMask;
      var frame := addr / PAGE_SIZE;
      var i, off := frame / 32, frame % 32;
      ghost var was := frames[..];
      frames[i] := SetMask(frames[i], Mask(off));
      forall f: nat | f < 32 * frames.Length
        ensures Bit(frames[f / 32], f % 32) <==> f == frame || Bit(was[f / 32], f % 32)
      {
        if f / 32 == i { ChangeBit(was[i], off, f % 32); }
      }
    }

    method ClearFrame(addr: nat)
      requires addr / PAGE_SIZE < 32 * frames.Length
      modifies frames
      ensures Taken() == old(Taken()) - {addr / PAGE_SIZE}
    {
      hide Mask, And, SetMask, ClearMask;
      var frame := addr / PAGE_SIZE;
      var i, off := frame / 32, frame % 32;
      ghost var was := frames[..];
      frames[i] := ClearMask(frames[i], Mask(off));
      forall f: nat | f < 32 * frames.Length
        ensures Bit(frames[f / 32], f % 32) <==> f != frame && Bit(was[f / 32], f % 32)
      {
        if f / 32 == i { ChangeBit(was[i], off, f % 32); }
      }
    }

    /** first_frame's inner loop: the lowest clear bit of word i, or 32. */
    method FirstBit(i: nat) returns (j: nat)
      requires i < frames.Length
      ensures j <= 32 && (j < 32 ==> !Bit(frames[i], j))
      ensures forall k: nat :: k < j ==> Bit(frames[i], k)
    {
      hide Mask, And;
      if frames[i] != 0xFFFF_FFFF {
        j := 0;
        while j < 32
          invariant 0 <= j <= 32
          invariant forall k: nat :: k < j ==> Bit(frames[i], k)
        {
          if And(frames[i], Mask(j)) == 0 { return; }
          j := j + 1;
        }
      } else {
        j := 32;
        forall k: nat | k < 32 ensures Bit(frames[i], k) { AllOnes(frames[i], k); }
      }
    }

    lemma BitsTaken(i: nat, j: nat)
      requires i < frames.Length && j <= 32 && forall k: nat :: k < j ==> Bit(frames[i], k)
      ensures forall g :: 32 * i <= g < 32 * i + j ==> g in Taken()
    {
      forall g | 32 * i <= g < 32 * i + j ensures g in Taken() {
        assert Bit(frames[i], g - 32 * i);
      }
    }

    lemma BitFree(i: nat, j: nat)
      requires i < frames.Length && j < 32 && !Bit(frames[i], j)
      ensures 32 * i + j !in Taken()
    {
      hide Bit;
      assert (32 * i + j) / 32 == i && (32 * i + j) % 32 == j;
    }

    /** first_frame: the least free frame of the whole words, or 0xFFFFFFFF. */
    method FirstFrame() returns (r: nat)
      requires Valid()
      ensures r == FirstFree(Taken(), 0, Limit())
    {
      hide Bit, FrameMap.Taken, FirstFree;
      FirstFreeEnds(Taken(), Limit(), Limit());
      var i := 0;
      while i < nframes / 32
        invariant 0 <= i <= nframes / 32
        invariant FirstFree(Taken(), 0, Limit()) == FirstFree(Taken(), 32 * i, Limit())
      {
        var j := FirstBit(i);
        BitsTaken(i, j);
        FirstFreeSkip(Taken(), 32 * i, 32 * i + j, Limit());
        if j < 32 {
          BitFree(i, j);
          FirstFreeEnds(Taken(), 32 * i + j, Limit());
          return 32 * i + j;
        }
        i := i + 1;
      }
      r := NO_FRAME;
    }
  }
}
