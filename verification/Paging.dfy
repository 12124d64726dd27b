/**
 Address-space cloning and teardown of kernel/paging.c: two-level page tables,
 deep copies of private tables, kernel tables shared by identity.  Running out of
 frames panics the kernel; here it is the result null or false.  The tables
 themselves come from the kernel heap, whose own frames are not part of this
 model.
 */
module Paging {
  import opened Frames
  import opened Machine

  const ENTRIES := 1024

  datatype Page = Page(present: bool, rw: bool, user: bool, accessed: bool, dirty: bool,
                       global: bool, avail: nat, frame: nat)

  const NO_PAGE := Page(false, false, false, false, false, false, 0, 0)

  /** The frames a run of page entries names; 0 names none. */
  function FramesOf(pages: seq<Page>): set<nat> {
    set i | 0 <= i < |pages| && pages[i].frame != 0 :: pages[i].frame
  }

  predicate DistinctFrames(pages: seq<Page>) {
    forall i, j :: 0 <= i < j < |pages| && pages[i].frame != 0 && pages[j].frame != 0 ==>
      pages[i].frame != pages[j].frame
  }

  /** b is what clone_table makes of a: the flags it copies, in a frame of its own. */
  predicate CopyOf(a: Page, b: Page) {
    if a.frame == 0 then b == NO_PAGE
    else b.frame != 0 && b == Page(a.present, a.rw, a.user, false, false, a.global, a.avail, b.frame)
  }

  type Ram = map<nat, seq<int>>

  /** The bytes of a frame. */
  function Content(ram: Ram, f: nat): seq<int> {
    if f in ram then ram[f] else []
  }

  /** Every copied page holds the bytes of its original; frames that were taken
      before keep theirs. */
  ghost predicate SameBytes(ram: Ram, ram': Ram, taken: set<nat>, a: seq<Page>, b: seq<Page>)
    requires |a| == |b|
  {
    && (forall f :: f in taken ==> Content(ram', f) == Content(ram, f))
    && (forall i :: 0 <= i < |a| && a[i].frame != 0 ==> Content(ram', b[i].frame) == Content(ram, a[i].frame))
  }

  /** What a directory slot holds. */
  datatype Slot = Empty | Shared | Own(pages: seq<Page>)

  predicate SlotsOk(slots: seq<Slot>) {
    forall i :: 0 <= i < |slots| && slots[i].Own? ==> |slots[i].pages| == ENTRIES
  }

  /** The frames of the private pages of a directory. */
  function SlotFrames(slots: seq<Slot>): set<nat> {
    if slots == [] then {}
    else SlotFrames(slots[..|slots|-1]) + OwnFrames(slots[|slots|-1])
  }

  function OwnFrames(slot: Slot): set<nat> {
    if slot.Own? then FramesOf(slot.pages) else {}
  }

  /** No frame serves two private pages. */
  predicate DistinctSlots(slots: seq<Slot>) {
    && (forall i :: 0 <= i < |slots| && slots[i].Own? ==> DistinctFrames(slots[i].pages))
    && (forall i, k :: 0 <= i < k < |slots| ==> OwnFrames(slots[i]) !! OwnFrames(slots[k]))
  }

  /** The first n slots of `copy` clone those of `slots`; the rest are empty. */
  predicate Cloned(slots: seq<Slot>, copy: seq<Slot>, n: int)
    requires |slots| == |copy|
  {
    && (forall i :: 0 <= i < n && i < |slots| ==> ClonedSlot(slots[i], copy[i]))
    && (forall i :: 0 <= n <= i < |slots| ==> copy[i] == Empty)
  }

  predicate ClonedSlot(a: Slot, b: Slot) {
    match a
    case Empty => b == Empty
    case Shared => b == Shared
    case Own(pages) =>
      && b.Own? && |b.pages| == |pages|
      && forall j :: 0 <= j < |pages| ==> CopyOf(pages[j], b.pages[j])
  }

  /** Private pages of `copy` hold the bytes their originals had in ram0, and the
      frames that were taken then keep theirs. */
  ghost predicate CopiedBytes(ram0: Ram, ram: Ram, taken: set<nat>, slots: seq<Slot>, copy: seq<Slot>)
    requires |slots| == |copy|
  {
    && (forall f :: f in taken ==> Content(ram, f) == Content(ram0, f))
    && (forall i :: 0 <= i < |slots| && slots[i].Own? && copy[i].Own? && |slots[i].pages| == |copy[i].pages| ==>
          PagesBytes(ram0, ram, slots[i].pages, copy[i].pages))
  }

  ghost predicate PagesBytes(ram0: Ram, ram: Ram, a: seq<Page>, b: seq<Page>)
    requires |a| == |b|
  {
    forall j :: 0 <= j < |a| && a[j].frame != 0 ==> Content(ram, b[j].frame) == Content(ram0, a[j].frame)
  }

  lemma {:induction false} OneSlot(slots: seq<Slot>, i: int)
    requires 0 <= i < |slots|
    ensures OwnFrames(slots[i]) <= SlotFrames(slots)
    decreases |slots|
  {
    if i < |slots| - 1 { OneSlot(slots[..|slots|-1], i); }
  }

  lemma {:induction false} SlotUpdate(slots: seq<Slot>, i: int, slot: Slot)
    requires 0 <= i < |slots| && OwnFrames(slots[i]) == {}
    ensures SlotFrames(slots[i := slot]) == SlotFrames(slots) + OwnFrames(slot)
    decreases |slots|
  {
    var s := slots[i := slot];
    if i == |slots| - 1 {
      assert s[..|s|-1] == slots[..|slots|-1];
    } else {
      assert s[..|s|-1] == slots[..|slots|-1][i := slot];
      SlotUpdate(slots[..|slots|-1], i, slot);
    }
  }

  lemma {:induction false} EmptySlots(slots: seq<Slot>)
    requires forall i :: 0 <= i < |slots| ==> slots[i] == Empty
    ensures SlotFrames(slots) == {}
    decreases |slots|
  {
    if slots != [] { EmptySlots(slots[..|slots|-1]); }
  }

  lemma NoSlots(copy: seq<Slot>, ram: Ram, taken: set<nat>, slots: seq<Slot>)
    requires |copy| == |slots| && forall i :: 0 <= i < |copy| ==> copy[i] == Empty
    ensures SlotFrames(copy) == {} && DistinctSlots(copy) && Cloned(slots, copy, 0)
    ensures CopiedBytes(ram, ram, taken, slots, copy)
  {
    EmptySlots(copy);
  }

  lemma AddShared(slots: seq<Slot>, copy: seq<Slot>, i: int, ram0: Ram, ram: Ram, taken: set<nat>)
    requires |slots| == |copy| && 0 <= i < |slots| && slots[i] == Shared
    requires Cloned(slots, copy, i) && DistinctSlots(copy) && CopiedBytes(ram0, ram, taken, slots, copy)
    ensures SlotFrames(copy[i := Shared]) == SlotFrames(copy)
    ensures Cloned(slots, copy[i := Shared], i + 1) && DistinctSlots(copy[i := Shared])
    ensures CopiedBytes(ram0, ram, taken, slots, copy[i := Shared])
  {
    SlotUpdate(copy, i, Shared);
  }

  lemma SkipEmpty(slots: seq<Slot>, copy: seq<Slot>, i: int)
    requires |slots| == |copy| && 0 <= i < |slots| && slots[i] == Empty && Cloned(slots, copy, i)
    ensures Cloned(slots, copy, i + 1)
  {
  }

  /** A freshly cloned table goes into slot i. */
  lemma AddOwn(slots: seq<Slot>, copy: seq<Slot>, i: int, pages: seq<Page>,
               ram0: Ram, ram1: Ram, ram: Ram, taken: set<nat>)
    requires |slots| == |copy| && 0 <= i < |slots| && slots[i].Own? && |slots[i].pages| == |pages|
    requires Cloned(slots, copy, i) && DistinctSlots(copy) && CopiedBytes(ram0, ram1, taken, slots, copy)
    requires OwnFrames(slots[i]) <= taken
    requires DistinctFrames(pages) && FramesOf(pages) !! (taken + SlotFrames(copy))
    requires forall j :: 0 <= j < |pages| ==> CopyOf(slots[i].pages[j], pages[j])
    requires SameBytes(ram1, ram, taken + SlotFrames(copy), slots[i].pages, pages)
    ensures SlotFrames(copy[i := Own(pages)]) == SlotFrames(copy) + FramesOf(pages)
    ensures Cloned(slots, copy[i := Own(pages)], i + 1) && DistinctSlots(copy[i := Own(pages)])
    ensures CopiedBytes(ram0, ram, taken, slots, copy[i := Own(pages)])
  {
    SlotUpdate(copy, i, Own(pages));
    forall k | 0 <= k < |copy| ensures OwnFrames(copy[k]) <= SlotFrames(copy) {
      OneSlot(copy, k);
    }
    AddOwnBytes(slots, copy, i, pages, ram0, ram1, ram, taken);
  }

  lemma AddOwnBytes(slots: seq<Slot>, copy: seq<Slot>, i: int, pages: seq<Page>,
                    ram0: Ram, ram1: Ram, ram: Ram, taken: set<nat>)
    requires |slots| == |copy| && 0 <= i < |slots| && slots[i].Own? && |slots[i].pages| == |pages|
    requires Cloned(slots, copy, i) && CopiedBytes(ram0, ram1, taken, slots, copy)
    requires OwnFrames(slots[i]) <= taken
    requires SameBytes(ram1, ram, taken + SlotFrames(copy), slots[i].pages, pages)
    ensures CopiedBytes(ram0, ram, taken, slots, copy[i := Own(pages)])
  {
    var copy' := copy[i := Own(pages)];
    forall k | 0 <= k < |slots| && slots[k].Own? && copy'[k].Own? && |slots[k].pages| == |copy'[k].pages|
      ensures PagesBytes(ram0, ram, slots[k].pages, copy'[k].pages)
    {
      var a, b := slots[k].pages, copy'[k].pages;
      OneSlot(copy, k);
      forall j | 0 <= j < |a| && a[j].frame != 0 ensures Content(ram, b[j].frame) == Content(ram0, a[j].frame) {
        if k == i {
          assert a[j].frame in FramesOf(a);
        } else {
          assert PagesBytes(ram0, ram1, a, b);
          assert ClonedSlot(slots[k], copy[k]) && CopyOf(a[j], b[j]);
          assert b[j].frame in FramesOf(b);
        }
      }
    }
  }

  class PageTable {
    var pages: seq<Page>

    constructor ()
      ensures pages == seq(ENTRIES, _ => NO_PAGE)
    {
      pages := seq(ENTRIES, _ => NO_PAGE);
    }
  }

  class PageDir {
    var tables: seq<PageTable?>

    constructor ()
      ensures tables == seq(ENTRIES, _ => null)
    {
      tables := seq(ENTRIES, _ => null);
    }
  }

  class Mmu {
    const fm: FrameMap
    const kernelDir: PageDir
    var ram: Ram

    /** All frames free but frame 0, which page entries cannot name. */
    constructor (nframes: nat, kernelDir: PageDir)
      requires 32 <= nframes <= 0x10_0000
      ensures Valid() && this.kernelDir == kernelDir && fm.Taken() == {0}
      ensures fresh(fm) && fresh(fm.frames)
    {
      fm := new FrameMap(nframes);
      this.kernelDir := kernelDir;
      ram := map[];
      new;
      fm.SetFrame(0);
    }

    ghost predicate Valid()
      reads fm.frames
    {
      fm.Valid() && 32 * fm.frames.Length <= 0x10_0000 && 0 in fm.Taken()
    }

    /** Every frame that first_frame looks at is taken. */
    ghost predicate NoFrames()
      reads fm.frames
    {
      forall f :: 0 <= f < fm.Limit() ==> f in fm.Taken()
    }

    /** alloc_frame */
    method AllocFrame(page: Page, kernel: bool, rw: bool) returns (ok: bool, page': Page)
      requires Valid()
      modifies fm.frames
      ensures Valid()
      ensures page.frame != 0 ==> ok && page' == page && fm.Taken() == old(fm.Taken())
      ensures page.frame == 0 && ok ==> page'.frame !in old(fm.Taken()) && page'.frame != 0
      ensures page.frame == 0 && ok ==> page'.frame == FirstFree(old(fm.Taken()), 0, fm.Limit())
      ensures page.frame == 0 && ok ==> fm.Taken() == old(fm.Taken()) + {page'.frame}
      ensures page.frame == 0 && ok ==>
                page' == page.(present := true, rw := rw, user := !kernel, global := false, frame := page'.frame)
      ensures !ok ==> fm.Taken() == old(fm.Taken()) && NoFrames()
      ensures ok <==> page.frame != 0 || !old(NoFrames())
    {
      if page.frame != 0 { return true, page; }
      var i := fm.FirstFrame();
      FirstFreeIsLeast(fm.Taken(), 0, fm.Limit());
      if i == NO_FRAME { return false, page; }
      fm.SetFrame(i * PAGE_SIZE);
      page' := page.(present := true, rw := rw, user := !kernel, global := false, frame := i);
      ok := true;
    }

    /** free_frame */
    method FreeFrame(page: Page) returns (page': Page)
      requires Valid() && page.frame < 32 * fm.frames.Length
      modifies fm.frames
      ensures Valid()
      ensures page.frame == 0 ==> page' == page
      ensures page.frame != 0 ==> page' == page.(present := false, frame := 0)
      ensures fm.Taken() == if page.frame == 0 then old(fm.Taken()) else old(fm.Taken()) - {page.frame}
    {
      if page.frame == 0 { return page; }
      fm.ClearFrame(page.frame * PAGE_SIZE);
      page' := page.(present := false, frame := 0);
    }

    /** One turn of clone_table's loop for a page that has a frame. */
    method ClonePage(from: Page) returns (ok: bool, page: Page)
      requires Valid() && from.frame != 0 && from.frame in fm.Taken()
      modifies this`ram, fm.frames
      ensures Valid()
      ensures ok ==> CopyOf(from, page) && page.frame !in old(fm.Taken())
      ensures ok ==> fm.Taken() == old(fm.Taken()) + {page.frame}
      ensures ok ==> ram == old(ram)[page.frame := Content(old(ram), from.frame)]
      ensures ok <==> !old(NoFrames())
      ensures !ok ==> NoFrames() && ram == old(ram)
    {
      ok, page := AllocFrame(NO_PAGE, false, false);
      if !ok { return; }
      page := page.(present := from.present, rw := from.rw, user := from.user,
                    global := from.global, avail := from.avail);
      ram := ram[page.frame := Content(ram, from.frame)];
    }

    /** clone_table */
    method CloneTable(src: PageTable) returns (table: PageTable?)
      requires Valid() && |src.pages| == ENTRIES && FramesOf(src.pages) <= fm.Taken()
      modifies this`ram, fm.frames
      ensures Valid()
      ensures table == null ==> NoFrames()
      ensures table != null ==> fresh(table) && |table.pages| == ENTRIES
      ensures table != null ==> forall i :: 0 <= i < ENTRIES ==> CopyOf(src.pages[i], table.pages[i])
      ensures table != null ==> DistinctFrames(table.pages) && FramesOf(table.pages) !! old(fm.Taken())
      ensures table != null ==> fm.Taken() == old(fm.Taken()) + FramesOf(table.pages)
      ensures table != null ==> SameBytes(old(ram), ram, old(fm.Taken()), src.pages, table.pages)
    {
      hide FrameMap.Taken, Mmu.NoFrames, FirstFree;
      table := new PageTable();
      ghost var taken, ram0 := fm.Taken(), ram;
      var i := 0;
      while i < ENTRIES
        invariant 0 <= i <= ENTRIES && Valid() && |table.pages| == ENTRIES
        invariant forall k :: 0 <= k < i ==> CopyOf(src.pages[k], table.pages[k])
        invariant forall k :: i <= k < ENTRIES ==> table.pages[k] == NO_PAGE
        invariant DistinctFrames(table.pages) && FramesOf(table.pages) !! taken
        invariant fm.Taken() == taken + FramesOf(table.pages)
        invariant forall f :: f in taken ==> Content(ram, f) == Content(ram0, f)
        invariant forall k :: 0 <= k < i && src.pages[k].frame != 0 ==>
                    Content(ram, table.pages[k].frame) == Content(ram0, src.pages[k].frame)
      {
        var from := src.pages[i];
        if from.frame != 0 {
          assert from.frame in FramesOf(src.pages);
          var ok, page := ClonePage(from);
          if !ok { return null; }
          GrowFrames(table.pages, i, page);
          table.pages := table.pages[i := page];
        }
        i := i + 1;
      }
    }

    // ---- directories ---------------------------------------------------

    ghost predicate SameLength(dir: PageDir)
      reads dir, kernelDir
    {
      |dir.tables| == ENTRIES == |kernelDir.tables|
    }

    /** What a directory's slots hold: the kernel's own table, or a private one. */
    ghost function SlotAt(dir: PageDir, i: int): Slot
      reads dir, kernelDir, dir.tables
      requires SameLength(dir) && 0 <= i < ENTRIES
    {
      if dir.tables[i] == null then Empty
      else if dir.tables[i] == kernelDir.tables[i] then Shared
      else Own(dir.tables[i].pages)
    }

    /** `slots` is what the directory holds, and private tables are its own. */
    ghost predicate Holds(dir: PageDir, slots: seq<Slot>)
      reads dir, kernelDir, dir.tables
    {
      && SameLength(dir) && |slots| == ENTRIES && SlotsOk(slots)
      && (forall i :: 0 <= i < ENTRIES ==> slots[i] == SlotAt(dir, i))
      && (forall i, j :: 0 <= i < j < ENTRIES && slots[i].Own? ==> dir.tables[i] != dir.tables[j])
      && (forall i, j :: 0 <= i < j < ENTRIES && slots[j].Own? ==> dir.tables[i] != dir.tables[j])
    }

    /** clone_directory part-way: the first i slots are done.  `slots` is what src
        holds, `copy` what the clone holds so far. */
    ghost predicate Cloning(src: PageDir, slots: seq<Slot>, dir: PageDir, copy: seq<Slot>, i: int,
                            taken: set<nat>, ram0: Ram)
      reads this`ram, fm.frames, src, dir, kernelDir, src.tables, dir.tables
    {
      && Valid() && 0 <= i <= ENTRIES && Holds(src, slots) && Holds(dir, copy)
      && (forall k :: 0 <= k < i && slots[k].Shared? ==> dir.tables[k] == src.tables[k])
      && Cloned(slots, copy, i) && DistinctSlots(copy)
      && SlotFrames(slots) <= taken
      && SlotFrames(copy) !! taken && fm.Taken() == taken + SlotFrames(copy)
      && CopiedBytes(ram0, ram, taken, slots, copy)
    }

    method CloneShared(src: PageDir, ghost slots: seq<Slot>, dir: PageDir, ghost copy: seq<Slot>, i: int,
                       ghost taken: set<nat>, ghost ram0: Ram) returns (ghost copy': seq<Slot>)
      requires Cloning(src, slots, dir, copy, i, taken, ram0) && i < ENTRIES && src != dir
      requires src.tables[i] != null && kernelDir.tables[i] == src.tables[i] && dir != kernelDir
      requires forall k :: 0 <= k < ENTRIES && copy[k].Own? ==> dir.tables[k] != src.tables[i]
      modifies dir
      ensures Cloning(src, slots, dir, copy', i + 1, taken, ram0) && copy' == copy[i := Shared]
      ensures dir.tables == old(dir.tables)[i := src.tables[i]]
    {
      hide FrameMap.Taken, Mmu.NoFrames, FirstFree, SlotFrames, DistinctSlots, CopiedBytes;
      AddShared(slots, copy, i, ram0, ram, taken);
      copy' := copy[i := Shared];
      dir.tables := dir.tables[i := src.tables[i]];
    }

    method ClonePrivate(src: PageDir, ghost slots: seq<Slot>, dir: PageDir, ghost copy: seq<Slot>, i: int,
                        ghost taken: set<nat>, ghost ram0: Ram) returns (ok: bool, ghost copy': seq<Slot>)
      requires Cloning(src, slots, dir, copy, i, taken, ram0) && i < ENTRIES && src != dir
      requires src.tables[i] != null && kernelDir.tables[i] != src.tables[i] && dir != kernelDir
      modifies this`ram, fm.frames, dir
      ensures Valid() && Holds(src, slots) && (!ok ==> NoFrames())
      ensures ok ==> Cloning(src, slots, dir, copy', i + 1, taken, ram0)
      ensures ok ==> copy'[i].Own? && copy' == copy[i := copy'[i]]
      ensures ok ==> fresh(dir.tables[i]) && dir.tables == old(dir.tables)[i := dir.tables[i]]
    {
      hide FrameMap.Taken, Mmu.NoFrames, FirstFree, SlotFrames, DistinctSlots, CopiedBytes, Cloned;
      ghost var ram1 := ram;
      OneSlot(slots, i);
      var table := CloneTable(src.tables[i]);
      if table == null { return false, []; }
      AddOwn(slots, copy, i, table.pages, ram0, ram1, ram, taken);
      copy' := copy[i := Own(table.pages)];
      dir.tables := dir.tables[i := table];
      ok := true;
    }

    /** clone_directory */
    method CloneDirectory(src: PageDir, ghost slots: seq<Slot>) returns (dir: PageDir?, ghost copy: seq<Slot>)
      requires Valid() && Holds(src, slots) && SlotFrames(slots) <= fm.Taken()
      modifies this`ram, fm.frames
      ensures Valid() && Holds(src, slots) && (dir == null ==> NoFrames())
      ensures dir != null ==> fresh(dir) && Cloning(src, slots, dir, copy, ENTRIES, old(fm.Taken()), old(ram))
      ensures dir != null ==> forall i :: 0 <= i < ENTRIES && copy[i].Own? ==> fresh(dir.tables[i])
    {
      hide FrameMap.Taken, Mmu.NoFrames, FirstFree, SlotFrames, DistinctSlots, CopiedBytes, Cloned;
      dir := new PageDir();
      copy := seq(ENTRIES, _ => Empty);
      NoSlots(copy, ram, fm.Taken(), slots);
      ghost var taken, ram0 := fm.Taken(), ram;
      var i := 0;
      while i < ENTRIES
        invariant 0 <= i <= ENTRIES && fresh(dir) && Cloning(src, slots, dir, copy, i, taken, ram0)
        invariant forall k :: 0 <= k < ENTRIES && copy[k].Own? ==> fresh(dir.tables[k])
      {
        if src.tables[i] != null {
          if kernelDir.tables[i] == src.tables[i] {
            copy := CloneShared(src, slots, dir, copy, i, taken, ram0);
          } else {
            var ok;
            ok, copy := ClonePrivate(src, slots, dir, copy, i, taken, ram0);
            if !ok { return null, []; }
          }
        } else {
          SkipEmpty(slots, copy, i);
        }
        i := i + 1;
      }
    }

    /** free_table */
    method FreeTable(table: PageTable)
      requires Valid() && FramesOf(table.pages) <= fm.Taken() && DistinctFrames(table.pages)
      modifies table, fm.frames
      ensures Valid() && |table.pages| == |old(table.pages)|
      ensures fm.Taken() == old(fm.Taken()) - old(FramesOf(table.pages))
      ensures FramesOf(table.pages) == {}
    {
      hide FrameMap.Taken, Mmu.NoFrames, FirstFree;
      ghost var taken, was := fm.Taken(), table.pages;
      var i := 0;
      while i < |table.pages|
        invariant 0 <= i <= |table.pages| == |was| && Valid()
        invariant forall k :: 0 <= k < i ==> table.pages[k].frame == 0
        invariant forall k :: i <= k < |was| ==> table.pages[k] == was[k]
        invariant fm.Taken() == taken - FramesOf(was[..i])
      {
        FramesStep(was, i);
        fm.TakenInRange(table.pages[i].frame);
        var page := FreeFrame(table.pages[i]);
        table.pages := table.pages[i := page];
        i := i + 1;
      }
      assert was[..i] == was;
    }

    /** The tables that belong to this directory alone. */
    ghost function PrivateTables(dir: PageDir): set<PageTable>
      reads dir, kernelDir
      requires SameLength(dir)
    {
      set i | 0 <= i < ENTRIES && dir.tables[i] != null && dir.tables[i] != kernelDir.tables[i] :: dir.tables[i]
    }

    /** free_dir: exactly the frames of the private pages are given back. */
    method FreeDir(dir: PageDir, ghost slots: seq<Slot>)
      requires Valid() && Holds(dir, slots) && DistinctSlots(slots) && SlotFrames(slots) <= fm.Taken()
      modifies fm.frames, PrivateTables(dir)
      ensures Valid() && fm.Taken() == old(fm.Taken()) - SlotFrames(slots)
    {
      hide FrameMap.Taken, Mmu.NoFrames, FirstFree, SlotFrames, DistinctSlots, DistinctFrames;
      ghost var taken := fm.Taken();
      NoPrefix(slots);
      var i := 0;
      while i < ENTRIES
        invariant 0 <= i <= ENTRIES && Valid() && SameLength(dir)
        invariant forall k :: i <= k < ENTRIES ==> slots[k] == SlotAt(dir, k)
        invariant fm.Taken() == taken - SlotFrames(slots[..i])
      {
        PrefixStep(slots, i);
        if dir.tables[i] != null && kernelDir.tables[i] != dir.tables[i] {
          assert dir.tables[i] in PrivateTables(dir);
          FreeTable(dir.tables[i]);
        }
        i := i + 1;
      }
      assert slots[..i] == slots;
    }
  }

  lemma NoPrefix(slots: seq<Slot>)
    ensures SlotFrames(slots[..0]) == {}
  {
  }

  /** Slot i's frames are still taken when the slots before it have been freed. */
  lemma PrefixStep(slots: seq<Slot>, i: int)
    requires 0 <= i < |slots| && DistinctSlots(slots)
    ensures SlotFrames(slots[..i+1]) == SlotFrames(slots[..i]) + OwnFrames(slots[i])
    ensures OwnFrames(slots[i]) <= SlotFrames(slots) && OwnFrames(slots[i]) !! SlotFrames(slots[..i])
    ensures slots[i].Own? ==> DistinctFrames(slots[i].pages)
  {
    assert slots[..i+1][..i] == slots[..i];
    OneSlot(slots, i);
    PrefixApart(slots, i, i);
  }

  lemma {:induction false} PrefixApart(slots: seq<Slot>, i: int, n: int)
    requires 0 <= n <= i < |slots| && DistinctSlots(slots)
    ensures OwnFrames(slots[i]) !! SlotFrames(slots[..n])
    decreases n
  {
    if n > 0 {
      PrefixApart(slots, i, n - 1);
      assert slots[..n][..n-1] == slots[..n-1];
    }
  }

  /** Freeing a clone gives back exactly the frames that cloning took. */
  method CloneAndFree(m: Mmu, src: PageDir, ghost slots: seq<Slot>) returns (ok: bool, ghost copy: seq<Slot>)
    requires m.Valid() && m.Holds(src, slots) && SlotFrames(slots) <= m.fm.Taken()
    modifies m, m.fm.frames
    ensures m.Valid() && (ok ==> m.fm.Taken() == old(m.fm.Taken()) && m.Holds(src, slots))
    ensures ok ==> forall f :: f in old(m.fm.Taken()) ==> Content(m.ram, f) == Content(old(m.ram), f)
    ensures !ok ==> m.NoFrames()
    ensures ok ==> |copy| == |slots| && Cloned(slots, copy, |slots|) && SlotFrames(copy) !! old(m.fm.Taken())
  {
    hide FrameMap.Taken, Mmu.NoFrames, FirstFree, SlotFrames, DistinctSlots, Cloned;
    var dir;
    dir, copy := m.CloneDirectory(src, slots);
    if dir == null { return false, copy; }
    m.FreeDir(dir, copy);
    ok := true;
  }

  /** The bytes page j of slot i shows, if it is private and mapped. */
  function PageBytes(ram: Ram, slots: seq<Slot>, i: int, j: int): seq<int>
    requires 0 <= i < |slots|
  {
    if slots[i].Own? && 0 <= j < |slots[i].pages| && slots[i].pages[j].frame != 0
    then Content(ram, slots[i].pages[j].frame) else []
  }

  predicate HasPage(slots: seq<Slot>, i: int, j: int) {
    0 <= i < |slots| && slots[i].Own? && 0 <= j < |slots[i].pages| && slots[i].pages[j].frame != 0
  }

  /** After a clone, a store into a private page of either space changes that page
      there, no other private page there, and no private page of the other. */
  lemma WritesStayPrivate(ram: Ram, a: seq<Slot>, b: seq<Slot>, i: int, j: int, bytes: seq<int>, k: int, l: int)
    requires DistinctSlots(a) && SlotFrames(a) !! SlotFrames(b) && HasPage(a, i, j)
    ensures PageBytes(ram[a[i].pages[j].frame := bytes], a, i, j) == bytes
    ensures HasPage(a, k, l) && (k != i || l != j) ==>
              PageBytes(ram[a[i].pages[j].frame := bytes], a, k, l) == PageBytes(ram, a, k, l)
    ensures HasPage(b, k, l) ==>
              PageBytes(ram[a[i].pages[j].frame := bytes], b, k, l) == PageBytes(ram, b, k, l)
  {
    var f := a[i].pages[j].frame;
    OneSlot(a, i);
    assert f in FramesOf(a[i].pages);
    if HasPage(b, k, l) {
      OneSlot(b, k);
      assert b[k].pages[l].frame in FramesOf(b[k].pages);
    }
    if HasPage(a, k, l) && (k != i || l != j) {
      assert a[k].pages[l].frame in FramesOf(a[k].pages);
      if k != i {
        assert OwnFrames(a[if i < k then i else k]) !! OwnFrames(a[if i < k then k else i]);
      } else {
        assert DistinctFrames(a[i].pages);
      }
    }
  }

  /** Right after the clone both spaces show the same bytes on every private page. */
  lemma CloneShowsSame(ram0: Ram, ram: Ram, taken: set<nat>, slots: seq<Slot>, copy: seq<Slot>, i: int, j: int)
    requires |slots| == |copy| && Cloned(slots, copy, |slots|) && CopiedBytes(ram0, ram, taken, slots, copy)
    requires SlotFrames(slots) <= taken && HasPage(slots, i, j)
    ensures HasPage(copy, i, j)
    ensures PageBytes(ram, copy, i, j) == PageBytes(ram, slots, i, j) == PageBytes(ram0, slots, i, j)
  {
    assert ClonedSlot(slots[i], copy[i]);
    assert CopyOf(slots[i].pages[j], copy[i].pages[j]);
    OneSlot(slots, i);
    assert slots[i].pages[j].frame in FramesOf(slots[i].pages);
    assert PagesBytes(ram0, ram, slots[i].pages, copy[i].pages);
  }

  /** One call of alloc_frame or free_frame on page entry `page`. */
  datatype FrameCall = Alloc(page: nat, kernel: bool, rw: bool) | Free(page: nat)

  /** Whether entry p has a frame after the calls: as its last call left it. */
  predicate HasFrame(had: bool, calls: seq<FrameCall>, p: nat) {
    if calls == [] then had
    else if calls[|calls|-1].page == p then calls[|calls|-1].Alloc?
    else HasFrame(had, calls[..|calls|-1], p)
  }

  /** Any run of alloc_frame and free_frame over any page entries: no frame is
      ever given to two entries, the frames taken by others are untouched, and exactly
      the entries last allocated have frames. */
  method RunFrameCalls(m: Mmu, start: seq<Page>, calls: seq<FrameCall>) returns (ok: bool, pages: seq<Page>)
    requires m.Valid() && DistinctFrames(start) && FramesOf(start) <= m.fm.Taken()
    requires forall i :: 0 <= i < |calls| ==> calls[i].page < |start|
    modifies m.fm.frames
    ensures m.Valid() && |pages| == |start|
    ensures DistinctFrames(pages) && FramesOf(pages) <= m.fm.Taken()
    ensures m.fm.Taken() - FramesOf(pages) == old(m.fm.Taken()) - FramesOf(start)
    ensures !ok ==> m.NoFrames()
    ensures ok ==> forall p :: 0 <= p < |pages| ==> (pages[p].frame != 0 <==> HasFrame(start[p].frame != 0, calls, p))
  {
    hide FrameMap.Taken, Mmu.NoFrames, FirstFree;
    pages, ok := start, true;
    ghost var others := m.fm.Taken() - FramesOf(start);
    var i := 0;
    while i < |calls|
      invariant 0 <= i <= |calls| && m.Valid() && |pages| == |start| && ok
      invariant DistinctFrames(pages) && others !! FramesOf(pages) && m.fm.Taken() == others + FramesOf(pages)
      invariant forall q :: 0 <= q < |pages| ==>
                  (pages[q].frame != 0 <==> HasFrame(start[q].frame != 0, calls[..i], q))
    {
      var p := calls[i].page;
      assert calls[..i+1][..i] == calls[..i];
      if calls[i].Alloc? {
        var page;
        ok, page := m.AllocFrame(pages[p], calls[i].kernel, calls[i].rw);
        if !ok { return; }
        if pages[p].frame == 0 { GrowFrames(pages, p, page); } else { assert pages[p := page] == pages; }
        pages := pages[p := page];
      } else {
        DropFrame(pages, p);
        m.fm.TakenInRange(pages[p].frame);
        var page := m.FreeFrame(pages[p]);
        pages := pages[p := page];
      }
      i := i + 1;
    }
    assert calls[..i] == calls;
  }

  /** Taking the frame of entry i away. */
  lemma DropFrame(pages: seq<Page>, i: int)
    requires 0 <= i < |pages| && DistinctFrames(pages)
    ensures pages[i].frame != 0 ==> pages[i].frame in FramesOf(pages)
    ensures pages[i].frame == 0 ==> pages[i := pages[i]] == pages
    ensures pages[i].frame != 0 ==>
              var pages' := pages[i := pages[i].(present := false, frame := 0)];
              DistinctFrames(pages') && FramesOf(pages') == FramesOf(pages) - {pages[i].frame}
  {
    if pages[i].frame != 0 {
      var pages' := pages[i := pages[i].(present := false, frame := 0)];
      forall f | f in FramesOf(pages) - {pages[i].frame} ensures f in FramesOf(pages') {
        var k :| 0 <= k < |pages| && pages[k].frame != 0 && pages[k].frame == f;
        assert pages'[k].frame == f;
      }
    }
  }

  /** The frames of one more entry; with distinct frames it is still taken. */
  lemma FramesStep(pages: seq<Page>, i: int)
    requires 0 <= i < |pages| && DistinctFrames(pages)
    ensures FramesOf(pages[..i+1]) == FramesOf(pages[..i]) + (if pages[i].frame == 0 then {} else {pages[i].frame})
    ensures pages[i].frame != 0 ==> pages[i].frame in FramesOf(pages) && pages[i].frame !in FramesOf(pages[..i])
  {
    var a, b := pages[..i], pages[..i+1];
    assert b == a + [pages[i]];
    forall f | f in FramesOf(a) + (if pages[i].frame == 0 then {} else {pages[i].frame}) ensures f in FramesOf(b) {
      if f in FramesOf(a) {
        var k :| 0 <= k < |a| && a[k].frame != 0 && a[k].frame == f;
        assert b[k].frame == f;
      } else {
        assert b[i].frame == f;
      }
    }
  }

  /** Giving entry i, which named no frame, a frame of its own. */
  lemma GrowFrames(pages: seq<Page>, i: int, page: Page)
    requires 0 <= i < |pages| && pages[i].frame == 0 && page.frame != 0
    requires DistinctFrames(pages) && page.frame !in FramesOf(pages)
    ensures FramesOf(pages[i := page]) == FramesOf(pages) + {page.frame}
    ensures DistinctFrames(pages[i := page])
  {
    var pages' := pages[i := page];
    forall f | f in FramesOf(pages) + {page.frame} ensures f in FramesOf(pages') {
      if f in FramesOf(pages) {
        var k :| 0 <= k < |pages| && pages[k].frame != 0 && pages[k].frame == f;
        assert pages'[k].frame == f;
      } else {
        assert pages'[i].frame == f;
      }
    }
  }
}
