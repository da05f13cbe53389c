/** Page directories under 32-bit paging (Intel SDM volume 3A, section 4.3): setup_kvm and
    vmm_copy_pgdir of process.c, and vmm_free_pagedir of vmm.c, over the frame allocator. */
module Paging {
  import opened Common
  import opened Frames

  /** KERNBASE >> 22: the first directory slot of the kernel half. */
  const KERNEL_SLOT: nat := 768
  /** Directory slots below this one are shared with the kernel's identity map. */
  const SHARED_SLOTS: nat := 4

  /** A directory or table entry: the frame number in the upper 20 bits, flags below. */
  function Entry(frame: nat, flags: nat): (e: nat) {
    frame * PAGE_SIZE + flags % PAGE_SIZE
  }

  function FrameOf(e: nat): (f: nat) {
    e / PAGE_SIZE
  }

  function FlagsOf(e: nat): (f: nat) {
    e % PAGE_SIZE
  }

  predicate Present(e: nat) {
    e % 2 == 1
  }

  type Page = s: seq<nat> | |s| == ENTRIES witness seq(ENTRIES, _ => 0)

  /** Physical memory seen through the direct map: the contents of frames that are in use. */
  type Memory = map<nat, Page>

  const ZEROES: Page := seq(ENTRIES, _ => 0)

  // ----- what a page directory maps -----

  datatype Mapping = Unmapped | Mapped(tableFlags: nat, flags: nat, contents: Page)

  /** What a directory entry maps at table slot j. */
  function SlotView(mem: Memory, e: nat, j: nat): (m: Mapping)
    requires j < ENTRIES
  {
    if !Present(e) || FrameOf(e) !in mem then Unmapped
    else
      var pte := mem[FrameOf(e)][j];
      if !Present(pte) || FrameOf(pte) !in mem then Unmapped
      else Mapped(FlagsOf(e), FlagsOf(pte), mem[FrameOf(pte)])
  }

  /** What user code sees at directory slot i, table slot j. */
  function View(mem: Memory, dir: Page, i: nat, j: nat): (m: Mapping)
    requires i < ENTRIES && j < ENTRIES
  {
    SlotView(mem, dir[i], j)
  }

  /** The table and the pages behind an entry are memory in use. */
  ghost predicate Closed(mem: Memory, e: nat) {
    Present(e) ==> FrameOf(e) in mem && PagesIn(mem, mem[FrameOf(e)], ENTRIES)
  }

  ghost predicate PagesIn(mem: Memory, table: Page, n: nat)
    requires n <= ENTRIES
  {
    forall j :: 0 <= j < n && Present(table[j]) ==> FrameOf(table[j]) in mem
  }

  ghost predicate UserMapped(mem: Memory, dir: Page) {
    forall i :: SHARED_SLOTS <= i < KERNEL_SLOT ==> Closed(mem, dir[i])
  }

  /** Both entries map the same contents with the same flags at every slot. */
  ghost predicate SameViews(mem: Memory, e: nat, mem': Memory, e': nat) {
    && (Present(e) <==> Present(e'))
    && forall j :: 0 <= j < ENTRIES ==> SlotView(mem, e, j) == SlotView(mem', e', j)
  }

  /** mem' agrees with mem wherever mem is defined, except perhaps at one frame. */
  ghost predicate Extends(mem: Memory, mem': Memory, but: nat) {
    forall f :: f in mem && f != but ==> f in mem' && mem'[f] == mem[f]
  }

  // ----- the frames a directory owns -----

  /** Frames of the present entries below j of a table. */
  function PagesBelow(table: Page, j: nat): (s: set<nat>)
    requires j <= ENTRIES
  {
    if j == 0 then {}
    else PagesBelow(table, j - 1) + (if Present(table[j - 1]) then {FrameOf(table[j - 1])} else {})
  }

  /** No two present entries below j name one frame. */
  predicate DistinctBelow(table: Page, j: nat)
    requires j <= ENTRIES
  {
    j == 0 || (DistinctBelow(table, j - 1)
               && (Present(table[j - 1]) ==> FrameOf(table[j - 1]) !in PagesBelow(table, j - 1)))
  }

  /** vmm_free_pagedir skips an entry equal to the kernel's. */
  predicate Private(kernel: Page, dir: Page, i: nat)
    requires i < ENTRIES
  {
    Present(dir[i]) && dir[i] != kernel[i]
  }

  /** No user slot shares a table with the kernel's own directory. */
  ghost predicate AllPrivate(kernel: Page, dir: Page) {
    forall i :: SHARED_SLOTS <= i < KERNEL_SLOT && Present(dir[i]) ==> Private(kernel, dir, i)
  }

  function SlotFrames(mem: Memory, kernel: Page, dir: Page, i: nat): (s: set<nat>)
    requires i < ENTRIES
  {
    if Private(kernel, dir, i) && FrameOf(dir[i]) in mem
    then {FrameOf(dir[i])} + PagesBelow(mem[FrameOf(dir[i])], ENTRIES)
    else {}
  }

  predicate SlotDistinct(mem: Memory, kernel: Page, dir: Page, i: nat)
    requires i < ENTRIES
  {
    Private(kernel, dir, i) ==>
      && FrameOf(dir[i]) in mem
      && DistinctBelow(mem[FrameOf(dir[i])], ENTRIES)
      && FrameOf(dir[i]) !in PagesBelow(mem[FrameOf(dir[i])], ENTRIES)
  }

  function FramesBelow(mem: Memory, kernel: Page, dir: Page, i: nat): (s: set<nat>)
    requires i <= KERNEL_SLOT
  {
    if i == 0 then {} else FramesBelow(mem, kernel, dir, i - 1) + SlotFrames(mem, kernel, dir, i - 1)
  }

  /** The tables and pages of the private slots below i are all different frames. */
  predicate TreeBelow(mem: Memory, kernel: Page, dir: Page, i: nat)
    requires i <= KERNEL_SLOT
  {
    i == 0 || (
      && TreeBelow(mem, kernel, dir, i - 1)
      && SlotDistinct(mem, kernel, dir, i - 1)
      && SlotFrames(mem, kernel, dir, i - 1) !! FramesBelow(mem, kernel, dir, i - 1))
  }

  /** Everything vmm_free_pagedir releases. */
  function OwnedFrames(mem: Memory, kernel: Page, root: nat): (s: set<nat>)
    requires root in mem
  {
    {root} + FramesBelow(mem, kernel, mem[root], KERNEL_SLOT)
  }

  /** The directory at root owns a tree: no frame is reached twice. */
  predicate IsTree(mem: Memory, kernel: Page, root: nat) {
    && root in mem
    && TreeBelow(mem, kernel, mem[root], KERNEL_SLOT)
    && root !in FramesBelow(mem, kernel, mem[root], KERNEL_SLOT)
  }

  /** The frames a copy of the user half needs: one for each table and each page. */
  function PagesNeeded(table: Page, j: nat): (n: nat)
    requires j <= ENTRIES
  {
    if j == 0 then 0 else PagesNeeded(table, j - 1) + (if Present(table[j - 1]) then 1 else 0)
  }

  function SlotNeeds(mem: Memory, e: nat): (n: nat) {
    if Present(e) && FrameOf(e) in mem then 1 + PagesNeeded(mem[FrameOf(e)], ENTRIES) else 0
  }

  function SlotsNeed(mem: Memory, dir: Page, i: nat): (n: nat)
    requires i <= KERNEL_SLOT
  {
    if i <= SHARED_SLOTS then 0 else SlotsNeed(mem, dir, i - 1) + SlotNeeds(mem, dir[i - 1])
  }

  /** With the directory itself. */
  function FramesNeeded(mem: Memory, dir: Page): (n: nat) {
    1 + SlotsNeed(mem, dir, KERNEL_SLOT)
  }

  lemma {:induction false} PagesNeededGrows(table: Page, j: nat, k: nat)
    requires j <= k <= ENTRIES
    ensures PagesNeeded(table, j) <= PagesNeeded(table, k)
    decreases k
  {
    if j < k {
      PagesNeededGrows(table, j, k - 1);
    }
  }

  lemma {:induction false} SlotsNeedGrows(mem: Memory, dir: Page, i: nat, k: nat)
    requires i <= k <= KERNEL_SLOT
    ensures SlotsNeed(mem, dir, i) <= SlotsNeed(mem, dir, k)
    decreases k
  {
    if i < k {
      SlotsNeedGrows(mem, dir, i, k - 1);
    }
  }

  lemma {:induction false} FramesGrow(mem: Memory, kernel: Page, dir: Page, i: nat, k: nat)
    requires i <= k <= KERNEL_SLOT
    ensures FramesBelow(mem, kernel, dir, i) <= FramesBelow(mem, kernel, dir, k)
    ensures TreeBelow(mem, kernel, dir, k) ==> TreeBelow(mem, kernel, dir, i)
    decreases k
  {
    if i < k {
      FramesGrow(mem, kernel, dir, i, k - 1);
    }
  }

  /** The frames of a slot are among those of any later bound, and apart from the earlier ones. */
  lemma SlotInTree(mem: Memory, kernel: Page, dir: Page, i: nat)
    requires i < KERNEL_SLOT && TreeBelow(mem, kernel, dir, KERNEL_SLOT)
    ensures SlotDistinct(mem, kernel, dir, i)
    ensures SlotFrames(mem, kernel, dir, i) !! FramesBelow(mem, kernel, dir, i)
    ensures SlotFrames(mem, kernel, dir, i) <= FramesBelow(mem, kernel, dir, KERNEL_SLOT)
  {
    FramesGrow(mem, kernel, dir, i + 1, KERNEL_SLOT);
  }

  lemma {:induction false} PageInTable(table: Page, j: nat, k: nat)
    requires j < k <= ENTRIES
    ensures Present(table[j]) ==> FrameOf(table[j]) in PagesBelow(table, k)
    ensures DistinctBelow(table, k) && Present(table[j]) ==> FrameOf(table[j]) !in PagesBelow(table, j)
    decreases k
  {
    if j + 1 < k {
      PageInTable(table, j, k - 1);
    }
  }

  class AddressSpaces {
    const frames: FrameAllocator
    var mem: Memory
    /** page_directory, the kernel's own directory. */
    var kernel: Page

    ghost predicate Valid()
      reads this, frames, frames.buddy, frames.buddy.freeLists, frames.buddy.link, frames.buddy.bitmap
    {
      && frames.Valid()
      && (forall f :: f in mem ==> f !in frames.available)
      && (forall f :: f in frames.held ==> f in mem)
      && forall i :: 0 <= i < ENTRIES && Present(kernel[i]) ==> FrameOf(kernel[i]) !in frames.available
    }

    constructor (frames: FrameAllocator, mem: Memory, kernel: Page)
      requires frames.Valid()
      requires forall f :: f in mem ==> f !in frames.available
      requires forall f :: f in frames.held ==> f in mem
      requires forall i :: 0 <= i < ENTRIES && Present(kernel[i]) ==> FrameOf(kernel[i]) !in frames.available
      ensures Valid() && this.frames == frames && this.mem == mem && this.kernel == kernel
    {
      this.frames, this.mem, this.kernel := frames, mem, kernel;
    }

    /** No frame of the set is one of the kernel's page tables. */
    ghost predicate NotKernel(s: set<nat>)
      reads this`kernel
    {
      forall i :: 0 <= i < ENTRIES && Present(kernel[i]) ==> FrameOf(kernel[i]) !in s
    }

    /** What the allocator may hand out is neither in use nor a kernel page table. */
    lemma AvailableIsFresh()
      requires Valid()
      ensures frames.available !! mem.Keys && NotKernel(frames.available)
    {
    }

    /** get_free_page: a zeroed frame, or 0. */
    method GetFreePage() returns (frame: nat)
      requires Valid()
      modifies this`mem, frames`held, frames`available
      modifies frames.buddy`pool, frames.buddy`own, frames.buddy.freeLists, frames.buddy.link, frames.buddy.bitmap
      ensures Valid()
      ensures frame == 0 <==> old(frames.available) == {}
      ensures frame == 0 ==>
        mem == old(mem) && frames.held == old(frames.held) && frames.available == old(frames.available)
      ensures frame != 0 ==> frame in old(frames.available) && frame !in old(mem) && mem == old(mem)[frame := ZEROES]
      ensures frame != 0 ==>
        frames.held == old(frames.held) + {frame} && frames.available == old(frames.available) - {frame}
    {
      frame := frames.Get();
      if frame != 0 {
        mem := mem[frame := ZEROES];
      }
    }

    /** One word of a frame in use. */
    method Store(frame: nat, slot: nat, word: nat)
      requires Valid() && frame in mem && slot < ENTRIES
      modifies this`mem
      ensures Valid() && mem == old(mem)[frame := old(mem)[frame][slot := word]]
    {
      mem := mem[frame := mem[frame][slot := word]];
    }

    /** free_page: the frame's contents are no longer anyone's. */
    method FreePage(frame: nat)
      requires Valid() && frame in frames.held
      requires forall i :: 0 <= i < ENTRIES && Present(kernel[i]) ==> FrameOf(kernel[i]) != frame
      modifies this`mem, frames`held, frames`available
      modifies frames.buddy`pool, frames.buddy`own, frames.buddy.freeLists, frames.buddy.link, frames.buddy.bitmap
      ensures Valid()
      ensures mem == old(mem) - {frame}
      ensures frames.held == old(frames.held) - {frame} && frames.available == old(frames.available) + {frame}
    {
      frames.Free(frame);
      mem := mem - {frame};
    }

    // ----- setup_kvm and vmm_copy_pgdir -----

    /** The frames taken from the allocator since it held only held0. */
    ghost predicate Took(held0: set<nat>, available0: set<nat>, taken: set<nat>)
      reads frames
    {
      && taken <= available0
      && frames.held == held0 + taken && frames.available == available0 - taken
    }

    /** A directory that maps only what the kernel's own does, and itself. */
    ghost predicate IsKernelView(dir: Page, root: nat)
      reads this`kernel
    {
      HasKernelHalf(dir, root) && forall i :: SHARED_SLOTS <= i < KERNEL_SLOT ==> dir[i] == 0
    }

    /** Outside the user slots it is the kernel's own directory, but for the entry of itself, which is its last. */
    ghost predicate HasKernelHalf(dir: Page, root: nat)
      reads this`kernel
    {
      && (forall i :: 0 <= i < ENTRIES - 1 && !(SHARED_SLOTS <= i < KERNEL_SLOT) ==>
            dir[i] == if Present(kernel[i]) then kernel[i] else 0)
      && dir[ENTRIES - 1] == Entry(root, 7)
    }

    method SetupKvm() returns (root: nat)
      requires Valid()
      modifies this`mem, frames`held, frames`available
      modifies frames.buddy`pool, frames.buddy`own, frames.buddy.freeLists, frames.buddy.link, frames.buddy.bitmap
      ensures Valid()
      ensures root == 0 <==> old(frames.available) == {}
      ensures root == 0 ==> mem == old(mem) && Took(old(frames.held), old(frames.available), {})
      ensures root != 0 ==> root !in old(mem) && root in mem && mem == old(mem)[root := mem[root]]
      ensures root != 0 ==> Took(old(frames.held), old(frames.available), {root}) && IsKernelView(mem[root], root)
    {
      hide Valid;
      root := GetFreePage();
      if root == 0 {
        return;
      }
      EnterKernelSlots(root, 0, SHARED_SLOTS);
      EnterKernelSlots(root, KERNEL_SLOT, ENTRIES);
      Store(root, ENTRIES - 1, Entry(root, 7));
    }

    /** Either of its loops: the kernel's present entries among the slots from up to to. */
    method EnterKernelSlots(root: nat, from: nat, to: nat)
      requires Valid() && root in mem && from <= to <= ENTRIES && forall k :: from <= k < to ==> mem[root][k] == 0
      modifies this`mem
      ensures Valid() && root in mem && mem == old(mem)[root := mem[root]]
      ensures forall k :: 0 <= k < ENTRIES ==>
        mem[root][k] == if !(from <= k < to) then old(mem)[root][k] else if Present(kernel[k]) then kernel[k] else 0
    {
      hide Valid;
      var i := from;
      while i < to
        invariant from <= i <= to && Valid() && root in mem && mem == old(mem)[root := mem[root]]
        invariant forall k :: 0 <= k < ENTRIES ==>
          mem[root][k] == if !(from <= k < i) then old(mem)[root][k] else if Present(kernel[k]) then kernel[k] else 0
      {
        if Present(kernel[i]) {
          Store(root, i, kernel[i]);
        }
        i := i + 1;
      }
    }

    /** One present entry of vmm_copy_pgdir's inner loop: a fresh copy of the page, entered in table t. */
    method CopyPage(t: nat, j: nat, pte: nat) returns (page: nat)
      requires Valid() && t in mem && j < ENTRIES && Present(pte) && FrameOf(pte) in mem
      modifies this`mem, frames`held, frames`available
      modifies frames.buddy`pool, frames.buddy`own, frames.buddy.freeLists, frames.buddy.link, frames.buddy.bitmap
      ensures Valid()
      ensures page == 0 ==>
        old(frames.available) == {} && mem == old(mem) && Took(old(frames.held), old(frames.available), {})
      ensures page != 0 ==> page !in old(mem) && Took(old(frames.held), old(frames.available), {page})
      ensures page != 0 ==> mem == WithPage(old(mem), t, j, page, pte)
    {
      hide FrameAllocator.Valid;
      page := GetFreePage();
      if page == 0 {
        return;
      }
      mem := mem[page := mem[FrameOf(pte)]];
      Store(t, j, Entry(page, FlagsOf(pte)));
    }

    /** Since the start of a copy only the frames in taken were added. */
    ghost predicate Since(m0: Memory, held0: set<nat>, available0: set<nat>, taken: set<nat>)
      reads this, frames, frames.buddy, frames.buddy.freeLists, frames.buddy.link, frames.buddy.bitmap
    {
      Valid() && Grew(m0, held0, available0, taken, mem, frames.held, frames.available)
    }

    /** One round of the inner loop. */
    method CopyEntry(e: nat, t: nat, j: nat, ghost m0: Memory, ghost held0: set<nat>, ghost available0: set<nat>,
                     ghost taken: set<nat>)
      returns (ok: bool, ghost now: set<nat>)
      requires Since(m0, held0, available0, taken) && TableDone(m0, e, mem, t, j, taken) && j < ENTRIES
      modifies this`mem, frames`held, frames`available
      modifies frames.buddy`pool, frames.buddy`own, frames.buddy.freeLists, frames.buddy.link, frames.buddy.bitmap
      ensures Since(m0, held0, available0, now)
      ensures ok ==> TableDone(m0, e, mem, t, j + 1, now)
      ensures !ok ==> frames.available == {} && |now| < SlotNeeds(m0, e)
    {
      hide Valid, TableDone, Grew;
      ghost var before: Memory, held1: set<nat>, available1: set<nat> := mem, frames.held, frames.available;
      EntryToCopy(m0, e, mem, t, j, taken, held0, available0, held1, available1);
      var pte := mem[FrameOf(e)][j];
      if !Present(pte) {
        Store(t, j, 0);
        AbsentEntry(m0, e, before, mem, t, j, taken);
        GrewStore(m0, held0, available0, taken, before, held1, available1, t, mem);
        return true, taken;
      }
      var page := CopyPage(t, j, pte);
      if page == 0 {
        TooFewPages(m0, e, mem, t, j, taken);
        assert frames.held == held1 && frames.available == available1;
        return false, taken;
      }
      PresentEntry(m0, e, before, mem, t, j, page, taken);
      GrewPage(m0, held0, available0, taken, before, held1, available1, t, j, page, pte, mem);
      return true, taken + {page};
    }

    /** The inner loop of vmm_copy_pgdir: a fresh table whose pages are fresh copies. */
    method CopyTable(e: nat) returns (t: nat, ghost taken: set<nat>)
      requires Valid() && Present(e) && Closed(mem, e)
      modifies this`mem, frames`held, frames`available
      modifies frames.buddy`pool, frames.buddy`own, frames.buddy.freeLists, frames.buddy.link, frames.buddy.bitmap
      ensures Since(old(mem), old(frames.held), old(frames.available), taken)
      ensures NotKernel(taken)
      ensures t == 0 ==> frames.available == {} && |taken| < SlotNeeds(old(mem), e)
      ensures t != 0 ==> TableDone(old(mem), e, mem, t, ENTRIES, taken)
    {
      hide Valid, TableDone, Closed, Grew;
      ghost var m0: Memory, held0: set<nat>, available0: set<nat> := mem, frames.held, frames.available;
      ClosedKept(m0, m0, e);
      AvailableIsFresh();
      taken := {};
      t := GetFreePage();
      if t == 0 {
        GrewNothing(m0, held0, available0, frames.held, frames.available);
        return;
      }
      taken := {t};
      GrewStart(m0, held0, available0, t, mem, frames.held, frames.available);
      EmptyTable(m0, e, mem, t);
      var j := 0;
      while j < ENTRIES
        invariant 0 <= j <= ENTRIES && t != 0 && Since(m0, held0, available0, taken)
        invariant TableDone(m0, e, mem, t, j, taken)
      {
        var ok;
        ok, taken := CopyEntry(e, t, j, m0, held0, available0, taken);
        if !ok {
          t := 0;
          break;
        }
        j := j + 1;
      }
      GrewSubset(m0, held0, available0, taken, mem, frames.held, frames.available);
    }

    /** One round of the outer loop. */
    method CopySlot(parent: nat, child: nat, i: nat, ghost m0: Memory, ghost held0: set<nat>,
                    ghost available0: set<nat>, ghost taken: set<nat>)
      returns (ok: bool, ghost now: set<nat>)
      requires Since(m0, held0, available0, taken) && SHARED_SLOTS <= i < KERNEL_SLOT
      requires parent in m0 && UserMapped(m0, m0[parent]) && SlotsDone(m0, m0[parent], mem, kernel, child, i, taken)
      modifies this`mem, frames`held, frames`available
      modifies frames.buddy`pool, frames.buddy`own, frames.buddy.freeLists, frames.buddy.link, frames.buddy.bitmap
      ensures Since(m0, held0, available0, now)
      ensures ok ==> SlotsDone(m0, m0[parent], mem, kernel, child, i + 1, now)
      ensures ok ==> child in mem && child in old(mem) && SameButSlot(old(mem)[child], mem[child], i)
      ensures !ok ==> frames.available == {} && |now| < FramesNeeded(m0, m0[parent])
    {
      hide Valid, SlotsDone, Closed, TableDone, Grew;
      ghost var before: Memory, held1: set<nat>, available1: set<nat> := mem, frames.held, frames.available;
      SlotToCopy(m0, m0[parent], mem, kernel, child, i, taken, held0, available0, held1, available1);
      var e := mem[parent][i];
      if !Present(e) {
        EmptySlot(m0, m0[parent], mem, kernel, child, i, taken);
        SlotsDoneHere(m0, m0[parent], mem, kernel, child, i, taken);
        return true, taken;
      }
      ClosedKept(m0, mem, e);
      var t, more := CopyTable(e);
      GrewTwice(m0, held0, available0, taken, before, held1, available1, more, mem, frames.held, frames.available);
      now := taken + more;
      if t == 0 {
        TooFewSlots(m0, m0[parent], before, kernel, child, i, taken, more);
        return false, now;
      }
      ghost var middle: Memory := mem;
      SlotsDoneHere(m0, m0[parent], before, kernel, child, i, taken);
      TableIsIn(before, e, middle, t, more, child, held1, available1, frames.held, frames.available);
      Store(child, i, Entry(t, FlagsOf(e)));
      AddSlot(m0, m0[parent], before, middle, mem, kernel, child, i, t, taken, more);
      GrewStore(m0, held0, available0, now, middle, frames.held, frames.available, child, mem);
      return true, now;
    }

    /** A deep copy: child and parent show the same mappings at every user slot, the child owns fresh
        frames and nothing else, every table and page behind a user slot of it is one of them, and no frame
        in use before is changed. A store through a user mapping of either is not seen by the other. It
        fails (0) exactly when fewer frames are available than tables and pages need, and then every one of
        them has been taken. */
    method CopyPageDir(parent: nat) returns (child: nat, ghost taken: set<nat>)
      requires Valid() && parent in mem && UserMapped(mem, mem[parent])
      modifies this`mem, frames`held, frames`available
      modifies frames.buddy`pool, frames.buddy`own, frames.buddy.freeLists, frames.buddy.link, frames.buddy.bitmap
      ensures Since(old(mem), old(frames.held), old(frames.available), taken)
      ensures child == 0 <==> |old(frames.available)| < FramesNeeded(old(mem), old(mem)[parent])
      ensures child == 0 ==> taken == old(frames.available)
      ensures child != 0 ==> child in taken && IsTree(mem, kernel, child) && OwnedFrames(mem, kernel, child) == taken
      ensures child != 0 ==>
        forall i :: SHARED_SLOTS <= i < KERNEL_SLOT ==> SameViews(old(mem), old(mem)[parent][i], mem, mem[child][i])
      ensures child != 0 ==> HasKernelHalf(mem[child], child)
      ensures child != 0 ==> AllPrivate(kernel, mem[child]) && UserSide(mem, child) <= taken
      ensures child != 0 ==> UserSide(mem, child) !! UserSide(mem, parent) && TablesUnmapped(mem, child)
      ensures child != 0 ==> (TablesUnmapped(mem, parent) <==> TablesUnmapped(old(mem), parent))
      ensures child != 0 ==> Isolated(mem, child, parent) && Isolated(mem, parent, child)
    {
      hide Valid, SlotsDone, Closed, TableDone, SameViews, Grew, UserMapped, AllPrivate, UserSide, Isolated,
           TablesUnmapped;
      ghost var m0: Memory, held0: set<nat>, available0: set<nat> := mem, frames.held, frames.available;
      AvailableIsFresh();
      child := SetupKvm();
      if child == 0 {
        taken := {};
        GrewNothing(m0, held0, available0, frames.held, frames.available);
        return;
      }
      taken := {child};
      GrewStart(m0, held0, available0, child, mem, frames.held, frames.available);
      NothingDone(m0, m0[parent], mem, kernel, child);
      var i := SHARED_SLOTS;
      while i < KERNEL_SLOT
        invariant SHARED_SLOTS <= i <= KERNEL_SLOT && Since(m0, held0, available0, taken)
        invariant SlotsDone(m0, m0[parent], mem, kernel, child, i, taken)
        invariant child in mem && HasKernelHalf(mem[child], child)
      {
        var ok;
        ok, taken := CopySlot(parent, child, i, m0, held0, available0, taken);
        GrewSubset(m0, held0, available0, taken, mem, frames.held, frames.available);
        if !ok {
          child := 0;
          return;
        }
        i := i + 1;
      }
      AllSlotsDone(m0, m0[parent], mem, kernel, child, taken);
      GrewSubset(m0, held0, available0, taken, mem, frames.held, frames.available);
      CopyIsApart(m0, held0, available0, mem, frames.held, frames.available, kernel, parent, child, taken);
      TreeTablesUnmapped(mem, kernel, child);
      ApartIsIsolated(mem, child, parent);
      ApartIsIsolated(mem, parent, child);
    }

    // ----- vmm_free_pagedir -----

    /** The body of the outer loop: free the pages of one private table, then the table. */
    method FreeSlot(root: nat, i: nat)
      requires Valid() && root in mem && i < KERNEL_SLOT && Private(kernel, mem[root], i)
      requires SlotDistinct(mem, kernel, mem[root], i)
      requires SlotFrames(mem, kernel, mem[root], i) <= frames.held && NotKernel(SlotFrames(mem, kernel, mem[root], i))
      modifies this`mem, frames`held, frames`available
      modifies frames.buddy`pool, frames.buddy`own, frames.buddy.freeLists, frames.buddy.link, frames.buddy.bitmap
      ensures Valid()
      ensures
        var gone := SlotFrames(old(mem), kernel, old(mem)[root], i);
        mem == old(mem) - gone && frames.held == old(frames.held) - gone
          && frames.available == old(frames.available) + gone
    {
      hide Valid, DistinctBelow;
      var t := FrameOf(mem[root][i]);
      ghost var table: Page, m0: Memory := mem[t], mem;
      ghost var held0: set<nat>, available0: set<nat> := frames.held, frames.available;
      var j := 0;
      while j < ENTRIES
        invariant 0 <= j <= ENTRIES && Valid() && t in mem && mem[t] == table
        invariant mem == m0 - PagesBelow(table, j)
        invariant frames.held == held0 - PagesBelow(table, j)
        invariant frames.available == available0 + PagesBelow(table, j)
      {
        if Present(mem[t][j]) {
          PageInTable(table, j, ENTRIES);
          assert FrameOf(table[j]) in SlotFrames(m0, kernel, m0[root], i);
          FreePage(FrameOf(mem[t][j]));
        }
        j := j + 1;
      }
      FreePage(t);
      assert SlotFrames(m0, kernel, m0[root], i) == PagesBelow(table, ENTRIES) + {t};
    }

    /** Releases every frame the directory owns exactly once (each must still be held when it is
        freed) and nothing else. */
    method FreePageDir(root: nat)
      requires Valid() && IsTree(mem, kernel, root)
      requires OwnedFrames(mem, kernel, root) <= frames.held && NotKernel(OwnedFrames(mem, kernel, root))
      modifies this`mem, frames`held, frames`available
      modifies frames.buddy`pool, frames.buddy`own, frames.buddy.freeLists, frames.buddy.link, frames.buddy.bitmap
      ensures Valid()
      ensures mem == old(mem) - OwnedFrames(old(mem), kernel, root)
      ensures frames.held == old(frames.held) - OwnedFrames(old(mem), kernel, root)
      ensures frames.available == old(frames.available) + OwnedFrames(old(mem), kernel, root)
    {
      hide Valid, SlotFrames, TreeBelow;
      ghost var dir: Page, m0: Memory := mem[root], mem;
      ghost var held0: set<nat>, available0: set<nat> := frames.held, frames.available;
      var i := 0;
      while i < KERNEL_SLOT
        invariant 0 <= i <= KERNEL_SLOT && Valid() && root in mem && mem[root] == dir
        invariant mem == m0 - FramesBelow(m0, kernel, dir, i)
        invariant frames.held == held0 - FramesBelow(m0, kernel, dir, i)
        invariant frames.available == available0 + FramesBelow(m0, kernel, dir, i)
      {
        SlotInTree(m0, kernel, dir, i);
        SlotNothing(m0, kernel, dir, i);
        if Private(kernel, mem[root], i) {
          SlotUntouched(m0, mem, kernel, dir, i);
          FreeSlot(root, i);
        }
        i := i + 1;
      }
      FreePage(root);
    }

    /** do_fork's copy, then the free of do_wait when the child has exited without touching its tables:
        allocator and memory are as they were. */
    method ForkThenReap(parent: nat) returns (forked: bool)
      requires Valid() && parent in mem && UserMapped(mem, mem[parent])
      modifies this`mem, frames`held, frames`available
      modifies frames.buddy`pool, frames.buddy`own, frames.buddy.freeLists, frames.buddy.link, frames.buddy.bitmap
      ensures Valid()
      ensures forked <==> FramesNeeded(old(mem), old(mem)[parent]) <= |old(frames.available)|
      ensures forked ==> mem == old(mem) && frames.held == old(frames.held) && frames.available == old(frames.available)
    {
      hide Valid, IsTree, SameViews;
      HeldIsNotAvailable();
      AvailableIsFresh();
      var child, taken := CopyPageDir(parent);
      if child == 0 {
        return false;
      }
      FreePageDir(child);
      return true;
    }

    lemma HeldIsNotAvailable()
      requires Valid()
      ensures frames.held !! frames.available
    {
    }
  }

  lemma SlotNothing(mem: Memory, kernel: Page, dir: Page, i: nat)
    requires i < ENTRIES
    ensures !Private(kernel, dir, i) ==> SlotFrames(mem, kernel, dir, i) == {}
  {
  }

  /** Freeing earlier slots leaves this slot's table readable. */
  lemma SlotUntouched(mem: Memory, mem': Memory, kernel: Page, dir: Page, i: nat)
    requires i < KERNEL_SLOT && Private(kernel, dir, i) && SlotDistinct(mem, kernel, dir, i)
    requires mem' == mem - FramesBelow(mem, kernel, dir, i)
    requires SlotFrames(mem, kernel, dir, i) !! FramesBelow(mem, kernel, dir, i)
    ensures SlotDistinct(mem', kernel, dir, i)
    ensures SlotFrames(mem', kernel, dir, i) == SlotFrames(mem, kernel, dir, i)
  {
    assert FrameOf(dir[i]) in SlotFrames(mem, kernel, dir, i);
  }

  // ----- steps of the copy -----

  /** Every frame of mem is still there, unchanged. */
  ghost predicate Keeps(mem: Memory, mem': Memory) {
    forall f :: f in mem ==> f in mem' && mem'[f] == mem[f]
  }

  /** From m0, held0 and available0, exactly the frames in taken were put to use. */
  ghost predicate Grew(m0: Memory, held0: set<nat>, available0: set<nat>, taken: set<nat>,
                       mem: Memory, held: set<nat>, available: set<nat>) {
    && Keeps(m0, mem) && mem.Keys == m0.Keys + taken && available0 !! m0.Keys
    && taken <= available0 && held == held0 + taken && available == available0 - taken
  }

  /** The first frame taken. */
  lemma GrewStart(m0: Memory, held0: set<nat>, available0: set<nat>, f: nat, mem: Memory, held: set<nat>,
                  available: set<nat>)
    requires available0 !! m0.Keys && f in available0 && f in mem && mem == m0[f := mem[f]]
    requires held == held0 + {f} && available == available0 - {f}
    ensures Grew(m0, held0, available0, {f}, mem, held, available)
  {
  }

  lemma GrewNothing(m0: Memory, held0: set<nat>, available0: set<nat>, held: set<nat>, available: set<nat>)
    requires available0 !! m0.Keys && held == held0 && available == available0
    ensures Grew(m0, held0, available0, {}, m0, held, available)
  {
  }

  lemma GrewSubset(m0: Memory, held0: set<nat>, available0: set<nat>, taken: set<nat>, mem: Memory, held: set<nat>,
                   available: set<nat>)
    requires Grew(m0, held0, available0, taken, mem, held, available)
    ensures taken <= available0 && |taken| <= |available0|
    ensures available == {} ==> taken == available0
  {
    SubsetSize(taken, available0);
  }

  lemma GrewStore(m0: Memory, held0: set<nat>, available0: set<nat>, taken: set<nat>,
                  mem: Memory, held: set<nat>, available: set<nat>, f: nat, mem': Memory)
    requires Grew(m0, held0, available0, taken, mem, held, available)
    requires f in taken && f in mem && f in mem' && mem' == mem[f := mem'[f]]
    ensures Grew(m0, held0, available0, taken, mem', held, available)
  {
  }

  lemma GrewPage(m0: Memory, held0: set<nat>, available0: set<nat>, taken: set<nat>,
                 mem: Memory, held: set<nat>, available: set<nat>, t: nat, j: nat, page: nat, pte: nat, mem': Memory)
    requires Grew(m0, held0, available0, taken, mem, held, available)
    requires t in taken && t in mem && j < ENTRIES && FrameOf(pte) in mem && page in available && page !in mem
    requires mem' == WithPage(mem, t, j, page, pte)
    ensures Grew(m0, held0, available0, taken + {page}, mem', held + {page}, available - {page})
  {
  }

  lemma GrewTwice(m0: Memory, held0: set<nat>, available0: set<nat>, taken: set<nat>,
                  m1: Memory, held1: set<nat>, available1: set<nat>, more: set<nat>,
                  m2: Memory, held2: set<nat>, available2: set<nat>)
    requires Grew(m0, held0, available0, taken, m1, held1, available1)
    requires Grew(m1, held1, available1, more, m2, held2, available2)
    ensures Grew(m0, held0, available0, taken + more, m2, held2, available2)
  {
  }

  lemma EntryParts(frame: nat, flags: nat)
    requires flags < PAGE_SIZE
    ensures FrameOf(Entry(frame, flags)) == frame && FlagsOf(Entry(frame, flags)) == flags
    ensures Present(Entry(frame, flags)) <==> Present(flags)
  {
    assert Entry(frame, flags) == PAGE_SIZE * frame + flags;
    EvenPart(2048 * frame, flags);
  }

  lemma EvenPart(k: nat, r: nat)
    ensures (2 * k + r) % 2 == r % 2
  {
  }

  lemma FlagsKeepPresence(e: nat)
    ensures Present(FlagsOf(e)) <==> Present(e)
  {
    EvenPart(2048 * (e / PAGE_SIZE), e % PAGE_SIZE);
  }

  function WithPage(mem: Memory, t: nat, j: nat, page: nat, pte: nat): (r: Memory)
    requires t in mem && j < ENTRIES && FrameOf(pte) in mem
  {
    mem[page := mem[FrameOf(pte)]][t := mem[t][j := Entry(page, FlagsOf(pte))]]
  }

  /** The entries below n of both tables are present together, with the same flags and contents. */
  ghost predicate PagesCopied(mem: Memory, table: Page, mem': Memory, table': Page, n: nat)
    requires n <= ENTRIES
  {
    forall j :: 0 <= j < n ==>
      && (Present(table[j]) <==> Present(table'[j]))
      && (Present(table[j]) ==>
           && FrameOf(table[j]) in mem && FrameOf(table'[j]) in mem'
           && FlagsOf(table[j]) == FlagsOf(table'[j])
           && mem'[FrameOf(table'[j])] == mem[FrameOf(table[j])])
  }

  /** The first n entries of table t copy those of the parent's, and t with its pages is what was taken. */
  ghost predicate TableCopied(m0: Memory, parent: Page, mem: Memory, t: nat, n: nat, taken: set<nat>)
    requires n <= ENTRIES
  {
    && t in mem && t !in PagesBelow(mem[t], n) && DistinctBelow(mem[t], n)
    && taken == {t} + PagesBelow(mem[t], n)
    && PagesCopied(m0, parent, mem, mem[t], n)
  }

  /** The inner loop's invariant for the table behind the parent's entry e. */
  ghost predicate TableDone(m0: Memory, e: nat, mem: Memory, t: nat, n: nat, taken: set<nat>) {
    && n <= ENTRIES && Present(e) && Closed(m0, e) && FrameOf(e) in m0
    && t in taken && t in mem && t !in m0 && t != 0
    && TableCopied(m0, m0[FrameOf(e)], mem, t, n, taken)
    && |taken| == 1 + PagesNeeded(m0[FrameOf(e)], n)
  }

  lemma {:induction false} PagesBelowAgree(table: Page, table': Page, j: nat)
    requires j <= ENTRIES && forall k :: 0 <= k < j ==> table[k] == table'[k]
    ensures PagesBelow(table, j) == PagesBelow(table', j)
    ensures DistinctBelow(table, j) <==> DistinctBelow(table', j)
  {
    if j > 0 {
      PagesBelowAgree(table, table', j - 1);
    }
  }

  lemma EmptyTable(m0: Memory, e: nat, mem: Memory, t: nat)
    requires t in mem && t !in m0 && t != 0 && Present(e) && Closed(m0, e)
    ensures TableDone(m0, e, mem, t, 0, {t})
  {
  }

  lemma PageBehind(mem: Memory, e: nat, j: nat)
    requires Closed(mem, e) && Present(e) && j < ENTRIES
    ensures FrameOf(e) in mem
    ensures Present(mem[FrameOf(e)][j]) ==> FrameOf(mem[FrameOf(e)][j]) in mem
  {
  }

  /** What the next entry needs to know. */
  lemma EntryToCopy(m0: Memory, e: nat, mem: Memory, t: nat, j: nat, taken: set<nat>,
                    held0: set<nat>, available0: set<nat>, held: set<nat>, available: set<nat>)
    requires TableDone(m0, e, mem, t, j, taken) && j < ENTRIES
    requires Grew(m0, held0, available0, taken, mem, held, available)
    ensures FrameOf(e) in m0 && FrameOf(e) in mem && mem[FrameOf(e)] == m0[FrameOf(e)] && t in mem && t in taken
    ensures Keeps(m0, mem) && taken <= mem.Keys
    ensures Present(mem[FrameOf(e)][j]) ==> FrameOf(mem[FrameOf(e)][j]) in mem
  {
    PageBehind(m0, e, j);
  }

  lemma TooFewPages(m0: Memory, e: nat, mem: Memory, t: nat, j: nat, taken: set<nat>)
    requires TableDone(m0, e, mem, t, j, taken) && j < ENTRIES && Present(m0[FrameOf(e)][j])
    ensures |taken| < SlotNeeds(m0, e)
  {
    PagesNeededGrows(m0[FrameOf(e)], j + 1, ENTRIES);
  }

  lemma AbsentEntry(m0: Memory, e: nat, before: Memory, mem: Memory, t: nat, j: nat, taken: set<nat>)
    requires j < ENTRIES && TableDone(m0, e, before, t, j, taken) && !Present(m0[FrameOf(e)][j])
    requires mem == before[t := before[t][j := 0]]
    ensures TableDone(m0, e, mem, t, j + 1, taken)
  {
    PagesBelowAgree(before[t], mem[t], j);
    forall k | 0 <= k < j && Present(mem[t][k])
      ensures FrameOf(mem[t][k]) != t
    {
      PageInTable(mem[t], k, j);
    }
  }

  lemma PresentEntry(m0: Memory, e: nat, before: Memory, mem: Memory, t: nat, j: nat, page: nat, taken: set<nat>)
    requires j < ENTRIES && TableDone(m0, e, before, t, j, taken) && Present(m0[FrameOf(e)][j])
    requires Keeps(m0, before) && taken <= before.Keys
    requires page !in before && FrameOf(m0[FrameOf(e)][j]) in before
    requires mem == WithPage(before, t, j, page, m0[FrameOf(e)][j])
    ensures TableDone(m0, e, mem, t, j + 1, taken + {page})
  {
    var parent := m0[FrameOf(e)];
    EntryParts(page, FlagsOf(parent[j]));
    FlagsKeepPresence(parent[j]);
    PagesBelowAgree(before[t], mem[t], j);
    forall k | 0 <= k < j && Present(mem[t][k])
      ensures FrameOf(mem[t][k]) != t && FrameOf(mem[t][k]) != page
    {
      PageInTable(mem[t], k, j);
    }
  }

  lemma {:induction false} NothingPrivate(mem: Memory, kernel: Page, dir: Page, i: nat)
    requires i <= KERNEL_SLOT && forall k :: 0 <= k < i ==> !Private(kernel, dir, k)
    ensures FramesBelow(mem, kernel, dir, i) == {} && TreeBelow(mem, kernel, dir, i)
  {
    if i > 0 {
      NothingPrivate(mem, kernel, dir, i - 1);
    }
  }

  /** Growing memory and writing later slots leaves the tree of the earlier slots alone. */
  lemma {:induction false} TreeKept(mem: Memory, mem': Memory, kernel: Page, dir: Page, dir': Page, i: nat, but: nat)
    requires i <= KERNEL_SLOT && Extends(mem, mem', but)
    requires forall k :: 0 <= k < i ==> dir[k] == dir'[k]
    requires TreeBelow(mem, kernel, dir, i) && but !in FramesBelow(mem, kernel, dir, i)
    ensures TreeBelow(mem', kernel, dir', i)
    ensures FramesBelow(mem', kernel, dir', i) == FramesBelow(mem, kernel, dir, i)
  {
    if i > 0 {
      TreeKept(mem, mem', kernel, dir, dir', i - 1, but);
      if Private(kernel, dir, i - 1) {
        assert FrameOf(dir[i - 1]) in SlotFrames(mem, kernel, dir, i - 1);
      }
    }
  }

  /** What the loop keeps of each slot it has copied. */
  ghost predicate Copied(m0: Memory, e: nat, mem: Memory, e': nat, child: nat) {
    && SameViews(m0, e, mem, e') && Closed(mem, e') && Apart(mem, e', child)
  }

  ghost predicate Apart(mem: Memory, e: nat, child: nat) {
    Present(e) && FrameOf(e) in mem ==>
      FrameOf(e) != child
      && forall j :: 0 <= j < ENTRIES && Present(mem[FrameOf(e)][j]) ==> FrameOf(mem[FrameOf(e)][j]) != child
  }

  /** The outer loop's invariant. */
  ghost predicate SlotsDone(m0: Memory, parent: Page, mem: Memory, kernel: Page, child: nat, i: nat, taken: set<nat>) {
    && SHARED_SLOTS <= i <= KERNEL_SLOT
    && child in taken && child in mem && child !in m0 && child != 0
    && TreeBelow(mem, kernel, mem[child], i) && child !in FramesBelow(mem, kernel, mem[child], i)
    && taken == {child} + FramesBelow(mem, kernel, mem[child], i)
    && |taken| == 1 + SlotsNeed(m0, parent, i)
    && (forall k :: i <= k < KERNEL_SLOT ==> mem[child][k] == 0)
    && (forall k :: SHARED_SLOTS <= k < i && Present(mem[child][k]) ==> Private(kernel, mem[child], k))
    && forall k :: SHARED_SLOTS <= k < i ==> Copied(m0, parent[k], mem, mem[child][k], child)
  }

  lemma SlotsDoneHere(m0: Memory, parent: Page, mem: Memory, kernel: Page, child: nat, i: nat, taken: set<nat>)
    requires SlotsDone(m0, parent, mem, kernel, child, i, taken)
    ensures child in mem
  {
  }

  /** Two directories that differ at most in one slot. */
  predicate SameButSlot(dir: Page, dir': Page, i: nat) {
    forall k :: 0 <= k < ENTRIES && k != i ==> dir'[k] == dir[k]
  }

  /** What the next slot needs to know. */
  lemma SlotToCopy(m0: Memory, parent: Page, mem: Memory, kernel: Page, child: nat, i: nat, taken: set<nat>,
                   held0: set<nat>, available0: set<nat>, held: set<nat>, available: set<nat>)
    requires SlotsDone(m0, parent, mem, kernel, child, i, taken)
    requires Grew(m0, held0, available0, taken, mem, held, available)
    ensures child in mem && child in taken && Keeps(m0, mem) && taken <= mem.Keys
  {
  }

  lemma TooFewSlots(m0: Memory, parent: Page, mem: Memory, kernel: Page, child: nat, i: nat, taken: set<nat>,
                    more: set<nat>)
    requires SlotsDone(m0, parent, mem, kernel, child, i, taken) && i < KERNEL_SLOT && |more| < SlotNeeds(m0, parent[i])
    ensures |taken + more| < FramesNeeded(m0, parent)
  {
    SlotsNeedGrows(m0, parent, i + 1, KERNEL_SLOT);
    UnionAtMost(taken, more);
  }

  lemma UnionAtMost(s: set<nat>, t: set<nat>)
    ensures |s + t| <= |s| + |t|
  {
    UnionSize(s, t);
    SubsetSize(t - s, t);
  }

  lemma TableIsIn(before: Memory, e: nat, middle: Memory, t: nat, more: set<nat>, child: nat,
                  held0: set<nat>, available0: set<nat>, held: set<nat>, available: set<nat>)
    requires TableDone(before, e, middle, t, ENTRIES, more) && child in before
    requires Grew(before, held0, available0, more, middle, held, available)
    ensures t in more && t in middle && child in middle && Keeps(before, middle) && more !! before.Keys
  {
  }

  lemma NothingDone(m0: Memory, parent: Page, mem: Memory, kernel: Page, child: nat)
    requires child in mem && child !in m0 && child != 0
    requires forall k :: 0 <= k < KERNEL_SLOT ==>
      mem[child][k] == if k < SHARED_SLOTS && Present(kernel[k]) then kernel[k] else 0
    ensures SlotsDone(m0, parent, mem, kernel, child, SHARED_SLOTS, {child})
  {
    NothingPrivate(mem, kernel, mem[child], SHARED_SLOTS);
  }

  lemma AllSlotsDone(m0: Memory, parent: Page, mem: Memory, kernel: Page, child: nat, taken: set<nat>)
    requires SlotsDone(m0, parent, mem, kernel, child, KERNEL_SLOT, taken)
    ensures child in taken && child != 0 && IsTree(mem, kernel, child) && OwnedFrames(mem, kernel, child) == taken
    ensures |taken| == FramesNeeded(m0, parent)
    ensures forall k :: SHARED_SLOTS <= k < KERNEL_SLOT ==> SameViews(m0, parent[k], mem, mem[child][k])
    ensures UserMapped(mem, mem[child]) && AllPrivate(kernel, mem[child])
  {
  }

  lemma CopiedKept(m0: Memory, e: nat, mem: Memory, mem': Memory, e': nat, child: nat)
    requires Copied(m0, e, mem, e', child) && Extends(mem, mem', child)
    ensures Copied(m0, e, mem', e', child)
  {
    forall j | 0 <= j < ENTRIES
      ensures SlotView(mem', e', j) == SlotView(mem, e', j)
    {
    }
  }

  lemma ClosedKept(mem: Memory, mem': Memory, e: nat)
    requires Closed(mem, e) && Keeps(mem, mem')
    ensures Closed(mem', e) && (Present(e) ==> FrameOf(e) in mem && mem'[FrameOf(e)] == mem[FrameOf(e)])
    ensures SlotNeeds(mem', e) == SlotNeeds(mem, e)
  {
  }

  lemma NothingCopied(m0: Memory, e: nat, mem: Memory, child: nat)
    requires !Present(e)
    ensures Copied(m0, e, mem, 0, child) && SlotNeeds(m0, e) == 0
  {
  }

  lemma EmptySlot(m0: Memory, parent: Page, mem: Memory, kernel: Page, child: nat, i: nat, taken: set<nat>)
    requires i < KERNEL_SLOT && !Present(parent[i]) && SlotsDone(m0, parent, mem, kernel, child, i, taken)
    ensures SlotsDone(m0, parent, mem, kernel, child, i + 1, taken)
  {
    hide Copied, SlotNeeds, PagesBelow;
    assert mem[child][i] == 0;
    SlotNothing(mem, kernel, mem[child], i);
    NothingCopied(m0, parent[i], mem, child);
  }

  /** Hooking a freshly copied table into slot i of the directory at child. */
  lemma AddSlot(m0: Memory, parent: Page, before: Memory, middle: Memory, after: Memory, kernel: Page,
                child: nat, i: nat, t: nat, taken: set<nat>, more: set<nat>)
    requires i < KERNEL_SLOT && SlotsDone(m0, parent, before, kernel, child, i, taken) && Closed(m0, parent[i])
    requires Keeps(m0, before) && Keeps(before, middle) && taken <= before.Keys && more !! before.Keys
    requires TableDone(before, parent[i], middle, t, ENTRIES, more)
    requires after == middle[child := middle[child][i := Entry(t, FlagsOf(parent[i]))]]
    requires Present(kernel[i]) ==> FrameOf(kernel[i]) != t
    ensures SlotsDone(m0, parent, after, kernel, child, i + 1, taken + more)
  {
    hide Copied, SlotNeeds, Closed, FramesBelow, TreeBelow, PagesBelow, DistinctBelow, PagesCopied;
    assert more == {t} + PagesBelow(middle[t], ENTRIES);
    GrowTree(before, middle, after, kernel, child, i, t, parent[i], more);
    TableCost(m0, before, parent[i], middle, t, more);
    NewSlotCopied(m0, before, middle, after, parent[i], child, i, t, more);
    EarlierSlotsCopied(m0, parent, before, after, child, i);
    assert |taken + more| == |taken| + |more|;
  }

  lemma TableCost(m0: Memory, before: Memory, e: nat, middle: Memory, t: nat, more: set<nat>)
    requires Closed(m0, e) && Keeps(m0, before) && TableDone(before, e, middle, t, ENTRIES, more)
    ensures |more| == SlotNeeds(m0, e)
  {
    ClosedKept(m0, before, e);
  }

  lemma GrowTree(before: Memory, middle: Memory, after: Memory, kernel: Page, child: nat, i: nat, t: nat, e: nat,
                 more: set<nat>)
    requires i < KERNEL_SLOT && child in before && Keeps(before, middle) && t in middle && t !in before && Present(e)
    requires after == middle[child := middle[child][i := Entry(t, FlagsOf(e))]]
    requires TreeBelow(before, kernel, before[child], i) && child !in FramesBelow(before, kernel, before[child], i)
    requires FramesBelow(before, kernel, before[child], i) <= before.Keys && more !! before.Keys
    requires DistinctBelow(middle[t], ENTRIES) && t !in PagesBelow(middle[t], ENTRIES)
    requires more == {t} + PagesBelow(middle[t], ENTRIES)
    requires Present(kernel[i]) ==> FrameOf(kernel[i]) != t
    ensures TreeBelow(after, kernel, after[child], i + 1) && child !in FramesBelow(after, kernel, after[child], i + 1)
    ensures FramesBelow(after, kernel, after[child], i + 1) == FramesBelow(before, kernel, before[child], i) + more
    ensures Private(kernel, after[child], i)
  {
    EntryParts(t, FlagsOf(e));
    FlagsKeepPresence(e);
    TreeKept(before, after, kernel, before[child], after[child], i, child);
    assert after[t] == middle[t];
    assert SlotFrames(after, kernel, after[child], i) == more;
  }

  lemma NewSlotCopied(m0: Memory, before: Memory, middle: Memory, after: Memory, e: nat, child: nat, i: nat, t: nat,
                      more: set<nat>)
    requires i < KERNEL_SLOT && child in before && Keeps(m0, before) && Keeps(before, middle) && t in middle
    requires t !in before
    requires after == middle[child := middle[child][i := Entry(t, FlagsOf(e))]] && Present(e) && Closed(m0, e)
    requires child !in m0 && more !! before.Keys
    requires FrameOf(e) in before && TableCopied(before, before[FrameOf(e)], middle, t, ENTRIES, more)
    ensures Copied(m0, e, after, after[child][i], child)
  {
    EntryParts(t, FlagsOf(e));
    FlagsKeepPresence(e);
    var e', parent, table := after[child][i], m0[FrameOf(e)], middle[t];
    assert after[t] == table && before[FrameOf(e)] == parent;
    forall j | 0 <= j < ENTRIES
      ensures SlotView(m0, e, j) == SlotView(after, e', j)
      ensures Present(table[j]) ==> FrameOf(table[j]) in after && FrameOf(table[j]) != child
    {
      PageInTable(table, j, ENTRIES);
      if Present(parent[j]) {
        PageBehind(m0, e, j);
        assert FrameOf(table[j]) in more;
      }
    }
  }

  lemma EarlierSlotsCopied(m0: Memory, parent: Page, before: Memory, mem: Memory, child: nat, i: nat)
    requires i < KERNEL_SLOT && child in before && child in mem && Extends(before, mem, child)
    requires forall k :: 0 <= k < ENTRIES && k != i ==> mem[child][k] == before[child][k]
    requires forall k :: SHARED_SLOTS <= k < i ==> Copied(m0, parent[k], before, before[child][k], child)
    ensures forall k :: SHARED_SLOTS <= k < i ==> Copied(m0, parent[k], mem, mem[child][k], child)
  {
    forall k | SHARED_SLOTS <= k < i
      ensures Copied(m0, parent[k], mem, mem[child][k], child)
    {
      CopiedKept(m0, parent[k], before, mem, before[child][k], child);
    }
  }

  /** The MMU's view of a user address: the top ten bits pick the directory slot, the next ten the table slot. */
  function MappedAt(mem: Memory, dir: Page, address: nat): (m: Mapping)
    requires address < WORD32
  {
    View(mem, dir, address / 0x40_0000, address / 0x1000 % 0x400)
  }

  /** Slot by slot is address by address: from 16 MiB up to the kernel, two such directories map alike, flags and
      contents. */
  lemma SameAtEveryAddress(mem: Memory, dir: Page, mem': Memory, dir': Page)
    requires forall i :: SHARED_SLOTS <= i < KERNEL_SLOT ==> SameViews(mem, dir[i], mem', dir'[i])
    ensures forall a :: 0x100_0000 <= a < 0xC000_0000 ==> MappedAt(mem', dir', a) == MappedAt(mem, dir, a)
  {
    forall a | 0x100_0000 <= a < 0xC000_0000
      ensures MappedAt(mem', dir', a) == MappedAt(mem, dir, a)
    {
      assert SameViews(mem, dir[a / 0x40_0000], mem', dir'[a / 0x40_0000]);
    }
  }

  // ----- isolation -----

  predicate MapsPage(mem: Memory, dir: Page, i: nat, j: nat)
    requires i < ENTRIES && j < ENTRIES
  {
    Present(dir[i]) && FrameOf(dir[i]) in mem && Present(mem[FrameOf(dir[i])][j])
      && FrameOf(mem[FrameOf(dir[i])][j]) in mem
  }

  /** The frame user code reaches at slot i, j. */
  function PageAt(mem: Memory, dir: Page, i: nat, j: nat): (f: nat)
    requires i < ENTRIES && j < ENTRIES && MapsPage(mem, dir, i, j)
  {
    FrameOf(mem[FrameOf(dir[i])][j])
  }

  /** The frames user code of the address space at root can store to. */
  function UserPages(mem: Memory, root: nat): (s: set<nat>)
    requires root in mem
  {
    set i: nat, j: nat | SHARED_SLOTS <= i < KERNEL_SLOT && j < ENTRIES && MapsPage(mem, mem[root], i, j)
      :: PageAt(mem, mem[root], i, j)
  }

  /** The frames that decide where user accesses go: the directory and its tables. */
  function UserTables(mem: Memory, root: nat): (s: set<nat>)
    requires root in mem
  {
    {root} + set i: nat | SHARED_SLOTS <= i < KERNEL_SLOT && Present(mem[root][i]) :: FrameOf(mem[root][i])
  }

  /** Everything user code of that address space sees or is led through. */
  function UserSide(mem: Memory, root: nat): (s: set<nat>)
    requires root in mem
  {
    UserTables(mem, root) + UserPages(mem, root)
  }

  /** A word user code stores at slot i, j; without a mapping it faults and nothing is stored. */
  datatype UserStore = UserStore(i: nat, j: nat, word: nat, value: nat)

  function Stored(mem: Memory, root: nat, st: UserStore): (r: Memory)
    ensures r.Keys == mem.Keys
  {
    if root in mem && SHARED_SLOTS <= st.i < KERNEL_SLOT && st.j < ENTRIES && st.word < ENTRIES
       && MapsPage(mem, mem[root], st.i, st.j)
    then
      var f := PageAt(mem, mem[root], st.i, st.j);
      mem[f := mem[f][st.word := st.value]]
    else mem
  }

  /** All user mappings of the address space at root are the same in both memories. */
  ghost predicate SameUserViews(mem: Memory, mem': Memory, root: nat) {
    && root in mem && root in mem' && mem'[root] == mem[root]
    && forall i, j :: SHARED_SLOTS <= i < KERNEL_SLOT && 0 <= j < ENTRIES ==>
      View(mem', mem'[root], i, j) == View(mem, mem[root], i, j)
  }

  /** No store of user code of a changes anything user code of b sees. */
  ghost predicate Isolated(mem: Memory, a: nat, b: nat) {
    forall st: UserStore :: SameUserViews(mem, Stored(mem, a, st), b)
  }

  /** Memories that agree on what b is led through and sees show it the same. */
  lemma SameSideSameViews(mem: Memory, mem': Memory, b: nat)
    requires b in mem && mem'.Keys == mem.Keys && forall f :: f in UserSide(mem, b) && f in mem ==> mem'[f] == mem[f]
    ensures SameUserViews(mem, mem', b) && UserSide(mem', b) == UserSide(mem, b)
    ensures UserTables(mem', b) == UserTables(mem, b) && UserPages(mem', b) == UserPages(mem, b)
  {
    assert b in UserTables(mem, b);
    forall i: nat, j: nat | SHARED_SLOTS <= i < KERNEL_SLOT && j < ENTRIES
      ensures View(mem', mem'[b], i, j) == View(mem, mem[b], i, j)
      ensures MapsPage(mem', mem'[b], i, j) <==> MapsPage(mem, mem[b], i, j)
      ensures MapsPage(mem, mem[b], i, j) ==> PageAt(mem', mem'[b], i, j) == PageAt(mem, mem[b], i, j)
    {
      if Present(mem[b][i]) && FrameOf(mem[b][i]) in mem {
        assert FrameOf(mem[b][i]) in UserTables(mem, b);
        if MapsPage(mem, mem[b], i, j) {
          assert PageAt(mem, mem[b], i, j) in UserPages(mem, b);
        }
      }
    }
  }

  /** A store reaches one of the pages user code can store to. */
  lemma StoreReaches(mem: Memory, a: nat, st: UserStore)
    requires a in mem
    ensures forall f :: f in mem && f !in UserPages(mem, a) ==> Stored(mem, a, st)[f] == mem[f]
  {
    if SHARED_SLOTS <= st.i < KERNEL_SLOT && st.j < ENTRIES && MapsPage(mem, mem[a], st.i, st.j) {
      assert PageAt(mem, mem[a], st.i, st.j) in UserPages(mem, a);
    }
  }

  lemma ApartIsIsolated(mem: Memory, a: nat, b: nat)
    requires a in mem && b in mem && UserSide(mem, a) !! UserSide(mem, b)
    ensures Isolated(mem, a, b)
  {
    hide UserPages, UserTables, SameUserViews, Stored;
    forall st: UserStore
      ensures SameUserViews(mem, Stored(mem, a, st), b)
    {
      StoreReaches(mem, a, st);
      SameSideSameViews(mem, Stored(mem, a, st), b);
    }
  }

  /** What a copied directory leads to was taken by the copy; what the parent's leads to was in use before. */
  lemma CopyIsApart(m0: Memory, held0: set<nat>, available0: set<nat>, mem: Memory, held: set<nat>, available: set<nat>,
                    kernel: Page, parent: nat, child: nat, taken: set<nat>)
    requires Grew(m0, held0, available0, taken, mem, held, available)
    requires parent in m0 && UserMapped(m0, m0[parent])
    requires child in mem && IsTree(mem, kernel, child) && OwnedFrames(mem, kernel, child) == taken
    requires UserMapped(mem, mem[child]) && AllPrivate(kernel, mem[child])
    ensures parent in mem && UserSide(mem, child) <= taken && UserSide(mem, parent) <= m0.Keys
    ensures UserSide(mem, child) !! UserSide(mem, parent)
    ensures TablesUnmapped(mem, parent) <==> TablesUnmapped(m0, parent)
  {
    OwnedIsUserSide(mem, kernel, child);
    ClosedSideInside(m0, mem, parent);
    hide UserSide, IsTree, OwnedFrames, AllPrivate, TablesUnmapped;
    SideKept(m0, mem, parent);
  }

  lemma ClosedSideInside(m0: Memory, mem: Memory, root: nat)
    requires root in m0 && UserMapped(m0, m0[root]) && Keeps(m0, mem)
    ensures root in mem && UserSide(mem, root) <= m0.Keys
  {
    forall i: nat | SHARED_SLOTS <= i < KERNEL_SLOT && Present(m0[root][i])
      ensures FrameOf(m0[root][i]) in m0
      ensures forall j :: 0 <= j < ENTRIES && Present(m0[FrameOf(m0[root][i])][j]) ==>
        FrameOf(m0[FrameOf(m0[root][i])][j]) in m0
    {
      assert Closed(m0, m0[root][i]);
    }
  }

  /** An address space that was there before is led where it was. */
  lemma SideKept(m0: Memory, mem: Memory, root: nat)
    requires root in m0 && UserMapped(m0, m0[root]) && Keeps(m0, mem)
    ensures TablesUnmapped(mem, root) <==> TablesUnmapped(m0, root)
  {
    forall i: nat, j: nat | SHARED_SLOTS <= i < KERNEL_SLOT && j < ENTRIES
      ensures MapsPage(mem, mem[root], i, j) <==> MapsPage(m0, m0[root], i, j)
      ensures MapsPage(m0, m0[root], i, j) ==> PageAt(mem, mem[root], i, j) == PageAt(m0, m0[root], i, j)
    {
      assert Closed(m0, m0[root][i]);
    }
    assert UserPages(mem, root) == UserPages(m0, root);
    assert UserTables(mem, root) == UserTables(m0, root);
  }

  /** With every user slot private, all that user code is led to belongs to the directory's tree. */
  lemma OwnedIsUserSide(mem: Memory, kernel: Page, root: nat)
    requires IsTree(mem, kernel, root) && AllPrivate(kernel, mem[root])
    ensures UserSide(mem, root) <= OwnedFrames(mem, kernel, root)
  {
    forall i: nat | SHARED_SLOTS <= i < KERNEL_SLOT && Present(mem[root][i])
      ensures FrameOf(mem[root][i]) in mem && FrameOf(mem[root][i]) in OwnedFrames(mem, kernel, root)
      ensures forall j: nat :: j < ENTRIES && Present(mem[FrameOf(mem[root][i])][j]) ==>
        FrameOf(mem[FrameOf(mem[root][i])][j]) in OwnedFrames(mem, kernel, root)
    {
      SlotInTree(mem, kernel, mem[root], i);
      forall j: nat | j < ENTRIES && Present(mem[FrameOf(mem[root][i])][j])
        ensures FrameOf(mem[FrameOf(mem[root][i])][j]) in SlotFrames(mem, kernel, mem[root], i)
      {
        PageInTable(mem[FrameOf(mem[root][i])], j, ENTRIES);
      }
    }
  }

  // ----- any interleaving of stores -----

  /** No table is mapped as a page: user code cannot change where its own accesses go. */
  ghost predicate TablesUnmapped(mem: Memory, root: nat) {
    root in mem && UserTables(mem, root) !! UserPages(mem, root)
  }

  /** Stores of the two address spaces in some order; true marks those of b. */
  function StoredAll(mem: Memory, a: nat, b: nat, stores: seq<(bool, UserStore)>): (r: Memory) {
    if stores == [] then mem
    else StoredAll(Stored(mem, if stores[0].0 then b else a, stores[0].1), a, b, stores[1..])
  }

  function OnlyOf(stores: seq<(bool, UserStore)>): (r: seq<(bool, UserStore)>) {
    if stores == [] then [] else if stores[0].0 then [stores[0]] + OnlyOf(stores[1..]) else OnlyOf(stores[1..])
  }

  /** One store leaves its own tables and reachable pages what they were. */
  lemma StoreKeepsSide(mem: Memory, a: nat, st: UserStore)
    requires TablesUnmapped(mem, a)
    ensures TablesUnmapped(Stored(mem, a, st), a)
    ensures UserTables(Stored(mem, a, st), a) == UserTables(mem, a)
    ensures UserPages(Stored(mem, a, st), a) == UserPages(mem, a)
  {
    var mem' := Stored(mem, a, st);
    StoreReaches(mem, a, st);
    assert a in UserTables(mem, a);
    forall i: nat, j: nat | SHARED_SLOTS <= i < KERNEL_SLOT && j < ENTRIES
      ensures MapsPage(mem', mem'[a], i, j) <==> MapsPage(mem, mem[a], i, j)
      ensures MapsPage(mem, mem[a], i, j) ==> PageAt(mem', mem'[a], i, j) == PageAt(mem, mem[a], i, j)
    {
      if Present(mem[a][i]) {
        assert FrameOf(mem[a][i]) in UserTables(mem, a);
      }
    }
  }

  /** The same store in two memories that agree on what b sees leaves them agreeing. */
  lemma StoreAgrees(mem: Memory, other: Memory, b: nat, st: UserStore)
    requires b in mem && other.Keys == mem.Keys && forall f :: f in UserSide(mem, b) && f in mem ==> other[f] == mem[f]
    ensures forall f :: f in UserSide(mem, b) && f in mem ==> Stored(other, b, st)[f] == Stored(mem, b, st)[f]
  {
    SameSideSameViews(mem, other, b);
    assert b in UserTables(mem, b);
    if SHARED_SLOTS <= st.i < KERNEL_SLOT && st.j < ENTRIES {
      if Present(mem[b][st.i]) {
        assert FrameOf(mem[b][st.i]) in UserTables(mem, b);
        if MapsPage(mem, mem[b], st.i, st.j) {
          assert PageAt(mem, mem[b], st.i, st.j) in UserPages(mem, b);
        }
      }
    }
  }

  /** However the stores of two separate address spaces interleave, each sees only its own: the outcome for b
      is that of b's stores alone. */
  lemma {:induction false} OnlyOwnStoresSeen(mem: Memory, other: Memory, a: nat, b: nat, stores: seq<(bool, UserStore)>)
    requires TablesUnmapped(mem, a) && TablesUnmapped(mem, b) && UserSide(mem, a) !! UserSide(mem, b)
    requires other.Keys == mem.Keys && forall f :: f in UserSide(mem, b) && f in mem ==> other[f] == mem[f]
    ensures SameUserViews(StoredAll(other, a, b, OnlyOf(stores)), StoredAll(mem, a, b, stores), b)
    decreases |stores|
  {
    hide UserPages, UserTables, Stored, MapsPage;
    if stores == [] {
      SameSideSameViews(mem, other, b);
      SameViewsSymmetric(mem, other, b);
    } else {
      var st := stores[0].1;
      if stores[0].0 {
        StoreKeepsSide(mem, b, st);
        StoreReaches(mem, b, st);
        SameSideSameViews(mem, Stored(mem, b, st), a);
        StoreAgrees(mem, other, b, st);
        OnlyOwnStoresSeen(Stored(mem, b, st), Stored(other, b, st), a, b, stores[1..]);
        var own := OnlyOf(stores);
        assert own[0] == stores[0] && own[1..] == OnlyOf(stores[1..]);
      } else {
        StoreKeepsSide(mem, a, st);
        StoreReaches(mem, a, st);
        SameSideSameViews(mem, Stored(mem, a, st), b);
        OnlyOwnStoresSeen(Stored(mem, a, st), other, a, b, stores[1..]);
      }
    }
  }

  lemma SameViewsSymmetric(mem: Memory, mem': Memory, root: nat)
    requires SameUserViews(mem, mem', root)
    ensures SameUserViews(mem', mem, root)
  {
  }

  /** A directory that owns a tree maps none of its tables. */
  lemma TreeTablesUnmapped(mem: Memory, kernel: Page, root: nat)
    requires IsTree(mem, kernel, root) && AllPrivate(kernel, mem[root])
    ensures TablesUnmapped(mem, root)
  {
    forall i: nat, j: nat | SHARED_SLOTS <= i < KERNEL_SLOT && j < ENTRIES && MapsPage(mem, mem[root], i, j)
      ensures PageAt(mem, mem[root], i, j) !in UserTables(mem, root)
    {
      var f := PageAt(mem, mem[root], i, j);
      PageOfSlot(mem, kernel, root, i, j);
      forall k: nat | SHARED_SLOTS <= k < KERNEL_SLOT && Present(mem[root][k])
        ensures FrameOf(mem[root][k]) != f
      {
        TableOfSlot(mem, kernel, root, i, k, f);
      }
    }
  }

  lemma PageOfSlot(mem: Memory, kernel: Page, root: nat, i: nat, j: nat)
    requires IsTree(mem, kernel, root) && AllPrivate(kernel, mem[root])
    requires SHARED_SLOTS <= i < KERNEL_SLOT && j < ENTRIES && MapsPage(mem, mem[root], i, j)
    ensures PageAt(mem, mem[root], i, j) in PagesBelow(mem[FrameOf(mem[root][i])], ENTRIES)
    ensures PageAt(mem, mem[root], i, j) in SlotFrames(mem, kernel, mem[root], i)
    ensures PageAt(mem, mem[root], i, j) != root && PageAt(mem, mem[root], i, j) != FrameOf(mem[root][i])
  {
    SlotInTree(mem, kernel, mem[root], i);
    PageInTable(mem[FrameOf(mem[root][i])], j, ENTRIES);
  }

  /** A page of slot i is not the table of another slot. */
  lemma TableOfSlot(mem: Memory, kernel: Page, root: nat, i: nat, k: nat, f: nat)
    requires IsTree(mem, kernel, root) && AllPrivate(kernel, mem[root])
    requires SHARED_SLOTS <= i < KERNEL_SLOT && SHARED_SLOTS <= k < KERNEL_SLOT && Present(mem[root][k])
    requires f in SlotFrames(mem, kernel, mem[root], i) && (i == k ==> f != FrameOf(mem[root][k]))
    ensures FrameOf(mem[root][k]) != f
  {
    SlotInTree(mem, kernel, mem[root], i);
    SlotInTree(mem, kernel, mem[root], k);
    if i < k {
      SlotFramesBelow(mem, kernel, mem[root], i, k);
    } else if k < i {
      SlotFramesBelow(mem, kernel, mem[root], k, i);
    }
  }

  lemma {:induction false} SlotFramesBelow(mem: Memory, kernel: Page, dir: Page, i: nat, n: nat)
    requires i < n <= KERNEL_SLOT
    ensures SlotFrames(mem, kernel, dir, i) <= FramesBelow(mem, kernel, dir, n)
    decreases n
  {
    if i + 1 < n {
      SlotFramesBelow(mem, kernel, dir, i, n - 1);
    }
  }
}
