/** The vmalloc heap as several processes see it: vmm_map_page enters a page in the directory of whoever runs, and
    processes share a kernel table only if the kernel's own directory had it when they were made. */
module SharedHeap {
  import opened Common
  import opened Paging
  import HeapList
  import VirtualMemory

  /** The directory and table slots of an address. */
  function DirSlot(address: nat): (i: nat) {
    address / PAGE_SIZE / ENTRIES
  }

  function TableSlot(address: nat): (j: nat) {
    address / PAGE_SIZE % ENTRIES
  }

  /** A table with one entry. */
  function NewTable(j: nat, e: nat): (t: Page)
    ensures forall k :: 0 <= k < ENTRIES ==> t[k] == if k == j then e else 0
  {
    seq(ENTRIES, k => if k == j then e else 0)
  }

  /** vmm_map_page by whoever runs on the directory root, with a frame in hand for the page and one for a table. */
  function MapKernelPage(mem: Memory, root: nat, i: nat, j: nat, page: nat, table: nat): (r: Memory)
    requires root in mem && i < ENTRIES && j < ENTRIES
    requires Present(mem[root][i]) ==> FrameOf(mem[root][i]) in mem
  {
    if !Present(mem[root][i]) then
      mem[root := mem[root][i := Entry(table, 7)]][table := NewTable(j, Entry(page, 1))]
    else
      var t := FrameOf(mem[root][i]);
      if Present(mem[t][j]) then mem else mem[t := mem[t][j := Entry(page, 1)]]
  }

  /** The kernel half as setup_kvm copies it. */
  ghost predicate HasKernelSlots(dir: Page, kernel: Page) {
    forall i :: KERNEL_SLOT <= i < ENTRIES - 1 ==> dir[i] == if Present(kernel[i]) then kernel[i] else 0
  }

  /** A page nobody had at that address, mapped while process a runs, where b is another: b sees it exactly when the
      kernel's directory had the table. */
  lemma MappingSeenExactly(mem: Memory, kernel: Page, a: nat, b: nat, i: nat, j: nat, page: nat, table: nat)
    requires a in mem && b in mem && a != b && HasKernelSlots(mem[a], kernel) && HasKernelSlots(mem[b], kernel)
    requires KERNEL_SLOT <= i < ENTRIES - 1 && j < ENTRIES && page in mem && table !in mem
    requires Present(kernel[i]) ==>
      FrameOf(kernel[i]) in mem && FrameOf(kernel[i]) !in {a, b, page} && !Present(mem[FrameOf(kernel[i])][j])
    ensures
      var mem' := MapKernelPage(mem, a, i, j, page, table);
      && a in mem' && b in mem' && page in mem' && View(mem', mem'[a], i, j).Mapped?
      && (View(mem', mem'[b], i, j).Mapped? <==> Present(kernel[i]))
      && (Present(kernel[i]) ==> View(mem', mem'[b], i, j) == View(mem', mem'[a], i, j))
  {
    EntryParts(table, 7);
    EntryParts(page, 1);
  }

  /** The kernel's directory after boot: the direct map, and vmalloc_init's one table. */
  ghost predicate AfterBoot(kernel: Page, ram: nat) {
    forall i :: KERNEL_SLOT <= i < ENTRIES - 1 ==>
      (Present(kernel[i])
       <==> VirtualMemory.DirectMapped(ram, i * ENTRIES * PAGE_SIZE) || i == DirSlot(HeapList.HEAP_START))
  }

  /** A heap page that one process comes to map is seen by every other one exactly when it is among the first 1024. */
  lemma HeapPageSeenExactly(mem: Memory, kernel: Page, ram: nat, a: nat, b: nat, p: nat, page: nat, table: nat)
    requires ram <= VirtualMemory.HEAP_LIMIT && AfterBoot(kernel, ram)
    requires HeapList.AddressOf(p + 1) <= WORD32 - ENTRIES * PAGE_SIZE
    requires a in mem && b in mem && a != b && HasKernelSlots(mem[a], kernel) && HasKernelSlots(mem[b], kernel)
    requires page in mem && table !in mem
    requires
      var i, j := DirSlot(HeapList.AddressOf(p)), TableSlot(HeapList.AddressOf(p));
      i < ENTRIES && Present(kernel[i]) ==>
        FrameOf(kernel[i]) in mem && FrameOf(kernel[i]) !in {a, b, page} && !Present(mem[FrameOf(kernel[i])][j])
    ensures
      var i, j := DirSlot(HeapList.AddressOf(p)), TableSlot(HeapList.AddressOf(p));
      && KERNEL_SLOT <= i < ENTRIES - 1 && j < ENTRIES && (Present(mem[a][i]) ==> FrameOf(mem[a][i]) in mem)
      && var mem' := MapKernelPage(mem, a, i, j, page, table);
      && a in mem' && b in mem' && View(mem', mem'[a], i, j).Mapped?
      && (View(mem', mem'[b], i, j).Mapped? <==> p < 1024)
  {
    hide FrameOf, View, MapKernelPage;
    var i, j := DirSlot(HeapList.AddressOf(p)), TableSlot(HeapList.AddressOf(p));
    HeapSlots(p);
    assert !VirtualMemory.DirectMapped(ram, i * ENTRIES * PAGE_SIZE);
    MappingSeenExactly(mem, kernel, a, b, i, j, page, table);
  }

  lemma HeapSlots(p: nat)
    requires HeapList.AddressOf(p + 1) <= WORD32 - ENTRIES * PAGE_SIZE
    ensures var i := DirSlot(HeapList.AddressOf(p));
      832 <= i < ENTRIES - 1 && i == 832 + p / ENTRIES && (i == DirSlot(HeapList.HEAP_START) <==> p < ENTRIES)
  {
    assert HeapList.AddressOf(p) / PAGE_SIZE == 832 * ENTRIES + p;
  }
}
