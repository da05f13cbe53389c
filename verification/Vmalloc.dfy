/** vmalloc.c and vfree.c over mapped pages: every node and header is reached through the page it
    lives in, so no access goes to an unmapped page. */
module VirtualMemory {
  import opened Common
  import opened HeapExtents
  import opened HeapList
  import opened Frames

  const NODE_SIZE: nat := 8

  // ----- sizes -----

  /** ALIGN(n + sizeof(block_header_t), PAGE_SIZE) in 32-bit arithmetic. */
  function TotalSize(n: nat): (r: nat)
    requires n < WORD32
  {
    ((n + HEADER_SIZE) % WORD32 + (PAGE_SIZE - 1)) % WORD32 / PAGE_SIZE * PAGE_SIZE
  }

  /** The size computed holds the request exactly when the sum does not wrap. */
  lemma TotalSizeHoldsExactly(n: nat)
    requires n < WORD32
    ensures n + HEADER_SIZE <= TotalSize(n) <==> n + HEADER_SIZE <= WORD32 - PAGE_SIZE
  {
  }

  /** Past the wrap a request is taken for one page, or for none at all. */
  lemma WrappedSizeExactly(n: nat)
    requires n < WORD32
    ensures TotalSize(n) == 0 <==> WORD32 - PAGE_SIZE < n + HEADER_SIZE <= WORD32
    ensures n + HEADER_SIZE > WORD32 ==> TotalSize(n) == PAGE_SIZE
    ensures TotalSize(0xFFFF_F001) == 0 && TotalSize(0xFFFF_EFF4) == 0xFFFF_F000 && TotalSize(0xFFFF_EFF5) == 0
    ensures TotalSize(4084) == 4096 && TotalSize(4085) == 8192
  {
  }

  /** The pages a request of n bytes takes. */
  function PagesFor(n: nat): (r: nat)
    requires n < WORD32
  {
    TotalSize(n) / PAGE_SIZE
  }

  lemma PagesForBytes(n: nat)
    requires n < WORD32
    ensures TotalSize(n) == Bytes(PagesFor(n)) && (PagesFor(n) > 0 <==> TotalSize(n) > 0)
    ensures n + HEADER_SIZE <= WORD32 - PAGE_SIZE ==> Bytes(PagesFor(n) - 1) < n + HEADER_SIZE <= Bytes(PagesFor(n))
  {
  }

  /** How many of the n pages from page on are in s. */
  function CountIn(s: set<nat>, page: nat, n: nat): (c: nat) {
    if n == 0 then 0 else CountIn(s, page, n - 1) + (if page + n - 1 in s then 1 else 0)
  }

  lemma CountNext(s: set<nat>, page: nat, n: nat)
    ensures CountIn(s, page, n + 1) == CountIn(s, page, n) + if page + n in s then 1 else 0
  {
  }

  lemma CountNone(s: set<nat>, page: nat)
    ensures CountIn(s, page, 0) == 0
  {
  }

  lemma {:induction false} CountAgrees(s: set<nat>, s': set<nat>, page: nat, n: nat)
    requires forall p :: page <= p < page + n ==> (p in s <==> p in s')
    ensures CountIn(s, page, n) == CountIn(s', page, n)
  {
    if n > 0 {
      CountAgrees(s, s', page, n - 1);
    }
  }

  /** The pages of a block and, when it was split off, the page of the rest's node. */
  lemma CountSplit(before: set<nat>, after: set<nat>, page: nat, m: nat, size: nat)
    requires m <= size && (if m < size then after == before + {page + m} else after == before)
    ensures CountIn(after, page, m) == CountIn(before, page, m)
    ensures m < size ==>
      CountIn(before, page, m + 1) == CountIn(before, page, m) + (if page + m in before then 1 else 0)
  {
    CountAgrees(before, after, page, m);
  }

  // ----- where the heap lies -----

  const ZONE_NORMAL: nat := 896 * 1024 * 1024
  /** The bytes of the direct map below the heap: 256 MiB. */
  const HEAP_LIMIT: nat := HEAP_START - KERNBASE

  datatype Start = Running | NoFrame | OverDirectMap

  /** vmm_init_pages maps physical memory, up to ZONE_NORMAL, from KERNBASE on. */
  predicate DirectMapped(ram: nat, address: nat) {
    KERNBASE <= address < KERNBASE + if ZONE_NORMAL > ram then ram else ZONE_NORMAL
  }

  /** The address range of a heap of memory bytes is unmapped at the start exactly on machines with at most
      HEAP_LIMIT bytes of memory; above that its very first page is not. */
  lemma HeapUnmappedExactly(ram: nat, memory: nat)
    requires PAGE_SIZE <= memory <= ram
    ensures (forall a :: 0xD000_0000 <= a < 0xD000_0000 + memory ==> !DirectMapped(ram, a)) <==> ram <= 0x1000_0000
    ensures DirectMapped(ram, HEAP_START) <==> ram > HEAP_LIMIT
    ensures ram <= HEAP_LIMIT ==> HEAP_START + memory < WORD32 - 1
  {
    if ram > HEAP_LIMIT {
      assert DirectMapped(ram, HEAP_START);
    }
  }

  // ----- how many frames mapping takes -----

  /** The frames that mapping one page takes: the page's own, used or lost, and a table's if there is none. */
  function PageCost(slots: set<nat>, page: nat): (c: nat) {
    if page / ENTRIES in slots then 1 else 2
  }

  /** Those for n pages from page on. */
  function MapCost(slots: set<nat>, page: nat, n: nat): (c: nat)
    decreases n
  {
    if n == 0 then 0 else PageCost(slots, page) + MapCost(slots + {page / ENTRIES}, page + 1, n - 1)
  }

  lemma CostNext(slots: set<nat>, page: nat, n: nat)
    requires n > 0
    ensures MapCost(slots, page, n) == PageCost(slots, page) + MapCost(slots + {page / ENTRIES}, page + 1, n - 1)
  {
  }

  lemma CostNone(slots: set<nat>, page: nat)
    ensures MapCost(slots, page, 0) == 0
  {
  }

  /** Those for the first m pages of an extent: the rest's node first, when there is a rest. */
  function BlockCost(slots: set<nat>, page: nat, m: nat, size: nat): (c: nat) {
    if m < size then PageCost(slots, page + m) + MapCost(slots + {(page + m) / ENTRIES}, page, m)
    else MapCost(slots, page, m)
  }

  // ----- who uses which frame -----

  /** Distinct heap pages have distinct frames, apart from the frames of page tables and from those
      lost when a page turned out to be mapped already; all of them are held from the allocator. */
  ghost predicate Accounted(pages: map<nat, nat>, tables: map<nat, nat>, lost: set<nat>, ram: map<nat, Cell>,
                            held: set<nat>) {
    && (forall p :: p in pages ==> pages[p] in ram && pages[p] in held && pages[p] !in lost)
    && (forall p, q :: p in pages && q in pages && p != q ==> pages[p] != pages[q])
    && (forall t :: t in tables ==> tables[t] in held && tables[t] !in lost)
    && (forall t, u :: t in tables && u in tables && t != u ==> tables[t] != tables[u])
    && (forall t, p :: t in tables && p in pages ==> tables[t] != pages[p])
    && lost <= held
  }

  function ViewOf(pages: map<nat, nat>, ram: map<nat, Cell>): (v: View) {
    map p | p in pages && pages[p] in ram :: ram[pages[p]]
  }

  lemma LoseFrame(pages: map<nat, nat>, tables: map<nat, nat>, lost: set<nat>, ram: map<nat, Cell>, held: set<nat>,
                  f: nat)
    requires Accounted(pages, tables, lost, ram, held) && f !in held
    ensures Accounted(pages, tables, lost + {f}, ram, held + {f}) && |lost + {f}| == |lost| + 1
  {
  }

  lemma AddTable(pages: map<nat, nat>, tables: map<nat, nat>, lost: set<nat>, ram: map<nat, Cell>, held: set<nat>,
                 slot: nat, f: nat)
    requires Accounted(pages, tables, lost, ram, held) && f !in held
    ensures Accounted(pages, tables[slot := f], lost, ram, held + {f})
  {
  }

  /** A frame that is held but not used for anything yet may be mapped, lost or made a table. */
  lemma AddPage(pages: map<nat, nat>, tables: map<nat, nat>, lost: set<nat>, ram: map<nat, Cell>, held: set<nat>,
                p: nat, f: nat, c: Cell)
    requires Accounted(pages, tables, lost, ram, held) && f !in held && p !in pages
    ensures Accounted(pages[p := f], tables, lost, ram[f := c], held + {f})
    ensures SameBut(ViewOf(pages, ram), ViewOf(pages[p := f], ram[f := c]), {})
  {
  }

  lemma StoreCell(pages: map<nat, nat>, tables: map<nat, nat>, lost: set<nat>, ram: map<nat, Cell>, held: set<nat>,
                  p: nat, c: Cell)
    requires Accounted(pages, tables, lost, ram, held) && p in pages
    ensures Accounted(pages, tables, lost, ram[pages[p] := c], held)
    ensures ViewOf(pages, ram[pages[p] := c]) == ViewOf(pages, ram)[p := c]
  {
  }

  lemma DropPage(pages: map<nat, nat>, tables: map<nat, nat>, lost: set<nat>, ram: map<nat, Cell>, held: set<nat>,
                 p: nat)
    requires Accounted(pages, tables, lost, ram, held) && p in pages
    ensures pages[p] in held && Accounted(pages - {p}, tables, lost, ram, held - {pages[p]})
    ensures ViewOf(pages - {p}, ram) == ViewOf(pages, ram) - {p}
  {
  }

  lemma ViewKeys(pages: map<nat, nat>, tables: map<nat, nat>, lost: set<nat>, ram: map<nat, Cell>, held: set<nat>)
    requires Accounted(pages, tables, lost, ram, held)
    ensures ViewOf(pages, ram).Keys == pages.Keys
  {
  }

  lemma SameButStore(v0: View, v1: View, p: nat, c: Cell)
    requires SameBut(v0, v1, {})
    ensures SameBut(v0, v1[p := c], {p}) && v0.Keys <= v1.Keys
  {
  }

  lemma SameButSelf(v: View)
    ensures SameBut(v, v, {})
  {
  }

  lemma SameButThenNothing(v0: View, v1: View, v2: View, a: set<nat>)
    requires SameBut(v0, v1, a) && SameBut(v1, v2, {})
    ensures SameBut(v0, v2, a)
  {
  }

  datatype Result = Null | Block(address: nat) | Halted

  datatype Outcome = Ignored | Corrupt | Freed | Aborted

  // ----- where the first-fit walk is -----

  /** Only free extents can fit. */
  lemma FitBetween(s: seq<Extent>, n: nat, k: nat)
    requires k <= |s| && k <= FirstFit(s, n)
    ensures NextFree(s, k) <= FirstFit(s, n)
    ensures NextFree(s, k) < |s| && s[NextFree(s, k)].pages >= n ==> FirstFit(s, n) == NextFree(s, k)
  {
  }

  /** What the walk finds at the free extent it reaches. */
  lemma WalkStep(s: seq<Extent>, view: View, n: nat, k: nat)
    requires k <= |s| && k <= FirstFit(s, n) && Linked(s, NULL, view) && AllRecorded(s, view)
    ensures
      var i := NextFree(s, k);
      FirstFree(s[k..], NULL) == if i < |s| then AddressOf(s[i].page) else NULL
    ensures
      var i := NextFree(s, k);
      if i < |s| then
        && s[i].page in view && view[s[i].page].w0 == Bytes(s[i].pages)
        && view[s[i].page].w1 == FirstFree(s[i + 1..], NULL)
        && LastFree(s[..i]) == LastFree(s[..k]) && LastFree(s[..i + 1]) == i
        && PageAt(AddressOf(s[i].page)) == s[i].page
        && if s[i].pages >= n then FirstFit(s, n) == i else i + 1 <= FirstFit(s, n)
      else
        FirstFit(s, n) == |s| && LastFree(s[..|s|]) == LastFree(s[..k])
  {
    FirstFreeIsNext(s, k, NULL);
    var i := NextFree(s, k);
    FitBetween(s, n, k);
    if i < |s| {
      LinkedAt(s, NULL, view, i);
      LastFreeUpTo(s, k, i);
      assert Recorded(s[i], view);
      if s[i].pages < n {
        FitAfter(s, n, i);
      }
    } else {
      NoFitAfter(s, n, k);
    }
  }

  lemma NothingBefore()
    ensures LastFree([]) < 0
  {
  }

  lemma FitAfter(s: seq<Extent>, n: nat, i: nat)
    requires i < |s| && i <= FirstFit(s, n) && s[i].pages < n
    ensures i + 1 <= FirstFit(s, n)
  {
  }

  lemma NoFitAfter(s: seq<Extent>, n: nat, k: nat)
    requires k <= |s| && k <= FirstFit(s, n) && NextFree(s, k) == |s|
    ensures FirstFit(s, n) == |s| && LastFree(s[..|s|]) == LastFree(s[..k])
  {
    if k < |s| {
      LastFreeUpTo(s, k, |s| - 1);
      assert s[..|s|] == s[..|s| - 1] + [s[|s| - 1]];
      LastFreeConcat(s[..|s| - 1], s[|s| - 1]);
    }
  }

  lemma NoHeadNoFit(s: seq<Extent>, m: nat)
    requires FirstFree(s, NULL) == NULL
    ensures FirstFit(s, m) == |s|
  {
    FirstFreeIsNext(s, 0, NULL);
    assert s[0..] == s;
  }

  /** What vmalloc reads at the extent the walk stopped at. */
  lemma AtFit(s: seq<Extent>, total: nat, view: View, m: nat)
    requires Tiles(s, 0, total) && Linked(s, NULL, view) && AllRecorded(s, view) && FirstFit(s, m) < |s|
    ensures
      var i := FirstFit(s, m);
      && s[i].free && s[i].pages >= m && s[i].pages > 0 && PageAt(AddressOf(s[i].page)) == s[i].page
      && s[i].page in view && view[s[i].page].w0 == Bytes(s[i].pages)
      && view[s[i].page].w1 == FirstFree(s[i + 1..], NULL)
      && PageAt(AddressOf(s[i].page) + Bytes(m)) == s[i].page + m
      && AddressOf(s[i].page) + Bytes(m) == AddressOf(s[i].page + m)
      && (LastFree(s[..i]) >= 0 ==>
           && PageAt(LastFreeAddress(s[..i])) == LastFreePage(s[..i], 0) < s[i].page
           && LastFreePage(s[..i], 0) in view && LastFreeAddress(s[..i]) >= HEAP_START)
  {
    var i := FirstFit(s, m);
    LinkedAt(s, NULL, view, i);
    TilesOrdered(s, 0, total, i);
    assert Recorded(s[i], view);
    var k := LastFree(s[..i]);
    if k >= 0 {
      assert Recorded(s[k], view);
      TilesApart(s, 0, total, k, i);
    }
  }

  /** A free extent of no pages at least is found first: none lies before it. */
  lemma {:induction false} FirstOfAll(s: seq<Extent>, i: nat)
    requires i == FirstFit(s, 0) < |s|
    ensures LastFree(s[..i]) < 0
  {
    assert forall j :: 0 <= j < i ==> s[..i][j] == s[j];
  }

  lemma BytesWhole(n: nat)
    ensures Bytes(n) % 256 == 0
  {
    assert Bytes(n) == 256 * (16 * n);
  }

  /** Where the list begins, a node records a whole number of pages. */
  lemma {:induction false} NodeIsRecorded(s: seq<Extent>, view: View, page: nat)
    requires AllRecorded(s, view) && FirstFree(s, NULL) == AddressOf(page)
    ensures page in view && view[page].w0 % 256 == 0
  {
    hide Bytes;
    assert Recorded(s[0], view);
    BytesWhole(s[0].pages);
    if !s[0].free {
      assert forall k :: 0 <= k < |s[1..]| ==> s[1..][k] == s[k + 1];
      NodeIsRecorded(s[1..], view, page);
    }
  }

  /** Sizes are whole pages, so what a split leaves is never too small for a node. */
  lemma SplitSize(pages: nat, m: nat)
    requires m <= pages
    ensures Bytes(pages) - Bytes(m) > NODE_SIZE <==> m < pages
    ensures Bytes(pages) - Bytes(m) == Bytes(pages - m)
  {
  }

  /** The node of the rest, if any, is written (v1), and what came before extent i leads to it (v2). */
  ghost predicate Detached(s: seq<Extent>, i: nat, n: nat, v0: View, v1: View, v2: View, next: nat)
    requires i < |s| && s[i].free && n <= s[i].pages
  {
    && SameBut(v0, v1, if n < s[i].pages then {s[i].page + n} else {}) && v0.Keys <= v1.Keys
    && (n < s[i].pages ==> s[i].page + n in v1 && v1[s[i].page + n].w0 == Bytes(s[i].pages - n))
    && (n < s[i].pages ==> v1[s[i].page + n].w1 == FirstFree(s[i + 1..], NULL))
    && next == (if n < s[i].pages then AddressOf(s[i].page + n) else FirstFree(s[i + 1..], NULL))
    && (LastFree(s[..i]) < 0 ==> v2 == v1)
    && (LastFree(s[..i]) >= 0 ==>
          && LastFreePage(s[..i], 0) in v1
          && v2 == v1[LastFreePage(s[..i], 0) := v1[LastFreePage(s[..i], 0)].(w1 := next)])
  }

  lemma NextIs(s: seq<Extent>, i: nat, n: nat, v0: View, v1: View, v2: View, next: nat)
    requires i < |s| && s[i].free && 0 < n <= s[i].pages && Detached(s, i, n, v0, v1, v2, next)
    ensures next == NextAfter(s, i, n)
  {
  }

  lemma NextIsSame(s: seq<Extent>, i: nat, v0: View, v1: View, v2: View, next: nat)
    requires i < |s| && s[i].free && 0 < s[i].pages && Detached(s, i, 0, v0, v1, v2, next)
    ensures next == AddressOf(s[i].page)
  {
  }

  /** The list and the records after vmalloc's stores: the new node (v1), the relinked predecessor (v2),
      the mapped pages (v3) and the header (v4). */
  lemma AfterVmalloc(s: seq<Extent>, total: nat, i: nat, n: nat, v0: View, v1: View, v2: View, v3: View, v4: View)
    requires Tiles(s, 0, total) && Linked(s, NULL, v0) && AllRecorded(s, v0) && i < |s| && s[i].free
    requires 0 < n <= s[i].pages
    requires Detached(s, i, n, v0, v1, v2, NextAfter(s, i, n))
    requires SameBut(v2, v3, {}) && forall p :: s[i].page <= p < s[i].page + n ==> p in v3
    requires s[i].page in v3 && s[i].page in v4 && v4 == v3[s[i].page := Cell(v4[s[i].page].w0, Bytes(n), MAGIC)]
    requires v4[s[i].page].w0 % 256 == MEM_TYPE_VMALLOC
    ensures Tiles(Allocate(s, i, n), 0, total) && Linked(Allocate(s, i, n), NULL, v4)
    ensures AllRecorded(Allocate(s, i, n), v4)
    ensures FirstFree(Allocate(s, i, n), NULL) ==
      if LastFree(s[..i]) >= 0 then FirstFree(s, NULL) else NextAfter(s, i, n)
  {
    hide Tiles, Linked, Allocate, FirstFree, NextAfter;
    AllocateTiles(s, 0, total, i, n);
    var k := LastFree(s[..i]);
    if k >= 0 {
      TilesApart(s, 0, total, k, i);
      assert Recorded(s[k], v0);
    }
    AllocateLinked(s, total, i, n, v0, v4);
    AllocateRecorded(s, total, i, n, v0, v4);
  }

  // ----- vfree -----

  /** What the walk of vfree finds: while the next free extent lies before the block it passes it, and
      when none does, it stands between the neighbours. */
  lemma PassStep(s: seq<Extent>, total: nat, view: View, i: nat, k: nat)
    requires Tiles(s, 0, total) && Linked(s, NULL, view) && k <= i < |s| && !s[i].free
    ensures
      var j, here := NextFree(s, k), FirstFree(s[k..], NULL);
      if here != NULL && here < AddressOf(s[i].page) then
        && j < i && here == AddressOf(s[j].page) && here >= HEAP_START && PageAt(here) == s[j].page
        && s[j].page in view && view[s[j].page].w1 == FirstFree(s[j + 1..], NULL) && LastFree(s[..j + 1]) == j
      else
        here == FirstFree(s[i + 1..], NULL) && LastFree(s[..i]) == LastFree(s[..k])
  {
    hide Tiles, Linked, FirstFree, NextFree;
    var j := NextFree(s, k);
    FirstFreeIsNext(s, k, NULL);
    if j < i {
      TilesApart(s, 0, total, j, i);
      LinkedAt(s, NULL, view, j);
      LastFreeUpTo(s, k, j);
    } else {
      if j < |s| {
        TilesApart(s, 0, total, i, j);
      }
      LastFreeUpTo(s, k, i);
      FirstFreeIsNext(s, i + 1, NULL);
      NextFreeSame(s, k, i + 1);
    }
  }

  lemma {:induction false} NextFreeSame(s: seq<Extent>, k: nat, m: nat)
    requires k <= m <= |s| && m <= NextFree(s, k)
    ensures NextFree(s, m) == NextFree(s, k)
    decreases m - k
  {
    if k < m {
      NextFreeSame(s, k + 1, m);
    }
  }

  /** What vfree reads before it changes anything. */
  lemma AtBlock(s: seq<Extent>, total: nat, view: View, i: nat)
    requires Tiles(s, 0, total) && Linked(s, NULL, view) && AllRecorded(s, view) && i < |s| && !s[i].free
    ensures s[i].page in view && view[s[i].page].w1 == Bytes(s[i].pages) && s[i].pages > 0
    ensures Bytes(s[i].pages) / PAGE_SIZE == s[i].pages && PageAt(AddressOf(s[i].page)) == s[i].page
    ensures forall p :: s[i].page <= p < End(s[i]) ==> p in view
    ensures
      var prev, current := LastFreeAddress(s[..i]), FirstFree(s[i + 1..], NULL);
      && (prev != NULL ==>
            prev >= HEAP_START && PageAt(prev) in view && PageAt(prev) == LastFreePage(s[..i], 0) < s[i].page)
      && (current != NULL ==> current >= HEAP_START && PageAt(current) in view)
  {
    assert Recorded(s[i], view);
    TilesOrdered(s, 0, total, i);
    var k, j := LastFree(s[..i]), NextFree(s, i + 1);
    FirstFreeIsNext(s, i + 1, NULL);
    if k >= 0 {
      TilesApart(s, 0, total, k, i);
      assert Recorded(s[k], view);
    }
    if j < |s| {
      assert Recorded(s[j], view);
    }
  }

  /** The last free extent before block i ends where the block starts exactly when it is its neighbour. */
  lemma LeftTouches(s: seq<Extent>, total: nat, i: nat)
    requires Tiles(s, 0, total) && i < |s| && LastFree(s[..i]) >= 0
    ensures End(s[LastFree(s[..i])]) == s[i].page <==> LastIsFree(s[..i])
    ensures LastIsFree(s[..i]) <==> LastFree(s[..i]) == i - 1
  {
    var k := LastFree(s[..i]);
    LastIsLast(s[..i]);
    TilesApart(s, 0, total, k, i);
    if k < i - 1 {
      TilesApart(s, 0, total, k, i - 1);
      TilesOrdered(s, 0, total, i);
    } else {
      TilesOrdered(s, 0, total, i);
    }
  }

  lemma RightTouches(s: seq<Extent>, total: nat, i: nat)
    requires Tiles(s, 0, total) && i < |s|
    ensures
      var j := NextFree(s, i + 1);
      j < |s| ==> (s[j].page == End(s[i]) <==> j == i + 1)
    ensures NextFree(s, i + 1) == i + 1 < |s| <==> i + 1 < |s| && s[i + 1].free
  {
    var j := NextFree(s, i + 1);
    if j < |s| {
      TilesOrdered(s, 0, total, i + 1);
      if j > i + 1 {
        TilesApart(s, 0, total, i + 1, j);
      }
    }
  }

  /** The words vfree's first half leaves: the block's size, and the predecessor grown or relinked. */
  ghost predicate LeftJoined(s: seq<Extent>, i: nat, v0: View, v1: View)
    requires i < |s|
  {
    var page, left := s[i].page, s[..i];
    page in v0 &&
    var v := v0[page := v0[page].(w0 := Bytes(s[i].pages))];
    if LastFree(left) < 0 then v1 == v
    else
      var p := LastFreePage(left, 0);
      && p in v0
      && if LastIsFree(left) then v1 == v[p := v0[p].(w0 := Bytes(left[|left| - 1].pages) + Bytes(s[i].pages))]
         else v1 == v[p := v0[p].(w1 := AddressOf(page))]
  }

  lemma IsLeftJoined(s: seq<Extent>, i: nat, v0: View, v1: View)
    requires i < |s| && s[i].page in v0
    requires
      var v := v0[s[i].page := v0[s[i].page].(w0 := Bytes(s[i].pages))];
      if LastFree(s[..i]) < 0 then v1 == v
      else
        var p := LastFreePage(s[..i], 0);
        && p in v0
        && if LastIsFree(s[..i]) then v1 == v[p := v0[p].(w0 := Bytes(s[..i][i - 1].pages) + Bytes(s[i].pages))]
           else v1 == v[p := v0[p].(w1 := AddressOf(s[i].page))]
    ensures LeftJoined(s, i, v0, v1)
  {
  }

  lemma LeftFacts(s: seq<Extent>, total: nat, view: View, i: nat)
    requires Tiles(s, 0, total) && AllRecorded(s, view) && i < |s| && !s[i].free
    ensures
      var left, prev := s[..i], LastFreeAddress(s[..i]);
      LastFree(left) >= 0 ==>
        && LastFreePage(left, 0) in view && prev == AddressOf(LastFreePage(left, 0))
        && PageAt(prev) == LastFreePage(left, 0) < s[i].page
        && (prev + view[PageAt(prev)].w0 == AddressOf(s[i].page) <==> LastIsFree(left))
        && (LastIsFree(left) ==> view[PageAt(prev)].w0 == Bytes(left[|left| - 1].pages))
    ensures Merged(s[..i], s[i], s[i + 1..]).page == if LastIsFree(s[..i]) then LastFreePage(s[..i], 0) else s[i].page
  {
    var left := s[..i];
    var k := LastFree(left);
    LastIsLast(left);
    if k >= 0 {
      assert Recorded(s[k], view);
      LeftTouches(s, total, i);
      TilesApart(s, 0, total, k, i);
    }
  }

  lemma RightFacts(s: seq<Extent>, total: nat, v0: View, v1: View, i: nat)
    requires Tiles(s, 0, total) && Linked(s, NULL, v0) && AllRecorded(s, v0) && i < |s| && !s[i].free
    requires LeftJoined(s, i, v0, v1)
    ensures
      var x, current := Merged(s[..i], s[i], s[i + 1..]), FirstFree(s[i + 1..], NULL);
      && x.page in v1 && PageAt(AddressOf(x.page)) == x.page
      && (current != NULL ==> current >= HEAP_START && PageAt(current) in v1)
      && (current != NULL && AddressOf(x.page) + v1[x.page].w0 == current ==>
           && v1[x.page].w0 + v1[PageAt(current)].w0 == Bytes(x.pages)
           && v1[PageAt(current)].w1 == FirstFree(RightRest(s[i + 1..]), NULL))
      && (!(current != NULL && AddressOf(x.page) + v1[x.page].w0 == current) ==>
           && v1[x.page].w0 == Bytes(x.pages)
           && current == FirstFree(RightRest(s[i + 1..]), NULL))
  {
    hide Tiles, Linked, FirstFree, LastFree, NextFree;
    var right, j := s[i + 1..], NextFree(s, i + 1);
    var x := Merged(s[..i], s[i], right);
    LeftFacts(s, total, v0, i);
    LeftEnds(s, total, i);
    FirstFreeIsNext(s, i + 1, NULL);
    RightTouches(s, total, i);
    if j < |s| {
      LinkedAt(s, NULL, v0, j);
      assert Recorded(s[j], v0);
      TilesApart(s, 0, total, i, j);
      if LastFree(s[..i]) >= 0 {
        TilesApart(s, 0, total, LastFree(s[..i]), j);
      }
      if j == i + 1 {
        assert right[0] == s[i + 1] && right[1..] == s[i + 2..];
      }
    }
    assert right != [] ==> right[0] == s[i + 1];
  }

  /** The freed extent, joined on the left, still ends where the block ended. */
  lemma LeftEnds(s: seq<Extent>, total: nat, i: nat)
    requires Tiles(s, 0, total) && i < |s|
    ensures LastIsFree(s[..i]) ==> End(s[i - 1]) == s[i].page && LastFree(s[..i]) == i - 1
  {
    LastIsLast(s[..i]);
    TilesOrdered(s, 0, total, i);
  }

  /** The words after both joins. */
  ghost predicate RightJoined(s: seq<Extent>, i: nat, v1: View, v2: View)
    requires i < |s|
  {
    var x := Merged(s[..i], s[i], s[i + 1..]);
    x.page in v1 && v2 == v1[x.page := v1[x.page].(w0 := Bytes(x.pages), w1 := FirstFree(RightRest(s[i + 1..]), NULL))]
  }

  /** Only the joined extents' words change, and only the block's own pages go. */
  lemma JoinsKeep(s: seq<Extent>, total: nat, i: nat, v0: View, v1: View, v2: View, v3: View)
    requires Tiles(s, 0, total) && AllRecorded(s, v0) && i < |s| && !s[i].free && LeftJoined(s, i, v0, v1)
    requires RightJoined(s, i, v1, v2) && v3 == v2 - Inner(s[i].page, s[i].pages)
    ensures ReleaseKeeps(s, i, v0, v3)
  {
    hide Merged, LastFree, Recorded, Tiles, RightRest, FirstFree, Inner;
    InnerBounds(s[i].page, s[i].pages);
    LeftFacts(s, total, v0, i);
    forall p | p in v0 && p !in Disturbed(s, i)
      ensures p in v3 && v3[p] == v0[p]
    {
      OutsideBlock(s, total, i, p);
    }
  }

  lemma OutsideBlock(s: seq<Extent>, total: nat, i: nat, p: nat)
    requires Tiles(s, 0, total) && i < |s| && p !in Disturbed(s, i)
    ensures p != s[i].page && !(s[i].page < p < End(s[i])) && p != Merged(s[..i], s[i], s[i + 1..]).page
    ensures LastFree(s[..i]) >= 0 ==> p != LastFreePage(s[..i], 0)
  {
    TilesOrdered(s, 0, total, i);
    if s[i].page <= p < End(s[i]) {
      assert Within(s[i], p);
    }
  }

  /** The joined extent's words, its predecessor's, and the freed block's first page. */
  lemma JoinedWords(s: seq<Extent>, total: nat, i: nat, v0: View, v1: View, v2: View, v3: View)
    requires Tiles(s, 0, total) && AllRecorded(s, v0) && i < |s| && !s[i].free && LeftJoined(s, i, v0, v1)
    requires RightJoined(s, i, v1, v2) && v3 == v2 - Inner(s[i].page, s[i].pages)
    ensures
      var x := Merged(s[..i], s[i], s[i + 1..]);
      x.page in v3 && v3[x.page].w0 == Bytes(x.pages) && v3[x.page].w1 == FirstFree(RightRest(s[i + 1..]), NULL)
    ensures LastFree(s[..i]) >= 0 && !LastIsFree(s[..i]) ==>
      var p := LastFreePage(s[..i], 0);
      p in v0 && p in v3 && v3[p].w1 == AddressOf(s[i].page) && v3[p].w0 == v0[p].w0
    ensures s[i].page in v3 && v3[s[i].page].w2 == v0[s[i].page].w2 && v3[s[i].page].w0 % 2 == 0
  {
    hide Merged, LastFree, Recorded, Tiles, RightRest, FirstFree, Inner;
    InnerBounds(s[i].page, s[i].pages);
    LeftFacts(s, total, v0, i);
    BytesEven(s[i].pages);
    BytesEven(Merged(s[..i], s[i], s[i + 1..]).pages);
  }

  lemma BytesEven(n: nat)
    ensures Bytes(n) % 2 == 0
  {
  }

  /** After the joins (v1, v2) and the unmapping (v3), list and records are those of the released heap. */
  lemma AfterVfree(s: seq<Extent>, total: nat, i: nat, v0: View, v1: View, v2: View, v3: View)
    requires Tiles(s, 0, total) && Linked(s, NULL, v0) && AllRecorded(s, v0) && i < |s| && !s[i].free
    requires LeftJoined(s, i, v0, v1)
    requires RightJoined(s, i, v1, v2) && v3 == v2 - Inner(s[i].page, s[i].pages)
    ensures Tiles(Release(s, i), 0, total) && Linked(Release(s, i), NULL, v3) && AllRecorded(Release(s, i), v3)
    ensures FirstFree(Release(s, i), NULL) == if LastFree(s[..i]) >= 0 then FirstFree(s, NULL) else AddressOf(s[i].page)
    ensures s[i].page in v3 && v3[s[i].page].w2 == v0[s[i].page].w2 && v3[s[i].page].w0 % 2 == 0
  {
    hide Tiles, Linked, Merged, LastFree, Release, ReleaseKeeps, LeftJoined, RightJoined, Inner, RightRest, FirstFree;
    JoinsKeep(s, total, i, v0, v1, v2, v3);
    JoinedWords(s, total, i, v0, v1, v2, v3);
    MergedIsFree(s[..i], s[i], s[i + 1..]);
    ReleaseTiles(s, 0, total, i);
    ReleaseLinked(s, total, i, v0, v3);
    ReleaseRecorded(s, total, i, v0, v3);
  }

  lemma OneExtent(n: nat, view: View)
    requires n > 0 && 0 in view && view[0].w0 == Bytes(n) && view[0].w1 == NULL
    ensures
      var s := [Extent(0, n, true)];
      Tiles(s, 0, n) && Linked(s, NULL, view) && AllRecorded(s, view) && FirstFree(s, NULL) == HEAP_START
  {
    var s := [Extent(0, n, true)];
    assert s[1..] == [];
    assert AddressOf(0) == HEAP_START;
  }

  class VirtualHeap {
    const frames: FrameAllocator
    /** The present page-table entries of the heap: page to frame. */
    var pages: map<nat, nat>
    /** The page tables of the heap: directory slot to frame. */
    var tables: map<nat, nat>
    /** The first words of the frames mapped. */
    var ram: map<nat, Cell>
    /** virtual_free_list_head. */
    var head: nat

    ghost var extents: seq<Extent>
    ghost var total: nat
    ghost var lost: set<nat>

    ghost function View(): (v: View)
      reads this`pages, this`ram
    {
      ViewOf(pages, ram)
    }

    ghost predicate Mapped()
      reads this`pages, this`tables, this`ram, this`lost, frames, frames.buddy, frames.buddy.freeLists
      reads frames.buddy.link, frames.buddy.bitmap
    {
      frames.Valid() && Accounted(pages, tables, lost, ram, frames.held)
    }

    ghost predicate Valid()
      reads this, frames, frames.buddy, frames.buddy.freeLists, frames.buddy.link, frames.buddy.bitmap
    {
      && Mapped()
      && Tiles(extents, 0, total)
      && Linked(extents, NULL, View()) && AllRecorded(extents, View())
      && head == FirstFree(extents, NULL)
    }

    /** Before vmalloc_init: no free list, nothing of the heap mapped. */
    constructor (frames: FrameAllocator)
      requires frames.Valid()
      ensures Valid() && this.frames == frames && extents == [] && pages == map[]
    {
      this.frames := frames;
      pages, tables, ram, head := map[], map[], map[], NULL;
      extents, total, lost := [], 0, {};
    }

    /** vmalloc_init for a buddy pool of memory bytes on a machine with ram bytes: one free extent as large as
        the pool. On more than HEAP_LIMIT bytes the heap's first page belongs to the direct map; its mapping
        is refused, the frame lost and the node written over whatever lives there. */
    method Initialize(ram: nat, memory: nat) returns (started: Start)
      requires Valid() && extents == [] && pages == map[]
      requires memory % PAGE_SIZE == 0 && PAGE_SIZE <= memory <= ram
      modifies this, frames`held, frames`available
      modifies frames.buddy`pool, frames.buddy`own, frames.buddy.freeLists, frames.buddy.link, frames.buddy.bitmap
      ensures started == OverDirectMap <==> ram > HEAP_LIMIT && old(frames.available) != {}
      ensures started == NoFrame <==>
        |old(frames.available)| < if ram > HEAP_LIMIT then 1 else PageCost(old(tables.Keys), 0)
      ensures started == NoFrame ==> frames.available == {}
      ensures started == Running ==>
        Valid() && total == memory / PAGE_SIZE && extents == [Extent(0, memory / PAGE_SIZE, true)]
      ensures started == Running ==> pages.Keys == {0} && forall p :: p in pages ==> !DirectMapped(ram, AddressOf(p))
    {
      hide Mapped, ViewOf, DirectMapped, PageCost, Tiles, Linked, AllRecorded, FirstFree;
      HeapUnmappedExactly(ram, memory);
      if DirectMapped(ram, HEAP_START) {
        var got := TakeAndLose();
        return if got then OverDirectMap else NoFrame;
      }
      var ok := MapFresh(0);
      if !ok {
        return NoFrame;
      }
      var heapSize := WORD32 - 1 - HEAP_START;
      if memory < heapSize {
        heapSize := memory;
      }
      FirstNode(heapSize);
      assert Bytes(memory / PAGE_SIZE) == memory;
      OneExtent(memory / PAGE_SIZE, View());
      extents, total := [Extent(0, memory / PAGE_SIZE, true)], memory / PAGE_SIZE;
      assert AddressOf(0) == HEAP_START;
      started := Running;
    }

    /** The one node of the list. */
    method FirstNode(heapSize: nat)
      requires Mapped() && 0 in View()
      modifies this`head, this`ram
      ensures Mapped() && 0 in View() && View()[0].w0 == heapSize && View()[0].w1 == NULL && head == HEAP_START
    {
      hide Mapped, ViewOf;
      KeysAreMapped();
      var cell := Load(0);
      Store(0, cell.(w0 := heapSize, w1 := NULL));
      head := HEAP_START;
    }

    /** A frame in hand and not yet used for anything; 0 when none is available. */
    method TakeFrame() returns (frame: nat)
      requires frames.Valid()
      modifies frames`held, frames`available
      modifies frames.buddy`pool, frames.buddy`own, frames.buddy.freeLists, frames.buddy.link, frames.buddy.bitmap
      ensures frames.Valid()
      ensures
        if frame == 0 then old(frames.available) == {} == frames.available && frames.held == old(frames.held)
        else
          && frame !in old(frames.held) && frames.held == old(frames.held) + {frame}
          && |frames.available| + 1 == |old(frames.available)|
    {
      hide FrameAllocator.Valid;
      frames.HeldNotAvailable();
      frame := frames.Get();
    }

    /** A frame taken for a page that turns out to be mapped. */
    method TakeAndLose() returns (ok: bool)
      requires Mapped()
      modifies this`lost, frames`held, frames`available
      modifies frames.buddy`pool, frames.buddy`own, frames.buddy.freeLists, frames.buddy.link, frames.buddy.bitmap
      ensures Mapped() && (ok <==> old(frames.available) != {}) && (!ok ==> frames.available == {})
    {
      hide FrameAllocator.Valid, Accounted;
      ghost var held0: set<nat> := frames.held;
      var frame := TakeFrame();
      if frame != 0 {
        LoseFrame(pages, tables, lost, ram, held0, frame);
        lost := lost + {frame};
      }
      ok := frame != 0;
    }

    /** A fresh frame mapped at a page. When the page is mapped already vmm_map_page refuses and its
        callers here go on, so the frame is lost. False stands for the kernel's abort. */
    method MapFresh(p: nat) returns (ok: bool)
      requires Mapped()
      modifies this`pages, this`tables, this`ram, this`lost, frames`held, frames`available
      modifies frames.buddy`pool, frames.buddy`own, frames.buddy.freeLists, frames.buddy.link, frames.buddy.bitmap
      ensures Mapped() && (!ok ==> frames.available == {})
      ensures ok <==> PageCost(old(tables.Keys), p) <= |old(frames.available)|
      ensures ok ==> tables.Keys == old(tables.Keys) + {p / ENTRIES}
      ensures ok ==> |frames.available| + PageCost(old(tables.Keys), p) == |old(frames.available)|
      ensures ok ==> pages.Keys == old(pages.Keys) + {p} && p in View()
      ensures ok ==> SameBut(old(View()), View(), {})
      ensures ok ==> |lost| == |old(lost)| + (if p in old(pages) then 1 else 0)
    {
      hide FrameAllocator.Valid, Accounted, ViewOf, SameBut;
      ghost var held0: set<nat> := frames.held;
      var frame := TakeFrame();
      if frame == 0 {
        return false;
      }
      ok, held0 := EnsureTable(p / ENTRIES, frame, held0);
      if !ok {
        return;
      }
      Enter(p, frame, held0);
    }

    /** The frame in hand becomes page p, or is lost if the page is mapped already. */
    method Enter(p: nat, frame: nat, ghost held0: set<nat>)
      requires frames.Valid() && frame !in held0 && frames.held == held0 + {frame}
      requires Accounted(pages, tables, lost, ram, held0)
      modifies this`pages, this`ram, this`lost
      ensures Mapped() && pages.Keys == old(pages.Keys) + {p} && p in View() && SameBut(old(View()), View(), {})
      ensures |lost| == |old(lost)| + (if p in old(pages) then 1 else 0)
    {
      hide FrameAllocator.Valid, Accounted, ViewOf, SameBut;
      if p in pages {
        LoseFrame(pages, tables, lost, ram, held0, frame);
        SameButSelf(View());
        lost := lost + {frame};
      } else {
        var contents: Cell := *;
        AddPage(pages, tables, lost, ram, held0, p, frame, contents);
        ram := ram[frame := contents];
        pages := pages[p := frame];
      }
      ViewKeys(pages, tables, lost, ram, frames.held);
    }

    /** A page table for a directory slot, while frame is in hand and not yet used for anything. */
    method EnsureTable(slot: nat, ghost frame: nat, ghost held0: set<nat>)
      returns (ok: bool, ghost held1: set<nat>)
      requires frames.Valid() && frame !in held0 && frames.held == held0 + {frame}
      requires Accounted(pages, tables, lost, ram, held0)
      modifies this`tables, this`lost, frames`held, frames`available
      modifies frames.buddy`pool, frames.buddy`own, frames.buddy.freeLists, frames.buddy.link, frames.buddy.bitmap
      ensures frames.Valid()
      ensures ok <==> slot in old(tables) || old(frames.available) != {}
      ensures ok ==> tables.Keys == old(tables.Keys) + {slot}
      ensures ok ==> |frames.available| + (if slot in old(tables) then 0 else 1) == |old(frames.available)|
      ensures ok ==> frame !in held1 && frames.held == held1 + {frame} && Accounted(pages, tables, lost, ram, held1)
      ensures ok ==> lost == old(lost)
      ensures !ok ==> frames.available == {} && Accounted(pages, tables, lost, ram, frames.held)
    {
      hide FrameAllocator.Valid, Accounted;
      if slot in tables {
        return true, held0;
      }
      var table := TakeFrame();
      if table == 0 {
        LoseFrame(pages, tables, lost, ram, held0, frame);
        lost := lost + {frame};
        return false, held0;
      }
      AddTable(pages, tables, lost, ram, held0, slot, table);
      tables := tables[slot := table];
      return true, held0 + {table};
    }

    /** A store to the first words of a mapped page. */
    method Store(p: nat, cell: Cell)
      requires Mapped() && p in pages
      modifies this`ram
      ensures Mapped() && View() == old(View())[p := cell]
    {
      hide FrameAllocator.Valid, Accounted, ViewOf;
      StoreCell(pages, tables, lost, ram, frames.held, p, cell);
      ram := ram[pages[p] := cell];
    }

    method Load(p: nat) returns (cell: Cell)
      requires p in View()
      ensures cell == View()[p]
    {
      cell := ram[pages[p]];
    }

    /** The mapping loop of vmalloc. Each page of the block that was mapped before costs one frame. */
    method MapRange(page: nat, n: nat) returns (ok: bool)
      requires Mapped()
      modifies this`pages, this`tables, this`ram, this`lost, frames`held, frames`available
      modifies frames.buddy`pool, frames.buddy`own, frames.buddy.freeLists, frames.buddy.link, frames.buddy.bitmap
      ensures Mapped() && (!ok ==> frames.available == {})
      ensures ok <==> MapCost(old(tables.Keys), page, n) <= |old(frames.available)|
      ensures ok ==> |frames.available| + MapCost(old(tables.Keys), page, n) == |old(frames.available)|
      ensures ok ==> forall q :: q in pages <==> q in old(pages) || page <= q < page + n
      ensures ok ==> SameBut(old(View()), View(), {})
      ensures ok ==> |lost| == |old(lost)| + CountIn(old(pages.Keys), page, n)
    {
      hide Mapped, ViewOf, SameBut, PageCost, MapCost, CountIn;
      SameButSelf(View());
      CountNone(pages.Keys, page);
      var i := 0;
      while i < n
        invariant 0 <= i <= n && Mapped()
        invariant forall q :: q in pages <==> q in old(pages) || page <= q < page + i
        invariant SameBut(old(View()), View(), {})
        invariant |lost| == |old(lost)| + CountIn(old(pages.Keys), page, i)
        invariant |old(frames.available)| - MapCost(old(tables.Keys), page, n)
               == |frames.available| - MapCost(tables.Keys, page + i, n - i)
      {
        ghost var before := View();
        CostNext(tables.Keys, page + i, n - i);
        CountNext(old(pages.Keys), page, i);
        ok := MapFresh(page + i);
        if !ok {
          return;
        }
        SameButThenNothing(old(View()), before, View(), {});
        i := i + 1;
      }
      CostNone(tables.Keys, page + n);
      return true;
    }

    /** The first-fit walk: the node it stops at and the one before. */
    method Search(size: nat, ghost n: nat) returns (prev: nat, current: nat)
      requires Valid() && size == Bytes(n)
      ensures
        var i := FirstFit(extents, n);
        && current == (if i < |extents| then AddressOf(extents[i].page) else NULL)
        && prev == LastFreeAddress(extents[..i])
    {
      hide Mapped, Tiles, FirstFit, NextFree, LastFree, FirstFree, Linked, ViewOf;
      prev, current := NULL, head;
      ghost var k := 0;
      assert extents[0..] == extents && extents[..0] == [];
      NothingBefore();
      while current != NULL
        invariant k <= |extents| && current == FirstFree(extents[k..], NULL) && prev == LastFreeAddress(extents[..k])
        invariant k <= FirstFit(extents, n)
        decreases |extents| - k
      {
        WalkStep(extents, View(), n, k);
        ghost var i := NextFree(extents, k);
        var node := Load(PageAt(current));
        if node.w0 >= size {
          return;
        }
        prev := current;
        current := node.w1;
        k := i + 1;
      }
      WalkStep(extents, View(), n, k);
    }

    /** free_list head or prev->next is redirected. */
    method Relink(prev: nat, next: nat)
      requires Mapped() && (prev != NULL ==> prev >= HEAP_START && PageAt(prev) in pages)
      modifies this`head, this`ram
      ensures Mapped()
      ensures prev == NULL ==> head == next && View() == old(View())
      ensures prev != NULL ==> PageAt(prev) in old(View()) && head == old(head)
      ensures prev != NULL ==> View() == old(View())[PageAt(prev) := old(View())[PageAt(prev)].(w1 := next)]
    {
      hide Mapped, ViewOf;
      if prev == NULL {
        head := next;
      } else {
        KeysAreMapped();
        var cell := Load(PageAt(prev));
        Store(PageAt(prev), cell.(w1 := next));
      }
    }

    lemma KeysAreMapped()
      requires Mapped()
      ensures View().Keys == pages.Keys
    {
      ViewKeys(pages, tables, lost, ram, frames.held);
    }

    /** The split: a node for the rest of the extent, in a page mapped for it. Without a split the list
        goes on where the extent's node pointed. */
    method SplitOff(current: nat, size: nat, ghost m: nat) returns (ok: bool, next: nat)
      requires Mapped() && current >= HEAP_START && PageAt(current) in View()
      requires size <= View()[PageAt(current)].w0 && current + size == AddressOf(PageAt(current) + m)
      modifies this`pages, this`tables, this`ram, this`lost, frames`held, frames`available
      modifies frames.buddy`pool, frames.buddy`own, frames.buddy.freeLists, frames.buddy.link, frames.buddy.bitmap
      ensures Mapped() && (!ok ==> frames.available == {})
      ensures ok ==>
        var p, node := PageAt(current), old(View())[PageAt(current)];
        var q := p + m;
        if node.w0 - size > NODE_SIZE then
          && next == AddressOf(q) && pages.Keys == old(pages.Keys) + {q} && SameBut(old(View()), View(), {q})
          && q in View() && View()[q].w0 == node.w0 - size && View()[q].w1 == node.w1
          && |lost| == |old(lost)| + (if q in old(pages) then 1 else 0)
          && tables.Keys == old(tables.Keys) + {q / ENTRIES}
          && |frames.available| + PageCost(old(tables.Keys), q) == |old(frames.available)|
        else
          && next == node.w1 && pages == old(pages) && View() == old(View()) && lost == old(lost)
          && tables == old(tables) && frames.available == old(frames.available)
      ensures
        ok <==> old(View())[PageAt(current)].w0 - size <= NODE_SIZE
                || PageCost(old(tables.Keys), PageAt(current) + m) <= |old(frames.available)|
    {
      hide Mapped, ViewOf, SameBut;
      var node := Load(PageAt(current));
      if node.w0 - size <= NODE_SIZE {
        return true, node.w1;
      }
      next := current + size;
      assert PageAt(next) == PageAt(current) + m;
      ok := MapFresh(PageAt(next));
      if !ok {
        return;
      }
      KeysAreMapped();
      var cell := Load(PageAt(next));
      SameButStore(old(View()), View(), PageAt(next), cell.(w0 := node.w0 - size, w1 := node.w1));
      Store(PageAt(next), cell.(w0 := node.w0 - size, w1 := node.w1));
    }

    /** The split and the relinking of what came before. */
    method Detach(prev: nat, current: nat, size: nat, ghost i: nat, ghost m: nat)
      returns (ok: bool, ghost v1: View, ghost next: nat)
      requires Valid() && i == FirstFit(extents, m) < |extents| && size == Bytes(m)
      requires current == AddressOf(extents[i].page) && prev == LastFreeAddress(extents[..i])
      modifies this`head, this`pages, this`tables, this`ram, this`lost, frames`held, frames`available
      modifies frames.buddy`pool, frames.buddy`own, frames.buddy.freeLists, frames.buddy.link, frames.buddy.bitmap
      ensures Mapped() && (!ok ==> frames.available == {})
      ensures
        var e, slots := extents[i], old(tables.Keys);
        var q := e.page + m;
        if m < e.pages then
          && (ok <==> PageCost(slots, q) <= |old(frames.available)|)
          && (ok ==>
                && tables.Keys == slots + {q / ENTRIES} && pages.Keys == old(pages.Keys) + {q}
                && |frames.available| + PageCost(slots, q) == |old(frames.available)|
                && |lost| == |old(lost)| + (if q in old(pages) then 1 else 0))
        else
          ok && tables == old(tables) && pages == old(pages) && frames.available == old(frames.available)
            && lost == old(lost)
      ensures ok ==> Detached(extents, i, m, old(View()), v1, View(), next)
      ensures ok ==> head == if LastFree(extents[..i]) >= 0 then old(head) else next
    {
      hide Mapped, ViewOf, FirstFit, LastFree, Linked, AllRecorded, Tiles, SameBut, FirstFree, LastFreePage, PageCost;
      AtFit(extents, total, View(), m);
      KeysAreMapped();
      SplitSize(extents[i].pages, m);
      SameButSelf(View());
      var follower;
      ok, follower := SplitOff(current, size, m);
      v1, next := View(), follower;
      if !ok {
        return;
      }
      KeysAreMapped();
      Relink(prev, follower);
    }

    /** vmalloc once the walk has found the extent i: split, relink, map, write the header. A size of zero
        passes for one too: the header then overwrites the node it was to be split from. */
    method HandOut(prev: nat, current: nat, size: nat, ghost i: nat, ghost m: nat) returns (ok: bool)
      requires Valid() && i == FirstFit(extents, m) < |extents| && size == Bytes(m)
      requires current == AddressOf(extents[i].page) && prev == LastFreeAddress(extents[..i])
      modifies this, frames`held, frames`available
      modifies frames.buddy`pool, frames.buddy`own, frames.buddy.freeLists, frames.buddy.link, frames.buddy.bitmap
      ensures !ok ==> frames.available == {}
      ensures
        var cost := BlockCost(old(tables.Keys), old(extents)[i].page, m, old(extents)[i].pages);
        && (ok <==> cost <= |old(frames.available)|)
        && (ok ==> |frames.available| + cost == |old(frames.available)|)
      ensures ok && m > 0 ==> Valid() && total == old(total) && extents == Allocate(old(extents), i, m)
      ensures ok && m == 0 ==> Spoilt(old(extents), i)
      ensures ok ==>
        var e := old(extents)[i];
        |lost| == |old(lost)| + CountIn(old(pages.Keys), e.page, if m < e.pages then m + 1 else m)
    {
      hide Mapped, ViewOf, FirstFit, LastFree, Linked, AllRecorded, Tiles, SameBut, Allocate, CountIn, FirstFree,
           LastFreePage, MapCost, PageCost, Detached, NextAfter;
      ghost var s: seq<Extent>, v0: View, keys0 := extents, View(), pages.Keys;
      AtFit(s, total, v0, m);
      KeysAreMapped();
      ghost var v1: View, v2: View, v3: View, next: nat;
      ok, v1, next := Detach(prev, current, size, i, m);
      if !ok {
        return;
      }
      v2 := View();
      CountSplit(keys0, pages.Keys, s[i].page, m, s[i].pages);
      ok, v3 := MapBlock(PageAt(current), size / PAGE_SIZE, size);
      if !ok {
        return;
      }
      if m > 0 {
        NextIs(s, i, m, v0, v1, v2, next);
        AfterVmalloc(s, total, i, m, v0, v1, v2, v3, View());
        extents := Allocate(s, i, m);
      } else {
        NextIsSame(s, i, v0, v1, v2, next);
        FirstOfAll(s, i);
      }
    }

    /** The block's pages mapped, then its header written. */
    method MapBlock(page: nat, n: nat, size: nat) returns (ok: bool, ghost v3: View)
      requires Mapped() && page in pages
      modifies this`pages, this`tables, this`ram, this`lost, frames`held, frames`available
      modifies frames.buddy`pool, frames.buddy`own, frames.buddy.freeLists, frames.buddy.link, frames.buddy.bitmap
      ensures Mapped() && (!ok ==> frames.available == {})
      ensures ok <==> MapCost(old(tables.Keys), page, n) <= |old(frames.available)|
      ensures ok ==> |frames.available| + MapCost(old(tables.Keys), page, n) == |old(frames.available)|
      ensures ok ==> SameBut(old(View()), v3, {}) && forall q :: page <= q < page + n ==> q in v3
      ensures ok ==>
        page in View() && View() == v3[page := Cell(View()[page].w0, size, MAGIC)]
          && View()[page].w0 % 256 == MEM_TYPE_VMALLOC
      ensures ok ==> |lost| == |old(lost)| + CountIn(old(pages.Keys), page, n)
    {
      hide Mapped, ViewOf, SameBut, CountIn, MapCost, PageCost;
      ok := MapRange(page, n);
      v3 := View();
      if !ok {
        return;
      }
      KeysAreMapped();
      WriteHeader(page, size);
    }

    /** The header of a block handed out; only the type byte of the first word changes. */
    method WriteHeader(page: nat, size: nat)
      requires Mapped() && page in pages && page in View()
      modifies this`ram
      ensures Mapped() && page in View() && View() == old(View())[page := Cell(View()[page].w0, size, MAGIC)]
      ensures View()[page].w0 % 256 == MEM_TYPE_VMALLOC
    {
      hide Mapped, ViewOf;
      var header := Load(page);
      Store(page, Cell(header.w0 - header.w0 % 256 + MEM_TYPE_VMALLOC, size, MAGIC));
    }

    /** Some tiled heap is what the list and the records in memory say. */
    ghost predicate ListKept()
      reads this`pages, this`ram, this`head
    {
      exists s, total :: Tiles(s, 0, total) && Linked(s, NULL, View()) && AllRecorded(s, View())
        && head == FirstFree(s, NULL)
    }

    /** The first free extent of s still heads the list, but a header with size 0, which is also the next
        pointer, lies over its node. */
    ghost predicate Spoilt(s: seq<Extent>, i: nat)
      requires i < |s|
      reads this`pages, this`ram, this`head
    {
      && head == AddressOf(s[i].page) && s[i].page in View()
      && View()[s[i].page] == Cell(View()[s[i].page].w0, 0, MAGIC) && View()[s[i].page].w0 % 256 == MEM_TYPE_VMALLOC
    }

    lemma SpoiltIsNotKept(s: seq<Extent>, i: nat)
      requires i < |s| && Spoilt(s, i)
      ensures !ListKept()
    {
      forall t: seq<Extent> | AllRecorded(t, View()) && head == FirstFree(t, NULL)
        ensures false
      {
        NodeIsRecorded(t, View(), s[i].page);
      }
    }

    /** First fit, a split unless the extent is used up, and a fresh frame for each page not mapped yet.
        NULL exactly when no free extent is large enough, the kernel's abort exactly when fewer frames are
        available than pages and tables take. What is handed out leaves the list intact exactly when the
        size computed is not zero. */
    method Vmalloc(n: nat) returns (r: Result)
      requires Valid() && n < WORD32
      modifies this, frames`held, frames`available
      modifies frames.buddy`pool, frames.buddy`own, frames.buddy.freeLists, frames.buddy.link, frames.buddy.bitmap
      ensures r.Null? <==> n == 0 || FirstFit(old(extents), PagesFor(n)) == |old(extents)|
      ensures r.Null? ==> Valid() && extents == old(extents) && pages == old(pages) && lost == old(lost)
      ensures !r.Null? ==>
        var m := PagesFor(n);
        var e := old(extents)[FirstFit(old(extents), m)];
        r.Halted? <==> |old(frames.available)| < BlockCost(old(tables.Keys), e.page, m, e.pages)
      ensures r.Halted? ==> frames.available == {}
      ensures r.Block? ==>
        var m := PagesFor(n);
        var i := FirstFit(old(extents), m);
        var e := old(extents)[i];
        && (ListKept() <==> TotalSize(n) > 0)
        && (TotalSize(n) > 0 ==> Valid() && m > 0 && total == old(total) && extents == Allocate(old(extents), i, m))
        && (TotalSize(n) == 0 ==> Spoilt(old(extents), i))
        && r.address == AddressOf(e.page) + HEADER_SIZE
        && |lost| == |old(lost)| + CountIn(old(pages.Keys), e.page, if m < e.pages then m + 1 else m)
        && |frames.available| + BlockCost(old(tables.Keys), e.page, m, e.pages) == |old(frames.available)|
    {
      hide Valid, FirstFit, LastFree, TotalSize, Allocate, CountIn, Bytes, ListKept, Spoilt, BlockCost;
      if n == 0 {
        return Null;
      }
      if head == NULL {
        HeadIsFirst();
        NoHeadNoFit(extents, PagesFor(n));
        return Null;
      }
      PagesForBytes(n);
      var size := TotalSize(n);
      ghost var s: seq<Extent>, m := extents, PagesFor(n);
      var prev, current := Search(size, m);
      if current == NULL {
        return Null;
      }
      ghost var i := FirstFit(extents, m);
      var ok := HandOut(prev, current, size, i, m);
      if !ok {
        return Halted;
      }
      if m > 0 {
        ValidIsKept();
      } else {
        SpoiltIsNotKept(s, i);
      }
      return Block(current + HEADER_SIZE);
    }

    lemma ValidIsKept()
      requires Valid()
      ensures ListKept()
    {
    }

    lemma HeadIsFirst()
      requires Valid()
      ensures head == FirstFree(extents, NULL)
    {
    }

    // ----- vfree -----

    /** The walk of vfree: the free extents on either side of the block at extent i. */
    method Neighbours(freed: nat, ghost i: nat) returns (prev: nat, current: nat)
      requires Valid() && i < |extents| && !extents[i].free && freed == AddressOf(extents[i].page)
      ensures prev == LastFreeAddress(extents[..i]) && current == FirstFree(extents[i + 1..], NULL)
    {
      hide Mapped, Tiles, NextFree, LastFree, FirstFree, Linked, AllRecorded, ViewOf;
      prev, current := NULL, head;
      ghost var k := 0;
      assert extents[0..] == extents && extents[..0] == [];
      NothingBefore();
      while current != NULL && current < freed
        invariant k <= i && current == FirstFree(extents[k..], NULL) && prev == LastFreeAddress(extents[..k])
        decreases |extents| - k
      {
        PassStep(extents, total, View(), i, k);
        ghost var j := NextFree(extents, k);
        var node := Load(PageAt(current));
        prev := current;
        current := node.w1;
        k := j + 1;
      }
      PassStep(extents, total, View(), i, k);
    }

    /** The freed block joins the free extent that ends where it starts, or is linked behind the one before. */
    method JoinLeft(block: nat, size: nat, prev: nat) returns (start: nat)
      requires Mapped() && block >= HEAP_START && PageAt(block) in View()
      requires prev != NULL ==> prev >= HEAP_START && PageAt(prev) in View() && PageAt(prev) != PageAt(block)
      modifies this`head, this`ram
      ensures Mapped()
      ensures
        var v0 := old(View());
        var v1 := v0[PageAt(block) := v0[PageAt(block)].(w0 := size)];
        if prev == NULL then
          start == block && head == block && View() == v1
        else if prev + v0[PageAt(prev)].w0 == block then
          start == prev && head == old(head)
          && View() == v1[PageAt(prev) := v0[PageAt(prev)].(w0 := v0[PageAt(prev)].w0 + size)]
        else
          start == block && head == old(head)
          && View() == v1[PageAt(prev) := v0[PageAt(prev)].(w1 := block)]
    {
      hide Mapped, ViewOf;
      KeysAreMapped();
      var cell := Load(PageAt(block));
      Store(PageAt(block), cell.(w0 := size));
      if prev == NULL {
        head := block;
        return block;
      }
      var node := Load(PageAt(prev));
      if prev + node.w0 == block {
        Store(PageAt(prev), node.(w0 := node.w0 + size));
        return prev;
      }
      Store(PageAt(prev), node.(w1 := block));
      return block;
    }

    /** The free extent at start joins the one that begins where it ends, or points to it. */
    method JoinRight(start: nat, current: nat)
      requires Mapped() && start >= HEAP_START && PageAt(start) in View()
      requires current != NULL ==> current >= HEAP_START && PageAt(current) in View()
      modifies this`ram
      ensures Mapped()
      ensures
        var v0 := old(View());
        var node := v0[PageAt(start)];
        View() == v0[PageAt(start) :=
          if current != NULL && start + node.w0 == current
          then node.(w0 := node.w0 + v0[PageAt(current)].w0, w1 := v0[PageAt(current)].w1)
          else node.(w1 := current)]
    {
      hide Mapped, ViewOf;
      KeysAreMapped();
      var node := Load(PageAt(start));
      if current != NULL && start + node.w0 == current {
        var next := Load(PageAt(current));
        Store(PageAt(start), node.(w0 := node.w0 + next.w0, w1 := next.w1));
      } else {
        Store(PageAt(start), node.(w1 := current));
      }
    }

    /** The unmapping loop: every page of the block but the first gives its frame back, once it is no
        longer mapped. */
    method UnmapRange(page: nat, n: nat)
      requires Mapped() && n > 0 && forall p :: page < p < page + n ==> p in pages
      modifies this`pages, frames`held, frames`available
      modifies frames.buddy`pool, frames.buddy`own, frames.buddy.freeLists, frames.buddy.link, frames.buddy.bitmap
      ensures Mapped()
      ensures pages == old(pages) - Inner(page, n) && View() == old(View()) - Inner(page, n)
      ensures frames.held == old(frames.held) - FramesOf(old(pages), page, n)
      ensures |frames.held| + n - 1 == |old(frames.held)|
    {
      hide Mapped, ViewOf, Inner, FramesOf;
      InnerFirst(pages, page);
      ghost var pages0: map<nat, nat>, held0: set<nat> := pages, frames.held;
      var i := 1;
      while i < n
        invariant 1 <= i <= n && Mapped()
        invariant pages == pages0 - Inner(page, i) && View() == old(View()) - Inner(page, i)
        invariant frames.held == held0 - FramesOf(pages0, page, i)
        invariant |frames.held| + i - 1 == |held0|
      {
        InnerBounds(page, i);
        InnerNext(pages0, page, i);
        UnmapOne(page + i);
        i := i + 1;
      }
    }

    /** vmm_unmap_page and the buddy_dealloc of the frame it returns. */
    method UnmapOne(p: nat)
      requires Mapped() && p in pages
      modifies this`pages, frames`held, frames`available
      modifies frames.buddy`pool, frames.buddy`own, frames.buddy.freeLists, frames.buddy.link, frames.buddy.bitmap
      ensures Mapped() && old(pages)[p] in old(frames.held)
      ensures pages == old(pages) - {p} && View() == old(View()) - {p}
      ensures frames.held == old(frames.held) - {old(pages)[p]}
    {
      hide FrameAllocator.Valid, Accounted, ViewOf;
      DropPage(pages, tables, lost, ram, frames.held, p);
      var frame := pages[p];
      pages := pages - {p};
      frames.Free(frame);
    }

    /** The page whose header vfree reads for a pointer. */
    ghost function HeaderPage(ptr: nat): (p: nat) {
      if ptr < HEAP_START + HEADER_SIZE then 0 else PageAt(ptr - HEADER_SIZE)
    }

    /** The header at a page has vmalloc's magic number and type bit. */
    ghost predicate LooksAllocated(p: nat)
      reads this`pages, this`ram
    {
      p in View() && View()[p].w2 == MAGIC && View()[p].w0 % 2 == MEM_TYPE_VMALLOC
    }

    /** vfree once the header has passed: join with the neighbours, then unmap. */
    method ReleaseBlock(block: nat, size: nat, ghost i: nat)
      requires Valid() && i < |extents| && !extents[i].free && block == AddressOf(extents[i].page)
      requires size == Bytes(extents[i].pages)
      modifies this, frames`held, frames`available
      modifies frames.buddy`pool, frames.buddy`own, frames.buddy.freeLists, frames.buddy.link, frames.buddy.bitmap
      ensures Valid() && extents == Release(old(extents), i) && total == old(total) && lost == old(lost)
      ensures pages == old(pages) - Inner(old(extents)[i].page, old(extents)[i].pages)
      ensures frames.held == old(frames.held) - FramesOf(old(pages), old(extents)[i].page, old(extents)[i].pages)
      ensures |frames.held| + old(extents)[i].pages - 1 == |old(frames.held)|
      ensures
        var p := old(extents)[i].page;
        p in View() && p in old(View()) && View()[p].w2 == old(View())[p].w2 && View()[p].w0 % 2 == 0
    {
      hide Mapped, ViewOf, LastFree, Linked, AllRecorded, Tiles, Release, FirstFree, Merged, Inner, FramesOf,
           LeftJoined, RightJoined;
      ghost var s: seq<Extent>, v0: View := extents, View();
      AtBlock(s, total, v0, i);
      KeysAreMapped();
      ghost var v1: View := JoinBoth(block, size, s, i);
      ghost var v2: View := View();
      UnmapRange(PageAt(block), size / PAGE_SIZE);
      AfterVfree(s, total, i, v0, v1, v2, View());
      extents := Release(s, i);
    }

    /** The block joins its free neighbours, or stands between them. */
    method JoinBoth(block: nat, size: nat, ghost s: seq<Extent>, ghost i: nat) returns (ghost v1: View)
      requires Valid() && s == extents && i < |s|
      requires !s[i].free && block == AddressOf(s[i].page) && size == Bytes(s[i].pages)
      modifies this`head, this`ram
      ensures Mapped() && LeftJoined(s, i, old(View()), v1) && RightJoined(s, i, v1, View())
      ensures head == if LastFree(s[..i]) >= 0 then old(head) else block
    {
      hide Mapped, ViewOf, LastFree, Linked, AllRecorded, Tiles, FirstFree, Merged, RightRest, LeftJoined;
      ghost var v0: View := View();
      AtBlock(s, total, v0, i);
      LeftFacts(s, total, v0, i);
      KeysAreMapped();
      var prev, current := Neighbours(block, i);
      var start := JoinLeft(block, size, prev);
      v1 := View();
      IsLeftJoined(s, i, v0, v1);
      RightFacts(s, total, v0, v1, i);
      JoinRight(start, current);
    }

    /** vfree of NULL, or of the pointer after the start of a mapped page; if the header there passes
        vfree's checks, the page starts a block vmalloc gave out. Freeing a block twice is caught: its
        first page stays mapped with the magic number but without the type bit. */
    method Vfree(ptr: nat) returns (outcome: Outcome)
      requires Valid()
      requires ptr != NULL ==>
        ptr >= HEAP_START + HEADER_SIZE && ptr == AddressOf(HeaderPage(ptr)) + HEADER_SIZE && HeaderPage(ptr) in View()
      requires ptr != NULL && LooksAllocated(HeaderPage(ptr)) ==> BlockAt(extents, HeaderPage(ptr)) < |extents|
      modifies this, frames`held, frames`available
      modifies frames.buddy`pool, frames.buddy`own, frames.buddy.freeLists, frames.buddy.link, frames.buddy.bitmap
      ensures Valid()
      ensures outcome == if ptr == NULL then Ignored else if old(LooksAllocated(HeaderPage(ptr))) then Freed
                         else if old(View())[HeaderPage(ptr)].w2 == MAGIC then Aborted else Corrupt
      ensures outcome != Freed ==> extents == old(extents) && pages == old(pages) && frames.held == old(frames.held)
      ensures outcome == Freed ==>
        var i, page := BlockAt(old(extents), HeaderPage(ptr)), HeaderPage(ptr);
        && extents == Release(old(extents), i)
        && pages == old(pages) - Inner(page, old(extents)[i].pages)
        && frames.held == old(frames.held) - FramesOf(old(pages), page, old(extents)[i].pages)
        && |frames.held| + old(extents)[i].pages - 1 == |old(frames.held)|
        && page in View() && View()[page].w2 == MAGIC && !LooksAllocated(page)
      ensures total == old(total) && lost == old(lost)
    {
      hide Valid, Release, BlockAt, Inner, FramesOf, ViewOf;
      if ptr == NULL {
        return Ignored;
      }
      var block := ptr - HEADER_SIZE;
      var page := PageAt(block);
      var header := Load(page);
      if header.w2 != MAGIC {
        return Corrupt;
      }
      if header.w0 % 256 % 2 != MEM_TYPE_VMALLOC {
        return Aborted;
      }
      ghost var i := BlockAt(extents, page);
      HeaderSize(i);
      ReleaseBlock(block, header.w1, i);
      return Freed;
    }

    lemma HeaderSize(i: nat)
      requires Valid() && i < |extents| && !extents[i].free
      ensures extents[i].page in View() && View()[extents[i].page].w1 == Bytes(extents[i].pages)
    {
      assert Recorded(extents[i], View());
    }
  }

  /** The block that starts at a page, by its position among the extents; |s| if none does. */
  function BlockAt(s: seq<Extent>, page: nat): (i: nat)
    ensures i <= |s|
    ensures i < |s| ==> s[i].page == page && !s[i].free
  {
    if s == [] || (s[0].page == page && !s[0].free) then 0 else 1 + BlockAt(s[1..], page)
  }

  lemma {:induction false} InnerBounds(page: nat, n: nat)
    ensures forall p: nat :: p in Inner(page, n) <==> page < p < page + n
  {
    if n > 1 {
      InnerBounds(page, n - 1);
    }
  }

  /** The pages after the first of n pages from page on. */
  lemma InnerFirst(pages: map<nat, nat>, page: nat)
    ensures Inner(page, 1) == {} && FramesOf(pages, page, 1) == {}
  {
  }

  lemma InnerNext(pages: map<nat, nat>, page: nat, i: nat)
    requires i >= 1
    ensures Inner(page, i + 1) == Inner(page, i) + {page + i}
    ensures FramesOf(pages, page, i + 1) ==
      FramesOf(pages, page, i) + (if page + i in pages then {pages[page + i]} else {})
  {
  }

  function Inner(page: nat, n: nat): (s: set<nat>) {
    if n <= 1 then {} else Inner(page, n - 1) + {page + n - 1}
  }

  function FramesOf(pages: map<nat, nat>, page: nat, n: nat): (s: set<nat>) {
    if n <= 1 then {} else FramesOf(pages, page, n - 1) + (if page + n - 1 in pages then {pages[page + n - 1]} else {})
  }
}
