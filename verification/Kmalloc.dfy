/** kmalloc.c and kfree.c: whole pages from the buddy allocator behind a header of 12 bytes. */
module KernelHeap {
  import opened Common
  import opened PowersOfTwo
  import opened Bitmap
  import opened BuddyPool
  import opened BuddyInvariant
  import opened BuddyTheorems
  import opened Buddy

  const MAXIMUM_SLAB_ALLOCATION: nat := 16384
  const MEM_ALLOCATOR_MASK: nat := 1

  datatype Header = Header(flags: nat, size: nat, magic: nat)

  /** ceil_log2: 32 - clz(n - 1), with the undefined clz(0) read as 32. */
  function CeilLog2(n: nat): (r: nat)
    requires n > 0
  {
    if n == 1 then 0 else FloorLog2(n - 1) + 1
  }

  /** The least order whose block holds n pages. */
  lemma CeilLog2IsLeast(n: nat)
    requires n > 0
    ensures n <= Pow2(CeilLog2(n))
    ensures forall k :: 0 <= k && n <= Pow2(k) ==> CeilLog2(n) <= k
  {
    if n > 1 {
      forall k | 0 <= k && n <= Pow2(k)
        ensures CeilLog2(n) <= k
      {
        if k <= FloorLog2(n - 1) {
          Pow2Monotone(k, FloorLog2(n - 1));
        }
      }
    }
  }

  /** The size kmalloc records: n bytes and the header, in whole pages. */
  function TotalSize(n: nat): (r: nat) {
    Align(n + HEADER_SIZE, PAGE_SIZE)
  }

  function OrderOf(totalSize: nat): (r: nat)
    requires totalSize > 0
  {
    CeilLog2(CeilDiv(totalSize, PAGE_SIZE))
  }

  /** The order of the block that serves a request of n bytes. */
  function OrderFor(n: nat): (r: nat) {
    OrderOf(TotalSize(n))
  }

  /** The block holds the header and the n bytes, and no smaller block would. */
  lemma BlockHoldsRequest(n: nat)
    ensures n + HEADER_SIZE <= PAGE_SIZE * Pow2(OrderFor(n))
    ensures forall k :: 0 <= k && n + HEADER_SIZE <= PAGE_SIZE * Pow2(k) ==> OrderFor(n) <= k
  {
    var t := TotalSize(n);
    AlignIsMultiple(n + HEADER_SIZE, PAGE_SIZE);
    var pages := CeilDiv(t, PAGE_SIZE);
    assert t == PAGE_SIZE * pages;
    CeilLog2IsLeast(pages);
    forall k | 0 <= k && n + HEADER_SIZE <= PAGE_SIZE * Pow2(k)
      ensures pages <= Pow2(k)
    {
    }
  }

  /** The pool after freeing a block; only orders up to the largest occur. */
  function FreedPool(p: Pool, page: nat, order: nat): (r: Pool) {
    if p.Shaped() && order <= p.maxOrder then Dealloc(p, page, order) else p
  }

  /** The block of that order at a page nobody had is handed out, and nothing else. */
  ghost predicate TakesPage(own: seq<Owner>, own': seq<Owner>, page: nat, order: nat) {
    page !in Live(own) && Live(own') == Live(own)[page := order]
  }

  datatype Outcome = Ignored | Freed | Aborted

  class Kmalloc {
    const buddy: BuddyAllocator
    /** The headers in memory, by the virtual address they start at. */
    var headers: map<nat, Header>
    /** The pointers handed out and not yet freed, with the size asked for. */
    ghost var live: map<nat, nat>

    /** The page whose first bytes hold the header of ptr. */
    ghost function PageOf(ptr: nat): (page: nat)
      reads buddy`base
    {
      if ptr < buddy.base + HEADER_SIZE then 0 else (ptr - HEADER_SIZE - buddy.base) / PAGE_SIZE
    }

    ghost predicate Backed(ptr: nat, n: nat)
      reads this, buddy
    {
      var page := PageOf(ptr);
      && ptr == buddy.base + PAGE_SIZE * page + HEADER_SIZE
      && page in Live(buddy.own) && Live(buddy.own)[page] == OrderFor(n)
      && ptr - HEADER_SIZE in headers
      && headers[ptr - HEADER_SIZE] == Header(MEM_TYPE_KMALLOC, TotalSize(n), MAGIC)
    }

    ghost predicate Valid()
      reads this, buddy, buddy.freeLists, buddy.link, buddy.bitmap
    {
      && buddy.Valid()
      && forall ptr :: ptr in live ==> Backed(ptr, live[ptr])
    }

    constructor (buddy: BuddyAllocator)
      requires buddy.Valid()
      ensures Valid() && live == map[] && this.buddy == buddy
    {
      this.buddy := buddy;
      headers := map[];
      live := map[];
    }

    /** NULL exactly when the size is out of range or no block of the needed order can be served. */
    method Allocate(n: nat) returns (ptr: nat)
      requires Valid()
      modifies this, buddy`pool, buddy`own, buddy.freeLists, buddy.link, buddy.bitmap
      ensures Valid()
      ensures ptr == NULL <==> n == 0 || n >= 16384 || !CanServe(old(buddy.pool), OrderFor(n))
      ensures ptr == NULL ==> buddy.pool == old(buddy.pool) && live == old(live) && buddy.own == old(buddy.own)
      ensures ptr != NULL ==> ptr !in old(live) && live == old(live)[ptr := n]
      ensures ptr != NULL ==> (buddy.pool, Some(PageOf(ptr))) == Alloc(old(buddy.pool), OrderFor(n))
      ensures ptr != NULL ==> TakesPage(old(buddy.own), buddy.own, PageOf(ptr), OrderFor(n))
    {
      hide Inv, Alloc, CanServe, AllocOwn, OrderFor, Align, Backed, TakesPage;
      if n == 0 || n >= MAXIMUM_SLAB_ALLOCATION {
        return NULL;
      }
      var totalSize := Align(n + HEADER_SIZE, PAGE_SIZE);
      var pages := CeilDiv(totalSize, PAGE_SIZE);
      var order := CeilLog2(pages);
      assert order == OrderFor(n) by { OrderForUnfolds(n); }
      ptr := AllocateBlock(n, totalSize, order);
    }

    /** A block of that order with a header at its start. */
    method AllocateBlock(n: nat, totalSize: nat, order: nat) returns (ptr: nat)
      requires Valid() && totalSize == TotalSize(n) && order == OrderFor(n)
      modifies this, buddy`pool, buddy`own, buddy.freeLists, buddy.link, buddy.bitmap
      ensures Valid()
      ensures ptr == NULL <==> !CanServe(old(buddy.pool), order)
      ensures ptr == NULL ==> buddy.pool == old(buddy.pool) && live == old(live) && buddy.own == old(buddy.own)
      ensures ptr != NULL ==> ptr !in old(live) && live == old(live)[ptr := n]
      ensures ptr != NULL ==> (buddy.pool, Some(PageOf(ptr))) == Alloc(old(buddy.pool), order)
      ensures ptr != NULL ==> TakesPage(old(buddy.own), buddy.own, PageOf(ptr), order)
    {
      hide Inv, Alloc, CanServe, AllocOwn, OrderFor, TotalSize, Live, BuddyAllocator.Represents;
      buddy.PoolIsShaped();
      AllocKeeps(buddy.pool, buddy.own, order);
      AllocRefused(buddy.pool, buddy.own, order);
      var paddr := buddy.BuddyAlloc(order);
      if paddr == NULL {
        return NULL;
      }
      var vaddr := P2V(paddr);
      headers := headers[vaddr := Header(MEM_TYPE_KMALLOC, totalSize, MAGIC)];
      ptr := vaddr + HEADER_SIZE;
      live := live[ptr := n];
    }

    /** Frees with the order kmalloc allocated with: the header's size leads back to it. Neither abort
        is reached on a pointer kmalloc gave out. */
    method Free(ptr: nat) returns (outcome: Outcome)
      requires Valid() && (ptr == NULL || ptr in live)
      modifies this, buddy`pool, buddy`own, buddy.freeLists, buddy.link, buddy.bitmap
      ensures Valid()
      ensures outcome == if ptr == NULL then Ignored else Freed
      ensures ptr == NULL ==> buddy.pool == old(buddy.pool) && live == old(live) && buddy.own == old(buddy.own)
      ensures ptr != NULL ==> live == old(live) - {ptr}
      ensures ptr != NULL ==> Live(buddy.own) == Live(old(buddy.own)) - {old(PageOf(ptr))}
      ensures ptr != NULL ==> buddy.pool == FreedPool(old(buddy.pool), old(PageOf(ptr)), OrderFor(old(live)[ptr]))
    {
      hide Inv, Alloc, Live, Dealloc, DeallocOwn, OrderFor, Align;
      if ptr == NULL {
        NullNotLive();
        return Ignored;
      }
      assert Backed(ptr, live[ptr]);
      var header := headers[ptr - HEADER_SIZE];
      if header.magic != MAGIC {
        return Aborted;
      }
      if header.flags % (MEM_ALLOCATOR_MASK + 1) != MEM_TYPE_KMALLOC {
        return Aborted;
      }
      var pages := CeilDiv(header.size, PAGE_SIZE);
      var order := CeilLog2(pages);
      ghost var page := PageOf(ptr);
      assert order == OrderFor(live[ptr]) by { OrderForUnfolds(live[ptr]); }
      BlockFits(buddy.pool, buddy.own, page, order);
      DeallocKeeps(buddy.pool, buddy.own, page, order);
      OthersStay();
      var emptyRead := buddy.BuddyDealloc(V2P(ptr - HEADER_SIZE), order, page);
      live := live - {ptr};
      return Freed;
    }

    lemma NullNotLive()
      requires Valid()
      ensures NULL !in live
    {
    }

    /** Two pointers on the same page are the same pointer. */
    lemma OthersStay()
      requires Valid()
      ensures forall p, q :: p in live && q in live && PageOf(p) == PageOf(q) ==> p == q
    {
      forall p, q | p in live && q in live && PageOf(p) == PageOf(q)
        ensures p == q
      {
        assert Backed(p, live[p]) && Backed(q, live[q]);
      }
    }

    /** The bytes handed out for different pointers never overlap, headers included. */
    lemma LiveRegionsDisjoint(p: nat, q: nat)
      requires Valid() && p in live && q in live && p < q
      ensures p + live[p] <= q - HEADER_SIZE
    {
      var i, j := PageOf(p), PageOf(q);
      assert Backed(p, live[p]) && Backed(q, live[q]);
      BlockIsOwn(buddy.pool, buddy.own, i);
      BlockIsOwn(buddy.pool, buddy.own, j);
      BlockHoldsRequest(live[p]);
      assert PAGE_SIZE * (i + Pow2(OrderFor(live[p]))) <= PAGE_SIZE * j;
    }
  }

  lemma OrderForUnfolds(n: nat)
    ensures CeilDiv(Align(n + HEADER_SIZE, PAGE_SIZE), PAGE_SIZE) > 0
    ensures OrderFor(n) == CeilLog2(CeilDiv(Align(n + HEADER_SIZE, PAGE_SIZE), PAGE_SIZE))
  {
  }

  /** kmalloc then kfree restores every free list when the block taken had all bits clear. */
  lemma KmallocThenKfree(p: Pool, own: seq<Owner>, n: nat)
    requires Inv(p, own) && CanServe(p, OrderFor(n))
    requires AllClear(p.bits, Source(p, OrderFor(n)).0, Source(p, OrderFor(n)).1)
    ensures FreedPool(Alloc(p, OrderFor(n)).0, Alloc(p, OrderFor(n)).1.value, OrderFor(n)).lists == p.lists
  {
    AllocThenFreeClearBlock(p, own, OrderFor(n));
  }
}
