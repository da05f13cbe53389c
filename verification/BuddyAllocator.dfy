/** buddy.c itself: linked free lists threaded through the first word of free pages, and a bitmap. */
module Buddy {
  import opened Common
  import opened PowersOfTwo
  import opened Bitmap
  import opened BuddyPool
  import opened BuddyInvariant
  import opened BuddyCarving
  import BuddyTheorems

  /** Physical memory the kernel can name: KERNBASE + paddr is at most 2^32. Memory that ends there has an end
      address of 2^32, held as 0; the code only takes differences from it, which come out the same. */
  const PHYS_LIMIT: nat := 0x4000_0000

  function P2V(paddr: nat): (v: nat)
  {
    paddr + KERNBASE
  }

  function V2P(vaddr: nat): (p: nat)
    requires vaddr >= KERNBASE
  {
    vaddr - KERNBASE
  }

  // ----- chains of nodes -----

  /** The address of node j of a list of pages, NULL past its end. */
  function NodeAt(base: nat, s: seq<nat>, j: nat): (a: nat) {
    if j < |s| then base + PAGE_SIZE * s[j] else NULL
  }

  /** Following next pointers from head visits exactly the pages of s, in order. */
  ghost predicate Chain(base: nat, s: seq<nat>, head: nat, link: seq<nat>) {
    && head == NodeAt(base, s, 0)
    && forall j :: 0 <= j < |s| ==> s[j] < |link| && link[s[j]] == NodeAt(base, s, j + 1)
  }

  ghost predicate Chained(base: nat, lists: seq<seq<nat>>, heads: seq<nat>, link: seq<nat>) {
    && |lists| == |heads|
    && forall k :: 0 <= k < |lists| ==> Chain(base, lists[k], heads[k], link)
  }

  lemma NodeOf(base: nat, s: seq<nat>, head: nat, link: seq<nat>, j: nat)
    requires Chain(base, s, head, link) && base > NULL && j <= |s|
    ensures j == 0 ==> head == NodeAt(base, s, 0)
    ensures j < |s| <==> NodeAt(base, s, j) != NULL
    ensures j < |s| ==> NodeAt(base, s, j) == base + PAGE_SIZE * s[j]
    ensures j < |s| ==> s[j] < |link| && link[s[j]] == NodeAt(base, s, j + 1)
  {
  }

  lemma ChainPush(base: nat, s: seq<nat>, head: nat, link: seq<nat>, x: nat)
    requires Chain(base, s, head, link) && x < |link| && x !in s
    ensures Chain(base, [x] + s, base + PAGE_SIZE * x, link[x := head])
  {
    var t := [x] + s;
    forall j | 0 <= j < |t|
      ensures t[j] < |link| && link[x := head][t[j]] == NodeAt(base, t, j + 1)
    {
      assert NodeAt(base, t, j + 1) == NodeAt(base, s, j);
      if j > 0 {
        assert t[j] == s[j - 1] != x;
      }
    }
  }

  lemma ChainPop(base: nat, s: seq<nat>, head: nat, link: seq<nat>)
    requires Chain(base, s, head, link) && s != []
    ensures Chain(base, s[1..], link[s[0]], link)
  {
    forall j | 0 <= j < |s[1..]|
      ensures s[1..][j] < |link| && link[s[1..][j]] == NodeAt(base, s[1..], j + 1)
    {
      assert s[1..][j] == s[j + 1];
    }
  }

  lemma ChainUnlink(base: nat, s: seq<nat>, head: nat, link: seq<nat>, j: nat)
    requires Chain(base, s, head, link) && 0 < j < |s| && NoDuplicates(s)
    ensures Chain(base, s[..j] + s[j + 1..], head, link[s[j - 1] := link[s[j]]])
  {
    hide NodeAt;
    var t := s[..j] + s[j + 1..];
    var link' := link[s[j - 1] := link[s[j]]];
    NodeWithout(base, s, j, 0);
    forall m | 0 <= m < |t|
      ensures t[m] < |link'| && link'[t[m]] == NodeAt(base, t, m + 1)
    {
      var k := if m < j then m else m + 1;
      assert t[m] == s[k] && s[k] < |link| && link[s[k]] == NodeAt(base, s, k + 1);
      NodeWithout(base, s, j, m + 1);
    }
  }

  lemma NodeWithout(base: nat, s: seq<nat>, j: nat, m: nat)
    requires j < |s|
    ensures NodeAt(base, s[..j] + s[j + 1..], m) == NodeAt(base, s, if m < j then m else m + 1)
  {
    var t := s[..j] + s[j + 1..];
    assert j <= m < |t| ==> t[m] == s[j + 1..][m - j] == s[m + 1];
  }

  lemma {:induction false} WithoutAt(s: seq<nat>, j: nat)
    requires j < |s| && NoDuplicates(s)
    ensures Without(s, s[j]) == s[..j] + s[j + 1..]
  {
    if j > 0 {
      var t := s[1..];
      assert forall a :: 0 <= a < |t| ==> t[a] == s[a + 1];
      WithoutAt(t, j - 1);
      assert s[..j] + s[j + 1..] == [s[0]] + (t[..j - 1] + t[j..]);
    } else {
      assert s[..0] + s[1..] == s[1..];
    }
  }

  lemma {:induction false} WithoutAbsent(s: seq<nat>, x: nat)
    requires x !in s
    ensures Without(s, x) == s
  {
    if s != [] {
      WithoutAbsent(s[1..], x);
    }
  }

  lemma ChainedPush(base: nat, lists: seq<seq<nat>>, heads: seq<nat>, link: seq<nat>, k: nat, x: nat)
    requires Chained(base, lists, heads, link) && k < |lists| && x < |link|
    requires forall m :: 0 <= m < |lists| ==> x !in lists[m]
    ensures Chained(base, Push(lists, k, x), heads[k := base + PAGE_SIZE * x], link[x := heads[k]])
  {
    var heads', link' := heads[k := base + PAGE_SIZE * x], link[x := heads[k]];
    forall m | 0 <= m < |lists|
      ensures Chain(base, Push(lists, k, x)[m], heads'[m], link')
    {
      assert Chain(base, lists[m], heads[m], link);
      if m == k {
        ChainPush(base, lists[k], heads[k], link, x);
      }
    }
  }

  lemma ChainedPop(base: nat, lists: seq<seq<nat>>, heads: seq<nat>, link: seq<nat>, k: nat)
    requires Chained(base, lists, heads, link) && k < |lists| && lists[k] != []
    ensures lists[k][0] < |link|
    ensures Chained(base, lists[k := lists[k][1..]], heads[k := link[lists[k][0]]], link)
  {
    assert Chain(base, lists[k], heads[k], link);
    var lists', heads' := lists[k := lists[k][1..]], heads[k := link[lists[k][0]]];
    forall m | 0 <= m < |lists|
      ensures Chain(base, lists'[m], heads'[m], link)
    {
      assert Chain(base, lists[m], heads[m], link);
      if m == k {
        ChainPop(base, lists[k], heads[k], link);
      }
    }
  }

  /** The nodes of list k are distinct and on no other list. */
  ghost predicate Disjoint(lists: seq<seq<nat>>, k: nat)
    requires k < |lists|
  {
    && NoDuplicates(lists[k])
    && forall j, m :: 0 <= j < |lists[k]| && 0 <= m < |lists| && m != k ==> lists[k][j] !in lists[m]
  }

  function DropAt(s: seq<nat>, j: nat): (r: seq<nat>)
    requires j < |s|
  {
    s[..j] + s[j + 1..]
  }

  lemma ChainedUnlink(base: nat, lists: seq<seq<nat>>, heads: seq<nat>, link: seq<nat>, k: nat, j: nat)
    requires Chained(base, lists, heads, link) && k < |lists| && 0 < j < |lists[k]| && Disjoint(lists, k)
    ensures lists[k][j - 1] < |link| && lists[k][j] < |link|
    ensures Chained(base, lists[k := DropAt(lists[k], j)], heads, link[lists[k][j - 1] := link[lists[k][j]]])
  {
    assert Chain(base, lists[k], heads[k], link);
    ChainUnlink(base, lists[k], heads[k], link, j);
    var lists', link' := lists[k := DropAt(lists[k], j)], link[lists[k][j - 1] := link[lists[k][j]]];
    forall m | 0 <= m < |lists|
      ensures Chain(base, lists'[m], heads[m], link')
    {
      assert Chain(base, lists[m], heads[m], link);
    }
  }

  // ----- addresses and pages -----

  /** A page is 2^12 bytes. */
  lemma PageIsPower()
    ensures Pow2(12) == PAGE_SIZE
  {
    assert Pow2(4) == 16;
    assert Pow2(8) == 256;
  }

  /** paddr ^ (PAGE_SIZE << k) of a block in a pool whose base is aligned is the address of its buddy. */
  lemma BuddyAddress(base: nat, i: nat, k: nat)
    requires Aligned(base, 12 + k + 1)
    ensures FlipBit(base + PAGE_SIZE * i, 12 + k) == base + PAGE_SIZE * Buddy(i, k)
  {
    PageIsPower();
    FlipBitAboveBase(base, PAGE_SIZE * i, 12 + k);
    FlipBitShifted(i, k, 12);
  }

  lemma KernBaseAligned(k: nat)
    requires k <= 30
    ensures Aligned(KERNBASE, k)
  {
    assert Pow2(10) == 1024 && Pow2(20) == 1024 * Pow2(10) by { Pow2Sum(10, 10); }
    Pow2Sum(10, 20);
    assert KERNBASE == 3 * Pow2(30);
    Pow2Aligned(30, k);
    AlignedAdd(Pow2(30), Pow2(30), k);
    AlignedAdd(2 * Pow2(30), Pow2(30), k);
  }

  // ----- the layout buddy_init chooses -----

  /** log2 of PHYS_LIMIT / PAGE_SIZE. */
  const LARGEST_ORDER := 18

  /** ALIGN(x, a): the least multiple of a that is not below x. */
  function Align(x: nat, a: nat): (r: nat)
    requires a > 0
    ensures x <= r < x + a
  {
    var q := (x + a - 1) / a;
    AlignBounds(x, a, q);
    q * a
  }

  lemma AlignBounds(x: nat, a: nat, q: nat)
    requires a > 0 && q == (x + a - 1) / a
    ensures x <= q * a < x + a
  {
    var m := x + a - 1;
    assert m == q * a + m % a;
  }

  lemma AlignIsMultiple(x: nat, a: nat)
    requires a > 0
    ensures Align(x, a) % a == 0
  {
    var q := (x + a - 1) / a;
    RemainderUnique(q * a, a, q, 0);
  }

  /** The bytes of bitmap for the free memory [start, end). */
  function MapSize(start: nat, end: nat): (r: nat)
    requires start <= end
  {
    Align(CeilDiv((end - start) / PAGE_SIZE, 8), 4)
  }

  /** The first virtual address past the bitmap. */
  function MapEnd(start: nat, end: nat): (r: nat)
    requires start <= end
  {
    P2V(start) + MapSize(start, end)
  }

  /** After the bitmap at least one whole page is left. */
  predicate RoomForPool(start: nat, end: nat) {
    start <= end <= PHYS_LIMIT && Align(MapEnd(start, end), PAGE_SIZE) + PAGE_SIZE <= P2V(end)
  }

  /** The largest order that would fit between x, rounded up to a page, and y. */
  function RoomOrder(x: nat, y: nat): (r: nat)
    requires Align(x, PAGE_SIZE) + PAGE_SIZE <= y
  {
    FloorLog2((y - Align(x, PAGE_SIZE)) / PAGE_SIZE)
  }

  /** x rounded up to that block size. */
  function PoolBase(x: nat, y: nat): (r: nat)
    requires Align(x, PAGE_SIZE) + PAGE_SIZE <= y
  {
    Align(x, PAGE_SIZE * Pow2(RoomOrder(x, y)))
  }

  lemma FloorLog2Monotone(a: nat, b: nat)
    requires 0 < a <= b
    ensures FloorLog2(a) <= FloorLog2(b)
  {
    if FloorLog2(a) > FloorLog2(b) {
      Pow2Monotone(FloorLog2(b) + 1, FloorLog2(a));
    }
  }

  /** A page times a power of two is a power of two, and a multiple of a page. */
  lemma BlockBytes(m: nat)
    ensures PAGE_SIZE * Pow2(m) == Pow2(12 + m) && Pow2(12 + m) % PAGE_SIZE == 0
  {
    PageIsPower();
    Pow2Sum(12, m);
    Pow2Aligned(12 + m, 12);
    AlignedIffMultiple(Pow2(12 + m), 12);
  }

  lemma PoolBaseAligned(x: nat, y: nat)
    requires Align(x, PAGE_SIZE) + PAGE_SIZE <= y
    ensures Aligned(PoolBase(x, y), 12 + RoomOrder(x, y)) && PoolBase(x, y) % PAGE_SIZE == 0
  {
    var m := RoomOrder(x, y);
    BlockBytes(m);
    AlignIsMultiple(x, PAGE_SIZE * Pow2(m));
    AlignedIffMultiple(PoolBase(x, y), 12 + m);
    AlignedDown(PoolBase(x, y), 12, 12 + m);
    AlignedIffMultiple(PoolBase(x, y), 12);
    PageIsPower();
  }

  /** Aligning the base to the largest block that would fit still leaves a page of room. */
  lemma PoolBaseBelowEnd(x: nat, y: nat)
    requires Align(x, PAGE_SIZE) + PAGE_SIZE <= y
    ensures Align(x, PAGE_SIZE) <= PoolBase(x, y) && PoolBase(x, y) + PAGE_SIZE <= y
  {
    hide Align, Pow2, Aligned;
    var n := Pow2(RoomOrder(x, y));
    var t, b, a := Align(x, PAGE_SIZE), PoolBase(x, y), PAGE_SIZE * n;
    PoolBaseAligned(x, y);
    AlignIsMultiple(x, PAGE_SIZE);
    assert n <= (y - t) / PAGE_SIZE;
    PageSteps(t, b, n);
  }

  lemma PageSteps(t: nat, b: nat, n: nat)
    requires t % PAGE_SIZE == 0 && b % PAGE_SIZE == 0
    ensures b + PAGE_SIZE > t ==> b >= t
    ensures b < t + PAGE_SIZE * n ==> b + PAGE_SIZE <= t + PAGE_SIZE * n
  {
  }

  /** For every memory range with a page to spare: the base is strictly below the end, past the
      bitmap, and aligned to the largest block; the bitmap has a bit for every page. */
  lemma LayoutIsSound(start: nat, end: nat)
    requires RoomForPool(start, end)
    ensures
      var base := PoolBase(MapEnd(start, end), P2V(end));
      var pages := (P2V(end) - base) / PAGE_SIZE;
      && MapEnd(start, end) <= base && KERNBASE < base && base + PAGE_SIZE <= P2V(end)
      && base % PAGE_SIZE == 0
      && 0 < pages <= 8 * MapSize(start, end)
      && FloorLog2(pages) <= LARGEST_ORDER
      && Aligned(base, 12 + FloorLog2(pages))
  {
    hide Align, FloorLog2, Aligned, Pow2;
    var x, y := MapEnd(start, end), P2V(end);
    var base := PoolBase(x, y);
    var pages := (y - base) / PAGE_SIZE;
    PoolBaseAligned(x, y);
    PoolBaseBelowEnd(x, y);
    FloorLog2Monotone(pages, (y - Align(x, PAGE_SIZE)) / PAGE_SIZE);
    AlignedDown(base, 12 + FloorLog2(pages), 12 + RoomOrder(x, y));
    MapCoversPages(start, end);
    OrderBound(pages);
  }

  /** Nothing more is given up than that needs: the map is the fewest words with a bit for each page, and the base the
      first address past it that is aligned to the largest block with room behind it, to the next page boundary. */
  lemma LayoutIsLeast(start: nat, end: nat) returns (first: nat, m: nat)
    requires RoomForPool(start, end)
    ensures
      var bytes := MapSize(start, end);
      bytes % 4 == 0 && (end - start) / 4096 <= 8 * bytes < (end - start) / 4096 + 32
    ensures
      var past := 0xC000_0000 + start + MapSize(start, end);
      && first % 4096 == 0 && past <= first < past + 4096
      && 4096 * Pow2(m) <= 0xC000_0000 + end - first < 4096 * Pow2(m + 1)
      && PoolBase(MapEnd(start, end), P2V(end)) % (4096 * Pow2(m)) == 0
      && past <= PoolBase(MapEnd(start, end), P2V(end)) < past + 4096 * Pow2(m)
  {
    hide Align, FloorLog2, Pow2;
    var x, y := MapEnd(start, end), P2V(end);
    first, m := Align(x, PAGE_SIZE), RoomOrder(x, y);
    AlignIsMultiple(x, PAGE_SIZE);
    AlignIsMultiple(x, PAGE_SIZE * Pow2(m));
    AlignIsMultiple(CeilDiv((end - start) / PAGE_SIZE, 8), 4);
  }

  /** The pages buddy_init manages. */
  function PoolPages(start: nat, end: nat): (r: nat)
    requires RoomForPool(start, end)
  {
    LayoutIsSound(start, end);
    (P2V(end) - PoolBase(MapEnd(start, end), P2V(end))) / PAGE_SIZE
  }

  function BootPool(start: nat, end: nat): (r: Pool)
    requires RoomForPool(start, end)
    ensures r.Shaped()
  {
    LayoutIsSound(start, end);
    InitialPool(PoolPages(start, end), 8 * MapSize(start, end))
  }

  lemma BootPoolInv(start: nat, end: nat)
    requires RoomForPool(start, end)
    ensures Inv(BootPool(start, end), CarveOwn([], PoolPages(start, end)))
    ensures BootPool(start, end).pages == PoolPages(start, end)
    ensures BootPool(start, end).maxOrder == FloorLog2(PoolPages(start, end)) <= LARGEST_ORDER
    ensures BootPool(start, end).lists == Carve(EMPTY, 0, PoolPages(start, end))
    ensures BootPool(start, end).bits == seq(8 * MapSize(start, end), _ => false)
  {
    LayoutIsSound(start, end);
    InitialInv(PoolPages(start, end), 8 * MapSize(start, end));
  }

  lemma MapCoversPages(start: nat, end: nat)
    requires start <= end
    ensures (end - start) / PAGE_SIZE <= 8 * MapSize(start, end)
    ensures PAGE_SIZE <= end - start ==> MapSize(start, end) > 0
  {
  }

  lemma OrderBound(pages: nat)
    requires 0 < pages <= PHYS_LIMIT / PAGE_SIZE
    ensures FloorLog2(pages) <= LARGEST_ORDER
  {
    assert Pow2(9) == 512;
    Pow2Sum(9, 9);
    Pow2Monotone(18, 18);
    FloorLog2Unique(Pow2(18), 18);
    FloorLog2Monotone(pages, Pow2(18));
  }

  /** Free memory from 1 MiB to 13 MiB makes a pool of 1280 pages with 3072 bits of map, and in some run of it the
      empty list is read. */
  lemma LayoutReadsEmptyList()
    ensures RoomForPool(0x10_0000, 0xD0_0000)
    ensures PoolPages(0x10_0000, 0xD0_0000) == 1280 && MapSize(0x10_0000, 0xD0_0000) == 384
    ensures BuddyTheorems.ValidSize(1280, 3072) && BuddyTheorems.EmptyReadReachable(1280, 3072)
  {
    var start, end := 0x10_0000, 0xD0_0000;
    var x, y := MapEnd(start, end), P2V(end);
    assert MapSize(start, end) == 384;
    assert Align(x, PAGE_SIZE) == P2V(start) + PAGE_SIZE;
    assert (y - Align(x, PAGE_SIZE)) / PAGE_SIZE == 3071;
    Powers();
    FloorLog2Unique(3071, 11);
    assert PoolBase(x, y) == P2V(0x80_0000);
    FloorLog2Unique(1280, 10);
    assert LowBit(1280) == 8;
    BuddyTheorems.EmptyReadReachableExactly(1280, 3072);
  }

  lemma Powers()
    ensures Pow2(8) == 256 && Pow2(10) == 1024 && Pow2(11) == 2048 && Pow2(12) == 4096
  {
    assert Pow2(4) == 16;
    assert Pow2(8) == 256;
    assert Pow2(10) == 1024;
  }

  class BuddyAllocator {
    var base: nat
    var size: nat
    var maxOrder: nat
    const freeLists: array<nat>
    /** link[i] is the next field of the node kept in page i while that page starts a free block. */
    const link: array<nat>
    const bitmap: array<bv8>

    ghost var pool: Pool
    ghost var own: seq<Owner>

    ghost predicate Separate() {
      link != freeLists && bitmap as object != link && bitmap as object != freeLists
    }

    /** The lists in memory, followed from their heads, are these. */
    ghost predicate Holding(lists: seq<seq<nat>>)
      reads this`base, freeLists, link
    {
      |lists| == ORDERS && base > NULL && Separate() && Chained(base, lists, freeLists[..], link[..])
    }

    /** The fields stand for the value pool. */
    ghost predicate Represents()
      reads this, freeLists, link, bitmap
    {
      && pool.Shaped() && maxOrder == pool.maxOrder <= LARGEST_ORDER
      && KERNBASE < base && base + size <= KERNBASE + PHYS_LIMIT
      && pool.pages == size / PAGE_SIZE == link.Length
      && Aligned(base, 12 + maxOrder)
      && Holding(pool.lists)
      && pool.bits == Bits(bitmap[..])
    }

    ghost predicate Valid()
      reads this, freeLists, link, bitmap
    {
      Represents() && Inv(pool, own)
    }

    lemma PoolIsShaped()
      requires Valid()
      ensures pool.Shaped()
    {
    }

    /** buddy_init over the free physical memory [start, end). */
    constructor Init(start: nat, end: nat)
      requires RoomForPool(start, end)
      ensures Valid() && fresh(freeLists) && fresh(link) && fresh(bitmap)
      ensures base == PoolBase(MapEnd(start, end), P2V(end)) && base + size == P2V(end)
      ensures bitmap.Length == MapSize(start, end)
      ensures pool == BootPool(start, end) && own == CarveOwn([], PoolPages(start, end))
    {
      hide Align, FloorLog2, Aligned, Inv, Carve, CarveOwn, InitialPool, BootPool, Bits, Chained, Pow2;
      LayoutIsSound(start, end);
      BootPoolInv(start, end);
      var numPages := (end - start) / PAGE_SIZE;
      var mapSize := Align(CeilDiv(numPages, 8), 4);
      var mapEnd := P2V(start) + mapSize;
      var tempBase := Align(mapEnd, PAGE_SIZE);
      var tempOrder := FloorLog2((P2V(end) - tempBase) / PAGE_SIZE);
      var poolBase := Align(mapEnd, PAGE_SIZE * Pow2(tempOrder));
      assert poolBase == PoolBase(MapEnd(start, end), P2V(end));
      var poolSize := P2V(end) - poolBase;
      var pages := poolSize / PAGE_SIZE;
      assert pages == PoolPages(start, end);
      base, size := poolBase, poolSize;
      maxOrder := FloorLog2(pages);
      bitmap := new bv8[mapSize](_ => 0);
      freeLists := new nat[ORDERS](_ => NULL);
      link := new nat[pages];
      pool, own := BootPool(start, end), CarveOwn([], PoolPages(start, end));
      new;
      ClearMap(bitmap[..]);
      CarvePool();
    }

    /** The carving loop. Nodes are written through a scratch mapping of the page they live in. */
    method CarvePool()
      requires Separate() && base > NULL && size >= PAGE_SIZE && freeLists.Length == ORDERS
      requires link.Length == size / PAGE_SIZE
      requires maxOrder == FloorLog2(size / PAGE_SIZE) <= LARGEST_ORDER
      requires forall k :: 0 <= k < ORDERS ==> freeLists[k] == NULL
      modifies freeLists, link
      ensures Holding(Carve(EMPTY, 0, size / PAGE_SIZE))
    {
      hide Chained, Carve, FloorLog2, Pow2, Push;
      var remaining: nat, current: nat := size, base;
      ghost var at: nat, left: nat, lists := 0, size / PAGE_SIZE, EMPTY;
      EmptyChained(base, freeLists[..], link[..]);
      while remaining >= PAGE_SIZE
        invariant left == remaining / PAGE_SIZE && left + at == link.Length && current == base + PAGE_SIZE * at
        invariant Holding(lists) && Below(lists, at)
        invariant left > 0 ==> FloorLog2(left) <= maxOrder
        invariant Carve(lists, at, left) == Carve(EMPTY, 0, link.Length)
        decreases remaining
      {
        var order := FloorLog2(remaining / PAGE_SIZE);
        if order > maxOrder {
          order := maxOrder;
        }
        var blockSize := PAGE_SIZE * Pow2(order);
        CarveStep(lists, at, left);
        TakeBlocks(remaining, Pow2(order));
        ListAdd(current, order, at, lists);
        lists, at, left := Push(lists, order, at), at + Pow2(order), left - Pow2(order);
        current := current + blockSize;
        remaining := remaining - blockSize;
        if left > 0 {
          FloorLog2Monotone(left, link.Length);
        }
      }
      CarveNothing(lists, at);
    }

    method IsBlockFree(i: nat, order: nat) returns (free: bool)
      ensures free == AllClear(Bits(bitmap[..]), i, order)
    {
      var j := 0;
      while j < Pow2(order)
        invariant 0 <= j <= Pow2(order) && i + j <= i + Pow2(order)
        invariant j > 0 ==> i + j <= 8 * bitmap.Length
        invariant forall x :: i <= x < i + j ==> !Bits(bitmap[..])[x]
      {
        var byteIndex, bitInByte := (i + j) / 8, (i + j) % 8;
        if byteIndex >= bitmap.Length {
          return false;
        }
        if TestBit(bitmap[byteIndex], bitInByte) {
          assert Bits(bitmap[..])[i + j];
          return false;
        }
        j := j + 1;
      }
      return true;
    }

    /** node->next for the node at the start of page y. */
    method Next(node: nat, ghost y: nat) returns (next: nat)
      requires node == base + PAGE_SIZE * y && y < link.Length
      ensures next == link[y]
    {
      next := link[(node - base) / PAGE_SIZE];
      assert (node - base) / PAGE_SIZE == y;
    }

    method SetNext(node: nat, next: nat, ghost y: nat)
      requires node == base + PAGE_SIZE * y && y < link.Length
      modifies link
      ensures link[..] == old(link[..])[y := next]
    {
      link[(node - base) / PAGE_SIZE] := next;
      assert (node - base) / PAGE_SIZE == y;
    }

    /** free_lists[k] = head->next. */
    method PopHead(k: nat, ghost lists: seq<seq<nat>>)
      requires Holding(lists) && k < ORDERS && lists[k] != []
      modifies freeLists
      ensures Holding(lists[k := lists[k][1..]])
    {
      assert Chain(base, lists[k], freeLists[k], link[..]);
      ChainedPop(base, lists, freeLists[..], link[..], k);
      ghost var heads: seq<nat> := freeLists[..];
      var next := Next(freeLists[k], lists[k][0]);
      freeLists[k] := next;
      assert freeLists[..] == heads[k := next];
    }

    /** buddy_list_add. */
    method ListAdd(vaddr: nat, k: nat, ghost x: nat, ghost lists: seq<seq<nat>>)
      requires Holding(lists) && k < ORDERS && vaddr == base + PAGE_SIZE * x && x < link.Length
      requires forall m :: 0 <= m < ORDERS ==> x !in lists[m]
      modifies freeLists, link
      ensures Holding(Push(lists, k, x))
    {
      ChainedPush(base, lists, freeLists[..], link[..], k, x);
      ghost var heads: seq<nat>, before: seq<nat> := freeLists[..], link[..];
      SetNext(vaddr, freeLists[k], x);
      freeLists[k] := vaddr;
      assert link[..] == before[x := heads[k]];
      assert freeLists[..] == heads[k := vaddr];
    }

    /** prev->next = current->next for the nodes j - 1 and j of a list. */
    method UnlinkAfter(prev: nat, current: nat, order: nat, ghost j: nat, ghost lists: seq<seq<nat>>)
      requires Holding(lists) && order < ORDERS && Disjoint(lists, order) && 0 < j < |lists[order]|
      requires prev == base + PAGE_SIZE * lists[order][j - 1] && current == base + PAGE_SIZE * lists[order][j]
      modifies link
      ensures Holding(lists[order := DropAt(lists[order], j)])
    {
      ghost var s: seq<nat>, heads: seq<nat>, before: seq<nat> := lists[order], freeLists[..], link[..];
      ChainedUnlink(base, lists, heads, before, order, j);
      var next := Next(current, s[j]);
      SetNext(prev, next, s[j - 1]);
      assert link[..] == before[s[j - 1] := before[s[j]]] && freeLists[..] == heads;
    }

    /** The walk of remove_from_free_list past the head, with the two pointers it leaves behind. */
    method WalkList(vaddr: nat, order: nat, ghost x: nat, ghost s: seq<nat>)
      returns (prev: nat, current: nat, ghost j: nat)
      requires order < freeLists.Length && base > NULL && Chain(base, s, freeLists[order], link[..])
      requires vaddr == base + PAGE_SIZE * x && s != [] && s[0] != x
      ensures 1 <= j <= |s|
      ensures prev == base + PAGE_SIZE * s[j - 1] && current == NodeAt(base, s, j)
      ensures if current == NULL then x !in s else j < |s| && s[j] == x
    {
      hide Chain, NodeAt;
      NodeOf(base, s, freeLists[order], link[..], 0);
      prev := freeLists[order];
      current := Next(prev, s[0]);
      j := 1;
      NodeOf(base, s, freeLists[order], link[..], 1);
      while current != NULL && current != vaddr
        invariant 1 <= j <= |s|
        invariant prev == base + PAGE_SIZE * s[j - 1] && current == NodeAt(base, s, j)
        invariant forall a :: 0 <= a < j ==> s[a] != x
        decreases |s| - j
      {
        NodeOf(base, s, freeLists[order], link[..], j);
        prev := current;
        current := Next(prev, s[j]);
        j := j + 1;
        NodeOf(base, s, freeLists[order], link[..], j);
      }
      NodeOf(base, s, freeLists[order], link[..], j);
    }

    /** Where the source reads the next field of an empty list's head, emptyRead is raised instead. */
    method RemoveFromFreeList(vaddr: nat, order: nat, ghost x: nat, ghost lists: seq<seq<nat>>)
      returns (found: bool, emptyRead: bool)
      requires Holding(lists) && order < ORDERS && Disjoint(lists, order) && vaddr == base + PAGE_SIZE * x
      modifies freeLists, link
      ensures Holding(Unlink(lists, order, x))
      ensures found <==> x in lists[order]
      ensures emptyRead <==> lists[order] == []
    {
      ghost var s := lists[order];
      assert Chain(base, s, freeLists[order], link[..]);
      var head := freeLists[order];
      if head == NULL {
        assert Unlink(lists, order, x) == lists;
        return false, true;
      }
      if head == vaddr {
        PopHead(order, lists);
        return true, false;
      }
      var prev, current, j := WalkList(vaddr, order, x, s);
      if current == NULL {
        WithoutAbsent(s, x);
        assert Unlink(lists, order, x) == lists;
        return false, false;
      }
      WithoutAt(s, j);
      UnlinkAfter(prev, current, order, j, lists);
      return true, false;
    }

    /** mark_free and mark_allocated differ in the value they write; neither can run past the map. */
    method MarkFree(vaddr: nat, order: nat, ghost x: nat) returns (aborted: bool)
      requires vaddr == base + PAGE_SIZE * x && x + Pow2(order) <= 8 * bitmap.Length
      modifies bitmap
      ensures !aborted && Bits(bitmap[..]) == Fill(old(Bits(bitmap[..])), x, Pow2(order), false)
    {
      var i := (vaddr - base) / PAGE_SIZE;
      ghost var bits := Bits(bitmap[..]);
      var j := 0;
      while j < Pow2(order)
        invariant 0 <= j <= Pow2(order)
        invariant Bits(bitmap[..]) == Fill(bits, x, j, false)
      {
        if (i + j) / 8 >= bitmap.Length {
          return true;
        }
        ClearBit(bitmap, i + j);
        j := j + 1;
      }
      return false;
    }

    method MarkAllocated(vaddr: nat, order: nat, ghost x: nat) returns (aborted: bool)
      requires vaddr == base + PAGE_SIZE * x && x + Pow2(order) <= 8 * bitmap.Length
      modifies bitmap
      ensures !aborted && Bits(bitmap[..]) == Fill(old(Bits(bitmap[..])), x, Pow2(order), true)
    {
      var i := (vaddr - base) / PAGE_SIZE;
      ghost var bits := Bits(bitmap[..]);
      var j := 0;
      while j < Pow2(order)
        invariant 0 <= j <= Pow2(order)
        invariant Bits(bitmap[..]) == Fill(bits, x, j, true)
      {
        if (i + j) / 8 >= bitmap.Length {
          return true;
        }
        SetBit(bitmap, i + j);
        j := j + 1;
      }
      return false;
    }

    /** The physical address of page i of the pool. */
    ghost function AddressOf(i: nat): (paddr: nat)
      reads this`base
      requires base >= KERNBASE
    {
      V2P(base) + PAGE_SIZE * i
    }

    /** buddy_alloc: NULL, or the physical address of a block of 2^order pages. */
    method BuddyAlloc(order: nat) returns (paddr: nat)
      requires Valid()
      modifies this`pool, this`own, freeLists, link, bitmap
      ensures Valid()
      ensures pool == Alloc(old(pool), order).0
      ensures own == AllocOwn(old(pool), old(own), order)
      ensures paddr == NULL <==> Alloc(old(pool), order).1.None?
      ensures paddr != NULL ==> paddr == AddressOf(Alloc(old(pool), order).1.value)
    {
      hide Inv, AllocOwn, Alloc, SplitDown, Aligned, Bits, Chained;
      AllocParts(pool, own, order);
      AllocKeeps(pool, own, order);
      if order > maxOrder {
        return NULL;
      }
      var k := FindOrder(order);
      if freeLists[k] == NULL {
        return NULL;
      }
      var vaddr := TakeBlock(k, order, pool, own);
      own := AllocOwn(pool, own, order);
      pool := Alloc(pool, order).0;
      return V2P(vaddr);
    }

    /** buddy_alloc once the source list is known: unlink its head, split, mark. */
    method TakeBlock(k: nat, order: nat, ghost p: Pool, ghost o: seq<Owner>) returns (vaddr: nat)
      requires p.Shaped() && Inv(p, o) && order <= k <= p.maxOrder && p.lists[k] != []
      requires Holding(p.lists) && p.bits == Bits(bitmap[..]) && p.pages == link.Length
      modifies freeLists, link, bitmap
      ensures vaddr == base + PAGE_SIZE * p.lists[k][0]
      ensures Holding(SplitDown(p.lists[k := p.lists[k][1..]], p.lists[k][0], k, order))
      ensures Bits(bitmap[..]) == Fill(p.bits, p.lists[k][0], Pow2(order), true)
    {
      hide Structure, LiveBitsSet, NoClearBuddies, TailClear, SplitDown;
      ghost var i: nat := p.lists[k][0];
      vaddr := freeLists[k];
      assert Chain(base, p.lists[k], freeLists[..][k], link[..]);
      ghost var o1 := Fill(o, i, Pow2(k), Owner(i, k, false));
      ghost var p1 := p.(lists := p.lists[k := p.lists[k][1..]]);
      TakenIsInHand(p, o, i, k, p1, o1);
      SourceFits(p, o, i, k, order);
      PopHead(k, p.lists);
      Split(vaddr, k, order, i, p1, o1);
      var aborted := MarkAllocated(vaddr, order, i);
    }

    method FindOrder(order: nat) returns (k: nat)
      requires Valid() && order <= maxOrder
      ensures k == FirstNonEmpty(pool, order)
      ensures k < freeLists.Length
      ensures freeLists[k] == NULL <==> !CanServe(pool, order)
    {
      k := order;
      while k <= maxOrder && freeLists[k] == NULL
        invariant order <= k <= maxOrder + 1
        invariant FirstNonEmpty(pool, order) == FirstNonEmpty(pool, k)
        decreases maxOrder + 1 - k
      {
        assert Chain(base, pool.lists[k], freeLists[k], link[..]);
        k := k + 1;
      }
      assert Chain(base, pool.lists[k], freeLists[k], link[..]);
      AboveMaxEmpty(pool, own, maxOrder + 1);
    }

    /** The splitting loop of buddy_alloc. */
    method Split(vaddr: nat, top: nat, order: nat, ghost i: nat, ghost p: Pool, ghost o: seq<Owner>)
      requires p.Shaped() && order <= top <= p.maxOrder && Holding(p.lists) && p.pages == link.Length
      requires Structure(p, o) && InHand(o, i, top) && vaddr == base + PAGE_SIZE * i
      modifies freeLists, link
      ensures Holding(SplitDown(p.lists, i, top, order))
    {
      hide Structure, Chained;
      var k := top;
      ghost var q, r := p, o;
      while k > order
        invariant order <= k <= top && q == p.(lists := q.lists)
        invariant Holding(q.lists) && Structure(q, r) && InHand(r, i, k)
        invariant SplitDown(q.lists, i, k, order) == SplitDown(p.lists, i, top, order)
      {
        k := k - 1;
        ghost var h := i + Pow2(k);
        UpperHalf(q, r, i, k + 1);
        var buddy := vaddr + PAGE_SIZE * Pow2(k);
        assert buddy == base + PAGE_SIZE * h;
        ListAdd(buddy, k, h, q.lists);
        q, r := q.(lists := Push(q.lists, k, h)), HalvedOwn(r, i, k + 1);
      }
    }

    /** buddy_dealloc of a block that is handed out. emptyRead tells whether the list walk met a list
        with no node where the source reads head->next. */
    method BuddyDealloc(paddr: nat, order: nat, ghost page: nat) returns (emptyRead: bool)
      requires Valid() && page in Live(own) && Live(own)[page] == order && order <= maxOrder
      requires paddr == AddressOf(page)
      modifies this`pool, this`own, freeLists, link, bitmap
      ensures Valid()
      ensures pool == Dealloc(old(pool), page, order)
      ensures own == DeallocOwn(old(pool), old(own), page, order)
      ensures emptyRead == DeallocReadsEmptyList(old(pool), page, order)
    {
      hide Inv, Merging, ReadsEmptyList, Merge, Aligned, Bits, DeallocOwn;
      BlockFits(pool, own, page, order);
      ClearedIsMerging(pool, own, page, order);
      DeallocKeeps(pool, own, page, order);
      var aborted := MarkFree(P2V(paddr), order, page);
      emptyRead := MergeLoop(paddr, order, page, Cleared(pool, page, order), own);
      own := DeallocOwn(pool, own, page, order);
      pool := Dealloc(pool, page, order);
    }

    /** One round of the merging loop; next is the address of the doubled block. */
    method MergeOnce(current: nat, k: nat, ghost i: nat, ghost q: Pool)
      returns (merged: bool, emptyRead: bool, next: nat)
      requires q.Shaped() && k < maxOrder == q.maxOrder && Holding(q.lists) && q.bits == Bits(bitmap[..])
      requires Disjoint(q.lists, k) && base > KERNBASE && current == AddressOf(i)
      requires FlipBit(current, 12 + k) == AddressOf(Buddy(i, k))
      requires (P2V(AddressOf(Buddy(i, k))) - base) / PAGE_SIZE == Buddy(i, k)
      modifies freeLists, link, bitmap
      ensures merged <==> Mergeable(q, i, k)
      ensures merged ==> Holding(Absorb(q, i, k).lists) && Absorb(q, i, k).bits == Bits(bitmap[..])
      ensures merged ==> next == AddressOf(Lower(i, k)) && !emptyRead
      ensures !merged ==> Holding(q.lists) && q.bits == Bits(bitmap[..]) && next == current
      ensures !merged ==> emptyRead == (AllClear(q.bits, Buddy(i, k), k) && q.lists[k] == [])
    {
      var buddy := FlipBit(current, 12 + k);
      next := current;
      var free := IsBlockFree((P2V(buddy) - base) / PAGE_SIZE, k);
      if !free {
        return false, false, current;
      }
      var found, empty := RemoveFromFreeList(P2V(buddy), k, Buddy(i, k), q.lists);
      if !found {
        WithoutAbsent(q.lists[k], Buddy(i, k));
        assert Unlink(q.lists, k, Buddy(i, k)) == q.lists;
        return false, empty, current;
      }
      var aborted := MarkAllocated(P2V(buddy), k, Buddy(i, k));
      next := if current < buddy then current else buddy;
      return true, false, next;
    }

    /** The merging loop of buddy_dealloc and the final list insertion. */
    method MergeLoop(paddr: nat, order: nat, ghost page: nat, ghost p: Pool, ghost o: seq<Owner>)
      returns (emptyRead: bool)
      requires Merging(p, o, page, order) && Holding(p.lists) && p.bits == Bits(bitmap[..]) && p.pages == link.Length
      requires maxOrder == p.maxOrder <= LARGEST_ORDER && base > KERNBASE && Aligned(base, 12 + maxOrder)
      requires paddr == AddressOf(page)
      modifies freeLists, link, bitmap
      ensures Holding(Merge(p, page, order).lists) && Bits(bitmap[..]) == Merge(p, page, order).bits
      ensures emptyRead == ReadsEmptyList(p, page, order)
    {
      hide Structure, LiveBitsSet, NoClearBuddies, TailClear, Chained, Disjoint, FlipBit, Aligned;
      emptyRead := false;
      var current, k, merged := paddr, order, true;
      ghost var i, q, r := page, p, o;
      while merged && k < maxOrder
        invariant Merging(q, r, i, k) && q.maxOrder == p.maxOrder && q.pages == p.pages
        invariant Holding(q.lists) && q.bits == Bits(bitmap[..])
        invariant current == AddressOf(i)
        invariant Merge(q, i, k) == Merge(p, page, order)
        invariant merged ==> !emptyRead && ReadsEmptyList(q, i, k) == ReadsEmptyList(p, page, order)
        invariant !merged ==> !Mergeable(q, i, k) && emptyRead == ReadsEmptyList(p, page, order)
        decreases maxOrder - k, merged
      {
        BuddyPhysicalAddress(base, i, k, maxOrder);
        StructureDisjoint(q, r, k);
        merged, emptyRead, current := MergeOnce(current, k, i, q);
        if merged {
          AbsorbKeeps(q, r, i, k);
          q, r, i := Absorb(q, i, k), JoinedOwn(r, i, k), Lower(i, k);
          k := k + 1;
        }
      }
      InHandNotListed(q, r, i, k);
      ListAdd(P2V(current), k, i, q.lists);
    }

    /** The owner of a handed-out block may store anything in it: no list runs through its pages. */
    method OwnerWrites(page: nat, word: nat)
      requires Valid() && page < |own| && !own[page].free
      modifies link
      ensures Valid()
      ensures link[..] == old(link[..])[page := word]
    {
      link[page] := word;
      ghost var before := old(link[..]);
      assert link[..] == before[page := word];
      forall k | 0 <= k < ORDERS
        ensures Chain(base, pool.lists[k], freeLists[..][k], link[..])
      {
        assert Chain(base, pool.lists[k], freeLists[..][k], before);
        assert Listed(own, pool.lists[k], k);
      }
    }
  }

  ghost predicate Below(lists: seq<seq<nat>>, at: nat) {
    forall k, x :: 0 <= k < |lists| && x in lists[k] ==> x < at
  }

  lemma EmptyChained(base: nat, heads: seq<nat>, link: seq<nat>)
    requires |heads| == ORDERS && forall k :: 0 <= k < ORDERS ==> heads[k] == NULL
    ensures Chained(base, EMPTY, heads, link)
  {
  }

  lemma CarveStep(lists: seq<seq<nat>>, at: nat, left: nat)
    requires |lists| == ORDERS && left > 0 && FloorLog2(left) < ORDERS && Below(lists, at)
    ensures Pow2(FloorLog2(left)) <= left
    ensures left > Pow2(FloorLog2(left)) ==> FloorLog2(left - Pow2(FloorLog2(left))) < ORDERS
    ensures
      var lists' := Push(lists, FloorLog2(left), at);
      && Carve(lists, at, left) == Carve(lists', at + Pow2(FloorLog2(left)), left - Pow2(FloorLog2(left)))
      && Below(lists', at + Pow2(FloorLog2(left)))
    ensures forall m :: 0 <= m < ORDERS ==> at !in lists[m]
  {
    RestIsSmaller(left);
    PushMembers(lists[FloorLog2(left)], at);
  }

  lemma CarveNothing(lists: seq<seq<nat>>, at: nat)
    requires |lists| == ORDERS
    ensures Carve(lists, at, 0) == lists
  {
  }

  lemma TakeBlocks(bytes: nat, n: nat)
    requires n <= bytes / PAGE_SIZE
    ensures PAGE_SIZE * n <= bytes && (bytes - PAGE_SIZE * n) / PAGE_SIZE == bytes / PAGE_SIZE - n
  {
  }

  lemma ClearMap(bytes: seq<bv8>)
    requires forall x :: 0 <= x < |bytes| ==> bytes[x] == 0
    ensures Bits(bytes) == seq(8 * |bytes|, _ => false)
  {
    forall x | 0 <= x < 8 * |bytes|
      ensures !Bits(bytes)[x]
    {
      NoBitOfZero(x % 8);
    }
  }

  lemma NoBitOfZero(k: nat)
    requires k < 8
    ensures !TestBit(0, k)
  {
  }

  /** Pages of a block in hand are on no list. */
  lemma NotListed(p: Pool, own: seq<Owner>, i: nat, x: nat)
    requires Structure(p, own) && i < |own| && own[i].start == i && !own[i].free && i <= x < i + Pow2(own[i].order)
    ensures x < |own| && forall m :: 0 <= m < ORDERS ==> x !in p.lists[m]
  {
    BlockIsOwn(p, own, i);
    forall m | 0 <= m < ORDERS
      ensures x !in p.lists[m]
    {
      assert Listed(own, p.lists[m], m);
    }
  }

  lemma BlockFits(p: Pool, own: seq<Owner>, i: nat, k: nat)
    requires Inv(p, own) && i in Live(own) && Live(own)[i] == k
    ensures InHand(own, i, k) && i + Pow2(k) <= |p.bits| && k <= p.maxOrder
  {
    BlockIsOwn(p, own, i);
  }

  lemma InHandNotListed(p: Pool, own: seq<Owner>, i: nat, k: nat)
    requires Merging(p, own, i, k)
    ensures i < p.pages && k <= p.maxOrder && forall m :: 0 <= m < ORDERS ==> i !in p.lists[m]
  {
    NotListed(p, own, i, i);
  }

  /** One split: the upper half is on no list, and listing it keeps the structure. */
  lemma UpperHalf(p: Pool, own: seq<Owner>, i: nat, k: nat)
    requires Structure(p, own) && 0 < k <= p.maxOrder && InHand(own, i, k)
    ensures |p.lists| == ORDERS && i + Pow2(k - 1) < p.pages
    ensures forall m :: 0 <= m < ORDERS ==> i + Pow2(k - 1) !in p.lists[m]
    ensures Structure(p.(lists := Push(p.lists, k - 1, i + Pow2(k - 1))), HalvedOwn(own, i, k))
    ensures InHand(HalvedOwn(own, i, k), i, k - 1)
  {
    NotListed(p, own, i, i + Pow2(k - 1));
    HalveKeeps(p, own, i, k, p.(lists := Push(p.lists, k - 1, i + Pow2(k - 1))), HalvedOwn(own, i, k));
  }

  lemma AllocParts(p: Pool, own: seq<Owner>, order: nat)
    requires p.Shaped()
    ensures !CanServe(p, order) ==> Alloc(p, order) == (p, None) && AllocOwn(p, own, order) == own
    ensures CanServe(p, order) ==>
      var (i, k) := Source(p, order);
      var lists := SplitDown(p.lists[k := p.lists[k][1..]], i, k, order);
      Alloc(p, order) == (p.(lists := lists, bits := Fill(p.bits, i, Pow2(order), true)), Some(i))
  {
  }

  lemma SourceFits(p: Pool, own: seq<Owner>, i: nat, k: nat, order: nat)
    requires Inv(p, own) && k < ORDERS && i in p.lists[k] && order <= k
    ensures i + Pow2(order) <= |p.bits|
  {
    NodeIsBlock(p, own, i, k);
    Pow2Monotone(order, k);
  }

  lemma AboveMaxEmpty(p: Pool, own: seq<Owner>, k: nat)
    requires Structure(p, own) && p.maxOrder < k < ORDERS
    ensures p.lists[k] == []
  {
    if p.lists[k] != [] {
      NodeIsBlock(p, own, p.lists[k][0], k);
    }
  }

  lemma StructureDisjoint(p: Pool, own: seq<Owner>, k: nat)
    requires Structure(p, own) && k < ORDERS
    ensures Disjoint(p.lists, k)
  {
    assert Listed(own, p.lists[k], k);
    forall j, m | 0 <= j < |p.lists[k]| && 0 <= m < ORDERS && m != k
      ensures p.lists[k][j] !in p.lists[m]
    {
      assert Listed(own, p.lists[m], m);
      assert p.lists[k][j] in p.lists[k];
    }
  }

  /** current_paddr ^ (PAGE_SIZE << k) is the address of the buddy, and so is its page number. */
  lemma BuddyPhysicalAddress(base: nat, i: nat, k: nat, m: nat)
    requires KERNBASE < base && k < m <= LARGEST_ORDER && Aligned(base, 12 + m)
    ensures FlipBit(V2P(base) + PAGE_SIZE * i, 12 + k) == V2P(base) + PAGE_SIZE * Buddy(i, k)
    ensures (P2V(V2P(base) + PAGE_SIZE * Buddy(i, k)) - base) / PAGE_SIZE == Buddy(i, k)
  {
    KernBaseAligned(12 + m);
    AlignedAdd(V2P(base), KERNBASE, 12 + m);
    AlignedDown(V2P(base), 12 + k + 1, 12 + m);
    BuddyAddress(V2P(base), i, k);
  }
}
