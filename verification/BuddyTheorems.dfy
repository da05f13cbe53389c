/** What holds over whole runs of buddy_alloc and buddy_dealloc, and what one call undoes. */
module BuddyTheorems {
  import opened Common
  import opened PowersOfTwo
  import opened Bitmap
  import opened BuddyPool
  import opened BuddyInvariant
  import opened BuddyCarving

  // ----- runs -----

  datatype Op = AllocOp(order: nat) | FreeOp(page: nat, order: nat)

  /** The pool and the blocks handed out and not yet freed: first page to order. */
  datatype State = State(pool: Pool, live: map<nat, nat>)

  /** A free is legal when it matches an allocation that is still outstanding. */
  predicate Legal(s: State, op: Op) {
    op.FreeOp? ==> op.page in s.live && s.live[op.page] == op.order && op.order <= s.pool.maxOrder
  }

  function Apply(s: State, op: Op): (r: State)
    requires s.pool.Shaped() && Legal(s, op)
    ensures r.pool.Shaped()
  {
    match op
    case AllocOp(order) =>
      var (pool, block) := Alloc(s.pool, order);
      State(pool, if block.Some? then s.live[block.value := order] else s.live)
    case FreeOp(page, order) =>
      State(Dealloc(s.pool, page, order), s.live - {page})
  }

  predicate LegalRun(s: State, ops: seq<Op>)
    requires s.pool.Shaped()
    decreases |ops|
  {
    ops == [] || (Legal(s, ops[0]) && LegalRun(Apply(s, ops[0]), ops[1..]))
  }

  function Run(s: State, ops: seq<Op>): (r: State)
    requires s.pool.Shaped() && LegalRun(s, ops)
    ensures r.pool.Shaped()
    decreases |ops|
  {
    if ops == [] then s else Run(Apply(s, ops[0]), ops[1..])
  }

  ghost predicate Consistent(s: State) {
    exists own :: Inv(s.pool, own) && Live(own) == s.live
  }

  lemma ApplyKeepsConsistent(s: State, op: Op)
    requires Consistent(s) && Legal(s, op)
    ensures Consistent(Apply(s, op))
  {
    var own :| Inv(s.pool, own) && Live(own) == s.live;
    match op
    case AllocOp(order) =>
      AllocKeeps(s.pool, own, order);
      assert Inv(Apply(s, op).pool, AllocOwn(s.pool, own, order));
    case FreeOp(page, order) =>
      DeallocKeeps(s.pool, own, page, order);
      assert Inv(Apply(s, op).pool, DeallocOwn(s.pool, own, page, order));
  }

  lemma {:induction false} RunKeepsConsistent(s: State, ops: seq<Op>)
    requires Consistent(s) && LegalRun(s, ops)
    ensures Consistent(Run(s, ops))
    decreases |ops|
  {
    if ops != [] {
      ApplyKeepsConsistent(s, ops[0]);
      RunKeepsConsistent(Apply(s, ops[0]), ops[1..]);
    }
  }

  lemma {:induction false} RunKeepsSize(s: State, ops: seq<Op>)
    requires s.pool.Shaped() && LegalRun(s, ops)
    ensures Run(s, ops).pool.pages == s.pool.pages && Run(s, ops).pool.maxOrder == s.pool.maxOrder
    ensures |Run(s, ops).pool.bits| == |s.pool.bits|
    decreases |ops|
  {
    if ops != [] {
      RunKeepsSize(Apply(s, ops[0]), ops[1..]);
    }
  }

  predicate ValidSize(pages: nat, mapBits: nat) {
    0 < pages <= mapBits && FloorLog2(pages) < ORDERS - 1
  }

  function Boot(pages: nat, mapBits: nat): (r: State)
    requires ValidSize(pages, mapBits)
    ensures r.pool.Shaped()
  {
    State(InitialPool(pages, mapBits), map[])
  }

  lemma BootConsistent(pages: nat, mapBits: nat)
    requires ValidSize(pages, mapBits)
    ensures Consistent(Boot(pages, mapBits))
  {
    InitialInv(pages, mapBits);
    assert Inv(InitialPool(pages, mapBits), CarveOwn([], pages));
  }

  // ----- the partition -----

  predicate IsFree(s: State, i: nat, k: nat) {
    k < |s.pool.lists| && i in s.pool.lists[k]
  }

  predicate IsLive(s: State, i: nat, k: nat) {
    i in s.live && s.live[i] == k
  }

  predicate IsBlock(s: State, i: nat, k: nat) {
    IsFree(s, i, k) || IsLive(s, i, k)
  }

  ghost predicate Covered(s: State, x: nat) {
    exists i: nat, k: nat :: IsBlock(s, i, k) && i <= x < i + Pow2(k)
  }

  /** Free-listed and handed-out blocks are aligned, disjoint and cover the pool; no block is listed
      twice or both listed and handed out; every handed-out page has its bit set. */
  ghost predicate Partition(s: State) {
    && (forall i: nat, k: nat :: IsBlock(s, i, k) ==> Aligned(i, k) && i + Pow2(k) <= s.pool.pages)
    && (forall i: nat, k: nat, j: nat, m: nat ::
          IsBlock(s, i, k) && IsBlock(s, j, m) && i < j + Pow2(m) && j < i + Pow2(k) ==> i == j && k == m)
    && (forall x: nat :: x < s.pool.pages ==> Covered(s, x))
    && (forall i: nat, k: nat :: !(IsFree(s, i, k) && IsLive(s, i, k)))
    && (forall k :: 0 <= k < |s.pool.lists| ==> NoDuplicates(s.pool.lists[k]))
    && (forall i: nat, k: nat, x: nat ::
          IsLive(s, i, k) && i <= x < i + Pow2(k) && x < |s.pool.bits| ==> s.pool.bits[x])
  }

  lemma BlockHasOwner(s: State, own: seq<Owner>, i: nat, k: nat)
    requires Inv(s.pool, own) && Live(own) == s.live && IsBlock(s, i, k)
    ensures i < |own| && own[i] == Owner(i, k, IsFree(s, i, k))
    ensures Aligned(i, k) && i + Pow2(k) <= |own|
    ensures forall x :: i <= x < i + Pow2(k) ==> own[x] == own[i]
  {
    if IsFree(s, i, k) {
      assert Listed(own, s.pool.lists[k], k);
    }
    BlockIsOwn(s.pool, own, i);
  }

  lemma BlocksMeetOnlyIfSame(s: State, own: seq<Owner>, i: nat, k: nat, j: nat, m: nat)
    requires Inv(s.pool, own) && Live(own) == s.live && IsBlock(s, i, k) && IsBlock(s, j, m)
    requires i < j + Pow2(m) && j < i + Pow2(k)
    ensures i == j && k == m
  {
    BlockHasOwner(s, own, i, k);
    BlockHasOwner(s, own, j, m);
    var x := if i <= j then j else i;
    assert own[x] == own[i] && own[x] == own[j];
  }

  lemma PageHasBlock(s: State, own: seq<Owner>, x: nat) returns (i: nat, k: nat)
    requires Inv(s.pool, own) && Live(own) == s.live && x < s.pool.pages
    ensures IsBlock(s, i, k) && i <= x < i + Pow2(k)
  {
    assert InBlock(s.pool, own, x);
    i, k := own[x].start, own[x].order;
    assert own[i] == own[x];
    assert Listed(own, s.pool.lists[k], k);
  }

  lemma ConsistentIsPartition(s: State)
    requires Consistent(s)
    ensures Partition(s)
  {
    var own :| Inv(s.pool, own) && Live(own) == s.live;
    forall i: nat, k: nat | IsBlock(s, i, k)
      ensures Aligned(i, k) && i + Pow2(k) <= s.pool.pages && !(IsFree(s, i, k) && IsLive(s, i, k))
    {
      BlockHasOwner(s, own, i, k);
    }
    forall i: nat, k: nat, j: nat, m: nat | IsBlock(s, i, k) && IsBlock(s, j, m) && i < j + Pow2(m) && j < i + Pow2(k)
      ensures i == j && k == m
    {
      BlocksMeetOnlyIfSame(s, own, i, k, j, m);
    }
    forall x: nat | x < s.pool.pages
      ensures Covered(s, x)
    {
      var i, k := PageHasBlock(s, own, x);
    }
    forall k | 0 <= k < |s.pool.lists|
      ensures NoDuplicates(s.pool.lists[k])
    {
      assert Listed(own, s.pool.lists[k], k);
    }
    forall i: nat, k: nat, x: nat | IsLive(s, i, k) && i <= x < i + Pow2(k) && x < |s.pool.bits|
      ensures s.pool.bits[x]
    {
      BlockHasOwner(s, own, i, k);
      assert own[x] == Owner(i, k, false);
    }
  }

  /** In every run, whatever the size of the pool, no page is lost or given twice, and the key
      invariant of the merge test holds. */
  lemma EveryRunKeepsThePartition(pages: nat, mapBits: nat, ops: seq<Op>)
    requires ValidSize(pages, mapBits) && LegalRun(Boot(pages, mapBits), ops)
    ensures
      var s := Run(Boot(pages, mapBits), ops);
      Partition(s) && NoClearBuddies(s.pool) && s.pool.pages == pages
  {
    BootConsistent(pages, mapBits);
    RunKeepsConsistent(Boot(pages, mapBits), ops);
    RunKeepsSize(Boot(pages, mapBits), ops);
    ConsistentIsPartition(Run(Boot(pages, mapBits), ops));
  }

  /** buddy_alloc refuses exactly when no free block is large enough; otherwise the block it gives
      is new, aligned, and lies inside a block that was free. */
  lemma AllocFailsExactlyWhenNothingFits(s: State, order: nat)
    requires Consistent(s)
    ensures Alloc(s.pool, order).1.None? <==> forall i: nat, k: nat :: IsFree(s, i, k) ==> k < order
    ensures Alloc(s.pool, order).1.Some? ==>
      var i := Alloc(s.pool, order).1.value;
      && Aligned(i, order) && i + Pow2(order) <= s.pool.pages
      && (exists k: nat :: order <= k && IsFree(s, i, k))
      && forall j: nat, m: nat :: IsLive(s, j, m) ==> j + Pow2(m) <= i || i + Pow2(order) <= j
  {
    var own :| Inv(s.pool, own) && Live(own) == s.live;
    forall i: nat, k: nat | IsFree(s, i, k)
      ensures k <= s.pool.maxOrder
    {
      NodeIsBlock(s.pool, own, i, k);
    }
    if CanServe(s.pool, order) {
      var (i, k) := Source(s.pool, order);
      assert IsFree(s, i, k);
      NodeIsBlock(s.pool, own, i, k);
      AlignedDown(i, order, k);
      Pow2Monotone(order, k);
      forall j: nat, m: nat | IsLive(s, j, m)
        ensures j + Pow2(m) <= i || i + Pow2(order) <= j
      {
        if j < i + Pow2(k) && i < j + Pow2(m) {
          BlocksMeetOnlyIfSame(s, own, i, k, j, m);
          BlockHasOwner(s, own, i, k);
        }
      }
    } else {
      forall i: nat, k: nat | IsFree(s, i, k)
        ensures k < order
      {
      }
    }
  }

  // ----- what the merge test finds -----

  /** An aligned range whose pages are all free and clear lies inside one free block: were it made of
      smaller blocks, two of them would be clear buddies. */
  lemma {:induction false} ClearRangeIsOneBlock(p: Pool, own: seq<Owner>, i: nat, k: nat)
    requires Structure(p, own) && NoClearBuddies(p)
    requires Aligned(i, k) && i + Pow2(k) <= p.pages && k <= p.maxOrder && AllClear(p.bits, i, k)
    requires forall x :: i <= x < i + Pow2(k) ==> own[x].free
    ensures own[i].order >= k
    decreases k
  {
    if k == 0 {
      assert InBlock(p, own, i);
    } else {
      assert |own| == p.pages <= |p.bits|;
      hide Structure, NoClearBuddies;
      var h := i + Pow2(k - 1);
      assert Pow2(k) == 2 * Pow2(k - 1);
      AlignedDown(i, k - 1, k);
      Pow2Aligned(k - 1, k - 1);
      AlignedAdd(i, Pow2(k - 1), k - 1);
      ClearRangeIsOneBlock(p, own, i, k - 1);
      ClearRangeIsOneBlock(p, own, h, k - 1);
      ClearHalvesJoin(p, own, i, k);
    }
  }

  /** A free page aligned to the order of its block is that block's node. */
  lemma StartIsNode(p: Pool, own: seq<Owner>, x: nat, m: nat)
    requires Structure(p, own) && x < |own| && Aligned(x, m) && own[x].free && own[x].order == m
    ensures m <= p.maxOrder && x in p.lists[m]
  {
    assert InBlock(p, own, x) && Listed(own, p.lists[m], m);
    SameOrderSame(own[x].start, x, m);
  }

  /** A block that meets an aligned range no larger than itself holds all of it. */
  lemma BlockHoldsRange(p: Pool, own: seq<Owner>, i: nat, k: nat, h: nat)
    requires Structure(p, own) && Aligned(i, k) && i <= h < i + Pow2(k) && h < |own| && own[h].order >= k
    ensures own[i] == own[h]
  {
    assert InBlock(p, own, h);
    Nested(i, k, own[h].start, own[h].order);
  }

  /** Two free halves of a clear aligned range that are not smaller blocks lie in one larger block. */
  lemma ClearHalvesJoin(p: Pool, own: seq<Owner>, i: nat, k: nat)
    requires Structure(p, own) && NoClearBuddies(p)
    requires 0 < k <= p.maxOrder && Aligned(i, k) && i + Pow2(k) <= p.pages && AllClear(p.bits, i, k)
    requires own[i].free && own[i].order >= k - 1
    requires own[i + Pow2(k - 1)].free && own[i + Pow2(k - 1)].order >= k - 1
    ensures own[i].order >= k
  {
    var h := i + Pow2(k - 1);
    assert p.Shaped() && |own| == p.pages <= |p.bits|;
    assert i in p.lists[k - 1] && AllClear(p.bits, i, k - 1) ==> !Mergeable(p, i, k - 1);
    assert Pow2(k) == 2 * Pow2(k - 1) && AllClear(p.bits, i, k - 1) && AllClear(p.bits, h, k - 1);
    hide Structure, NoClearBuddies, AllClear, Pow2, Aligned;
    AlignedDown(i, k - 1, k);
    BuddyIsOtherHalf(i, k - 1);
    if own[h].order == k - 1 {
      StartIsNode(p, own, h, k - 1);
    } else {
      BlockHoldsRange(p, own, i, k, h);
    }
    if own[i].order == k - 1 {
      StartIsNode(p, own, i, k - 1);
    }
  }

  /** During a merge, a buddy inside the pool that the bitmap calls free is a node of that order's list. */
  lemma ClearBuddyIsNode(p: Pool, own: seq<Owner>, i: nat, k: nat)
    requires Merging(p, own, i, k) && k < p.maxOrder
    requires AllClear(p.bits, Buddy(i, k), k) && Buddy(i, k) + Pow2(k) <= p.pages
    ensures Buddy(i, k) in p.lists[k]
  {
    var b := Buddy(i, k);
    BlockIsOwn(p, own, i);
    BuddyIsOtherHalf(i, k);
    forall x | b <= x < b + Pow2(k)
      ensures own[x].free
    {
      assert own[x] != own[i];
    }
    ClearRangeIsOneBlock(p, own, b, k);
    assert InBlock(p, own, b);
    var o := own[b];
    if o.order > k {
      BuddyParent(i, k);
      AlignedDown(o.start, k + 1, o.order);
      Nested(Lower(i, k), k + 1, o.start, o.order);
    }
    SameOrderSame(o.start, b, k);
    assert Listed(own, p.lists[k], k);
  }

  lemma BuddyParent(i: nat, k: nat)
    requires Aligned(i, k)
    ensures Aligned(Lower(i, k), k + 1)
    ensures Lower(i, k) <= i < Lower(i, k) + Pow2(k + 1) && Lower(i, k) <= Buddy(i, k) < Lower(i, k) + Pow2(k + 1)
    ensures i + Pow2(k) <= Lower(i, k) + Pow2(k + 1) && Buddy(i, k) + Pow2(k) <= Lower(i, k) + Pow2(k + 1)
  {
    BuddyIsOtherHalf(i, k);
  }

  /** In a pool of 2^maxOrder pages the buddy of a smaller block never sticks out. */
  lemma BuddyInsidePowerOfTwo(i: nat, k: nat, m: nat)
    requires Aligned(i, k) && i + Pow2(k) <= Pow2(m) && k < m
    ensures Buddy(i, k) + Pow2(k) <= Pow2(m)
  {
    BuddyParent(i, k);
    ZeroAligned(m);
    Nested(Lower(i, k), k + 1, 0, m);
  }

  /** The merge loop of a reachable state asks an empty list for a second node only with a buddy that
      sticks out of the pool but not out of the map. */
  lemma {:induction false} EmptyReadSticksOut(p: Pool, own: seq<Owner>, i: nat, k: nat)
    requires Merging(p, own, i, k) && ReadsEmptyList(p, i, k)
    ensures LowBit(p.pages) < p.maxOrder && p.pages + Pow2(LowBit(p.pages)) <= |p.bits|
    decreases p.maxOrder - k
  {
    BlockIsOwn(p, own, i);
    if Mergeable(p, i, k) {
      AbsorbKeeps(p, own, i, k);
      EmptyReadSticksOut(Absorb(p, i, k), JoinedOwn(own, i, k), Lower(i, k), k + 1);
    } else {
      if Buddy(i, k) + Pow2(k) <= p.pages {
        ClearBuddyIsNode(p, own, i, k);
      }
      BuddyIsOtherHalf(i, k);
      StickingOut(p.pages, i, k);
    }
  }

  /** A block of order k at i whose upper buddy ends past n reaches at least to n plus its lowest bit. */
  lemma StickingOut(n: nat, i: nat, k: nat)
    requires 0 < n && Aligned(i, k + 1) && i < n < i + Pow2(k + 1)
    ensures LowBit(n) <= k && n + Pow2(LowBit(n)) <= i + Pow2(k + 1)
  {
    var c := LowBit(n);
    Pow2Aligned(k + 1, k + 1);
    AlignedAdd(i, Pow2(k + 1), k + 1);
    if c > k {
      AlignedDown(n, k + 1, c);
      AlignedGap(i, n, k + 1);
    }
    AlignedDown(i + Pow2(k + 1), c, k + 1);
    AlignedGap(n, i + Pow2(k + 1), c);
  }

  /** Whether some legal run reaches a free that asks an empty list for its second node. */
  ghost predicate EmptyReadReachable(pages: nat, mapBits: nat)
    requires ValidSize(pages, mapBits)
  {
    exists ops, page, order ::
      && LegalRun(Boot(pages, mapBits), ops)
      && Legal(Run(Boot(pages, mapBits), ops), FreeOp(page, order))
      && DeallocReadsEmptyList(Run(Boot(pages, mapBits), ops).pool, page, order)
  }

  lemma NoEmptyReadInRun(pages: nat, mapBits: nat, ops: seq<Op>, page: nat, order: nat)
    requires ValidSize(pages, mapBits) && LegalRun(Boot(pages, mapBits), ops)
    requires Legal(Run(Boot(pages, mapBits), ops), FreeOp(page, order))
    requires DeallocReadsEmptyList(Run(Boot(pages, mapBits), ops).pool, page, order)
    ensures LowBit(pages) < FloorLog2(pages) && pages + Pow2(LowBit(pages)) <= mapBits
  {
    var s := Run(Boot(pages, mapBits), ops);
    BootConsistent(pages, mapBits);
    RunKeepsConsistent(Boot(pages, mapBits), ops);
    RunKeepsSize(Boot(pages, mapBits), ops);
    var own :| Inv(s.pool, own) && Live(own) == s.live;
    ClearedIsMerging(s.pool, own, page, order);
    EmptyReadSticksOut(Cleared(s.pool, page, order), own, page, order);
  }

  /** Allocating and freeing the last carved block of such a pool does it. */
  lemma EmptyReadWitness(pages: nat, mapBits: nat)
    requires ValidSize(pages, mapBits)
    requires LowBit(pages) < FloorLog2(pages) && pages + Pow2(LowBit(pages)) <= mapBits
    ensures EmptyReadReachable(pages, mapBits)
  {
    hide Apply, Run, LegalRun, Carve, Alloc, SplitDown, Source;
    var c := LowBit(pages);
    var s := Boot(pages, mapBits);
    LastBlock(EMPTY, 0, pages);
    var i := pages - Pow2(c);
    assert s.pool.lists[c] == [i];
    TakeOnly(s, c, i);
    RunOfOne(s, AllocOp(c));
    BuddyIsOtherHalf(pages, c);
    assert Buddy(i, c) == pages;
    var s1 := Apply(s, AllocOp(c));
    assert ReadsEmptyList(Cleared(s1.pool, i, c), i, c);
    assert Legal(s1, FreeOp(i, c)) && DeallocReadsEmptyList(s1.pool, i, c);
  }

  /** Taking the one block of an order's list. */
  lemma TakeOnly(s: State, c: nat, i: nat)
    requires s.pool.Shaped() && c <= s.pool.maxOrder && s.pool.lists[c] == [i]
    ensures Legal(s, AllocOp(c))
    ensures Apply(s, AllocOp(c)) ==
      State(s.pool.(lists := s.pool.lists[c := []], bits := Fill(s.pool.bits, i, Pow2(c), true)), s.live[i := c])
  {
    assert [i][1..] == [] && Source(s.pool, c) == (i, c);
    assert SplitDown(s.pool.lists[c := []], i, c, c) == s.pool.lists[c := []];
  }

  lemma RunOfOne(s: State, op: Op)
    requires s.pool.Shaped() && Legal(s, op)
    ensures LegalRun(s, [op]) && Run(s, [op]) == Apply(s, op)
  {
    assert [op][1..] == [];
  }

  /** The unguarded head->next of remove_from_free_list meets an empty list in some run exactly when
      the pool is not a power of two and the map has bits for the block that would complete it. */
  lemma EmptyReadReachableExactly(pages: nat, mapBits: nat)
    requires ValidSize(pages, mapBits)
    ensures EmptyReadReachable(pages, mapBits) <==>
      pages != Pow2(FloorLog2(pages)) && pages + Pow2(LowBit(pages)) <= mapBits
  {
    LowBitOfPower(pages);
    if EmptyReadReachable(pages, mapBits) {
      var ops, page, order :|
        && LegalRun(Boot(pages, mapBits), ops)
        && Legal(Run(Boot(pages, mapBits), ops), FreeOp(page, order))
        && DeallocReadsEmptyList(Run(Boot(pages, mapBits), ops).pool, page, order);
      NoEmptyReadInRun(pages, mapBits, ops, page, order);
    }
    if pages != Pow2(FloorLog2(pages)) && pages + Pow2(LowBit(pages)) <= mapBits {
      EmptyReadWitness(pages, mapBits);
    }
  }

  /** Every buddy the merge loop's bitmap test accepts is found on the free list. */
  ghost predicate RemovalsSucceed(p: Pool, i: nat, k: nat)
    requires p.Shaped() && k <= p.maxOrder
    decreases p.maxOrder - k
  {
    k < p.maxOrder && AllClear(p.bits, Buddy(i, k), k) ==>
      Mergeable(p, i, k) && RemovalsSucceed(Absorb(p, i, k), Lower(i, k), k + 1)
  }

  lemma {:induction false} RemovalsSucceedInPowerOfTwo(p: Pool, own: seq<Owner>, i: nat, k: nat)
    requires Merging(p, own, i, k) && p.pages == Pow2(p.maxOrder)
    ensures RemovalsSucceed(p, i, k)
    decreases p.maxOrder - k
  {
    if k < p.maxOrder && AllClear(p.bits, Buddy(i, k), k) {
      BlockIsOwn(p, own, i);
      BuddyInsidePowerOfTwo(i, k, p.maxOrder);
      ClearBuddyIsNode(p, own, i, k);
      AbsorbKeeps(p, own, i, k);
      RemovalsSucceedInPowerOfTwo(Absorb(p, i, k), JoinedOwn(own, i, k), Lower(i, k), k + 1);
    }
  }

  /** In every run of a pool of 2^m pages, whenever is_block_free accepts a buddy during a merge that
      buddy is a node of the list of that order, so remove_from_free_list succeeds each time. */
  lemma EveryRemovalSucceeds(m: nat, mapBits: nat, ops: seq<Op>, page: nat, order: nat)
    requires ValidSize(Pow2(m), mapBits) && LegalRun(Boot(Pow2(m), mapBits), ops)
    requires Legal(Run(Boot(Pow2(m), mapBits), ops), FreeOp(page, order))
    ensures RemovalsSucceed(Cleared(Run(Boot(Pow2(m), mapBits), ops).pool, page, order), page, order)
  {
    var s0 := Boot(Pow2(m), mapBits);
    var s := Run(s0, ops);
    FloorLog2Unique(Pow2(m), m);
    BootConsistent(Pow2(m), mapBits);
    RunKeepsConsistent(s0, ops);
    RunKeepsSize(s0, ops);
    var own :| Inv(s.pool, own) && Live(own) == s.live;
    ClearedIsMerging(s.pool, own, page, order);
    RemovalsSucceedInPowerOfTwo(Cleared(s.pool, page, order), own, page, order);
  }

  // ----- one call, list by list and bit by bit -----

  /** The start of the aligned block of order l around page i. */
  function Down(i: nat, l: nat): (j: nat)
    ensures Aligned(j, l) && j <= i < j + Pow2(l)
    decreases l
  {
    if l == 0 then i else 2 * Down(i / 2, l - 1)
  }

  lemma DownIs(i: nat, l: nat, j: nat)
    requires Aligned(j, l) && j <= i < j + Pow2(l)
    ensures Down(i, l) == j
  {
    SameOrderSame(Down(i, l), j, l);
  }

  /** The buddy of the block of order l around page i is listed, and all its bits are clear. */
  predicate Joins(p: Pool, i: nat, l: nat)
    requires p.Shaped() && l <= p.maxOrder
  {
    var b := Buddy(Down(i, l), l);
    AllClear(p.bits, b, l) && b in p.lists[l]
  }

  /** q is p after the block of order k at i has joined its buddies up to order m and was listed. */
  ghost predicate JoinedUpTo(p: Pool, i: nat, k: nat, m: nat, q: Pool)
    requires p.Shaped() && k <= m <= p.maxOrder
  {
    && q.Shaped() && q.pages == p.pages && q.maxOrder == p.maxOrder && |q.bits| == |p.bits|
    && (forall l :: 0 <= l < |p.lists| ==>
          q.lists[l] == if l == m then [Down(i, m)] + p.lists[l]
                        else if k <= l < m then Without(p.lists[l], Buddy(Down(i, l), l)) else p.lists[l])
    && forall x :: 0 <= x < |p.bits| && !(i <= x < i + Pow2(k)) ==>
         q.bits[x] == (Down(i, m) <= x < Down(i, m) + Pow2(m) || p.bits[x])
  }

  /** A step up: the block around i of order k + 1 is the block of order k and its buddy, which lie apart. */
  lemma DownNext(i: nat, k: nat)
    ensures
      var c, b := Down(i, k), Buddy(Down(i, k), k);
      && Down(i, k + 1) == (if c < b then c else b) && Down(c, k) == c
      && (b == c + Pow2(k) || c == b + Pow2(k)) && Pow2(k + 1) == 2 * Pow2(k)
  {
    var c := Down(i, k);
    BuddyIsOtherHalf(c, k);
    DownIs(i, k + 1, if Aligned(c, k + 1) then c else c - Pow2(k));
    DownIs(c, k, c);
  }

  /** Going up from within the block around i is going up from i. */
  lemma DownTwice(i: nat, k: nat, l: nat)
    requires k <= l
    ensures Down(Down(i, k), l) == Down(i, l)
    ensures Down(i, l) <= Down(i, k) && Down(i, k) + Pow2(k) <= Down(i, l) + Pow2(l)
  {
    Nested(Down(i, k), k, Down(i, l), l);
    DownIs(Down(i, k), l, Down(i, l));
  }

  /** The merge from order k on, for a block that starts at i. */
  lemma {:induction false} MergeIsExact(p: Pool, i: nat, k: nat) returns (m: nat)
    requires p.Shaped() && k <= p.maxOrder && Aligned(i, k)
    ensures k <= m <= p.maxOrder && JoinedUpTo(p, i, k, m, Merge(p, i, k))
    ensures forall x :: i <= x < i + Pow2(k) && x < |p.bits| ==> Merge(p, i, k).bits[x] == p.bits[x]
    ensures forall l :: k <= l < m ==> Joins(p, i, l)
    ensures m < p.maxOrder ==> !Joins(p, i, m)
    decreases p.maxOrder - k
  {
    hide Pow2, Aligned, Down, Buddy, AllClear;
    DownIs(i, k, i);
    if Mergeable(p, i, k) {
      var p1 := Absorb(p, i, k);
      DownNext(i, k);
      assert Lower(i, k) == Down(i, k + 1);
      m := MergeIsExact(p1, Lower(i, k), k + 1);
      forall l | k < l <= p.maxOrder
        ensures Down(Lower(i, k), l) == Down(i, l) && (Joins(p1, Lower(i, k), l) <==> Joins(p, i, l))
      {
        DownTwice(i, k + 1, l);
        JoinsAbove(p, i, k, l);
      }
      JoinedOnce(p, i, k, m, Merge(p, i, k));
    } else {
      m := k;
      if k == p.maxOrder {
        assert Merge(p, i, k) == p.(lists := Push(p.lists, k, i));
      }
    }
  }

  /** What was absorbed lies inside the block that may join next. */
  lemma JoinsAbove(p: Pool, i: nat, k: nat, l: nat)
    requires p.Shaped() && k < l <= p.maxOrder && Aligned(i, k)
    ensures Joins(Absorb(p, i, k), Down(i, k + 1), l) <==> Joins(p, i, l)
  {
    hide Pow2, Aligned, Down, Buddy;
    DownIs(i, k, i);
    DownNext(i, k);
    DownTwice(i, k + 1, l);
    DownNext(i, l);
    var b := Buddy(Down(i, l), l);
    SameClear(p.bits, Absorb(p, i, k).bits, b, l);
  }

  lemma SameClear(bits: seq<bool>, bits': seq<bool>, b: nat, l: nat)
    requires |bits'| == |bits| && forall x :: b <= x < b + Pow2(l) && x < |bits| ==> bits'[x] == bits[x]
    ensures AllClear(bits', b, l) <==> AllClear(bits, b, l)
  {
  }

  lemma JoinedOnce(p: Pool, i: nat, k: nat, m: nat, q: Pool)
    requires p.Shaped() && k < m <= p.maxOrder && Aligned(i, k) && Down(i, k) == i
    requires JoinedUpTo(Absorb(p, i, k), Down(i, k + 1), k + 1, m, q)
    requires forall l :: k < l <= m ==> Down(Down(i, k + 1), l) == Down(i, l)
    requires forall x :: Down(i, k + 1) <= x < Down(i, k + 1) + Pow2(k + 1) && x < |p.bits| ==>
      q.bits[x] == Absorb(p, i, k).bits[x]
    ensures JoinedUpTo(p, i, k, m, q)
    ensures forall x :: i <= x < i + Pow2(k) && x < |p.bits| ==> q.bits[x] == p.bits[x]
  {
    hide Pow2, Aligned, Down, Buddy, AllClear, Without;
    DownNext(i, k);
    DownTwice(i, k + 1, m);
  }

  /** A free, list by list and bit by bit: it joins its buddies exactly as long as they are listed with all bits
      clear, the block that comes of it is listed, what was freed has its bits clear, what was joined has them
      set, and nothing else changes. */
  lemma FreeIsExact(p: Pool, i: nat, order: nat) returns (m: nat)
    requires p.Shaped() && order <= p.maxOrder && Aligned(i, order)
    ensures order <= m <= p.maxOrder && JoinedUpTo(p, i, order, m, Dealloc(p, i, order))
    ensures forall x :: i <= x < i + Pow2(order) && x < |p.bits| ==> !Dealloc(p, i, order).bits[x]
    ensures forall l :: order <= l < m ==> Joins(p, i, l)
    ensures m < p.maxOrder ==> !Joins(p, i, m)
  {
    hide Pow2, Aligned, Down, Buddy, AllClear, Merge;
    m := MergeIsExact(Cleared(p, i, order), i, order);
    forall l | order <= l <= p.maxOrder
      ensures Joins(Cleared(p, i, order), i, l) <==> Joins(p, i, l)
    {
      DownTwice(i, order, l);
      DownIs(i, order, i);
      DownNext(i, l);
      SameClear(p.bits, Cleared(p, i, order).bits, Buddy(Down(i, l), l), l);
    }
  }

  /** Freeing clears the bits of what is freed, whatever else is handed out. */
  lemma FreedBitsAreClear(p: Pool, own: seq<Owner>, i: nat, order: nat)
    requires Inv(p, own) && InHand(own, i, order)
    ensures order <= p.maxOrder && i + Pow2(order) <= |p.bits|
    ensures forall x :: i <= x < i + Pow2(order) ==> !Dealloc(p, i, order).bits[x]
  {
    BlockIsOwn(p, own, i);
    var _ := FreeIsExact(p, i, order);
  }

  /** Both halves of an aligned block in hand: freed one after the other, in either order, they end in one free block
      of the order above or a larger one. */
  lemma BothHalvesJoin(pages: nat, mapBits: nat, ops: seq<Op>, i: nat, k: nat, upperFirst: bool)
    returns (j: nat, m: nat)
    requires ValidSize(pages, mapBits) && LegalRun(Boot(pages, mapBits), ops)
    requires
      var s := Run(Boot(pages, mapBits), ops);
      Aligned(i, k + 1) && IsLive(s, i, k) && IsLive(s, i + Pow2(k), k)
    ensures
      var s, h := Run(Boot(pages, mapBits), ops), i + Pow2(k);
      var x, y := if upperFirst then h else i, if upperFirst then i else h;
      && Legal(s, FreeOp(x, k)) && Legal(Apply(s, FreeOp(x, k)), FreeOp(y, k))
      && IsFree(Apply(Apply(s, FreeOp(x, k)), FreeOp(y, k)), j, m)
      && m > k && j <= i && i + Pow2(k + 1) <= j + Pow2(m)
  {
    hide Run, LegalRun, Boot, Inv;
    var s0 := Boot(pages, mapBits);
    var s, h := Run(s0, ops), i + Pow2(k);
    BootConsistent(pages, mapBits);
    RunKeepsConsistent(s0, ops);
    RunKeepsSize(s0, ops);
    BootSize(pages, mapBits);
    var own: seq<Owner> :| Inv(s.pool, own) && Live(own) == s.live;
    TwoInHand(s.pool, own, i, k);
    var x, y := if upperFirst then h else i, if upperFirst then i else h;
    j, m := HalvesJoin(s.pool, i, k, x, y);
  }

  lemma BootSize(pages: nat, mapBits: nat)
    requires ValidSize(pages, mapBits)
    ensures var p := Boot(pages, mapBits).pool; p.pages == pages && p.maxOrder == FloorLog2(pages)
  {
  }

  /** Where two halves in hand lie. */
  lemma TwoInHand(p: Pool, own: seq<Owner>, i: nat, k: nat)
    requires Inv(p, own) && p.pages > 0 && p.maxOrder == FloorLog2(p.pages) && Aligned(i, k + 1)
    requires i in Live(own) && Live(own)[i] == k && i + Pow2(k) in Live(own) && Live(own)[i + Pow2(k)] == k
    ensures k < p.maxOrder && i + Pow2(k + 1) <= p.pages <= |p.bits|
    ensures i !in p.lists[k] && i + Pow2(k) !in p.lists[k]
  {
    var h := i + Pow2(k);
    assert own[i] == Owner(i, k, false) && own[h] == Owner(h, k, false);
    BlockIsOwn(p, own, h);
    LogAtLeast(p.pages, k + 1);
    assert Listed(own, p.lists[k], k);
  }

  lemma LogAtLeast(n: nat, k: nat)
    requires Pow2(k) <= n
    ensures FloorLog2(n) >= k
  {
    hide Pow2;
    if FloorLog2(n) < k {
      Pow2Monotone(FloorLog2(n) + 1, k);
    }
  }

  lemma HalvesJoin(p: Pool, i: nat, k: nat, x: nat, y: nat) returns (j: nat, m: nat)
    requires p.Shaped() && k < p.maxOrder && Aligned(i, k + 1) && i + Pow2(k + 1) <= |p.bits|
    requires i !in p.lists[k] && i + Pow2(k) !in p.lists[k]
    requires (x == i && y == i + Pow2(k)) || (x == i + Pow2(k) && y == i)
    ensures
      var q := Dealloc(Dealloc(p, x, k), y, k);
      k < m <= p.maxOrder && j in q.lists[m] && j <= i && i + Pow2(k + 1) <= j + Pow2(m)
  {
    HalvesAreBuddies(i, k);
    hide Aligned, Buddy, Dealloc, Pow2, Down, AllClear;
    FreeAlone(p, x, k);
    m := FreeJoins(Dealloc(p, x, k), y, k);
    j := Down(y, m);
    DownIs(y, k + 1, i);
    DownTwice(y, k + 1, m);
  }

  /** A free whose buddy is not listed. */
  lemma FreeAlone(p: Pool, x: nat, k: nat)
    requires p.Shaped() && k < p.maxOrder && Aligned(x, k) && x + Pow2(k) <= |p.bits| && Buddy(x, k) !in p.lists[k]
    ensures var q := Dealloc(p, x, k);
      |q.bits| == |p.bits| && q.lists[k] == [x] + p.lists[k] && AllClear(q.bits, x, k)
  {
    hide Aligned, Buddy, Dealloc, Down, Without;
    DownIs(x, k, x);
    var m := FreeIsExact(p, x, k);
    assert !Joins(p, x, k);
  }

  /** A free whose buddy is listed with all bits clear. */
  lemma FreeJoins(p: Pool, y: nat, k: nat) returns (m: nat)
    requires p.Shaped() && k < p.maxOrder && Aligned(y, k)
    requires AllClear(p.bits, Buddy(y, k), k) && Buddy(y, k) in p.lists[k]
    ensures k < m <= p.maxOrder && Down(y, m) in Dealloc(p, y, k).lists[m]
  {
    hide Aligned, Buddy, Dealloc, Down, Without, AllClear, Pow2;
    DownIs(y, k, y);
    m := FreeIsExact(p, y, k);
    assert Joins(p, y, k);
  }

  lemma HalvesAreBuddies(i: nat, k: nat)
    requires Aligned(i, k + 1)
    ensures Aligned(i, k) && Aligned(i + Pow2(k), k) && Pow2(k + 1) == 2 * Pow2(k)
    ensures Buddy(i, k) == i + Pow2(k) && Buddy(i + Pow2(k), k) == i
  {
    AlignedDown(i, k, k + 1);
    BuddyIsOtherHalf(i, k);
  }

  lemma {:induction false} SplitIsExact(lists: seq<seq<nat>>, i: nat, k: nat, order: nat, l: nat)
    requires order <= k < |lists| && l < |lists|
    ensures SplitDown(lists, i, k, order)[l] == if order <= l < k then [i + Pow2(l)] + lists[l] else lists[l]
    decreases k
  {
    if k > order {
      SplitIsExact(Push(lists, k - 1, i + Pow2(k - 1)), i, k - 1, order, l);
    }
  }

  /** An allocation, list by list and bit by bit: the head of the first list from the order asked for on that is not
      empty, its upper halves listed below, its bits set, and nothing else changed. */
  lemma AllocIsExact(p: Pool, order: nat) returns (k: nat)
    requires p.Shaped() && Alloc(p, order).1.Some?
    ensures order <= k <= p.maxOrder && p.lists[k] != [] && forall l :: order <= l < k ==> p.lists[l] == []
    ensures
      var (q, block) := Alloc(p, order);
      var i := p.lists[k][0];
      && block == Some(i) && q.pages == p.pages && q.maxOrder == p.maxOrder && |q.bits| == |p.bits|
      && |q.lists| == |p.lists|
      && (forall l :: 0 <= l < |p.lists| ==>
            q.lists[l] == if l == k then p.lists[k][1..] else if order <= l < k then [i + Pow2(l)] else p.lists[l])
      && forall x :: 0 <= x < |p.bits| ==> q.bits[x] == (i <= x < i + Pow2(order) || p.bits[x])
  {
    hide SplitDown, Pow2, Push, Aligned;
    var i := Source(p, order).0;
    k := Source(p, order).1;
    var lists := p.lists[k := p.lists[k][1..]];
    forall l | 0 <= l < |lists|
      ensures SplitDown(lists, i, k, order)[l] == if order <= l < k then [i + Pow2(l)] + lists[l] else lists[l]
    {
      SplitIsExact(lists, i, k, order, l);
    }
    hide FirstNonEmpty, Fill;
    assert forall l :: order <= l < k ==> lists[l] == [] && [i + Pow2(l)] + [] == [i + Pow2(l)];
  }

  // ----- freeing what was just allocated -----

  /** One more level of splitting adds one node, on the list of that level. */
  lemma {:induction false} SplitFromBelow(lists: seq<seq<nat>>, i: nat, top: nat, k: nat)
    requires k < top < |lists|
    ensures SplitDown(lists, i, top, k) == Push(SplitDown(lists, i, top, k + 1), k, i + Pow2(k))
    decreases top
  {
    if k + 1 < top {
      SplitFromBelow(Push(lists, top - 1, i + Pow2(top - 1)), i, top - 1, k);
    }
  }

  lemma {:induction false} SplitLeavesRest(lists: seq<seq<nat>>, i: nat, top: nat, k: nat, m: nat)
    requires k <= top < |lists| && m < |lists| && (m < k || m >= top)
    ensures SplitDown(lists, i, top, k)[m] == lists[m]
    decreases top
  {
    if k < top {
      SplitLeavesRest(Push(lists, top - 1, i + Pow2(top - 1)), i, top - 1, k, m);
    }
  }

  /** The merge loop never touches a list below the order it has reached. */
  lemma {:induction false} MergeLeavesBelow(p: Pool, i: nat, k: nat, m: nat)
    requires p.Shaped() && m < k <= p.maxOrder
    ensures Merge(p, i, k).lists[m] == p.lists[m]
    decreases p.maxOrder - k
  {
    if Mergeable(p, i, k) {
      MergeLeavesBelow(Absorb(p, i, k), Lower(i, k), k + 1, m);
    }
  }

  /** The bits above the first 2^order pages of a block of order k at i. */
  predicate RestClear(bits: seq<bool>, i: nat, order: nat, k: nat) {
    i + Pow2(k) <= |bits| && forall x :: i + Pow2(order) <= x < i + Pow2(k) ==> !bits[x]
  }

  /** q is p with the block of order top at i taken, split down to order k, and k in hand. */
  ghost predicate SplitTo(p: Pool, lists: seq<seq<nat>>, i: nat, top: nat, k: nat, q: Pool) {
    && p.Shaped() && |lists| == ORDERS && k <= top <= p.maxOrder && Aligned(i, top)
    && p.lists == lists[top := [i] + lists[top]] && i !in lists[top]
    && (forall m :: k <= m < top ==> lists[m] == [])
    && q == p.(lists := SplitDown(lists, i, top, k), bits := q.bits) && |q.bits| == |p.bits|
    && i + Pow2(top) <= |p.bits|
    && forall x :: 0 <= x < |p.bits| && !(i <= x < i + Pow2(k)) ==> q.bits[x] == p.bits[x]
  }

  lemma MergeAtTop(p: Pool, lists: seq<seq<nat>>, i: nat, top: nat, q: Pool)
    requires SplitTo(p, lists, i, top, top, q)
    ensures Merge(q, i, top).lists == p.lists <==> !Mergeable(p, i, top)
  {
    BuddyIsOtherHalf(i, top);
    var b := Buddy(i, top);
    assert b + Pow2(top) <= |p.bits| ==> forall x :: b <= x < b + Pow2(top) ==> q.bits[x] == p.bits[x];
    if Mergeable(q, i, top) {
      MergeLeavesBelow(Absorb(q, i, top), Lower(i, top), top + 1, top);
      WithoutLacks(lists[top], b, i);
      assert i !in Merge(q, i, top).lists[top] && i in p.lists[top];
    }
  }

  lemma MergeOneLevel(p: Pool, lists: seq<seq<nat>>, i: nat, top: nat, k: nat, q: Pool)
    requires SplitTo(p, lists, i, top, k, q) && k < top
    ensures Buddy(i, k) == i + Pow2(k) && i + Pow2(k + 1) <= |p.bits| && Lower(i, k) == i
    ensures q.Shaped() && k < q.maxOrder && |q.lists| == |p.lists| > k
    ensures q.lists[k] == [i + Pow2(k)] && p.lists[k] == []
    ensures Mergeable(q, i, k) <==> AllClear(p.bits, i + Pow2(k), k)
    ensures SplitTo(p, lists, i, top, k + 1, Absorb(q, i, k))
  {
    AlignedDown(i, k, top);
    AlignedDown(i, k + 1, top);
    BuddyIsOtherHalf(i, k);
    Pow2Monotone(k + 1, top);
    SplitFromBelow(lists, i, top, k);
    SplitLeavesRest(lists, i, top, k + 1, k);
    var b := i + Pow2(k);
    assert SplitDown(lists, i, top, k + 1)[k] == [];
    assert q.lists[k] == [b];
    assert Without([b], b) == [];
    assert Absorb(q, i, k).lists == SplitDown(lists, i, top, k + 1);
    assert forall x :: b <= x < b + Pow2(k) ==> q.bits[x] == p.bits[x];
  }

  lemma NoRest(bits: seq<bool>, i: nat, top: nat)
    requires i + Pow2(top) <= |bits|
    ensures RestClear(bits, i, top, top)
  {
  }

  lemma RestHalves(bits: seq<bool>, i: nat, k: nat, top: nat)
    requires k < top && i + Pow2(top) <= |bits|
    ensures RestClear(bits, i, k, top) <==> AllClear(bits, i + Pow2(k), k) && RestClear(bits, i, k + 1, top)
  {
    Pow2Monotone(k + 1, top);
    assert Pow2(k + 1) == 2 * Pow2(k);
  }

  /** Merging back up from order k in a pool split down to order k from the block of order top. */
  lemma {:induction false} MergeUndoesSplit(p: Pool, lists: seq<seq<nat>>, i: nat, top: nat, k: nat, q: Pool)
    requires SplitTo(p, lists, i, top, k, q)
    ensures Merge(q, i, k).lists == p.lists <==> RestClear(p.bits, i, k, top) && !Mergeable(p, i, top)
    decreases top - k
  {
    assert p.Shaped() && k <= top <= p.maxOrder && i + Pow2(top) <= |p.bits|;
    hide SplitTo, AllClear, RestClear, Mergeable, Pow2, Absorb;
    if k == top {
      MergeAtTop(p, lists, i, top, q);
      NoRest(p.bits, i, top);
    } else {
      MergeOneLevel(p, lists, i, top, k, q);
      RestHalves(p.bits, i, k, top);
      if Mergeable(q, i, k) {
        MergeUndoesSplit(p, lists, i, top, k + 1, Absorb(q, i, k));
      } else {
        assert Merge(q, i, k).lists[k] == [i, i + Pow2(k)];
      }
    }
  }

  lemma {:induction false} WithoutLacks(s: seq<nat>, b: nat, i: nat)
    requires i !in s
    ensures i !in Without(s, b)
  {
    if s != [] {
      WithoutLacks(s[1..], b, i);
    }
  }

  /** Freeing a block at once restores every free list, node for node, exactly when the rest of the
      block it was cut from has clear bits and that block does not itself merge with its buddy. */
  lemma AllocThenFree(p: Pool, own: seq<Owner>, order: nat)
    requires Inv(p, own) && CanServe(p, order)
    ensures
      var (i, k) := Source(p, order);
      Dealloc(Alloc(p, order).0, i, order).lists == p.lists
      <==> RestClear(p.bits, i, order, k) && !Mergeable(p, i, k)
  {
    var (i, k) := Source(p, order);
    var lists := p.lists[k := p.lists[k][1..]];
    NodeIsBlock(p, own, i, k);
    assert Listed(own, p.lists[k], k);
    assert p.lists[k] == [i] + lists[k];
    Pow2Monotone(order, k);
    MergeUndoesSplit(p, lists, i, k, order, Cleared(Alloc(p, order).0, i, order));
  }

  /** In particular when the block taken has all bits clear. */
  lemma AllocThenFreeClearBlock(p: Pool, own: seq<Owner>, order: nat)
    requires Inv(p, own) && CanServe(p, order)
    requires AllClear(p.bits, Source(p, order).0, Source(p, order).1)
    ensures Dealloc(Alloc(p, order).0, Alloc(p, order).1.value, order).lists == p.lists
  {
    var (i, k) := Source(p, order);
    AllocThenFree(p, own, order);
    Pow2Monotone(order, k);
    assert i in p.lists[k];
  }

  // ----- what is left when everything has been freed -----

  /** Taking half of a pool that is one block. */
  lemma TakeHalf(p: Pool, k: nat)
    requires p.Shaped() && p.maxOrder == k + 1 && p.lists == EMPTY[k + 1 := [0]]
    ensures Alloc(p, k) ==
      (p.(lists := EMPTY[k := [Pow2(k)]], bits := Fill(p.bits, 0, Pow2(k), true)), Some(0))
  {
    assert p.lists[k] == [] && p.lists[k + 1] == [0] && [0][1..] == [];
    assert FirstNonEmpty(p, k) == k + 1 by { assert FirstNonEmpty(p, k + 1) == k + 1; }
    assert p.lists[k + 1 := []] == EMPTY;
    assert SplitDown(EMPTY, 0, k + 1, k) == EMPTY[k := [Pow2(k)] + []];
    assert [Pow2(k)] + [] == [Pow2(k)];
  }

  /** Freeing it: one block again, its upper half's bits set, or two blocks if they are set already. */
  lemma GiveHalf(p: Pool, k: nat)
    requires p.Shaped() && p.maxOrder == k + 1 && p.lists == EMPTY[k := [Pow2(k)]] && Pow2(k + 1) <= |p.bits|
    ensures
      var bits := Fill(p.bits, 0, Pow2(k), false);
      Dealloc(p, 0, k) ==
      if AllClear(p.bits, Pow2(k), k) then p.(lists := EMPTY[k + 1 := [0]], bits := Fill(bits, Pow2(k), Pow2(k), true))
      else p.(lists := EMPTY[k := [0, Pow2(k)]], bits := bits)
  {
    var h, q := Pow2(k), Cleared(p, 0, k);
    Pow2Aligned(k + 1, k + 1);
    ZeroIsAligned(k + 1);
    BuddyIsOtherHalf(0, k);
    assert AllClear(q.bits, h, k) <==> AllClear(p.bits, h, k);
    if AllClear(p.bits, h, k) {
      assert [h][1..] == [] && Without([h], h) == [];
      assert EMPTY[k := [h]][k := []] == EMPTY;
      assert [0] + EMPTY[k + 1] == [0];
      var a := Absorb(q, 0, k);
      assert a.lists == EMPTY && Lower(0, k) == 0;
      assert Merge(q, 0, k) == Merge(a, 0, k + 1) == a.(lists := Push(EMPTY, k + 1, 0));
    } else {
      assert [0] + [h] == [0, h];
    }
  }

  lemma {:induction false} ZeroIsAligned(k: nat)
    ensures Aligned(0, k)
    decreases k
  {
    if k > 0 {
      ZeroIsAligned(k - 1);
    }
  }

  lemma BootIsOneBlock(m: nat, mapBits: nat)
    requires ValidSize(Pow2(m), mapBits)
    ensures var p := Boot(Pow2(m), mapBits).pool;
      p.maxOrder == m && p.lists == EMPTY[m := [0]] && p.bits == seq(mapBits, _ => false)
  {
    FloorLog2Unique(Pow2(m), m);
    CarveOne(m);
  }

  lemma CarveOne(m: nat)
    requires m < ORDERS
    ensures FloorLog2(Pow2(m)) == m && Carve(EMPTY, 0, Pow2(m)) == EMPTY[m := [0]]
  {
    hide FloorLog2, Pow2;
    FloorLog2Unique(Pow2(m), m) by { Pow2Monotone(m, m + 1); }
    var lists: seq<seq<nat>> := EMPTY[m := [0] + EMPTY[m]];
    assert [0] + EMPTY[m] == [0];
    assert Carve(EMPTY, 0, Pow2(m)) == Carve(lists, Pow2(m), 0);
  }

  /** Half the pool taken and freed, twice over: nothing is handed out, and the pool is two blocks. */
  lemma HalvesStayApart(k: nat, mapBits: nat)
    requires ValidSize(Pow2(k + 1), mapBits)
    ensures
      var s, ops := Boot(Pow2(k + 1), mapBits), [AllocOp(k), FreeOp(0, k), AllocOp(k), FreeOp(0, k)];
      && LegalRun(s, ops) && Run(s, ops).live == map[]
      && Run(s, ops).pool.lists == EMPTY[k := [0, Pow2(k)]] && Run(s, ops).pool.maxOrder == k + 1
  {
    hide Alloc, Dealloc, Carve;
    var h, s := Pow2(k), Boot(Pow2(k + 1), mapBits);
    BootIsOneBlock(k + 1, mapBits);
    TakeHalf(s.pool, k);
    var s1 := Apply(s, AllocOp(k));
    GiveHalf(s1.pool, k);
    assert AllClear(s1.pool.bits, h, k);
    var s2 := Apply(s1, FreeOp(0, k));
    TakeHalf(s2.pool, k);
    var s3 := Apply(s2, AllocOp(k));
    GiveHalf(s3.pool, k);
    assert s3.pool.bits[h] && !AllClear(s3.pool.bits, h, k);
    var s4 := Apply(s3, FreeOp(0, k));
    FourSteps(s, s1, s2, s3, s4, AllocOp(k), FreeOp(0, k), AllocOp(k), FreeOp(0, k));
  }

  lemma FourSteps(s0: State, s1: State, s2: State, s3: State, s4: State, a: Op, b: Op, c: Op, d: Op)
    requires s0.pool.Shaped() && Legal(s0, a) && s1 == Apply(s0, a)
    requires Legal(s1, b) && s2 == Apply(s1, b) && Legal(s2, c) && s3 == Apply(s2, c)
    requires Legal(s3, d) && s4 == Apply(s3, d)
    ensures LegalRun(s0, [a, b, c, d]) && Run(s0, [a, b, c, d]) == s4
  {
    hide Apply, Legal;
    assert [a, b, c, d][1..] == [b, c, d] && [b, c, d][1..] == [c, d] && [c, d][1..] == [d] && [d][1..] == [];
    assert LegalRun(s3, [d]) && Run(s3, [d]) == s4;
    assert LegalRun(s2, [c, d]) && Run(s2, [c, d]) == s4;
    assert LegalRun(s1, [b, c, d]) && Run(s1, [b, c, d]) == s4;
  }

  /** After some run everything is free again and yet a request for the whole pool is refused. */
  ghost predicate WholeRefusable(m: nat, mapBits: nat)
    requires ValidSize(Pow2(m), mapBits)
  {
    exists ops ::
      && LegalRun(Boot(Pow2(m), mapBits), ops) && Run(Boot(Pow2(m), mapBits), ops).live == map[]
      && !CanServe(Run(Boot(Pow2(m), mapBits), ops).pool, m)
  }

  /** With nothing handed out some block is free: a page can always be had. */
  lemma NothingLiveServesPage(s: State)
    requires Consistent(s) && s.live == map[] && s.pool.pages > 0
    ensures CanServe(s.pool, 0)
  {
    var own: seq<Owner> :| Inv(s.pool, own) && Live(own) == s.live;
    assert InBlock(s.pool, own, 0) && own[0].start == 0;
    assert 0 in Live(own) <==> !own[0].free;
    assert Listed(own, s.pool.lists[own[0].order], own[0].order);
    assert 0 in s.pool.lists[own[0].order];
  }

  lemma RefusesTop(p: Pool, k: nat)
    requires p.Shaped() && p.maxOrder == k + 1 && p.lists == EMPTY[k := [0, Pow2(k)]]
    ensures !CanServe(p, k + 1)
  {
    assert p.lists[k + 1] == [];
  }

  lemma WholeCanBeRefused(k: nat, mapBits: nat)
    requires ValidSize(Pow2(k + 1), mapBits)
    ensures WholeRefusable(k + 1, mapBits)
  {
    hide Boot, Run, LegalRun, CanServe, Pow2;
    HalvesStayApart(k, mapBits);
    var s, ops := Boot(Pow2(k + 1), mapBits), [AllocOp(k), FreeOp(0, k), AllocOp(k), FreeOp(0, k)];
    RefusesTop(Run(s, ops).pool, k);
  }

  lemma OnePageIsServed(mapBits: nat, ops: seq<Op>)
    requires ValidSize(1, mapBits)
    requires LegalRun(Boot(1, mapBits), ops) && Run(Boot(1, mapBits), ops).live == map[]
    ensures CanServe(Run(Boot(1, mapBits), ops).pool, 0)
  {
    hide Run, LegalRun, CanServe, Consistent;
    var s := Boot(1, mapBits);
    BootConsistent(1, mapBits);
    RunKeepsConsistent(s, ops);
    RunKeepsSize(s, ops);
    NothingLiveServesPage(Run(s, ops));
  }

  /** A pool of 2^m pages can come to refuse that request, with nothing handed out, exactly when it has two pages
      or more. */
  lemma WholeRefusableExactly(m: nat, mapBits: nat)
    requires ValidSize(Pow2(m), mapBits)
    ensures WholeRefusable(m, mapBits) <==> m > 0
  {
    hide Boot, Run, LegalRun, CanServe;
    if m > 0 {
      WholeCanBeRefused(m - 1, mapBits);
    } else if WholeRefusable(m, mapBits) {
      var s := Boot(Pow2(m), mapBits);
      var ops :| LegalRun(s, ops) && Run(s, ops).live == map[] && !CanServe(Run(s, ops).pool, m);
      OnePageIsServed(mapBits, ops);
    }
  }
}
