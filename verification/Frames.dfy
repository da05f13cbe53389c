/** page.c: single zeroed pages from the buddy allocator, and freeing them again. */
module Frames {
  import opened Common
  import opened PowersOfTwo
  import opened Bitmap
  import opened BuddyPool
  import opened BuddyInvariant
  import opened Buddy

  /** A page is free after taking one page exactly when it was free and is not that page. */
  lemma AllocTakesOnePage(p: Pool, own: seq<Owner>)
    requires Inv(p, own) && CanServe(p, 0)
    ensures
      var i := Alloc(p, 0).1.value;
      && i < |own| && own[i].free && AllocOwn(p, own, 0)[i] == Owner(i, 0, false)
      && forall x :: 0 <= x < |own| && x != i ==>
           (AllocOwn(p, own, 0)[x].free <==> own[x].free)
           && (!own[x].free ==> AllocOwn(p, own, 0)[x] == own[x])
  {
    var (i, k) := Source(p, 0);
    var own1 := Fill(own, i, Pow2(k), Owner(i, k, false));
    var p1 := p.(lists := p.lists[k := p.lists[k][1..]]);
    NodeIsBlock(p, own, i, k);
    TakenIsInHand(p, own, i, k, p1, own1);
    SplitKeeps(p1, own1, i, k, 0);
    var p2 := p1.(lists := SplitDown(p1.lists, i, k, 0));
    BlockIsOwn(p2, SplitOwn(own1, i, k, 0), i);
  }

  lemma DeallocGivesOnePage(p: Pool, own: seq<Owner>, i: nat)
    requires Inv(p, own) && InHand(own, i, 0)
    ensures forall x :: 0 <= x < |own| ==>
      (DeallocOwn(p, own, i, 0)[x].free <==> own[x].free || x == i)
      && (!own[x].free && x != i ==> DeallocOwn(p, own, i, 0)[x] == own[x])
  {
    ClearedIsMerging(p, own, i, 0);
    MergeKeeps(Cleared(p, i, 0), own, i, 0);
    BlockIsOwn(p, own, i);
  }

  lemma ServesOnePage(p: Pool, own: seq<Owner>)
    requires Inv(p, own)
    ensures CanServe(p, 0) <==> exists x :: 0 <= x < |own| && own[x].free
  {
    if CanServe(p, 0) {
      var (i, k) := Source(p, 0);
      NodeIsBlock(p, own, i, k);
      assert own[i].free;
    } else if exists x :: 0 <= x < |own| && own[x].free {
      var x :| 0 <= x < |own| && own[x].free;
      assert InBlock(p, own, x);
      var k := own[x].order;
      assert own[own[x].start] == own[x];
      assert Listed(own, p.lists[k], k);
      assert p.lists[k] == [];
    }
  }

  /** Frame f (a physical page number) is a page of the pool that begins at frame b. */
  predicate InPool(b: nat, own: seq<Owner>, f: nat) {
    b <= f < b + |own|
  }

  predicate IsHeld(b: nat, own: seq<Owner>, f: nat) {
    InPool(b, own, f) && own[f - b] == Owner(f - b, 0, false)
  }

  predicate IsAvailable(b: nat, own: seq<Owner>, f: nat) {
    InPool(b, own, f) && own[f - b].free
  }

  class FrameAllocator {
    const buddy: BuddyAllocator
    /** Frames handed out one at a time and not freed since; others may hold blocks of the same pool. */
    ghost var held: set<nat>
    /** Frames of the pool that no outstanding block contains. */
    ghost var available: set<nat>

    ghost function PoolFrame(): (b: nat)
      reads buddy`base
    {
      if buddy.base < KERNBASE then 0 else V2P(buddy.base) / PAGE_SIZE
    }

    /** Every frame held is a one-page block in hand. */
    ghost predicate HeldIsHeld()
      reads this, buddy
    {
      forall f: nat :: f in held ==> IsHeld(PoolFrame(), buddy.own, f)
    }

    ghost predicate Valid()
      reads this, buddy, buddy.freeLists, buddy.link, buddy.bitmap
    {
      && buddy.Valid() && V2P(buddy.base) == PAGE_SIZE * PoolFrame()
      && HeldIsHeld()
      && (forall f: nat :: f in available <==> IsAvailable(PoolFrame(), buddy.own, f))
    }

    constructor (buddy: BuddyAllocator)
      requires buddy.Valid()
      ensures Valid() && this.buddy == buddy && held == {}
    {
      this.buddy := buddy;
      var b := V2P(buddy.base) / PAGE_SIZE;
      held := {};
      available := set f: nat | b <= f < b + |buddy.own| && IsAvailable(b, buddy.own, f);
      PhysicalBaseAligned(buddy.base, buddy.maxOrder);
    }

    lemma HeldNotAvailable()
      requires Valid()
      ensures held !! available
    {
    }

    /** After others allocated or freed blocks of the pool: what is available is what is free now. */
    ghost method Resync()
      requires buddy.Valid() && HeldIsHeld()
      modifies this`available
      ensures Valid() && forall f: nat :: f in available <==> IsAvailable(PoolFrame(), buddy.own, f)
    {
      hide BuddyAllocator.Represents, Inv;
      var b := PoolFrame();
      available := set f: nat | b <= f < b + |buddy.own| && IsAvailable(b, buddy.own, f);
      PoolAligned();
    }

    lemma PoolAligned()
      requires buddy.Valid()
      ensures V2P(buddy.base) == PAGE_SIZE * PoolFrame()
    {
      PhysicalBaseAligned(buddy.base, buddy.maxOrder);
    }

    /** get_free_page, as a frame number; 0 stands for NULL. The zeroing is done by the caller's memory. */
    method Get() returns (frame: nat)
      requires Valid()
      modifies this`held, this`available, buddy`pool, buddy`own, buddy.freeLists, buddy.link, buddy.bitmap
      ensures Valid()
      ensures frame == 0 <==> old(available) == {}
      ensures frame == 0 ==> held == old(held) && available == old(available)
      ensures frame != 0 ==>
        frame in old(available) && held == old(held) + {frame} && available == old(available) - {frame}
      ensures buddy.pool == Alloc(old(buddy.pool), 0).0 && buddy.own == AllocOwn(old(buddy.pool), old(buddy.own), 0)
      ensures
        var page := Alloc(old(buddy.pool), 0).1;
        if frame == 0 then page.None? else page.Some? && frame == PoolFrame() + page.value
    {
      hide Inv, Alloc, AllocOwn, CanServe, BuddyAllocator.Represents;
      ghost var p, o, b := buddy.pool, buddy.own, PoolFrame();
      buddy.PoolIsShaped();
      ServesOnePage(p, o);
      AllocRefused(p, o, 0);
      if CanServe(p, 0) {
        AllocTakesOnePage(p, o);
        assert IsAvailable(b, o, b + Alloc(p, 0).1.value);
      }
      var paddr := buddy.BuddyAlloc(0);
      if paddr == NULL {
        return 0;
      }
      frame := paddr / PAGE_SIZE;
      held := held + {frame};
      available := available - {frame};
    }

    /** free_page of a frame Get handed out: the buddy allocator frees exactly that page. */
    method Free(frame: nat)
      requires Valid() && frame in held
      modifies this`held, this`available, buddy`pool, buddy`own, buddy.freeLists, buddy.link, buddy.bitmap
      ensures Valid()
      ensures held == old(held) - {frame} && available == old(available) + {frame}
      ensures PoolFrame() <= frame && InHand(old(buddy.own), frame - PoolFrame(), 0)
      ensures buddy.pool == Dealloc(old(buddy.pool), frame - PoolFrame(), 0)
      ensures buddy.own == DeallocOwn(old(buddy.pool), old(buddy.own), frame - PoolFrame(), 0)
    {
      hide Inv, Dealloc, DeallocOwn, BuddyAllocator.Represents;
      ghost var page := frame - PoolFrame();
      DeallocGivesOnePage(buddy.pool, buddy.own, page);
      var emptyRead := buddy.BuddyDealloc(PAGE_SIZE * frame, 0, page);
      held := held - {frame};
      available := available + {frame};
    }
  }

  lemma PhysicalBaseAligned(base: nat, m: nat)
    requires KERNBASE < base && m <= LARGEST_ORDER && Aligned(base, 12 + m)
    ensures V2P(base) == PAGE_SIZE * (V2P(base) / PAGE_SIZE)
  {
    KernBaseAligned(12 + m);
    AlignedAdd(V2P(base), KERNBASE, 12 + m);
    AlignedDown(V2P(base), 12, 12 + m);
    AlignedIffMultiple(V2P(base), 12);
    PageIsPower();
  }
}
