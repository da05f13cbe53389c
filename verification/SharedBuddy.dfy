/** kmalloc and single frames on one buddy allocator, as the kernel runs them: neither side disturbs the other. */
module SharedBuddy {
  import opened Common
  import opened BuddyPool
  import opened BuddyInvariant
  import opened Buddy
  import opened Frames
  import opened KernelHeap

  lemma HeldIsLive(b: nat, own: seq<Owner>, f: nat)
    ensures IsHeld(b, own, f) <==> b <= f && f - b in Live(own) && Live(own)[f - b] == 0
  {
  }

  /** A page other than those held comes or goes. */
  lemma HeldStay(b: nat, own: seq<Owner>, own': seq<Owner>, held: set<nat>, page: nat)
    requires forall f: nat :: f in held ==> IsHeld(b, own, f)
    requires b + page !in held
    requires forall i :: i in Live(own) && i != page ==> i in Live(own') && Live(own')[i] == Live(own)[i]
    ensures forall f: nat :: f in held ==> IsHeld(b, own', f)
  {
    hide Live, IsHeld;
    forall f: nat | f in held
      ensures IsHeld(b, own', f)
    {
      HeldIsLive(b, own, f);
      HeldIsLive(b, own', f);
    }
  }

  class KernelMemory {
    const heap: Kmalloc
    const frames: FrameAllocator

    /** Both are sound, and no frame held is the page of a kmalloc block. */
    ghost predicate Valid()
      reads this, heap, frames, heap.buddy, frames.buddy, heap.buddy.freeLists, heap.buddy.link, heap.buddy.bitmap
      reads frames.buddy.freeLists, frames.buddy.link, frames.buddy.bitmap
    {
      && heap.buddy == frames.buddy && heap.Valid() && frames.Valid()
      && forall ptr :: ptr in heap.live ==> frames.PoolFrame() + heap.PageOf(ptr) !in frames.held
    }

    constructor (buddy: BuddyAllocator)
      requires buddy.Valid()
      ensures Valid() && fresh(heap) && fresh(frames) && heap.buddy == buddy && heap.live == map[] && frames.held == {}
    {
      heap := new Kmalloc(buddy);
      frames := new FrameAllocator(buddy);
    }

    method Allocate(n: nat) returns (ptr: nat)
      requires Valid()
      modifies heap, frames`available, heap.buddy`pool, heap.buddy`own, heap.buddy.freeLists, heap.buddy.link
      modifies heap.buddy.bitmap
      ensures Valid() && frames.held == old(frames.held)
      ensures ptr == NULL <==> n == 0 || n >= 16384 || !CanServe(old(heap.buddy.pool), OrderFor(n))
      ensures ptr == NULL ==> heap.live == old(heap.live)
      ensures ptr != NULL ==> ptr !in old(heap.live) && heap.live == old(heap.live)[ptr := n]
    {
      hide BuddyAllocator.Valid, Kmalloc.Backed, Alloc, IsHeld, IsAvailable, Live, OrderFor, CanServe;
      ghost var b, own, held := frames.PoolFrame(), heap.buddy.own, frames.held;
      ptr := heap.Allocate(n);
      if ptr != NULL {
        ghost var page := heap.PageOf(ptr);
        FreshPage(b, own, held, page);
        HeldStay(b, own, heap.buddy.own, held, page);
      }
      frames.Resync();
    }

    method FreeBlock(ptr: nat) returns (outcome: Outcome)
      requires Valid() && (ptr == NULL || ptr in heap.live)
      modifies heap, frames`available, heap.buddy`pool, heap.buddy`own, heap.buddy.freeLists, heap.buddy.link
      modifies heap.buddy.bitmap
      ensures Valid() && frames.held == old(frames.held)
      ensures heap.live == if ptr == NULL then old(heap.live) else old(heap.live) - {ptr}
      ensures outcome == if ptr == NULL then Ignored else Freed
    {
      hide BuddyAllocator.Valid, Kmalloc.Backed, IsHeld, IsAvailable, Live, FreedPool;
      ghost var b, own, held, page := frames.PoolFrame(), heap.buddy.own, frames.held, heap.PageOf(ptr);
      outcome := heap.Free(ptr);
      if ptr != NULL {
        HeldStay(b, own, heap.buddy.own, held, page);
      }
      frames.Resync();
    }

    /** get_free_page beside kmalloc: every live pointer stays backed. */
    method GetPage() returns (frame: nat)
      requires Valid()
      modifies frames, heap.buddy`pool, heap.buddy`own, heap.buddy.freeLists, heap.buddy.link, heap.buddy.bitmap
      ensures Valid() && heap.live == old(heap.live)
      ensures frame == 0 <==> old(frames.available) == {}
      ensures frame != 0 ==> frames.held == old(frames.held) + {frame} && frame !in old(frames.held)
    {
      hide BuddyAllocator.Represents, Inv, Alloc, IsHeld, IsAvailable, Live, AllocOwn;
      ghost var own, p := heap.buddy.own, heap.buddy.pool;
      heap.buddy.PoolIsShaped();
      frames.HeldNotAvailable();
      AllocKeeps(p, own, 0);
      AllocRefused(p, own, 0);
      frame := frames.Get();
    }

    method FreePage(frame: nat)
      requires Valid() && frame in frames.held
      modifies frames, heap.buddy`pool, heap.buddy`own, heap.buddy.freeLists, heap.buddy.link, heap.buddy.bitmap
      ensures Valid() && heap.live == old(heap.live) && frames.held == old(frames.held) - {frame}
    {
      hide BuddyAllocator.Represents, Inv, IsHeld, IsAvailable, Live, Dealloc, DeallocOwn;
      heap.buddy.PoolIsShaped();
      ghost var own, p, page := heap.buddy.own, heap.buddy.pool, frame - frames.PoolFrame();
      HeldIsBlock(frames.PoolFrame(), own, frame);
      DeallocKeeps(p, own, page, 0);
      frames.Free(frame);
    }
  }

  lemma HeldIsBlock(b: nat, own: seq<Owner>, f: nat)
    requires IsHeld(b, own, f)
    ensures b <= f && InHand(own, f - b, 0)
  {
  }

  /** A page that was nobody's is not among those held. */
  lemma FreshPage(b: nat, own: seq<Owner>, held: set<nat>, page: nat)
    requires forall f: nat :: f in held ==> IsHeld(b, own, f)
    requires page !in Live(own)
    ensures b + page !in held
  {
  }
}
