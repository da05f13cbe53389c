/** The buddy allocator as functions on a value: what buddy_alloc and buddy_dealloc do to the free
    lists and the bitmap. Pages are numbered from the base of the pool. Class BuddyAllocator
    implements these functions on linked lists and a byte array; module BuddyInvariant proves what
    they keep. */
module BuddyPool {
  import opened Common
  import opened PowersOfTwo
  import opened Bitmap

  /** MAX_ORDER + 1 list heads; the one above the largest order stays empty and stops the search. */
  const ORDERS := 33

  /** pages: size of the pool; lists[k]: the free list of order k, head first; bits: the map. */
  datatype Pool = Pool(pages: nat, maxOrder: nat, lists: seq<seq<nat>>, bits: seq<bool>) {
    predicate Shaped() {
      |lists| == ORDERS && maxOrder < ORDERS - 1
    }
  }

  predicate AllClear(bits: seq<bool>, i: nat, k: nat) {
    i + Pow2(k) <= |bits| && forall x :: i <= x < i + Pow2(k) ==> !bits[x]
  }

  function Push(lists: seq<seq<nat>>, k: nat, i: nat): (r: seq<seq<nat>>)
    requires k < |lists|
  {
    lists[k := [i] + lists[k]]
  }

  function Without(s: seq<nat>, x: nat): (r: seq<nat>) {
    if s == [] then [] else if s[0] == x then s[1..] else [s[0]] + Without(s[1..], x)
  }

  function Unlink(lists: seq<seq<nat>>, k: nat, i: nat): (r: seq<seq<nat>>)
    requires k < |lists|
  {
    lists[k := Without(lists[k], i)]
  }

  /** The least order at or above k whose list is not empty, or maxOrder + 1. */
  function FirstNonEmpty(p: Pool, k: nat): (r: nat)
    requires p.Shaped() && k <= p.maxOrder + 1
    ensures k <= r <= p.maxOrder + 1
    ensures forall j :: k <= j < r ==> p.lists[j] == []
    ensures r <= p.maxOrder ==> p.lists[r] != []
    decreases p.maxOrder + 1 - k
  {
    if k > p.maxOrder || p.lists[k] != [] then k else FirstNonEmpty(p, k + 1)
  }

  /** Halve the block at i from order k down to order, freeing the upper half each time. */
  function SplitDown(lists: seq<seq<nat>>, i: nat, k: nat, order: nat): (r: seq<seq<nat>>)
    requires order <= k < |lists|
    ensures |r| == |lists|
    decreases k
  {
    if k == order then lists
    else SplitDown(Push(lists, k - 1, i + Pow2(k - 1)), i, k - 1, order)
  }

  /** The order of the block that serves a request, when there is one. */
  predicate CanServe(p: Pool, order: nat)
    requires p.Shaped()
  {
    order <= p.maxOrder && FirstNonEmpty(p, order) <= p.maxOrder
  }

  /** The block a request is served from: its first page and its order. */
  function Source(p: Pool, order: nat): (r: (nat, nat))
    requires p.Shaped() && CanServe(p, order)
    ensures order <= r.1 <= p.maxOrder && p.lists[r.1] != [] && r.0 == p.lists[r.1][0]
  {
    var k := FirstNonEmpty(p, order);
    (p.lists[k][0], k)
  }

  function Alloc(p: Pool, order: nat): (r: (Pool, Option<nat>))
    requires p.Shaped()
    ensures r.1.Some? <==> CanServe(p, order)
    ensures r.1.None? ==> r.0 == p
    ensures r.1.Some? ==> r.1.value == Source(p, order).0
    ensures r.0.Shaped()
  {
    if !CanServe(p, order) then (p, None)
    else
      var (i, k) := Source(p, order);
      var lists := SplitDown(p.lists[k := p.lists[k][1..]], i, k, order);
      (p.(lists := lists, bits := Fill(p.bits, i, Pow2(order), true)), Some(i))
  }

  /** The free block that a block of order k at i merges with, if the bitmap and the lists agree. */
  predicate Mergeable(p: Pool, i: nat, k: nat)
    requires p.Shaped()
  {
    k < p.maxOrder && AllClear(p.bits, Buddy(i, k), k) && Buddy(i, k) in p.lists[k]
  }

  function Absorb(p: Pool, i: nat, k: nat): (r: Pool)
    requires p.Shaped() && k < p.maxOrder
  {
    p.(lists := Unlink(p.lists, k, Buddy(i, k)), bits := Fill(p.bits, Buddy(i, k), Pow2(k), true))
  }

  function Lower(i: nat, k: nat): (r: nat) {
    if i < Buddy(i, k) then i else Buddy(i, k)
  }

  /** The merge loop: absorb the buddy while it is free, then put the block on its list. */
  function Merge(p: Pool, i: nat, k: nat): (r: Pool)
    requires p.Shaped() && k <= p.maxOrder
    ensures r.Shaped() && r.pages == p.pages && r.maxOrder == p.maxOrder && |r.bits| == |p.bits|
    decreases p.maxOrder - k
  {
    if Mergeable(p, i, k) then Merge(Absorb(p, i, k), Lower(i, k), k + 1)
    else p.(lists := Push(p.lists, k, i))
  }

  function Cleared(p: Pool, i: nat, order: nat): (r: Pool) {
    p.(bits := Fill(p.bits, i, Pow2(order), false))
  }

  function Dealloc(p: Pool, i: nat, order: nat): (r: Pool)
    requires p.Shaped() && order <= p.maxOrder
    ensures r.Shaped() && r.pages == p.pages && r.maxOrder == p.maxOrder && |r.bits| == |p.bits|
  {
    Merge(Cleared(p, i, order), i, order)
  }

  /** Whether the merge loop asks an empty list for its second node: the bitmap accepts the buddy
      and the list of that order has no node at all. */
  predicate ReadsEmptyList(p: Pool, i: nat, k: nat)
    requires p.Shaped() && k <= p.maxOrder
    decreases p.maxOrder - k
  {
    if Mergeable(p, i, k) then ReadsEmptyList(Absorb(p, i, k), Lower(i, k), k + 1)
    else k < p.maxOrder && AllClear(p.bits, Buddy(i, k), k) && p.lists[k] == []
  }

  predicate DeallocReadsEmptyList(p: Pool, i: nat, order: nat)
    requires p.Shaped() && order <= p.maxOrder
  {
    ReadsEmptyList(Cleared(p, i, order), i, order)
  }
}
