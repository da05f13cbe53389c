/** What every buddy_alloc and buddy_dealloc keeps, in pools of any size. */
module BuddyInvariant {
  import opened Common
  import opened PowersOfTwo
  import opened Bitmap
  import opened BuddyPool

  /** The block a page belongs to. One value per page makes the blocks a partition by construction. */
  datatype Owner = Owner(start: nat, order: nat, free: bool)

  predicate NoDuplicates(s: seq<nat>) {
    forall a, b :: 0 <= a < b < |s| ==> s[a] != s[b]
  }

  /** Page x lies in a block inside the pool, aligned to its size, all of whose pages agree on it. */
  ghost predicate InBlock(p: Pool, own: seq<Owner>, x: nat)
    requires x < |own|
  {
    var o := own[x];
    && o.start <= x < o.start + Pow2(o.order) <= |own|
    && o.order <= p.maxOrder
    && Aligned(o.start, o.order)
    && forall y :: o.start <= y < o.start + Pow2(o.order) ==> own[y] == o
  }

  ghost predicate Tiles(p: Pool, own: seq<Owner>) {
    forall x :: 0 <= x < |own| ==> InBlock(p, own, x)
  }

  /** The list of order k holds exactly the free blocks of order k. */
  ghost predicate Listed(own: seq<Owner>, s: seq<nat>, k: nat) {
    && NoDuplicates(s)
    && forall i: nat :: i in s <==> i < |own| && own[i] == Owner(i, k, true)
  }

  /** The free lists are exactly the free blocks, each once, and the blocks tile the pool. */
  ghost predicate Structure(p: Pool, own: seq<Owner>) {
    && p.Shaped()
    && |own| == p.pages <= |p.bits|
    && Tiles(p, own)
    && forall k :: 0 <= k < ORDERS ==> Listed(own, p.lists[k], k)
  }

  /** Every handed-out page has its bit set, except those of the block being freed. */
  ghost predicate LiveBitsSet(p: Pool, own: seq<Owner>, but: Owner) {
    && |own| <= |p.bits|
    && forall x :: 0 <= x < |own| && !own[x].free && own[x] != but ==> p.bits[x]
  }

  /** No two buddies of one order are both on their free list with all bits clear. */
  ghost predicate NoClearBuddies(p: Pool)
    requires p.Shaped()
  {
    forall k, i :: 0 <= k < p.maxOrder && i in p.lists[k] && AllClear(p.bits, i, k) ==> !Mergeable(p, i, k)
  }

  predicate TailClear(p: Pool) {
    forall x :: p.pages <= x < |p.bits| ==> !p.bits[x]
  }

  const NOBLOCK := Owner(0, 0, true)

  ghost predicate Inv(p: Pool, own: seq<Owner>) {
    Structure(p, own) && LiveBitsSet(p, own, NOBLOCK) && NoClearBuddies(p) && TailClear(p)
  }

  ghost predicate InHand(own: seq<Owner>, i: nat, k: nat) {
    i < |own| && own[i] == Owner(i, k, false)
  }

  // ----- lists -----

  lemma {:induction false} WithoutMembers(s: seq<nat>, x: nat)
    requires NoDuplicates(s)
    ensures forall y: nat :: y in Without(s, x) <==> y in s && y != x
    ensures NoDuplicates(Without(s, x))
  {
    if s != [] {
      var t := s[1..];
      assert s == [s[0]] + t;
      assert forall a :: 0 <= a < |t| ==> t[a] == s[a + 1];
      WithoutMembers(t, x);
      assert s[0] !in t;
      if s[0] != x {
        PushUnique(Without(t, x), s[0]);
      }
    }
  }

  lemma PushUnique(s: seq<nat>, x: nat)
    requires NoDuplicates(s) && x !in s
    ensures NoDuplicates([x] + s)
  {
    var t := [x] + s;
    forall a, b | 0 <= a < b < |t|
      ensures t[a] != t[b]
    {
      assert t[b] == s[b - 1];
      assert a > 0 ==> t[a] == s[a - 1];
    }
  }

  // ----- the four ways a block changes hands -----

  /** The pages of a block are exactly the pages that belong to it. */
  lemma BlockIsOwn(p: Pool, own: seq<Owner>, i: nat)
    requires Tiles(p, own) && i < |own| && own[i].start == i
    ensures i + Pow2(own[i].order) <= |own| && own[i].order <= p.maxOrder && Aligned(i, own[i].order)
    ensures forall x :: 0 <= x < |own| ==> (i <= x < i + Pow2(own[i].order) <==> own[x] == own[i])
  {
    assert InBlock(p, own, i);
    forall x | 0 <= x < |own|
      ensures i <= x < i + Pow2(own[i].order) <==> own[x] == own[i]
    {
      assert InBlock(p, own, x);
    }
  }

  /** Re-labelling a whole block leaves every other block as it was. */
  lemma OthersKeepBlock(p: Pool, own: seq<Owner>, p': Pool, own': seq<Owner>, x: nat)
    requires Tiles(p, own) && |own'| == |own| && p'.maxOrder == p.maxOrder && x < |own|
    requires forall y :: 0 <= y < |own| && own[y] == own[x] ==> own'[y] == own[y]
    ensures InBlock(p', own', x)
  {
    assert InBlock(p, own, x);
  }

  /** buddy_alloc pops the head of a list: a free block comes into hand. */
  lemma TakeKeeps(p: Pool, own: seq<Owner>, i: nat, k: nat, p': Pool, own': seq<Owner>)
    requires Structure(p, own) && k < ORDERS && i in p.lists[k]
    requires p' == p.(lists := Unlink(p.lists, k, i))
    requires own' == Fill(own, i, Pow2(k), Owner(i, k, false))
    ensures Structure(p', own') && InHand(own', i, k)
  {
    assert Listed(own, p.lists[k], k);
    BlockIsOwn(p, own, i);
    WithoutMembers(p.lists[k], i);
    forall x | 0 <= x < |own|
      ensures InBlock(p', own', x)
    {
      if own[x] != own[i] {
        OthersKeepBlock(p, own, p', own', x);
      }
    }
    forall m | 0 <= m < ORDERS
      ensures Listed(own', p'.lists[m], m)
    {
      assert Listed(own, p.lists[m], m);
    }
  }

  /** A split: the upper half of the block in hand goes on the list below. */
  lemma HalveKeeps(p: Pool, own: seq<Owner>, i: nat, k: nat, p': Pool, own': seq<Owner>)
    requires Structure(p, own) && 0 < k <= p.maxOrder && InHand(own, i, k)
    requires p' == p.(lists := Push(p.lists, k - 1, i + Pow2(k - 1)))
    requires own' == HalvedOwn(own, i, k)
    ensures Structure(p', own') && InHand(own', i, k - 1)
  {
    hide InBlock, HalvedOwn, NoDuplicates;
    HalvesTile(p, own, i, k, p', own');
    forall m | 0 <= m < ORDERS
      ensures Listed(own', p'.lists[m], m)
    {
      HalvesListed(p, own, i, k, p', own', m);
    }
  }

  lemma HalvesTile(p: Pool, own: seq<Owner>, i: nat, k: nat, p': Pool, own': seq<Owner>)
    requires Structure(p, own) && 0 < k <= p.maxOrder && InHand(own, i, k)
    requires p'.maxOrder == p.maxOrder && own' == HalvedOwn(own, i, k)
    ensures Tiles(p', own') && InHand(own', i, k - 1)
  {
    BlockIsOwn(p, own, i);
    AlignedDown(i, k - 1, k);
    Pow2Aligned(k - 1, k - 1);
    AlignedAdd(i, Pow2(k - 1), k - 1);
    forall x | 0 <= x < |own|
      ensures InBlock(p', own', x)
    {
      if own[x] != own[i] {
        OthersKeepBlock(p, own, p', own', x);
      }
    }
  }

  lemma HalvesListed(p: Pool, own: seq<Owner>, i: nat, k: nat, p': Pool, own': seq<Owner>, m: nat)
    requires Structure(p, own) && 0 < k <= p.maxOrder && InHand(own, i, k) && m < ORDERS
    requires p' == p.(lists := Push(p.lists, k - 1, i + Pow2(k - 1))) && own' == HalvedOwn(own, i, k)
    ensures Listed(own', p'.lists[m], m)
  {
    BlockIsOwn(p, own, i);
    assert Listed(own, p.lists[m], m);
    PushMembers(p.lists[m], i + Pow2(k - 1));
  }

  function HalvedOwn(own: seq<Owner>, i: nat, k: nat): (r: seq<Owner>)
    requires k > 0
    ensures |r| == |own|
  {
    Fill(Fill(own, i, Pow2(k), Owner(i + Pow2(k - 1), k - 1, true)), i, Pow2(k - 1), Owner(i, k - 1, false))
  }

  lemma PushMembers(s: seq<nat>, x: nat)
    ensures forall y: nat :: y in [x] + s <==> y == x || y in s
    ensures NoDuplicates(s) && x !in s ==> NoDuplicates([x] + s)
  {
    if NoDuplicates(s) && x !in s {
      PushUnique(s, x);
    }
  }

  function JoinedOwn(own: seq<Owner>, i: nat, k: nat): (r: seq<Owner>)
    ensures |r| == |own|
  {
    Fill(own, Lower(i, k), Pow2(k + 1), Owner(Lower(i, k), k + 1, false))
  }

  /** A merge: the free buddy is unlinked and the block in hand doubles. */
  lemma JoinKeeps(p: Pool, own: seq<Owner>, i: nat, k: nat, p': Pool, own': seq<Owner>)
    requires Structure(p, own) && k < p.maxOrder && InHand(own, i, k) && Buddy(i, k) in p.lists[k]
    requires p' == p.(lists := Unlink(p.lists, k, Buddy(i, k)), bits := p'.bits) && |p'.bits| == |p.bits|
    requires own' == JoinedOwn(own, i, k)
    ensures Structure(p', own') && InHand(own', Lower(i, k), k + 1)
  {
    var b, l := Buddy(i, k), Lower(i, k);
    assert Listed(own, p.lists[k], k);
    BlockIsOwn(p, own, i);
    BlockIsOwn(p, own, b);
    BuddyIsOtherHalf(i, k);
    WithoutMembers(p.lists[k], b);
    forall x | 0 <= x < |own|
      ensures InBlock(p', own', x)
    {
      if own[x] != own[i] && own[x] != own[b] {
        OthersKeepBlock(p, own, p', own', x);
      }
    }
    forall m | 0 <= m < ORDERS
      ensures Listed(own', p'.lists[m], m)
    {
      assert Listed(own, p.lists[m], m);
    }
  }

  /** The block in hand goes on the list of its order. */
  lemma ReleaseKeeps(p: Pool, own: seq<Owner>, i: nat, k: nat, p': Pool, own': seq<Owner>)
    requires Structure(p, own) && k <= p.maxOrder && InHand(own, i, k)
    requires p' == p.(lists := Push(p.lists, k, i))
    requires own' == Fill(own, i, Pow2(k), Owner(i, k, true))
    ensures Structure(p', own')
  {
    BlockIsOwn(p, own, i);
    forall x | 0 <= x < |own|
      ensures InBlock(p', own', x)
    {
      if own[x] != own[i] {
        OthersKeepBlock(p, own, p', own', x);
      }
    }
    forall m | 0 <= m < ORDERS
      ensures Listed(own', p'.lists[m], m)
    {
      assert Listed(own, p.lists[m], m);
      PushMembers(p.lists[m], i);
    }
  }

  // ----- the bitmap side of the invariant -----

  /** List nodes are aligned blocks inside the pool. */
  lemma NodeIsBlock(p: Pool, own: seq<Owner>, i: nat, k: nat)
    requires Structure(p, own) && k < ORDERS && i in p.lists[k]
    ensures k <= p.maxOrder && Aligned(i, k) && i + Pow2(k) <= p.pages
    ensures forall x :: 0 <= x < |own| ==> (i <= x < i + Pow2(k) <==> own[x] == Owner(i, k, true))
    ensures Buddy(Buddy(i, k), k) == i
  {
    assert Listed(own, p.lists[k], k);
    BlockIsOwn(p, own, i);
    BuddyIsOtherHalf(i, k);
  }

  /** Pushing a node keeps the absence of clear buddies unless the node itself has one. */
  lemma PushKeepsNoClearBuddies(p: Pool, own': seq<Owner>, i: nat, k: nat, p': Pool)
    requires p.Shaped() && NoClearBuddies(p) && k <= p.maxOrder
    requires p' == p.(lists := Push(p.lists, k, i)) && Structure(p', own')
    requires AllClear(p.bits, i, k) ==> !Mergeable(p, i, k)
    ensures NoClearBuddies(p')
  {
    forall m, j | 0 <= m < p'.maxOrder && j in p'.lists[m] && AllClear(p'.bits, j, m)
      ensures !Mergeable(p', j, m)
    {
      NodeIsBlock(p', own', j, m);
      BuddyIsOtherHalf(j, m);
      PushMembers(p.lists[k], i);
    }
  }

  /** Fewer nodes and more set bits cannot create a pair of clear buddies. */
  lemma FewerNodesKeepNoClearBuddies(p: Pool, p': Pool)
    requires p.Shaped() && p'.Shaped() && NoClearBuddies(p) && p'.maxOrder == p.maxOrder && |p'.bits| == |p.bits|
    requires forall k, i :: 0 <= k < p.maxOrder && i in p'.lists[k] ==> i in p.lists[k]
    requires forall x :: 0 <= x < |p.bits| && p.bits[x] ==> p'.bits[x]
    ensures NoClearBuddies(p')
  {
    forall m, j | 0 <= m < p'.maxOrder && j in p'.lists[m] && AllClear(p'.bits, j, m)
      ensures !Mergeable(p', j, m)
    {
      assert AllClear(p.bits, j, m) && !Mergeable(p, j, m);
      if AllClear(p'.bits, Buddy(j, m), m) {
        assert AllClear(p.bits, Buddy(j, m), m);
      }
    }
  }

  // ----- buddy_alloc -----

  function SplitOwn(own: seq<Owner>, i: nat, k: nat, order: nat): (r: seq<Owner>)
    requires order <= k
    ensures |r| == |own|
    decreases k
  {
    if k == order then own else SplitOwn(HalvedOwn(own, i, k), i, k - 1, order)
  }

  /** One turn of the splitting loop. */
  lemma HalveAgain(p: Pool, own: seq<Owner>, i: nat, k: nat, p1: Pool, own1: seq<Owner>)
    requires Structure(p, own) && 0 < k <= p.maxOrder && InHand(own, i, k) && NoClearBuddies(p)
    requires p1 == p.(lists := Push(p.lists, k - 1, i + Pow2(k - 1))) && own1 == HalvedOwn(own, i, k)
    ensures Structure(p1, own1) && InHand(own1, i, k - 1) && NoClearBuddies(p1)
    ensures forall x :: 0 <= x < |own| ==>
      if own[x] != Owner(i, k, false) then own1[x] == own[x] != Owner(i, k - 1, false)
      else own1[x].free || own1[x] == Owner(i, k - 1, false)
  {
    hide Tiles, Aligned, AllClear;
    var h := i + Pow2(k - 1);
    HalveKeeps(p, own, i, k, p1, own1);
    BlockIsOwn(p, own, i);
    assert h in p1.lists[k - 1];
    NodeIsBlock(p1, own1, h, k - 1);
    BlockIsOwn(p1, own1, i);
    BuddyIsOtherHalf(i, k - 1);
    assert Listed(own, p.lists[k - 1], k - 1);
    PushKeepsNoClearBuddies(p, own1, h, k - 1, p1);
  }

  lemma {:induction false} SplitKeeps(p: Pool, own: seq<Owner>, i: nat, k: nat, order: nat)
    requires Structure(p, own) && order <= k <= p.maxOrder && InHand(own, i, k) && NoClearBuddies(p)
    ensures
      var p' := p.(lists := SplitDown(p.lists, i, k, order));
      var own' := SplitOwn(own, i, k, order);
      && Structure(p', own') && InHand(own', i, order) && NoClearBuddies(p')
      && forall x :: 0 <= x < |own| ==>
           if own[x] != Owner(i, k, false) then own'[x] == own[x]
           else own'[x].free || own'[x] == Owner(i, order, false)
    decreases k
  {
    assert p.Shaped() && |own| == p.pages;
    hide Structure, NoClearBuddies, HalvedOwn;
    if k > order {
      var p1 := p.(lists := Push(p.lists, k - 1, i + Pow2(k - 1)));
      var own1 := HalvedOwn(own, i, k);
      HalveAgain(p, own, i, k, p1, own1);
      SplitKeeps(p1, own1, i, k - 1, order);
    }
  }

  function AllocOwn(p: Pool, own: seq<Owner>, order: nat): (r: seq<Owner>)
    requires p.Shaped()
    ensures |r| == |own|
  {
    if CanServe(p, order) then
      var (i, k) := Source(p, order);
      SplitOwn(Fill(own, i, Pow2(k), Owner(i, k, false)), i, k, order)
    else own
  }

  lemma AllocRefused(p: Pool, own: seq<Owner>, order: nat)
    requires p.Shaped()
    ensures !CanServe(p, order) ==> Alloc(p, order).0 == p && AllocOwn(p, own, order) == own
  {
  }

  /** The handed-out blocks: first page to order. */
  function Live(own: seq<Owner>): (r: map<nat, nat>) {
    map i: nat | i < |own| && own[i].start == i && !own[i].free :: own[i].order
  }

  /** Marking the block in hand restores the whole invariant. */
  lemma MarkKeeps(p: Pool, own: seq<Owner>, i: nat, order: nat, p': Pool)
    requires Structure(p, own) && InHand(own, i, order) && NoClearBuddies(p) && TailClear(p)
    requires LiveBitsSet(p, own, Owner(i, order, false))
    requires p' == p.(bits := Fill(p.bits, i, Pow2(order), true))
    ensures Inv(p', own)
  {
    BlockIsOwn(p, own, i);
    FewerNodesKeepNoClearBuddies(p, p');
    forall x | 0 <= x < |own| ensures InBlock(p', own, x) { assert InBlock(p, own, x); }
  }

  lemma TakenIsInHand(p: Pool, own: seq<Owner>, i: nat, k: nat, p': Pool, own': seq<Owner>)
    requires Inv(p, own) && k <= p.maxOrder && p.lists[k] != [] && i == p.lists[k][0]
    requires p' == p.(lists := p.lists[k := p.lists[k][1..]]) && own' == Fill(own, i, Pow2(k), Owner(i, k, false))
    ensures Structure(p', own') && InHand(own', i, k) && NoClearBuddies(p') && TailClear(p')
    ensures LiveBitsSet(p', own', Owner(i, k, false))
    ensures forall x :: 0 <= x < |own| ==>
      if own[x] == Owner(i, k, true) then own'[x] == Owner(i, k, false)
      else own'[x] == own[x] && own'[x] != Owner(i, k, false)
  {
    assert p' == p.(lists := Unlink(p.lists, k, i));
    NodeIsBlock(p, own, i, k);
    TakeKeeps(p, own, i, k, p', own');
    WithoutMembersOf(p, own, k, i);
    FewerNodesKeepNoClearBuddies(p, p');
    BlockIsOwn(p', own', i);
  }

  lemma AllocKeeps(p: Pool, own: seq<Owner>, order: nat)
    requires Inv(p, own)
    ensures Inv(Alloc(p, order).0, AllocOwn(p, own, order))
    ensures Alloc(p, order).1.Some? ==>
      var i := Alloc(p, order).1.value;
      && InHand(AllocOwn(p, own, order), i, order)
      && i !in Live(own)
      && Live(AllocOwn(p, own, order)) == Live(own)[i := order]
  {
    if CanServe(p, order) {
      var (i, k) := Source(p, order);
      var own1 := Fill(own, i, Pow2(k), Owner(i, k, false));
      var p1 := p.(lists := p.lists[k := p.lists[k][1..]]);
      TakenIsInHand(p, own, i, k, p1, own1);
      SplitKeeps(p1, own1, i, k, order);
      var p2 := p1.(lists := SplitDown(p1.lists, i, k, order));
      var own2 := SplitOwn(own1, i, k, order);
      MarkKeeps(p2, own2, i, order, Alloc(p, order).0);
      NodeIsBlock(p, own, i, k);
      AllocLive(p, own, i, k, own1, own2, order);
    }
  }

  lemma AllocLive(p: Pool, own: seq<Owner>, i: nat, k: nat, own1: seq<Owner>, own2: seq<Owner>, order: nat)
    requires Structure(p, own) && i < |own| && own[i] == Owner(i, k, true)
    requires |own1| == |own| && |own2| == |own| && own2[i] == Owner(i, order, false)
    requires forall x :: 0 <= x < |own| ==>
      if own[x] == Owner(i, k, true) then own1[x] == Owner(i, k, false)
      else own1[x] == own[x] && own1[x] != Owner(i, k, false)
    requires forall x :: 0 <= x < |own| ==>
      if own1[x] != Owner(i, k, false) then own2[x] == own1[x]
      else own2[x].free || own2[x] == Owner(i, order, false)
    ensures i !in Live(own) && Live(own2) == Live(own)[i := order]
  {
  }

  // ----- buddy_dealloc -----

  function MergeOwn(p: Pool, own: seq<Owner>, i: nat, k: nat): (r: seq<Owner>)
    requires p.Shaped() && k <= p.maxOrder
    ensures |r| == |own|
    decreases p.maxOrder - k
  {
    if Mergeable(p, i, k) then MergeOwn(Absorb(p, i, k), JoinedOwn(own, i, k), Lower(i, k), k + 1)
    else Fill(own, i, Pow2(k), Owner(i, k, true))
  }

  /** The state of the merge loop: everything but the bits of the block in hand is as it should be. */
  ghost predicate Merging(p: Pool, own: seq<Owner>, i: nat, k: nat) {
    && Structure(p, own) && k <= p.maxOrder && InHand(own, i, k)
    && LiveBitsSet(p, own, Owner(i, k, false)) && NoClearBuddies(p) && TailClear(p)
  }

  lemma AbsorbKeeps(p: Pool, own: seq<Owner>, i: nat, k: nat)
    requires Merging(p, own, i, k) && Mergeable(p, i, k)
    ensures Merging(Absorb(p, i, k), JoinedOwn(own, i, k), Lower(i, k), k + 1)
    ensures Aligned(i, k) && Aligned(Lower(i, k), k + 1)
    ensures forall x :: 0 <= x < |own| ==>
      (Lower(i, k) <= x < Lower(i, k) + Pow2(k + 1)
       <==> own[x] == Owner(i, k, false) || own[x] == Owner(Buddy(i, k), k, true))
  {
    var p' := Absorb(p, i, k);
    JoinKeeps(p, own, i, k, p', JoinedOwn(own, i, k));
    NodeIsBlock(p, own, Buddy(i, k), k);
    BlockIsOwn(p, own, i);
    BuddyIsOtherHalf(i, k);
    WithoutMembersOf(p, own, k, Buddy(i, k));
    FewerNodesKeepNoClearBuddies(p, p');
  }

  lemma WithoutMembersOf(p: Pool, own: seq<Owner>, k: nat, x: nat)
    requires Structure(p, own) && k < ORDERS
    ensures forall y: nat :: y in Without(p.lists[k], x) <==> y in p.lists[k] && y != x
  {
    assert Listed(own, p.lists[k], k);
    WithoutMembers(p.lists[k], x);
  }

  lemma AbsorbedOwners(p: Pool, own: seq<Owner>, i: nat, k: nat)
    requires Merging(p, own, i, k) && Mergeable(p, i, k)
    ensures forall x :: 0 <= x < |own| ==>
      if own[x] == Owner(i, k, false) || own[x] == Owner(Buddy(i, k), k, true)
      then JoinedOwn(own, i, k)[x] == Owner(Lower(i, k), k + 1, false)
      else JoinedOwn(own, i, k)[x] == own[x] != Owner(Lower(i, k), k + 1, false)
  {
    assert p.Shaped() && k < p.maxOrder;
    hide Structure, NoClearBuddies, Mergeable;
    AbsorbKeeps(p, own, i, k);
    BlockInHand(Absorb(p, i, k), JoinedOwn(own, i, k), Lower(i, k), k + 1);
  }

  lemma BlockInHand(p: Pool, own: seq<Owner>, i: nat, k: nat)
    requires Merging(p, own, i, k)
    ensures forall x :: 0 <= x < |own| ==> (i <= x < i + Pow2(k) <==> own[x] == Owner(i, k, false))
  {
    BlockIsOwn(p, own, i);
  }

  /** The last step of a merge: the block becomes free. */
  lemma InsertKeeps(p: Pool, own: seq<Owner>, i: nat, k: nat)
    requires Merging(p, own, i, k) && !Mergeable(p, i, k)
    ensures Inv(Merge(p, i, k), MergeOwn(p, own, i, k))
    ensures forall x :: 0 <= x < |own| ==>
      if own[x] == Owner(i, k, false) then MergeOwn(p, own, i, k)[x].free else MergeOwn(p, own, i, k)[x] == own[x]
  {
    var p', own' := Merge(p, i, k), MergeOwn(p, own, i, k);
    BlockInHand(p, own, i, k);
    BlockIsOwn(p, own, i);
    ReleaseKeeps(p, own, i, k, p', own');
    PushKeepsNoClearBuddies(p, own', i, k, p');
  }

  /** What becomes of owners over an absorption, which makes c of a and b, and the merge after it. */
  lemma OwnersThrough(own: seq<Owner>, own1: seq<Owner>, own2: seq<Owner>, a: Owner, b: Owner, c: Owner)
    requires |own| == |own1| == |own2| && b.free
    requires forall x :: 0 <= x < |own| ==>
      if own[x] == a || own[x] == b then own1[x] == c else own1[x] == own[x] != c
    requires forall x :: 0 <= x < |own| ==>
      if own1[x].free || own1[x] == c then own2[x].free else own2[x] == own1[x]
    ensures forall x :: 0 <= x < |own| ==> if own[x].free || own[x] == a then own2[x].free else own2[x] == own[x]
  {
  }

  lemma MergeUnfolds(p: Pool, own: seq<Owner>, i: nat, k: nat)
    requires p.Shaped() && k <= p.maxOrder && Mergeable(p, i, k)
    ensures k < p.maxOrder && Absorb(p, i, k).Shaped() && Absorb(p, i, k).maxOrder == p.maxOrder
    ensures Merge(p, i, k) == Merge(Absorb(p, i, k), Lower(i, k), k + 1)
    ensures MergeOwn(p, own, i, k) == MergeOwn(Absorb(p, i, k), JoinedOwn(own, i, k), Lower(i, k), k + 1)
  {
    hide JoinedOwn, Buddy, Lower, Aligned, Pow2;
  }

  lemma {:induction false} MergeKeeps(p: Pool, own: seq<Owner>, i: nat, k: nat)
    requires Merging(p, own, i, k)
    ensures Inv(Merge(p, i, k), MergeOwn(p, own, i, k))
    ensures forall x :: 0 <= x < |own| ==>
      if own[x].free || own[x] == Owner(i, k, false) then MergeOwn(p, own, i, k)[x].free
      else MergeOwn(p, own, i, k)[x] == own[x]
    decreases p.maxOrder - k
  {
    assert p.Shaped() && k <= p.maxOrder && |own| == p.pages && (Mergeable(p, i, k) ==> k < p.maxOrder);
    hide Merging, Inv, JoinedOwn, Absorb, Mergeable, Lower, Buddy, Merge, MergeOwn, Aligned, Pow2;
    if Mergeable(p, i, k) {
      MergeUnfolds(p, own, i, k);
      var p1, own1, low := Absorb(p, i, k), JoinedOwn(own, i, k), Lower(i, k);
      AbsorbKeeps(p, own, i, k);
      AbsorbedOwners(p, own, i, k);
      MergeKeeps(p1, own1, low, k + 1);
      var own2 := MergeOwn(p1, own1, low, k + 1);
      OwnersThrough(own, own1, own2, Owner(i, k, false), Owner(Buddy(i, k), k, true), Owner(low, k + 1, false));
    } else {
      InsertKeeps(p, own, i, k);
    }
  }

  function DeallocOwn(p: Pool, own: seq<Owner>, i: nat, order: nat): (r: seq<Owner>)
    requires p.Shaped() && order <= p.maxOrder
    ensures |r| == |own|
  {
    MergeOwn(Cleared(p, i, order), own, i, order)
  }

  lemma ClearedIsMerging(p: Pool, own: seq<Owner>, i: nat, order: nat)
    requires Inv(p, own) && InHand(own, i, order)
    ensures Merging(Cleared(p, i, order), own, i, order)
  {
    var p' := Cleared(p, i, order);
    BlockIsOwn(p, own, i);
    assert Tiles(p', own) by {
      forall x | 0 <= x < |own| ensures InBlock(p', own, x) { assert InBlock(p, own, x); }
    }
    forall m, j | 0 <= m < p'.maxOrder && j in p'.lists[m] && AllClear(p'.bits, j, m)
      ensures !Mergeable(p', j, m)
    {
      ClearedLeavesNode(p, own, i, order, j, m);
      if Buddy(j, m) in p.lists[m] {
        ClearedLeavesNode(p, own, i, order, Buddy(j, m), m);
      }
    }
  }

  /** Freeing a block does not touch the bits of a free-list node. */
  lemma ClearedLeavesNode(p: Pool, own: seq<Owner>, i: nat, order: nat, j: nat, m: nat)
    requires Structure(p, own) && InHand(own, i, order) && m < ORDERS && j in p.lists[m]
    ensures AllClear(Cleared(p, i, order).bits, j, m) == AllClear(p.bits, j, m)
  {
    BlockIsOwn(p, own, i);
    NodeIsBlock(p, own, j, m);
    var bits := Cleared(p, i, order).bits;
    forall x | j <= x < j + Pow2(m)
      ensures bits[x] == p.bits[x]
    {
      assert own[x] == Owner(j, m, true);
    }
  }

  lemma DeallocKeeps(p: Pool, own: seq<Owner>, i: nat, order: nat)
    requires Inv(p, own) && InHand(own, i, order) && order <= p.maxOrder
    ensures Inv(Dealloc(p, i, order), DeallocOwn(p, own, i, order))
    ensures Live(DeallocOwn(p, own, i, order)) == Live(own) - {i}
  {
    hide Merge, LiveBitsSet, NoClearBuddies, TailClear, Tiles, Listed;
    ClearedIsMerging(p, own, i, order);
    MergeKeeps(Cleared(p, i, order), own, i, order);
    BlockIsOwn(p, own, i);
  }
}
