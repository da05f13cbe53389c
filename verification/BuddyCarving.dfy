/** The pool as buddy_init leaves it: the pages carved into blocks of decreasing order. */
module BuddyCarving {
  import opened Common
  import opened PowersOfTwo
  import opened Bitmap
  import opened BuddyPool
  import opened BuddyInvariant

  /** The carving loop: the largest block that still fits, again and again. */
  function Carve(lists: seq<seq<nat>>, at: nat, remaining: nat): (r: seq<seq<nat>>)
    requires |lists| == ORDERS
    requires remaining > 0 ==> FloorLog2(remaining) < ORDERS
    ensures |r| == ORDERS
    decreases remaining
  {
    if remaining == 0 then lists
    else
      var k := FloorLog2(remaining);
      RestIsSmaller(remaining);
      Carve(Push(lists, k, at), at + Pow2(k), remaining - Pow2(k))
  }

  lemma RestIsSmaller(n: nat)
    requires n > 0
    ensures n - Pow2(FloorLog2(n)) < Pow2(FloorLog2(n))
    ensures n > Pow2(FloorLog2(n)) ==> FloorLog2(n - Pow2(FloorLog2(n))) < FloorLog2(n)
  {
    var k := FloorLog2(n);
    var rest := n - Pow2(k);
    if rest > 0 && FloorLog2(rest) >= k {
      Pow2Monotone(k, FloorLog2(rest));
    }
  }

  const EMPTY: seq<seq<nat>> := seq(ORDERS, _ => [])

  /** Pages, and a map of mapBits bits, all clear. */
  function InitialPool(pages: nat, mapBits: nat): (r: Pool)
    requires 0 < pages && FloorLog2(pages) < ORDERS - 1
    ensures r.Shaped() && r.pages == pages && r.maxOrder == FloorLog2(pages) && |r.bits| == mapBits
  {
    Pool(pages, FloorLog2(pages), Carve(EMPTY, 0, pages), seq(mapBits, _ => false))
  }

  function CarveOwn(own: seq<Owner>, remaining: nat): (r: seq<Owner>)
    ensures |r| == |own| + remaining
    decreases remaining
  {
    if remaining == 0 then own
    else
      var k := FloorLog2(remaining);
      CarveOwn(own + seq(Pow2(k), _ => Owner(|own|, k, true)), remaining - Pow2(k))
  }

  /** Each list holds at most one node, and none below order m. */
  ghost predicate OneEach(lists: seq<seq<nat>>, m: nat) {
    forall k :: 0 <= k < |lists| ==> |lists[k]| <= 1 && (k < m ==> lists[k] == [])
  }

  /** Appending one aligned block to a tiled prefix. */
  lemma AppendKeeps(p: Pool, own: seq<Owner>, k: nat, p': Pool, own': seq<Owner>)
    requires Structure(p, own) && k <= p.maxOrder && Aligned(p.pages, k) && p.pages + Pow2(k) <= |p.bits|
    requires p' == p.(pages := p.pages + Pow2(k), lists := Push(p.lists, k, p.pages))
    requires own' == own + seq(Pow2(k), _ => Owner(|own|, k, true))
    ensures Structure(p', own')
  {
    var i := |own|;
    forall x | 0 <= x < |own'|
      ensures InBlock(p', own', x)
    {
      if x < i {
        assert InBlock(p, own, x);
        assert own'[x] == own[x];
      }
    }
    forall m | 0 <= m < ORDERS
      ensures Listed(own', p'.lists[m], m)
    {
      assert Listed(own, p.lists[m], m);
      PushMembers(p.lists[m], i);
      forall j: nat
        ensures j in p'.lists[m] <==> j < |own'| && own'[j] == Owner(j, m, true)
      {
        if j < i {
          assert own'[j] == own[j];
        }
      }
    }
  }

  lemma {:induction false} CarveKeeps(p: Pool, own: seq<Owner>, remaining: nat, m: nat)
    requires Structure(p, own) && Aligned(p.pages, m) && remaining < Pow2(m) && m <= p.maxOrder + 1
    requires p.pages + remaining <= |p.bits| && OneEach(p.lists, m)
    ensures remaining > 0 ==> FloorLog2(remaining) < m
    ensures
      var p' := p.(pages := p.pages + remaining, lists := Carve(p.lists, p.pages, remaining));
      Structure(p', CarveOwn(own, remaining)) && OneEach(p'.lists, 0)
    decreases remaining
  {
    hide Structure, OneEach, Aligned, Push;
    if remaining > 0 {
      OrderBelow(remaining, m);
      StructureShapes(p, own);
      var k := FloorLog2(remaining);
      var p1 := p.(pages := p.pages + Pow2(k), lists := Push(p.lists, k, p.pages));
      var own1 := own + seq(Pow2(k), _ => Owner(|own|, k, true));
      OneCarving(p, own, remaining, m, p1, own1);
      CarveKeeps(p1, own1, remaining - Pow2(k), k);
    } else {
      OneEachFromBelow(p.lists, m);
    }
  }

  lemma StructureShapes(p: Pool, own: seq<Owner>)
    requires Structure(p, own)
    ensures p.Shaped() && |own| == p.pages <= |p.bits|
  {
  }

  lemma OneEachFromBelow(lists: seq<seq<nat>>, m: nat)
    requires OneEach(lists, m)
    ensures OneEach(lists, 0)
  {
  }

  /** One turn of the carving loop. */
  lemma OneCarving(p: Pool, own: seq<Owner>, remaining: nat, m: nat, p1: Pool, own1: seq<Owner>)
    requires Structure(p, own) && Aligned(p.pages, m) && 0 < remaining < Pow2(m) && m <= p.maxOrder + 1
    requires p.pages + remaining <= |p.bits| && OneEach(p.lists, m)
    requires FloorLog2(remaining) < |p.lists|
    requires p1 == p.(pages := p.pages + Pow2(FloorLog2(remaining)),
                      lists := Push(p.lists, FloorLog2(remaining), p.pages))
    requires own1 == own + seq(Pow2(FloorLog2(remaining)), _ => Owner(|own|, FloorLog2(remaining), true))
    ensures
      var k := FloorLog2(remaining);
      && k < m && Structure(p1, own1) && Aligned(p1.pages, k) && remaining - Pow2(k) < Pow2(k)
      && |own| == p.pages && OneEach(p1.lists, k)
  {
    hide Aligned, Tiles, Listed;
    var k := FloorLog2(remaining);
    OrderBelow(remaining, m);
    RestIsSmaller(remaining);
    AlignedDown(p.pages, k, m);
    AppendKeeps(p, own, k, p1, own1);
    Pow2Aligned(k, k);
    AlignedAdd(p.pages, Pow2(k), k);
  }

  /** The largest block fits below order m, so it has a list. */
  lemma OrderBelow(remaining: nat, m: nat)
    requires 0 < remaining < Pow2(m)
    ensures FloorLog2(remaining) < m
  {
    if FloorLog2(remaining) >= m {
      Pow2Monotone(m, FloorLog2(remaining));
    }
  }

  lemma {:induction false} CarveAllFree(own: seq<Owner>, remaining: nat)
    requires forall x :: 0 <= x < |own| ==> own[x].free
    ensures forall x :: 0 <= x < |own| + remaining ==> CarveOwn(own, remaining)[x].free
    decreases remaining
  {
    if remaining > 0 {
      var k := FloorLog2(remaining);
      CarveAllFree(own + seq(Pow2(k), _ => Owner(|own|, k, true)), remaining - Pow2(k));
    }
  }

  lemma {:induction false} ZeroAligned(k: nat)
    ensures Aligned(0, k)
  {
    if k > 0 {
      ZeroAligned(k - 1);
    }
  }

  /** The carved pool meets the invariant, for any number of pages, with every page free. */
  lemma InitialInv(pages: nat, mapBits: nat)
    requires 0 < pages <= mapBits && FloorLog2(pages) < ORDERS - 1
    ensures Inv(InitialPool(pages, mapBits), CarveOwn([], pages))
    ensures Live(CarveOwn([], pages)) == map[]
  {
    hide Carve, CarveOwn, Aligned;
    var p := InitialPool(pages, mapBits);
    var p0 := Pool(0, p.maxOrder, EMPTY, p.bits);
    ZeroAligned(p.maxOrder + 1);
    forall k | 0 <= k < ORDERS ensures Listed([], EMPTY[k], k) { }
    CarveKeeps(p0, [], pages, p.maxOrder + 1);
    CarveAllFree([], pages);
    forall k, i | 0 <= k < p.maxOrder && i in p.lists[k] && AllClear(p.bits, i, k)
      ensures !Mergeable(p, i, k)
    {
      NodeIsBlock(p, CarveOwn([], pages), i, k);
      BuddyIsOtherHalf(i, k);
    }
  }

  lemma RestKeepsLowBit(n: nat)
    requires n > 0 && n != Pow2(FloorLog2(n))
    ensures n > Pow2(FloorLog2(n)) && LowBit(n - Pow2(FloorLog2(n))) == LowBit(n)
    ensures LowBit(n) < FloorLog2(n)
  {
    var k, c := FloorLog2(n), LowBit(n);
    var rest := n - Pow2(k);
    LowBitOfPower(n);
    Pow2Aligned(k, c);
    Pow2Aligned(k, c + 1);
    AlignedAdd(rest, Pow2(k), c);
    AlignedAdd(rest, Pow2(k), c + 1);
    LowBitUnique(rest, c);
  }

  /** The last block carved is the one of the lowest set bit, alone on its list. */
  lemma {:induction false} LastBlock(lists: seq<seq<nat>>, at: nat, remaining: nat)
    requires |lists| == ORDERS && remaining > 0 && FloorLog2(remaining) < ORDERS
    requires LowBit(remaining) < ORDERS && lists[LowBit(remaining)] == []
    ensures Pow2(LowBit(remaining)) <= remaining
    ensures Carve(lists, at, remaining)[LowBit(remaining)] == [at + remaining - Pow2(LowBit(remaining))]
    decreases remaining
  {
    var k := FloorLog2(remaining);
    RestIsSmaller(remaining);
    if remaining == Pow2(k) {
      LowBitOfPower(remaining);
    } else {
      RestKeepsLowBit(remaining);
      LastBlock(Push(lists, k, at), at + Pow2(k), remaining - Pow2(k));
    }
  }
}
