/** The virtual heap as a value: consecutive extents of whole pages, each free or handed out, and the
    first-fit allocation and two-sided coalescing of vmalloc.c and vfree.c on them. */
module HeapExtents {

  /** pages pages of the heap from page on. */
  datatype Extent = Extent(page: nat, pages: nat, free: bool)

  function End(e: Extent): (p: nat) {
    e.page + e.pages
  }

  /** The extents tile [from, to) in address order, none is empty, and no two free ones touch. */
  predicate Tiles(s: seq<Extent>, from: nat, to: nat)
    decreases |s|
  {
    if s == [] then from == to
    else
      && s[0].page == from && s[0].pages > 0
      && (|s| > 1 && s[0].free ==> !s[1].free)
      && Tiles(s[1..], End(s[0]), to)
  }

  /** Where a sequence that starts at from ends. */
  lemma {:induction false} TilesSplit(a: seq<Extent>, b: seq<Extent>, from: nat, to: nat)
    requires Tiles(a + b, from, to)
    ensures exists m :: Tiles(a, from, m) && Tiles(b, m, to)
    ensures a != [] && b != [] ==> !(a[|a| - 1].free && b[0].free)
    decreases |a|
  {
    if a == [] {
      assert a + b == b;
      assert Tiles(a, from, from);
    } else {
      assert (a + b)[1..] == a[1..] + b;
      TilesSplit(a[1..], b, End(a[0]), to);
      var m :| Tiles(a[1..], End(a[0]), m) && Tiles(b, m, to);
      assert Tiles(a, from, m);
    }
  }

  lemma {:induction false} TilesJoin(a: seq<Extent>, b: seq<Extent>, from: nat, m: nat, to: nat)
    requires Tiles(a, from, m) && Tiles(b, m, to)
    requires a != [] && b != [] ==> !(a[|a| - 1].free && b[0].free)
    ensures Tiles(a + b, from, to)
    decreases |a|
  {
    if a == [] {
      assert a + b == b;
    } else {
      assert (a + b)[1..] == a[1..] + b;
      TilesJoin(a[1..], b, End(a[0]), m, to);
    }
  }

  /** Extents lie between the ends of their tiling, in order. */
  lemma {:induction false} TilesOrdered(s: seq<Extent>, from: nat, to: nat, i: nat)
    requires Tiles(s, from, to) && i < |s|
    ensures from <= s[i].page && s[i].pages > 0 && End(s[i]) <= to
    ensures i > 0 ==> s[i].page == End(s[i - 1])
    ensures i > 0 ==> !(s[i - 1].free && s[i].free)
    ensures i == 0 ==> s[i].page == from
    ensures i == |s| - 1 ==> End(s[i]) == to
    decreases |s|
  {
    if i > 0 {
      TilesOrdered(s[1..], End(s[0]), to, i - 1);
    } else {
      TilesBounds(s[1..], End(s[0]), to);
    }
  }

  lemma {:induction false} TilesBounds(s: seq<Extent>, from: nat, to: nat)
    requires Tiles(s, from, to)
    ensures from <= to && (s == [] <==> from == to)
    decreases |s|
  {
    if s != [] {
      TilesBounds(s[1..], End(s[0]), to);
    }
  }

  // ----- first fit -----

  /** The first free extent of at least n pages, or |s|. */
  function FirstFit(s: seq<Extent>, n: nat): (i: nat)
    ensures i <= |s|
    ensures i < |s| ==> s[i].free && s[i].pages >= n
    ensures forall j :: 0 <= j < i ==> !(s[j].free && s[j].pages >= n)
  {
    if s == [] || (s[0].free && s[0].pages >= n) then 0 else 1 + FirstFit(s[1..], n)
  }

  /** Hand out the first n pages of the free extent e; what is left stays free. */
  function Carved(e: Extent, n: nat): (r: seq<Extent>)
    requires 0 < n <= e.pages
  {
    if n == e.pages then [Extent(e.page, n, false)]
    else [Extent(e.page, n, false), Extent(e.page + n, e.pages - n, true)]
  }

  function Allocate(s: seq<Extent>, i: nat, n: nat): (r: seq<Extent>)
    requires i < |s| && s[i].free && 0 < n <= s[i].pages
  {
    s[..i] + Carved(s[i], n) + s[i + 1..]
  }

  // ----- coalescing -----

  /** The extents before the freed one, without a free neighbour. */
  function LeftRest(left: seq<Extent>): (r: seq<Extent>) {
    if left != [] && left[|left| - 1].free then left[..|left| - 1] else left
  }

  function RightRest(right: seq<Extent>): (r: seq<Extent>) {
    if right != [] && right[0].free then right[1..] else right
  }

  /** The freed extent joined with the free neighbours. */
  function Merged(left: seq<Extent>, e: Extent, right: seq<Extent>): (r: Extent) {
    var l := if left != [] && left[|left| - 1].free then left[|left| - 1].pages else 0;
    var p := if left != [] && left[|left| - 1].free then left[|left| - 1].page else e.page;
    var r := if right != [] && right[0].free then right[0].pages else 0;
    Extent(p, l + e.pages + r, true)
  }

  function Release(s: seq<Extent>, i: nat): (r: seq<Extent>)
    requires i < |s|
  {
    LeftRest(s[..i]) + [Merged(s[..i], s[i], s[i + 1..])] + RightRest(s[i + 1..])
  }

  // ----- what they keep -----

  lemma Regroup(a: seq<Extent>, b: seq<Extent>, c: seq<Extent>)
    ensures a + (b + c) == a + b + c
  {
  }

  lemma FirstTile(e: Extent, s: seq<Extent>, from: nat, to: nat)
    requires Tiles([e] + s, from, to)
    ensures e.page == from && e.pages > 0 && Tiles(s, End(e), to) && (s != [] && e.free ==> !s[0].free)
  {
    assert ([e] + s)[1..] == s;
  }

  lemma PrependTile(e: Extent, s: seq<Extent>, to: nat)
    requires e.pages > 0 && Tiles(s, End(e), to) && (s != [] && e.free ==> !s[0].free)
    ensures Tiles([e] + s, e.page, to)
  {
    assert ([e] + s)[1..] == s;
  }

  lemma AllocateTiles(s: seq<Extent>, from: nat, to: nat, i: nat, n: nat)
    requires Tiles(s, from, to) && i < |s| && s[i].free && 0 < n <= s[i].pages
    ensures Tiles(Allocate(s, i, n), from, to)
  {
    hide Tiles, Carved;
    var left, e, right := s[..i], s[i], s[i + 1..];
    assert s == left + ([e] + right);
    TilesSplit(left, [e] + right, from, to);
    var m :| Tiles(left, from, m) && Tiles([e] + right, m, to);
    var c := Carved(e, n);
    CarvedTiles(e, n, right, m, to);
    TilesJoin(left, c + right, from, m, to);
    Regroup(left, c, right);
  }

  /** A free extent cut in two, or handed out whole, in front of the rest. */
  lemma CarvedTiles(e: Extent, n: nat, right: seq<Extent>, from: nat, to: nat)
    requires Tiles([e] + right, from, to) && e.free && 0 < n <= e.pages
    ensures Tiles(Carved(e, n) + right, from, to)
    ensures Carved(e, n) != [] && !(Carved(e, n) + right)[0].free
  {
    hide Tiles;
    FirstTile(e, right, from, to);
    var c := Carved(e, n);
    if n < e.pages {
      PrependTile(c[1], right, to);
      PrependTile(c[0], [c[1]] + right, to);
      assert c == [c[0]] + [c[1]];
      Regroup([c[0]], [c[1]], right);
    } else {
      PrependTile(c[0], right, to);
    }
  }

  lemma {:induction false} LastOf(s: seq<Extent>, from: nat, to: nat)
    requires Tiles(s, from, to) && s != []
    ensures Tiles(s[..|s| - 1], from, s[|s| - 1].page) && End(s[|s| - 1]) == to
    ensures |s| > 1 && s[|s| - 1].free ==> !s[|s| - 2].free
  {
    var a, z := s[..|s| - 1], s[|s| - 1];
    assert s == a + [z];
    TilesSplit(a, [z], from, to);
    var m :| Tiles(a, from, m) && Tiles([z], m, to);
    assert [z][1..] == [];
  }

  lemma LeftRestTiles(left: seq<Extent>, e: Extent, right: seq<Extent>, from: nat)
    requires Tiles(left, from, e.page)
    ensures Tiles(LeftRest(left), from, Merged(left, e, right).page)
    ensures LeftRest(left) != [] ==> !LeftRest(left)[|LeftRest(left)| - 1].free
    ensures Merged(left, e, right).page <= e.page
  {
    if left != [] {
      LastOf(left, from, e.page);
    }
  }

  lemma RightRestTiles(left: seq<Extent>, e: Extent, right: seq<Extent>, from: nat, to: nat)
    requires Tiles(left, from, e.page) && Tiles(right, End(e), to)
    ensures Tiles(RightRest(right), End(Merged(left, e, right)), to)
    ensures RightRest(right) != [] ==> !RightRest(right)[0].free
    ensures e.pages > 0 ==> Merged(left, e, right).pages > 0 && Merged(left, e, right).free
  {
    if left != [] {
      LastOf(left, from, e.page);
    }
  }

  lemma ReleaseTiles(s: seq<Extent>, from: nat, to: nat, i: nat)
    requires Tiles(s, from, to) && i < |s| && !s[i].free
    ensures Tiles(Release(s, i), from, to)
  {
    hide LeftRest, RightRest, Merged;
    var left, e, right := s[..i], s[i], s[i + 1..];
    assert s == left + ([e] + right);
    TilesSplit(left, [e] + right, from, to);
    LeftRestTiles(left, e, right, from);
    RightRestTiles(left, e, right, from, to);
    var l, x, r := LeftRest(left), Merged(left, e, right), RightRest(right);
    assert ([x] + r)[1..] == r;
    TilesJoin(l, [x] + r, from, x.page, to);
    assert l + ([x] + r) == Release(s, i);
  }

  /** Freeing an extent right after handing it out restores the heap exactly. */
  lemma ReleaseUndoesAllocate(s: seq<Extent>, from: nat, to: nat, i: nat, n: nat)
    requires Tiles(s, from, to) && i < |s| && s[i].free && 0 < n <= s[i].pages
    ensures Release(Allocate(s, i, n), i) == s
  {
    hide Tiles, Allocate, Carved, Merged, LeftRest, RightRest;
    var left, e, right := s[..i], s[i], s[i + 1..];
    var t := Allocate(s, i, n);
    TilesOrdered(s, from, to, i);
    if right != [] {
      TilesOrdered(s, from, to, i + 1);
    }
    AllocatedParts(s, i, n);
    CarvedMerges(left, e, right, n);
    assert s == left + [e] + right;
  }

  lemma AllocatedParts(s: seq<Extent>, i: nat, n: nat)
    requires i < |s| && s[i].free && 0 < n <= s[i].pages
    ensures var t, c := Allocate(s, i, n), Carved(s[i], n);
      i < |t| && t[..i] == s[..i] && t[i] == c[0] && t[i + 1..] == c[1..] + s[i + 1..]
  {
  }

  lemma CarvedMerges(left: seq<Extent>, e: Extent, right: seq<Extent>, n: nat)
    requires e.free && 0 < n <= e.pages && (left != [] ==> !left[|left| - 1].free) && (right != [] ==> !right[0].free)
    ensures var c := Carved(e, n);
      LeftRest(left) == left && Merged(left, c[0], c[1..] + right) == e && RightRest(c[1..] + right) == right
  {
    var c := Carved(e, n);
    if n < e.pages {
      assert c[1..] + right == [c[1]] + right;
    } else {
      assert c[1..] + right == right;
    }
  }
}
