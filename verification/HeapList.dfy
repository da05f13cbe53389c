/** The free list of the virtual heap in memory: every free extent starts with a node, every
    handed-out one with a header, in the first twelve bytes of its first page. */
module HeapList {
  import opened Common
  import opened HeapExtents

  const HEAP_START: nat := 0xD000_0000

  /** The first three words of a page: free_list_t is (size, next), block_header_t is (flags byte, size,
      magic), so size and flags share the first word and next and the header's size the second. */
  datatype Cell = Cell(w0: nat, w1: nat, w2: nat)

  /** What the mapped heap pages hold. */
  type View = map<nat, Cell>

  function AddressOf(page: nat): (a: nat) {
    HEAP_START + PAGE_SIZE * page
  }

  function PageAt(address: nat): (p: nat)
    requires address >= HEAP_START
  {
    (address - HEAP_START) / PAGE_SIZE
  }

  function Bytes(pages: nat): (n: nat) {
    PAGE_SIZE * pages
  }

  /** The address of the first free extent of s, or rest if there is none. */
  function FirstFree(s: seq<Extent>, rest: nat): (a: nat) {
    if s == [] then rest else if s[0].free then AddressOf(s[0].page) else FirstFree(s[1..], rest)
  }

  /** Each free extent's node points to the next one; the last to rest. */
  predicate Linked(s: seq<Extent>, rest: nat, view: View)
    decreases |s|
  {
    s != [] ==>
      && (s[0].free ==> s[0].page in view && view[s[0].page].w1 == FirstFree(s[1..], rest))
      && Linked(s[1..], rest, view)
  }

  /** The first page of a free extent is mapped and records its size; all pages of a handed-out one
      are mapped and the first carries its header. */
  predicate Recorded(e: Extent, view: View) {
    && e.page in view
    && if e.free then view[e.page].w0 == Bytes(e.pages)
       else
         && view[e.page] == Cell(view[e.page].w0, Bytes(e.pages), MAGIC)
         && view[e.page].w0 % 256 == MEM_TYPE_VMALLOC
         && forall p :: e.page <= p < End(e) ==> p in view
  }

  predicate AllRecorded(s: seq<Extent>, view: View) {
    forall i :: 0 <= i < |s| ==> Recorded(s[i], view)
  }

  /** The index of the last free extent of s, or -1. */
  function LastFree(s: seq<Extent>): (i: int)
    ensures -1 <= i < |s|
    ensures i >= 0 ==> s[i].free
    ensures forall j :: i < j < |s| ==> !s[j].free
  {
    if s == [] then -1 else if s[|s| - 1].free then |s| - 1 else LastFree(s[..|s| - 1])
  }

  lemma {:induction false} FirstFreeConcat(a: seq<Extent>, b: seq<Extent>, rest: nat)
    ensures FirstFree(a + b, rest) == FirstFree(a, FirstFree(b, rest))
  {
    if a == [] {
      assert a + b == b;
    } else {
      assert (a + b)[1..] == a[1..] + b;
      FirstFreeConcat(a[1..], b, rest);
    }
  }

  lemma {:induction false} LinkedConcat(a: seq<Extent>, b: seq<Extent>, rest: nat, view: View)
    ensures Linked(a + b, rest, view) <==> Linked(a, FirstFree(b, rest), view) && Linked(b, rest, view)
    decreases |a|
  {
    if a == [] {
      assert a + b == b;
    } else {
      assert (a + b)[1..] == a[1..] + b;
      FirstFreeConcat(a[1..], b, rest);
      LinkedConcat(a[1..], b, rest, view);
    }
  }

  /** Without free extents the rest shows through and nothing is asked of memory. */
  lemma {:induction false} NoneFree(s: seq<Extent>, rest: nat, view: View)
    requires forall i :: 0 <= i < |s| ==> !s[i].free
    ensures FirstFree(s, rest) == rest && Linked(s, rest, view)
  {
    if s != [] {
      NoneFree(s[1..], rest, view);
    }
  }

  /** A link holds as long as the second words of the free nodes do. */
  lemma {:induction false} LinkedKept(s: seq<Extent>, rest: nat, view: View, view': View)
    requires Linked(s, rest, view)
    requires forall i :: 0 <= i < |s| && s[i].free ==>
      s[i].page in view ==> s[i].page in view' && view'[s[i].page].w1 == view[s[i].page].w1
    ensures Linked(s, rest, view')
  {
    if s != [] {
      assert forall i :: 0 <= i < |s[1..]| ==> s[1..][i] == s[i + 1];
      LinkedKept(s[1..], rest, view, view');
    }
  }

  /** Redirecting the last free node of s redirects what s runs into. */
  lemma LinkedRedirect(s: seq<Extent>, rest: nat, rest': nat, view: View, view': View)
    requires Linked(s, rest, view) && LastFree(s) >= 0
    requires forall i :: 0 <= i < |s| && s[i].free && i != LastFree(s) ==>
      s[i].page in view ==> s[i].page in view' && view'[s[i].page].w1 == view[s[i].page].w1
    requires s[LastFree(s)].page in view' && view'[s[LastFree(s)].page].w1 == rest'
    ensures Linked(s, rest', view')
  {
    var k := LastFree(s);
    var a, e, c := s[..k], s[k], s[k + 1..];
    assert s == a + ([e] + c) && ([e] + c)[1..] == c;
    hide LastFree;
    LinkedConcat(a, [e] + c, rest, view);
    NoneFree(c, rest', view');
    assert Linked([e] + c, rest', view');
    assert FirstFree([e] + c, rest) == AddressOf(e.page) == FirstFree([e] + c, rest');
    LinkedKept(a, AddressOf(e.page), view, view');
    LinkedConcat(a, [e] + c, rest', view');
  }

  /** Which node the search is at, and which precedes it. */
  lemma {:induction false} LastFreeConcat(a: seq<Extent>, e: Extent)
    ensures LastFree(a + [e]) == if e.free then |a| else LastFree(a)
  {
    assert (a + [e])[..|a|] == a;
  }

  /** The first free extent of s[k..], by index; |s| if none. */
  function NextFree(s: seq<Extent>, k: nat): (i: nat)
    requires k <= |s|
    ensures k <= i <= |s|
    ensures i < |s| ==> s[i].free
    ensures forall j :: k <= j < i ==> !s[j].free
    decreases |s| - k
  {
    if k == |s| || s[k].free then k else NextFree(s, k + 1)
  }

  lemma {:induction false} FirstFreeIsNext(s: seq<Extent>, k: nat, rest: nat)
    requires k <= |s|
    ensures FirstFree(s[k..], rest) == if NextFree(s, k) < |s| then AddressOf(s[NextFree(s, k)].page) else rest
    decreases |s| - k
  {
    if k < |s| {
      assert s[k..][1..] == s[k + 1..];
      if !s[k].free {
        FirstFreeIsNext(s, k + 1, rest);
      }
    }
  }

  lemma {:induction false} LinkedAt(s: seq<Extent>, rest: nat, view: View, i: nat)
    requires Linked(s, rest, view) && i < |s| && s[i].free
    ensures s[i].page in view && view[s[i].page].w1 == FirstFree(s[i + 1..], rest)
    decreases |s|
  {
    if i > 0 {
      LinkedAt(s[1..], rest, view, i - 1);
      assert s[1..][i - 1 + 1..] == s[i + 1..];
    }
  }

  /** Passing over the extents from k to the free one at i leaves i as the last free one. */
  lemma {:induction false} LastFreeUpTo(s: seq<Extent>, k: nat, i: nat)
    requires k <= i < |s| && forall j :: k <= j < i ==> !s[j].free
    ensures LastFree(s[..i]) == LastFree(s[..k])
    ensures s[i].free ==> LastFree(s[..i + 1]) == i
    decreases i - k
  {
    assert s[..i + 1] == s[..i] + [s[i]];
    LastFreeConcat(s[..i], s[i]);
    if k < i {
      LastFreeUpTo(s, k, i - 1);
      assert s[..i] == s[..i - 1] + [s[i - 1]];
      LastFreeConcat(s[..i - 1], s[i - 1]);
    }
  }

  /** Earlier extents end before later ones begin. */
  lemma {:induction false} TilesApart(s: seq<Extent>, from: nat, to: nat, i: nat, j: nat)
    requires Tiles(s, from, to) && i < j < |s|
    ensures End(s[i]) <= s[j].page && s[i].pages > 0 && s[j].pages > 0 && End(s[j]) <= to
    decreases j
  {
    TilesOrdered(s, from, to, j);
    if i + 1 < j {
      TilesApart(s, from, to, i, j - 1);
    } else {
      TilesOrdered(s, from, to, i);
    }
  }

  // ----- vmalloc on the list -----

  /** The address of the last free extent of s, NULL if there is none. */
  function LastFreeAddress(s: seq<Extent>): (a: nat) {
    if LastFree(s) < 0 then NULL else AddressOf(s[LastFree(s)].page)
  }

  predicate SameBut(view: View, view': View, changed: set<nat>) {
    forall p :: p in view && p !in changed ==> p in view' && view'[p] == view[p]
  }

  /** The list after handing out the first n pages of the free extent i: its predecessor, or the head,
      points to what is left of it or to what it pointed to. */
  function NextAfter(s: seq<Extent>, i: nat, n: nat): (a: nat)
    requires i < |s| && s[i].free && 0 < n <= s[i].pages
  {
    if n < s[i].pages then AddressOf(s[i].page + n) else FirstFree(s[i + 1..], NULL)
  }

  /** The first page of the last free extent of s, or a page outside the heap. */
  function LastFreePage(s: seq<Extent>, none: nat): (p: nat) {
    if LastFree(s) < 0 then none else s[LastFree(s)].page
  }

  /** The pages whose first words vmalloc writes. */
  function Touched(s: seq<Extent>, i: nat, n: nat): (r: set<nat>)
    requires i < |s|
  {
    {s[i].page, LastFreePage(s[..i], s[i].page)} + (if n < s[i].pages then {s[i].page + n} else {})
  }

  lemma CarvedLinked(e: Extent, n: nat, right: seq<Extent>, view': View)
    requires e.free && 0 < n <= e.pages && Linked(right, NULL, view')
    requires n < e.pages ==> e.page + n in view' && view'[e.page + n].w1 == FirstFree(right, NULL)
    ensures Linked(Carved(e, n) + right, NULL, view')
    ensures FirstFree(Carved(e, n) + right, NULL) ==
      if n < e.pages then AddressOf(e.page + n) else FirstFree(right, NULL)
  {
    var c := Carved(e, n);
    if n < e.pages {
      assert (c + right)[1..] == [c[1]] + right && ([c[1]] + right)[1..] == right;
    } else {
      assert (c + right)[1..] == right;
    }
  }

  lemma RightUntouched(s: seq<Extent>, total: nat, i: nat, n: nat, view: View, view': View)
    requires Tiles(s, 0, total) && i < |s| && 0 < n && SameBut(view, view', Touched(s, i, n))
    ensures
      var right := s[i + 1..];
      forall j :: 0 <= j < |right| && right[j].page in view ==>
        right[j].page in view' && view'[right[j].page] == view[right[j].page]
    ensures forall p :: p in Touched(s, i, n) ==> p >= s[i].page || p == LastFreePage(s[..i], s[i].page)
  {
    var right := s[i + 1..];
    forall j | 0 <= j < |right| && right[j].page in view
      ensures right[j].page in view' && view'[right[j].page] == view[right[j].page]
    {
      TilesApart(s, 0, total, i, i + 1 + j);
      if LastFree(s[..i]) >= 0 {
        TilesApart(s, 0, total, LastFree(s[..i]), i + 1 + j);
      }
    }
  }

  lemma AllocateLinked(s: seq<Extent>, total: nat, i: nat, n: nat, view: View, view': View)
    requires Tiles(s, 0, total) && i < |s| && s[i].free && 0 < n <= s[i].pages && Linked(s, NULL, view)
    requires SameBut(view, view', Touched(s, i, n))
    requires n < s[i].pages ==> s[i].page + n in view' && view'[s[i].page + n].w1 == FirstFree(s[i + 1..], NULL)
    requires LastFree(s[..i]) >= 0 ==>
      LastFreePage(s[..i], 0) in view' && view'[LastFreePage(s[..i], 0)].w1 == NextAfter(s, i, n)
    ensures Linked(Allocate(s, i, n), NULL, view')
    ensures FirstFree(Allocate(s, i, n), NULL) ==
      if LastFree(s[..i]) >= 0 then FirstFree(s, NULL) else NextAfter(s, i, n)
  {
    hide LastFree, Carved, Touched, LastFreePage, Tiles, SameBut;
    var left, e, right := s[..i], s[i], s[i + 1..];
    assert s == left + ([e] + right) && ([e] + right)[1..] == right;
    LinkedConcat(left, [e] + right, NULL, view);
    FirstFreeConcat(left, [e] + right, NULL);
    RightUntouched(s, total, i, n, view, view');
    LinkedKept(right, NULL, view, view');
    CarvedLinked(e, n, right, view');
    LeftLinked(s, total, i, AddressOf(e.page), NextAfter(s, i, n), view, view', Touched(s, i, n));
    LinkedConcat(left, Carved(e, n) + right, NULL, view');
    FirstFreeConcat(left, Carved(e, n) + right, NULL);
    assert Allocate(s, i, n) == left + (Carved(e, n) + right);
  }

  /** The nodes before extent i, when the last of them is redirected. */
  lemma LeftLinked(s: seq<Extent>, total: nat, i: nat, rest: nat, rest': nat, view: View, view': View,
                   changed: set<nat>)
    requires Tiles(s, 0, total) && i < |s| && Linked(s[..i], rest, view)
    requires SameBut(view, view', changed)
    requires forall p :: p in changed ==> p >= s[i].page || p == LastFreePage(s[..i], s[i].page)
    requires LastFree(s[..i]) >= 0 ==> LastFreePage(s[..i], 0) in view' && view'[LastFreePage(s[..i], 0)].w1 == rest'
    ensures Linked(s[..i], rest', view')
    ensures FirstFree(s[..i], rest') == if LastFree(s[..i]) >= 0 then FirstFree(s[..i], rest) else rest'
  {
    var left := s[..i];
    if LastFree(left) < 0 {
      NoneFree(left, rest', view');
    } else {
      forall j | 0 <= j < |left| && left[j].free && j != LastFree(left)
        ensures left[j].page in view ==> left[j].page in view' && view'[left[j].page].w1 == view[left[j].page].w1
      {
        TilesApart(s, 0, total, j, i);
        TilesApart(s, 0, total, j, LastFree(left));
      }
      LinkedRedirect(left, rest, rest', view, view');
      SomeFree(left, rest, rest');
    }
  }

  lemma {:induction false} SomeFree(s: seq<Extent>, rest: nat, rest': nat)
    requires LastFree(s) >= 0
    ensures FirstFree(s, rest) == FirstFree(s, rest')
  {
    if !s[0].free {
      LastFreeTail(s);
      SomeFree(s[1..], rest, rest');
    }
  }

  lemma {:induction false} LastFreeTail(s: seq<Extent>)
    requires s != [] && !s[0].free
    ensures LastFree(s[1..]) == if LastFree(s) < 0 then -1 else LastFree(s) - 1
  {
    if !s[|s| - 1].free && |s| > 1 {
      LastFreeTail(s[..|s| - 1]);
      assert s[..|s| - 1][1..] == s[1..][..|s| - 2];
    }
  }

  lemma AllocateRecorded(s: seq<Extent>, total: nat, i: nat, n: nat, view: View, view': View)
    requires Tiles(s, 0, total) && i < |s| && s[i].free && 0 < n <= s[i].pages && AllRecorded(s, view)
    requires view.Keys <= view'.Keys
    requires SameBut(view, view', Touched(s, i, n))
    requires LastFree(s[..i]) >= 0 ==>
      LastFreePage(s[..i], 0) in view && view'[LastFreePage(s[..i], 0)].w0 == view[LastFreePage(s[..i], 0)].w0
    requires n < s[i].pages ==> s[i].page + n in view' && view'[s[i].page + n].w0 == Bytes(s[i].pages - n)
    requires Recorded(Extent(s[i].page, n, false), view')
    ensures AllRecorded(Allocate(s, i, n), view')
  {
    hide Tiles, Allocate, Recorded;
    var t, c := Allocate(s, i, n), Carved(s[i], n);
    AllocatedParts(s, i, n);
    assert Recorded(c[0], view') && (|c| > 1 ==> Recorded(c[1], view')) by { CarvedRecorded(s[i], n, view'); }
    forall j | 0 <= j < |t|
      ensures Recorded(t[j], view')
    {
      if j < i {
        assert t[j] == t[..i][j] == s[j];
        TilesApart(s, 0, total, j, i);
        if LastFree(s[..i]) >= 0 && LastFree(s[..i]) < j {
          TilesApart(s, 0, total, LastFree(s[..i]), j);
        } else if j < LastFree(s[..i]) {
          TilesApart(s, 0, total, j, LastFree(s[..i]));
        }
        RecordedKept(s, i, j, n, view, view');
      } else if j >= i + |c| {
        var k := j - |c| + 1;
        assert t[j] == t[i + 1..][j - i - 1] == s[i + 1..][k - i - 1] == s[k];
        TilesApart(s, 0, total, i, k);
        if LastFree(s[..i]) >= 0 {
          TilesApart(s, 0, total, LastFree(s[..i]), k);
        }
        RecordedSame(s[k], view, view', Touched(s, i, n));
      } else if j > i {
        assert t[j] == t[i + 1..][0] == c[1];
      }
    }
  }

  lemma CarvedRecorded(e: Extent, n: nat, view: View)
    requires 0 < n <= e.pages && Recorded(Extent(e.page, n, false), view)
    requires n < e.pages ==> e.page + n in view && view[e.page + n].w0 == Bytes(e.pages - n)
    ensures forall k :: 0 <= k < |Carved(e, n)| ==> Recorded(Carved(e, n)[k], view)
  {
  }

  lemma RecordedSame(e: Extent, view: View, view': View, changed: set<nat>)
    requires Recorded(e, view) && SameBut(view, view', changed) && e.page !in changed && view.Keys <= view'.Keys
    ensures Recorded(e, view')
  {
  }

  lemma RecordedKept(s: seq<Extent>, i: nat, j: nat, n: nat, view: View, view': View)
    requires j < i < |s| && End(s[j]) <= s[i].page && s[j].pages > 0 && Recorded(s[j], view) && view.Keys <= view'.Keys
    requires SameBut(view, view', Touched(s, i, n))
    requires LastFree(s[..i]) >= 0 ==>
      LastFreePage(s[..i], 0) in view && view'[LastFreePage(s[..i], 0)].w0 == view[LastFreePage(s[..i], 0)].w0
    requires !s[j].free && LastFree(s[..i]) >= 0 ==> s[j].page != LastFreePage(s[..i], 0)
    ensures Recorded(s[j], view')
  {
  }

  // ----- vfree on the list -----

  predicate Within(e: Extent, p: nat) {
    e.page <= p < End(e)
  }

  function PagesOf(e: Extent): (r: set<nat>) {
    set p: nat | e.page <= p < End(e) && Within(e, p)
  }

  predicate LastIsFree(s: seq<Extent>) {
    s != [] && s[|s| - 1].free
  }

  /** The pages vfree unmaps or whose first words it writes. */
  function Disturbed(s: seq<Extent>, i: nat): (r: set<nat>)
    requires i < |s|
  {
    {Merged(s[..i], s[i], s[i + 1..]).page, LastFreePage(s[..i], s[i].page)} + PagesOf(s[i])
  }

  /** Other pages keep their words; pages outside the freed extent stay mapped. */
  predicate ReleaseKeeps(s: seq<Extent>, i: nat, view: View, view': View)
    requires i < |s|
  {
    SameBut(view, view', Disturbed(s, i))
  }

  lemma RightKept(s: seq<Extent>, total: nat, i: nat, view: View, view': View)
    requires Tiles(s, 0, total) && i < |s| && !s[i].free && ReleaseKeeps(s, i, view, view')
    ensures forall j :: i < j < |s| && s[j].page in view ==> s[j].page in view' && view'[s[j].page] == view[s[j].page]
  {
    forall j | i < j < |s| && s[j].page in view
      ensures s[j].page in view' && view'[s[j].page] == view[s[j].page]
    {
      TilesApart(s, 0, total, i, j);
      if LastFree(s[..i]) >= 0 {
        TilesApart(s, 0, total, LastFree(s[..i]), i);
      }
      if i > 0 {
        TilesApart(s, 0, total, i - 1, i);
      }
      assert s[j].page !in Disturbed(s, i);
    }
  }

  lemma LeftKept(s: seq<Extent>, total: nat, i: nat, view: View, view': View)
    requires Tiles(s, 0, total) && i < |s| && !s[i].free && ReleaseKeeps(s, i, view, view')
    ensures forall j :: 0 <= j < i && j != LastFree(s[..i]) && s[j].page in view ==>
      s[j].page in view' && view'[s[j].page] == view[s[j].page]
  {
    forall j | 0 <= j < i && j != LastFree(s[..i]) && s[j].page in view
      ensures s[j].page in view' && view'[s[j].page] == view[s[j].page]
    {
      TilesApart(s, 0, total, j, i);
      if LastFree(s[..i]) > j {
        TilesApart(s, 0, total, j, LastFree(s[..i]));
      } else if 0 <= LastFree(s[..i]) < j {
        TilesApart(s, 0, total, LastFree(s[..i]), j);
      }
      LastIsLast(s[..i]);
      assert s[j].page !in Disturbed(s, i);
    }
  }

  lemma LastIsLast(s: seq<Extent>)
    ensures LastIsFree(s) <==> s != [] && LastFree(s) == |s| - 1
  {
  }

  lemma LeftRestLinked(s: seq<Extent>, total: nat, i: nat, rest: nat, view: View, view': View)
    requires Tiles(s, 0, total) && i < |s| && !s[i].free && Linked(s[..i], rest, view)
    requires ReleaseKeeps(s, i, view, view')
    requires LastFree(s[..i]) >= 0 && !LastIsFree(s[..i]) ==>
      LastFreePage(s[..i], 0) in view' && view'[LastFreePage(s[..i], 0)].w1 == AddressOf(s[i].page)
    ensures
      var start := AddressOf(Merged(s[..i], s[i], s[i + 1..]).page);
      && Linked(LeftRest(s[..i]), start, view')
      && FirstFree(LeftRest(s[..i]), start) ==
        if LastFree(s[..i]) >= 0 then FirstFree(s[..i], rest) else AddressOf(s[i].page)
  {
    var left := s[..i];
    LeftKept(s, total, i, view, view');
    LastIsLast(left);
    if LastIsFree(left) {
      var l, z := left[..i - 1], left[i - 1];
      assert left == l + [z];
      LinkedConcat(l, [z], rest, view);
      FirstFreeConcat(l, [z], rest);
      LinkedKept(l, AddressOf(z.page), view, view');
    } else if LastFree(left) >= 0 {
      LinkedRedirect(left, rest, AddressOf(s[i].page), view, view');
      SomeFree(left, rest, AddressOf(s[i].page));
    } else {
      NoneFree(left, AddressOf(s[i].page), view');
    }
  }

  lemma RightRestLinked(s: seq<Extent>, total: nat, i: nat, view: View, view': View)
    requires Tiles(s, 0, total) && i < |s| && !s[i].free && Linked(s[i + 1..], NULL, view)
    requires ReleaseKeeps(s, i, view, view')
    ensures Linked(RightRest(s[i + 1..]), NULL, view')
  {
    var right := s[i + 1..];
    RightKept(s, total, i, view, view');
    forall j | 0 <= j < |right| && right[j].page in view
      ensures right[j].page in view' && view'[right[j].page] == view[right[j].page]
    {
      assert right[j] == s[i + 1 + j];
    }
    LinkedKept(RightRest(right), NULL, view, view');
  }

  lemma ReleaseLinked(s: seq<Extent>, total: nat, i: nat, view: View, view': View)
    requires Tiles(s, 0, total) && i < |s| && !s[i].free && Linked(s, NULL, view) && ReleaseKeeps(s, i, view, view')
    requires
      var x := Merged(s[..i], s[i], s[i + 1..]).page;
      x in view' && view'[x].w1 == FirstFree(RightRest(s[i + 1..]), NULL)
    requires LastFree(s[..i]) >= 0 && !LastIsFree(s[..i]) ==>
      LastFreePage(s[..i], 0) in view' && view'[LastFreePage(s[..i], 0)].w1 == AddressOf(s[i].page)
    ensures Linked(Release(s, i), NULL, view')
    ensures FirstFree(Release(s, i), NULL) == if LastFree(s[..i]) >= 0 then FirstFree(s, NULL) else AddressOf(s[i].page)
  {
    hide Merged, LeftRest, RightRest, Disturbed, LastFree;
    var left, e, right := s[..i], s[i], s[i + 1..];
    var x := Merged(left, e, right);
    assert x.free by { MergedIsFree(left, e, right); }
    assert s == left + ([e] + right) && ([e] + right)[1..] == right;
    LinkedConcat(left, [e] + right, NULL, view);
    FirstFreeConcat(left, [e] + right, NULL);
    LeftRestLinked(s, total, i, FirstFree([e] + right, NULL), view, view');
    RightRestLinked(s, total, i, view, view');
    var l, r := LeftRest(left), RightRest(right);
    assert ([x] + r)[1..] == r;
    LinkedConcat(l, [x] + r, NULL, view');
    FirstFreeConcat(l, [x] + r, NULL);
    assert Release(s, i) == l + ([x] + r);
  }

  lemma MergedIsFree(left: seq<Extent>, e: Extent, right: seq<Extent>)
    ensures Merged(left, e, right).free
  {
  }

  lemma LastFreeRecorded(s: seq<Extent>, i: nat, view: View, view': View)
    requires i < |s| && LastFree(s[..i]) >= 0 && Recorded(s[LastFree(s[..i])], view)
    requires LastFreePage(s[..i], 0) in view' && view'[LastFreePage(s[..i], 0)].w0 == view[LastFreePage(s[..i], 0)].w0
    ensures Recorded(s[LastFree(s[..i])], view')
  {
  }

  /** What a release leaves: the extents before, the merged one, and those after, all but the ones merged. */
  lemma ReleasedParts(s: seq<Extent>, i: nat)
    requires i < |s|
    ensures var t, l, d := Release(s, i), LeftRest(s[..i]), |s| - |Release(s, i)|;
      && d >= 0 && |l| <= i && |l| < |t| && |l| + d >= i
      && (forall j :: 0 <= j < |l| ==> t[j] == s[j])
      && t[|l|] == Merged(s[..i], s[i], s[i + 1..])
      && (forall j :: |l| < j < |t| ==> t[j] == s[d + j])
  {
    hide Merged;
    var l, right := LeftRest(s[..i]), s[i + 1..];
    var r := RightRest(right);
    assert |l| <= i && l == s[..|l|] && |r| <= |right| && r == s[|s| - |r|..];
    hide LeftRest, RightRest;
    InThree(l, Merged(s[..i], s[i], right), r);
  }

  lemma InThree(a: seq<Extent>, x: Extent, c: seq<Extent>)
    ensures var t := a + [x] + c;
      && |t| == |a| + 1 + |c| && t[|a|] == x
      && (forall j :: 0 <= j < |a| ==> t[j] == a[j])
      && (forall j :: |a| < j < |t| ==> t[j] == c[j - |a| - 1])
  {
  }

  lemma ReleaseRecorded(s: seq<Extent>, total: nat, i: nat, view: View, view': View)
    requires Tiles(s, 0, total) && i < |s| && !s[i].free && AllRecorded(s, view) && ReleaseKeeps(s, i, view, view')
    requires Recorded(Merged(s[..i], s[i], s[i + 1..]), view')
    requires LastFree(s[..i]) >= 0 && !LastIsFree(s[..i]) ==>
      LastFreePage(s[..i], 0) in view && LastFreePage(s[..i], 0) in view'
      && view'[LastFreePage(s[..i], 0)].w0 == view[LastFreePage(s[..i], 0)].w0
    ensures AllRecorded(Release(s, i), view')
  {
    hide Tiles, Recorded, ReleaseKeeps, Release, RightRest;
    var left, right := s[..i], s[i + 1..];
    var t, l := Release(s, i), LeftRest(left);
    ReleasedParts(s, i);
    LeftKept(s, total, i, view, view');
    RightKept(s, total, i, view, view');
    LastIsLast(left);
    forall j | 0 <= j < |t|
      ensures Recorded(t[j], view')
    {
      if j < |l| {
        AllPagesKept(s, total, i, j, view, view');
        if j == LastFree(left) {
          LastFreeRecorded(s, i, view, view');
        }
      } else if j > |l| {
        var k := |s| - |t| + j;
        AllPagesKept(s, total, i, k, view, view');
      }
    }
  }

  /** The pages of an extent that stays handed out remain mapped. */
  lemma AllPagesKept(s: seq<Extent>, total: nat, i: nat, j: nat, view: View, view': View)
    requires Tiles(s, 0, total) && i < |s| && !s[i].free && j < |s| && j != i && Recorded(s[j], view)
    requires ReleaseKeeps(s, i, view, view')
    ensures !s[j].free ==> Recorded(s[j], view')
    ensures s[j].free && (j < i ==> j != LastFree(s[..i])) ==> Recorded(s[j], view')
  {
    LeftKept(s, total, i, view, view');
    RightKept(s, total, i, view, view');
    if !s[j].free {
      forall p | s[j].page <= p < End(s[j])
        ensures p in view'
      {
        if j < i {
          TilesApart(s, 0, total, j, i);
        } else {
          TilesApart(s, 0, total, i, j);
        }
        PageOfOther(s, total, i, j, p);
      }
    }
  }

  lemma PageOfOther(s: seq<Extent>, total: nat, i: nat, j: nat, p: nat)
    requires Tiles(s, 0, total) && i < |s| && !s[i].free && j < |s| && j != i && !s[j].free
    requires s[j].page <= p < End(s[j])
    ensures p !in Disturbed(s, i)
  {
    var left := s[..i];
    LastIsLast(left);
    if j < i {
      TilesApart(s, 0, total, j, i);
    } else {
      TilesApart(s, 0, total, i, j);
    }
    if LastFree(left) >= 0 {
      var k := LastFree(left);
      TilesApart(s, 0, total, k, i);
      if j < k {
        TilesApart(s, 0, total, j, k);
      } else {
        TilesApart(s, 0, total, k, j);
      }
    }
  }
}
