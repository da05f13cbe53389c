/** execve's argument area: copy_strings packs the strings downward into pages taken on demand, and the
    loader scans them upward again to build the argc/argv vector below. */
module ExecArgs {
  import opened Common

  const MAX_ARG_PAGES: nat := 32
  const MAX_ARGS: nat := 10
  const AREA: nat := 131072
  const TOP: nat := AREA - 4
  const STACK_START: nat := KERNBASE - AREA

  // ----- packed strings -----

  predicate CString(s: seq<byte>) {
    forall i :: 0 <= i < |s| ==> s[i] != 0
  }

  predicate CStrings(argv: seq<seq<byte>>) {
    forall i :: 0 <= i < |argv| ==> CString(argv[i])
  }

  /** The strings in order, each with its NUL. */
  function Pack(argv: seq<seq<byte>>): (r: seq<byte>)
    ensures |r| >= |argv|
  {
    if argv == [] then [] else argv[0] + [0] + Pack(argv[1..])
  }

  lemma {:induction false} PackConcat(a: seq<seq<byte>>, b: seq<seq<byte>>)
    ensures Pack(a + b) == Pack(a) + Pack(b)
  {
    if a == [] {
      assert a + b == b;
    } else {
      assert (a + b)[1..] == a[1..] + b;
      PackConcat(a[1..], b);
    }
  }

  lemma PackFrom(argv: seq<seq<byte>>, i: nat)
    requires i < |argv|
    ensures Pack(argv[i..]) == argv[i] + [0] + Pack(argv[i + 1..])
    ensures |Pack(argv[i..])| <= |Pack(argv)|
  {
    assert argv[i..][1..] == argv[i + 1..];
    assert argv == argv[..i] + argv[i..];
    PackConcat(argv[..i], argv[i..]);
  }

  /** What scanning a packed area finds: n strings, each up to its NUL. */
  function Scan(m: seq<byte>, n: nat): (r: Option<seq<seq<byte>>>) {
    if n == 0 then Some([])
    else match FirstNul(m)
      case None => None
      case Some(k) =>
        match Scan(m[k + 1..], n - 1)
        case None => None
        case Some(rest) => Some([m[..k]] + rest)
  }

  function FirstNul(m: seq<byte>): (r: Option<nat>)
    ensures r.Some? ==> r.value < |m| && m[r.value] == 0 && CString(m[..r.value])
    ensures r.None? ==> CString(m)
  {
    if m == [] then None else if m[0] == 0 then Some(0)
    else match FirstNul(m[1..])
      case None => None
      case Some(k) => Some(k + 1)
  }

  lemma {:induction false} NulAfter(s: seq<byte>, rest: seq<byte>)
    requires CString(s)
    ensures FirstNul(s + [0] + rest) == Some(|s|)
  {
    if s != [] {
      NulAfter(s[1..], rest);
      assert (s + [0] + rest)[1..] == s[1..] + [0] + rest;
    }
  }

  lemma ScanFirst(s: seq<byte>, tail: seq<byte>, n: nat, found: seq<seq<byte>>)
    requires CString(s) && n > 0 && Scan(tail, n - 1) == Some(found)
    ensures Scan(s + [0] + tail, n) == Some([s] + found)
  {
    hide FirstNul;
    var m := s + [0] + tail;
    NulAfter(s, tail);
    assert m[|s| + 1..] == tail && m[..|s|] == s;
  }

  /** Packing loses nothing: a scan from the start gives all strings back, whatever follows them. */
  lemma {:induction false} ScanUndoesPack(argv: seq<seq<byte>>, rest: seq<byte>)
    requires CStrings(argv)
    ensures Scan(Pack(argv) + rest, |argv|) == Some(argv)
  {
    if argv != [] {
      var s, tail := argv[0], Pack(argv[1..]) + rest;
      assert Pack(argv) + rest == s + [0] + tail;
      hide Scan, Pack, CString;
      ScanUndoesPack(argv[1..], rest);
      ScanFirst(s, tail, |argv|, argv[1..]);
      assert [s] + argv[1..] == argv;
    }
  }

  // ----- the pages as values -----

  type Pages = seq<Option<seq<byte>>>

  predicate PagesOk(v: Pages) {
    |v| == MAX_ARG_PAGES && forall i :: 0 <= i < |v| && v[i].Some? ==> |v[i].value| == PAGE_SIZE
  }

  function ByteAt(v: Pages, k: nat): (c: Option<byte>)
    requires PagesOk(v)
  {
    if k < AREA && v[k / PAGE_SIZE].Some? then Some(v[k / PAGE_SIZE].value[k % PAGE_SIZE]) else None
  }

  predicate Holds(v: Pages, at: nat, bytes: seq<byte>)
    requires PagesOk(v)
  {
    forall k :: at <= k < at + |bytes| ==> ByteAt(v, k) == Some(bytes[k - at])
  }

  /** Every byte that was there outside lo..hi is there still. */
  ghost predicate KeepsOutside(v: Pages, v': Pages, lo: nat, hi: nat)
    requires PagesOk(v) && PagesOk(v')
  {
    forall k: nat :: !(lo <= k < hi) && ByteAt(v, k).Some? ==> ByteAt(v', k) == ByteAt(v, k)
  }

  function Allocated(v: Pages): (s: set<nat>) {
    set i: nat | i < |v| && v[i].Some?
  }

  /** The pages a store to lo..hi touches. */
  function Touched(lo: nat, hi: nat): (s: set<nat>) {
    set i: nat | i < MAX_ARG_PAGES && OnPage(i, lo, hi)
  }

  predicate OnPage(i: nat, lo: nat, hi: nat) {
    lo < hi && lo < (i + 1) * PAGE_SIZE && i * PAGE_SIZE < hi
  }

  lemma TouchedSplit(lo: nat, mid: nat, hi: nat)
    requires lo <= mid <= hi
    ensures Touched(lo, hi) == Touched(lo, mid) + Touched(mid, hi)
  {
  }

  lemma TouchedByte(k: nat)
    requires k < AREA
    ensures Touched(k, k + 1) == {k / PAGE_SIZE}
  {
    assert k / PAGE_SIZE in Touched(k, k + 1);
  }

  /** How many pages the area from p to the top needs. */
  lemma {:induction false} TouchedSize(p: nat)
    requires p < TOP
    ensures |Touched(p, TOP)| == MAX_ARG_PAGES - p / PAGE_SIZE
  {
    var first := p / PAGE_SIZE;
    CountUp(first);
    assert Touched(p, TOP) == PagesFrom(first);
  }

  predicate AtLeast(i: nat, first: nat) {
    first <= i
  }

  function PagesFrom(first: nat): (s: set<nat>) {
    set i: nat | i < MAX_ARG_PAGES && AtLeast(i, first)
  }

  lemma {:induction false} CountUp(first: nat)
    requires first <= MAX_ARG_PAGES
    ensures |PagesFrom(first)| == MAX_ARG_PAGES - first
    decreases MAX_ARG_PAGES - first
  {
    if first < MAX_ARG_PAGES {
      CountUp(first + 1);
      assert PagesFrom(first) == {first} + PagesFrom(first + 1);
    } else {
      assert PagesFrom(first) == {};
    }
  }

  /** v with byte c at k, on a new zeroed page if need be. */
  function Put(v: Pages, k: nat, c: byte): (r: Pages)
    requires PagesOk(v) && k < AREA
    ensures PagesOk(r)
  {
    var i := k / PAGE_SIZE;
    var was := if v[i].Some? then v[i].value else seq(PAGE_SIZE, _ => 0);
    v[i := Some(was[k % PAGE_SIZE := c])]
  }

  lemma PutByteAt(v: Pages, k: nat, c: byte)
    requires PagesOk(v) && k < AREA
    ensures ByteAt(Put(v, k, c), k) == Some(c) && KeepsOutside(v, Put(v, k, c), k, k + 1)
    ensures Allocated(Put(v, k, c)) == Allocated(v) + {k / PAGE_SIZE}
    ensures |Allocated(Put(v, k, c))| == |Allocated(v)| + if k / PAGE_SIZE in Allocated(v) then 0 else 1
  {
    UnionSize(Allocated(v), {k / PAGE_SIZE});
    assert Allocated(Put(v, k, c)) == Allocated(v) + {k / PAGE_SIZE};
    assert {k / PAGE_SIZE} - Allocated(v) == if k / PAGE_SIZE in Allocated(v) then {} else {k / PAGE_SIZE};
  }

  lemma KeepsHeld(v: Pages, v': Pages, lo: nat, hi: nat, at: nat, bytes: seq<byte>)
    requires PagesOk(v) && PagesOk(v') && KeepsOutside(v, v', lo, hi) && Holds(v, at, bytes)
    requires hi <= at || at + |bytes| <= lo
    ensures Holds(v', at, bytes)
  {
    forall k | at <= k < at + |bytes|
      ensures ByteAt(v', k) == Some(bytes[k - at])
    {
      assert ByteAt(v, k).Some?;
    }
  }

  lemma HoldsPart(v: Pages, at: nat, bytes: seq<byte>, i: nat, j: nat)
    requires PagesOk(v) && Holds(v, at, bytes) && i <= j <= |bytes|
    ensures Holds(v, at + i, bytes[i..j])
  {
  }

  lemma HoldsBoth(v: Pages, at: nat, a: seq<byte>, b: seq<byte>)
    requires PagesOk(v) && Holds(v, at, a) && Holds(v, at + |a|, b)
    ensures Holds(v, at, a + b)
  {
  }

  // ----- when packing succeeds -----

  /** The strings fit below start with a byte to spare, and the pages they touch can all be had. */
  predicate Fits(argv: seq<seq<byte>>, start: nat, v: Pages, available: nat) {
    |Pack(argv)| < start && |Touched(start - |Pack(argv)|, start) - Allocated(v)| <= available
  }

  /** Out of pages at page i, which the whole packing would have touched. */
  lemma PagesRunOut(was: Pages, now: Pages, available: nat, t: set<nat>, i: nat)
    requires i in t && i !in Allocated(now) && Allocated(now) <= Allocated(was) + t
    requires |Allocated(now)| == |Allocated(was)| + available
    ensures |t - Allocated(was)| > available
  {
    SubsetSize(Allocated(now), Allocated(was) + t);
    UnionSize(Allocated(was), t);
  }

  lemma DoesNotFit(argv: seq<seq<byte>>, start: nat, v: Pages, available: nat)
    requires |Pack(argv)| > start
    ensures !Fits(argv, start, v, available)
  {
  }

  lemma CannotFit(argv: seq<seq<byte>>, start: nat, was: Pages, mid: Pages, now: Pages, available: nat, p: nat,
                  len: nat)
    requires start - |Pack(argv)| <= p && p + len <= start
    requires Allocated(mid) == Allocated(was) + Touched(p + len, start)
    requires Allocated(now) <= Allocated(mid) + Touched(p, p + len)
    requires |Allocated(now)| == |Allocated(was)| + available
    requires exists i :: i in Touched(p, p + len) && i !in Allocated(now)
    ensures !Fits(argv, start, was, available)
  {
    hide Allocated, Touched, Pack;
    var k: nat :| k in Touched(p, p + len) && k !in Allocated(now);
    TouchedSplit(p, p + len, start);
    if |Pack(argv)| < start {
      TouchedSplit(start - |Pack(argv)|, p, start);
      TouchedSplit(p, p + len, start);
      PagesRunOut(was, now, available, Touched(start - |Pack(argv)|, start), k);
    }
  }

  /** String i copied to p, below those after it. */
  lemma Copied(v0: Pages, v: Pages, v': Pages, argv: seq<seq<byte>>, i: nat, p: nat, start: nat)
    requires PagesOk(v0) && PagesOk(v) && PagesOk(v') && i < |argv|
    requires
      var q := p + |argv[i]| + 1;
      && q <= start
      && Holds(v, q, Pack(argv[i + 1..])) && KeepsOutside(v0, v, q, start)
      && Allocated(v) == Allocated(v0) + Touched(q, start)
      && Holds(v', p, argv[i] + [0]) && KeepsOutside(v, v', p, q) && Allocated(v') == Allocated(v) + Touched(p, q)
    ensures Holds(v', p, Pack(argv[i..])) && KeepsOutside(v0, v', p, start)
    ensures Allocated(v') == Allocated(v0) + Touched(p, start)
  {
    hide ByteAt, Touched, Allocated, Holds, KeepsOutside, Pack;
    var q := p + |argv[i]| + 1;
    PackFrom(argv, i);
    TouchedSplit(p, q, start);
    KeepsHeld(v, v', p, q, q, Pack(argv[i + 1..]));
    HoldsBoth(v', p, argv[i] + [0], Pack(argv[i + 1..]));
    KeepsMore(v0, v, v', p, q, start);
  }

  lemma DoesFit(argv: seq<seq<byte>>, start: nat, v: Pages, available: nat, left: nat)
    requires |Pack(argv)| <= start && available == left + |Touched(start - |Pack(argv)|, start) - Allocated(v)|
    ensures Fits(argv, start, v, available) <==> |Pack(argv)| < start
  {
  }

  class ArgPages {
    const page: array<array?<byte>>
    /** The pages get_free_page can still hand out. */
    var available: nat
    ghost var bufs: set<array<byte>>
    ghost var view: Pages

    ghost predicate Valid()
      reads this, page, bufs
    {
      && page.Length == MAX_ARG_PAGES && PagesOk(view)
      && (forall i :: 0 <= i < page.Length ==> (page[i] == null <==> view[i].None?))
      && (forall i :: 0 <= i < page.Length && page[i] != null ==>
            page[i] in bufs && page[i].Length == PAGE_SIZE && view[i] == Some(page[i][..]))
      && (forall i, j :: 0 <= i < j < page.Length && page[i] != null ==> page[i] != page[j])
    }

    constructor (available: nat)
      ensures Valid() && fresh(page) && bufs == {} && Allocated(view) == {} && this.available == available
    {
      page := new array?<byte>[MAX_ARG_PAGES](_ => null);
      this.available := available;
      bufs := {};
      view := seq(MAX_ARG_PAGES, _ => None);
    }

    lemma ViewIsOk()
      requires Valid()
      ensures PagesOk(view)
    {
    }

    /** The body of the inner loop: take the page if it is not there, store the byte. */
    method PutByte(k: nat, c: byte) returns (ok: bool)
      requires Valid() && k < AREA
      modifies this, page, bufs
      ensures Valid() && fresh(bufs - old(bufs)) && old(bufs) <= bufs
      ensures ok <==> k / PAGE_SIZE in Allocated(old(view)) || old(available) > 0
      ensures ok ==> view == Put(old(view), k, c)
      ensures ok ==> available == old(available) - if k / PAGE_SIZE in Allocated(old(view)) then 0 else 1
      ensures !ok ==> view == old(view) && available == old(available)
    {
      var index, offset := k / PAGE_SIZE, k % PAGE_SIZE;
      if page[index] == null {
        if available == 0 {
          return false;
        }
        available := available - 1;
        var fresh_page := new byte[PAGE_SIZE](_ => 0);
        page[index] := fresh_page;
        bufs := bufs + {fresh_page};
        assert fresh_page[..] == seq(PAGE_SIZE, _ => 0);
        view := view[index := Some(fresh_page[..])];
      }
      var target := page[index];
      target[offset] := c;
      view := view[index := Some(target[..])];
      ok := true;
    }

    /** One string with its NUL, at p. */
    method CopyString(str: seq<byte>, p: nat) returns (ok: bool)
      requires Valid() && p + |str| + 1 <= AREA
      modifies this, page, bufs
      ensures Valid() && fresh(bufs - old(bufs)) && old(bufs) <= bufs
      ensures KeepsOutside(old(view), view, p, p + |str| + 1)
      ensures available + |Allocated(view)| == old(available) + |Allocated(old(view))|
      ensures ok ==> Holds(view, p, str + [0]) && Allocated(view) == Allocated(old(view)) + Touched(p, p + |str| + 1)
      ensures !ok ==> available == 0 && Allocated(view) <= Allocated(old(view)) + Touched(p, p + |str| + 1)
      ensures !ok ==> exists i :: i in Touched(p, p + |str| + 1) && i !in Allocated(view)
    {
      hide Touched, Allocated, Holds, KeepsOutside, ArgPages.Valid, ArgPages.Stored;
      var len := |str| + 1;
      ghost var bytes: seq<byte>, v0: Pages, had: nat := str + [0], view, available;
      var j := 0;
      NothingStored(p, bytes);
      while j < len
        invariant 0 <= j <= len && Valid() && fresh(bufs - old(bufs)) && old(bufs) <= bufs
        invariant Stored(v0, had, p, bytes, j)
      {
        ok := CopyByte(v0, had, p, bytes, j, if j < |str| then str[j] else 0);
        if !ok {
          StoredSoFar(v0, had, p, bytes, j);
          return;
        }
        j := j + 1;
      }
      StoredSoFar(v0, had, p, bytes, len);
      assert bytes[..len] == bytes;
      ok := true;
    }

    /** The first j of the bytes that go to p have been stored. */
    ghost predicate Stored(v0: Pages, had: nat, p: nat, bytes: seq<byte>, j: nat)
      reads this
    {
      && j <= |bytes| && p + |bytes| <= AREA && PagesOk(v0) && PagesOk(view)
      && Holds(view, p, bytes[..j]) && KeepsOutside(v0, view, p, p + |bytes|)
      && Allocated(view) == Allocated(v0) + Touched(p, p + j)
      && available + |Allocated(view)| == had + |Allocated(v0)|
    }

    lemma NothingStored(p: nat, bytes: seq<byte>)
      requires Valid() && p + |bytes| <= AREA
      ensures Stored(view, available, p, bytes, 0)
    {
      hide Holds, KeepsOutside, Touched;
      HoldsNothing(view, p, p + |bytes|);
    }

    lemma StoredSoFar(v0: Pages, had: nat, p: nat, bytes: seq<byte>, j: nat)
      requires Stored(v0, had, p, bytes, j)
      ensures PagesOk(v0) && PagesOk(view) && Holds(view, p, bytes[..j]) && KeepsOutside(v0, view, p, p + |bytes|)
      ensures available + |Allocated(view)| == had + |Allocated(v0)|
      ensures Allocated(view) == Allocated(v0) + Touched(p, p + j)
      ensures Touched(p, p + j) <= Touched(p, p + |bytes|)
    {
      hide Holds, KeepsOutside, Touched;
      TouchedSplit(p, p + j, p + |bytes|);
    }

    /** One byte of a string. */
    method CopyByte(ghost v0: Pages, ghost had: nat, p: nat, ghost bytes: seq<byte>, j: nat, c: byte) returns (ok: bool)
      requires Valid() && Stored(v0, had, p, bytes, j) && j < |bytes| && c == bytes[j]
      modifies this, page, bufs
      ensures Valid() && fresh(bufs - old(bufs)) && old(bufs) <= bufs
      ensures if ok then Stored(v0, had, p, bytes, j + 1) else Stored(v0, had, p, bytes, j) && available == 0
      ensures !ok ==> exists i :: i in Touched(p, p + |bytes|) && i !in Allocated(view)
    {
      hide Put, ByteAt, Touched, Holds, KeepsOutside, ArgPages.Valid, Allocated;
      ghost var v: Pages := view;
      PutByteAt(v, p + j, bytes[j]);
      TouchedNext(p, j, |bytes|);
      ok := PutByte(p + j, c);
      if ok {
        PutNext(v0, v, p, bytes, j);
      } else {
        assert (p + j) / PAGE_SIZE in Touched(p, p + |bytes|);
      }
    }

    /** copy_strings: 0 for failure. */
    method CopyStrings(argv: seq<seq<byte>>, start: nat) returns (p: nat)
      requires Valid() && start < AREA
      modifies this, page, bufs
      ensures Valid() && fresh(bufs - old(bufs)) && old(bufs) <= bufs
      ensures p != 0 <==> Fits(argv, start, old(view), old(available))
      ensures p != 0 ==> p == start - |Pack(argv)| && Holds(view, p, Pack(argv))
      ensures p != 0 ==> KeepsOutside(old(view), view, p, start)
      ensures p != 0 ==> Allocated(view) == Allocated(old(view)) + Touched(p, start)
      ensures p != 0 ==> available == old(available) - |Touched(p, start) - Allocated(old(view))|
    {
      hide ByteAt, Touched, Allocated, Holds, KeepsOutside, Pack, Fits, Packed;
      p := start;
      var i := |argv|;
      ghost var v0: Pages, had: nat := view, available;
      NothingPacked(argv, start);
      while i > 0
        invariant 0 <= i <= |argv| && Valid() && fresh(bufs - old(bufs)) && old(bufs) <= bufs
        invariant Packed(v0, had, argv, i, p, start)
        decreases i
      {
        i := i - 1;
        var ok;
        ok, p := CopyNext(v0, had, argv, i, p, start);
        if !ok {
          return 0;
        }
      }
      AllPacked(v0, had, argv, p, start);
    }

    /** The strings from i on have been copied, down to p. */
    ghost predicate Packed(v0: Pages, had: nat, argv: seq<seq<byte>>, i: nat, p: nat, start: nat)
      reads this
    {
      && i <= |argv| && PagesOk(v0) && PagesOk(view)
      && p + |Pack(argv[i..])| == start && |Pack(argv[i..])| <= |Pack(argv)|
      && Holds(view, p, Pack(argv[i..])) && KeepsOutside(v0, view, p, start)
      && Allocated(view) == Allocated(v0) + Touched(p, start)
      && available + |Allocated(view)| == had + |Allocated(v0)|
    }

    lemma NothingPacked(argv: seq<seq<byte>>, start: nat)
      requires PagesOk(view)
      ensures Packed(view, available, argv, |argv|, start, start)
    {
      assert argv[|argv|..] == [];
      NothingYet(view, start);
    }

    lemma AllPacked(v0: Pages, had: nat, argv: seq<seq<byte>>, p: nat, start: nat)
      requires Packed(v0, had, argv, 0, p, start)
      ensures p == start - |Pack(argv)| && Holds(view, p, Pack(argv)) && KeepsOutside(v0, view, p, start)
      ensures Allocated(view) == Allocated(v0) + Touched(p, start)
      ensures available == had - |Touched(p, start) - Allocated(v0)|
      ensures Fits(argv, start, v0, had) <==> p != 0
    {
      hide Holds, KeepsOutside, Touched, Allocated, Pack;
      assert argv[0..] == argv;
      UnionSize(Allocated(v0), Touched(p, start));
      DoesFit(argv, start, v0, had, available);
    }

    /** One turn of the loop. */
    method CopyNext(ghost v0: Pages, ghost had: nat, argv: seq<seq<byte>>, i: nat, q: nat, ghost start: nat)
      returns (ok: bool, p: nat)
      requires Valid() && i < |argv| && Packed(v0, had, argv, i + 1, q, start) && start < AREA
      modifies this, page, bufs
      ensures Valid() && fresh(bufs - old(bufs)) && old(bufs) <= bufs
      ensures if ok then Packed(v0, had, argv, i, p, start) else !Fits(argv, start, v0, had)
    {
      hide ByteAt, Touched, Allocated, Holds, KeepsOutside, Pack, Fits;
      PackFrom(argv, i);
      var len := |argv[i]| + 1;
      if q < len {
        DoesNotFit(argv, start, v0, had);
        return false, q;
      }
      ghost var v: Pages := view;
      p := q - len;
      ok := CopyString(argv[i], p);
      if ok {
        Copied(v0, v, view, argv, i, p, start);
      } else {
        CannotFit(argv, start, v0, v, view, had, p, len);
      }
    }

    /** strlen of the string at k. */
    method StrLen(k: nat, ghost s: seq<byte>) returns (n: nat)
      requires Valid() && CString(s) && Holds(view, k, s + [0]) && k + |s| < AREA
      ensures n == |s|
    {
      n := 0;
      ghost var bytes: seq<byte> := s + [0];
      assert ByteAt(view, k) == Some(bytes[0]);
      while page[(k + n) / PAGE_SIZE][(k + n) % PAGE_SIZE] != 0
        invariant 0 <= n <= |s|
        invariant ByteAt(view, k + n) == Some(bytes[n])
        decreases |s| - n
      {
        n := n + 1;
        assert ByteAt(view, k + n) == Some(bytes[n]);
      }
    }

    /** The loader's first loop over the bytes m at p: the address of each string the scan finds. With more than
        MAX_ARGS the store passes the end of the local array. */
    method ScanStrings(argc: nat, p: nat, ghost m: seq<byte>) returns (inside: bool, addrs: array<nat>)
      requires Valid() && Scan(m, argc).Some? && Holds(view, p, m) && p + |m| <= AREA
      ensures fresh(addrs) && addrs.Length == MAX_ARGS && (inside <==> argc <= MAX_ARGS)
      ensures inside ==> addrs[..argc] == Addresses(Scan(m, argc).value, STACK_START + p)
    {
      ViewIsOk();
      hide Holds, Addresses, Scan, ArgPages.Valid, Scanning, CString;
      addrs := new nat[MAX_ARGS](_ => 0);
      var ptr := STACK_START + p;
      var i := 0;
      ghost var v: Pages, rest: seq<byte>, done: seq<nat> := view, m, [];
      ghost var all: seq<nat> := Addresses(Scan(m, argc).value, STACK_START + p);
      ScanStarts(v, m, argc, ptr);
      while i < argc
        invariant 0 <= i <= argc && i <= MAX_ARGS && ptr >= STACK_START
        invariant Scanning(v, rest, argc - i, ptr, done, all) && |done| == i
        invariant forall j :: 0 <= j < i ==> addrs[j] == done[j]
      {
        ghost var str: seq<byte>, next: seq<byte> := ScanGoesOn(v, rest, argc - i, ptr, done, all);
        if i == MAX_ARGS {
          return false, addrs;
        }
        addrs[i] := ptr;
        done := done + [ptr];
        var n := StrLen(ptr - STACK_START, str);
        rest := next;
        ptr := ptr + n + 1;
        i := i + 1;
      }
      ScanDone(v, rest, ptr, done, all);
      inside := true;
    }

    /** The end of the loader: argc, the strings' addresses and 0, laid below the strings. */
    method BuildVector(argc: nat, p: nat, ghost m: seq<byte>) returns (inside: bool, sp: nat, vector: array<nat>)
      requires Valid() && Scan(m, argc).Some? && Holds(view, p, m) && p + |m| <= AREA
      ensures fresh(vector) && (inside <==> argc <= MAX_ARGS)
      ensures inside ==> vector[..] == [argc] + Addresses(Scan(m, argc).value, STACK_START + p) + [0]
      ensures inside ==> sp % 16 == 0 && sp + 4 * vector.Length <= STACK_START + p < sp + 4 * vector.Length + 16
    {
      hide Holds, Addresses, Scan, ArgPages.Valid;
      var addrs;
      inside, addrs := ScanStrings(argc, p, m);
      if !inside {
        return false, 0, addrs;
      }
      var total := (1 + argc + 1) * 4;
      sp := STACK_START + p - total;
      sp := sp - sp % 16;
      vector := new nat[argc + 2];
      ghost var found: seq<nat> := addrs[..argc];
      FillVector(vector, addrs, argc);
      VectorIs(vector[..], argc, found);
    }

    method FillVector(vector: array<nat>, addrs: array<nat>, argc: nat)
      requires vector.Length == argc + 2 && argc <= addrs.Length && vector != addrs
      modifies vector
      ensures vector[0] == argc && vector[argc + 1] == 0 && forall j :: 0 <= j < argc ==> vector[1 + j] == addrs[j]
    {
      vector[0] := argc;
      var i := 0;
      while i < argc
        invariant 0 <= i <= argc && vector[0] == argc
        invariant forall j :: 0 <= j < i ==> vector[1 + j] == addrs[j]
      {
        vector[1 + i] := addrs[i];
        i := i + 1;
      }
      vector[1 + argc] := 0;
    }

    /** The stores of the vector's n words from sp on all go to pages mapped for the strings. */
    method VectorMapped(sp: nat, n: nat) returns (mapped: bool)
      requires Valid() && sp % 16 == 0 && sp + 4 * n <= STACK_START + AREA
      ensures mapped <==> AllInPages(sp - STACK_START, n, Allocated(view))
    {
      PagesTaken();
      hide ArgPages.Valid, AllInPages, Allocated;
      var q, i := sp - STACK_START, 0;
      NoWords(q, Allocated(view));
      while i < n
        invariant 0 <= i <= n && AllInPages(q, i, Allocated(view))
      {
        WordInPages(q, i, n, Allocated(view));
        var k := q + 4 * i;
        if k < 0 || page[k / PAGE_SIZE] == null {
          return false;
        }
        i := i + 1;
      }
      mapped := true;
    }

    lemma PagesTaken()
      requires Valid()
      ensures page.Length == MAX_ARG_PAGES
      ensures forall i: nat :: i < MAX_ARG_PAGES ==> (page[i] != null <==> i in Allocated(view))
    {
    }
  }

  lemma NoWords(q: int, pages: set<nat>)
    ensures AllInPages(q, 0, pages)
  {
  }

  /** A word does not cross into another page. */
  lemma WordInPages(q: int, i: nat, n: nat, pages: set<nat>)
    requires q % 4 == 0 && i < n && AllInPages(q, i, pages)
    ensures if InPages(q + 4 * i, pages) then AllInPages(q, i + 1, pages) else !AllInPages(q, n, pages)
  {
    if InPages(q + 4 * i, pages) {
      forall k | q <= k < q + 4 * (i + 1)
        ensures InPages(k, pages)
      {
        assert k >= q + 4 * i ==> k / PAGE_SIZE == (q + 4 * i) / PAGE_SIZE;
      }
    }
  }

  lemma VectorIs(words: seq<nat>, argc: nat, found: seq<nat>)
    requires |words| == argc + 2 && |found| == argc && words[0] == argc && words[argc + 1] == 0
    requires forall j :: 0 <= j < argc ==> words[1 + j] == found[j]
    ensures words == [argc] + found + [0]
  {
    forall j | 0 < j <= argc
      ensures words[j] == found[j - 1]
    {
      assert words[1 + (j - 1)] == found[j - 1];
    }
  }

  /** n strings of the scan are left, from rest at ptr on; the addresses of those before are done. */
  predicate Scanning(v: Pages, rest: seq<byte>, n: nat, ptr: nat, done: seq<nat>, all: seq<nat>) {
    && PagesOk(v) && ptr >= STACK_START && Holds(v, ptr - STACK_START, rest) && ptr - STACK_START + |rest| <= AREA
    && Scan(rest, n).Some? && all == done + Addresses(Scan(rest, n).value, ptr)
  }

  lemma ScanStarts(v: Pages, m: seq<byte>, n: nat, ptr: nat)
    requires PagesOk(v) && ptr >= STACK_START && Holds(v, ptr - STACK_START, m) && ptr - STACK_START + |m| <= AREA
    requires Scan(m, n).Some?
    ensures Scanning(v, m, n, ptr, [], Addresses(Scan(m, n).value, ptr))
  {
    assert [] + Addresses(Scan(m, n).value, ptr) == Addresses(Scan(m, n).value, ptr);
  }

  lemma ScanParts(v: Pages, rest: seq<byte>, n: nat, ptr: nat, done: seq<nat>, all: seq<nat>)
    requires Scanning(v, rest, n, ptr, done, all)
    ensures PagesOk(v) && ptr >= STACK_START && Holds(v, ptr - STACK_START, rest) && ptr - STACK_START + |rest| <= AREA
    ensures Scan(rest, n).Some?
  {
  }

  lemma ScanTurn(v: Pages, rest: seq<byte>, n: nat, ptr: nat, done: seq<nat>, all: seq<nat>, k: nat, next: seq<byte>)
    requires Scanning(v, rest, n, ptr, done, all) && n > 0
    requires FirstNul(rest) == Some(k) && k < |rest| && next == rest[k + 1..]
    ensures Scanning(v, next, n - 1, ptr + k + 1, done + [ptr], all)
  {
    hide Holds, Scan, Addresses, FirstNul, CString;
    ScanStep(v, rest, n, ptr);
    OneMoreAddress(done, ptr, Addresses(Scan(next, n - 1).value, ptr + k + 1));
  }

  /** The string at ptr, and what follows it. */
  lemma ScanGoesOn(v: Pages, rest: seq<byte>, n: nat, ptr: nat, done: seq<nat>, all: seq<nat>)
    returns (str: seq<byte>, next: seq<byte>)
    requires Scanning(v, rest, n, ptr, done, all) && n > 0
    ensures PagesOk(v) && CString(str) && Holds(v, ptr - STACK_START, str + [0]) && ptr - STACK_START + |str| < AREA
    ensures Scanning(v, next, n - 1, ptr + |str| + 1, done + [ptr], all)
  {
    hide Holds, Scan, Addresses, FirstNul, CString, Scanning;
    ScanParts(v, rest, n, ptr, done, all);
    ScanStep(v, rest, n, ptr);
    var k := FirstNul(rest).value;
    str, next := rest[..k], rest[k + 1..];
    ScanTurn(v, rest, n, ptr, done, all, k, next);
  }

  lemma ScanDone(v: Pages, rest: seq<byte>, ptr: nat, done: seq<nat>, all: seq<nat>)
    requires Scanning(v, rest, 0, ptr, done, all)
    ensures all == done
  {
    hide Holds;
    ScanEnds(rest, ptr);
    assert done + [] == done;
  }

  lemma OneMoreAddress(before: seq<nat>, x: nat, later: seq<nat>)
    ensures before + ([x] + later) == before + [x] + later
  {
  }

  /** One string of the scan: where it ends, and where the next begins. */
  lemma ScanStep(v: Pages, m: seq<byte>, n: nat, base: nat)
    requires PagesOk(v) && n > 0 && Scan(m, n).Some? && base >= STACK_START && Holds(v, base - STACK_START, m)
    ensures FirstNul(m).Some?
    ensures var k := FirstNul(m).value;
      && k < |m| && CString(m[..k]) && Holds(v, base - STACK_START, m[..k] + [0])
      && Holds(v, base - STACK_START + k + 1, m[k + 1..])
      && Scan(m[k + 1..], n - 1).Some? && Scan(m, n).value == [m[..k]] + Scan(m[k + 1..], n - 1).value
      && Addresses(Scan(m, n).value, base) == [base] + Addresses(Scan(m[k + 1..], n - 1).value, base + k + 1)
  {
    hide Holds, Scan, Addresses, FirstNul;
    ScanSplits(m, n, base);
    var k := FirstNul(m).value;
    HoldsPart(v, base - STACK_START, m, 0, k + 1);
    HoldsPart(v, base - STACK_START, m, k + 1, |m|);
    assert m[0..k + 1] == m[..k] + [0] && m[k + 1..|m|] == m[k + 1..];
  }

  lemma ScanSplits(m: seq<byte>, n: nat, base: nat)
    requires n > 0 && Scan(m, n).Some?
    ensures FirstNul(m).Some?
    ensures var k := FirstNul(m).value;
      && k < |m| && m[k] == 0 && CString(m[..k])
      && Scan(m[k + 1..], n - 1).Some? && Scan(m, n).value == [m[..k]] + Scan(m[k + 1..], n - 1).value
      && Addresses(Scan(m, n).value, base) == [base] + Addresses(Scan(m[k + 1..], n - 1).value, base + k + 1)
  {
    hide FirstNul;
    var k := FirstNul(m).value;
    var rest := Scan(m[k + 1..], n - 1).value;
    assert ([m[..k]] + rest)[1..] == rest;
  }

  lemma ScanEnds(m: seq<byte>, base: nat)
    ensures Scan(m, 0) == Some([]) && Addresses([], base) == []
  {
  }

  /** One more byte stored of a string that goes to p. */
  lemma PutNext(v0: Pages, v: Pages, p: nat, bytes: seq<byte>, j: nat)
    requires PagesOk(v0) && PagesOk(v) && j < |bytes| && p + |bytes| <= AREA
    requires Holds(v, p, bytes[..j]) && KeepsOutside(v0, v, p, p + |bytes|)
    ensures
      var v' := Put(v, p + j, bytes[j]);
      Holds(v', p, bytes[..j + 1]) && KeepsOutside(v0, v', p, p + |bytes|)
  {
    hide Put, ByteAt;
    PutByteAt(v, p + j, bytes[j]);
    KeepsHeld(v, Put(v, p + j, bytes[j]), p + j, p + j + 1, p, bytes[..j]);
  }

  lemma TouchedNext(p: nat, j: nat, len: nat)
    requires j < len && p + len <= AREA
    ensures Touched(p, p + j + 1) == Touched(p, p + j) + {(p + j) / PAGE_SIZE}
    ensures Touched(p, p + j + 1) <= Touched(p, p + len)
  {
    TouchedByte(p + j);
    TouchedSplit(p, p + j, p + j + 1);
    TouchedSplit(p, p + j + 1, p + len);
  }

  lemma HoldsNothing(v: Pages, p: nat, q: nat)
    requires PagesOk(v)
    ensures Touched(p, p) == {} && Holds(v, p, []) && KeepsOutside(v, v, p, q)
  {
  }

  lemma EmptyTouched(p: nat)
    ensures Touched(p, p) == {}
  {
  }

  lemma NothingYet(v: Pages, p: nat)
    requires PagesOk(v)
    ensures Touched(p, p) == {} && Pack([]) == [] && Holds(v, p, []) && KeepsOutside(v, v, p, p)
  {
  }

  lemma KeepsMore(v0: Pages, v: Pages, v': Pages, lo: nat, mid: nat, hi: nat)
    requires PagesOk(v0) && PagesOk(v) && PagesOk(v') && lo <= mid <= hi
    requires KeepsOutside(v0, v, mid, hi) && KeepsOutside(v, v', lo, mid)
    ensures KeepsOutside(v0, v', lo, hi)
  {
  }

  /** The addresses of strings packed from base on. */
  function Addresses(argv: seq<seq<byte>>, base: nat): (r: seq<nat>)
    ensures |r| == |argv|
  {
    if argv == [] then [] else [base] + Addresses(argv[1..], base + |argv[0]| + 1)
  }

  /** The i-th address leads to the i-th string, its NUL included. */
  lemma {:induction false} AddressLeadsToString(v: Pages, argv: seq<seq<byte>>, p: nat, i: nat)
    requires PagesOk(v) && Holds(v, p, Pack(argv)) && i < |argv|
    ensures
      var a := Addresses(argv, STACK_START + p)[i];
      STACK_START + p <= a && Holds(v, a - STACK_START, argv[i] + [0])
  {
    var bytes, len := Pack(argv), |argv[0]| + 1;
    if i == 0 {
      HoldsPart(v, p, bytes, 0, len);
      assert bytes[0..len] == argv[0] + [0];
    } else {
      HoldsPart(v, p, bytes, len, |bytes|);
      assert bytes[len..|bytes|] == Pack(argv[1..]);
      AddressLeadsToString(v, argv[1..], p + len, i - 1);
    }
  }

  /** Where the argc/argv vector of n words starts, counted from the start of the area: it may lie below it. */
  function VectorOffset(p: nat, n: nat): (q: int) {
    (STACK_START + p - 4 * n) / 16 * 16 - STACK_START
  }

  predicate InPages(k: int, pages: set<nat>) {
    k >= 0 && k / PAGE_SIZE in pages
  }

  /** Every byte from q on, n words, is in one of the pages. */
  predicate AllInPages(q: int, n: nat, pages: set<nat>) {
    forall k :: q <= k < q + 4 * n ==> InPages(k, pages)
  }

  /** The vector lies wholly in pages taken for the strings exactly when something was packed and the lowest string
      starts far enough into its page. */
  lemma VectorInArgumentPagesExactly(p: nat, n: nat)
    requires p <= TOP && 2 <= n <= MAX_ARGS + 2
    ensures AllInPages(VectorOffset(p, n), n, Touched(p, TOP)) <==> p < TOP && p % PAGE_SIZE >= 4 * n
  {
    var q := VectorOffset(p, n);
    assert p - 4 * n - 15 <= q <= p - 4 * n && q % 16 == 0;
    if p == TOP {
      assert !InPages(q, Touched(p, TOP));
    } else if p % PAGE_SIZE >= 4 * n {
      forall k | q <= k < q + 4 * n
        ensures InPages(k, Touched(p, TOP))
      {
        assert k >= p / PAGE_SIZE * PAGE_SIZE;
      }
    } else {
      assert q < p / PAGE_SIZE * PAGE_SIZE;
      assert !InPages(q, Touched(p, TOP));
    }
  }

  /** An input on which it does not: one argument of 4090 letters and no environment. The string then starts one
      byte into the last page, and the vector of three words reaches below it. */
  lemma VectorOutsideExample()
    ensures
      var s: seq<byte> := seq(4090, _ => 97);
      var total := |Pack([])| + |Pack([s])|;
      && CStrings([s]) && total < TOP && PagesNeeded(total) == 1
      && !AllInPages(VectorOffset(TOP - total, 3), 3, Touched(TOP - total, TOP))
  {
    var s: seq<byte> := seq(4090, _ => 97);
    assert [s][1..] == [] && |Pack([s])| == 4091;
    VectorInArgumentPagesExactly(TOP - 4091, 3);
  }

  /** E2BIG; the loader's array overrun; a vector that reaches outside the pages taken for the strings; one that
      does not. */
  datatype Outcome = TooBig | Overrun | Outside | Ready

  /** do_execve's two calls: the environment's strings at the top, the arguments' below them. */
  method PackBoth(envp: seq<seq<byte>>, argv: seq<seq<byte>>, available: nat) returns (ok: bool, area: ArgPages, p: nat)
    requires CStrings(envp) && CStrings(argv)
    ensures fresh(area) && area.Valid()
    ensures var total := |Pack(envp)| + |Pack(argv)|; ok <==> total < TOP && PagesNeeded(total) <= available
    ensures ok ==> p == TOP - |Pack(envp)| - |Pack(argv)|
    ensures ok ==> Holds(area.view, p, Pack(argv)) && Holds(area.view, p + |Pack(argv)|, Pack(envp))
    ensures ok ==> Allocated(area.view) == Touched(p, TOP)
  {
    hide Holds, Touched, Allocated, Pack, ByteAt, PagesNeeded, ArgPages.Valid, Fits;
    area := new ArgPages(available);
    area.ViewIsOk();
    ghost var v0: Pages := area.view;
    FitFirst(envp, argv, v0, available);
    p := area.CopyStrings(envp, TOP);
    if p == 0 {
      return false, area, p;
    }
    ghost var p1: nat, v1: Pages := p, area.view;
    area.ViewIsOk();
    NothingTaken(Touched(p1, TOP));
    FitSecond(envp, argv, v0, v1, available, area.available);
    p := area.CopyStrings(argv, p);
    if p == 0 {
      return false, area, p;
    }
    area.ViewIsOk();
    KeepsHeld(v1, area.view, p, p1, p1, Pack(envp));
    TouchedSplit(p, p1, TOP);
    ok := true;
  }

  /** do_execve's packing and the loader's scan. */
  method Execute(envp: seq<seq<byte>>, argv: seq<seq<byte>>, available: nat)
      returns (outcome: Outcome, area: ArgPages, p: nat, sp: nat, vector: array<nat>)
    requires CStrings(envp) && CStrings(argv)
    ensures fresh(area) && area.Valid()
    ensures
      var total := |Pack(envp)| + |Pack(argv)|;
      outcome == if !(total < 131068 && PagesNeeded(total) <= available) then TooBig
                 else if |argv| > 10 then Overrun
                 else if total > 0 && (131068 - total) % 4096 >= 4 * (|argv| + 2) then Ready else Outside
    ensures outcome != TooBig ==> p == 131068 - |Pack(envp)| - |Pack(argv)|
    ensures outcome != TooBig ==> Holds(area.view, p, Pack(argv)) && Holds(area.view, p + |Pack(argv)|, Pack(envp))
    ensures outcome in {Ready, Outside} ==> vector[..] == [|argv|] + Addresses(argv, STACK_START + p) + [0]
    ensures outcome in {Ready, Outside} ==>
      sp % 16 == 0 && sp + 4 * vector.Length <= STACK_START + p < sp + 4 * vector.Length + 16
    ensures outcome in {Ready, Outside} ==>
      (outcome == Ready <==> AllInPages(sp - STACK_START, vector.Length, Allocated(area.view)))
  {
    hide Holds, Pack, PagesNeeded, Scan, Addresses, ArgPages.Valid, Touched, Allocated, AllInPages;
    var ok;
    ok, area, p := PackBoth(envp, argv, available);
    if !ok {
      sp, vector := 0, new nat[0];
      outcome := TooBig;
      return;
    }
    ScanUndoesPack(argv, []);
    assert Pack(argv) + [] == Pack(argv);
    var inside;
    inside, sp, vector := area.BuildVector(|argv|, p, Pack(argv));
    if !inside {
      outcome := Overrun;
      return;
    }
    VectorInArgumentPagesExactly(p, vector.Length);
    var mapped := area.VectorMapped(sp, vector.Length);
    outcome := if mapped then Ready else Outside;
  }

  /** The pages that strings of that total length take, from the top of the area down. */
  function PagesNeeded(total: nat): (n: int) {
    if total == 0 then 0 else MAX_ARG_PAGES - (TOP - total) / PAGE_SIZE
  }

  lemma NothingTaken(t: set<nat>)
    ensures t - {} == t && {} + t == t
  {
  }

  /** Without the first packing there is no second. */
  lemma FitFirst(envp: seq<seq<byte>>, argv: seq<seq<byte>>, v: Pages, available: nat)
    requires Allocated(v) == {}
    ensures
      var total := |Pack(envp)| + |Pack(argv)|;
      total < TOP && PagesNeeded(total) <= available ==> Fits(envp, TOP, v, available)
  {
    hide Pack, Touched, Allocated, PagesNeeded;
    var e, a := |Pack(envp)|, |Pack(argv)|;
    if e + a < TOP {
      BothFit(e, a, available);
      NothingTaken(Touched(TOP - e, TOP));
    }
  }

  lemma FitSecond(envp: seq<seq<byte>>, argv: seq<seq<byte>>, v0: Pages, v1: Pages, available: nat, left: nat)
    requires Allocated(v0) == {} && Fits(envp, TOP, v0, available)
    requires
      var t := Touched(TOP - |Pack(envp)|, TOP);
      Allocated(v1) == t && left == available - |t|
    ensures
      var total := |Pack(envp)| + |Pack(argv)|;
      Fits(argv, TOP - |Pack(envp)|, v1, left) <==> total < TOP && PagesNeeded(total) <= available
  {
    hide Pack, Touched, Allocated, PagesNeeded;
    var e, a := |Pack(envp)|, |Pack(argv)|;
    NothingTaken(Touched(TOP - e, TOP));
    if e + a < TOP {
      BothFit(e, a, available);
    }
  }

  /** Both packings succeed exactly when the two together fit and the pages they touch can be had. */
  lemma BothFit(e: nat, a: nat, available: nat)
    requires e + a < TOP
    ensures |Touched(TOP - e - a, TOP)| == PagesNeeded(e + a)
    ensures |Touched(TOP - e, TOP)| + |Touched(TOP - e - a, TOP - e) - Touched(TOP - e, TOP)| == PagesNeeded(e + a)
    ensures |Touched(TOP - e, TOP)| <= PagesNeeded(e + a)
  {
    hide Touched, Allocated;
    EmptyTouched(TOP);
    if e + a > 0 {
      TouchedSize(TOP - e - a);
    }
    TouchedSplit(TOP - e - a, TOP - e, TOP);
    UnionSize(Touched(TOP - e, TOP), Touched(TOP - e - a, TOP - e));
    assert Touched(TOP - e, TOP) + Touched(TOP - e - a, TOP - e) == Touched(TOP - e - a, TOP);
  }
}
