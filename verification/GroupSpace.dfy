/** ext2's free-space accounting on values: one bitmap and one free count per group, one total. It serves
    blocks and inodes alike. */
module GroupSpace {
  import opened Common

  /** How units are numbered: bit b of group g is number b + perGroup * g + base, and numbers end at limit. */
  datatype Layout = Layout(perGroup: nat, base: nat, limit: nat)

  /** The loops may look at more counts than there are groups with a bitmap; those are zero. */
  datatype Space = Space(bits: seq<seq<bool>>, free: seq<nat>, total: nat)

  function Number(l: Layout, g: nat, b: nat): (u: nat)
    ensures u >= l.base
  {
    b + l.perGroup * g + l.base
  }

  function Clear(bits: seq<bool>): (n: nat)
    ensures n <= |bits|
  {
    if bits == [] then 0 else (if bits[0] then 0 else 1) + Clear(bits[1..])
  }

  function Sum(counts: seq<nat>): (n: nat) {
    if counts == [] then 0 else counts[0] + Sum(counts[1..])
  }

  function FirstClear(bits: seq<bool>): (b: Option<nat>)
    ensures b.None? ==> Clear(bits) == 0 && forall i :: 0 <= i < |bits| ==> bits[i]
    ensures b.Some? ==> b.value < |bits| && !bits[b.value] && forall i :: 0 <= i < b.value ==> bits[i]
  {
    if bits == [] then None else if !bits[0] then Some(0)
    else match FirstClear(bits[1..])
      case None => None
      case Some(b) => Some(b + 1)
  }

  function FirstNonzero(counts: seq<nat>): (g: Option<nat>)
    ensures g.None? ==> Sum(counts) == 0 && forall i :: 0 <= i < |counts| ==> counts[i] == 0
    ensures g.Some? ==> g.value < |counts| && counts[g.value] != 0 && forall i :: 0 <= i < g.value ==> counts[i] == 0
  {
    if counts == [] then None else if counts[0] != 0 then Some(0)
    else match FirstNonzero(counts[1..])
      case None => None
      case Some(g) => Some(g + 1)
  }

  /** Every group's count is its clear bits, the total is their sum, and bits past the last unit are set. */
  ghost predicate Consistent(l: Layout, s: Space) {
    && l.perGroup > 0 && |s.bits| <= |s.free| && l.limit <= l.base + l.perGroup * |s.bits|
    && (forall g :: 0 <= g < |s.bits| ==> s.free[g] == Clear(s.bits[g]) && l.perGroup <= |s.bits[g]|)
    && (forall g :: |s.bits| <= g < |s.free| ==> s.free[g] == 0)
    && s.total == Sum(s.free)
    && (forall g, b :: 0 <= g < |s.bits| && 0 <= b < |s.bits[g]| && !s.bits[g][b] ==> InUse(l, g, b))
  }

  /** Bit b of group g stands for a unit. */
  predicate InUse(l: Layout, g: nat, b: nat) {
    b < l.perGroup && Number(l, g, b) < l.limit
  }

  predicate Unit(l: Layout, u: nat) {
    l.base <= u < l.limit
  }

  function GroupOf(l: Layout, u: nat): (g: nat)
    requires l.perGroup > 0 && l.base <= u
  {
    (u - l.base) / l.perGroup
  }

  function BitOf(l: Layout, u: nat): (b: nat)
    requires l.perGroup > 0 && l.base <= u
    ensures b < l.perGroup
  {
    Remainder(u - l.base, l.perGroup);
    (u - l.base) % l.perGroup
  }

  lemma Remainder(x: nat, k: nat)
    requires k > 0
    ensures 0 <= x % k < k && x == k * (x / k) + x % k
  {
  }

  lemma QuotientIs(x: nat, k: nat, q: nat, r: nat)
    requires k > 0 && r < k && x == r + k * q
    ensures x / k == q && x % k == r
  {
    Remainder(x, k);
    var d := x / k - q;
    assert k * d == r - x % k by {
      assert k * (x / k) - k * q == k * d;
    }
    Multiple(k, d);
  }

  lemma Multiple(k: int, d: int)
    requires k > 0
    ensures (d >= 1 ==> k * d >= k) && (d <= -1 ==> k * d <= -k)
  {
    if d >= 1 {
      assert k * (d - 1) >= 0;
    } else if d <= -1 {
      assert k * (-d - 1) >= 0;
    }
  }

  /** The arithmetic of free undoes that of allocation. */
  lemma NumberingInverts(l: Layout, g: nat, b: nat)
    requires b < l.perGroup
    ensures GroupOf(l, Number(l, g, b)) == g && BitOf(l, Number(l, g, b)) == b
  {
    QuotientIs(Number(l, g, b) - l.base, l.perGroup, g, b);
  }

  /** And every number stands for exactly one bit of a group that exists. */
  lemma NumberedBit(l: Layout, s: Space, u: nat)
    requires Consistent(l, s) && Unit(l, u)
    ensures GroupOf(l, u) < |s.bits| && BitOf(l, u) < |s.bits[GroupOf(l, u)]|
    ensures Number(l, GroupOf(l, u), BitOf(l, u)) == u
    ensures u == l.base + l.perGroup * GroupOf(l, u) + BitOf(l, u) && BitOf(l, u) < l.perGroup
  {
    hide Sum, Clear;
    var g := GroupOf(l, u);
    Remainder(u - l.base, l.perGroup);
    if g >= |s.bits| {
      Multiples(l.perGroup, |s.bits|, g);
      assert false;
    }
  }

  lemma Multiples(k: nat, a: nat, b: nat)
    requires a <= b
    ensures k * a <= k * b
  {
  }

  ghost predicate IsSet(l: Layout, s: Space, u: nat)
    requires Consistent(l, s) && Unit(l, u)
  {
    NumberedBit(l, s, u);
    s.bits[GroupOf(l, u)][BitOf(l, u)]
  }

  // ----- the two operations -----

  /** The space after an allocation and the number given out. */
  function Allocate(l: Layout, s: Space): (r: (Space, Option<nat>))
    requires |s.bits| <= |s.free|
  {
    match FirstNonzero(s.free)
    case None => (s, None)
    case Some(g) =>
      if g >= |s.bits| then (s, None)
      else match FirstClear(s.bits[g])
        case None => (s, None)
        case Some(b) =>
          (Space(s.bits[g := s.bits[g][b := true]], s.free[g := s.free[g] - 1],
                 if s.total == 0 then 0 else s.total - 1),
           Some(Number(l, g, b)))
  }

  /** The space after a free, None when the bit was clear already. */
  function Release(l: Layout, s: Space, u: nat): (r: Option<Space>)
    requires l.perGroup > 0 && l.base <= u
    requires GroupOf(l, u) < |s.bits| <= |s.free| && BitOf(l, u) < |s.bits[GroupOf(l, u)]|
  {
    var g, b := GroupOf(l, u), BitOf(l, u);
    if !s.bits[g][b] then None
    else Some(Space(s.bits[g := s.bits[g][b := false]], s.free[g := s.free[g] + 1], s.total + 1))
  }

  // ----- counting -----

  lemma {:induction false} ClearSplits(bits: seq<bool>, b: nat, v: bool)
    requires b < |bits|
    ensures Clear(bits[b := v]) == Clear(bits) - (if bits[b] then 0 else 1) + (if v then 0 else 1)
  {
    if b > 0 {
      assert bits[b := v][1..] == bits[1..][b - 1 := v];
      ClearSplits(bits[1..], b - 1, v);
    } else {
      assert bits[b := v][1..] == bits[1..];
    }
  }

  lemma {:induction false} SumSplits(counts: seq<nat>, g: nat, n: nat)
    requires g < |counts|
    ensures Sum(counts[g := n]) == Sum(counts) - counts[g] + n
  {
    if g > 0 {
      assert counts[g := n][1..] == counts[1..][g - 1 := n];
      SumSplits(counts[1..], g - 1, n);
    } else {
      assert counts[g := n][1..] == counts[1..];
    }
  }

  lemma {:induction false} SumAtLeast(counts: seq<nat>, g: nat)
    requires g < |counts|
    ensures counts[g] <= Sum(counts)
  {
    if g > 0 {
      SumAtLeast(counts[1..], g - 1);
    }
  }

  lemma {:induction false} NoneClear(bits: seq<bool>)
    requires Clear(bits) == 0
    ensures forall i :: 0 <= i < |bits| ==> bits[i]
  {
    if bits != [] {
      NoneClear(bits[1..]);
      assert forall i :: 1 <= i < |bits| ==> bits[i] == bits[1..][i - 1];
    }
  }

  /** Setting or clearing one bit, the counts following, keeps the accounting. */
  lemma FlipKeeps(l: Layout, s: Space, g: nat, b: nat, v: bool)
    requires Consistent(l, s) && g < |s.bits| && b < |s.bits[g]| && s.bits[g][b] != v && InUse(l, g, b)
    ensures
      var d: int := if v then -1 else 1;
      s.free[g] + d >= 0 && s.total + d >= 0
      && Consistent(l, Space(s.bits[g := s.bits[g][b := v]], s.free[g := s.free[g] + d], s.total + d))
  {
    hide Clear, Sum, InUse;
    ClearSplits(s.bits[g], b, v);
    SumAtLeast(s.free, g);
    var d: int := if v then -1 else 1;
    SumSplits(s.free, g, s.free[g] + d);
  }

  /** Only unit u changes. */
  lemma FlipOnly(l: Layout, s: Space, s': Space, u: nat, v: bool, w: nat)
    requires Consistent(l, s) && Consistent(l, s') && Unit(l, u) && Unit(l, w)
    requires
      var g, b := GroupOf(l, u), BitOf(l, u);
      g < |s.bits| && b < |s.bits[g]| && s'.bits == s.bits[g := s.bits[g][b := v]]
    ensures IsSet(l, s', w) == if w == u then v else IsSet(l, s, w)
  {
    hide Sum, Clear;
    NumberedBit(l, s, u);
    NumberedBit(l, s, w);
  }

  // ----- what the operations do -----

  /** An allocation fails exactly when the total is zero; the exits for a group without a clear bit are
      never taken. Otherwise it sets one clear bit, of a unit that exists, and nothing else. */
  lemma AllocateKeeps(l: Layout, s: Space)
    requires Consistent(l, s)
    ensures
      var (s', u) := Allocate(l, s);
      && Consistent(l, s')
      && (u.None? <==> s.total == 0)
      && (u.None? ==> s' == s && forall w :: Unit(l, w) ==> IsSet(l, s, w))
      && (u.Some? ==>
            && Unit(l, u.value) && !IsSet(l, s, u.value) && s'.total == s.total - 1
            && forall w :: Unit(l, w) ==> IsSet(l, s', w) == (w == u.value || IsSet(l, s, w)))
  {
    hide Sum, Clear;
    var (s', u) := Allocate(l, s);
    if s.total == 0 {
      forall g | 0 <= g < |s.free|
        ensures s.free[g] == 0
      {
        SumAtLeast(s.free, g);
      }
      AllSet(l, s);
    } else {
      var g := FirstNonzero(s.free).value;
      var b := FirstClear(s.bits[g]).value;
      FlipKeeps(l, s, g, b, true);
      NumberingInverts(l, g, b);
      forall w | Unit(l, w)
        ensures IsSet(l, s', w) == (w == u.value || IsSet(l, s, w))
      {
        FlipOnly(l, s, s', u.value, true, w);
      }
    }
  }

  /** The unit given out is the lowest free one. */
  lemma AllocateLowest(l: Layout, s: Space)
    requires Consistent(l, s) && s.total > 0
    ensures
      var u := Allocate(l, s).1;
      u.Some? && Unit(l, u.value) && !IsSet(l, s, u.value) && forall w :: l.base <= w < u.value ==> IsSet(l, s, w)
  {
    hide Sum, Clear;
    AllocateKeeps(l, s);
    var g := FirstNonzero(s.free).value;
    forall w | l.base <= w < Allocate(l, s).1.value
      ensures IsSet(l, s, w)
    {
      SetBefore(l, s, g, FirstClear(s.bits[g]).value, w);
    }
  }

  /** Groups without a free unit and the set bits before the first clear one lie below it. */
  lemma SetBefore(l: Layout, s: Space, g: nat, b: nat, w: nat)
    requires Consistent(l, s) && g < |s.bits| && b < |s.bits[g]| && Unit(l, w) && w < Number(l, g, b)
    requires !s.bits[g][b] && (forall i :: 0 <= i < g ==> s.free[i] == 0) && forall i :: 0 <= i < b ==> s.bits[g][i]
    ensures IsSet(l, s, w)
  {
    hide Sum, Clear, GroupOf, BitOf;
    NumberedBit(l, s, w);
    assert InUse(l, g, b);
    NotBehind(l, GroupOf(l, w), BitOf(l, w), g, b);
    if GroupOf(l, w) < g {
      NoneClear(s.bits[GroupOf(l, w)]);
    }
  }

  lemma NotBehind(l: Layout, h: nat, c: nat, g: nat, b: nat)
    requires Number(l, h, c) < Number(l, g, b) && b < l.perGroup
    ensures h < g || (h == g && c < b)
  {
    var k := l.perGroup;
    assert c + k * h < b + k * g;
    assert k * (g + 1) == k * g + k;
    hide Number;
    if h > g {
      Multiples(k, g + 1, h);
    }
  }

  lemma AllSet(l: Layout, s: Space)
    requires Consistent(l, s) && forall g :: 0 <= g < |s.free| ==> s.free[g] == 0
    ensures forall w :: Unit(l, w) ==> IsSet(l, s, w)
  {
    hide Sum;
    forall w | Unit(l, w)
      ensures IsSet(l, s, w)
    {
      NumberedBit(l, s, w);
      NoneClear(s.bits[GroupOf(l, w)]);
    }
  }

  /** A free is refused exactly when the unit is free already; otherwise it clears that bit alone. */
  lemma ReleaseKeeps(l: Layout, s: Space, u: nat)
    requires Consistent(l, s) && Unit(l, u)
    ensures GroupOf(l, u) < |s.bits| && BitOf(l, u) < |s.bits[GroupOf(l, u)]|
    ensures
      var r := Release(l, s, u);
      && (r.None? <==> !IsSet(l, s, u))
      && (r.Some? ==>
            && Consistent(l, r.value) && r.value.total == s.total + 1
            && forall w :: Unit(l, w) ==> IsSet(l, r.value, w) == (w != u && IsSet(l, s, w)))
  {
    hide Sum, Clear;
    NumberedBit(l, s, u);
    var g, b := GroupOf(l, u), BitOf(l, u);
    var r := Release(l, s, u);
    if r.Some? {
      FlipKeeps(l, s, g, b, false);
      forall w | Unit(l, w)
        ensures IsSet(l, r.value, w) == (w != u && IsSet(l, s, w))
      {
        FlipOnly(l, s, r.value, u, false, w);
      }
    }
  }

  /** Freeing what was just allocated restores every bitmap and every count. */
  lemma ReleaseUndoesAllocate(l: Layout, s: Space)
    requires Consistent(l, s) && s.total > 0
    ensures
      var (s', u) := Allocate(l, s);
      && u.Some? && Unit(l, u.value) && Consistent(l, s')
      && GroupOf(l, u.value) < |s'.bits| && BitOf(l, u.value) < |s'.bits[GroupOf(l, u.value)]|
      && Release(l, s', u.value) == Some(s)
  {
    hide Sum, Clear;
    AllocateKeeps(l, s);
    var (s', u) := Allocate(l, s);
    var g := FirstNonzero(s.free).value;
    var b := FirstClear(s.bits[g]).value;
    NumberingInverts(l, g, b);
    NumberedBit(l, s', u.value);
    assert s'.bits[g][b := false] == s.bits[g];
    assert s'.bits[g := s.bits[g]] == s.bits;
    assert s'.free[g := s.free[g]] == s.free;
  }

  // ----- every run -----

  datatype Op = New | Free(unit: nat)

  /** The space and the units handed out since the start. */
  datatype State = State(space: Space, held: set<nat>)

  /** The caller frees only what it holds. */
  predicate Allowed(st: State, op: Op) {
    op.Free? ==> op.unit in st.held
  }

  ghost predicate Reachable(l: Layout, start: Space, st: State) {
    && Consistent(l, start) && Consistent(l, st.space)
    && (forall u :: u in st.held ==> Unit(l, u) && !IsSet(l, start, u))
    && (forall u :: Unit(l, u) ==> (IsSet(l, st.space, u) <==> IsSet(l, start, u) || u in st.held))
    && st.space.total + |st.held| == start.total
  }

  ghost function Step(l: Layout, start: Space, st: State, op: Op): (r: State)
    requires Reachable(l, start, st) && Allowed(st, op)
    ensures Reachable(l, start, r)
  {
    StepKeeps(l, start, st, op);
    match op
    case New =>
      var (s', u) := Allocate(l, st.space);
      if u.None? then st else State(s', st.held + {u.value})
    case Free(u) =>
      State(Release(l, st.space, u).value, st.held - {u})
  }

  lemma StepKeeps(l: Layout, start: Space, st: State, op: Op)
    requires Reachable(l, start, st) && Allowed(st, op)
    ensures op.New? ==>
      var (s', u) := Allocate(l, st.space);
      u.Some? ==> Reachable(l, start, State(s', st.held + {u.value})) && u.value !in st.held
    ensures op.Free? ==>
      && Unit(l, op.unit) && GroupOf(l, op.unit) < |st.space.bits|
      && BitOf(l, op.unit) < |st.space.bits[GroupOf(l, op.unit)]|
      && Release(l, st.space, op.unit).Some?
      && Reachable(l, start, State(Release(l, st.space, op.unit).value, st.held - {op.unit}))
  {
    hide Consistent, IsSet, Allocate, Release;
    match op
    case New => AllocateKeeps(l, st.space);
    case Free(u) => ReleaseKeeps(l, st.space, u);
  }

  /** Along every run the free counts stay exact, a unit handed out is one that was free at the start and
      that nobody holds, and units are conserved: free ones and held ones always add up to the start's. */
  ghost function Run(l: Layout, start: Space, st: State, ops: seq<Op>): (r: Option<State>)
    requires Reachable(l, start, st)
    ensures r.Some? ==> Reachable(l, start, r.value)
    decreases |ops|
  {
    hide Reachable;
    if ops == [] then Some(st)
    else if !Allowed(st, ops[0]) then None
    else Run(l, start, Step(l, start, st, ops[0]), ops[1..])
  }

  /** From any consistent start with nothing held, all of the above holds after any allowed run; and a further
      allocation fails exactly when every unit free at the start is held. */
  lemma EveryRunConserves(l: Layout, start: Space, ops: seq<Op>)
    requires Consistent(l, start)
    ensures Reachable(l, start, State(start, {}))
    ensures
      var r := Run(l, start, State(start, {}), ops);
      r.Some? ==>
        && Consistent(l, r.value.space) && r.value.space.total + |r.value.held| == start.total
        && (Allocate(l, r.value.space).1.None? <==> |r.value.held| == start.total)
  {
    hide IsSet;
    var r := Run(l, start, State(start, {}), ops);
    if r.Some? {
      AllocateKeeps(l, r.value.space);
    }
  }
}
