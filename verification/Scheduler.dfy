/** Round-robin dispatch over the process table. What processes do while they run, and interrupts while the
    processor idles, is given from outside: any change of any state. */
module Scheduler {
  import opened Common

  datatype ProcState = Unused | Embryo | Sleeping | Ready | Running | Zombie

  type Table = s: seq<ProcState> | |s| == NUM_PROC witness seq(NUM_PROC, _ => Unused)

  /** The processor idles, or the process in a slot runs, on the table it found. */
  datatype Turn = Idle | Runs(slot: nat, found: Table)

  /** The slots dispatched, in order, what became of each turn, and the table at the end. */
  datatype Outcome = Outcome(trace: seq<nat>, history: seq<Turn>, table: Table)

  /** The table when slot i gives up the processor: still running means ready again. */
  function Switched(left: Table, i: nat): (r: Table)
    requires i < NUM_PROC
  {
    if left[i] == Running then left[i := Ready] else left
  }

  /** The scheduler from slot i of a pass on (NUM_PROC: the pass is over and the processor idles). turns says
      what each process run, or each idling, leaves of the table; the run ends when they are used up. */
  function Run(t: Table, i: nat, turns: seq<Table>): (r: Outcome)
    requires i <= NUM_PROC
    decreases |turns|, NUM_PROC - i
  {
    if i < NUM_PROC && t[i] != Ready then Run(t, i + 1, turns)
    else if turns == [] then Outcome([], [], t)
    else if i == NUM_PROC then
      var rest := Run(turns[0], 0, turns[1..]);
      Outcome(rest.trace, [Idle] + rest.history, rest.table)
    else
      var rest := Run(Switched(turns[0], i), i + 1, turns[1..]);
      Outcome([i] + rest.trace, [Runs(i, t[i := Running])] + rest.history, rest.table)
  }

  lemma RunUnfolds(t: Table, i: nat, turns: seq<Table>)
    requires i <= NUM_PROC
    ensures Run(t, i, turns) ==
      if i < NUM_PROC && t[i] != Ready then Run(t, i + 1, turns)
      else if turns == [] then Outcome([], [], t)
      else if i == NUM_PROC then
        var rest := Run(turns[0], 0, turns[1..]);
        Outcome(rest.trace, [Idle] + rest.history, rest.table)
      else
        var rest := Run(Switched(turns[0], i), i + 1, turns[1..]);
        Outcome([i] + rest.trace, [Runs(i, t[i := Running])] + rest.history, rest.table)
  {
  }

  // ----- what a run is, turn by turn -----

  /** The state of slot s before turn k: as the turn before left it, except that the process which had that turn
      and was still running is ready. */
  function StateBefore(t: Table, turns: seq<Table>, h: seq<Turn>, k: nat, s: nat): (p: ProcState)
    requires k <= |turns| && k <= |h| && s < NUM_PROC
  {
    if k == 0 then t[s]
    else if h[k - 1].Runs? && h[k - 1].slot == s && turns[k - 1][s] == Running then Ready
    else turns[k - 1][s]
  }

  /** Where the scan stands before turn k, from slot i on at first: behind the slot that ran, or at the start
      after idling. */
  function ScanFrom(h: seq<Turn>, i: nat, k: nat): (p: nat)
    requires k <= |h|
  {
    if k == 0 then i else if h[k - 1].Idle? then 0 else h[k - 1].slot + 1
  }

  /** Turn k goes to the first ready slot from where the scan stands, which finds itself running and all else as it
      was; to none if there is no ready slot from there on. */
  predicate TurnIsRight(t: Table, i: nat, turns: seq<Table>, h: seq<Turn>, k: nat)
    requires k < |turns| == |h|
  {
    var p := ScanFrom(h, i, k);
    match h[k]
    case Idle => forall s :: p <= s < NUM_PROC ==> StateBefore(t, turns, h, k, s) != Ready
    case Runs(slot, found) =>
      && p <= slot < NUM_PROC && StateBefore(t, turns, h, k, slot) == Ready
      && (forall s :: p <= s < slot ==> StateBefore(t, turns, h, k, s) != Ready)
      && forall s :: 0 <= s < NUM_PROC ==> found[s] == if s == slot then Running else StateBefore(t, turns, h, k, s)
  }

  predicate RoundRobin(t: Table, i: nat, turns: seq<Table>, h: seq<Turn>, end: Table) {
    && |h| == |turns|
    && (forall k :: 0 <= k < |turns| ==> TurnIsRight(t, i, turns, h, k))
    && forall s :: 0 <= s < NUM_PROC ==> end[s] == StateBefore(t, turns, h, |turns|, s)
  }

  function SlotsOf(h: seq<Turn>): (r: seq<nat>) {
    if h == [] then [] else (if h[0].Runs? then [h[0].slot] else []) + SlotsOf(h[1..])
  }

  /** Every run is the round robin. */
  lemma {:induction false} RunIsRoundRobin(t: Table, i: nat, turns: seq<Table>)
    requires i <= NUM_PROC
    ensures var r := Run(t, i, turns); RoundRobin(t, i, turns, r.history, r.table) && r.trace == SlotsOf(r.history)
    decreases |turns|, NUM_PROC - i
  {
    var r := Run(t, i, turns);
    if i < NUM_PROC && t[i] != Ready {
      RunIsRoundRobin(t, i + 1, turns);
      ScanSkips(t, i, turns, r.history, r.table);
    } else if turns != [] {
      var next := if i == NUM_PROC then turns[0] else Switched(turns[0], i);
      var place := if i == NUM_PROC then 0 else i + 1;
      RunIsRoundRobin(next, place, turns[1..]);
      assert r.history[1..] == Run(next, place, turns[1..]).history;
      FirstTurn(t, i, turns, r.history, r.table, next, place);
    }
  }

  lemma ScanSkips(t: Table, i: nat, turns: seq<Table>, h: seq<Turn>, end: Table)
    requires i < NUM_PROC && t[i] != Ready && RoundRobin(t, i + 1, turns, h, end)
    ensures RoundRobin(t, i, turns, h, end)
  {
    forall k | 0 <= k < |turns|
      ensures TurnIsRight(t, i, turns, h, k)
    {
      assert TurnIsRight(t, i + 1, turns, h, k);
    }
  }

  /** A first turn before a round robin that starts from what it leaves. */
  lemma FirstTurn(t: Table, i: nat, turns: seq<Table>, h: seq<Turn>, end: Table, next: Table, place: nat)
    requires turns != [] && h != [] && |h| == |turns| && RoundRobin(next, place, turns[1..], h[1..], end)
    requires TurnIsRight(t, i, turns, h, 0) && place == ScanFrom(h, i, 1)
    requires forall s :: 0 <= s < NUM_PROC ==> next[s] == StateBefore(t, turns, h, 1, s)
    ensures RoundRobin(t, i, turns, h, end)
  {
    hide TurnIsRight;
    forall k: nat, s: nat | k < |turns| && s < NUM_PROC
      ensures StateBefore(next, turns[1..], h[1..], k, s) == StateBefore(t, turns, h, k + 1, s)
    {
    }
    forall k | 0 <= k < |turns|
      ensures TurnIsRight(t, i, turns, h, k)
    {
      if k > 0 {
        assert TurnIsRight(next, place, turns[1..], h[1..], k - 1);
        SameTurn(next, place, turns[1..], h[1..], k - 1, t, i, turns, h, k);
      }
    }
  }

  /** One turn seen in two runs that agree on the table before it and on where the scan stands. */
  lemma SameTurn(t: Table, i: nat, turns: seq<Table>, h: seq<Turn>, k: nat,
                 t': Table, i': nat, turns': seq<Table>, h': seq<Turn>, k': nat)
    requires k < |turns| == |h| && TurnIsRight(t, i, turns, h, k) && k' < |turns'| == |h'| && h'[k'] == h[k]
    requires ScanFrom(h', i', k') == ScanFrom(h, i, k)
    requires forall s :: 0 <= s < NUM_PROC ==> StateBefore(t, turns, h, k, s) == StateBefore(t', turns', h', k', s)
    ensures TurnIsRight(t', i', turns', h', k')
  {
    hide StateBefore, ScanFrom;
  }

  /** Neither start nor any turn leaves slot s ready, or running for the scheduler to make it ready. */
  predicate NeverReady(t: Table, turns: seq<Table>, s: nat)
    requires s < NUM_PROC
  {
    t[s] !in {Ready, Running} && forall k :: 0 <= k < |turns| ==> turns[k][s] !in {Ready, Running}
  }

  /** A process that is asleep, has exited or is no process, at the start and whenever a turn ends, never runs. */
  lemma NeverReadyNeverRuns(t: Table, i: nat, turns: seq<Table>, s: nat)
    requires i <= NUM_PROC && s < NUM_PROC && NeverReady(t, turns, s)
    ensures s !in Run(t, i, turns).trace && Run(t, i, turns).table[s] !in {Ready, Running}
  {
    var r := Run(t, i, turns);
    RunIsRoundRobin(t, i, turns);
    forall k | 0 <= k < |turns| && r.history[k].Runs?
      ensures r.history[k].slot != s
    {
      assert TurnIsRight(t, i, turns, r.history, k);
    }
    NotAmong(r.history, s);
  }

  lemma {:induction false} NotAmong(h: seq<Turn>, s: nat)
    requires forall k :: 0 <= k < |h| && h[k].Runs? ==> h[k].slot != s
    ensures s !in SlotsOf(h)
  {
    if h != [] {
      NotAmong(h[1..], s);
    }
  }

  /** A process that some turn leaves asleep or exited, and no later turn wakes, does not run again: not even right
      after a turn of its own. */
  lemma AsleepRunsNoMore(t: Table, i: nat, turns: seq<Table>, s: nat, k: nat)
    requires i <= NUM_PROC && s < NUM_PROC && k < |turns|
    requires forall m :: k <= m < |turns| ==> turns[m][s] !in {Ready, Running}
    ensures var r := Run(t, i, turns);
      && |r.history| == |turns| && s !in SlotsOf(r.history[k + 1..]) && r.table[s] == turns[|turns| - 1][s]
      && forall m :: k < m < |turns| && r.history[m].Runs? ==> r.history[m].slot != s
  {
    var r := Run(t, i, turns);
    RunIsRoundRobin(t, i, turns);
    forall m | k < m < |turns| && r.history[m].Runs?
      ensures r.history[m].slot != s
    {
      assert TurnIsRight(t, i, turns, r.history, m);
    }
    NotAmong(r.history[k + 1..], s);
  }

  // ----- fairness -----

  /** Slot w stays ready through all turns. */
  predicate StaysReady(w: nat, turns: seq<Table>)
    requires w < NUM_PROC
  {
    forall k :: 0 <= k < |turns| ==> turns[k][w] == Ready
  }

  /** The slots the scan meets from i on before it meets w. */
  predicate Ahead(s: nat, i: nat, w: nat) {
    if i <= w then i <= s < w else i <= s < NUM_PROC || s < w
  }

  /** How far the scan is from w, the idling counted. */
  function Distance(i: nat, w: nat): (n: nat)
    requires i <= NUM_PROC && w < NUM_PROC
  {
    if i <= w then w - i else NUM_PROC - i + 1 + w
  }

  /** Until a ready slot is dispatched, only slots ahead of it are, each at most once; and its turn comes
      before the scan has made one round. */
  lemma {:induction false} BeforeItsTurn(t: Table, i: nat, w: nat, turns: seq<Table>)
    requires i <= NUM_PROC && w < NUM_PROC && t[w] == Ready && StaysReady(w, turns)
    requires w !in Run(t, i, turns).trace
    ensures forall k :: 0 <= k < |Run(t, i, turns).trace| ==> Ahead(Run(t, i, turns).trace[k], i, w)
    ensures forall j, k :: 0 <= j < k < |Run(t, i, turns).trace| ==>
      Run(t, i, turns).trace[j] != Run(t, i, turns).trace[k]
    ensures |turns| <= Distance(i, w)
    decreases |turns|, NUM_PROC - i
  {
    if i < NUM_PROC && t[i] != Ready {
      BeforeItsTurn(t, i + 1, w, turns);
    } else if turns != [] {
      assert StaysReady(w, turns[1..]);
      if i == NUM_PROC {
        BeforeItsTurn(turns[0], 0, w, turns[1..]);
      } else {
        var rest := Run(Switched(turns[0], i), i + 1, turns[1..]);
        assert Run(t, i, turns).trace == [i] + rest.trace;
        assert w !in rest.trace && w != i;
        BeforeItsTurn(Switched(turns[0], i), i + 1, w, turns[1..]);
      }
    }
  }

  /** The dispatches before that of w, at most all others once: distinct numbers below NUM_PROC without w. */
  lemma {:induction false} DistinctSlots(trace: seq<nat>, bound: nat)
    requires forall k :: 0 <= k < |trace| ==> trace[k] < bound
    requires forall j, k :: 0 <= j < k < |trace| ==> trace[j] != trace[k]
    ensures |trace| <= bound
    decreases bound
  {
    assert trace == [] || trace[0] < bound;
    if bound == 0 {
      return;
    }
    if exists k :: 0 <= k < |trace| && trace[k] == bound - 1 {
      var k :| 0 <= k < |trace| && trace[k] == bound - 1;
      var rest := trace[..k] + trace[k + 1..];
      assert forall j :: 0 <= j < |rest| ==> rest[j] == if j < k then trace[j] else trace[j + 1];
      DistinctSlots(rest, bound - 1);
    } else {
      DistinctSlots(trace, bound - 1);
    }
  }

  /** Slot w is ready in every table left before its own dispatch; what comes after does not matter. */
  ghost predicate ReadyUntilDispatched(t: Table, i: nat, w: nat, turns: seq<Table>)
    requires i <= NUM_PROC && w < NUM_PROC
  {
    && t[w] == Ready
    && forall m: nat :: m <= |turns| && w !in Run(t, i, turns[..m]).trace ==> StaysReady(w, turns[..m])
  }

  /** A process that is ready and stays so until it is dispatched is dispatched within NUM_PROC + 1 turns. */
  lemma TurnComes(t: Table, i: nat, w: nat, turns: seq<Table>)
    requires i <= NUM_PROC && w < NUM_PROC && ReadyUntilDispatched(t, i, w, turns) && |turns| > NUM_PROC
    ensures w in Run(t, i, turns).trace
  {
    if w !in Run(t, i, turns).trace {
      assert turns[..|turns|] == turns;
      BeforeItsTurn(t, i, w, turns);
    }
  }

  /** How many turns the first n dispatches take. */
  lemma {:induction false} StopBefore(t: Table, i: nat, turns: seq<Table>, n: nat)
    returns (m: nat)
    requires i <= NUM_PROC && n <= |Run(t, i, turns).trace|
    ensures m <= |turns| && Run(t, i, turns[..m]).trace == Run(t, i, turns).trace[..n]
    decreases |turns|, NUM_PROC - i
  {
    if n == 0 {
      m := 0;
      NoTurns(t, i);
    } else if i < NUM_PROC && t[i] != Ready {
      m := StopBefore(t, i + 1, turns, n);
    } else if i == NUM_PROC {
      m := StopBefore(turns[0], 0, turns[1..], n);
      assert turns[..m + 1][1..] == turns[1..][..m] && turns[..m + 1][0] == turns[0];
      m := m + 1;
    } else {
      m := StopBefore(Switched(turns[0], i), i + 1, turns[1..], n - 1);
      assert turns[..m + 1][1..] == turns[1..][..m] && turns[..m + 1][0] == turns[0];
      m := m + 1;
    }
  }

  lemma {:induction false} NoTurns(t: Table, i: nat)
    requires i <= NUM_PROC
    ensures Run(t, i, []).trace == []
    decreases NUM_PROC - i
  {
    if i < NUM_PROC && t[i] != Ready {
      NoTurns(t, i + 1);
    }
  }

  /** A process that becomes ready, wherever the scan then is, and stays ready until its dispatch gets it before
      any other slot is dispatched twice, so at most NUM_PROC - 1 other dispatches come first. */
  lemma FairDispatch(t: Table, i: nat, w: nat, turns: seq<Table>, n: nat)
    requires i <= NUM_PROC && w < NUM_PROC && ReadyUntilDispatched(t, i, w, turns)
    requires n <= |Run(t, i, turns).trace| && w !in Run(t, i, turns).trace[..n]
    ensures forall j, k :: 0 <= j < k < n ==> Run(t, i, turns).trace[j] != Run(t, i, turns).trace[k]
    ensures n <= NUM_PROC - 1
  {
    var trace := Run(t, i, turns).trace;
    var m := StopBefore(t, i, turns, n);
    assert StaysReady(w, turns[..m]);
    BeforeItsTurn(t, i, w, turns[..m]);
    assert forall j :: 0 <= j < n ==> trace[..n][j] == trace[j];
    WithoutOne(trace[..n], w);
  }

  lemma WithoutOne(trace: seq<nat>, w: nat)
    requires w < NUM_PROC && w !in trace
    requires forall k :: 0 <= k < |trace| ==> trace[k] < NUM_PROC
    requires forall j, k :: 0 <= j < k < |trace| ==> trace[j] != trace[k]
    ensures |trace| <= NUM_PROC - 1
  {
    var more := trace + [w];
    assert forall k :: 0 <= k < |trace| ==> more[k] == trace[k];
    DistinctSlots(more, NUM_PROC);
  }

  // ----- the loop itself -----

  class ProcessTable {
    const ptables: array<ProcState>

    constructor (t: Table)
      ensures fresh(ptables) && ptables[..] == t
    {
      ptables := new ProcState[NUM_PROC](k requires 0 <= k < NUM_PROC => t[k]);
      new;
      assert ptables[..] == t;
    }

    /** What others made of the table while the processor was given away. */
    method Receive(t: Table)
      requires ptables.Length == NUM_PROC
      modifies ptables
      ensures ptables[..] == t
    {
      var k := 0;
      while k < NUM_PROC
        invariant 0 <= k <= NUM_PROC && ptables[..k] == t[..k]
      {
        ptables[k] := t[k];
        k := k + 1;
      }
      assert t[..NUM_PROC] == t;
    }

    /** One process runs until the processor comes back. */
    method Dispatch(i: nat, left: Table) returns (found: Table)
      requires ptables.Length == NUM_PROC && i < NUM_PROC
      modifies ptables
      ensures found == old(ptables[..])[i := Running] && ptables[..] == Switched(left, i)
    {
      ptables[i] := Running;
      found := ptables[..];
      Receive(left);
      if ptables[i] == Running {
        ptables[i] := Ready;
      }
    }

    /** schedule(), until the turns given are used up. */
    method Schedule(turns: seq<Table>) returns (trace: seq<nat>, history: seq<Turn>)
      requires ptables.Length == NUM_PROC
      modifies ptables
      ensures Run(old(ptables[..]), 0, turns) == Outcome(trace, history, ptables[..])
      ensures RoundRobin(old(ptables[..]), 0, turns, history, ptables[..]) && trace == SlotsOf(history)
    {
      hide Run, RoundRobin, GoesOn, SlotsOf, Switched;
      trace, history := [], [];
      RunIsRoundRobin(ptables[..], 0, turns);
      var used := 0;
      ghost var all: Outcome := Run(ptables[..], 0, turns);
      assert turns[0..] == turns;
      GoesOnStart(all);
      while true
        invariant 0 <= used <= |turns|
        invariant GoesOn(all, trace, history, Run(ptables[..], 0, turns[used..]))
        decreases |turns| - used
      {
        var i := 0;
        ghost var before: nat := used;
        while i < NUM_PROC
          invariant 0 <= i <= NUM_PROC && before <= used <= |turns|
          invariant GoesOn(all, trace, history, Run(ptables[..], i, turns[used..]))
          decreases NUM_PROC - i
        {
          RunUnfolds(ptables[..], i, turns[used..]);
          if ptables[i] == Ready {
            if used == |turns| {
              GoesOnEnd(all, trace, history, ptables[..]);
              return;
            }
            var found := Dispatch(i, turns[used]);
            assert turns[used..][1..] == turns[used + 1..];
            ghost var rest: Outcome := Run(ptables[..], i + 1, turns[used + 1..]);
            GoesOnRuns(all, trace, history, i, found, rest);
            trace, history := trace + [i], history + [Runs(i, found)];
            used := used + 1;
          }
          i := i + 1;
        }
        RunUnfolds(ptables[..], NUM_PROC, turns[used..]);
        if used == |turns| {
          GoesOnEnd(all, trace, history, ptables[..]);
          return;
        }
        Receive(turns[used]);
        assert turns[used..][1..] == turns[used + 1..];
        GoesOnIdle(all, trace, history, Run(ptables[..], 0, turns[used + 1..]));
        history := history + [Idle];
        used := used + 1;
      }
    }
  }

  ghost predicate GoesOn(all: Outcome, trace: seq<nat>, history: seq<Turn>, rest: Outcome) {
    all == Outcome(trace + rest.trace, history + rest.history, rest.table)
  }

  lemma GoesOnStart(all: Outcome)
    ensures GoesOn(all, [], [], all)
  {
  }

  lemma GoesOnEnd(all: Outcome, trace: seq<nat>, history: seq<Turn>, t: Table)
    requires GoesOn(all, trace, history, Outcome([], [], t))
    ensures all == Outcome(trace, history, t)
  {
    assert trace + [] == trace && history + [] == history;
  }

  lemma GoesOnRuns(all: Outcome, trace: seq<nat>, history: seq<Turn>, slot: nat, found: Table, rest: Outcome)
    requires GoesOn(all, trace, history, Outcome([slot] + rest.trace, [Runs(slot, found)] + rest.history, rest.table))
    ensures GoesOn(all, trace + [slot], history + [Runs(slot, found)], rest)
  {
    assert trace + ([slot] + rest.trace) == trace + [slot] + rest.trace;
    assert history + ([Runs(slot, found)] + rest.history) == history + [Runs(slot, found)] + rest.history;
  }

  lemma GoesOnIdle(all: Outcome, trace: seq<nat>, history: seq<Turn>, rest: Outcome)
    requires GoesOn(all, trace, history, Outcome(rest.trace, [Idle] + rest.history, rest.table))
    ensures GoesOn(all, trace, history + [Idle], rest)
  {
    assert history + ([Idle] + rest.history) == history + [Idle] + rest.history;
  }
}
