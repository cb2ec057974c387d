/**
 * The hand-rolled baseline of the bot benchmark: chains that poll a value of the tick, notice when
 * it moves, evaluate every entry and fire on an even value; and the scenario table sized so that
 * no round can overrun the journal.
 */
module BaselineChain {
  import opened Options
  import opened Words

  /** A period of zero is read as one. */
  function Period(period: nat): (p: nat)
    ensures p >= 1
  {
    if period == 0 then 1 else period
  }

  function ValueAt(period: nat, tick: nat): nat { tick / Period(period) }

  // ---------------------------------------------------------------- what a window observes

  /** The distinct values polled over `n` ticks from `start`. */
  function Values(period: nat, start: nat, n: nat): set<nat>
  {
    if n == 0 then {} else Values(period, start, n - 1) + {ValueAt(period, start + n - 1)}
  }

  /** The even ones among them. */
  function EvenValues(period: nat, start: nat, n: nat): set<nat>
  {
    if n == 0 then {}
    else EvenValues(period, start, n - 1)
         + if ValueAt(period, start + n - 1) % 2 == 0 then {ValueAt(period, start + n - 1)} else {}
  }

  /** How many even numbers lie below `v`. */
  function EvensBelow(v: nat): nat { (v + 1) / 2 }

  lemma ValueSteps(period: nat, tick: nat)
    requires tick > 0
    ensures ValueAt(period, tick - 1) <= ValueAt(period, tick) <= ValueAt(period, tick - 1) + 1
  {
    var p, v := Period(period), ValueAt(period, tick - 1);
    QuotientBelow(tick - 1, p, v + 1);
    OneMoreTime(v + 1, p);
    QuotientBelow(tick, p, v + 2);
    QuotientBelow(tick - 1, p, v);
    QuotientBelow(tick, p, v);
  }

  lemma NothingSeen(period: nat, start: nat)
    ensures Values(period, start, 0) == {} && EvenValues(period, start, 0) == {}
  {
  }

  lemma OneTickMore(period: nat, start: nat, n: nat)
    ensures var v := ValueAt(period, start + n);
      && Values(period, start, n + 1) == Values(period, start, n) + {v}
      && EvenValues(period, start, n + 1) == EvenValues(period, start, n) + if v % 2 == 0 then {v} else {}
  {
    hide ValueAt;
  }

  lemma AddOne(values: set<nat>, v: nat)
    ensures |values + {v}| == |values| + if v in values then 0 else 1
  {
    if v in values {
      assert values + {v} == values;
    }
  }

  /** One more value, the last again or its successor, of a set counted up to the last. */
  lemma AddValue(values: set<nat>, first: nat, last: nat, v: nat)
    requires first <= last <= v <= last + 1 && last in values && |values| == last - first + 1
    requires forall x :: x in values ==> x <= last
    ensures var more := values + {v};
      |more| == v - first + 1 && v in more && forall x :: x in more ==> x <= v
  {
    AddOne(values, v);
  }

  lemma {:induction false} ValueCounts(period: nat, start: nat, n: nat)
    requires n > 0
    ensures var first, last := ValueAt(period, start), ValueAt(period, start + n - 1);
      && first <= last
      && (forall v :: v in Values(period, start, n) ==> v <= last)
      && last in Values(period, start, n)
      && |Values(period, start, n)| == last - first + 1
  {
    hide ValueAt, Values, EvenValues;
    var first, last := ValueAt(period, start), ValueAt(period, start + n - 1);
    OneTickMore(period, start, n - 1);
    if n == 1 {
      NothingSeen(period, start);
      assert Values(period, start, 1) == {last};
    } else {
      ValueCounts(period, start, n - 1);
      ValueSteps(period, start + n - 1);
      AddValue(Values(period, start, n - 1), first, ValueAt(period, start + n - 2), last);
    }
  }

  /** The same of the even values alone: an odd one adds nothing. */
  lemma AddEven(evens: set<nat>, first: nat, last: nat, v: nat)
    requires first <= last <= v <= last + 1 && (last % 2 == 0 ==> last in evens)
    requires |evens| == EvensBelow(last + 1) - EvensBelow(first)
    requires forall x :: x in evens ==> x <= last
    ensures var more := evens + if v % 2 == 0 then {v} else {};
      |more| == EvensBelow(v + 1) - EvensBelow(first) && (v % 2 == 0 ==> v in more) && forall x :: x in more ==> x <= v
  {
    AddOne(evens, v);
    assert evens + {} == evens;
  }

  lemma {:induction false} EvenCounts(period: nat, start: nat, n: nat)
    requires n > 0
    ensures var first, last := ValueAt(period, start), ValueAt(period, start + n - 1);
      && first <= last
      && (forall v :: v in EvenValues(period, start, n) ==> v <= last)
      && (last % 2 == 0 ==> last in EvenValues(period, start, n))
      && |EvenValues(period, start, n)| == EvensBelow(last + 1) - EvensBelow(first)
  {
    hide ValueAt, Values, EvenValues;
    var first, last := ValueAt(period, start), ValueAt(period, start + n - 1);
    OneTickMore(period, start, n - 1);
    if n == 1 {
      NothingSeen(period, start);
      assert EvenValues(period, start, 1) == if last % 2 == 0 then {last} else {};
    } else {
      EvenCounts(period, start, n - 1);
      ValueSteps(period, start + n - 1);
      AddEven(EvenValues(period, start, n - 1), first, ValueAt(period, start + n - 2), last);
    }
  }

  /** The values of a window are a run of consecutive numbers, so their counts have closed forms. */
  lemma WindowCounts(period: nat, start: nat, n: nat)
    requires n > 0
    ensures var first, last := ValueAt(period, start), ValueAt(period, start + n - 1);
      && first <= last
      && |Values(period, start, n)| == last - first + 1
      && |EvenValues(period, start, n)| == EvensBelow(last + 1) - EvensBelow(first)
      && last in Values(period, start, n)
      && (last % 2 == 0 ==> last in EvenValues(period, start, n))
      && (forall v :: v in Values(period, start, n) ==> v <= last)
      && (forall v :: v in EvenValues(period, start, n) ==> v <= last)
  {
    hide ValueAt, Values, EvenValues;
    ValueCounts(period, start, n);
    EvenCounts(period, start, n);
  }

  // ---------------------------------------------------------------- the chain

  /** The shared evaluation counter. */
  class Cell {
    var count: nat

    constructor ()
      ensures count == 0
    {
      count := 0;
    }
  }

  class HandRolled {
    const period: nat
    const entries: nat
    var prior: Option<nat>

    constructor (period: nat, entries: nat)
      ensures this.period == period && this.entries == entries && prior == None
    {
      this.period, this.entries, prior := period, entries, None;
    }

    /** One tick: walk the entries only when the polled value moved. */
    method Tick(tick: nat, evals: Cell) returns (fired: nat)
      modifies this`prior, evals
      ensures prior == Some(ValueAt(period, tick))
      ensures evals.count == old(evals.count) + (if old(prior) == prior then 0 else entries)
      ensures fired == if old(prior) != prior && ValueAt(period, tick) % 2 == 0 then entries else 0
    {
      fired := 0;
      var value := tick / Period(period);
      if prior == Some(value) {
        return;
      }
      prior := Some(value);
      for i := 0 to entries
        invariant evals.count == old(evals.count) + i
        invariant fired == if value % 2 == 0 then i else 0
        invariant prior == Some(value)
      {
        evals.count := evals.count + 1;
        if value % 2 == 0 {
          fired := fired + 1;
        }
      }
    }
  }

  /** Every chain of one scenario, at the same point of the same schedule. */
  ghost predicate InStep(chains: seq<HandRolled>, period: nat, entries: nat, prior: Option<nat>)
    reads chains
  {
    && (forall i :: 0 <= i < |chains| ==> chains[i].period == period && chains[i].entries == entries)
    && (forall i :: 0 <= i < |chains| ==> chains[i].prior == prior)
    && (forall i, j :: 0 <= i < j < |chains| ==> chains[i] != chains[j])
  }

  /** One tick of every chain. */
  method TickAll(chains: seq<HandRolled>, period: nat, entries: nat, ghost prior: Option<nat>, tick: nat, evals: Cell)
    returns (fired: nat)
    requires InStep(chains, period, entries, prior)
    modifies chains, evals
    ensures InStep(chains, period, entries, Some(ValueAt(period, tick)))
    ensures var moved := prior != Some(ValueAt(period, tick));
      && evals.count == old(evals.count) + (if moved then |chains| * entries else 0)
      && fired == if moved && ValueAt(period, tick) % 2 == 0 then |chains| * entries else 0
  {
    hide ValueAt;
    fired := 0;
    ghost var now := Some(ValueAt(period, tick));
    for i := 0 to |chains|
      invariant forall k :: 0 <= k < i ==> chains[k].prior == now
      invariant forall k :: i <= k < |chains| ==> chains[k].prior == prior
      invariant evals.count == old(evals.count) + (if prior != now then i * entries else 0)
      invariant fired == if prior != now && now.value % 2 == 0 then i * entries else 0
    {
      var more := chains[i].Tick(tick, evals);
      OneMoreTime(i, entries);
      fired := fired + more;
    }
  }

  /** The chains' state after `n` ticks from `start`. */
  function PriorAfter(period: nat, start: nat, n: nat): Option<nat>
  {
    if n == 0 then None else Some(ValueAt(period, start + n - 1))
  }

  lemma TickCounts(period: nat, start: nat, n: nat)
    ensures var v := ValueAt(period, start + n);
      var moved := PriorAfter(period, start, n) != Some(v);
      && |Values(period, start, n + 1)| == |Values(period, start, n)| + (if moved then 1 else 0)
      && |EvenValues(period, start, n + 1)| == |EvenValues(period, start, n)| + (if moved && v % 2 == 0 then 1 else 0)
  {
    hide ValueAt, Values, EvenValues;
    var v := ValueAt(period, start + n);
    OneTickMore(period, start, n);
    AddOne(Values(period, start, n), v);
    AddOne(EvenValues(period, start, n), v);
    if n > 0 {
      WindowCounts(period, start, n);
      ValueSteps(period, start + n);
    } else {
      NothingSeen(period, start);
    }
  }

  lemma GrowsBy(unit: nat, m: nat, n: nat)
    requires m <= n <= m + 1
    ensures unit * n == unit * m + if n == m then 0 else unit
  {
  }

  /**
   * Advance fresh chains `n` ticks from any start: each entry of each chain is evaluated once per
   * distinct value polled, and fires once per even one.
   */
  method RunBaseTicks(chains: seq<HandRolled>, period: nat, entries: nat, evals: Cell, start: nat, n: nat)
    returns (fired: nat, tick: nat)
    requires InStep(chains, period, entries, None)
    modifies chains, evals
    ensures evals.count == old(evals.count) + |chains| * entries * |Values(period, start, n)|
    ensures fired == |chains| * entries * |EvenValues(period, start, n)|
    ensures tick == start + n
    ensures InStep(chains, period, entries, PriorAfter(period, start, n))
  {
    hide ValueAt, Values, EvenValues, InStep;
    fired, tick := 0, start;
    NothingSeen(period, start);
    ghost var unit := |chains| * entries;
    for i := 0 to n
      invariant tick == start + i
      invariant InStep(chains, period, entries, PriorAfter(period, start, i))
      invariant evals.count == old(evals.count) + unit * |Values(period, start, i)|
      invariant fired == unit * |EvenValues(period, start, i)|
    {
      TickCounts(period, start, i);
      GrowsBy(unit, |Values(period, start, i)|, |Values(period, start, i + 1)|);
      GrowsBy(unit, |EvenValues(period, start, i)|, |EvenValues(period, start, i + 1)|);
      var more := TickAll(chains, period, entries, PriorAfter(period, start, i), tick, evals);
      fired := fired + more;
      tick := tick + 1;
    }
  }

  // ---------------------------------------------------------------- how much a window can fire

  /** A window of `n` ticks reaches at most one value past a whole number of periods. */
  lemma WindowSpan(period: nat, start: nat, n: nat)
    requires n > 0
    ensures ValueAt(period, start + n - 1) <= ValueAt(period, start) + DivCeil(n, Period(period))
  {
    var p, v := Period(period), ValueAt(period, start);
    var c := DivCeil(n, p);
    DivCeilLeast(n, p, c);
    QuotientBelow(start, p, v + 1);
    assert (v + c + 1) * p == (v + 1) * p + c * p;
    QuotientBelow(start + n - 1, p, v + c + 1);
  }

  /** Half the changes a window can hold, rounded up, and one more for a start inside a period. */
  function MostFires(period: nat, n: nat): nat { DivCeil(DivCeil(n, Period(period)), 2) + 1 }

  lemma FiresBounded(period: nat, start: nat, n: nat)
    ensures |EvenValues(period, start, n)| <= MostFires(period, n)
  {
    hide ValueAt;
    if n == 0 {
      NothingSeen(period, start);
    } else {
      WindowCounts(period, start, n);
      WindowSpan(period, start, n);
    }
  }

  /** Over an even number of whole periods, every period-aligned start fires the same count. */
  lemma EvenWindowsFireAlike(period: nat, k: nat, m: nat)
    ensures |EvenValues(period, m * Period(period), 2 * k * Period(period))| == k
  {
    hide EvenValues, Values;
    if k == 0 {
      NothingSeen(period, m * Period(period));
    } else {
      AlignedWindow(period, 2 * k, m);
    }
  }

  /** Over an odd number the starting parity decides: one more from an even value than from an odd one. */
  lemma OddWindowsAlternate(period: nat, k: nat, m: nat)
    ensures |EvenValues(period, m * Period(period), (2 * k + 1) * Period(period))| == if m % 2 == 0 then k + 1 else k
  {
    hide EvenValues, Values;
    AlignedWindow(period, 2 * k + 1, m);
  }

  lemma AlignedWindow(period: nat, periods: nat, m: nat)
    requires periods > 0
    ensures periods * Period(period) > 0
    ensures |EvenValues(period, m * Period(period), periods * Period(period))| == EvensBelow(m + periods) - EvensBelow(m)
  {
    hide EvenValues, Values;
    var p := Period(period);
    var start, n := m * p, periods * p;
    assert n == p + (periods - 1) * p && (periods - 1) * p >= 0;
    WindowCounts(period, start, n);
    QuotientBelow(start, p, m);
    QuotientBelow(start, p, m + 1);
    assert (m + periods) * p == start + n;
    assert (m + 1) * p == start + p;
    QuotientBelow(start + n - 1, p, m + periods);
    QuotientBelow(start + n - 1, p, m + periods - 1);
    assert (m + periods - 1) * p == start + n - p;
  }

  // ---------------------------------------------------------------- the scenario table

  const MAX_JOURNAL_EVENTS: nat := 100_000
  const EVENTS_PER_FIRE: nat := 3

  datatype Scenario = Scenario(name: string, sources: nat, period: nat, entries: nat, ticksPerRound: nat, warmupTicks: nat)

  const SCENARIOS: seq<Scenario> := [
    Scenario("poll-only-64x100", 64, 100, 0, 2_000, 200),
    Scenario("steady-64x100", 64, 100, 1, 2_000, 200),
    Scenario("churn-64x1", 64, 1, 1, 200, 50),
    Scenario("fanout-1x64", 1, 1, 64, 200, 50),
    Scenario("wide-256x10", 256, 10, 1, 250, 50),
    Scenario("wide-1024x10", 1_024, 10, 1, 200, 20),
    Scenario("wide-4096x10", 4_096, 10, 1, 20, 0),
    Scenario("wide-16384x10", 16_384, 10, 1, 20, 0)
  ]

  /** Journal events a round's own bot appends, warm-up included, when it starts at `start`. */
  function JournalEvents(s: Scenario, start: nat): nat
  {
    EVENTS_PER_FIRE * (s.sources * s.entries * |EvenValues(s.period, start, s.warmupTicks + s.ticksPerRound)|)
  }

  lemma ProductGrows(k: nat, a: nat, b: nat)
    requires a <= b
    ensures k * a <= k * b
  {
  }

  /** The journal bound of any row at any start tick. */
  lemma EventsBounded(s: Scenario, start: nat)
    ensures JournalEvents(s, start)
            <= EVENTS_PER_FIRE * (s.sources * s.entries * MostFires(s.period, s.warmupTicks + s.ticksPerRound))
  {
    hide EvenValues, MostFires;
    var n := s.warmupTicks + s.ticksPerRound;
    FiresBounded(s.period, start, n);
    ProductGrows(s.sources * s.entries, |EvenValues(s.period, start, n)|, MostFires(s.period, n));
  }

  /** No round of any row, wherever it starts, can reach the journal's ceiling. */
  lemma EveryRoundFitsTheJournal(i: nat, start: nat)
    requires i < |SCENARIOS|
    ensures JournalEvents(SCENARIOS[i], start) < MAX_JOURNAL_EVENTS
  {
    hide JournalEvents;
    EventsBounded(SCENARIOS[i], start);
  }

  /** A row that warms nothing repeats the same work every round, because its window is an even number of periods. */
  lemma UnwarmedRowsRepeat(i: nat, round: nat)
    requires i < |SCENARIOS| && SCENARIOS[i].warmupTicks == 0
    ensures var s := SCENARIOS[i];
      |EvenValues(s.period, round * s.ticksPerRound, s.ticksPerRound)| == 1
  {
    hide EvenValues;
    EvenWindowsFireAlike(10, 1, 2 * round);
  }
}
