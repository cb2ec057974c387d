/**
 * The gate an in-flight tier parks on. Bodies and one releaser take atomic steps in whatever
 * order the scheduler picks; a notification reaches every future that already exists when it is
 * sent, and no future created later.
 */
module WakeupGate {

  /** Where a body stands in `enter`. An armed or parked body holds the round its future was created in. */
  datatype BodyPc =
    | Outside
    | Counted
    | Armed(round: nat)
    | Checked
    | Parked(round: nat)
    | Left

  datatype ReleaserPc = Waiting | Stored | Notified

  /** When a body creates its notification future: before it reads the flag, as the gate does, or after. */
  datatype Order = FutureFirst | FlagFirst

  datatype Gate = Gate(entered: nat, open: bool, rounds: nat, releaser: ReleaserPc, bodies: seq<BodyPc>)

  datatype Action = Body(id: nat) | Release

  function Closed(n: nat): Gate { Gate(0, false, 0, Waiting, seq(n, _ => Outside)) }

  /** One atomic step of one body; a parked body whose round has not been notified stays where it is. */
  function Advance(g: Gate, order: Order, pc: BodyPc): BodyPc
  {
    match pc
    case Outside => Counted
    case Counted =>
      (match order
       case FutureFirst => Armed(g.rounds)
       case FlagFirst => if g.open then Left else Checked)
    case Armed(round) => if g.open then Left else Parked(round)
    case Checked => Parked(g.rounds)
    case Parked(round) => if g.rounds != round then Counted else pc
    case Left => Left
  }

  function Step(g: Gate, order: Order, action: Action): Gate
  {
    match action
    case Body(id) =>
      if id >= |g.bodies| then g
      else g.(bodies := g.bodies[id := Advance(g, order, g.bodies[id])],
              entered := if g.bodies[id] == Outside then g.entered + 1 else g.entered)
    case Release =>
      (match g.releaser
       case Waiting => g.(open := true, releaser := Stored)
       case Stored => g.(rounds := g.rounds + 1, releaser := Notified)
       case Notified => g)
  }

  function Run(g: Gate, order: Order, schedule: seq<Action>): (r: Gate)
    ensures |r.bodies| == |g.bodies|
  {
    if schedule == [] then g
    else Step(Run(g, order, schedule[..|schedule| - 1]), order, schedule[|schedule| - 1])
  }

  // ---------------------------------------------------------------- the invariant

  /** Bodies past their arrival count. */
  function Inside(bodies: seq<BodyPc>): nat
  {
    if bodies == [] then 0
    else Inside(bodies[..|bodies| - 1]) + if bodies[|bodies| - 1] == Outside then 0 else 1
  }

  lemma {:induction false} InsideUpdate(bodies: seq<BodyPc>, i: nat, pc: BodyPc)
    requires i < |bodies|
    ensures Inside(bodies[i := pc]) ==
            Inside(bodies) - (if bodies[i] == Outside then 0 else 1) + (if pc == Outside then 0 else 1)
  {
    var init, after := bodies[..|bodies| - 1], bodies[i := pc];
    if i < |init| {
      InsideUpdate(init, i, pc);
      assert after[..|after| - 1] == init[i := pc];
    } else {
      assert after[..|after| - 1] == init;
    }
  }

  /** A parked body read the flag closed, so its future is older than the one notification. */
  ghost predicate BodyOk(g: Gate, pc: BodyPc)
  {
    match pc
    case Armed(round) => round <= g.rounds
    case Parked(round) => round == 0
    case Checked => false
    case Left => g.open
    case _ => true
  }

  ghost predicate Inv(g: Gate)
  {
    && g.entered == Inside(g.bodies)
    && (g.open <==> g.releaser != Waiting)
    && g.rounds == (if g.releaser == Notified then 1 else 0)
    && forall i :: 0 <= i < |g.bodies| ==> BodyOk(g, g.bodies[i])
  }

  lemma {:induction false} NobodyInside(n: nat)
    ensures Inside(seq(n, _ => Outside)) == 0
  {
    if n > 0 {
      NobodyInside(n - 1);
      assert seq(n, _ => Outside)[..n - 1] == seq(n - 1, _ => Outside);
    }
  }

  lemma StepKeeps(g: Gate, action: Action)
    requires Inv(g)
    ensures Inv(Step(g, FutureFirst, action))
  {
    match action
    case Body(id) =>
      if id < |g.bodies| {
        InsideUpdate(g.bodies, id, Advance(g, FutureFirst, g.bodies[id]));
      }
    case Release =>
  }

  lemma {:induction false} RunKeeps(n: nat, schedule: seq<Action>)
    ensures Inv(Run(Closed(n), FutureFirst, schedule))
  {
    hide Step, Inside;
    if schedule == [] {
      NobodyInside(n);
    } else {
      RunKeeps(n, schedule[..|schedule| - 1]);
      StepKeeps(Run(Closed(n), FutureFirst, schedule[..|schedule| - 1]), schedule[|schedule| - 1]);
    }
  }

  // ---------------------------------------------------------------- what it promises

  /**
   * In every interleaving: nobody leaves before the flag is set, and while it is not, the arrival
   * count is exactly the number of bodies that are parked or on their way to park.
   */
  lemma NobodyLeavesEarly(n: nat, schedule: seq<Action>)
    ensures var g := Run(Closed(n), FutureFirst, schedule);
      && g.entered == Inside(g.bodies)
      && (!g.open ==> forall i :: 0 <= i < |g.bodies| ==> g.bodies[i] != Left)
      && (g.open ==> Release in schedule)
  {
    hide Inside;
    RunKeeps(n, schedule);
    if Run(Closed(n), FutureFirst, schedule).open {
      OpenNeedsRelease(n, schedule);
    }
  }

  lemma {:induction false} OpenNeedsRelease(n: nat, schedule: seq<Action>)
    requires Run(Closed(n), FutureFirst, schedule).open
    ensures Release in schedule
  {
    if schedule[|schedule| - 1] != Release {
      OpenNeedsRelease(n, schedule[..|schedule| - 1]);
    }
  }

  lemma {:induction false} AllInside(bodies: seq<BodyPc>)
    ensures Inside(bodies) <= |bodies|
    ensures Inside(bodies) == |bodies| ==> forall i :: 0 <= i < |bodies| ==> bodies[i] != Outside
  {
    if bodies != [] {
      AllInside(bodies[..|bodies| - 1]);
    }
  }

  /** Every body has arrived and none has left. */
  predicate WholeTierInside(g: Gate)
  {
    forall i :: 0 <= i < |g.bodies| ==> g.bodies[i].Counted? || g.bodies[i].Armed? || g.bodies[i].Parked?
  }

  /**
   * The tier claim. When the arrival count reaches the tier before anything is released, every body
   * of the tier is inside at that instant and none has left, so the level reached is the level alive;
   * and no count ever exceeds the tier.
   */
  lemma ReachedTierIsAlive(tier: nat, schedule: seq<Action>)
    requires Release !in schedule
    ensures var g := Run(Closed(tier), FutureFirst, schedule);
      && g.entered <= tier
      && (g.entered >= tier ==> WholeTierInside(g))
  {
    hide Inside, Run, Step;
    var g := Run(Closed(tier), FutureFirst, schedule);
    RunKeeps(tier, schedule);
    NobodyLeavesEarly(tier, schedule);
    AllInside(g.bodies);
    assert forall i :: 0 <= i < tier ==> BodyOk(g, g.bodies[i]);
  }

  /** The arrival count only grows. */
  lemma {:induction false} EnteredGrows(n: nat, schedule: seq<Action>, i: nat, j: nat)
    requires i <= j <= |schedule|
    ensures Run(Closed(n), FutureFirst, schedule[..i]).entered <= Run(Closed(n), FutureFirst, schedule[..j]).entered
    decreases j
  {
    hide Advance;
    if i < j {
      EnteredGrows(n, schedule, i, j - 1);
      assert schedule[..j][..j - 1] == schedule[..j - 1];
    }
  }

  /** Steps of its own a body still needs once the release has finished. */
  function Remaining(pc: BodyPc): nat
  {
    match pc
    case Outside => 3
    case Counted => 2
    case Armed(_) => 1
    case Checked => 4
    case Parked(_) => 3
    case Left => 0
  }

  function StepsOf(schedule: seq<Action>, id: nat): nat
  {
    if schedule == [] then 0
    else StepsOf(schedule[..|schedule| - 1], id) + if schedule[|schedule| - 1] == Body(id) then 1 else 0
  }

  function Minus(a: nat, b: nat): nat { if a >= b then a - b else 0 }

  lemma ReleasedStep(g: Gate, action: Action, i: nat)
    requires Inv(g) && g.releaser == Notified && i < |g.bodies|
    ensures var after := Step(g, FutureFirst, action);
      && after.releaser == Notified && |after.bodies| == |g.bodies|
      && Remaining(after.bodies[i]) == Minus(Remaining(g.bodies[i]), if action == Body(i) then 1 else 0)
  {
    hide Inside;
    assert BodyOk(g, g.bodies[i]);
  }

  /**
   * No lost wakeup. From any reachable state in which the release has finished, under every further
   * schedule, each of a body's own steps brings it one nearer to returning, and after at most three
   * of them it has left, whatever anybody else does.
   */
  lemma {:induction false} ReleasedBodiesLeave(n: nat, before: seq<Action>, after: seq<Action>, i: nat)
    requires i < n && Run(Closed(n), FutureFirst, before).releaser == Notified
    ensures var g := Run(Closed(n), FutureFirst, before);
      var h := Run(g, FutureFirst, after);
      && Inv(h) && h.releaser == Notified && |h.bodies| == n
      && Remaining(g.bodies[i]) <= 3
      && Remaining(h.bodies[i]) == Minus(Remaining(g.bodies[i]), StepsOf(after, i))
      && (StepsOf(after, i) >= 3 ==> h.bodies[i] == Left)
  {
    hide Inside, Step;
    RunKeeps(n, before);
    var g := Run(Closed(n), FutureFirst, before);
    assert BodyOk(g, g.bodies[i]);
    if after != [] {
      var init, last := after[..|after| - 1], after[|after| - 1];
      ReleasedBodiesLeave(n, before, init, i);
      StepKeeps(Run(g, FutureFirst, init), last);
      ReleasedStep(Run(g, FutureFirst, init), last, i);
    }
  }

  // ---------------------------------------------------------------- why the order matters

  /** A body that reads the flag and only then creates its future, with the release in between. */
  const UNLUCKY := [Body(0), Body(0), Release, Release, Body(0)]

  ghost predicate Stuck(g: Gate)
  {
    && |g.bodies| == 1 && g.releaser == Notified && g.open && g.rounds == 1
    && g.bodies[0] == Parked(1)
  }

  lemma UnluckyIsStuck()
    ensures Stuck(Run(Closed(1), FlagFirst, UNLUCKY))
  {
    assert UNLUCKY[..4][..3] == UNLUCKY[..3] && UNLUCKY[..3][..2] == UNLUCKY[..2];
    assert UNLUCKY[..2][..1] == [Body(0)] && [Body(0)][..0] == [];
    var g := Closed(1);
    assert g.bodies == [Outside];
    var g1 := Step(g, FlagFirst, Body(0));
    var g2 := Step(g1, FlagFirst, Body(0));
    var g3 := Step(g2, FlagFirst, Release);
    var g4 := Step(g3, FlagFirst, Release);
    assert Run(g, FlagFirst, [Body(0)]) == g1;
    assert Run(g, FlagFirst, UNLUCKY[..2]) == g2;
    assert Run(g, FlagFirst, UNLUCKY[..3]) == g3;
    assert Run(g, FlagFirst, UNLUCKY[..4]) == g4;
  }

  /** With the flag read first a wakeup can be lost for good: no later schedule lets that body leave. */
  lemma {:induction false} FlagFirstLosesWakeups(after: seq<Action>)
    ensures Stuck(Run(Run(Closed(1), FlagFirst, UNLUCKY), FlagFirst, after))
  {
    if after == [] {
      UnluckyIsStuck();
    } else {
      FlagFirstLosesWakeups(after[..|after| - 1]);
    }
  }
}
