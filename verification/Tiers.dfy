/**
 * One in-flight tier on the raw baseline: place the whole tier at once behind a gate, read the
 * peak, release, and drain. The arrival count read is that of the gate's own protocol, `WakeupGate`.
 */
module Tiers {
  import opened TaskSets
  import WakeupGate

  datatype TierRun = TierRun(
    requested: nat, reached: nat, ceiling: nat, placed: nat, completed: nat, aborted: nat, workUnits: nat)

  /** The gate of a tier after the first `instant` steps its bodies take. */
  function GateAt(tier: nat, schedule: seq<WakeupGate.Action>, instant: nat): WakeupGate.Gate
    requires instant <= |schedule|
  {
    WakeupGate.Run(WakeupGate.Closed(tier), WakeupGate.FutureFirst, schedule[..instant])
  }

  lemma ReadIsSound(tier: nat, schedule: seq<WakeupGate.Action>, instant: nat)
    requires WakeupGate.Release !in schedule && instant <= |schedule|
    ensures GateAt(tier, schedule, instant).entered <= tier
    ensures GateAt(tier, schedule, instant).entered == tier ==> WakeupGate.WholeTierInside(GateAt(tier, schedule, instant))
  {
    hide WakeupGate.Run, WakeupGate.WholeTierInside;
    WakeupGate.ReachedTierIsAlive(tier, schedule[..instant]);
  }

  /**
   * Poll the gate's arrival count until it is the tier or patience ends, and read it once more. The
   * bodies take the steps of `schedule`, any number of them between two reads, and nobody releases.
   */
  method AwaitTier(tier: nat, patience: nat, schedule: seq<WakeupGate.Action>)
      returns (reached: nat, instant: nat, gaveUp: bool)
    requires WakeupGate.Release !in schedule
    ensures instant <= |schedule| && reached == GateAt(tier, schedule, instant).entered <= tier
    ensures !gaveUp ==> reached == tier
    ensures gaveUp ==> exists poll: nat :: poll <= instant && GateAt(tier, schedule, poll).entered < tier
    ensures reached == tier ==> WakeupGate.WholeTierInside(GateAt(tier, schedule, instant))
  {
    hide WakeupGate.Run, WakeupGate.WholeTierInside;
    var polls, poll := 0, 0;
    gaveUp := false;
    while GateAt(tier, schedule, poll).entered < tier
      invariant poll <= |schedule| && !gaveUp
      decreases patience - polls
    {
      if patience <= polls {
        gaveUp := true;
        break;
      }
      var next: nat :| poll <= next <= |schedule|;
      poll, polls := next, polls + 1;
    }
    instant :| poll <= instant <= |schedule|;
    reached := GateAt(tier, schedule, instant).entered;
    ReadIsSound(tier, schedule, instant);
    WakeupGate.EnteredGrows(tier, schedule, poll, instant);
  }

  /** Place the whole tier behind a closed gate. */
  method PlaceTier(tier: nat) returns (tasks: TaskSet)
    ensures fresh(tasks) && tasks.Valid() && tasks.bound == tier
    ensures tasks.gated == tasks.spawned == tasks.Retained() == tier && tasks.work == 0
    ensures tasks.Alive() == tier
    ensures tasks.joinedFinished == tasks.joinedAborted == 0
  {
    hide TaskSet.Valid;
    tasks := new TaskSet(tier);
    var i := 0;
    while i < tier
      invariant i <= tier && tasks.Valid() && tasks.bound == tier
      invariant tasks.gated == tasks.spawned == tasks.Retained() == i
      invariant tasks.joinedFinished == tasks.joinedAborted == 0
    {
      var placed := tasks.TrySpawn(true);
      if !placed {
        break;
      }
      i := i + 1;
    }
    tasks.Settle();
    tasks.AllGated();
  }

  /**
   * In every schedule all of the tier is placed under its own ceiling and none is refused; between
   * the admission and the release the whole tier is alive and no work has been recorded; the level
   * reached is the tier unless the wait gave up, and where it is the tier every body is inside the
   * gate at that instant; and after the drain every permit is back and every body is accounted for.
   */
  method TierBaseline(tier: nat, patience: nat, schedule: seq<WakeupGate.Action>)
      returns (run: TierRun, instant: nat, alive: nat, workAtRelease: nat, gaveUp: bool)
    requires WakeupGate.Release !in schedule
    ensures alive == tier && workAtRelease == 0
    ensures instant <= |schedule| && run.reached == GateAt(tier, schedule, instant).entered <= tier
    ensures !gaveUp ==> run.reached == tier
    ensures gaveUp ==> exists poll: nat :: poll <= instant && GateAt(tier, schedule, poll).entered < tier
    ensures run.reached == tier ==> WakeupGate.WholeTierInside(GateAt(tier, schedule, instant))
    ensures run.requested == run.ceiling == run.placed == tier
    ensures run.completed + run.aborted == tier
    ensures run.completed <= run.workUnits <= tier
    ensures run.aborted == 0 ==> run.workUnits == tier
  {
    hide GateAt, WakeupGate.WholeTierInside;
    hide TaskSet.Valid, TaskSet.Retained;
    var tasks := PlaceTier(tier);
    var reached: nat;
    reached, instant, gaveUp := AwaitTier(tier, patience, schedule);
    alive, workAtRelease := tasks.Alive(), tasks.work;
    tasks.OpenGate();
    var completed, aborted := 0, 0;
    var joined := tasks.JoinNext();
    while joined != Empty
      invariant tasks.Valid() && tasks.bound == tier && tasks.gated == 0 && tasks.spawned == tier
      invariant joined == Empty ==> tasks.Retained() == 0
      invariant tasks.joinedFinished == completed + (if joined == Finished then 1 else 0)
      invariant tasks.joinedAborted == aborted + (if joined == Aborted then 1 else 0)
      decreases tasks.Retained() + (if joined == Empty then 0 else 1)
    {
      if joined == Finished {
        completed := completed + 1;
      } else {
        aborted := aborted + 1;
      }
      joined := tasks.JoinNext();
    }
    tasks.Drained();
    run := TierRun(tier, reached, tasks.permits, completed + aborted, completed, aborted, tasks.work);
  }
}
