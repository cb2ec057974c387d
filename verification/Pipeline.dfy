/**
 * The raw baseline's pipeline: prime to the ceiling, then replenish on completion, counting a
 * refusal rather than queueing when no permit is free.
 */
module Pipeline {
  import opened Tallies
  import opened TaskSets
  import opened Words

  /** Fill the ceiling, or place everything if that is less. */
  method Prime(total: nat, bound: nat) returns (tasks: TaskSet, next: nat, refused: int)
    ensures fresh(tasks) && tasks.Valid() && tasks.bound == bound && tasks.gated == 0
    ensures next == Min(bound, total) && refused == 0
    ensures tasks.spawned == next && tasks.Retained() == next && tasks.peakRetained <= next
    ensures tasks.joinedFinished == tasks.joinedAborted == 0
  {
    hide TaskSet.Valid, TaskSet.Retained;
    tasks := new TaskSet(bound);
    next, refused := 0, 0;
    while next < bound && next < total
      invariant tasks.Valid() && tasks.bound == bound && tasks.gated == 0
      invariant next <= bound && next <= total && refused == 0
      invariant tasks.spawned == next && tasks.Retained() == next && tasks.peakRetained <= next
      invariant tasks.joinedFinished == tasks.joinedAborted == 0
    {
      var placed := tasks.TrySpawn(false);
      if !placed {
        refused := refused + 1;
        break;
      }
      next := next + 1;
    }
  }

  /**
   * Run `total` bodies at a ceiling of `bound`. For every schedule: with at least one permit exactly
   * `total` bodies are spawned and no spawn is ever refused; with none, nothing runs at all though
   * the tally still says everything was placed.
   */
  method BaselineSide(total: nat, bound: nat) returns (tally: Tally, spawned: nat, peakAlive: nat, peakRetained: nat)
    ensures spawned == if bound == 0 then 0 else total
    ensures tally.placed == total && tally.cancelled == 0 && tally.refused == 0
    ensures tally.completed + tally.aborted == spawned
    ensures tally.completed <= tally.workUnits <= spawned
    ensures tally.aborted == 0 ==> tally.workUnits == spawned
    ensures peakAlive <= bound && peakRetained <= bound
  {
    hide TaskSet.Valid, TaskSet.Retained;
    var tasks, next, refused := Prime(total, bound);
    var completed, aborted := 0, 0;
    var joined := tasks.JoinNext();
    while joined != Empty
      invariant tasks.Valid() && tasks.bound == bound && tasks.gated == 0 && refused == 0
      invariant tasks.spawned == next <= total
      invariant tasks.Retained() <= bound && tasks.peakRetained <= bound
      invariant joined != Empty ==> tasks.Retained() < bound
      invariant next < total ==> joined != Empty || bound == 0
      invariant joined == Empty ==> tasks.Retained() == 0
      invariant bound == 0 ==> next == 0
      invariant tasks.joinedFinished == completed + (if joined == Finished then 1 else 0)
      invariant tasks.joinedAborted == aborted + (if joined == Joined.Aborted then 1 else 0)
      decreases 2 * (total - next) + tasks.Retained() + (if joined == Empty then 0 else 1)
    {
      if joined == Finished {
        completed := completed + 1;
      } else {
        aborted := aborted + 1;
      }
      if next < total {
        var placed := tasks.TrySpawn(false);
        if placed {
          next := next + 1;
        } else {
          refused := refused + 1;
          next := total;
        }
      }
      joined := tasks.JoinNext();
    }
    tasks.Drained();
    tally := Tally(total, completed, 0, aborted, refused, tasks.work);
    spawned, peakAlive, peakRetained := tasks.spawned, tasks.peakAlive, tasks.peakRetained;
  }
}
