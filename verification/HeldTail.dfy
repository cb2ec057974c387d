/**
 * The facade's side of a comparison, and the negative control that places every body, holds its
 * last `bound` bodies on a gate and stops draining before it reads the tally.
 */
module HeldTail {
  import opened Tallies
  import opened TaskSets
  import opened Words
  import opened Pipeline

  datatype Drain = Complete | GiveUp

  /** How many bodies the negative control holds: its last `bound`, or all of them when there are fewer. */
  function HeldBodies(total: nat, bound: nat): nat { Min(bound, total) }

  /** Join until `target` bodies have ended, stopping when nothing is left to wait for. */
  method DrainSupervisor(tasks: TaskSet, target: nat)
    requires tasks.Valid() && tasks.gated == 0
    modifies tasks
    ensures tasks.Valid() && tasks.spawned == old(tasks.spawned)
    ensures target >= tasks.spawned ==> tasks.Retained() == 0
  {
    while tasks.joinedFinished + tasks.joinedAborted < target
      invariant tasks.Valid() && tasks.gated == 0 && tasks.spawned == old(tasks.spawned)
      decreases tasks.Retained()
    {
      var joined := tasks.WaitIdle();
      if joined == 0 && tasks.joinedFinished + tasks.joinedAborted < target {
        break;
      }
    }
  }

  /**
   * Run `total` bodies through a supervisor, which treats a bound of zero as one. The spawn loop
   * places every body in every schedule, held tail or not, because the bodies already held when it
   * waits are always fewer than the permits. A complete drain ends with everything accounted for;
   * the control's tally can never count a held body.
   */
  method FacadeSide(total: nat, bound: nat, drain: Drain) returns (tally: Tally)
    ensures tally.placed == total && tally.cancelled == 0 && tally.refused == 0
    ensures drain == Complete ==>
      && tally.completed + tally.aborted == total
      && tally.completed <= tally.workUnits <= total
    ensures drain == GiveUp ==>
      && tally.completed + tally.aborted <= total - HeldBodies(total, bound)
      && tally.completed <= tally.workUnits <= total - HeldBodies(total, bound)
  {
    var tasks := new TaskSet(Max(bound, 1));
    var tailFrom := if total >= bound then total - bound else 0;
    var index := 0;
    while index < total
      invariant index <= total
      invariant tasks.Valid() && tasks.bound == Max(bound, 1)
      invariant tasks.spawned == index
      invariant tasks.gated == if drain == GiveUp && index > tailFrom then index - tailFrom else 0
    {
      tasks.Reap();
      tasks.Spawn(drain == GiveUp && index >= tailFrom);
      index := index + 1;
    }
    if drain == GiveUp {
      tasks.Reap();
    } else {
      DrainSupervisor(tasks, total);
    }
    tally := Tally(tasks.spawned, tasks.joinedFinished, 0, tasks.joinedAborted, 0, tasks.work);
  }

  /**
   * The negative control works: whenever it holds anything at all, in every pair of schedules the
   * gate refuses it against an honest run, and for a work-count field.
   */
  method MutantCheck(total: nat, bound: nat) returns (verdict: Verdict)
    ensures HeldBodies(total, bound) > 0 ==> verdict.Unfair? && IsWorkCount(verdict.field)
  {
    var mutant := FacadeSide(total, bound, GiveUp);
    var honest := FacadeSide(total, bound, Complete);
    verdict := Fairness(mutant, honest);
  }

  /**
   * One paired round. When nothing aborts, facade and baseline agree on every field at every bound
   * of at least one; at a bound of zero the supervisor still runs the work and the baseline does
   * not, and the gate says so by the completed count.
   */
  method PairedRound(total: nat, bound: nat) returns (facade: Tally, baseline: Tally, verdict: Verdict)
    ensures facade.aborted == 0 && baseline.aborted == 0 ==>
      verdict == if bound > 0 || total == 0 then Fair else Unfair(Completed)
    ensures facade.placed == facade.completed + facade.aborted == total && facade.cancelled == facade.refused == 0
    ensures facade.aborted == 0 ==> facade.workUnits == total
  {
    facade := FacadeSide(total, bound, Complete);
    var spawned, alive, retained;
    baseline, spawned, alive, retained := BaselineSide(total, bound);
    verdict := Fairness(facade, baseline);
  }

  /** What a scenario's paired rounds come to. */
  datatype Measurement = Measured(tally: Tally) | UnfairRound(round: nat, field: Field) | TallyChanged(round: nat)

  /**
   * The paired rounds of one scenario. When nothing aborts in any of them, every schedule of every
   * round measures the same work, so no round is refused, neither by the gate nor for a tally that
   * changed; at a bound of zero the first round is refused for its completed count. And whatever
   * aborts, a measurement that is accepted accounts for every body.
   */
  method Measure(total: nat, bound: nat, rounds: nat) returns (result: Measurement, ghost clean: bool)
    ensures clean && (bound > 0 || total == 0 || rounds == 0) ==>
      result == Measured(if rounds == 0 then Tally(0, 0, 0, 0, 0, 0) else Tally(total, total, 0, 0, 0, total))
    ensures clean && bound == 0 && total > 0 && rounds > 0 ==> result == UnfairRound(0, Completed)
    ensures result.Measured? && rounds > 0 ==>
      result.tally.placed == result.tally.completed + result.tally.aborted == total && result.tally.refused == 0
  {
    var tally := Tally(0, 0, 0, 0, 0, 0);
    clean := true;
    for round := 0 to rounds
      invariant round == 0 ==> tally == Tally(0, 0, 0, 0, 0, 0)
      invariant round > 0 ==> tally.placed == tally.completed + tally.aborted == total && tally.refused == 0
      invariant round > 0 && clean ==> tally == Tally(total, total, 0, 0, 0, total) && (bound > 0 || total == 0)
    {
      var facade, baseline, verdict := PairedRound(total, bound);
      clean := clean && facade.aborted == 0 && baseline.aborted == 0;
      if verdict.Unfair? {
        return UnfairRound(round, verdict.field), clean;
      }
      if round == 0 {
        tally := facade;
      } else if tally != facade {
        return TallyChanged(round), clean;
      }
    }
    result := Measured(tally);
  }
}
