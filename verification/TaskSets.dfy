/**
 * A permit pool and a task set under an adversarial scheduler: live bodies bump the work counter,
 * finish and abort whenever it says so. A body holds its permit for its whole life and gives it
 * back before it can be joined; a gated body cannot move until its gate opens.
 */
module TaskSets {
  import opened Words

  datatype Joined = Empty | Finished | Aborted

  class TaskSet {
    const bound: nat
    /** Permits nobody holds. */
    var permits: nat
    /** Live bodies: waiting on the gate, not yet counted, and past their work unit. */
    var gated: nat
    var unstarted: nat
    var bumped: nat
    /** Bodies that ended and have not been joined. */
    var finished: nat
    var aborted: nat
    /** Work units recorded. */
    var work: nat
    /** Every body ever spawned, the joined ones, and the most ever alive and retained at once. */
    var spawned: nat
    var joinedFinished: nat
    var joinedAborted: nat
    var peakAlive: nat
    var peakRetained: nat

    ghost predicate Valid()
      reads this
    {
      && permits + Alive() == bound
      && spawned == Retained() + joinedFinished + joinedAborted
      && bumped + finished + joinedFinished <= work <= bumped + finished + joinedFinished + aborted + joinedAborted
      && Alive() <= peakAlive <= bound
      && Retained() <= peakRetained
    }

    function Alive(): nat
      reads this
    {
      gated + unstarted + bumped
    }

    /** Tasks placed and not yet joined: ended ones still count. */
    function Retained(): nat
      reads this
    {
      Alive() + finished + aborted
    }

    /** The accounts of a set that holds nothing any more. */
    lemma Drained()
      requires Valid() && Retained() == 0
      ensures joinedFinished <= work <= joinedFinished + joinedAborted == spawned
      ensures permits == bound && peakAlive <= bound
    {
    }

    /** A set whose every body is gated has all of them alive and has done no work. */
    lemma AllGated()
      requires Valid() && gated == Retained() && joinedFinished == joinedAborted == 0
      ensures Alive() == gated && work == 0
    {
    }

    constructor (bound: nat)
      ensures Valid() && this.bound == bound && permits == bound
      ensures spawned == joinedFinished == joinedAborted == work == peakRetained == gated == 0 && Retained() == 0
    {
      this.bound, permits := bound, bound;
      gated, unstarted, bumped, finished, aborted, work := 0, 0, 0, 0, 0, 0;
      spawned, joinedFinished, joinedAborted, peakAlive, peakRetained := 0, 0, 0, 0, 0;
    }

    /** A live body records its work unit. */
    method Bump()
      requires Valid() && unstarted > 0
      modifies this`unstarted, this`bumped, this`work
      ensures Valid() && unstarted == old(unstarted) - 1 && bumped == old(bumped) + 1
    {
      unstarted, bumped, work := unstarted - 1, bumped + 1, work + 1;
    }

    /** A body past its work unit ends and gives its permit back. */
    method Finish()
      requires Valid() && bumped > 0
      modifies this`permits, this`bumped, this`finished
      ensures Valid() && bumped == old(bumped) - 1 && finished == old(finished) + 1 && permits == old(permits) + 1
    {
      bumped, finished, permits := bumped - 1, finished + 1, permits + 1;
    }

    /** One scheduler step: some body that can move bumps, finishes or aborts. */
    method Tick()
      requires Valid() && unstarted + bumped > 0
      modifies this`permits, this`unstarted, this`bumped, this`finished, this`aborted, this`work
      ensures Valid() && Retained() == old(Retained())
      ensures 2 * unstarted + bumped < old(2 * unstarted + bumped)
    {
      if
      case unstarted > 0 => Bump();
      case bumped > 0 => Finish();
      case bumped > 0 =>
        bumped, aborted, permits := bumped - 1, aborted + 1, permits + 1;
      case unstarted > 0 =>
        unstarted, aborted, permits := unstarted - 1, aborted + 1, permits + 1;
    }

    /** However many steps the scheduler takes before control comes back. */
    method Settle()
      requires Valid()
      modifies this`permits, this`unstarted, this`bumped, this`finished, this`aborted, this`work
      ensures Valid() && Retained() == old(Retained())
    {
      while *
        invariant Valid() && Retained() == old(Retained())
        decreases 2 * unstarted + bumped
      {
        if unstarted + bumped == 0 {
          break;
        }
        Tick();
      }
    }

    /** Let the scheduler run until some body has ended, if any can move. */
    method AwaitOne()
      requires Valid()
      modifies this`permits, this`unstarted, this`bumped, this`finished, this`aborted, this`work
      ensures Valid() && Retained() == old(Retained())
      ensures finished + aborted == 0 ==> Retained() == gated
    {
      Settle();
      while finished + aborted == 0 && unstarted + bumped > 0
        invariant Valid() && Retained() == old(Retained())
        decreases 2 * unstarted + bumped
      {
        Tick();
      }
    }

    /**
     * Let the scheduler run until a permit is free. This returns in every schedule because some
     * permit is always free or held by a body that can move.
     */
    method AwaitPermit()
      requires Valid() && gated < bound
      modifies this`permits, this`unstarted, this`bumped, this`finished, this`aborted, this`work
      ensures Valid() && Retained() == old(Retained()) && permits > 0
    {
      Settle();
      while permits == 0
        invariant Valid() && Retained() == old(Retained())
        decreases 2 * unstarted + bumped
      {
        Tick();
      }
    }

    /** Put a body in the set under a permit that is free. */
    method Place(gate: bool)
      requires Valid() && permits > 0
      modifies this`permits, this`gated, this`unstarted, this`spawned, this`peakAlive, this`peakRetained
      ensures Valid() && permits == old(permits) - 1
      ensures gated == old(gated) + (if gate then 1 else 0)
      ensures unstarted == old(unstarted) + (if gate then 0 else 1)
      ensures spawned == old(spawned) + 1 && Retained() == old(Retained()) + 1
      ensures peakRetained == Max(old(peakRetained), Retained())
    {
      permits, spawned := permits - 1, spawned + 1;
      if gate {
        gated := gated + 1;
      } else {
        unstarted := unstarted + 1;
      }
      peakAlive := Max(peakAlive, Alive());
      peakRetained := Max(peakRetained, Retained());
    }

    /** Take a permit if one is free, and spawn a body that holds it. */
    method TrySpawn(gate: bool) returns (placed: bool)
      requires Valid()
      modifies this
      ensures Valid() && gated == old(gated) + (if placed && gate then 1 else 0)
      ensures joinedFinished == old(joinedFinished) && joinedAborted == old(joinedAborted)
      ensures old(Retained()) < bound ==> placed
      ensures bound == 0 ==> !placed
      ensures spawned == old(spawned) + (if placed then 1 else 0)
      ensures Retained() == old(Retained()) + (if placed then 1 else 0)
      ensures peakRetained <= Max(old(peakRetained), Retained())
    {
      Settle();
      placed := permits > 0;
      if placed {
        Place(gate);
      }
    }

    /** Wait for a permit and spawn a body that holds it, gated or not. */
    method Spawn(gate: bool)
      requires Valid() && gated < bound
      modifies this
      ensures Valid() && gated == old(gated) + (if gate then 1 else 0)
      ensures spawned == old(spawned) + 1 && Retained() == old(Retained()) + 1
      ensures joinedFinished == old(joinedFinished) && joinedAborted == old(joinedAborted)
    {
      AwaitPermit();
      Place(gate);
    }

    /** Let every gated body go. */
    method OpenGate()
      requires Valid()
      modifies this`gated, this`unstarted
      ensures Valid() && gated == 0 && Retained() == old(Retained())
    {
      unstarted, gated := unstarted + gated, 0;
    }

    /** Take the result of a body that has ended. */
    method Take() returns (joined: Joined)
      requires Valid() && finished + aborted > 0
      modifies this`finished, this`aborted, this`joinedFinished, this`joinedAborted
      ensures Valid() && joined != Empty && Retained() == old(Retained()) - 1
      ensures joinedFinished == old(joinedFinished) + (if joined == Finished then 1 else 0)
      ensures joinedAborted == old(joinedAborted) + (if joined == Aborted then 1 else 0)
    {
      if
      case finished > 0 =>
        finished, joinedFinished := finished - 1, joinedFinished + 1;
        joined := Finished;
      case aborted > 0 =>
        aborted, joinedAborted := aborted - 1, joinedAborted + 1;
        joined := Aborted;
    }

    /** Wait for some body to end and take its result; nothing to wait for is `Empty`. */
    method JoinNext() returns (joined: Joined)
      requires Valid() && gated == 0
      modifies this
      ensures Valid() && gated == 0 && spawned == old(spawned) && peakRetained == old(peakRetained)
      ensures joined == Empty <==> old(Retained()) == 0
      ensures Retained() == old(Retained()) - (if joined == Empty then 0 else 1)
      ensures joinedFinished == old(joinedFinished) + (if joined == Finished then 1 else 0)
      ensures joinedAborted == old(joinedAborted) + (if joined == Aborted then 1 else 0)
    {
      AwaitOne();
      if finished + aborted == 0 {
        return Empty;
      }
      joined := Take();
    }

    /** Join whatever has ended, without waiting: what is left is alive, so within the permits. */
    method Reap()
      requires Valid()
      modifies this
      ensures Valid() && gated == old(gated) && spawned == old(spawned)
      ensures Retained() <= bound
    {
      Settle();
      while finished + aborted > 0
        invariant Valid() && gated == old(gated) && spawned == old(spawned)
        decreases Retained()
      {
        var _ := Take();
        Settle();
      }
    }

    /** Join everything, waiting until nothing is left. */
    method WaitIdle() returns (joined: nat)
      requires Valid() && gated == 0
      modifies this
      ensures Valid() && gated == 0 && spawned == old(spawned) && Retained() == 0
      ensures joined == old(Retained())
    {
      joined := 0;
      var next := JoinNext();
      while next != Empty
        invariant Valid() && gated == 0 && spawned == old(spawned)
        invariant joined + Retained() + (if next == Empty then 0 else 1) == old(Retained())
        invariant next == Empty ==> Retained() == 0
        decreases Retained() + (if next == Empty then 0 else 1)
      {
        joined := joined + 1;
        next := JoinNext();
      }
    }
  }
}
