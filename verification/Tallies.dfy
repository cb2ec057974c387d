/** The outcome tally both sides of a comparison must agree on, and the gate that compares them. */
module Tallies {

  datatype Tally = Tally(placed: nat, completed: nat, cancelled: nat, aborted: nat, refused: nat, workUnits: nat)

  /** A field the fairness gate names when it refuses. */
  datatype Field = Placed | Completed | Cancelled | Aborted | Refused | WorkUnits

  datatype Verdict = Fair | Unfair(field: Field)

  /** Field by field, in the gate's order, naming the first that diverges. */
  function Fairness(left: Tally, right: Tally): (v: Verdict)
    ensures v == Fair <==> left == right
  {
    if left.placed != right.placed then Unfair(Placed)
    else if left.completed != right.completed then Unfair(Completed)
    else if left.cancelled != right.cancelled then Unfair(Cancelled)
    else if left.aborted != right.aborted then Unfair(Aborted)
    else if left.refused != right.refused then Unfair(Refused)
    else if left.workUnits != right.workUnits then Unfair(WorkUnits)
    else Fair
  }

  /** The reasons the negative control is allowed to be refused for. */
  predicate IsWorkCount(field: Field)
  {
    field == WorkUnits || field == Completed || field == Cancelled || field == Aborted
  }
}
