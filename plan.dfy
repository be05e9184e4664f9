// A minimal stand-in for the task execution plan that the executor drives.
// Only the surface the executor uses is modelled: a fixed table of nodes with
// their predecessor indices, a per-node scheduling state, the claim operation
// and the two reporting operations. The plan's own scheduling policy
// (selection order, failure cascade, continue mode, blocking) is not modelled.

module ExecutionPlan {

  datatype Option<T> = None | Some(value: T)

  /** Scheduling state of one node of the plan. */
  datatype NodeState = Pending | Executing | Complete | Failed | Skipped
  {
    /** What the executor asks of a dependency: it has finished, with or without success. */
    predicate IsComplete(): (r: bool)
      ensures r <==> this != Pending && this != Executing
    {
      this == Complete || this == Failed || this == Skipped
    }
  }

  /** Every predecessor index of every node names a node of the table. */
  ghost predicate WellFormed(dependencies: seq<seq<nat>>)
  {
    forall i, j :: 0 <= i < |dependencies| && 0 <= j < |dependencies[i]| ==> dependencies[i][j] < |dependencies|
  }

  /** The nodes waiting to be claimed. */
  ghost function PendingNodes(states: seq<NodeState>): set<nat>
  {
    set i | 0 <= i < |states| && states[i] == Pending
  }

  /** True when no node is waiting to be claimed. */
  ghost predicate NoPending(states: seq<NodeState>)
  {
    PendingNodes(states) == {}
  }

  /** The selection predicate that admits every node. */
  function SatisfyAll(node: nat): bool
  {
    true
  }

  class TaskExecutionPlan {
    /** Predecessor index lists, fixed when the plan is built. */
    const dependencies: seq<seq<nat>>
    /** Scheduling state of each node, indexed like `dependencies`. */
    var states: seq<NodeState>

    ghost predicate Valid()
      reads this
    {
      WellFormed(dependencies) && |states| == |dependencies|
    }

    constructor (dependencies: seq<seq<nat>>)
      requires WellFormed(dependencies)
      ensures Valid() && this.dependencies == dependencies
      ensures |states| == |dependencies| && forall i :: 0 <= i < |states| ==> states[i] == Pending
    {
      this.dependencies := dependencies;
      states := seq(|dependencies|, _ => Pending);
    }

    /** The `isComplete` query the executor puts to a dependency. */
    predicate IsComplete(node: nat): (r: bool)
      reads this
      requires Valid() && node < |states|
      ensures r <==> states[node] != Pending && states[node] != Executing
    {
      states[node].IsComplete()
    }

    /**
     * Claims some Pending node that `filter` admits and marks it Executing,
     * or answers None when there is no such node. Which node is chosen is
     * left open.
     */
    method GetTaskToExecute(filter: nat -> bool) returns (task: Option<nat>)
      requires Valid()
      modifies this
      ensures Valid()
      ensures task.None? ==> states == old(states)
      ensures task.None? ==> forall i :: 0 <= i < |states| && filter(i) ==> states[i] != Pending
      ensures task.Some? ==> task.value < |states| && filter(task.value) && old(states)[task.value] == Pending
      ensures task.Some? ==> states == old(states)[task.value := Executing]
    {
      if exists i :: 0 <= i < |states| && states[i] == Pending && filter(i) {
        var i :| 0 <= i < |states| && states[i] == Pending && filter(i);
        states := states[i := Executing];
        task := Some(i);
      } else {
        task := None;
      }
    }

    /** Records that `task` ran without a failure. */
    method TaskComplete(task: nat)
      requires Valid() && task < |states|
      modifies this
      ensures Valid() && states == old(states)[task := Complete]
    {
      states := states[task := Complete];
    }

    /** Records that `task` ran and failed. */
    method TaskFailed(task: nat)
      requires Valid() && task < |states|
      modifies this
      ensures Valid() && states == old(states)[task := Failed]
    {
      states := states[task := Failed];
    }
  }
}
