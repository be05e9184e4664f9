// The task executor: claims tasks from the plan until it hands out none,
// runs each behind a dependency guard and between the listener's
// notifications, and reports each run's outcome back to the plan.

module TaskExecutor {
  import opened ExecutionPlan
  import opened ExecutionTrace

  /** The node a claim returned, as an event. */
  function Observed(task: Option<nat>): Event
  {
    if task.Some? then Claimed(task.value) else NoneClaimed
  }

  class DefaultTaskExecutor {
    /** Every call this executor has made, in order (instrumentation only). */
    ghost var trace: seq<Event>

    constructor ()
      ensures trace == []
    {
      trace := [];
    }

    /**
     * Claims tasks with the match-everything filter and executes each until
     * the plan hands out none, then waits for the plan to settle. A task that
     * raises ends the run there; its exception propagates, reported here as
     * `Aborted`. `outcomes[i]` is what running task `i` does.
     */
    method Process(plan: TaskExecutionPlan, outcomes: seq<Outcome>) returns (result: ProcessResult)
      requires plan.Valid() && |outcomes| == |plan.states|
      modifies this, plan
      ensures plan.Valid()
      ensures exists order :: IsRun(plan.dependencies, old(plan.states), outcomes, order, trace, plan.states, result)
    {
      trace := [];
      ghost var initial := plan.states;
      ghost var order: seq<nat> := [];
      ghost var done: seq<Event> := [];
      ghost var before := plan.states;
      var taskInfo := plan.GetTaskToExecute(SatisfyAll);
      trace := trace + [Observed(taskInfo)];
      while taskInfo.Some?
        invariant plan.Valid() && |plan.states| == |outcomes| && |before| == |plan.states|
        invariant Rounds(plan.dependencies, initial, outcomes, order) == Some(Step(before, done, false))
        invariant trace == done + [Observed(taskInfo)]
        invariant taskInfo.Some? ==> ValidClaim(plan.dependencies, before, outcomes, taskInfo.value)
        invariant taskInfo.Some? ==> plan.states == before[taskInfo.value := Executing]
        invariant taskInfo.None? ==> NoPending(before) && plan.states == before
        decreases PendingNodes(before)
      {
        var task := taskInfo.value;
        RoundLeavesPending(plan.dependencies, before, outcomes, task);
        NextRound(plan.dependencies, initial, outcomes, order, before, done, task);
        var thrown := ExecuteTask(task, plan, outcomes[task]);
        order := order + [task];
        done := trace;
        if thrown {
          result := Aborted(task);
          AbortedRun(plan.dependencies, initial, outcomes, order, plan.states, done);
          return;
        }
        before := plan.states;
        taskInfo := plan.GetTaskToExecute(SatisfyAll);
        trace := trace + [Observed(taskInfo)];
      }
      trace := trace + [AwaitedCompletion];
      result := Settled;
      SettledRun(plan.dependencies, initial, outcomes, order, before, done);
    }

    /**
     * Runs `task` if every dependency is complete, notifying the listener
     * before and after, and reports the run's outcome to the plan. Returns
     * whether running the task raised, in which case nothing is reported.
     */
    method ExecuteTask(task: nat, plan: TaskExecutionPlan, outcome: Outcome) returns (thrown: bool)
      requires plan.Valid() && task < |plan.states|
      modifies this, plan
      ensures plan.Valid()
      ensures var step := ExecuteTaskSpec(plan.dependencies[task], old(plan.states), task, outcome);
              plan.states == step.states && trace == old(trace) + step.events && thrown == step.threw
    {
      var dependencies := plan.dependencies[task];
      var k := 0;
      while k < |dependencies|
        invariant k <= |dependencies|
        invariant plan.states == old(plan.states) && trace == old(trace)
        invariant forall j :: 0 <= j < k ==> plan.states[dependencies[j]].IsComplete()
      {
        if !plan.IsComplete(dependencies[k]) {
          // a dependency has not been executed: abandon the task (the warning is not modelled)
          return false;
        }
        k := k + 1;
      }
      trace := trace + [BeforeExecute(task)];
      trace := trace + [Executed(task)];
      var state := outcome.state;
      // the after-notification is in a `finally`: it is made whether or not the run raised
      trace := trace + [AfterExecute(task, state)];
      if outcome.Raised? {
        return true;
      }
      if state.failure.Some? {
        plan.TaskFailed(task);
        trace := trace + [ReportedFailed(task)];
      } else {
        plan.TaskComplete(task);
        trace := trace + [ReportedComplete(task)];
      }
      thrown := false;
    }
  }
}
