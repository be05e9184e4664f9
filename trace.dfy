// The observable behaviour of the task executor, as functions over the plan's
// node states and a trace of the calls the executor makes: to the plan
// (claims, reports, the completion barrier), to the task execution listener
// (before/after notifications) and to the task itself.

module ExecutionTrace {
  import opened ExecutionPlan

  /** The task's own state after it ran: the failure it recorded, if any. */
  datatype TaskState = TaskState(failure: Option<string>)

  /** What running a task did. */
  datatype Outcome =
    | Returned(state: TaskState)   // the run finished; a failure, if any, is recorded in the state
    | Raised(state: TaskState)     // an exception escaped; the state is whatever the task left behind

  /** One observable call made by the executor. */
  datatype Event =
    | Claimed(task: nat)                            // the plan handed out `task`
    | NoneClaimed                                   // the plan had no task to hand out
    | BeforeExecute(task: nat)                      // listener notified before the run
    | Executed(task: nat)                           // the task was run
    | AfterExecute(task: nat, state: TaskState)     // listener notified after the run
    | ReportedFailed(task: nat)                     // the plan was told the task failed
    | ReportedComplete(task: nat)                   // the plan was told the task completed
    | AwaitedCompletion                             // the executor waited for the plan to settle
  {
    predicate IsReport()
    {
      ReportedFailed? || ReportedComplete?
    }
  }

  /** How `process` ended: normally, or by the exception a task raised. */
  datatype ProcessResult = Settled | Aborted(task: nat)

  /** Node states after a step, the events it produced, and whether an exception escaped. */
  datatype Step = Step(states: seq<NodeState>, events: seq<Event>, threw: bool)

  /** Every dependency names a node and that node is complete. */
  ghost predicate DependenciesComplete(dependencies: seq<nat>, states: seq<NodeState>)
  {
    forall j :: 0 <= j < |dependencies| ==> dependencies[j] < |states| && states[dependencies[j]].IsComplete()
  }

  /** The report the executor owes the plan for a task whose run returned with `state`. */
  function ReportFor(task: nat, state: TaskState): Event
  {
    if state.failure.Some? then ReportedFailed(task) else ReportedComplete(task)
  }

  /**
   * One call of `executeTask` for `task` whose dependency list is
   * `dependencies`, when running the task has `outcome`.
   */
  ghost function ExecuteTaskSpec(dependencies: seq<nat>, states: seq<NodeState>, task: nat, outcome: Outcome): Step
    requires task < |states|
  {
    if !DependenciesComplete(dependencies, states) then
      Step(states, [], false)
    else
      var ran := [BeforeExecute(task), Executed(task), AfterExecute(task, outcome.state)];
      if outcome.Raised? then
        Step(states, ran, true)
      else if outcome.state.failure.Some? then
        Step(states[task := Failed], ran + [ReportedFailed(task)], false)
      else
        Step(states[task := Complete], ran + [ReportedComplete(task)], false)
  }

  /** `task` may be handed out by the plan: it exists, has an outcome and is Pending. */
  ghost predicate ValidClaim(dependencies: seq<seq<nat>>, states: seq<NodeState>, outcomes: seq<Outcome>, task: nat)
  {
    task < |states| && task < |dependencies| && task < |outcomes| && states[task] == Pending
  }

  /** A round of the claim loop changes only the claimed node, which leaves Pending for good. */
  lemma RoundLeavesPending(dependencies: seq<seq<nat>>, states: seq<NodeState>, outcomes: seq<Outcome>, task: nat)
    requires ValidClaim(dependencies, states, outcomes, task)
    ensures var step := ExecuteTaskSpec(dependencies[task], states[task := Executing], task, outcomes[task]);
            |step.states| == |states| && step.states[task] != Pending &&
            (forall i :: 0 <= i < |states| && i != task ==> step.states[i] == states[i]) &&
            PendingNodes(step.states) == PendingNodes(states) - {task}
  {
    var step := ExecuteTaskSpec(dependencies[task], states[task := Executing], task, outcomes[task]);
    assert forall i :: 0 <= i < |states| && i != task ==> step.states[i] == states[i];
    assert PendingNodes(step.states) == PendingNodes(states) - {task};
  }

  /**
   * The rounds of the claim loop when the plan hands out the tasks of
   * `order`, one per round, starting from `states`: the node states they
   * leave, the events they produce, and whether the last one raised. A
   * round is the claim followed by what `executeTask` does on the task.
   * None when the plan could not have handed out that order (a task that
   * is not Pending, or a round after one that raised).
   */
  ghost function Rounds(dependencies: seq<seq<nat>>, states: seq<NodeState>, outcomes: seq<Outcome>, order: seq<nat>): Option<Step>
    decreases |order|
  {
    if order == [] then
      Some(Step(states, [], false))
    else
      var done := Rounds(dependencies, states, outcomes, order[..|order| - 1]);
      var task := order[|order| - 1];
      if done.None? || done.value.threw || !ValidClaim(dependencies, done.value.states, outcomes, task) then
        None
      else
        var step := ExecuteTaskSpec(dependencies[task], done.value.states[task := Executing], task, outcomes[task]);
        Some(Step(step.states, done.value.events + [Claimed(task)] + step.events, step.threw))
  }

  /**
   * `trace` is a whole run of `process` from `states` in which the plan
   * hands out the tasks of `order`: the rounds, then, unless the last round
   * raised, the claim that finds nothing and the wait for completion.
   * `final` is the plan's node states at the end and `result` how it ended.
   */
  ghost predicate IsRun(dependencies: seq<seq<nat>>, states: seq<NodeState>, outcomes: seq<Outcome>,
                        order: seq<nat>, trace: seq<Event>, final: seq<NodeState>, result: ProcessResult)
  {
    var rounds := Rounds(dependencies, states, outcomes, order);
    rounds.Some? && final == rounds.value.states &&
    if rounds.value.threw then
      |order| > 0 && trace == rounds.value.events && result == Aborted(order[|order| - 1])
    else
      NoPending(final) && trace == rounds.value.events + [NoneClaimed, AwaitedCompletion] && result == Settled
  }

  /** Handing out one more Pending task adds its round to the rounds so far. */
  lemma NextRound(dependencies: seq<seq<nat>>, states: seq<NodeState>, outcomes: seq<Outcome>,
                  order: seq<nat>, reached: seq<NodeState>, done: seq<Event>, task: nat)
    requires Rounds(dependencies, states, outcomes, order) == Some(Step(reached, done, false))
    requires ValidClaim(dependencies, reached, outcomes, task)
    ensures var step := ExecuteTaskSpec(dependencies[task], reached[task := Executing], task, outcomes[task]);
            Rounds(dependencies, states, outcomes, order + [task]) == Some(Step(step.states, done + [Claimed(task)] + step.events, step.threw))
  {
    assert (order + [task])[..|order|] == order;
  }

  /** Rounds that leave nothing Pending, then the empty claim and the wait, make a settled run. */
  lemma SettledRun(dependencies: seq<seq<nat>>, states: seq<NodeState>, outcomes: seq<Outcome>,
                   order: seq<nat>, reached: seq<NodeState>, done: seq<Event>)
    requires Rounds(dependencies, states, outcomes, order) == Some(Step(reached, done, false))
    requires NoPending(reached)
    ensures IsRun(dependencies, states, outcomes, order, done + [NoneClaimed] + [AwaitedCompletion], reached, Settled)
  {
    assert done + [NoneClaimed] + [AwaitedCompletion] == done + [NoneClaimed, AwaitedCompletion];
  }

  /** Rounds whose last one raised make a run that ends there. */
  lemma AbortedRun(dependencies: seq<seq<nat>>, states: seq<NodeState>, outcomes: seq<Outcome>,
                   order: seq<nat>, reached: seq<NodeState>, done: seq<Event>)
    requires |order| > 0
    requires Rounds(dependencies, states, outcomes, order) == Some(Step(reached, done, true))
    ensures IsRun(dependencies, states, outcomes, order, done, reached, Aborted(order[|order| - 1]))
  {
  }
}
