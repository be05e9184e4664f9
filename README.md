# Gradle's default task executor, modelled in Dafny

This project models `DefaultTaskExecutor`, the executor loop of Gradle's parallel task
graph. Its `process` method keeps claiming tasks from a `TaskExecutionPlan` until the plan
hands out none, then waits for the plan to settle with `awaitCompletion`. Its `executeTask`
method does four things for each claimed task:

- it checks that every dependency is complete and abandons the task if one is not;
- it notifies the `TaskExecutionListener` before the run and, in a `finally`, after it;
- it runs the task;
- it reports the outcome back to the plan: `taskFailed` when the task's state carries a
  failure, `taskComplete` otherwise.

The project has four files:

- `plan.dfy` (module `ExecutionPlan`): a minimal stand-in for the plan. It holds a fixed
  table of dependency lists and a per-node scheduling state (`Pending`, `Executing`,
  `Complete`, `Failed`, `Skipped`). It provides the claim operation, the two reporting
  operations and the `isComplete` query the executor uses. A dependency counts as complete
  once it has finished, with or without success (`Complete`, `Failed` or `Skipped`).
- `trace.dfy` (module `ExecutionTrace`): the executor's observable behaviour. Every call it
  makes is an `Event`:
  - to the plan: a claim, a report, the wait;
  - to the listener: the before- and after-notifications;
  - to the task: the run.

  `ExecuteTaskSpec` gives one call of `executeTask`. `Rounds` gives the rounds of the claim
  loop for a given order of claims. `IsRun` says that a trace is a whole run of `process`.
- `executor.dfy` (module `TaskExecutor`): the class `DefaultTaskExecutor`. Its methods
  `Process` and `ExecuteTask` have the loops of the source. They record their calls in a
  ghost trace and are proved against `IsRun` and `ExecuteTaskSpec`.
- `properties.dfy` (module `ExecutorProperties`): what every run guarantees, proved about
  `ExecuteTaskSpec`, `Rounds` and `IsRun`.

Running a task (`executeWithoutThrowingTaskFailure`) is a parameter. `outcomes[i]` says
whether the run of task `i` returned or raised, and what state it left. A task failure is
recorded in that state; `Raised` stands for an exception that escapes anyway. Such an
exception passes through the `finally`, so the after-notification is still made. It then
leaves `executeTask` and `process`: there is no report and no `awaitCompletion`, and the
model returns `Aborted(task)`. So when a run raises, `process` exits through the exception
without calling `awaitCompletion`.

## Model

| member | source | states |
|---|---|---|
| ExecutionPlan.TaskExecutionPlan.GetTaskToExecute | subprojects/core/src/main/groovy/org/gradle/execution/taskgraph/DefaultTaskExecutor.java:30-34 | The claim the executor makes with the match-everything filter (`Specs.satisfyAll()`, modelled as `ExecutionPlan.SatisfyAll`). It hands out a Pending node the filter admits and marks only that node Executing. It answers None exactly when no admitted node is Pending, and then changes nothing. |
| ExecutionPlan.TaskExecutionPlan.IsComplete | subprojects/core/src/main/groovy/org/gradle/execution/taskgraph/DefaultTaskExecutor.java:42 | A dependency passes the guard when it is Complete, Failed or Skipped. A Pending or Executing one does not. So a dependency that failed does not hold back the tasks that depend on it. |
| ExecutionPlan.NodeState.IsComplete | subprojects/core/src/main/groovy/org/gradle/execution/taskgraph/DefaultTaskExecutor.java:42 | A node state counts as complete exactly when it is neither Pending nor Executing. |
| ExecutionPlan.TaskExecutionPlan.TaskFailed | subprojects/core/src/main/groovy/org/gradle/execution/taskgraph/DefaultTaskExecutor.java:60 | Reporting a failure marks that node Failed and changes no other node. |
| ExecutionPlan.TaskExecutionPlan.TaskComplete | subprojects/core/src/main/groovy/org/gradle/execution/taskgraph/DefaultTaskExecutor.java:62 | Reporting success marks that node Complete and changes no other node. |
| TaskExecutor.DefaultTaskExecutor.ExecuteTask | subprojects/core/src/main/groovy/org/gradle/execution/taskgraph/DefaultTaskExecutor.java:39-64 | The new plan state, the calls appended to the trace and whether an exception escaped are exactly those of `ExecuteTaskSpec`. The dependency loop is proved to find an incomplete dependency exactly when the guard fails. |
| TaskExecutor.DefaultTaskExecutor.Process | subprojects/core/src/main/groovy/org/gradle/execution/taskgraph/DefaultTaskExecutor.java:29-37 | Whatever order the plan hands tasks out in, the trace, the final node states and the result form a run (`IsRun`). Each non-empty claim is passed to `executeTask`. The loop stops on the first empty claim, after which the executor waits for completion once, or at the first run that raised. |
| ExecutionTrace.RoundLeavesPending | subprojects/core/src/main/groovy/org/gradle/execution/taskgraph/DefaultTaskExecutor.java:32-35 | A round changes only the claimed node, and that node leaves Pending. So the set of Pending nodes shrinks and the claim loop ends. |
| ExecutorProperties.GuardAbandonsTask | subprojects/core/src/main/groovy/org/gradle/execution/taskgraph/DefaultTaskExecutor.java:41-48 | A call makes no listener call, no run and no report exactly when some dependency is not complete. Such a call leaves the plan unchanged and raises nothing. |
| ExecutorProperties.ReportsOnlyPastTheGuard | subprojects/core/src/main/groovy/org/gradle/execution/taskgraph/DefaultTaskExecutor.java:41-63 | A call that reports to the plan, or changes it, found every dependency complete. |
| ExecutorProperties.GuardedCallProtocol | subprojects/core/src/main/groovy/org/gradle/execution/taskgraph/DefaultTaskExecutor.java:51-63 | Past the guard, the calls are before-notification, run, then after-notification with the task's state, even when the run raised. A run that raised gets no report and changes nothing. A run that returned gets exactly one report: failed if and only if the state carries a failure, complete if and only if it does not. The node is marked to match. |
| ExecutorProperties.RoundsTouchOnlyPendingTasks | subprojects/core/src/main/groovy/org/gradle/execution/taskgraph/DefaultTaskExecutor.java:31-34 | Every task that a call names was Pending at the start and is not Pending at the end. Nodes that were not Pending never change. |
| ExecutorProperties.EachTaskClaimedOnce | subprojects/core/src/main/groovy/org/gradle/execution/taskgraph/DefaultTaskExecutor.java:30-35 | No task is handed out twice in one run. |
| ExecutorProperties.ListenerCallsPair | subprojects/core/src/main/groovy/org/gradle/execution/taskgraph/DefaultTaskExecutor.java:51-56 | Each before-notification directly follows the claim of its task. It is directly followed by the run and the after-notification with the task's state. Runs and after-notifications occur nowhere else. |
| ExecutorProperties.ReportsFollowAfterExecute | subprojects/core/src/main/groovy/org/gradle/execution/taskgraph/DefaultTaskExecutor.java:52-63 | After the after-notification of a run that returned comes exactly the report it calls for. The after-notification of a run that raised is the last call. Every report directly follows the after-notification of a run of its task that returned. |
| ExecutorProperties.RoundsKeepClaiming | subprojects/core/src/main/groovy/org/gradle/execution/taskgraph/DefaultTaskExecutor.java:32-35 | The rounds contain no empty claim and no wait. Rounds that raised end with the after-notification of the last task claimed, whose run raised. A claim is followed by its task's before-notification or by the next claim. |
| ExecutorProperties.FinalStates | subprojects/core/src/main/groovy/org/gradle/execution/taskgraph/DefaultTaskExecutor.java:58-63 | Each node ends Complete if it was reported complete and Failed if it was reported failed. A node that was claimed and never reported ends Executing. Every other node keeps its initial state. |
| ExecutorProperties.DependenciesFinishFirst | subprojects/core/src/main/groovy/org/gradle/execution/taskgraph/DefaultTaskExecutor.java:41-51 | Every before-notification and every report concerns a task whose dependencies each were complete at the start or were reported earlier in the run. |
| ExecutorProperties.RunEnds | subprojects/core/src/main/groovy/org/gradle/execution/taskgraph/DefaultTaskExecutor.java:32-36 | A run settles if and only if it waits for completion. A settled run observes the empty claim once, as its last claim, and waits exactly once, as its last call. It leaves no node Pending. An aborted run never observes the empty claim and never waits. Its last call is the after-notification of the task whose run raised. |
| ExecutorProperties.ClaimsAreHandedOn | subprojects/core/src/main/groovy/org/gradle/execution/taskgraph/DefaultTaskExecutor.java:31-35 | After each non-empty claim comes, at once, that task's before-notification or the next claim. No run ends on a claim. |
| ExecutorProperties.RunProtocol | subprojects/core/src/main/groovy/org/gradle/execution/taskgraph/DefaultTaskExecutor.java:29-64 | The pairing, report and dependency-order properties above hold for the whole trace of a run. Each final node state is the one the calls about that node describe. |
| ExecutorProperties.AbandonedTaskStaysExecuting | subprojects/core/src/main/groovy/org/gradle/execution/taskgraph/DefaultTaskExecutor.java:36-48 | A concrete run that settles while a task stays Executing. Task 1 depends on task 0 and is handed out first, so the guard abandons it without a report. Task 0 then runs and completes, and the run observes the empty claim and waits. |
| ExecutorProperties.EachTaskRunsOnce | subprojects/core/src/main/groovy/org/gradle/execution/taskgraph/DefaultTaskExecutor.java:30-63 | No call that names a task occurs twice in a run. Each task is claimed, notified before and after, run and reported at most once. |

## Left out

- `DynamicExtensionDynamicObjectAdapter.java` is unrelated to the executor and is not part of this model.
- `TaskExecutionPlan` and `TaskInfo` are not part of this model. The plan is a stand-in with only the operations the executor calls.
- The plan's scheduling policy is not modelled: selection order, the failure cascade, continue mode, and `Skipped` nodes, which the stand-in never produces.
- ExecutionPlan.TaskExecutionPlan.GetTaskToExecute: the stand-in may hand out a Pending node whose dependencies are not yet complete. That is exactly the case the executor's guard defends against. It never blocks waiting for a node to become runnable.
- A settled run may leave a node that the guard abandoned in Executing. The guard reports nothing to the plan (`FinalStates`, `AbandonedTaskStaysExecuting`). An `awaitCompletion` that blocks until every node has finished would wait on such a node forever. The model records the wait as an event and does not capture that blocking.
- Concurrency is not modelled. There is one executor, and the blocking of `getTaskToExecute` and `awaitCompletion` is not modelled; the wait is an event in the trace.
- The work a task does (`executeWithoutThrowingTaskFailure`) is not modelled. It is the parameter `outcomes`, fixed per task, and `getState` gives the same state at both of its uses.
- Exceptions raised by the listener's own notifications are not modelled.
- The warning logged when the guard abandons a task is not modelled. Neither is the formatting of its message.
- The trace is ghost instrumentation. `Process` clears it on entry, so it records a single run.
