// What the executor guarantees about every run of `process`, stated over the
// rounds of the claim loop (`Rounds`) and the whole run (`IsRun`), and about
// a single call of `executeTask` (`ExecuteTaskSpec`).

module ExecutorProperties {
  import opened ExecutionPlan
  import opened ExecutionTrace

  /** The events that name a task (all but the empty claim and the wait). */
  predicate HasTask(e: Event)
  {
    !e.NoneClaimed? && !e.AwaitedCompletion?
  }

  /**
   * The state a node is in after a run that produced `events`, read off the
   * events alone: reported, else claimed and still Executing, else untouched.
   */
  ghost function StateFromEvents(initial: NodeState, node: nat, events: seq<Event>): NodeState
  {
    if ReportedComplete(node) in events then Complete
    else if ReportedFailed(node) in events then Failed
    else if Claimed(node) in events then Executing
    else initial
  }

  // ---------------------------------------------------------------------------
  // One call of executeTask

  /**
   * The dependency guard: the task is abandoned, with no listener call, no
   * report and no change to the plan, exactly when some dependency is not
   * complete.
   */
  lemma GuardAbandonsTask(dependencies: seq<nat>, states: seq<NodeState>, task: nat, outcome: Outcome)
    requires task < |states|
    ensures var step := ExecuteTaskSpec(dependencies, states, task, outcome);
            (step.events == [] <==> !DependenciesComplete(dependencies, states)) &&
            (step.events == [] ==> step.states == states && !step.threw)
  {
  }

  /**
   * A call that reports to the plan, or changes it, had every dependency
   * complete when the guard looked.
   */
  lemma ReportsOnlyPastTheGuard(dependencies: seq<nat>, states: seq<NodeState>, task: nat, outcome: Outcome)
    requires task < |states|
    ensures var step := ExecuteTaskSpec(dependencies, states, task, outcome);
            (ReportedComplete(task) in step.events || ReportedFailed(task) in step.events || step.states != states) ==>
            DependenciesComplete(dependencies, states)
  {
  }

  /**
   * Past the guard, the listener is told before and after the run, the
   * after-notification carries the task's state even when the run raised,
   * and exactly one report follows a run that did not raise: failed when
   * the state carries a failure, complete otherwise.
   */
  lemma GuardedCallProtocol(dependencies: seq<nat>, states: seq<NodeState>, task: nat, outcome: Outcome)
    requires task < |states| && DependenciesComplete(dependencies, states)
    ensures var step := ExecuteTaskSpec(dependencies, states, task, outcome);
            step.events[..3] == [BeforeExecute(task), Executed(task), AfterExecute(task, outcome.state)] &&
            (outcome.Raised? ==> |step.events| == 3 && step.threw && step.states == states) &&
            (outcome.Returned? ==>
               (|step.events| == 4 && !step.threw &&
                (step.events[3] == ReportedFailed(task) <==> outcome.state.failure.Some?) &&
                (step.events[3] == ReportedComplete(task) <==> outcome.state.failure.None?) &&
                step.states == states[task := if outcome.state.failure.Some? then Failed else Complete]))
  {
  }

  // ---------------------------------------------------------------------------
  // The rounds of the claim loop

  /**
   * The last round, spelled out: the claim alone when the guard abandons
   * the task; otherwise the claim, the two notifications around the run
   * and, when the run returned, its report.
   */
  lemma LastRound(dependencies: seq<seq<nat>>, states: seq<NodeState>, outcomes: seq<Outcome>,
                  order: seq<nat>, p: Step, r: Step)
    requires |order| > 0
    requires Rounds(dependencies, states, outcomes, order[..|order| - 1]) == Some(p)
    requires Rounds(dependencies, states, outcomes, order) == Some(r)
    ensures var task := order[|order| - 1];
            var state := outcomes[task].state;
            !p.threw && ValidClaim(dependencies, p.states, outcomes, task) &&
            if !DependenciesComplete(dependencies[task], p.states[task := Executing]) then
              r == Step(p.states[task := Executing], p.events + [Claimed(task)], false)
            else if outcomes[task].Raised? then
              r == Step(p.states[task := Executing],
                        p.events + [Claimed(task), BeforeExecute(task), Executed(task), AfterExecute(task, state)], true)
            else
              r == Step(p.states[task := if state.failure.Some? then Failed else Complete],
                        p.events + [Claimed(task), BeforeExecute(task), Executed(task), AfterExecute(task, state),
                                    ReportFor(task, state)], false)
  {
    var task := order[|order| - 1];
    var step := ExecuteTaskSpec(dependencies[task], p.states[task := Executing], task, outcomes[task]);
    assert r.events == p.events + ([Claimed(task)] + step.events);
  }

  /**
   * Only Pending nodes are handed out and every node a round names leaves
   * Pending for good; nodes that were not Pending never change.
   */
  lemma {:induction false} RoundsTouchOnlyPendingTasks(dependencies: seq<seq<nat>>, states: seq<NodeState>,
                                                       outcomes: seq<Outcome>, order: seq<nat>, r: Step)
    requires Rounds(dependencies, states, outcomes, order) == Some(r)
    ensures |r.states| == |states|
    ensures forall i :: 0 <= i < |states| && r.states[i] == Pending ==> states[i] == Pending
    ensures forall i :: 0 <= i < |states| && states[i] != Pending ==> r.states[i] == states[i]
    ensures forall k :: 0 <= k < |r.events| && HasTask(r.events[k]) ==>
              r.events[k].task < |states| && states[r.events[k].task] == Pending && r.states[r.events[k].task] != Pending
    decreases |order|
  {
    if order != [] {
      var prefix, task := order[..|order| - 1], order[|order| - 1];
      var p := Rounds(dependencies, states, outcomes, prefix).value;
      RoundsTouchOnlyPendingTasks(dependencies, states, outcomes, prefix, p);
      RoundLeavesPending(dependencies, p.states, outcomes, task);
    }
  }

  /** The plan never hands the same task out twice in one run. */
  lemma {:induction false} EachTaskClaimedOnce(dependencies: seq<seq<nat>>, states: seq<NodeState>,
                                               outcomes: seq<Outcome>, order: seq<nat>, r: Step)
    requires Rounds(dependencies, states, outcomes, order) == Some(r)
    ensures forall i, j :: 0 <= i < j < |r.events| && r.events[i].Claimed? && r.events[j].Claimed? ==>
              r.events[i].task != r.events[j].task
    decreases |order|
  {
    if order != [] {
      var prefix, task := order[..|order| - 1], order[|order| - 1];
      var p := Rounds(dependencies, states, outcomes, prefix).value;
      EachTaskClaimedOnce(dependencies, states, outcomes, prefix, p);
      RoundsTouchOnlyPendingTasks(dependencies, states, outcomes, prefix, p);
    }
  }

  /**
   * At position `k`, a before-notification directly follows the claim of its
   * task and is directly followed by the run and the after-notification
   * carrying the task's resulting state.
   */
  ghost predicate BeforeIsPaired(events: seq<Event>, outcomes: seq<Outcome>, k: nat)
    requires k < |events|
  {
    events[k].BeforeExecute? ==>
      var task := events[k].task;
      1 <= k && k + 2 < |events| && task < |outcomes| &&
      events[k - 1] == Claimed(task) && events[k + 1] == Executed(task) &&
      events[k + 2] == AfterExecute(task, outcomes[task].state)
  }

  /** At position `k`, a run directly follows the before-notification of its task. */
  ghost predicate RunIsAnnounced(events: seq<Event>, k: nat)
    requires k < |events|
  {
    events[k].Executed? ==> 1 <= k && events[k - 1] == BeforeExecute(events[k].task)
  }

  /** At position `k`, an after-notification directly follows the run of its task. */
  ghost predicate AfterFollowsRun(events: seq<Event>, k: nat)
    requires k < |events|
  {
    events[k].AfterExecute? ==> 2 <= k && events[k - 1] == Executed(events[k].task)
  }

  /**
   * Listener calls come in pairs around the run: each before-notification
   * directly follows the claim of its task and is directly followed by the
   * run and the after-notification carrying the task's resulting state; the
   * run and the after-notification occur only in that position.
   */
  lemma {:induction false} ListenerCallsPair(dependencies: seq<seq<nat>>, states: seq<NodeState>,
                                             outcomes: seq<Outcome>, order: seq<nat>, r: Step)
    requires Rounds(dependencies, states, outcomes, order) == Some(r)
    ensures forall k :: 0 <= k < |r.events| ==> BeforeIsPaired(r.events, outcomes, k)
    ensures forall k :: 0 <= k < |r.events| ==> RunIsAnnounced(r.events, k)
    ensures forall k :: 0 <= k < |r.events| ==> AfterFollowsRun(r.events, k)
    decreases |order|
  {
    if order != [] {
      var prefix := order[..|order| - 1];
      var p := Rounds(dependencies, states, outcomes, prefix).value;
      ListenerCallsPair(dependencies, states, outcomes, prefix, p);
      LastRound(dependencies, states, outcomes, order, p, r);
      var n := |p.events|;
      forall k | 0 <= k < |r.events|
        ensures BeforeIsPaired(r.events, outcomes, k) && RunIsAnnounced(r.events, k) && AfterFollowsRun(r.events, k)
      {
        if k < n {
          assert BeforeIsPaired(p.events, outcomes, k) && RunIsAnnounced(p.events, k) && AfterFollowsRun(p.events, k);
        }
      }
    }
  }

  /**
   * At position `k`, an after-notification carries its task's state; when
   * the run returned it is directly followed by the one report it calls
   * for, and when the run raised it is the last event and the rounds end
   * there.
   */
  ghost predicate AfterIsFollowed(events: seq<Event>, outcomes: seq<Outcome>, threw: bool, k: nat)
    requires k < |events|
  {
    events[k].AfterExecute? ==>
      var task := events[k].task;
      task < |outcomes| && events[k].state == outcomes[task].state &&
      if outcomes[task].Raised? then k == |events| - 1 && threw
      else k + 1 < |events| && events[k + 1] == ReportFor(task, outcomes[task].state)
  }

  /**
   * At position `k`, a report directly follows the after-notification of a
   * run of its task that returned, and is the report that run calls for.
   */
  ghost predicate ReportFollowsAfter(events: seq<Event>, outcomes: seq<Outcome>, k: nat)
    requires k < |events|
  {
    events[k].IsReport() ==>
      var task := events[k].task;
      1 <= k && task < |outcomes| && outcomes[task].Returned? &&
      events[k - 1] == AfterExecute(task, outcomes[task].state) &&
      events[k] == ReportFor(task, outcomes[task].state)
  }

  /**
   * Every after-notification of a run that returned is directly followed by
   * the one report it calls for (failed exactly when the task's state
   * carries a failure); one of a run that raised is the last event of the
   * rounds, which end there. Reports occur only in that position.
   */
  lemma {:induction false} ReportsFollowAfterExecute(dependencies: seq<seq<nat>>, states: seq<NodeState>,
                                                     outcomes: seq<Outcome>, order: seq<nat>, r: Step)
    requires Rounds(dependencies, states, outcomes, order) == Some(r)
    ensures forall k :: 0 <= k < |r.events| ==> AfterIsFollowed(r.events, outcomes, r.threw, k)
    ensures forall k :: 0 <= k < |r.events| ==> ReportFollowsAfter(r.events, outcomes, k)
    decreases |order|
  {
    if order != [] {
      var prefix := order[..|order| - 1];
      var p := Rounds(dependencies, states, outcomes, prefix).value;
      ReportsFollowAfterExecute(dependencies, states, outcomes, prefix, p);
      LastRound(dependencies, states, outcomes, order, p, r);
      var n := |p.events|;
      forall k | 0 <= k < |r.events|
        ensures AfterIsFollowed(r.events, outcomes, r.threw, k) && ReportFollowsAfter(r.events, outcomes, k)
      {
        if k < n {
          assert AfterIsFollowed(p.events, outcomes, p.threw, k) && ReportFollowsAfter(p.events, outcomes, k);
        }
      }
    }
  }

  /**
   * The rounds never contain the empty claim or the wait, and rounds that
   * raised end with the after-notification of the last task handed out,
   * whose run raised.
   */
  lemma {:induction false} RoundsKeepClaiming(dependencies: seq<seq<nat>>, states: seq<NodeState>,
                                              outcomes: seq<Outcome>, order: seq<nat>, r: Step)
    requires Rounds(dependencies, states, outcomes, order) == Some(r)
    ensures NoneClaimed !in r.events && AwaitedCompletion !in r.events
    ensures r.threw ==> |order| > 0 && order[|order| - 1] < |outcomes| && outcomes[order[|order| - 1]].Raised? &&
                        |r.events| > 0 &&
                        r.events[|r.events| - 1] == AfterExecute(order[|order| - 1], outcomes[order[|order| - 1]].state)
    ensures forall k :: 0 <= k < |r.events| && r.events[k].Claimed? ==>
              (k + 1 < |r.events| && (r.events[k + 1] == BeforeExecute(r.events[k].task) || r.events[k + 1].Claimed?)) ||
              (k == |r.events| - 1 && !r.threw)
    decreases |order|
  {
    if order != [] {
      var prefix, task := order[..|order| - 1], order[|order| - 1];
      var p := Rounds(dependencies, states, outcomes, prefix).value;
      RoundsKeepClaiming(dependencies, states, outcomes, prefix, p);
    }
  }

  /**
   * Each node ends Complete if the run reported it complete, Failed if the
   * run reported it failed, Executing if it was handed out and never
   * reported (its dependencies were not complete, or its run raised), and
   * in its initial state otherwise.
   */
  lemma {:induction false} FinalStates(dependencies: seq<seq<nat>>, states: seq<NodeState>,
                                       outcomes: seq<Outcome>, order: seq<nat>, r: Step)
    requires Rounds(dependencies, states, outcomes, order) == Some(r)
    ensures |r.states| == |states|
    ensures forall i :: 0 <= i < |states| ==> r.states[i] == StateFromEvents(states[i], i, r.events)
    decreases |order|
  {
    if order != [] {
      var prefix, task := order[..|order| - 1], order[|order| - 1];
      var p := Rounds(dependencies, states, outcomes, prefix).value;
      FinalStates(dependencies, states, outcomes, prefix, p);
      RoundsTouchOnlyPendingTasks(dependencies, states, outcomes, prefix, p);
      LastRound(dependencies, states, outcomes, order, p, r);
      var state := outcomes[task].state;
      var round :=
        if !DependenciesComplete(dependencies[task], p.states[task := Executing]) then [Claimed(task)]
        else if outcomes[task].Raised? then [Claimed(task), BeforeExecute(task), Executed(task), AfterExecute(task, state)]
        else [Claimed(task), BeforeExecute(task), Executed(task), AfterExecute(task, state), ReportFor(task, state)];
      assert r.events == p.events + round;
      forall i | 0 <= i < |states|
        ensures r.states[i] == StateFromEvents(states[i], i, r.events)
      {
        if i == task {
          assert Claimed(task) !in p.events && ReportedComplete(task) !in p.events && ReportedFailed(task) !in p.events;
          FreshNodeState(states[i], task, p.events, round);
        } else {
          OtherNodeState(states[i], i, p.events, round, task);
        }
      }
    }
  }

  /** Events that all name `task` say nothing about another node. */
  lemma OtherNodeState(initial: NodeState, node: nat, events: seq<Event>, round: seq<Event>, task: nat)
    requires forall k :: 0 <= k < |round| ==> HasTask(round[k]) && round[k].task == task
    requires node != task
    ensures StateFromEvents(initial, node, events + round) == StateFromEvents(initial, node, events)
  {
    assert ReportedComplete(node) !in round && ReportedFailed(node) !in round && Claimed(node) !in round;
  }

  /** For a node the earlier events never name, only the new events count. */
  lemma FreshNodeState(initial: NodeState, node: nat, events: seq<Event>, round: seq<Event>)
    requires Claimed(node) !in events && ReportedComplete(node) !in events && ReportedFailed(node) !in events
    ensures StateFromEvents(initial, node, events + round) == StateFromEvents(initial, node, round)
  {
  }

  /** `node` was complete at the start, or a report for it is among `earlier`. */
  ghost predicate FinishedBy(initial: NodeState, node: nat, earlier: seq<Event>)
  {
    initial.IsComplete() || ReportedComplete(node) in earlier || ReportedFailed(node) in earlier
  }

  /**
   * At position `k`, a before-notification or a report concerns a task each
   * of whose dependencies was complete at the start or reported earlier.
   */
  ghost predicate DependenciesFinishedAt(dependencies: seq<seq<nat>>, states: seq<NodeState>, events: seq<Event>, k: nat)
    requires k < |events|
  {
    (events[k].BeforeExecute? || events[k].IsReport()) ==>
      events[k].task < |dependencies| &&
      forall d :: d in dependencies[events[k].task] ==> d < |states| && FinishedBy(states[d], d, events[..k])
  }

  /**
   * A task runs, and is reported, only after each of its dependencies is
   * complete: complete before the run began, or reported complete or
   * failed earlier in the run.
   */
  lemma {:induction false} DependenciesFinishFirst(dependencies: seq<seq<nat>>, states: seq<NodeState>,
                                                   outcomes: seq<Outcome>, order: seq<nat>, r: Step)
    requires Rounds(dependencies, states, outcomes, order) == Some(r)
    ensures forall k :: 0 <= k < |r.events| ==> DependenciesFinishedAt(dependencies, states, r.events, k)
    decreases |order|
  {
    if order != [] {
      var prefix, task := order[..|order| - 1], order[|order| - 1];
      var p := Rounds(dependencies, states, outcomes, prefix).value;
      DependenciesFinishFirst(dependencies, states, outcomes, prefix, p);
      FinalStates(dependencies, states, outcomes, prefix, p);
      LastRound(dependencies, states, outcomes, order, p, r);
      var n := |p.events|;
      forall k | 0 <= k < |r.events|
        ensures DependenciesFinishedAt(dependencies, states, r.events, k)
      {
        if k < n {
          assert DependenciesFinishedAt(dependencies, states, p.events, k);
          assert r.events[..k] == p.events[..k];
        } else if r.events[k].BeforeExecute? || r.events[k].IsReport() {
          assert r.events[..k] == p.events + r.events[n..k];
          forall d | d in dependencies[task]
            ensures d < |states| && FinishedBy(states[d], d, r.events[..k])
          {
            DependencyFinished(dependencies[task], p.states, task, d);
            assert FinishedBy(states[d], d, p.events);
          }
        }
      }
    }
  }

  /** A dependency the guard found complete is another node, complete before the claim. */
  lemma DependencyFinished(dependencies: seq<nat>, states: seq<NodeState>, task: nat, d: nat)
    requires task < |states| && DependenciesComplete(dependencies, states[task := Executing]) && d in dependencies
    ensures d < |states| && d != task && states[d].IsComplete()
  {
    var j :| 0 <= j < |dependencies| && dependencies[j] == d;
  }

  // ---------------------------------------------------------------------------
  // Whole runs of process

  /**
   * A run is its rounds, followed, unless the last round raised, by two
   * events that name no task.
   */
  lemma RunExtendsRounds(dependencies: seq<seq<nat>>, states: seq<NodeState>, outcomes: seq<Outcome>,
                         order: seq<nat>, trace: seq<Event>, final: seq<NodeState>, result: ProcessResult)
    requires IsRun(dependencies, states, outcomes, order, trace, final, result)
    ensures var r := Rounds(dependencies, states, outcomes, order).value;
            |r.events| <= |trace| && trace[..|r.events|] == r.events &&
            (forall k :: |r.events| <= k < |trace| ==> !HasTask(trace[k])) &&
            (result.Aborted? <==> r.threw)
  {
  }

  /**
   * How a run ends. A run that settles observed the empty claim once, as
   * its last claim, then waited for completion exactly once, as its last
   * call, and leaves no node Pending. A run that aborts never observed the
   * empty claim, never waited, and ends with the after-notification of the
   * task whose run raised.
   */
  lemma RunEnds(dependencies: seq<seq<nat>>, states: seq<NodeState>, outcomes: seq<Outcome>,
                order: seq<nat>, trace: seq<Event>, final: seq<NodeState>, result: ProcessResult)
    requires IsRun(dependencies, states, outcomes, order, trace, final, result)
    ensures result.Settled? <==> AwaitedCompletion in trace
    ensures result.Settled? ==>
              |trace| >= 2 && trace[|trace| - 2] == NoneClaimed && trace[|trace| - 1] == AwaitedCompletion &&
              NoneClaimed !in trace[..|trace| - 2] && AwaitedCompletion !in trace[..|trace| - 1] &&
              NoPending(final)
    ensures result.Aborted? ==>
              NoneClaimed !in trace && |trace| > 0 && result.task < |outcomes| && outcomes[result.task].Raised? &&
              trace[|trace| - 1] == AfterExecute(result.task, outcomes[result.task].state)
  {
    var r := Rounds(dependencies, states, outcomes, order).value;
    RoundsKeepClaiming(dependencies, states, outcomes, order, r);
    if result.Settled? {
      assert trace[..|trace| - 2] == r.events;
      assert trace[..|trace| - 1] == r.events + [NoneClaimed];
    }
  }

  /**
   * Every task the plan hands out is passed on at once: the next call is
   * its before-notification when it runs, or the next claim when the
   * guard abandons it. No run ends on a claimed task.
   */
  lemma ClaimsAreHandedOn(dependencies: seq<seq<nat>>, states: seq<NodeState>, outcomes: seq<Outcome>,
                          order: seq<nat>, trace: seq<Event>, final: seq<NodeState>, result: ProcessResult)
    requires IsRun(dependencies, states, outcomes, order, trace, final, result)
    ensures forall k :: 0 <= k < |trace| && trace[k].Claimed? ==>
              k + 1 < |trace| &&
              (trace[k + 1] == BeforeExecute(trace[k].task) || trace[k + 1].Claimed? || trace[k + 1] == NoneClaimed)
  {
    var r := Rounds(dependencies, states, outcomes, order).value;
    RoundsKeepClaiming(dependencies, states, outcomes, order, r);
    RunExtendsRounds(dependencies, states, outcomes, order, trace, final, result);
    forall k | 0 <= k < |trace| && trace[k].Claimed?
      ensures k + 1 < |trace| &&
              (trace[k + 1] == BeforeExecute(trace[k].task) || trace[k + 1].Claimed? || trace[k + 1] == NoneClaimed)
    {
      assert trace[k] == r.events[k];
      if k + 1 < |r.events| {
        assert trace[k + 1] == r.events[k + 1];
      }
    }
  }

  /**
   * The order of the calls in a whole run: listener calls pair up around
   * each run, each run that returned gets its one report and a run that
   * raised ends the trace, every run and report comes after its
   * dependencies finished, and each node ends in the state the calls
   * about it describe.
   */
  lemma RunProtocol(dependencies: seq<seq<nat>>, states: seq<NodeState>, outcomes: seq<Outcome>,
                    order: seq<nat>, trace: seq<Event>, final: seq<NodeState>, result: ProcessResult)
    requires IsRun(dependencies, states, outcomes, order, trace, final, result)
    ensures forall k :: 0 <= k < |trace| ==>
              BeforeIsPaired(trace, outcomes, k) && RunIsAnnounced(trace, k) && AfterFollowsRun(trace, k)
    ensures forall k :: 0 <= k < |trace| ==>
              AfterIsFollowed(trace, outcomes, result.Aborted?, k) && ReportFollowsAfter(trace, outcomes, k)
    ensures forall k :: 0 <= k < |trace| ==> DependenciesFinishedAt(dependencies, states, trace, k)
    ensures |final| == |states| && forall i :: 0 <= i < |states| ==> final[i] == StateFromEvents(states[i], i, trace)
  {
    var r := Rounds(dependencies, states, outcomes, order).value;
    RunExtendsRounds(dependencies, states, outcomes, order, trace, final, result);
    ListenerCallsPair(dependencies, states, outcomes, order, r);
    ReportsFollowAfterExecute(dependencies, states, outcomes, order, r);
    DependenciesFinishFirst(dependencies, states, outcomes, order, r);
    FinalStates(dependencies, states, outcomes, order, r);
    var n := |r.events|;
    forall k | 0 <= k < |trace|
      ensures BeforeIsPaired(trace, outcomes, k) && RunIsAnnounced(trace, k) && AfterFollowsRun(trace, k)
      ensures AfterIsFollowed(trace, outcomes, result.Aborted?, k) && ReportFollowsAfter(trace, outcomes, k)
      ensures DependenciesFinishedAt(dependencies, states, trace, k)
    {
      if k < n {
        assert trace[k] == r.events[k];
        assert BeforeIsPaired(r.events, outcomes, k) && RunIsAnnounced(r.events, k) && AfterFollowsRun(r.events, k);
        assert AfterIsFollowed(r.events, outcomes, r.threw, k) && ReportFollowsAfter(r.events, outcomes, k);
        assert DependenciesFinishedAt(dependencies, states, r.events, k);
        assert trace[..k] == r.events[..k];
      } else {
        assert !HasTask(trace[k]);
      }
    }
    if !r.threw {
      forall i | 0 <= i < |states|
        ensures final[i] == StateFromEvents(states[i], i, trace)
      {
        assert trace == r.events + [NoneClaimed, AwaitedCompletion];
        assert ReportedComplete(i) !in [NoneClaimed, AwaitedCompletion];
        assert ReportedFailed(i) !in [NoneClaimed, AwaitedCompletion];
        assert Claimed(i) !in [NoneClaimed, AwaitedCompletion];
      }
    }
  }

  /**
   * No task is handed out, announced, run or reported twice in one run.
   */
  lemma {:induction false} EachTaskRunsOnce(dependencies: seq<seq<nat>>, states: seq<NodeState>, outcomes: seq<Outcome>,
                                            order: seq<nat>, trace: seq<Event>, final: seq<NodeState>, result: ProcessResult)
    requires IsRun(dependencies, states, outcomes, order, trace, final, result)
    ensures forall i, j :: 0 <= i < j < |trace| && HasTask(trace[i]) ==> trace[j] != trace[i]
  {
    var r := Rounds(dependencies, states, outcomes, order).value;
    RunExtendsRounds(dependencies, states, outcomes, order, trace, final, result);
    RunProtocol(dependencies, states, outcomes, order, trace, final, result);
    EachTaskClaimedOnce(dependencies, states, outcomes, order, r);
    forall i, j | 0 <= i < j < |trace| && HasTask(trace[i])
      ensures trace[j] != trace[i]
    {
      if trace[j] == trace[i] {
        var c := ClaimPosition(trace, outcomes, i);
        var d := ClaimPosition(trace, outcomes, j);
      }
    }
  }

  /** How far into its round an event sits. */
  function RoundOffset(e: Event): nat
  {
    match e
    case BeforeExecute(_) => 1
    case Executed(_) => 2
    case AfterExecute(_, _) => 3
    case ReportedFailed(_) => 4
    case ReportedComplete(_) => 4
    case _ => 0
  }

  /** Every event that names a task sits a fixed distance after the claim of that task. */
  lemma ClaimPosition(trace: seq<Event>, outcomes: seq<Outcome>, k: nat) returns (c: nat)
    requires k < |trace| && HasTask(trace[k])
    requires forall k :: 0 <= k < |trace| ==>
               BeforeIsPaired(trace, outcomes, k) && RunIsAnnounced(trace, k) && AfterFollowsRun(trace, k)
    requires forall k :: 0 <= k < |trace| ==> ReportFollowsAfter(trace, outcomes, k)
    ensures c + RoundOffset(trace[k]) == k && trace[c] == Claimed(trace[k].task)
  {
    if trace[k].IsReport() {
      assert ReportFollowsAfter(trace, outcomes, k);
      assert AfterFollowsRun(trace, k - 1) && RunIsAnnounced(trace, k - 2) && BeforeIsPaired(trace, outcomes, k - 3);
      c := k - 4;
    } else if trace[k].AfterExecute? {
      assert AfterFollowsRun(trace, k) && RunIsAnnounced(trace, k - 1) && BeforeIsPaired(trace, outcomes, k - 2);
      c := k - 3;
    } else if trace[k].Executed? {
      assert RunIsAnnounced(trace, k) && BeforeIsPaired(trace, outcomes, k - 1);
      c := k - 2;
    } else if trace[k].BeforeExecute? {
      assert BeforeIsPaired(trace, outcomes, k);
      c := k - 1;
    } else {
      c := k;
    }
  }

  /**
   * The guard reports nothing to the plan for a task it abandons. A run can
   * settle while such a task stays Executing: task 1 depends on task 0, the
   * plan hands out task 1 first, its guard abandons it, and task 0 then runs
   * and completes.
   */
  lemma AbandonedTaskStaysExecuting()
    ensures var done := TaskState(None);
            IsRun([[], [0]], [Pending, Pending], [Returned(done), Returned(done)], [1, 0],
                  [Claimed(1), Claimed(0), BeforeExecute(0), Executed(0), AfterExecute(0, done), ReportedComplete(0),
                   NoneClaimed, AwaitedCompletion],
                  [Complete, Executing], Settled)
  {
    var done := TaskState(None);
    var dependencies, states, outcomes := [[], [0]], [Pending, Pending], [Returned(done), Returned(done)];
    assert [1, 0][..1] == [1] && [1][..0] == [];
    assert states[1 := Executing] == [Pending, Executing] && !Pending.IsComplete();
    assert !DependenciesComplete(dependencies[1], states[1 := Executing]) by {
      assert dependencies[1][0] == 0;
    }
    assert [Pending, Executing][0 := Executing][0 := Complete] == [Complete, Executing];
    assert Rounds(dependencies, states, outcomes, []) == Some(Step(states, [], false));
    assert ValidClaim(dependencies, states, outcomes, 1);
    assert ExecuteTaskSpec(dependencies[1], states[1 := Executing], 1, outcomes[1]) == Step([Pending, Executing], [], false);
    assert [] + [Claimed(1)] + [] == [Claimed(1)];
    assert Rounds(dependencies, states, outcomes, [1]) == Some(Step([Pending, Executing], [Claimed(1)], false));
    assert ValidClaim(dependencies, [Pending, Executing], outcomes, 0);
    assert [BeforeExecute(0), Executed(0), AfterExecute(0, done)] + [ReportedComplete(0)] ==
           [BeforeExecute(0), Executed(0), AfterExecute(0, done), ReportedComplete(0)];
    assert ExecuteTaskSpec(dependencies[0], [Pending, Executing][0 := Executing], 0, outcomes[0]) ==
           Step([Complete, Executing], [BeforeExecute(0), Executed(0), AfterExecute(0, done), ReportedComplete(0)], false);
    assert [Claimed(1)] + [Claimed(0)] + [BeforeExecute(0), Executed(0), AfterExecute(0, done), ReportedComplete(0)] ==
           [Claimed(1), Claimed(0), BeforeExecute(0), Executed(0), AfterExecute(0, done), ReportedComplete(0)];
    assert DependenciesComplete(dependencies[0], [Pending, Executing][0 := Executing]);
    assert Rounds(dependencies, states, outcomes, [1, 0]) ==
           Some(Step([Complete, Executing],
                     [Claimed(1), Claimed(0), BeforeExecute(0), Executed(0), AfterExecute(0, done), ReportedComplete(0)],
                     false));
    assert NoPending([Complete, Executing]) by {
      assert forall i :: i !in PendingNodes([Complete, Executing]);
    }
  }
}
