/**
 * When a Stop() is heard. It clears the flag and notifies without the mutex, so both can fall between the dispatcher's
 * test of the flag and its going to sleep.
 */
module SchedulerStop {
  import opened Outcome
  import opened Scheduler
  import opened SchedulerSafety

  /** Stop() waits for a dispatcher that is on its way out. */
  predicate Heard(s: State) {
    s.stop.Joining? && !s.running && !s.dispatcher.Deciding? && !s.dispatcher.Blocked?
  }

  /** Stop() waits for a dispatcher that is asleep, or about to be. */
  predicate Unheard(s: State) {
    s.stop.Joining? && !s.running && (s.dispatcher.Deciding? || s.dispatcher.Blocked?)
  }

  /** What wakes a dispatcher that a notification has missed. */
  predicate Wakes(step: Step) {
    step.Schedule? || step.Cancel? || step.TimeUp? || step.Spurious?
  }

  /** How many steps the dispatcher has left once it has seen the flag. */
  function StepsLeft(d: Dispatcher): nat {
    match d
    case Off => 0
    case Spawned(_) => 2
    case Counted(_) => 3
    case Taken(_) => 4
    case _ => 1
  }

  predicate OfDispatcher(step: Step) {
    || step.Exit? || step.CountIn? || step.Spawn? || step.Settle?
    || step.Take? || step.TakeCancelled? || step.DecideToWait? || step.Block?
  }

  // ---------- one step ----------

  /** The notification is heard exactly if the dispatcher is not between its test and its sleep. */
  lemma NotifyIsHeard(s: State)
    requires StopOk(s) && Enabled(s, StopNotify)
    ensures var s' := Do(s, StopNotify);
            (Heard(s') <==> !s.dispatcher.Deciding?) && (Unheard(s') <==> s.dispatcher.Deciding?)
  {
    hide EntriesAfter, TasksAfter, QueueAfter, InFlightAfter, ThreadsAfter;
  }

  /** Once heard it stays heard until Stop() has joined, and every step of the dispatcher is one fewer to go. */
  lemma HeardStays(s: State, step: Step)
    requires Heard(s) && Enabled(s, step) && !step.StopJoin?
    ensures Heard(Do(s, step))
    ensures StepsLeft(Do(s, step).dispatcher) == StepsLeft(s.dispatcher) - if OfDispatcher(step) then 1 else 0
  {
    hide EntriesAfter, TasksAfter, QueueAfter, InFlightAfter, ThreadsAfter, Due, NothingDue, Next;
  }

  /** Unheard it stays so until something else wakes the dispatcher; then it is heard. */
  lemma UnheardStays(s: State, step: Step)
    requires Unheard(s) && Enabled(s, step)
    ensures !Wakes(step) ==> Unheard(Do(s, step))
    ensures Wakes(step) ==> Heard(Do(s, step))
  {
    hide EntriesAfter, TasksAfter, QueueAfter, InFlightAfter, ThreadsAfter, Due, NothingDue, Next;
  }

  // ---------- the way out ----------

  lemma Above(taken: set<nat>) returns (n: nat)
    ensures forall x :: x in taken ==> x < n
    decreases taken
  {
    if taken == {} {
      n := 0;
    } else {
      var x :| x in taken;
      n := Above(taken - {x});
      n := if n <= x then x + 1 else n;
      assert forall y :: y in taken ==> y == x || y in taken - {x};
    }
  }

  /** A periodic task without a positive interval, for whose next run the dispatcher looks for ever. */
  predicate Endless(s: State) {
    && s.dispatcher.Spawned? && s.dispatcher.id in s.entries && !s.entries[s.dispatcher.id].cancelled
    && s.entries[s.dispatcher.id].kind.Periodic? && s.entries[s.dispatcher.id].kind.interval <= 0
  }

  /** A dispatcher that has heard can always go on, unless such a task holds it up; once out, it can be joined. */
  lemma HeardGoesOn(s: State) returns (step: Step)
    requires Heard(s) && Inv(s) && !Endless(s)
    ensures Enabled(s, step) && if s.dispatcher.Off? then step.StopJoin? else OfDispatcher(step)
  {
    hide Counts, OnGrid, SlotOk, TaskOk, Advanced, NothingDue, Due;
    assert HandOk(s.now, Hand(s.dispatcher), s.entries, s.tasks);
    match s.dispatcher
    case Off => step := StopJoin;
    case Top => step := Exit;
    case Taken(_) => step := CountIn;
    case Counted(_) =>
      var n := Above(s.threads.Keys);
      step := Spawn(n);
    case Spawned(id) =>
      var e := s.entries[id];
      var fits := e.kind.Periodic? && e.kind.interval > 0;
      step := Settle(if fits then Advanced(e.nextRun, e.kind.interval, s.now) else s.now + 1);
  }

  // ---------- whole runs ----------

  /** How many steps of the dispatcher there are from the n-th on. */
  function DispatcherSteps(steps: seq<Step>, n: nat): nat
    requires n <= |steps|
    decreases |steps|
  {
    if n == |steps| then 0
    else DispatcherSteps(steps[..|steps| - 1], n) + if OfDispatcher(steps[|steps| - 1]) then 1 else 0
  }

  lemma RunStep(now: int, steps: seq<Step>)
    requires Run(now, steps).Some? && steps != []
    ensures var n := |steps| - 1;
            && Run(now, steps[..n]).Some? && Enabled(Run(now, steps[..n]).value, steps[n])
            && Run(now, steps).value == Do(Run(now, steps[..n]).value, steps[n])
  {
    hide Do, Enabled;
  }

  /**
   * The notification at step j of a run was heard: until Stop() has joined it stays heard, and the dispatcher takes at
   * most four more steps, whatever else happens.
   */
  lemma {:induction false} HeardRun(now: int, steps: seq<Step>, j: nat)
    requires j < |steps| && Run(now, steps).Some? && steps[j].StopNotify?
    requires forall k :: j < k < |steps| ==> !steps[k].StopJoin?
    requires Run(now, steps[..j]).Some? && !Run(now, steps[..j]).value.dispatcher.Deciding?
    ensures Heard(Run(now, steps).value)
    ensures DispatcherSteps(steps, j + 1) + StepsLeft(Run(now, steps).value.dispatcher) <= 4
    decreases |steps|
  {
    hide Do, Enabled, Run, Heard;
    var n := |steps| - 1;
    RunStep(now, steps);
    var before := Run(now, steps[..n]).value;
    RunKeeps(now, steps[..n]);
    if j == n {
      NotifyIsHeard(before);
    } else {
      assert steps[..n][..j] == steps[..j];
      HeardRun(now, steps[..n], j);
      HeardStays(before, steps[n]);
    }
  }

  /**
   * It was not heard: nothing but a schedule, a cancel, a timed-out wait or a spurious wake-up gets the dispatcher
   * going.
   */
  lemma {:induction false} UnheardRun(now: int, steps: seq<Step>, j: nat)
    requires j < |steps| && Run(now, steps).Some? && steps[j].StopNotify?
    requires forall k :: j < k < |steps| ==> !Wakes(steps[k])
    requires Run(now, steps[..j]).Some? && Run(now, steps[..j]).value.dispatcher.Deciding?
    ensures Unheard(Run(now, steps).value)
    decreases |steps|
  {
    hide Do, Enabled, Run, Unheard;
    var n := |steps| - 1;
    RunStep(now, steps);
    var before := Run(now, steps[..n]).value;
    RunKeeps(now, steps[..n]);
    if j == n {
      NotifyIsHeard(before);
    } else {
      assert steps[..n][..j] == steps[..j];
      UnheardRun(now, steps[..n], j);
      UnheardStays(before, steps[n]);
    }
  }

  /**
   * Exactly when a Stop() is heard. In every run, until it has joined and as long as nothing else wakes the
   * dispatcher: the dispatcher is on its way out if and only if the notification did not fall between its test of the
   * flag and its sleep; otherwise it is asleep or about to be.
   */
  lemma StopIsHeard(now: int, steps: seq<Step>, j: nat)
    requires j < |steps| && Run(now, steps).Some? && steps[j].StopNotify? && Run(now, steps[..j]).Some?
    requires forall k :: j < k < |steps| ==> !steps[k].StopJoin? && !Wakes(steps[k])
    ensures Heard(Run(now, steps).value) <==> !Run(now, steps[..j]).value.dispatcher.Deciding?
    ensures Unheard(Run(now, steps).value) <==> Run(now, steps[..j]).value.dispatcher.Deciding?
  {
    hide Run;
    if Run(now, steps[..j]).value.dispatcher.Deciding? {
      UnheardRun(now, steps, j);
    } else {
      HeardRun(now, steps, j);
    }
  }

  // ---------- and it happens ----------

  lemma RunOn(now: int, steps: seq<Step>, step: Step)
    requires Run(now, steps).Some? && Enabled(Run(now, steps).value, step)
    ensures Run(now, steps + [step]) == Some(Do(Run(now, steps).value, step))
  {
    hide Do, Enabled;
    assert (steps + [step])[..|steps|] == steps;
  }

  /** A run whose Stop() is not heard, with nothing scheduled that would wake the dispatcher again. */
  lemma StopCanGoUnheard(now: int)
    ensures var s := Run(now, [Start] + [DecideToWait(None)] + [StopFlag] + [StopNotify] + [Block]);
            s.Some? && Unheard(s.value) && s.value.dispatcher == Blocked(None) && s.value.tasks == {}
  {
    var s0 := Initial(now);
    var s1 := s0.(running := true, dispatcher := Top);
    var s2 := s1.(dispatcher := Deciding(None));
    var s3 := s2.(running := false, stop := Flagged);
    var s4 := s3.(stop := Joining);
    RunOn(now, [], Start);
    assert [] + [Start] == [Start];
    assert Do(s0, Start) == s1;
    assert Do(s1, DecideToWait(None)) == s2;
    assert Do(s2, StopFlag) == s3;
    assert Do(s3, StopNotify) == s4;
    assert Enabled(s4, Block) && Do(s4, Block) == s4.(dispatcher := Blocked(None));
    hide Run, Do;
    RunOn(now, [Start], DecideToWait(None));
    RunOn(now, [Start] + [DecideToWait(None)], StopFlag);
    RunOn(now, [Start] + [DecideToWait(None)] + [StopFlag], StopNotify);
    RunOn(now, [Start] + [DecideToWait(None)] + [StopFlag] + [StopNotify], Block);
  }
}
