/** What every run of the timer keeps: one place per live task, cancelled means never again, stopped means quiet. */
module SchedulerSafety {
  import opened Outcome
  import opened Scheduler

  // ---------- one place per live task ----------

  /** A queue entry is where its task is due next, is there once, and its task is not in hand as well. */
  ghost predicate SlotOk(hand: Option<Id>, entries: map<Id, Entry>, tasks: set<Id>, queue: multiset<Slot>, slot: Slot) {
    && slot.id in entries && slot.at == entries[slot.id].nextRun && queue[slot] == 1
    && hand != Some(slot.id) && (entries[slot.id].cancelled || slot.id in tasks)
  }

  /** A live task is not cancelled and is on the queue or in hand. */
  ghost predicate TaskOk(hand: Option<Id>, entries: map<Id, Entry>, queue: multiset<Slot>, id: Id) {
    && id in entries && !entries[id].cancelled
    && (hand == Some(id) || Slot(entries[id].nextRun, id) in queue)
  }

  /** What is in hand was due, and is live unless it has been cancelled meanwhile. */
  ghost predicate HandOk(now: int, hand: Option<Id>, entries: map<Id, Entry>, tasks: set<Id>) {
    hand.Some? ==>
      && hand.value in entries && entries[hand.value].nextRun <= now
      && (entries[hand.value].cancelled || hand.value in tasks)
  }

  ghost predicate Places(now: int, hand: Option<Id>, entries: map<Id, Entry>, tasks: set<Id>, queue: multiset<Slot>) {
    && HandOk(now, hand, entries, tasks)
    && (forall slot :: slot in queue ==> SlotOk(hand, entries, tasks, queue, slot))
    && (forall id :: id in tasks ==> TaskOk(hand, entries, queue, id))
  }

  ghost predicate PlacesIn(s: State) {
    Places(s.now, Hand(s.dispatcher), s.entries, s.tasks, s.queue)
  }

  lemma SchedulePlaces(now: int, hand: Option<Id>, entries: map<Id, Entry>, tasks: set<Id>, queue: multiset<Slot>,
                       id: Id, e: Entry)
    requires Places(now, hand, entries, tasks, queue) && id !in entries && !e.cancelled
    ensures Places(now, hand, entries[id := e], tasks + {id}, queue + multiset{Slot(e.nextRun, id)})
  {
  }

  lemma CancelPlaces(now: int, hand: Option<Id>, entries: map<Id, Entry>, tasks: set<Id>, queue: multiset<Slot>, id: Id)
    requires Places(now, hand, entries, tasks, queue) && id in tasks && id in entries
    ensures Places(now, hand, entries[id := entries[id].(cancelled := true)], tasks - {id}, queue)
  {
  }

  lemma TakePlaces(now: int, entries: map<Id, Entry>, tasks: set<Id>, queue: multiset<Slot>, slot: Slot)
    requires Places(now, None, entries, tasks, queue) && slot in queue && slot.at <= now
    ensures Places(now, Some(slot.id), entries, tasks, queue - multiset{slot})
    ensures entries[slot.id].cancelled ==> Places(now, None, entries, tasks, queue - multiset{slot})
  {
  }

  lemma PutBackPlaces(now: int, entries: map<Id, Entry>, tasks: set<Id>, queue: multiset<Slot>, id: Id, next: int)
    requires Places(now, Some(id), entries, tasks, queue) && !entries[id].cancelled
    ensures Places(now, None, entries[id := entries[id].(nextRun := next)], tasks, queue + multiset{Slot(next, id)})
  {
  }

  lemma LetGoPlaces(now: int, entries: map<Id, Entry>, tasks: set<Id>, queue: multiset<Slot>, id: Id)
    requires Places(now, Some(id), entries, tasks, queue)
    ensures entries[id].cancelled ==> Places(now, None, entries, tasks, queue)
    ensures Places(now, None, entries, tasks - {id}, queue)
  {
  }

  /** Every other step leaves tasks, queue and hand as they are. */
  lemma OtherStepsPlaceNothing(s: State, step: Step)
    requires Enabled(s, step) && (step.Start? ==> s.dispatcher.Off?)
    requires !step.Schedule? && !step.Cancel? && !step.TakeCancelled? && !step.Take? && !step.Settle?
    ensures EntriesAfter(s, step) == s.entries && TasksAfter(s, step) == s.tasks && QueueAfter(s, step) == s.queue
    ensures Hand(DispatcherAfter(s, step)) == Hand(s.dispatcher)
  {
    hide NothingDue, Due, Next;
  }

  lemma PlacesKept(s: State, step: Step)
    requires PlacesIn(s) && Enabled(s, step) && (step.Start? ==> s.dispatcher.Off?)
    ensures PlacesIn(Do(s, step))
  {
    hide Places, InFlightAfter, ThreadsAfter, StopAfter, Next, NothingDue;
    if step.Schedule? {
      SchedulePlaces(s.now, Hand(s.dispatcher), s.entries, s.tasks, s.queue, step.id,
                     Entry(step.name, step.kind, step.at, step.at, false));
    } else if step.Cancel? {
      CancelPlaces(s.now, Hand(s.dispatcher), s.entries, s.tasks, s.queue, step.id);
    } else if step.Take? || step.TakeCancelled? {
      TakePlaces(s.now, s.entries, s.tasks, s.queue, step.slot);
    } else if step.Settle? {
      SettlePlaces(s, step);
    } else {
      hide EntriesAfter, TasksAfter, QueueAfter, DispatcherAfter;
      OtherStepsPlaceNothing(s, step);
      LaterPlaces(s.now, Do(s, step).now, Hand(s.dispatcher), s.entries, s.tasks, s.queue);
    }
  }

  lemma LaterPlaces(now: int, later: int, hand: Option<Id>, entries: map<Id, Entry>, tasks: set<Id>,
                    queue: multiset<Slot>)
    requires Places(now, hand, entries, tasks, queue) && now <= later
    ensures Places(later, hand, entries, tasks, queue)
  {
  }

  lemma SettlePlaces(s: State, step: Step)
    requires PlacesIn(s) && Enabled(s, step) && step.Settle?
    ensures PlacesIn(Do(s, step))
  {
    hide Places, InFlightAfter, ThreadsAfter, StopAfter, Next;
    var id := s.dispatcher.id;
    if Requeues(s, step) {
      PutBackPlaces(s.now, s.entries, s.tasks, s.queue, id, step.next);
    } else {
      LetGoPlaces(s.now, s.entries, s.tasks, s.queue, id);
    }
  }

  // ---------- every dispatched firing is counted ----------

  function Named(threads: map<nat, Thread>, name: string): set<nat> {
    set th | th in threads && threads[th].name == name
  }

  /** The firing that is counted and whose thread is not there yet. */
  function Coming(d: Dispatcher, entries: map<Id, Entry>, name: string): int {
    if d.Counted? && d.id in entries && entries[d.id].name == name then 1 else 0
  }

  ghost predicate Counts(d: Dispatcher, entries: map<Id, Entry>, inFlight: map<string, int>,
                         threads: map<nat, Thread>) {
    && (forall name :: Count(inFlight, name) == |Named(threads, name)| + Coming(d, entries, name))
    && (forall name :: name in inFlight ==> inFlight[name] > 0)
  }

  lemma NamedMore(threads: map<nat, Thread>, th: nat, thread: Thread, name: string)
    requires th !in threads
    ensures |Named(threads[th := thread], name)| == |Named(threads, name)| + if thread.name == name then 1 else 0
  {
    assert Named(threads[th := thread], name) == Named(threads, name) + if thread.name == name then {th} else {};
  }

  lemma NamedLess(threads: map<nat, Thread>, th: nat, name: string)
    requires th in threads
    ensures |Named(threads - {th}, name)| == |Named(threads, name)| - if threads[th].name == name then 1 else 0
  {
    assert Named(threads - {th}, name) == Named(threads, name) - if threads[th].name == name then {th} else {};
  }

  lemma NamedSame(threads: map<nat, Thread>, th: nat, progress: Progress, name: string)
    requires th in threads
    ensures Named(threads[th := threads[th].(progress := progress)], name) == Named(threads, name)
  {
  }

  lemma ThreadsKept(s: State, step: Step, name: string)
    requires Enabled(s, step) && HandOk(s.now, Hand(s.dispatcher), s.entries, s.tasks)
    ensures |Named(ThreadsAfter(s, step), name)| == |Named(s.threads, name)|
              + (if step.Spawn? then Coming(s.dispatcher, s.entries, name) else 0)
              - (if step.Done? && s.threads[step.thread].name == name then 1 else 0)
  {
    hide Named, Due, NothingDue, Next;
    match step
    case Spawn(thread) =>
      NamedMore(s.threads, thread, Thread(s.dispatcher.id, s.entries[s.dispatcher.id].name, Started), name);
    case Pass(thread) => NamedSame(s.threads, thread, Running, name);
    case Skip(thread) => NamedSame(s.threads, thread, Finishing, name);
    case Finish(thread) => NamedSame(s.threads, thread, Finishing, name);
    case Done(thread) => NamedLess(s.threads, thread, name);
    case _ =>
  }

  /** Entries keep their names. */
  lemma NamesKept(s: State, step: Step, id: Id)
    requires Enabled(s, step) && id in s.entries
    ensures id in EntriesAfter(s, step) && EntriesAfter(s, step)[id].name == s.entries[id].name
  {
    hide Due, NothingDue, Next;
  }

  lemma ComingKept(s: State, step: Step, name: string)
    requires Enabled(s, step) && (step.Start? ==> s.dispatcher.Off?)
    requires HandOk(s.now, Hand(s.dispatcher), s.entries, s.tasks)
    ensures Coming(DispatcherAfter(s, step), EntriesAfter(s, step), name) ==
            if step.Spawn? then 0
            else
              Coming(s.dispatcher, s.entries, name)
              + if step.CountIn? && s.entries[s.dispatcher.id].name == name then 1 else 0
  {
    hide EntriesAfter, Due, NothingDue, Next;
    if Hand(s.dispatcher).Some? { NamesKept(s, step, Hand(s.dispatcher).value); }
  }

  lemma CountsKept(s: State, step: Step)
    requires Counts(s.dispatcher, s.entries, s.inFlight, s.threads) && Enabled(s, step)
    requires HandOk(s.now, Hand(s.dispatcher), s.entries, s.tasks) && (step.Start? ==> s.dispatcher.Off?)
    ensures Counts(DispatcherAfter(s, step), EntriesAfter(s, step), InFlightAfter(s, step), ThreadsAfter(s, step))
  {
    hide Named, Coming, EntriesAfter, DispatcherAfter, ThreadsAfter, Due, NothingDue, Next;
    forall name
      ensures Count(InFlightAfter(s, step), name)
           == |Named(ThreadsAfter(s, step), name)| + Coming(DispatcherAfter(s, step), EntriesAfter(s, step), name)
    {
      ThreadsKept(s, step, name);
      ComingKept(s, step, name);
      if step.Done? { ThreadIsNamed(s.threads, step.thread); ComingIsNotNegative(s.dispatcher, s.entries, name); }
    }
  }

  lemma ThreadIsNamed(threads: map<nat, Thread>, th: nat)
    requires th in threads
    ensures |Named(threads, threads[th].name)| > 0
  {
    assert th in Named(threads, threads[th].name);
  }

  lemma ComingIsNotNegative(d: Dispatcher, entries: map<Id, Entry>, name: string)
    ensures Coming(d, entries, name) >= 0
  {
  }

  // ---------- stopping ----------

  /** A Stop() past its join has no dispatcher, and one that did not time out has no threads. */
  ghost predicate StopOk(s: State) {
    && (s.running ==> s.stop.NoStop?)
    && (s.stop.NoStop? && !s.running ==> s.dispatcher.Off?)
    && (s.stop.Waiting? || s.stop.Clean? || s.stop.TimedOut? ==> s.dispatcher.Off?)
    && (s.stop.Clean? ==> s.threads == map[])
  }

  lemma EmptyMeansNone(d: Dispatcher, entries: map<Id, Entry>, threads: map<nat, Thread>)
    requires Counts(d, entries, map[], threads)
    ensures threads == map[]
  {
    if th :| th in threads {
      ThreadIsNamed(threads, th);
      ComingIsNotNegative(d, entries, threads[th].name);
    }
  }

  lemma StopKept(s: State, step: Step)
    requires StopOk(s) && Enabled(s, step) && Counts(s.dispatcher, s.entries, s.inFlight, s.threads)
    ensures StopOk(Do(s, step)) && (step.Start? ==> s.dispatcher.Off?)
  {
    hide EntriesAfter, TasksAfter, QueueAfter, InFlightAfter, Counts, Due, NothingDue, Next;
    if step.StopDone? { EmptyMeansNone(s.dispatcher, s.entries, s.threads); }
  }

  // ---------- periodic tasks keep step ----------

  ghost predicate OnGrid(e: Entry) {
    e.kind.Periodic? && e.kind.interval > 0 ==> exists k :: k >= 0 && Nth(e.first, e.kind.interval, k) == e.nextRun
  }

  lemma GridKept(s: State, step: Step, id: Id)
    requires Enabled(s, step) && id in EntriesAfter(s, step)
    requires forall other :: other in s.entries ==> OnGrid(s.entries[other])
    ensures OnGrid(EntriesAfter(s, step)[id])
  {
    hide Due, NothingDue;
    if step.Schedule? && step.id == id && step.kind.Periodic? {
      assert Nth(step.at, step.kind.interval, 0) == step.at;
    } else if Requeues(s, step) && s.dispatcher.id == id && s.entries[id].kind.Periodic? {
      var e := s.entries[id];
      var k :| k >= 0 && Nth(e.first, e.kind.interval, k) == e.nextRun;
      NthAgain(e.first, e.kind.interval, k, Intervals(e.nextRun, e.kind.interval, s.now));
    }
  }

  // ---------- whole runs ----------

  ghost predicate Inv(s: State) {
    && PlacesIn(s) && Counts(s.dispatcher, s.entries, s.inFlight, s.threads) && StopOk(s)
    && forall id :: id in s.entries ==> OnGrid(s.entries[id])
  }

  lemma StepKeeps(s: State, step: Step)
    requires Inv(s) && Enabled(s, step)
    ensures Inv(Do(s, step))
  {
    hide Counts, StopOk, OnGrid, HandOk, Enabled, SlotOk, TaskOk;
    StopKept(s, step);
    PlacesKept(s, step);
    CountsKept(s, step);
    hide EntriesAfter, DispatcherAfter, InFlightAfter, ThreadsAfter, TasksAfter, QueueAfter, PlacesIn;
    forall id | id in EntriesAfter(s, step) ensures OnGrid(EntriesAfter(s, step)[id]) { GridKept(s, step, id); }
  }

  lemma {:induction false} RunKeeps(now: int, steps: seq<Step>)
    requires Run(now, steps).Some?
    ensures Inv(Run(now, steps).value)
  {
    if steps == [] {
      assert forall name :: Named(map[], name) == {};
    } else {
      hide Inv, Do, Enabled;
      RunKeeps(now, steps[..|steps| - 1]);
      StepKeeps(Run(now, steps[..|steps| - 1]).value, steps[|steps| - 1]);
    }
  }

  /** Each live task has exactly one place: one queue entry, at the time it is due, or the dispatcher's hand. */
  lemma LiveTaskHasOnePlace(now: int, steps: seq<Step>, id: Id)
    requires Run(now, steps).Some? && id in Run(now, steps).value.tasks
    ensures var s := Run(now, steps).value;
            && id in s.entries && !s.entries[id].cancelled
            && s.queue[Slot(s.entries[id].nextRun, id)] == (if Hand(s.dispatcher) == Some(id) then 0 else 1)
            && (forall slot :: slot in s.queue && slot.id == id ==> slot.at == s.entries[id].nextRun)
  {
    RunKeeps(now, steps);
    hide Run, Counts, StopOk, OnGrid;
    var s := Run(now, steps).value;
    var slot := Slot(s.entries[id].nextRun, id);
    assert TaskOk(Hand(s.dispatcher), s.entries, s.queue, id);
    assert slot in s.queue ==> SlotOk(Hand(s.dispatcher), s.entries, s.tasks, s.queue, slot);
  }

  /** What Stop() waits for is exactly the firings there are, by name. */
  lemma InFlightIsExact(now: int, steps: seq<Step>, name: string)
    requires Run(now, steps).Some?
    ensures var s := Run(now, steps).value;
            Count(s.inFlight, name) == |Named(s.threads, name)| + Coming(s.dispatcher, s.entries, name)
  {
    RunKeeps(now, steps);
    hide Run, Places, StopOk, OnGrid;
  }

  /**
   * A Stop() that does not time out leaves nothing running, and nothing starts until the next Start(): of the
   * steps of dispatcher and threads none can be taken.
   */
  lemma StoppedIsQuiet(now: int, steps: seq<Step>, step: Step)
    requires Run(now, steps).Some? && Run(now, steps).value.stop.Clean?
    ensures Run(now, steps).value.threads == map[] && Run(now, steps).value.dispatcher.Off?
    ensures Enabled(Run(now, steps).value, step) ==>
              step.Tick? || step.Start? || step.Schedule? || step.Cancel?
    ensures Enabled(Run(now, steps).value, step) && !step.Start? ==> Do(Run(now, steps).value, step).stop.Clean?
  {
    RunKeeps(now, steps);
    hide Run, Do, Enabled, Inv;
    CleanIsQuiet(Run(now, steps).value, step);
  }

  lemma CleanIsQuiet(s: State, step: Step)
    requires Inv(s) && s.stop.Clean?
    ensures s.threads == map[] && s.dispatcher.Off?
    ensures Enabled(s, step) ==> step.Tick? || step.Start? || step.Schedule? || step.Cancel?
    ensures Enabled(s, step) && !step.Start? ==> Do(s, step).stop.Clean?
  {
    hide Places, Counts, OnGrid, Due, NothingDue, Next;
    hide EntriesAfter, TasksAfter, QueueAfter, InFlightAfter, ThreadsAfter, DispatcherAfter;
  }

  /** A cancelled entry stays cancelled. */
  lemma CancelledStays(s: State, step: Step, id: Id)
    requires Enabled(s, step) && id in s.entries && s.entries[id].cancelled
    ensures id in Do(s, step).entries && Do(s, step).entries[id].cancelled
  {
    hide TasksAfter, QueueAfter, DispatcherAfter, InFlightAfter, ThreadsAfter, Due, NothingDue, Next;
  }

  lemma {:induction false} CancelledFrom(now: int, steps: seq<Step>, j: nat)
    requires j < |steps| && Run(now, steps).Some? && steps[j].Cancel?
    ensures steps[j].id in Run(now, steps).value.entries && Run(now, steps).value.entries[steps[j].id].cancelled
  {
    var n := |steps| - 1;
    var before := Run(now, steps[..n]).value;
    if j == n {
      hide Run, TasksAfter, QueueAfter, DispatcherAfter, InFlightAfter, ThreadsAfter;
    } else {
      hide Do, Enabled;
      CancelledFrom(now, steps[..n], j);
      CancelledStays(before, steps[n], steps[j].id);
    }
  }

  /** Once Cancel() has succeeded no firing of it gets past its cancelled check, nor is one dispatched. */
  lemma CancelledNeverRuns(now: int, steps: seq<Step>, j: nat, step: Step)
    requires j < |steps| && Run(now, steps).Some? && steps[j].Cancel? && Enabled(Run(now, steps).value, step)
    ensures step.Pass? ==> Run(now, steps).value.threads[step.thread].id != steps[j].id
    ensures step.Take? ==> step.slot.id != steps[j].id
    ensures steps[j].id !in Run(now, steps).value.tasks
  {
    CancelledFrom(now, steps, j);
    RunKeeps(now, steps);
    hide Run, Enabled, Inv;
    CancelledIsOut(Run(now, steps).value, steps[j].id, step);
  }

  lemma CancelledIsOut(s: State, id: Id, step: Step)
    requires Inv(s) && id in s.entries && s.entries[id].cancelled && Enabled(s, step)
    ensures step.Pass? ==> s.threads[step.thread].id != id
    ensures step.Take? ==> step.slot.id != id
    ensures id !in s.tasks
  {
    hide Counts, StopOk, OnGrid, SlotOk, HandOk, NothingDue, Next;
    assert id in s.tasks ==> TaskOk(Hand(s.dispatcher), s.entries, s.queue, id);
  }

  /** A periodic task is put back at the least of its instants after now, counting from the first. */
  lemma PeriodicRunsNext(now: int, steps: seq<Step>, next: int)
    requires Run(now, steps).Some? && Enabled(Run(now, steps).value, Settle(next))
    requires Requeues(Run(now, steps).value, Settle(next))
    requires Run(now, steps).value.entries[Run(now, steps).value.dispatcher.id].kind.Periodic?
    ensures var s := Run(now, steps).value;
            IsNextOf(s.entries[s.dispatcher.id], s.now, next)
  {
    RunKeeps(now, steps);
    hide Run, Enabled, Inv;
    PutBackIsNext(Run(now, steps).value, next);
  }

  /** The first instant after now of a periodic task. */
  ghost predicate IsNextOf(e: Entry, now: int, next: int)
    requires e.kind.Periodic?
  {
    && next > now && (exists k :: k >= 0 && Nth(e.first, e.kind.interval, k) == next)
    && (forall k :: Nth(e.first, e.kind.interval, k) > now ==> next <= Nth(e.first, e.kind.interval, k))
  }

  lemma PutBackIsNext(s: State, next: int)
    requires Inv(s) && Enabled(s, Settle(next)) && Requeues(s, Settle(next))
    requires s.entries[s.dispatcher.id].kind.Periodic?
    ensures IsNextOf(s.entries[s.dispatcher.id], s.now, next)
  {
    hide Counts, StopOk, SlotOk, TaskOk, Nth, Intervals, NothingDue, Due;
    var e := s.entries[s.dispatcher.id];
    assert OnGrid(e);
    var i :| i >= 0 && Nth(e.first, e.kind.interval, i) == e.nextRun;
    NextOnGrid(e.first, e.kind.interval, i, s.now);
  }

  lemma NextOnGrid(first: int, interval: int, i: int, now: int)
    requires interval > 0 && i >= 0 && Nth(first, interval, i) <= now
    ensures var next := Advanced(Nth(first, interval, i), interval, now);
            next > now && (exists k :: k >= 0 && Nth(first, interval, k) == next)
            && forall k :: Nth(first, interval, k) > now ==> next <= Nth(first, interval, k)
  {
    hide Nth;
    var last := Nth(first, interval, i);
    AdvancedIsNext(last, interval, now);
    NthAgain(first, interval, i, Intervals(last, interval, now));
    forall k | Nth(first, interval, k) > now ensures Advanced(last, interval, now) <= Nth(first, interval, k) {
      NthAgain(first, interval, i, k - i);
      if k < i { NthOrder(first, interval, k, i); }
    }
  }
}
