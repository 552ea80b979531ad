/**
 * The timer of core/src/Scheduler.cpp as a machine: callers that schedule, cancel, start and stop, the dispatcher
 * thread, and one thread for each firing of a task. A step is one critical section, or one thing done outside of any.
 */
module Scheduler {
  import opened Outcome

  type Id = nat

  datatype Kind = Once | Periodic(interval: int) | Cron

  /** `first` is when a task was first due; `nextRun` moves on, `first` does not. */
  datatype Entry = Entry(name: string, kind: Kind, first: int, nextRun: int, cancelled: bool)

  datatype Slot = Slot(at: int, id: Id)

  /**
   * Where the dispatcher is: not running, at the head of its loop, about to block with the mutex held, blocked, or
   * with a task in hand that it has taken off the queue, counted, and started a thread for.
   */
  datatype Dispatcher =
    | Off
    | Top
    | Deciding(until: Option<int>)
    | Blocked(until: Option<int>)
    | Taken(id: Id)
    | Counted(id: Id)
    | Spawned(id: Id)

  datatype Progress = Started | Running | Finishing

  datatype Thread = Thread(id: Id, name: string, progress: Progress)

  /** Where a Stop() is; Clean and TimedOut are how the last one ended. */
  datatype Stopping = NoStop | Flagged | Joining | Waiting | Clean | TimedOut

  datatype State = State(
    now: int,
    running: bool,
    stop: Stopping,
    dispatcher: Dispatcher,
    entries: map<Id, Entry>,
    tasks: set<Id>,
    queue: multiset<Slot>,
    inFlight: map<string, int>,
    threads: map<nat, Thread>)

  datatype Step =
    | Tick(delta: nat)
    | Start
    | StopFlag
    | StopNotify
    | StopJoin
    | StopDone
    | StopTimesOut
    | Schedule(id: Id, name: string, kind: Kind, at: int)
    | Cancel(id: Id)
    | Exit
    | DecideToWait(until: Option<int>)
    | Block
    | TimeUp
    | Spurious
    | TakeCancelled(slot: Slot)
    | Take(slot: Slot)
    | CountIn
    | Spawn(thread: nat)
    | Settle(next: int)
    | Pass(thread: nat)
    | Skip(thread: nat)
    | Finish(thread: nat)
    | Done(thread: nat)

  // ---------- the next instant of a periodic task ----------

  /** The k-th instant of a task first due then. */
  function Nth(first: int, interval: int, k: int): int {
    first + k * interval
  }

  /** How many intervals on the next run is. */
  function Intervals(nextRun: int, interval: int, now: int): (k: int)
    requires interval > 0
    ensures k >= 1
  {
    if nextRun + interval > now then 1 else (now - nextRun) / interval + 1
  }

  function Advanced(nextRun: int, interval: int, now: int): int
    requires interval > 0
  {
    Nth(nextRun, interval, Intervals(nextRun, interval, now))
  }

  lemma NthNext(first: int, interval: int, k: int)
    ensures Nth(first, interval, k + 1) == Nth(first, interval, k) + interval
    ensures Nth(first, interval, 1) == first + interval && Nth(first, interval, 0) == first
  {
    assert (k + 1) * interval == k * interval + interval;
  }

  lemma {:induction false} NthOrder(first: int, interval: int, j: int, k: int)
    requires interval > 0 && j < k
    ensures Nth(first, interval, j) + interval <= Nth(first, interval, k)
    decreases k - j
  {
    hide Nth;
    NthNext(first, interval, k - 1);
    if j < k - 1 { NthOrder(first, interval, j, k - 1); }
  }

  lemma NthAgain(first: int, interval: int, j: int, k: int)
    ensures Nth(Nth(first, interval, j), interval, k) == Nth(first, interval, j + k)
  {
  }

  /** The next run is after now and after the last, and none of its instants in between is. */
  lemma AdvancedIsNext(nextRun: int, interval: int, now: int)
    requires interval > 0
    ensures Advanced(nextRun, interval, now) > now && Advanced(nextRun, interval, now) > nextRun
    ensures forall j :: j >= 1 && Nth(nextRun, interval, j) > now ==>
        Advanced(nextRun, interval, now) <= Nth(nextRun, interval, j)
  {
    var k := Intervals(nextRun, interval, now);
    NthOrder(nextRun, interval, 0, k);
    if k > 1 {
      var q := (now - nextRun) / interval;
      assert q * interval <= now - nextRun < q * interval + interval;
      assert Nth(nextRun, interval, k - 1) <= now;
    }
    forall j | j >= 1 && Nth(nextRun, interval, j) > now
      ensures Nth(nextRun, interval, k) <= Nth(nextRun, interval, j)
    {
      if j < k {
        if j < k - 1 { NthOrder(nextRun, interval, j, k - 1); }
      } else if j > k {
        NthOrder(nextRun, interval, k, j);
      }
    }
  }

  /** That is one interval on, or the only instant of its grid in the interval after now. */
  lemma AdvancedMeans(nextRun: int, interval: int, now: int)
    requires interval > 0
    ensures var next := Advanced(nextRun, interval, now);
            && next > now && next >= nextRun + interval && (next == nextRun + interval || next - interval <= now)
            && exists k :: next == nextRun + k * interval
  {
    var k := Intervals(nextRun, interval, now);
    AdvancedIsNext(nextRun, interval, now);
    NthNext(nextRun, interval, k - 1);
    assert Advanced(nextRun, interval, now) == nextRun + k * interval;
    if k > 1 {
      NthOrder(nextRun, interval, 1, k);
    }
  }

  /** The dispatcher's own loop comes to it. */
  method AdvancePeriodic(nextRun: int, interval: int, now: int) returns (next: int)
    requires interval > 0
    ensures next == Advanced(nextRun, interval, now)
    ensures next > now && next >= nextRun + interval && (next == nextRun + interval || next - interval <= now)
    ensures exists k :: next == nextRun + k * interval
  {
    hide Nth;
    next := nextRun + interval;
    ghost var k := 1;
    NthNext(nextRun, interval, 0);
    while next <= now
      invariant next == Nth(nextRun, interval, k) && k >= 1
      invariant k == 1 || next - interval <= now
      decreases now - next
    {
      NthNext(nextRun, interval, k);
      next := next + interval;
      k := k + 1;
    }
    AdvancedMeans(nextRun, interval, now);
    AdvancedIsNext(nextRun, interval, now);
    var j := Intervals(nextRun, interval, now);
    if j < k {
      NthOrder(nextRun, interval, j, k);
    } else if k < j {
      NthOrder(nextRun, interval, k, j);
    }
  }

  // ---------- the steps ----------

  function Hand(d: Dispatcher): Option<Id> {
    if d.Taken? || d.Counted? || d.Spawned? then Some(d.id) else None
  }

  /** At the head of the queue, and due. */
  predicate Due(s: State, slot: Slot) {
    && slot in s.queue && slot.at <= s.now && slot.id in s.entries
    && (forall other :: other in s.queue ==> slot.at <= other.at)
  }

  /** How long the dispatcher has nothing to do: for ever on an empty queue, else until its head is due. */
  ghost predicate NothingDue(s: State, until: Option<int>) {
    match until
    case None => s.queue == multiset{}
    case Some(t) =>
      && t > s.now && (exists slot :: slot in s.queue && slot.at == t)
      && (forall slot :: slot in s.queue ==> t <= slot.at)
  }

  /** The next run the dispatcher settles on. A periodic task without a positive interval keeps it in its loop. */
  predicate Next(e: Entry, now: int, next: int) {
    match e.kind
    case Once => true
    case Periodic(interval) => interval > 0 && next == Advanced(e.nextRun, interval, now)
    case Cron => next > now
  }

  ghost predicate Enabled(s: State, step: Step) {
    match step
    case Tick(_) => true
    // Start() is not called while a Stop() is under way.
    case Start => !s.running && (s.stop.NoStop? || s.stop.Clean? || s.stop.TimedOut?)
    case StopFlag => s.running
    case StopNotify => s.stop.Flagged?
    case StopJoin => s.stop.Joining? && s.dispatcher.Off?
    case StopDone => s.stop.Waiting? && s.inFlight == map[]
    case StopTimesOut => s.stop.Waiting?
    case Schedule(id, _, _, _) => id !in s.entries && !s.dispatcher.Deciding?
    case Cancel(id) => id in s.tasks && id in s.entries && !s.dispatcher.Deciding?
    case Exit => s.dispatcher.Top? && !s.running
    case DecideToWait(until) => s.dispatcher.Top? && s.running && NothingDue(s, until)
    case Block => s.dispatcher.Deciding?
    case TimeUp => s.dispatcher.Blocked? && s.dispatcher.until.Some? && s.dispatcher.until.value <= s.now
    case Spurious => s.dispatcher.Blocked?
    case TakeCancelled(slot) => s.dispatcher.Top? && s.running && Due(s, slot) && s.entries[slot.id].cancelled
    case Take(slot) => s.dispatcher.Top? && s.running && Due(s, slot) && !s.entries[slot.id].cancelled
    case CountIn => s.dispatcher.Taken? && s.dispatcher.id in s.entries
    case Spawn(thread) => s.dispatcher.Counted? && s.dispatcher.id in s.entries && thread !in s.threads
    case Settle(next) =>
      s.dispatcher.Spawned? && s.dispatcher.id in s.entries
      && (s.entries[s.dispatcher.id].cancelled || Next(s.entries[s.dispatcher.id], s.now, next))
    case Pass(thread) => thread in s.threads && s.threads[thread].progress.Started? && s.threads[thread].id in s.entries
                         && !s.entries[s.threads[thread].id].cancelled
    case Skip(thread) => thread in s.threads && s.threads[thread].progress.Started? && s.threads[thread].id in s.entries
                         && s.entries[s.threads[thread].id].cancelled
    case Finish(thread) => thread in s.threads && s.threads[thread].progress.Running?
    case Done(thread) => thread in s.threads && s.threads[thread].progress.Finishing?
  }

  /** The dispatcher puts back what will run again. */
  ghost predicate Requeues(s: State, step: Step) {
    step.Settle? && s.dispatcher.Spawned? && s.dispatcher.id in s.entries
    && !s.entries[s.dispatcher.id].cancelled && !s.entries[s.dispatcher.id].kind.Once?
  }

  ghost function EntriesAfter(s: State, step: Step): map<Id, Entry>
    requires Enabled(s, step)
  {
    match step
    case Schedule(id, name, kind, at) => s.entries[id := Entry(name, kind, at, at, false)]
    case Cancel(id) => s.entries[id := s.entries[id].(cancelled := true)]
    case Settle(next) =>
      if Requeues(s, step) then s.entries[s.dispatcher.id := s.entries[s.dispatcher.id].(nextRun := next)]
      else s.entries
    case _ => s.entries
  }

  ghost function TasksAfter(s: State, step: Step): set<Id>
    requires Enabled(s, step)
  {
    match step
    case Schedule(id, _, _, _) => s.tasks + {id}
    case Cancel(id) => s.tasks - {id}
    case Settle(_) =>
      var e := s.entries[s.dispatcher.id];
      if !e.cancelled && e.kind.Once? then s.tasks - {s.dispatcher.id} else s.tasks
    case _ => s.tasks
  }

  ghost function QueueAfter(s: State, step: Step): multiset<Slot>
    requires Enabled(s, step)
  {
    match step
    case Schedule(id, _, _, at) => s.queue + multiset{Slot(at, id)}
    case TakeCancelled(slot) => s.queue - multiset{slot}
    case Take(slot) => s.queue - multiset{slot}
    case Settle(next) => if Requeues(s, step) then s.queue + multiset{Slot(next, s.dispatcher.id)} else s.queue
    case _ => s.queue
  }

  /** Whoever is blocked goes back to the head of its loop when notified. */
  function Notified(d: Dispatcher): Dispatcher {
    if d.Blocked? then Top else d
  }

  ghost function DispatcherAfter(s: State, step: Step): Dispatcher
    requires Enabled(s, step)
  {
    match step
    case Start => Top
    case StopNotify => Notified(s.dispatcher)
    case Schedule(_, _, _, _) => Notified(s.dispatcher)
    case Cancel(_) => Notified(s.dispatcher)
    case Exit => Off
    case DecideToWait(until) => Deciding(until)
    case Block => Blocked(s.dispatcher.until)
    case TimeUp => Top
    case Spurious => Top
    case Take(slot) => Taken(slot.id)
    case CountIn => Counted(s.dispatcher.id)
    case Spawn(_) => Spawned(s.dispatcher.id)
    case Settle(_) => Top
    case _ => s.dispatcher
  }

  function Count(inFlight: map<string, int>, name: string): int {
    if name in inFlight then inFlight[name] else 0
  }

  ghost function InFlightAfter(s: State, step: Step): map<string, int>
    requires Enabled(s, step)
  {
    match step
    case CountIn =>
      var name := s.entries[s.dispatcher.id].name;
      s.inFlight[name := Count(s.inFlight, name) + 1]
    case Done(thread) =>
      var name := s.threads[thread].name;
      if name !in s.inFlight then s.inFlight
      else if s.inFlight[name] - 1 <= 0 then s.inFlight - {name}
      else s.inFlight[name := s.inFlight[name] - 1]
    case _ => s.inFlight
  }

  ghost function ThreadsAfter(s: State, step: Step): map<nat, Thread>
    requires Enabled(s, step)
  {
    match step
    case Spawn(thread) => s.threads[thread := Thread(s.dispatcher.id, s.entries[s.dispatcher.id].name, Started)]
    case Pass(thread) => s.threads[thread := s.threads[thread].(progress := Running)]
    case Skip(thread) => s.threads[thread := s.threads[thread].(progress := Finishing)]
    case Finish(thread) => s.threads[thread := s.threads[thread].(progress := Finishing)]
    case Done(thread) => s.threads - {thread}
    case _ => s.threads
  }

  function StopAfter(stop: Stopping, step: Step): Stopping {
    match step
    case Start => NoStop
    case StopFlag => Flagged
    case StopNotify => Joining
    case StopJoin => Waiting
    case StopDone => Clean
    case StopTimesOut => TimedOut
    case _ => stop
  }

  ghost function Do(s: State, step: Step): State
    requires Enabled(s, step)
  {
    State(if step.Tick? then s.now + step.delta else s.now,
          step.Start? || (s.running && !step.StopFlag?),
          StopAfter(s.stop, step),
          DispatcherAfter(s, step),
          EntriesAfter(s, step),
          TasksAfter(s, step),
          QueueAfter(s, step),
          InFlightAfter(s, step),
          ThreadsAfter(s, step))
  }

  function Initial(now: int): State {
    State(now, false, NoStop, Off, map[], {}, multiset{}, map[], map[])
  }

  ghost function Run(now: int, steps: seq<Step>): Option<State> {
    if steps == [] then Some(Initial(now))
    else
      match Run(now, steps[..|steps| - 1])
      case None => None
      case Some(s) => if Enabled(s, steps[|steps| - 1]) then Some(Do(s, steps[|steps| - 1])) else None
  }

  // ---------- the dispatcher, step by step ----------

  /** It takes the earliest of what is queued, once that is due, and only while it is running. */
  lemma TakeMeans(s: State, slot: Slot)
    ensures Enabled(s, Take(slot)) <==>
              && s.dispatcher.Top? && s.running && slot in s.queue && slot.at <= s.now
              && (forall other :: other in s.queue ==> slot.at <= other.at)
              && slot.id in s.entries && !s.entries[slot.id].cancelled
    ensures Enabled(s, Take(slot)) ==>
              Do(s, Take(slot)).queue == s.queue - multiset{slot} && Do(s, Take(slot)).dispatcher == Taken(slot.id)
    ensures Enabled(s, TakeCancelled(slot)) ==>
              && s.entries[slot.id].cancelled && Do(s, TakeCancelled(slot)).dispatcher == Top
              && Do(s, TakeCancelled(slot)).queue == s.queue - multiset{slot}
  {
  }

  /** It waits for ever on an empty queue, and else until the earliest is due. */
  lemma WaitMeans(s: State, until: Option<int>)
    ensures Enabled(s, DecideToWait(until)) ==>
              && s.running
              && (until.None? ==> s.queue == multiset{})
              && (until.Some? ==> until.value > s.now && forall slot :: slot in s.queue ==> until.value <= slot.at)
    ensures Enabled(s, DecideToWait(until)) ==> Do(s, DecideToWait(until)).dispatcher == Deciding(until)
    ensures Enabled(s, Block) ==> Do(s, Block).dispatcher == Blocked(s.dispatcher.until)
    ensures Enabled(s, TimeUp) ==> s.dispatcher.until.Some? && s.dispatcher.until.value <= s.now
  {
  }

  /** Scheduling, cancelling and stopping wake it if it is asleep. */
  lemma WakeMeans(s: State, id: Id, name: string, kind: Kind, at: int)
    ensures Enabled(s, Schedule(id, name, kind, at)) ==>
              var s' := Do(s, Schedule(id, name, kind, at));
              && s'.queue == s.queue + multiset{Slot(at, id)} && s'.tasks == s.tasks + {id}
              && s'.entries == s.entries[id := Entry(name, kind, at, at, false)]
              && (s.dispatcher.Blocked? ==> s'.dispatcher == Top)
    ensures Enabled(s, Cancel(id)) ==>
              var s' := Do(s, Cancel(id));
              && s'.tasks == s.tasks - {id} && s'.queue == s.queue && s'.entries[id].cancelled
              && (s.dispatcher.Blocked? ==> s'.dispatcher == Top)
    ensures Enabled(s, StopNotify) && s.dispatcher.Blocked? ==> Do(s, StopNotify).dispatcher == Top
  {
  }

  /** Stopping: the flag, the wake-up, the dispatcher gone, and nothing in flight any more unless it takes too long. */
  lemma StopMeans(s: State)
    ensures Enabled(s, Exit) <==> s.dispatcher.Top? && !s.running
    ensures Enabled(s, Exit) ==> Do(s, Exit).dispatcher == Off
    ensures Enabled(s, StopFlag) ==> !Do(s, StopFlag).running && Do(s, StopFlag).dispatcher == s.dispatcher
    ensures Enabled(s, StopJoin) ==> s.stop.Joining? && s.dispatcher == Off
    ensures Enabled(s, StopDone) <==> s.stop == Waiting && s.inFlight == map[]
    ensures Enabled(s, Start) ==> !s.running && Do(s, Start).running && Do(s, Start).dispatcher == Top
  {
  }

  /** What a task is put back for: a positive interval's next instant behind now, or any later one by its expression. */
  lemma NextMeans(s: State, next: int)
    requires s.dispatcher.Spawned? && s.dispatcher.id in s.entries && !s.entries[s.dispatcher.id].cancelled
    ensures var e := s.entries[s.dispatcher.id];
            && (e.kind.Once? ==> Enabled(s, Settle(next)))
            && (e.kind.Cron? ==> (Enabled(s, Settle(next)) <==> next > s.now))
            && (e.kind.Periodic? && Enabled(s, Settle(next)) ==>
                  var i := e.kind.interval;
                  && i > 0 && next > s.now && next >= e.nextRun + i && (next == e.nextRun + i || next - i <= s.now)
                  && exists k :: next == e.nextRun + k * i)
  {
    hide Advanced;
    var e := s.entries[s.dispatcher.id];
    if e.kind.Periodic? && e.kind.interval > 0 {
      AdvancedMeans(e.nextRun, e.kind.interval, s.now);
    }
  }

  /** A firing runs unless it was cancelled meanwhile; afterwards a task that runs once is gone, another is put back. */
  lemma FireMeans(s: State, thread: nat, next: int)
    ensures Enabled(s, Pass(thread)) <==>
              && thread in s.threads && s.threads[thread].progress.Started? && s.threads[thread].id in s.entries
              && !s.entries[s.threads[thread].id].cancelled
    ensures Enabled(s, Settle(next)) ==>
              var id, s' := s.dispatcher.id, Do(s, Settle(next));
              var e := s.entries[id];
              && s'.dispatcher == Top
              && (e.cancelled ==> s'.queue == s.queue && s'.tasks == s.tasks)
              && (!e.cancelled && e.kind.Once? ==> s'.queue == s.queue && s'.tasks == s.tasks - {id})
              && (!e.cancelled && !e.kind.Once? ==>
                    && s'.queue == s.queue + multiset{Slot(next, id)} && s'.entries[id].nextRun == next
                    && s'.tasks == s.tasks)
  {
  }
}
