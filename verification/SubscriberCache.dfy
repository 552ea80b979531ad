/**
 * The subscriber cache of database/src/EventBus.cpp and its generation counter: any number of lookups, subscription
 * changes in this process and in others, one step for each time the lock is held and each database call. The
 * subscriptions of an event type are told apart by how many changes they have seen; `writes` keeps when each came.
 */
module SubscriberCache {
  import opened Outcome

  type EventType = string

  datatype Entry = Entry(refreshedAt: int, version: nat)

  datatype Phase = Begun | Missed(generation: nat) | Fetched(generation: nat, version: nat)

  /** `now` is the clock read on entry, `owed` what was settled when the cache was asked. */
  datatype Lookup = Lookup(eventType: EventType, now: int, phase: Phase, owed: nat)

  /** A change in this process, written and not yet invalidated; None is an invalidation of everything. */
  datatype Change = Change(types: Versions, scope: Option<EventType>)

  datatype Answer = Answer(eventType: EventType, now: int, owed: nat, version: nat)

  datatype State = State(
    clock: int,
    ttl: nat,
    writes: Writes,
    cache: map<EventType, Entry>,
    generation: nat,
    lookups: map<nat, Lookup>,
    changes: map<nat, Change>,
    // The version of the last change of each type that this process has both written and invalidated.
    settled: Versions,
    answers: set<Answer>)

  datatype Step =
    | Tick(delta: nat)
    | Elsewhere(eventType: EventType)
    | Write(writer: nat, types: set<EventType>, scope: Option<EventType>)
    | Invalidate(writer: nat)
    | Begin(thread: nat, eventType: EventType)
    | Ask(thread: nat)
    | Fetch(thread: nat)
    | FetchFails(thread: nat)
    | Store(thread: nat)

  type Writes = map<EventType, seq<int>>
  type Versions = map<EventType, nat>

  function Version(writes: Writes, t: EventType): nat {
    if t in writes then |writes[t]| else 0
  }

  function Settled(settled: Versions, t: EventType): nat {
    if t in settled then settled[t] else 0
  }

  function Written(writes: Writes, types: set<EventType>, clock: int): Writes {
    map t | t in writes.Keys + types ::
      (if t in writes then writes[t] else []) + (if t in types then [clock] else [])
  }

  function Max(a: nat, b: nat): nat { if a < b then b else a }

  predicate Enabled(s: State, step: Step) {
    match step
    case Tick(_) => true
    case Elsewhere(_) => true
    case Write(writer, types, scope) => writer !in s.changes && (scope.Some? ==> types == {scope.value})
    case Invalidate(writer) => writer in s.changes
    case Begin(thread, _) => thread !in s.lookups
    case Ask(thread) => thread in s.lookups && s.lookups[thread].phase.Begun?
    case Fetch(thread) => thread in s.lookups && s.lookups[thread].phase.Missed?
    case FetchFails(thread) => thread in s.lookups && s.lookups[thread].phase.Missed?
    case Store(thread) => thread in s.lookups && s.lookups[thread].phase.Fetched?
  }

  predicate Hit(s: State, l: Lookup) {
    l.eventType in s.cache && l.now - s.cache[l.eventType].refreshedAt < s.ttl
  }

  function DoAsk(s: State, thread: nat): State
    requires Enabled(s, Ask(thread))
  {
    var l := s.lookups[thread];
    var owed := Settled(s.settled, l.eventType);
    if Hit(s, l) then
      s.(lookups := s.lookups - {thread},
         answers := s.answers + {Answer(l.eventType, l.now, owed, s.cache[l.eventType].version)})
    else
      s.(lookups := s.lookups[thread := l.(phase := Missed(s.generation), owed := owed)])
  }

  function DoStore(s: State, thread: nat): State
    requires Enabled(s, Store(thread))
  {
    var l := s.lookups[thread];
    var answer := Answer(l.eventType, l.now, l.owed, l.phase.version);
    var s' := s.(lookups := s.lookups - {thread}, answers := s.answers + {answer});
    if s.ttl > 0 && l.phase.generation == s.generation
    then s'.(cache := s.cache[l.eventType := Entry(l.now, l.phase.version)]) else s'
  }

  function DoInvalidate(s: State, writer: nat): State
    requires Enabled(s, Invalidate(writer))
  {
    var c := s.changes[writer];
    s.(cache := if c.scope.None? then map[] else s.cache - {c.scope.value},
       generation := s.generation + 1,
       changes := s.changes - {writer},
       settled := map t | t in s.settled.Keys + c.types.Keys ::
                    Max(Settled(s.settled, t), if t in c.types then c.types[t] else 0))
  }

  function Do(s: State, step: Step): State
    requires Enabled(s, step)
  {
    match step
    case Tick(delta) => s.(clock := s.clock + delta)
    case Elsewhere(t) => s.(writes := Written(s.writes, {t}, s.clock))
    case Write(writer, types, scope) =>
      s.(writes := Written(s.writes, types, s.clock),
         changes := s.changes[writer := Change(map t | t in types :: Version(s.writes, t) + 1, scope)])
    case Invalidate(writer) => DoInvalidate(s, writer)
    case Begin(thread, t) => s.(lookups := s.lookups[thread := Lookup(t, s.clock, Begun, 0)])
    case Ask(thread) => DoAsk(s, thread)
    case Fetch(thread) =>
      var l := s.lookups[thread];
      s.(lookups := s.lookups[thread := l.(phase := Fetched(l.phase.generation, Version(s.writes, l.eventType)))])
    case FetchFails(thread) => s.(lookups := s.lookups - {thread})
    case Store(thread) => DoStore(s, thread)
  }

  function Initial(clock: int, ttl: nat): State {
    State(clock, ttl, map[], map[], 0, map[], map[], map[], {})
  }

  function Run(clock: int, ttl: nat, steps: seq<Step>): Option<State> {
    if steps == [] then Some(Initial(clock, ttl))
    else
      var n := |steps| - 1;
      match Run(clock, ttl, steps[..n])
      case None => None
      case Some(s) => if Enabled(s, steps[n]) then Some(Do(s, steps[n])) else None
  }

  // ---------- the invariant ----------

  /** A list of this version was current at that instant or later: every change it misses came no earlier. */
  ghost predicate CurrentAt(writes: Writes, t: EventType, version: nat, instant: int) {
    t in writes ==> forall k :: version <= k < |writes[t]| ==> instant <= writes[t][k]
  }

  ghost predicate WritesOk(clock: int, writes: Writes, settled: Versions) {
    && (forall t, k :: t in writes && 0 <= k < |writes[t]| ==> writes[t][k] <= clock)
    && (forall t :: Settled(settled, t) <= Version(writes, t))
  }

  ghost predicate ChangeOk(writes: Writes, c: Change) {
    && (forall t :: t in c.types ==> c.types[t] <= Version(writes, t))
    && (c.scope.Some? ==> c.types.Keys == {c.scope.value})
  }

  ghost predicate EntryOk(clock: int, writes: Writes, settled: Versions, t: EventType, e: Entry) {
    e.refreshedAt <= clock && Settled(settled, t) <= e.version && CurrentAt(writes, t, e.version, e.refreshedAt)
  }

  ghost predicate LookupOk(clock: int, writes: Writes, settled: Versions, generation: nat, l: Lookup) {
    && l.now <= clock && l.owed <= Settled(settled, l.eventType)
    && (l.phase.Missed? ==> l.phase.generation <= generation)
    && (l.phase.Fetched? ==>
          && l.phase.generation <= generation && l.owed <= l.phase.version
          && CurrentAt(writes, l.eventType, l.phase.version, l.now)
          && (l.phase.generation == generation ==> Settled(settled, l.eventType) <= l.phase.version))
  }

  /** The instant a list may be as old as: just after the time to live before the call, or the call itself. */
  function OldestAllowed(now: int, ttl: nat): int {
    if ttl > 0 then now - ttl + 1 else now
  }

  ghost predicate AnswerOk(clock: int, ttl: nat, writes: Writes, a: Answer) {
    a.owed <= a.version && CurrentAt(writes, a.eventType, a.version, OldestAllowed(a.now, ttl)) && a.now <= clock
  }

  ghost predicate Inv(s: State) {
    && WritesOk(s.clock, s.writes, s.settled)
    && (forall w :: w in s.changes ==> ChangeOk(s.writes, s.changes[w]))
    && (forall t :: t in s.cache ==> EntryOk(s.clock, s.writes, s.settled, t, s.cache[t]))
    && (forall th :: th in s.lookups ==> LookupOk(s.clock, s.writes, s.settled, s.generation, s.lookups[th]))
    && (forall a :: a in s.answers ==> AnswerOk(s.clock, s.ttl, s.writes, a))
  }

  // ---------- every step keeps it ----------

  /** Changes only add to what came before, and come no earlier than now. */
  lemma WritesExtend(writes: Writes, types: set<EventType>, clock: int, t: EventType)
    ensures Version(Written(writes, types, clock), t) == Version(writes, t) + if t in types then 1 else 0
    ensures forall version: nat, instant :: CurrentAt(writes, t, version, instant) && instant <= clock ==>
              CurrentAt(Written(writes, types, clock), t, version, instant)
  {
  }

  lemma WritesStayOk(clock: int, writes: Writes, settled: Versions, types: set<EventType>)
    requires WritesOk(clock, writes, settled)
    ensures WritesOk(clock, Written(writes, types, clock), settled)
  {
    forall t
      ensures Version(writes, t) <= Version(Written(writes, types, clock), t)
    {
      WritesExtend(writes, types, clock, t);
    }
  }

  lemma ChangeNoted(writes: Writes, types: set<EventType>, clock: int, scope: Option<EventType>)
    requires scope.Some? ==> types == {scope.value}
    ensures ChangeOk(Written(writes, types, clock), Change(map t | t in types :: Version(writes, t) + 1, scope))
  {
    hide Version, Written;
    forall t ensures Version(Written(writes, types, clock), t) == Version(writes, t) + if t in types then 1 else 0 {
      WritesExtend(writes, types, clock, t);
    }
  }

  lemma WriteKeeps(s: State, types: set<EventType>)
    requires Inv(s)
    ensures Inv(s.(writes := Written(s.writes, types, s.clock)))
  {
    hide CurrentAt, Written, Version, WritesOk;
    var s' := s.(writes := Written(s.writes, types, s.clock));
    WritesStayOk(s.clock, s.writes, s.settled, types);
    forall w | w in s'.changes ensures ChangeOk(s'.writes, s'.changes[w]) {
      forall t ensures Version(s.writes, t) <= Version(s'.writes, t) { WritesExtend(s.writes, types, s.clock, t); }
    }
    forall t | t in s'.cache ensures EntryOk(s.clock, s'.writes, s.settled, t, s.cache[t]) {
      WritesExtend(s.writes, types, s.clock, t);
    }
    forall th | th in s'.lookups ensures LookupOk(s.clock, s'.writes, s.settled, s.generation, s.lookups[th]) {
      WritesExtend(s.writes, types, s.clock, s.lookups[th].eventType);
    }
    forall a | a in s'.answers ensures AnswerOk(s.clock, s.ttl, s'.writes, a) {
      WritesExtend(s.writes, types, s.clock, a.eventType);
    }
  }

  lemma InvalidateSettles(s: State, writer: nat, t: EventType)
    requires Inv(s) && Enabled(s, Invalidate(writer))
    ensures var s' := DoInvalidate(s, writer);
            Settled(s.settled, t) <= Settled(s'.settled, t) <= Version(s.writes, t)
            && (t in s'.cache ==> Settled(s'.settled, t) == Settled(s.settled, t))
  {
    hide CurrentAt, LookupOk, AnswerOk, EntryOk;
  }

  /** What is invalidated leaves the cache, and a lookup under way can no longer store what it read. */
  lemma InvalidateKeeps(s: State, writer: nat)
    requires Inv(s) && Enabled(s, Invalidate(writer))
    ensures Inv(DoInvalidate(s, writer))
  {
    hide CurrentAt, Settled, Version;
    var s' := DoInvalidate(s, writer);
    forall t
      ensures Settled(s.settled, t) <= Settled(s'.settled, t) <= Version(s.writes, t)
      ensures t in s'.cache ==> Settled(s'.settled, t) == Settled(s.settled, t)
    {
      InvalidateSettles(s, writer, t);
    }
  }

  /** An answer from the cache is inside its time to live. */
  lemma AskKeeps(s: State, thread: nat)
    requires Inv(s) && Enabled(s, Ask(thread))
    ensures Inv(DoAsk(s, thread))
  {
    hide Settled, Version, WritesOk, ChangeOk;
    var l := s.lookups[thread];
    if Hit(s, l) {
      assert EntryOk(s.clock, s.writes, s.settled, l.eventType, s.cache[l.eventType]);
      assert CurrentAt(s.writes, l.eventType, s.cache[l.eventType].version, OldestAllowed(l.now, s.ttl));
    }
    hide CurrentAt;
  }

  lemma FetchKeeps(s: State, thread: nat)
    requires Inv(s) && Enabled(s, Fetch(thread))
    ensures Inv(Do(s, Fetch(thread)))
  {
    hide Settled, ChangeOk;
    assert CurrentAt(s.writes, s.lookups[thread].eventType, Version(s.writes, s.lookups[thread].eventType),
                     s.lookups[thread].now);
    hide Version, CurrentAt;
  }

  /**
   * An answer from the database was current when the call began, and is stored only if nothing was invalidated since.
   */
  lemma StoreKeeps(s: State, thread: nat)
    requires Inv(s) && Enabled(s, Store(thread))
    ensures Inv(DoStore(s, thread))
  {
    hide Settled, Version, WritesOk, ChangeOk;
    var l := s.lookups[thread];
    assert LookupOk(s.clock, s.writes, s.settled, s.generation, l);
    assert CurrentAt(s.writes, l.eventType, l.phase.version, OldestAllowed(l.now, s.ttl));
    hide CurrentAt;
  }

  lemma StepKeeps(s: State, step: Step)
    requires Inv(s) && Enabled(s, step)
    ensures Inv(Do(s, step))
  {
    hide DoAsk, DoStore, DoInvalidate, CurrentAt, Written, Version, Settled;
    match step
    case Tick(_) => hide ChangeOk; assert WritesOk(s.clock + step.delta, s.writes, s.settled);
    case Elsewhere(t) => WriteKeeps(s, {t});
    case Write(_, types, scope) =>
      hide ChangeOk;
      WriteKeeps(s, types);
      ChangeNoted(s.writes, types, s.clock, scope);
    case Invalidate(writer) => InvalidateKeeps(s, writer);
    case Ask(thread) => AskKeeps(s, thread);
    case Fetch(thread) => FetchKeeps(s, thread);
    case Store(thread) => StoreKeeps(s, thread);
    case _ =>
  }

  lemma {:induction false} RunKeeps(clock: int, ttl: nat, steps: seq<Step>)
    requires Run(clock, ttl, steps).Some?
    ensures Inv(Run(clock, ttl, steps).value)
  {
    if steps != [] {
      hide Do, Enabled, Inv;
      RunKeeps(clock, ttl, steps[..|steps| - 1]);
      StepKeeps(Run(clock, ttl, steps[..|steps| - 1]).value, steps[|steps| - 1]);
    }
  }

  // ---------- what callers get ----------

  /**
   * Reads its own writes: a lookup that asks after a change of its event type has been invalidated answers with
   * subscriptions that have seen the change. And it is never further behind the database than the time to live:
   * every change older than that before the call is in the list.
   */
  lemma AnswersAreCurrent(clock: int, ttl: nat, steps: seq<Step>, a: Answer)
    requires Run(clock, ttl, steps).Some? && a in Run(clock, ttl, steps).value.answers
    ensures a.owed <= a.version
    ensures var s := Run(clock, ttl, steps).value;
            a.eventType in s.writes ==> forall k :: 0 <= k < |s.writes[a.eventType]| ==>
              (s.writes[a.eventType][k] + s.ttl < a.now || (s.ttl > 0 && s.writes[a.eventType][k] + s.ttl == a.now)
               ==> k < a.version)
  {
    RunKeeps(clock, ttl, steps);
    hide Run;
  }

  /** What an answer is owed: from its invalidation on, at least the change that was invalidated. */
  lemma {:induction false} SettledStays(clock: int, ttl: nat, steps: seq<Step>, n: nat, t: EventType)
    requires n <= |steps| && Run(clock, ttl, steps).Some?
    ensures Run(clock, ttl, steps[..n]).Some?
    ensures Settled(Run(clock, ttl, steps[..n]).value.settled, t) <= Settled(Run(clock, ttl, steps).value.settled, t)
  {
    if n == |steps| {
      assert steps[..n] == steps;
    } else {
      var m := |steps| - 1;
      SettledStays(clock, ttl, steps[..m], n, t);
      assert steps[..m][..n] == steps[..n];
      SettledGrows(Run(clock, ttl, steps[..m]).value, steps[m], t);
    }
  }

  lemma SettledGrows(s: State, step: Step, t: EventType)
    requires Enabled(s, step)
    ensures Settled(s.settled, t) <= Settled(Do(s, step).settled, t)
    ensures step.Invalidate? && t in s.changes[step.writer].types ==>
        s.changes[step.writer].types[t] <= Settled(Do(s, step).settled, t)
  {
  }

  lemma RunBefore(clock: int, ttl: nat, steps: seq<Step>, j: nat)
    requires j < |steps| && Run(clock, ttl, steps).Some?
    ensures Run(clock, ttl, steps[..j]).Some? && Enabled(Run(clock, ttl, steps[..j]).value, steps[j])
    ensures Run(clock, ttl, steps[..j + 1]) == Some(Do(Run(clock, ttl, steps[..j]).value, steps[j]))
  {
    hide Do, Enabled;
    SettledStays(clock, ttl, steps, j + 1, "");
    assert steps[..j + 1][..j] == steps[..j];
  }

  lemma InvalidatedStays(clock: int, ttl: nat, steps: seq<Step>, j: nat, t: EventType)
    requires j < |steps| && Run(clock, ttl, steps).Some? && steps[j].Invalidate?
    ensures Run(clock, ttl, steps[..j]).Some? && steps[j].writer in Run(clock, ttl, steps[..j]).value.changes
    ensures var change := Run(clock, ttl, steps[..j]).value.changes[steps[j].writer];
            t in change.types ==> change.types[t] <= Settled(Run(clock, ttl, steps).value.settled, t)
  {
    hide Do, Run;
    RunBefore(clock, ttl, steps, j);
    SettledStays(clock, ttl, steps, j + 1, t);
    SettledGrows(Run(clock, ttl, steps[..j]).value, steps[j], t);
  }

  lemma AskIsOwed(s: State, thread: nat)
    requires Inv(s) && Enabled(s, Ask(thread))
    ensures var l := s.lookups[thread];
            if Hit(s, l) then l.eventType in s.cache && s.cache[l.eventType].version >= Settled(s.settled, l.eventType)
            else
              var s' := Do(s, Ask(thread));
              thread in s'.lookups && s'.lookups[thread].owed == Settled(s.settled, l.eventType)
  {
    hide CurrentAt, Settled;
  }

  /**
   * Reads its own writes, along a run: once step j has invalidated a change of an event type, no later hit in the
   * cache is on a list without the change, and every later lookup that misses is owed it.
   */
  lemma ReadsOwnWrites(clock: int, ttl: nat, steps: seq<Step>, j: nat, thread: nat)
    requires j < |steps| && Run(clock, ttl, steps).Some? && steps[j].Invalidate?
    requires Enabled(Run(clock, ttl, steps).value, Ask(thread))
    ensures Run(clock, ttl, steps[..j]).Some? && steps[j].writer in Run(clock, ttl, steps[..j]).value.changes
    ensures var change := Run(clock, ttl, steps[..j]).value.changes[steps[j].writer];
            var s := Run(clock, ttl, steps).value;
            var l := s.lookups[thread];
            l.eventType in change.types ==>
              if Hit(s, l) then s.cache[l.eventType].version >= change.types[l.eventType]
              else
                var s' := DoAsk(s, thread);
                thread in s'.lookups && s'.lookups[thread].owed >= change.types[l.eventType]
  {
    var s := Run(clock, ttl, steps).value;
    InvalidatedStays(clock, ttl, steps, j, s.lookups[thread].eventType);
    RunKeeps(clock, ttl, steps);
    hide Run, Inv, Settled;
    AskIsOwed(s, thread);
  }

  // ---------- the steps, in the fields they read and set ----------

  /** A list younger than the time to live is answered from the cache; otherwise the generation is noted, it is read. */
  lemma AskMeans(s: State, thread: nat)
    requires Enabled(s, Ask(thread))
    ensures var l, s' := s.lookups[thread], Do(s, Ask(thread));
            if l.eventType in s.cache && l.now - s.cache[l.eventType].refreshedAt < s.ttl then
              && thread !in s'.lookups
              && s'.answers == s.answers + {Answer(l.eventType, l.now, Settled(s.settled, l.eventType),
                                                   s.cache[l.eventType].version)}
            else
              && s'.answers == s.answers && thread in s'.lookups && s'.lookups[thread].phase == Missed(s.generation)
              && s'.lookups[thread].eventType == l.eventType && s'.lookups[thread].now == l.now
  {
  }

  /** What is read is answered, and kept under the time of the call only if nothing was invalidated since it asked. */
  lemma StoreMeans(s: State, thread: nat)
    requires Enabled(s, Store(thread))
    ensures var l, s' := s.lookups[thread], Do(s, Store(thread));
            && thread !in s'.lookups
            && s'.answers == s.answers + {Answer(l.eventType, l.now, l.owed, l.phase.version)}
            && s'.cache == if s.ttl > 0 && l.phase.generation == s.generation
                           then s.cache[l.eventType := Entry(l.now, l.phase.version)] else s.cache
  {
  }

  /** Reading sees every change made so far. */
  lemma FetchMeans(s: State, thread: nat)
    requires Enabled(s, Fetch(thread))
    ensures var l := s.lookups[thread];
            Do(s, Fetch(thread)).lookups[thread].phase
            == Fetched(l.phase.generation, if l.eventType in s.writes then |s.writes[l.eventType]| else 0)
  {
  }

  /** Invalidating drops the one list, or all, and starts a generation. */
  lemma InvalidateMeans(s: State, writer: nat)
    requires Enabled(s, Invalidate(writer))
    ensures var s' := Do(s, Invalidate(writer));
            && s'.generation == s.generation + 1
            && s'.cache == (if s.changes[writer].scope.None? then map[] else s.cache - {s.changes[writer].scope.value})
  {
  }
}
