/**
 * The wake-up counters of database/src/ChangeWaiters.cpp and the receive loop of EventBus::ReceiveEvents() that
 * sleeps on them. Entries are shared: `entries` says which cell a key has now, and a waiter keeps the cell it was
 * given. The protocol has one step for each time the mutex is held, each insert and each claim.
 */
module ChangeWaiters {
  import opened Outcome

  type Key = string
  type Cell = nat

  datatype Entry = Entry(generation: nat, waiters: int)

  /** Cells are numbered in the order they are made. */
  datatype Table = Table(entries: map<Key, Cell>, cells: map<Cell, Entry>, next: Cell)

  predicate TableOk(t: Table) {
    && (forall c :: c in t.cells ==> c < t.next)
    && (forall k :: k in t.entries ==> t.entries[k] in t.cells)
    && (forall k, l :: k in t.entries && l in t.entries && t.entries[k] == t.entries[l] ==> k == l)
  }

  function CellFor(t: Table, key: Key): Cell {
    if key in t.entries then t.entries[key] else t.next
  }

  function At(t: Table, cell: Cell): Entry {
    if cell in t.cells then t.cells[cell] else Entry(0, 0)
  }

  function Enrolled(t: Table, key: Key): Table {
    var cell := CellFor(t, key);
    var e := if key in t.entries then At(t, cell) else Entry(0, 0);
    Table(t.entries[key := cell], t.cells[cell := e.(waiters := e.waiters + 1)],
          if key in t.entries then t.next else t.next + 1)
  }

  /** The last waiter to go takes the key with it. */
  function Released(t: Table, key: Key): Table {
    if key !in t.entries then t
    else
      var e := At(t, t.entries[key]);
      Table(if e.waiters == 1 then t.entries - {key} else t.entries,
            t.cells[t.entries[key] := e.(waiters := e.waiters - 1)], t.next)
  }

  function Woken(t: Table, key: Key): Table {
    if key !in t.entries then t
    else
      var e := At(t, t.entries[key]);
      t.(cells := t.cells[t.entries[key] := e.(generation := e.generation + 1)])
  }

  /** The object itself; each method is one critical section. */
  class Waiters {
    var entries: map<Key, Cell>
    var cells: map<Cell, Entry>
    var next: Cell

    ghost function View(): Table
      reads this
    {
      Table(entries, cells, next)
    }

    constructor ()
      ensures View() == Table(map[], map[], 0)
    {
      entries, cells, next := map[], map[], 0;
    }

    method Enroll(key: Key) returns (cell: Cell)
      requires TableOk(View())
      modifies this
      ensures View() == Enrolled(old(View()), key) && TableOk(View())
      ensures cell == CellFor(old(View()), key) && key in entries && entries[key] == cell
      ensures key in old(entries) ==>
                var e := old(cells)[cell];
                entries == old(entries) && cells == old(cells)[cell := Entry(e.generation, e.waiters + 1)]
      ensures key !in old(entries) ==>
                cell !in old(cells) && entries == old(entries)[key := cell] && cells == old(cells)[cell := Entry(0, 1)]
    {
      if key !in entries {
        entries := entries[key := next];
        cells := cells[next := Entry(0, 0)];
        next := next + 1;
      }
      cell := entries[key];
      cells := cells[cell := cells[cell].(waiters := cells[cell].waiters + 1)];
    }

    method Release(key: Key)
      requires TableOk(View())
      modifies this
      ensures View() == Released(old(View()), key) && TableOk(View())
      ensures key !in old(entries) ==> entries == old(entries) && cells == old(cells)
      ensures key in old(entries) ==>
                var cell := old(entries)[key];
                var e := old(cells)[cell];
                && cells == old(cells)[cell := Entry(e.generation, e.waiters - 1)]
                && entries == if e.waiters == 1 then old(entries) - {key} else old(entries)
    {
      if key in entries {
        var cell := entries[key];
        cells := cells[cell := cells[cell].(waiters := cells[cell].waiters - 1)];
        if cells[cell].waiters == 0 {
          entries := entries - {key};
        }
      }
    }

    method Wake(key: Key)
      requires TableOk(View())
      modifies this
      ensures View() == Woken(old(View()), key) && TableOk(View()) && entries == old(entries)
      ensures key !in entries ==> cells == old(cells)
      ensures key in entries ==>
                var e := old(cells)[entries[key]];
                cells == old(cells)[entries[key] := Entry(e.generation + 1, e.waiters)]
    {
      if key in entries {
        var cell := entries[key];
        cells := cells[cell := cells[cell].(generation := cells[cell].generation + 1)];
      }
    }
  }

  // ---------- the protocol ----------

  /** Where a receive loop is: enrolled, having read the generation, having claimed, or asleep. */
  datatype Phase = Ready | Looked(seen: nat) | Claimed(seen: nat, saw: nat) | Asleep(seen: nat, saw: nat)

  /** `saw` is how many of the envelopes inserted for the key were there when it claimed. */
  datatype Receiver = Receiver(key: Key, cell: Cell, phase: Phase)

  /** An envelope is the n-th inserted for its key. */
  datatype Envelope = Envelope(key: Key, n: nat)

  datatype State = State(
    table: Table,
    receivers: map<nat, Receiver>,
    inserted: map<Key, nat>,
    publishing: map<nat, Envelope>,
    announced: set<Envelope>)

  datatype Step =
    | Enroll(thread: nat, key: Key)
    | Look(thread: nat)
    | Claim(thread: nat)
    | Wait(thread: nat)
    | WakeUp(thread: nat)
    | Leave(thread: nat)
    | Insert(publisher: nat, key: Key)
    | Wake(publisher: nat)

  function Inserted(s: State, key: Key): nat {
    if key in s.inserted then s.inserted[key] else 0
  }

  function WaitingOn(receivers: map<nat, Receiver>, key: Key): set<nat> {
    set th | th in receivers && receivers[th].key == key
  }

  // ---------- the steps ----------

  predicate Enabled(s: State, step: Step) {
    match step
    case Enroll(thread, _) => thread !in s.receivers
    case Look(thread) => thread in s.receivers && s.receivers[thread].phase.Ready?
    case Claim(thread) => thread in s.receivers && s.receivers[thread].phase.Looked?
    case Wait(thread) => thread in s.receivers && s.receivers[thread].phase.Claimed?
    case WakeUp(thread) => thread in s.receivers && s.receivers[thread].phase.Asleep?
    case Leave(thread) => thread in s.receivers
    case Insert(publisher, _) => publisher !in s.publishing
    case Wake(publisher) => publisher in s.publishing
  }

  function Generation(s: State, r: Receiver): nat {
    At(s.table, r.cell).generation
  }

  /**
   * A step of a receiver that stays enrolled. The wait asks first, and sleeps only while the generation is the one
   * seen.
   */
  function PhaseAfter(s: State, r: Receiver, step: Step): Phase
    requires (step.Claim? ==> r.phase.Looked?) && (step.Wait? ==> r.phase.Claimed?)
  {
    match step
    case Look(_) => Looked(Generation(s, r))
    case Claim(_) => Claimed(r.phase.seen, Inserted(s, r.key))
    case Wait(_) => if Generation(s, r) == r.phase.seen then Asleep(r.phase.seen, r.phase.saw) else Ready
    case _ => Ready
  }

  function Moved(s: State, thread: nat, phase: Phase): State
    requires thread in s.receivers
  {
    s.(receivers := s.receivers[thread := s.receivers[thread].(phase := phase)])
  }

  function Do(s: State, step: Step): State
    requires Enabled(s, step)
  {
    match step
    case Enroll(thread, key) =>
      s.(table := Enrolled(s.table, key),
         receivers := s.receivers[thread := Receiver(key, CellFor(s.table, key), Ready)])
    case Leave(thread) => s.(table := Released(s.table, s.receivers[thread].key), receivers := s.receivers - {thread})
    case Insert(publisher, key) =>
      s.(inserted := s.inserted[key := Inserted(s, key) + 1],
         publishing := s.publishing[publisher := Envelope(key, Inserted(s, key) + 1)])
    case Wake(publisher) =>
      var e := s.publishing[publisher];
      s.(table := Woken(s.table, e.key), publishing := s.publishing - {publisher}, announced := s.announced + {e})
    case _ => Moved(s, step.thread, PhaseAfter(s, s.receivers[step.thread], step))
  }

  function Run(steps: seq<Step>): Option<State> {
    if steps == [] then Some(State(Table(map[], map[], 0), map[], map[], map[], {}))
    else
      match Run(steps[..|steps| - 1])
      case None => None
      case Some(s) => if Enabled(s, steps[|steps| - 1]) then Some(Do(s, steps[|steps| - 1])) else None
  }

  // ---------- the invariant ----------

  /** All live waiters on a key share the cell the table has for it. */
  ghost predicate Shared(table: Table, r: Receiver) {
    r.key in table.entries && table.entries[r.key] == r.cell
  }

  /** The count of each cell in use is how many they are, and there is no entry without a waiter. */
  ghost predicate Counted(table: Table, receivers: map<nat, Receiver>) {
    forall k :: k in table.entries ==> At(table, table.entries[k]).waiters == |WaitingOn(receivers, k)| > 0
  }

  ghost predicate AllSeen(announced: set<Envelope>, key: Key, saw: nat) {
    forall e :: e in announced && e.key == key ==> e.n <= saw
  }

  /** Unless its cell has moved on, a receiver that has claimed could see everything announced for its key. */
  ghost predicate CouldSee(generation: nat, announced: set<Envelope>, r: Receiver) {
    match r.phase
    case Ready => true
    case Looked(seen) => seen <= generation
    case Claimed(seen, saw) => seen <= generation && (seen == generation ==> AllSeen(announced, r.key, saw))
    case Asleep(seen, saw) => seen <= generation && (seen == generation ==> AllSeen(announced, r.key, saw))
  }

  ghost predicate Inv(s: State) {
    && TableOk(s.table)
    && Counted(s.table, s.receivers)
    && (forall th :: th in s.receivers ==> Shared(s.table, s.receivers[th]))
    && (forall th :: th in s.receivers ==> CouldSee(Generation(s, s.receivers[th]), s.announced, s.receivers[th]))
    && (forall p :: p in s.publishing ==> s.publishing[p].n <= Inserted(s, s.publishing[p].key))
    && (forall e :: e in s.announced ==> e.n <= Inserted(s, e.key))
  }

  // ---------- every step keeps it ----------

  /** Enrolling leaves generations and other keys alone. */
  lemma EnrolledTable(t: Table, key: Key)
    requires TableOk(t)
    ensures var t' := Enrolled(t, key);
            && TableOk(t')
            && t'.entries == t.entries[key := CellFor(t, key)]
            && (forall k :: k in t.entries ==> At(t', t.entries[k]).generation == At(t, t.entries[k]).generation)
            && (forall k :: k in t.entries && k != key ==> At(t', t.entries[k]) == At(t, t.entries[k]))
            && At(t', t'.entries[key]).waiters == (if key in t.entries then At(t, t.entries[key]).waiters else 0) + 1
  {
  }

  lemma ReleasedTable(t: Table, key: Key)
    requires TableOk(t) && key in t.entries
    ensures var t' := Released(t, key);
            && TableOk(t')
            && t'.entries == (if At(t, t.entries[key]).waiters == 1 then t.entries - {key} else t.entries)
            && (forall k :: k in t.entries ==> At(t', t.entries[k]).generation == At(t, t.entries[k]).generation)
            && (forall k :: k in t.entries && k != key ==> At(t', t.entries[k]) == At(t, t.entries[k]))
            && At(t', t.entries[key]).waiters == At(t, t.entries[key]).waiters - 1
  {
  }

  lemma WokenTable(t: Table, key: Key)
    requires TableOk(t)
    ensures var t' := Woken(t, key);
            && TableOk(t') && t'.entries == t.entries
            && (forall k :: k in t.entries ==> At(t', t.entries[k]).waiters == At(t, t.entries[k]).waiters)
            && (forall k :: k in t.entries ==>
                  At(t', t.entries[k]).generation == At(t, t.entries[k]).generation + if k == key then 1 else 0)
  {
  }

  lemma OneMoreWaiting(receivers: map<nat, Receiver>, thread: nat, r: Receiver, k: Key)
    requires thread !in receivers
    ensures |WaitingOn(receivers[thread := r], k)| == |WaitingOn(receivers, k)| + if k == r.key then 1 else 0
  {
    assert WaitingOn(receivers[thread := r], k) == WaitingOn(receivers, k) + if k == r.key then {thread} else {};
  }

  lemma OneLessWaiting(receivers: map<nat, Receiver>, thread: nat, k: Key)
    requires thread in receivers
    ensures |WaitingOn(receivers - {thread}, k)|
         == |WaitingOn(receivers, k)| - if k == receivers[thread].key then 1 else 0
  {
    assert WaitingOn(receivers - {thread}, k)
        == WaitingOn(receivers, k) - if k == receivers[thread].key then {thread} else {};
  }

  lemma OtherIsWaiting(receivers: map<nat, Receiver>, thread: nat)
    requires thread in receivers
    ensures |WaitingOn(receivers, receivers[thread].key)| > 0
  {
    assert thread in WaitingOn(receivers, receivers[thread].key);
  }

  lemma EnrollCounts(table: Table, receivers: map<nat, Receiver>, thread: nat, r: Receiver)
    requires TableOk(table) && Counted(table, receivers) && thread !in receivers
    requires r.key !in table.entries ==> |WaitingOn(receivers, r.key)| == 0
    ensures Counted(Enrolled(table, r.key), receivers[thread := r])
  {
    hide WaitingOn, TableOk, Enrolled, At, CellFor;
    EnrolledTable(table, r.key);
    forall k ensures |WaitingOn(receivers[thread := r], k)| == |WaitingOn(receivers, k)| + if k == r.key then 1 else 0 {
      OneMoreWaiting(receivers, thread, r, k);
    }
  }

  lemma NobodyWaiting(table: Table, receivers: map<nat, Receiver>, key: Key)
    requires (forall th :: th in receivers ==> Shared(table, receivers[th])) && key !in table.entries
    ensures |WaitingOn(receivers, key)| == 0
  {
    assert WaitingOn(receivers, key) == {};
  }

  lemma EnrollKeeps(s: State, thread: nat, key: Key)
    requires Inv(s) && Enabled(s, Enroll(thread, key))
    ensures Inv(Do(s, Enroll(thread, key)))
  {
    hide Enrolled, At, TableOk, AllSeen, WaitingOn, Counted;
    EnrolledTable(s.table, key);
    if key !in s.table.entries { NobodyWaiting(s.table, s.receivers, key); }
    EnrollCounts(s.table, s.receivers, thread, Receiver(key, CellFor(s.table, key), Ready));
  }

  lemma LeaveCounts(table: Table, receivers: map<nat, Receiver>, thread: nat)
    requires TableOk(table) && Counted(table, receivers) && thread in receivers && Shared(table, receivers[thread])
    ensures Counted(Released(table, receivers[thread].key), receivers - {thread})
  {
    hide WaitingOn, TableOk, Released, At;
    ReleasedTable(table, receivers[thread].key);
    forall k
      ensures |WaitingOn(receivers - {thread}, k)|
           == |WaitingOn(receivers, k)| - if k == receivers[thread].key then 1 else 0
    {
      OneLessWaiting(receivers, thread, k);
    }
  }

  /** The key stays as long as anybody else waits on it. */
  lemma LeaveShares(s: State, thread: nat, other: nat)
    requires Inv(s) && thread in s.receivers && other in s.receivers && other != thread
    ensures Shared(Released(s.table, s.receivers[thread].key), s.receivers[other])
  {
    hide WaitingOn, TableOk, Released, At, CouldSee;
    var key := s.receivers[thread].key;
    ReleasedTable(s.table, key);
    OneLessWaiting(s.receivers, thread, key);
    OtherIsWaiting(s.receivers - {thread}, other);
  }

  lemma LeaveKeeps(s: State, thread: nat)
    requires Inv(s) && Enabled(s, Leave(thread))
    ensures Inv(Do(s, Leave(thread)))
  {
    hide Released, At, TableOk, CouldSee, WaitingOn, Counted;
    ReleasedTable(s.table, s.receivers[thread].key);
    LeaveCounts(s.table, s.receivers, thread);
    forall other | other in s.receivers && other != thread
      ensures Shared(Released(s.table, s.receivers[thread].key), s.receivers[other])
    {
      LeaveShares(s, thread, other);
    }
  }

  lemma MovedKeeps(s: State, thread: nat, phase: Phase)
    requires Inv(s) && thread in s.receivers
    requires CouldSee(Generation(s, s.receivers[thread]), s.announced, s.receivers[thread].(phase := phase))
    ensures Inv(Moved(s, thread, phase))
  {
    hide At, TableOk, CouldSee, AllSeen;
    assert forall k :: WaitingOn(Moved(s, thread, phase).receivers, k) == WaitingOn(s.receivers, k);
  }

  /**
   * Every announcement moves the cell of its key on, so nobody is left who has seen its generation and not the
   * envelope.
   */
  lemma WakeKeeps(s: State, publisher: nat)
    requires Inv(s) && Enabled(s, Wake(publisher))
    ensures Inv(Do(s, Wake(publisher)))
  {
    hide Woken, At, TableOk, WaitingOn;
    WokenTable(s.table, s.publishing[publisher].key);
  }

  lemma InsertKeeps(s: State, publisher: nat, key: Key)
    requires Inv(s) && Enabled(s, Insert(publisher, key))
    ensures Inv(Do(s, Insert(publisher, key)))
  {
    hide At, TableOk, WaitingOn, CouldSee;
  }

  lemma StepKeeps(s: State, step: Step)
    requires Inv(s) && Enabled(s, step)
    ensures Inv(Do(s, step))
  {
    hide At, TableOk, WaitingOn, Enrolled, Released, Woken, Counted;
    match step
    case Enroll(thread, key) => EnrollKeeps(s, thread, key);
    case Leave(thread) => LeaveKeeps(s, thread);
    case Insert(publisher, key) => InsertKeeps(s, publisher, key);
    case Wake(publisher) => WakeKeeps(s, publisher);
    case _ => MovedKeeps(s, step.thread, PhaseAfter(s, s.receivers[step.thread], step));
  }

  // ---------- whole runs ----------

  lemma {:induction false} RunKeeps(steps: seq<Step>)
    requires Run(steps).Some?
    ensures Inv(Run(steps).value)
  {
    if steps != [] {
      hide Do, Enabled, Inv;
      RunKeeps(steps[..|steps| - 1]);
      StepKeeps(Run(steps[..|steps| - 1]).value, steps[|steps| - 1]);
    }
  }

  /** In every interleaving, all live waiters on a key share one entry, and its count is their number. */
  lemma WaitersShareAnEntry(steps: seq<Step>, thread: nat)
    requires Run(steps).Some? && thread in Run(steps).value.receivers
    ensures var s := Run(steps).value;
            var r := s.receivers[thread];
            && r.key in s.table.entries && s.table.entries[r.key] == r.cell
            && At(s.table, r.cell).waiters == |WaitingOn(s.receivers, r.key)|
  {
    RunKeeps(steps);
    hide Run;
  }

  /**
   * No lost wake-up: a receiver that sleeps, its cell not having moved on, claimed when every envelope of its key
   * announced by now had been inserted. If its cell has moved on, it is not asleep for long: the wait's own test fails.
   */
  lemma NoLostWakeUp(steps: seq<Step>, thread: nat, e: Envelope)
    requires Run(steps).Some? && thread in Run(steps).value.receivers
    requires Run(steps).value.receivers[thread].phase.Asleep?
    requires e in Run(steps).value.announced && e.key == Run(steps).value.receivers[thread].key
    ensures var s := Run(steps).value;
            var r := s.receivers[thread];
            e.n <= r.phase.saw || r.phase.seen < Generation(s, r)
  {
    RunKeeps(steps);
    hide Run, At, TableOk, WaitingOn;
  }

  // ---------- the receive loop, step by step ----------

  /**
   * A receiver notes its cell's generation, then claims, and only then waits, which it does asleep exactly while the
   * generation is still the one it noted.
   */
  lemma LoopMeans(s: State, thread: nat)
    ensures Enabled(s, Look(thread)) ==>
              Do(s, Look(thread)).receivers[thread].phase == Looked(At(s.table, s.receivers[thread].cell).generation)
    ensures Enabled(s, Claim(thread)) ==>
              var r := s.receivers[thread];
              r.phase.Looked? && Do(s, Claim(thread)).receivers[thread].phase
                                 == Claimed(r.phase.seen, if r.key in s.inserted then s.inserted[r.key] else 0)
    ensures Enabled(s, Wait(thread)) ==>
              var r := s.receivers[thread];
              && r.phase.Claimed?
              && Do(s, Wait(thread)).receivers[thread].phase
                 == if At(s.table, r.cell).generation == r.phase.seen then Asleep(r.phase.seen, r.phase.saw) else Ready
  {
  }

  /** An envelope is inserted first and announced then, which moves its key's cell on if anybody waits on it. */
  lemma PublishMeans(s: State, publisher: nat, key: Key)
    requires TableOk(s.table)
    ensures Enabled(s, Insert(publisher, key)) ==>
              var n := (if key in s.inserted then s.inserted[key] else 0) + 1;
              var s' := Do(s, Insert(publisher, key));
              s'.inserted == s.inserted[key := n] && s'.publishing == s.publishing[publisher := Envelope(key, n)]
    ensures Enabled(s, Wake(publisher)) ==>
              var e, s' := s.publishing[publisher], Do(s, Wake(publisher));
              && s'.announced == s.announced + {e} && publisher !in s'.publishing
              && (e.key in s.table.entries ==>
                    var cell := s.table.entries[e.key];
                    cell in s'.table.cells && s'.table.cells[cell].generation == s.table.cells[cell].generation + 1)
  {
  }

  /** The last waiter to leave takes the key out of the table; the cell itself stays with whoever has it. */
  lemma LeaveMeans(s: State, thread: nat)
    requires TableOk(s.table) && Enabled(s, Leave(thread))
    ensures var key, t, s' := s.receivers[thread].key, s.table, Do(s, Leave(thread));
            && s'.receivers == s.receivers - {thread}
            && (key !in t.entries ==> s'.table == t)
            && (key in t.entries ==>
                  var e := t.cells[t.entries[key]];
                  && s'.table.cells == t.cells[t.entries[key] := Entry(e.generation, e.waiters - 1)]
                  && s'.table.entries == if e.waiters == 1 then t.entries - {key} else t.entries)
  {
  }

  /** A new key gets a cell of its own, at generation 0 and with one waiter. */
  lemma EnrollMeans(t: Table, key: Key)
    requires TableOk(t)
    ensures key !in t.entries ==>
              var t' := Enrolled(t, key);
              key in t'.entries && t'.entries[key] !in t.cells && t'.cells[t'.entries[key]] == Entry(0, 1)
    ensures key in t.entries ==>
              var t', e := Enrolled(t, key), t.cells[t.entries[key]];
              t'.entries == t.entries && t'.cells == t.cells[t.entries[key] := Entry(e.generation, e.waiters + 1)]
  {
  }
}
