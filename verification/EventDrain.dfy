/**
 * Polling drains: with one instance and no new events, every pass that finds something lowers the attempts left, so
 * the pending events of a module run out whatever its handlers answer, and no event is handed out more often than
 * it has attempts left.
 */
module EventDrain {
  import opened Outcome
  import opened Deliveries
  import opened DeliveryProtocol
  import opened EventBuses

  datatype Pass = Pass(candidates: seq<Id>, token: Token, now: Time, settled: Time, answers: Answers, moves: Moves)

  function WaitingFor(docs: Docs, target: string): set<Id> {
    set id | id in docs && docs[id].target == target && docs[id].status == Pending
  }

  /** What the find of a poll answers: the oldest of what is waiting, at most a batch of it. */
  ghost predicate Finds(docs: Docs, target: string, candidates: seq<Id>) {
    && Distinct(candidates)
    && (forall i :: 0 <= i < |candidates| ==> candidates[i] in WaitingFor(docs, target))
    && |candidates| == (if |WaitingFor(docs, target)| <= BATCH_SIZE then |WaitingFor(docs, target)| else BATCH_SIZE)
    && (forall i, j :: 0 <= i < j < |candidates| ==> docs[candidates[i]].createdAt <= docs[candidates[j]].createdAt)
    && (forall id, other :: id in candidates && other in WaitingFor(docs, target) && other !in candidates ==>
          docs[id].createdAt <= docs[other].createdAt)
  }

  function AfterPass(docs: Docs, p: Pass): Docs {
    Passed(docs, Won(docs, p.candidates), p.token, p.now, p.settled, p.answers, p.moves)
  }

  function AfterPasses(docs: Docs, passes: seq<Pass>): Docs {
    if passes == [] then docs else AfterPasses(AfterPass(docs, passes[0]), passes[1..])
  }

  /** One pass after another, each working on what its find answered. */
  ghost predicate Polling(docs: Docs, target: string, passes: seq<Pass>) {
    passes == []
    || (Finds(docs, target, passes[0].candidates) && Polling(AfterPass(docs, passes[0]), target, passes[1..]))
  }

  // ---------- the measure ----------

  /** How often a document can still be handed out. */
  function AttemptsLeft(d: Doc): nat {
    if d.attempts + 1 < MAX_ATTEMPTS then MAX_ATTEMPTS - d.attempts else 1
  }

  function LeftFor(docs: Docs, target: string, id: Id): nat {
    if id in docs && docs[id].target == target && docs[id].status == Pending then AttemptsLeft(docs[id]) else 0
  }

  /** Over the ids below n. */
  function TotalLeft(docs: Docs, target: string, n: nat): nat {
    if n == 0 then 0 else TotalLeft(docs, target, n - 1) + LeftFor(docs, target, n - 1)
  }

  /** A pass takes one attempt from each of its candidates and none from anything else. */
  lemma PassTakesOne(docs: Docs, target: string, p: Pass, id: Id)
    requires Finds(docs, target, p.candidates)
    ensures id in p.candidates ==> LeftFor(AfterPass(docs, p), target, id) < LeftFor(docs, target, id)
    ensures id !in p.candidates ==> LeftFor(AfterPass(docs, p), target, id) == LeftFor(docs, target, id)
  {
  }

  lemma {:induction false} TotalFalls(docs: Docs, target: string, p: Pass, n: nat)
    requires Finds(docs, target, p.candidates)
    ensures TotalLeft(AfterPass(docs, p), target, n) <= TotalLeft(docs, target, n)
    ensures (exists id :: id in p.candidates && id < n) ==>
        TotalLeft(AfterPass(docs, p), target, n) < TotalLeft(docs, target, n)
  {
    hide AfterPass, Finds, LeftFor;
    if n > 0 {
      TotalFalls(docs, target, p, n - 1);
      PassTakesOne(docs, target, p, n - 1);
    }
  }

  /** A pass brings no document in, and if its moves to the DLQ succeed it leaves none of its own claimed. */
  lemma PassAddsNothing(docs: Docs, p: Pass)
    ensures AfterPass(docs, p).Keys <= docs.Keys
    ensures forall id :: id in AfterPass(docs, p) ==> AfterPass(docs, p)[id].target == docs[id].target
    ensures (forall id :: p.moves(id).Moved?) ==>
              forall id :: id in AfterPass(docs, p) ==> AfterPass(docs, p)[id].status == docs[id].status
  {
  }

  /** However many non-empty passes there are, they are no more than the attempts that were left. */
  lemma {:induction false} PassesAreBounded(docs: Docs, target: string, passes: seq<Pass>, n: nat)
    requires Polling(docs, target, passes) && (forall id :: id in docs ==> id < n)
    requires forall k :: 0 <= k < |passes| ==> passes[k].candidates != []
    ensures |passes| + TotalLeft(AfterPasses(docs, passes), target, n) <= TotalLeft(docs, target, n)
  {
    hide AfterPass, TotalLeft, WaitingFor;
    if passes != [] {
      PassAddsNothing(docs, passes[0]);
      assert passes[0].candidates[0] in passes[0].candidates;
      Waits(docs, target, passes[0].candidates[0]);
      TotalFalls(docs, target, passes[0], n);
      PassesAreBounded(AfterPass(docs, passes[0]), target, passes[1..], n);
    }
  }

  lemma Waits(docs: Docs, target: string, id: Id)
    ensures id in WaitingFor(docs, target) ==> id in docs
  {
  }

  /** A pass that finds nothing has nothing left to find; before that, something is left and the next one finds it. */
  lemma EmptyMeansDrained(docs: Docs, target: string, candidates: seq<Id>, n: nat)
    requires Finds(docs, target, candidates) && (forall id :: id in docs ==> id < n)
    ensures candidates == [] <==> WaitingFor(docs, target) == {}
    ensures candidates == [] <==> TotalLeft(docs, target, n) == 0
  {
    if WaitingFor(docs, target) == {} {
      NothingLeft(docs, target, n);
    } else {
      var id :| id in WaitingFor(docs, target);
      SomethingLeft(docs, target, id, n);
    }
  }

  lemma {:induction false} NothingLeft(docs: Docs, target: string, n: nat)
    requires WaitingFor(docs, target) == {}
    ensures TotalLeft(docs, target, n) == 0
  {
    if n > 0 {
      NothingLeft(docs, target, n - 1);
      assert n - 1 !in WaitingFor(docs, target);
    }
  }

  lemma {:induction false} SomethingLeft(docs: Docs, target: string, id: Id, n: nat)
    requires id in WaitingFor(docs, target) && id < n
    ensures TotalLeft(docs, target, n) > 0
  {
    if id < n - 1 { SomethingLeft(docs, target, id, n - 1); }
  }

  /** A module whose deliveries are all pending has none left once a find comes back empty. */
  lemma {:induction false} Drained(docs: Docs, target: string, passes: seq<Pass>, candidates: seq<Id>)
    requires Polling(docs, target, passes) && Finds(AfterPasses(docs, passes), target, candidates) && candidates == []
    requires forall id :: id in docs && docs[id].target == target ==> docs[id].status == Pending
    requires forall k, id :: 0 <= k < |passes| ==> passes[k].moves(id).Moved?
    ensures forall id :: id in AfterPasses(docs, passes) ==> id in docs && docs[id].target != target
  {
    hide AfterPass;
    if passes == [] {
      assert forall id :: id in docs && docs[id].target == target ==> id in WaitingFor(docs, target);
    } else {
      PassAddsNothing(docs, passes[0]);
      Drained(AfterPass(docs, passes[0]), target, passes[1..], candidates);
    }
  }

  // ---------- handler calls ----------

  /** How often these passes call a handler with the event. */
  function Calls(passes: seq<Pass>, id: Id): nat {
    if passes == [] then 0
    else (if id in passes[0].candidates && !passes[0].answers(id).NoHandler? then 1 else 0) + Calls(passes[1..], id)
  }

  lemma {:induction false} CallsAreBounded(docs: Docs, target: string, passes: seq<Pass>, id: Id)
    requires Polling(docs, target, passes)
    ensures Calls(passes, id) <= LeftFor(docs, target, id)
    ensures id in docs && docs[id].attempts == 0 ==> Calls(passes, id) <= 5
    decreases |passes|
  {
    hide AfterPass, Finds;
    if passes != [] {
      PassTakesOne(docs, target, passes[0], id);
      CallsAreBounded(AfterPass(docs, passes[0]), target, passes[1..], id);
    }
  }

  // ---------- holding is reversible ----------

  /** But for a fresh lease on life, releasing after holding gives back every pending document as it was. */
  lemma HoldThenRelease(docs: Docs, source: string, now: Time, id: Id)
    requires id in docs && HoldingIsConsistent(docs[id]) && docs[id].heldBy != Some(source)
    ensures var held := HoldAll(docs, source);
            var d := ReleaseAll(held, HeldBy(held, source), now);
            id in d && HoldingIsConsistent(d[id])
            && d[id] == if docs[id].sourceErn == source && docs[id].status == Pending
                        then docs[id].(visibleAt := now, expiresAt := Some(now + Retention(docs[id].target)))
                        else docs[id]
  {
    var held := HoldAll(docs, source);
    assert id in HeldBy(held, source) <==> docs[id].sourceErn == source && docs[id].status == Pending;
  }
}
