/**
 * One instance of database/src/EventBus.cpp at work on its own: a poll pass, the reaper, holding and releasing, each
 * against what it makes of the documents.
 */
module EventBuses {
  import opened Outcome
  import opened Deliveries
  import opened DeliveryProtocol

  // ---------- what each call makes of the documents ----------

  predicate Distinct(ids: seq<Id>) {
    forall i, j :: 0 <= i < j < |ids| ==> ids[i] != ids[j]
  }

  /** The candidates that are still there and pending. */
  function Won(docs: Docs, candidates: seq<Id>): set<Id> {
    set id | id in candidates && id in docs && docs[id].status == Pending
  }

  /** How a move to the DLQ ends: the insert and the delete are two calls, and either may fail. */
  datatype MoveResult = Moved | NotInserted | NotDeleted

  predicate GoesToDlq(d: Doc, result: HandlerResult) {
    result.Failed? && d.attempts + 1 >= MAX_ATTEMPTS
  }

  /** Delivered for good: answered, or moved after failing for the last time. */
  predicate Leaves(d: Doc, result: HandlerResult, move: MoveResult) {
    !result.Failed? || (GoesToDlq(d, result) && move.Moved?)
  }

  type Answers = Id -> HandlerResult
  type Moves = Id -> MoveResult

  /** The documents after a pass that won these. What could not be moved stays claimed, for the reaper. */
  function Passed(docs: Docs, won: set<Id>, token: Token, now: Time, settled: Time, answers: Answers,
                  moves: Moves): Docs {
    map id | id in docs && !(id in won && Leaves(docs[id], answers(id), moves(id))) ::
      if id !in won then docs[id]
      else if GoesToDlq(docs[id], answers(id)) then Claim(docs[id], token, now + VISIBILITY)
      else Requeue(Claim(docs[id], token, now + VISIBILITY), settled)
  }

  /** What the pass puts in the DLQ. */
  function MovedToDlq(docs: Docs, won: set<Id>, token: Token, now: Time, answers: Answers, moves: Moves): Docs {
    map id | id in docs && id in won && GoesToDlq(docs[id], answers(id)) && !moves(id).NotInserted? ::
      Claim(docs[id], token, now + VISIBILITY)
  }

  function HoldAll(docs: Docs, source: string): Docs {
    map id | id in docs ::
      if docs[id].sourceErn == source && docs[id].status == Pending then Hold(docs[id], source) else docs[id]
  }

  function HeldBy(docs: Docs, source: string): set<Id> {
    set id | id in docs && HeldFor(docs[id], source)
  }

  /** The external subscribers among those addressed. */
  function ExternalTargets(docs: Docs, ids: set<Id>): set<string> {
    set id | id in ids && id in docs && External(docs[id].target) :: docs[id].target
  }

  function ReleaseAll(docs: Docs, ids: set<Id>, now: Time): Docs {
    map id | id in docs :: if id in ids then Release(docs[id], now) else docs[id]
  }

  /** A find with a limit: some of what matches, and all of it if the limit allows. */
  method FindSome(matching: set<Id>, limit: nat) returns (page: set<Id>)
    ensures page <= matching && |page| <= limit
    ensures page == matching || |page| == limit
  {
    page := {};
    var rest := matching;
    while rest != {} && |page| < limit
      invariant page !! rest && page + rest == matching && |page| <= limit
      invariant |page| + |rest| == |matching|
      decreases rest
    {
      var id :| id in rest;
      page, rest := page + {id}, rest - {id};
    }
    if rest == {} { assert page == matching; }
  }

  // ---------- one more document ----------

  lemma ReleaseOneMore(docs: Docs, done: set<Id>, id: Id, now: Time)
    requires id in docs && id !in done
    ensures var d := ReleaseAll(docs, done, now);
            id in d && d[id] == docs[id] && d[id := Release(d[id], now)] == ReleaseAll(docs, done + {id}, now)
    ensures ExternalTargets(docs, done + {id})
         == ExternalTargets(docs, done) + if External(docs[id].target) then {docs[id].target} else {}
  {
    hide External, Release;
  }

  lemma ReleaseNone(docs: Docs, now: Time)
    ensures ReleaseAll(docs, {}, now) == docs && ExternalTargets(docs, {}) == {}
  {
  }

  lemma ReleaseAPage(docs: Docs, done: set<Id>, page: set<Id>, source: string, now: Time)
    requires done <= HeldBy(docs, source) && page <= HeldBy(docs, source) - done
    ensures ReleaseAll(ReleaseAll(docs, done, now), page, now) == ReleaseAll(docs, done + page, now)
    ensures ExternalTargets(ReleaseAll(docs, done, now), page) == ExternalTargets(docs, page)
    ensures ExternalTargets(docs, done + page) == ExternalTargets(docs, done) + ExternalTargets(docs, page)
    ensures |done + page| == |done| + |page|
  {
    hide External;
    var mid := ReleaseAll(docs, done, now);
    assert forall id :: id in page ==> mid[id] == docs[id];
    assert forall id :: id in page && External(docs[id].target) ==> mid[id].target in ExternalTargets(mid, page);
  }

  /** What is released is held no more; everything else is held as before. */
  lemma StillHeld(docs: Docs, done: set<Id>, source: string, now: Time)
    requires done <= HeldBy(docs, source)
    ensures HeldBy(ReleaseAll(docs, done, now), source) == HeldBy(docs, source) - done
    ensures HeldBy(docs, source) <= docs.Keys == ReleaseAll(docs, done, now).Keys
  {
  }

  lemma NewlyHeld(docs: Docs, source: string)
    ensures HeldBy(HoldAll(docs, source), source) - HeldBy(docs, source)
            == set id | id in docs && docs[id].sourceErn == source && docs[id].status == Pending
  {
  }

  lemma HoldMeans(docs: Docs, source: string)
    ensures var after := HoldAll(docs, source);
            after.Keys == docs.Keys && forall id :: id in docs ==>
              after[id] == if docs[id].sourceErn == source && docs[id].status == Pending
                           then docs[id].(status := Held, heldBy := Some(source), expiresAt := None) else docs[id]
  {
  }

  function AckedOf(ids: set<Id>, answers: Answers): set<Id> {
    set id | id in ids && !answers(id).Failed?
  }

  function InsertedOf(docs: Docs, ids: set<Id>, answers: Answers, moves: Moves): set<Id> {
    set id | id in ids && id in docs && GoesToDlq(docs[id], answers(id)) && !moves(id).NotInserted?
  }

  function SpentOf(docs: Docs, ids: set<Id>, answers: Answers, moves: Moves): set<Id> {
    set id | id in ids && id in docs && GoesToDlq(docs[id], answers(id)) && moves(id).Moved?
  }

  function RequeueOf(docs: Docs, ids: set<Id>, answers: Answers): set<Id> {
    set id | id in ids && id in docs && answers(id).Failed? && docs[id].attempts + 1 < MAX_ATTEMPTS
  }

  function ClaimAll(docs: Docs, won: set<Id>, token: Token, until: Time): Docs {
    map id | id in docs :: if id in won then Claim(docs[id], token, until) else docs[id]
  }

  function Restrict(docs: Docs, ids: set<Id>): Docs {
    map id | id in ids && id in docs :: docs[id]
  }

  /** The token tells what was won from what was not. */
  lemma TokenTells(docs: Docs, won: set<Id>, token: Token, until: Time, id: Id)
    requires won <= docs.Keys && forall id :: id in docs ==> docs[id].token != Some(token)
    ensures var claimed := ClaimAll(docs, won, token, until);
            id in won <==> id in claimed && claimed[id].token == Some(token)
    ensures id in won ==> ClaimAll(docs, won, token, until)[id].attempts == docs[id].attempts + 1
  {
  }

  lemma NoneHandled(docs: Docs, claimed: Docs, dlq: Docs, answers: Answers, moves: Moves)
    ensures AckedOf({}, answers) == {} && SpentOf(docs, {}, answers, moves) == {}
    ensures InsertedOf(docs, {}, answers, moves) == {} && RequeueOf(docs, {}, answers) == {}
    ensures claimed - {} == claimed && dlq + Restrict(claimed, {}) == dlq
  {
  }

  lemma OneMoreMoved(claimed: Docs, dlq: Docs, inserted: set<Id>, spent: set<Id>, id: Id)
    requires id in claimed
    ensures (dlq + Restrict(claimed, inserted))[id := claimed[id]] == dlq + Restrict(claimed, inserted + {id})
    ensures claimed - spent - {id} == claimed - (spent + {id})
  {
  }

  lemma OneMoreHandled(docs: Docs, ids: set<Id>, id: Id, answers: Answers, moves: Moves)
    requires id in docs && id !in ids
    ensures AckedOf(ids + {id}, answers)
            == if !answers(id).Failed? then AckedOf(ids, answers) + {id} else AckedOf(ids, answers)
    ensures InsertedOf(docs, ids + {id}, answers, moves)
            == if GoesToDlq(docs[id], answers(id)) && !moves(id).NotInserted?
               then InsertedOf(docs, ids, answers, moves) + {id}
               else InsertedOf(docs, ids, answers, moves)
    ensures SpentOf(docs, ids + {id}, answers, moves)
            == if GoesToDlq(docs[id], answers(id)) && moves(id).Moved?
               then SpentOf(docs, ids, answers, moves) + {id}
               else SpentOf(docs, ids, answers, moves)
    ensures RequeueOf(docs, ids + {id}, answers)
            == if answers(id).Failed? && docs[id].attempts + 1 < MAX_ATTEMPTS
               then RequeueOf(docs, ids, answers) + {id}
               else RequeueOf(docs, ids, answers)
  {
  }

  /** Settling what was claimed, acknowledged, spent and requeued makes the pass. */
  lemma SettledIsPassed(docs: Docs, won: set<Id>, token: Token, now: Time, settled: Time, answers: Answers,
                        moves: Moves)
    requires won <= docs.Keys
    ensures var claimed := ClaimAll(docs, won, token, now + VISIBILITY);
            var rest := claimed - SpentOf(docs, won, answers, moves) - AckedOf(won, answers);
            var requeue := RequeueOf(docs, won, answers);
            (map id | id in rest :: if id in requeue then Requeue(rest[id], settled) else rest[id])
            == Passed(docs, won, token, now, settled, answers, moves)
  {
    hide Claim, Requeue;
  }

  lemma InsertedIsMoved(docs: Docs, won: set<Id>, token: Token, now: Time, answers: Answers, moves: Moves)
    requires won <= docs.Keys
    ensures Restrict(ClaimAll(docs, won, token, now + VISIBILITY), InsertedOf(docs, won, answers, moves))
         == MovedToDlq(docs, won, token, now, answers, moves)
  {
    hide Claim;
  }

  /** What a release of everything a source holds makes of each document. */
  lemma ReleasedMeans(docs: Docs, source: string, now: Time)
    ensures var after := ReleaseAll(docs, HeldBy(docs, source), now);
            after.Keys == docs.Keys && forall id :: id in docs ==>
              var d := docs[id];
              if d.status == Held && d.heldBy == Some(source) then
                && after[id].status == Pending && after[id].visibleAt == now && after[id].heldBy == None
                && after[id].expiresAt == Some(now + if "client:" <= d.target then 604800 else 2592000)
                && after[id].(status := Held, visibleAt := d.visibleAt, heldBy := d.heldBy, expiresAt := d.expiresAt)
                   == d
              else after[id] == d
  {
    hide Release;
    forall id | id in docs
      ensures var d, e := docs[id], Release(docs[id], now);
              && e.status == Pending && e.visibleAt == now && e.heldBy == None
              && e.expiresAt == Some(now + if "client:" <= d.target then 604800 else 2592000)
              && (d.status == Held ==>
                    e.(status := Held, visibleAt := d.visibleAt, heldBy := d.heldBy, expiresAt := d.expiresAt) == d)
    {
      ReleaseMeans(docs[id], now);
    }
  }

  /** What a source holds, and whose subscribers a release of it wakes. */
  lemma HeldMeans(docs: Docs, source: string)
    ensures HeldBy(docs, source) == set id | id in docs && docs[id].status == Held && docs[id].heldBy == Some(source)
    ensures forall t :: t in ExternalTargets(docs, HeldBy(docs, source)) <==>
              "client:" <= t && exists id ::
                id in docs && docs[id].target == t && docs[id].status == Held && docs[id].heldBy == Some(source)
  {
  }

  /**
   * What a pass makes of each document. Pending candidates are claimed for 30 seconds and handed out: an answer deletes
   * them, a failure puts them back with one attempt more, and the fifth failure moves them to the DLQ.
   */
  lemma PassMeans(docs: Docs, candidates: seq<Id>, token: Token, now: Time, settled: Time, answers: Answers,
                  moves: Moves, id: Id)
    requires id in docs
    ensures var d := docs[id];
            var after := Passed(docs, Won(docs, candidates), token, now, settled, answers, moves);
            var dlq := MovedToDlq(docs, Won(docs, candidates), token, now, answers, moves);
            var claimed :=
              d.(status := Claimed, token := Some(token), visibleAt := now + 30, attempts := d.attempts + 1);
            if id !in candidates || d.status != Pending then id in after && after[id] == d && id !in dlq
            else if !answers(id).Failed? then id !in after && id !in dlq
            else if d.attempts + 1 < 5 then
              id in after && after[id] == claimed.(status := Pending, visibleAt := settled) && id !in dlq
            else
              && (moves(id).Moved? ==> id !in after && id in dlq && dlq[id] == claimed)
              && (moves(id).NotInserted? ==> id in after && after[id] == claimed && id !in dlq)
              && (moves(id).NotDeleted? ==> id in after && after[id] == claimed && id in dlq && dlq[id] == claimed)
  {
  }

  class EventBus {
    var docs: Docs
    var dlq: Docs

    /**
     * A pass over the candidates its find answered. `calls` are the handler calls in order. Everything the claim
     * won leaves for good, is pending again one attempt on, or stays claimed where its move to the DLQ failed;
     * nothing else changes.
     */
    method PollOnce(candidates: seq<Id>, token: Token, now: Time, settled: Time, answers: Answers, moves: Moves)
      returns (calls: seq<Id>)
      requires Distinct(candidates)
      requires forall id :: id in docs ==> docs[id].token != Some(token)
      modifies this
      ensures docs == Passed(old(docs), Won(old(docs), candidates), token, now, settled, answers, moves)
      ensures dlq == old(dlq) + MovedToDlq(old(docs), Won(old(docs), candidates), token, now, answers, moves)
      ensures Distinct(calls)
      ensures forall id :: id in calls <==> id in Won(old(docs), candidates) && !answers(id).NoHandler?
    {
      calls := [];
      var won := Won(docs, candidates);
      if won == {} {
        return;
      }
      ghost var before := docs;
      docs := ClaimAll(docs, won, token, now + VISIBILITY);
      var acked, requeue;
      acked, requeue, calls := HandleBatch(before, won, candidates, token, now + VISIBILITY, answers, moves);
      docs := docs - acked;
      docs := map id | id in docs :: if id in requeue then Requeue(docs[id], settled) else docs[id];
      SettledIsPassed(before, won, token, now, settled, answers, moves);
      InsertedIsMoved(before, won, token, now, answers, moves);
    }

    /**
     * Hands each document read back by its token to its handler, and moves to the DLQ what failed for the last time.
     */
    method HandleBatch(ghost before: Docs, ghost won: set<Id>, candidates: seq<Id>, token: Token, ghost until: Time,
                       answers: Answers, moves: Moves)
      returns (acked: set<Id>, requeue: set<Id>, calls: seq<Id>)
      requires Distinct(candidates) && won == Won(before, candidates) && docs == ClaimAll(before, won, token, until)
      requires forall id :: id in before ==> before[id].token != Some(token)
      modifies this
      ensures docs == old(docs) - SpentOf(before, won, answers, moves)
      ensures dlq == old(dlq) + Restrict(old(docs), InsertedOf(before, won, answers, moves))
      ensures acked == AckedOf(won, answers) && requeue == RequeueOf(before, won, answers)
      ensures Distinct(calls)
      ensures forall id :: id in calls <==> id in won && !answers(id).NoHandler?
    {
      hide SpentOf, InsertedOf, AckedOf, RequeueOf, Restrict, ClaimAll;
      acked, requeue, calls := {}, {}, [];
      var claimed := docs;
      ghost var done: set<Id> := {};
      NoneHandled(before, claimed, dlq, answers, moves);
      for k := 0 to |candidates|
        invariant forall id :: id in done <==> id in candidates[..k] && id in won
        invariant docs == claimed - SpentOf(before, done, answers, moves)
        invariant dlq == old(dlq) + Restrict(claimed, InsertedOf(before, done, answers, moves))
        invariant acked == AckedOf(done, answers) && requeue == RequeueOf(before, done, answers)
        invariant Distinct(calls)
        invariant forall id :: id in calls <==> id in done && !answers(id).NoHandler?
      {
        var id := candidates[k];
        assert candidates[..k + 1] == candidates[..k] + [id];
        TokenTells(before, won, token, until, id);
        if id in claimed && claimed[id].token == Some(token) {
          OneMoreHandled(before, done, id, answers, moves);
          if !answers(id).NoHandler? {
            calls := calls + [id];
          }
          if !answers(id).Failed? {
            acked := acked + {id};
          } else if claimed[id].attempts >= MAX_ATTEMPTS {
            OneMoreMoved(claimed, old(dlq), InsertedOf(before, done, answers, moves),
                         SpentOf(before, done, answers, moves), id);
            if !moves(id).NotInserted? {
              dlq := dlq[id := claimed[id]];
              if !moves(id).NotDeleted? {
                docs := docs - {id};
              }
            }
          } else {
            requeue := requeue + {id};
          }
          done := done + {id};
        }
      }
      assert done == won;
    }

    /** Nothing is left behind a lapsed lease; every other document, and the rest of those, is as it was. */
    method Reap(now: Time)
      modifies this
      ensures dlq == old(dlq) && docs.Keys == old(docs).Keys
      ensures forall id :: id in docs ==>
                && !(docs[id].status == Claimed && docs[id].visibleAt <= now)
                && docs[id].(status := old(docs)[id].status) == old(docs)[id]
      ensures forall id :: id in docs && docs[id] != old(docs)[id] ==>
                old(docs)[id].status == Claimed && old(docs)[id].visibleAt <= now && docs[id].status == Pending
    {
      docs := map id | id in docs :: if Lapsed(docs[id], now) then Reaped(docs[id]) else docs[id];
    }

    method HoldDeliveries(source: string) returns (held: nat)
      modifies this
      ensures dlq == old(dlq)
      ensures docs == if source == "" then old(docs) else HoldAll(old(docs), source)
      ensures source != "" ==> docs.Keys == old(docs).Keys && forall id :: id in docs ==>
                docs[id] == if old(docs)[id].sourceErn == source && old(docs)[id].status == Pending
                            then old(docs)[id].(status := Held, heldBy := Some(source), expiresAt := None)
                            else old(docs)[id]
      ensures held == |HeldBy(docs, source) - HeldBy(old(docs), source)|
      ensures source != "" ==>
                held == |set id | id in old(docs) && old(docs)[id].sourceErn == source
                                  && old(docs)[id].status == Pending|
    {
      if source == "" {
        return 0;
      }
      var waiting := set id | id in docs && docs[id].sourceErn == source && docs[id].status == Pending;
      NewlyHeld(docs, source);
      HoldMeans(docs, source);
      hide HoldAll, HeldBy;
      docs := HoldAll(docs, source);
      return |waiting|;
    }

    method CountHeld(source: string) returns (count: nat)
      ensures count == if source == "" then 0
                       else |set id | id in docs && docs[id].status == Held && docs[id].heldBy == Some(source)|
    {
      if source == "" {
        return 0;
      }
      HeldMeans(docs, source);
      return |HeldBy(docs, source)|;
    }

    /**
     * Releases page by page: as many as were held, each pending again for its own kind's retention, no other
     * document touched, and nothing held for the source any more.
     */
    method ReleaseHeld(source: string, now: Time) returns (released: nat, woken: set<string>)
      modifies this
      ensures dlq == old(dlq)
      ensures source == "" ==> docs == old(docs) && released == 0 && woken == {}
      ensures source != "" ==>
          docs == ReleaseAll(old(docs), HeldBy(old(docs), source), now) && HeldBy(docs, source) == {}
      ensures source != "" ==> docs.Keys == old(docs).Keys && forall id :: id in docs ==>
                var d := old(docs)[id];
                if d.status == Held && d.heldBy == Some(source) then
                  && docs[id].status == Pending && docs[id].visibleAt == now && docs[id].heldBy == None
                  && docs[id].expiresAt == Some(now + if "client:" <= d.target then 604800 else 2592000)
                  && docs[id].(status := Held, visibleAt := d.visibleAt, heldBy := d.heldBy, expiresAt := d.expiresAt)
                     == d
                else docs[id] == d
      ensures source != "" ==>
          released == |HeldBy(old(docs), source)| && woken == ExternalTargets(old(docs), HeldBy(old(docs), source))
      ensures source != "" ==>
          && released == |set id | id in old(docs) && old(docs)[id].status == Held
                                   && old(docs)[id].heldBy == Some(source)|
          && forall t :: t in woken <==>
               "client:" <= t && exists id ::
                 id in old(docs) && old(docs)[id].target == t && old(docs)[id].status == Held
                 && old(docs)[id].heldBy == Some(source)
    {
      hide ReleaseAll, ExternalTargets, HeldBy;
      released, woken := 0, {};
      if source == "" {
        return;
      }
      ghost var before := docs;
      ghost var all := HeldBy(before, source);
      ghost var done: set<Id> := {};
      ReleaseNone(before, now);
      StillHeld(before, done, source, now);
      while true
        invariant done <= all && docs == ReleaseAll(before, done, now) && dlq == old(dlq)
        invariant released == |done| && woken == ExternalTargets(before, done)
        invariant HeldBy(docs, source) == all - done && all <= docs.Keys
        decreases all - done
      {
        var page := FindSome(HeldBy(docs, source), PAGE);
        if page == {} {
          break;
        }
        ReleaseAPage(before, done, page, source, now);
        var updated, targets := UpdateEach(page, now);
        released := released + updated;
        woken := woken + targets;
        done := done + page;
        StillHeld(before, done, source, now);
        if |page| < PAGE {
          break;
        }
      }
      assert done == all;
      ReleasedMeans(before, source, now);
      HeldMeans(before, source);
    }

    /** One update per document of the page. */
    method UpdateEach(page: set<Id>, now: Time) returns (updated: nat, targets: set<string>)
      requires page <= docs.Keys
      modifies this
      ensures docs == ReleaseAll(old(docs), page, now) && dlq == old(dlq)
      ensures updated == |page| && targets == ExternalTargets(old(docs), page)
    {
      hide ReleaseAll, ExternalTargets, External, Release;
      updated, targets := 0, {};
      ghost var before := docs;
      ghost var done: set<Id> := {};
      var rest := page;
      ReleaseNone(before, now);
      while rest != {}
        invariant done + rest == page && done !! rest && docs == ReleaseAll(before, done, now) && dlq == old(dlq)
        invariant updated == |done| && targets == ExternalTargets(before, done)
        decreases rest
      {
        var id :| id in rest;
        ReleaseOneMore(before, done, id, now);
        if External(docs[id].target) {
          targets := targets + {docs[id].target};
        }
        docs := docs[id := Release(docs[id], now)];
        rest := rest - {id};
        done := done + {id};
        updated := updated + 1;
      }
      assert done == page;
    }
  }
}
