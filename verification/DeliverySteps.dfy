/**
 * The steps of the delivery protocol one by one, in the fields they ask for and set: when a document can be claimed,
 * reaped, held or released and what it is then, and what a pass does with what it has read.
 */
module DeliverySteps {
  import opened Outcome
  import opened Deliveries
  import opened DeliveryProtocol

  /** A claim takes what is pending, and for an external target what was claimed and has lapsed when the pass began. */
  lemma ClaimMeans(s: State, token: Token, id: Id)
    ensures Enabled(s, ClaimOne(token, id)) <==>
              && token in s.batches && s.batches[token].phase == Claiming && id in s.batches[token].left && id in s.docs
              && var d := s.docs[id];
                 || d.status == Pending
                 || ("client:" <= d.target && d.status == Claimed && d.visibleAt <= s.batches[token].start)
    ensures Enabled(s, ClaimOne(token, id)) ==>
              var d, b, s' := s.docs[id], s.batches[token], Do(s, ClaimOne(token, id));
              && s'.docs == s.docs[id := d.(status := Claimed, token := Some(token), visibleAt := b.until,
                                            attempts := d.attempts + 1)]
              && s'.batches == s.batches[token := b.(left := b.left - {id}, won := b.won + {id})]
  {
  }

  /** A poll claims for as long as it says, from when it began, at most 200 at a time, under a token of its own. */
  lemma FindMeans(s: State, token: Token, target: string, start: Time, visibility: nat, candidates: set<Id>)
    ensures Enabled(s, Find(token, target, start, visibility, candidates)) <==>
              && token !in s.tokens && start <= s.now && 1 <= |candidates| <= 200
              && forall id :: id in candidates ==> id in s.published && s.published[id] == target
    ensures Enabled(s, Find(token, target, start, visibility, candidates)) ==>
            var s' := Do(s, Find(token, target, start, visibility, candidates));
            && token in s'.tokens && token in s'.batches && s'.docs == s.docs
            && s'.batches[token].phase == Claiming && s'.batches[token].left == candidates
            && s'.batches[token].start == start && s'.batches[token].until == start + visibility
            && s'.batches[token].won == {}
  {
    hide External;
  }

  /** Nothing won ends the pass; otherwise the candidates are read back, those with the token are handed out. */
  lemma ReadBackMeans(s: State, token: Token, id: Id)
    ensures Enabled(s, EndClaim(token)) ==>
              var b, s' := s.batches[token], Do(s, EndClaim(token));
              && b.left == {} && s'.docs == s.docs
              && (token in s'.batches <==> b.won != {})
              && (b.won != {} ==> s'.batches[token] == b.(phase := Reading, left := b.candidates))
    ensures Enabled(s, ReadOne(token, id)) ==>
              var b, b' := s.batches[token], Do(s, ReadOne(token, id)).batches[token];
              && b'.left == b.left - {id}
              && b'.read == if id in s.docs && s.docs[id].token == Some(token) then b.read[id := s.docs[id]] else b.read
    ensures Enabled(s, EndRead(token)) ==>
              var b := s.batches[token];
              Do(s, EndRead(token)).batches[token] == b.(phase := Handling, left := b.read.Keys)
  {
    hide External, Claimable;
  }

  /** An answer is acknowledged; a failure is put back, or moved to the DLQ from the fifth attempt on. */
  lemma HandleMeans(s: State, token: Token, id: Id, result: HandlerResult)
    requires Enabled(s, Handle(token, id, result))
    ensures var b, b' := s.batches[token], Do(s, Handle(token, id, result)).batches[token];
            && Do(s, Handle(token, id, result)).docs == s.docs && id in b.read && b'.left == b.left - {id}
            && b'.acked == (if result.Failed? then b.acked else b.acked + {id})
            && b'.requeue == (if result.Failed? && b.read[id].attempts < 5 then b.requeue + {id} else b.requeue)
            && b'.move == (if result.Failed? && b.read[id].attempts >= 5 then Asked(id) else b.move)
  {
    hide External, Claimable;
  }

  /** A move is an insert and then a delete. */
  lemma MoveMeans(s: State, token: Token)
    ensures Enabled(s, InsertInDlq(token)) ==>
              var s' := Do(s, InsertInDlq(token));
              && s.batches[token].move.Asked? && s'.dlq == s.dlq + {s.batches[token].move.id} && s'.docs == s.docs
              && s'.batches[token].move == Inserted(s.batches[token].move.id)
    ensures Enabled(s, DeleteMoved(token)) ==>
              var s' := Do(s, DeleteMoved(token));
              && s.batches[token].move.Inserted? && s'.docs == s.docs - {s.batches[token].move.id} && s'.dlq == s.dlq
              && s'.batches[token].move == NoMove
  {
    hide External, Claimable;
  }

  /** A move that fails, before its insert or behind it, leaves the document claimed; so does a pass that is lost. */
  lemma FailMeans(s: State, token: Token)
    ensures Enabled(s, GiveUpMove(token)) ==>
              var b, s' := s.batches[token], Do(s, GiveUpMove(token));
              s'.docs == s.docs && s'.dlq == s.dlq && s'.batches == s.batches[token := b.(move := NoMove)]
    ensures token in s.batches ==>
              && Enabled(s, Drop(token)) && Do(s, Drop(token)).docs == s.docs && Do(s, Drop(token)).dlq == s.dlq
              && Do(s, Drop(token)).batches == s.batches - {token}
  {
    hide External, Claimable;
  }

  /** Settling deletes what was acknowledged, one by one, and nothing else. */
  lemma DeleteMeans(s: State, token: Token, id: Id)
    ensures Enabled(s, EndHandling(token)) ==>
              var b := s.batches[token];
              b.left == {} && Do(s, EndHandling(token)).batches[token] == b.(phase := Deleting, left := b.acked)
    ensures Enabled(s, DeleteOne(token, id)) ==>
              && Do(s, DeleteOne(token, id)).docs == s.docs - {id}
              && Do(s, DeleteOne(token, id)).batches[token].left == s.batches[token].left - {id}
  {
    hide External, Claimable;
  }

  /** Then it puts back what is to be tried again, and the pass is over. */
  lemma RequeueMeans(s: State, token: Token, id: Id, at: Time)
    ensures Enabled(s, EndDelete(token)) ==>
              var b := s.batches[token];
              b.left == {} && Do(s, EndDelete(token)).batches[token] == b.(phase := Requeueing, left := b.requeue)
    ensures Enabled(s, RequeueOne(token, id, at)) && id in s.docs ==>
              Do(s, RequeueOne(token, id, at)).docs == s.docs[id := s.docs[id].(status := Pending, visibleAt := at)]
    ensures Enabled(s, EndRequeue(token)) ==> s.batches[token].left == {} && token !in Do(s, EndRequeue(token)).batches
  {
    hide External, Claimable;
  }

  /** The reaper takes what is claimed and lapsed when it looked. */
  lemma ReapMeans(s: State, id: Id, at: Time)
    requires id in s.docs
    ensures Enabled(s, ReapOne(id, at)) <==> at <= s.now && s.docs[id].status == Claimed && s.docs[id].visibleAt <= at
    ensures Enabled(s, ReapOne(id, at)) ==> Do(s, ReapOne(id, at)).docs == s.docs[id := s.docs[id].(status := Pending)]
  {
    hide External;
  }

  /** Holding takes what is pending of the source. */
  lemma HoldMeans(s: State, id: Id, ern: string)
    requires id in s.docs
    ensures Enabled(s, HoldOne(id, ern)) <==> ern != "" && s.docs[id].sourceErn == ern && s.docs[id].status == Pending
    ensures Enabled(s, HoldOne(id, ern)) ==>
              Do(s, HoldOne(id, ern)).docs
              == s.docs[id := s.docs[id].(status := Held, heldBy := Some(ern), expiresAt := None)]
  {
    hide External;
  }

  /** What else deletes a document: its target is gone, its time is up, or its subscriber has answered or left. */
  lemma RemoveMeans(s: State, id: Id, target: string)
    requires id in s.docs
    ensures Enabled(s, Discard(id, target)) <==> target != "" && s.docs[id].targetErn == target
    ensures Enabled(s, Expire(id)) <==> s.docs[id].expiresAt.Some? && s.docs[id].expiresAt.value <= s.now
    ensures Enabled(s, Acknowledge(id, target)) <==> "client:" <= target && s.docs[id].target == target
    ensures Enabled(s, Unsubscribe(id, target)) <==> "client:" <= target && s.docs[id].target == target
  {
    hide External, CanAdvance;
    ClientMeans(target);
  }

  lemma ClientMeans(target: string)
    ensures External(target) <==> "client:" <= target
  {
  }

  lemma RemoveDeletes(s: State, step: Step)
    requires step.Discard? || step.Expire? || step.Acknowledge? || step.Unsubscribe?
    requires Enabled(s, step)
    ensures Do(s, step).docs == s.docs - {step.id}
  {
    hide External, CanAdvance;
  }

  /** Releasing sees what the source holds, and gives it back its kind's days. */
  lemma ReleaseStepMeans(s: State, id: Id, release: nat)
    requires id in s.docs
    ensures Enabled(s, SeeHeld(release, id)) <==>
              && release in s.releases && s.docs[id].status == Held
              && s.docs[id].heldBy == Some(s.releases[release].source)
    ensures Enabled(s, ReleaseOne(release, id)) ==>
              var d, now := s.docs[id], s.releases[release].now;
              Do(s, ReleaseOne(release, id)).docs
              == s.docs[id := d.(status := Pending, visibleAt := now, heldBy := None,
                                 expiresAt := Some(now + if "client:" <= d.target then 604800 else 2592000))]
  {
    hide Release, External;
    if release in s.releases { ReleaseMeans(s.docs[id], s.releases[release].now); }
  }
}
