/**
 * Delivery as a protocol: any number of instances and clients polling, settling, crashing, reaping, holding and
 * releasing, interleaved in any way. A database call that touches several documents touches them one at a time,
 * so a step changes at most one document. A pass is identified by its fresh claim token.
 */
module DeliveryProtocol {
  import opened Outcome
  import opened Deliveries

  datatype Phase = Claiming | Reading | Handling | Deleting | Requeueing

  /** The move of one delivery to the DLQ: asked for, or inserted there and not yet deleted here. */
  datatype DlqMove = NoMove | Asked(id: Id) | Inserted(id: Id)

  /**
   * One pass of a poll, or one call of ClaimEvents() and the client's dealing with its answer. `start` is the clock
   * it read first, `until` the lease it claims for, `left` what its present call or loop has yet to visit.
   */
  datatype Batch = Batch(
    target: string,
    start: Time,
    until: Time,
    candidates: set<Id>,
    phase: Phase,
    left: set<Id>,
    won: set<Id>,
    read: map<Id, Doc>,
    acked: set<Id>,
    requeue: set<Id>,
    move: DlqMove)

  /** A ReleaseHeld() under way: `page` is what it has read as held and not yet updated. */
  datatype Releasing = Releasing(source: string, now: Time, page: set<Id>)

  datatype State = State(
    now: Time,
    docs: Docs,
    dlq: set<Id>,
    batches: map<Token, Batch>,
    releases: map<nat, Releasing>,
    published: map<Id, string>,
    tokens: set<Token>)

  datatype HandlerResult = NoHandler | ReturnedTrue | Failed

  datatype Step =
    | Tick(delta: nat)
    | Publish(id: Id, target: string, sourceErn: string, targetErn: string, heldBy: string, at: Time)
    | Find(token: Token, target: string, start: Time, visibility: nat, candidates: set<Id>)
    | ClaimOne(token: Token, id: Id)
    | PassOver(token: Token, id: Id)
    | EndClaim(token: Token)
    | ReadOne(token: Token, id: Id)
    | EndRead(token: Token)
    | Handle(token: Token, id: Id, result: HandlerResult)
    | InsertInDlq(token: Token)
    | DeleteMoved(token: Token)
    | GiveUpMove(token: Token)
    | EndHandling(token: Token)
    | DeleteOne(token: Token, id: Id)
    | EndDelete(token: Token)
    | RequeueOne(token: Token, id: Id, at: Time)
    | EndRequeue(token: Token)
    | Drop(token: Token)
    | ReapOne(id: Id, at: Time)
    | HoldOne(id: Id, ern: string)
    | StartRelease(release: nat, source: string, at: Time)
    | SeeHeld(release: nat, id: Id)
    | ReleaseOne(release: nat, id: Id)
    | EndRelease(release: nat)
    | Discard(id: Id, targetErn: string)
    | Expire(id: Id)
    | Acknowledge(id: Id, target: string)
    | Unsubscribe(id: Id, target: string)

  /** The steps of a pass after its find. */
  predicate OfPass(step: Step) {
    || step.ClaimOne? || step.PassOver? || step.EndClaim? || step.ReadOne? || step.EndRead?
    || step.Handle? || step.InsertInDlq? || step.DeleteMoved? || step.GiveUpMove? || step.EndHandling?
    || step.DeleteOne? || step.EndDelete? || step.RequeueOne? || step.EndRequeue? || step.Drop?
  }

  predicate CanClaim(b: Batch, docs: Docs, id: Id) {
    id in docs && Claimable(docs[id], b.start)
  }

  /** When a pass can take a step. */
  predicate CanAdvance(b: Batch, docs: Docs, now: Time, step: Step) {
    match step
    case ClaimOne(_, id) => b.phase == Claiming && id in b.left && CanClaim(b, docs, id)
    case PassOver(_, id) => b.phase == Claiming && id in b.left && !CanClaim(b, docs, id)
    case EndClaim(_) => b.phase == Claiming && b.left == {}
    case ReadOne(_, id) => b.phase == Reading && id in b.left
    case EndRead(_) => b.phase == Reading && b.left == {}
    case Handle(_, id, _) =>
      b.phase == Handling && id in b.left && id in b.read && b.move.NoMove? && !External(b.target)
    case InsertInDlq(_) => b.phase == Handling && b.move.Asked?
    case DeleteMoved(_) => b.phase == Handling && b.move.Inserted?
    case GiveUpMove(_) => b.phase == Handling && !b.move.NoMove?
    case EndHandling(_) => b.phase == Handling && b.left == {} && b.move.NoMove?
    case DeleteOne(_, id) => b.phase == Deleting && id in b.left
    case EndDelete(_) => b.phase == Deleting && b.left == {}
    case RequeueOne(_, id, at) => b.phase == Requeueing && id in b.left && at <= now
    case EndRequeue(_) => b.phase == Requeueing && b.left == {}
    case Drop(_) => true
    case _ => false
  }

  predicate Enabled(s: State, step: Step) {
    match step
    case Tick(_) => true
    case Publish(id, _, _, _, _, at) => id !in s.published && at <= s.now
    // Any deliveries for the target, in whatever state the find saw them: the claim asks again.
    case Find(token, target, start, _, candidates) =>
      token !in s.tokens && start <= s.now && 0 < |candidates| <= BATCH_SIZE
      && forall id :: id in candidates ==> id in s.published && s.published[id] == target
    case ReapOne(id, at) => id in s.docs && at <= s.now && Lapsed(s.docs[id], at)
    case HoldOne(id, ern) => id in s.docs && ern != "" && s.docs[id].sourceErn == ern && s.docs[id].status == Pending
    case StartRelease(release, source, at) => release !in s.releases && source != "" && at <= s.now
    case SeeHeld(release, id) =>
      release in s.releases && id in s.docs && HeldFor(s.docs[id], s.releases[release].source)
    case ReleaseOne(release, id) => release in s.releases && id in s.releases[release].page
    case EndRelease(release) => release in s.releases
    case Discard(id, targetErn) => id in s.docs && targetErn != "" && s.docs[id].targetErn == targetErn
    case Expire(id) => id in s.docs && s.docs[id].expiresAt.Some? && s.docs[id].expiresAt.value <= s.now
    case Acknowledge(id, target) => id in s.docs && External(target) && s.docs[id].target == target
    // Ephemeral subscriptions are purged like ones that are given up.
    case Unsubscribe(id, target) => id in s.docs && External(target) && s.docs[id].target == target
    case _ => step.token in s.batches && CanAdvance(s.batches[step.token], s.docs, s.now, step)
  }

  // ---------- what a step does to one document, one pass, one release ----------

  function DocAfter(s: State, step: Step): Docs
    requires Enabled(s, step)
  {
    match step
    case Publish(id, target, sourceErn, targetErn, heldBy, at) =>
      s.docs[id := Envelope(target, sourceErn, targetErn, heldBy, at)]
    case ClaimOne(token, id) => s.docs[id := Claim(s.docs[id], token, s.batches[token].until)]
    // Settling and releasing go by id alone, whatever has become of the document since.
    case DeleteMoved(token) => s.docs - {s.batches[token].move.id}
    case DeleteOne(_, id) => s.docs - {id}
    case RequeueOne(_, id, at) => if id in s.docs then s.docs[id := Requeue(s.docs[id], at)] else s.docs
    case ReleaseOne(release, id) =>
      if id in s.docs then s.docs[id := Release(s.docs[id], s.releases[release].now)] else s.docs
    case ReapOne(id, _) => s.docs[id := Reaped(s.docs[id])]
    case HoldOne(id, ern) => s.docs[id := Hold(s.docs[id], ern)]
    case Discard(id, _) => s.docs - {id}
    case Expire(id) => s.docs - {id}
    case Acknowledge(id, _) => s.docs - {id}
    case Unsubscribe(id, _) => s.docs - {id}
    case _ => s.docs
  }

  function Handled(b: Batch, id: Id, result: HandlerResult): Batch
    requires id in b.read
  {
    var b' := b.(left := b.left - {id});
    if !result.Failed? then b'.(acked := b.acked + {id})
    else if b.read[id].attempts >= MAX_ATTEMPTS then b'.(move := Asked(id))
    else b'.(requeue := b.requeue + {id})
  }

  function Reads(b: Batch, docs: Docs, token: Token, id: Id): Batch {
    var b' := b.(left := b.left - {id});
    if id in docs && docs[id].token == Some(token) then b'.(read := b.read[id := docs[id]]) else b'
  }

  /** What a step leaves of the pass that takes it, if it goes on. */
  function Advanced(b: Batch, docs: Docs, step: Step): Option<Batch>
    requires OfPass(step) && (step.Handle? ==> step.id in b.read) && (step.InsertInDlq? ==> b.move.Asked?)
  {
    match step
    case ClaimOne(_, id) => Some(b.(left := b.left - {id}, won := b.won + {id}))
    case EndClaim(_) => if b.won == {} then None else Some(b.(phase := Reading, left := b.candidates))
    case ReadOne(token, id) => Some(Reads(b, docs, token, id))
    case EndRead(_) => Some(b.(phase := Handling, left := b.read.Keys))
    case Handle(_, id, result) => Some(Handled(b, id, result))
    case InsertInDlq(_) => Some(b.(move := Inserted(b.move.id)))
    case DeleteMoved(_) => Some(b.(move := NoMove))
    case GiveUpMove(_) => Some(b.(move := NoMove))
    case EndHandling(_) => Some(b.(phase := Deleting, left := b.acked))
    case EndDelete(_) => Some(b.(phase := Requeueing, left := b.requeue))
    case EndRequeue(_) => None
    case Drop(_) => None
    // PassOver, DeleteOne, RequeueOne
    case _ => Some(b.(left := b.left - {step.id}))
  }

  function Found(step: Step): Batch
    requires step.Find?
  {
    Batch(step.target, step.start, step.start + step.visibility, step.candidates, Claiming, step.candidates, {},
          map[], {}, {}, NoMove)
  }

  function BatchesAfter(s: State, step: Step): map<Token, Batch>
    requires Enabled(s, step)
  {
    if step.Find? then s.batches[step.token := Found(step)]
    else if !OfPass(step) then s.batches
    else
      match Advanced(s.batches[step.token], s.docs, step)
      case None => s.batches - {step.token}
      case Some(b) => s.batches[step.token := b]
  }

  /** A pass is as it was unless it has just begun or has taken the step itself. */
  lemma BatchAfter(s: State, step: Step, t: Token)
    requires Enabled(s, step) && t in BatchesAfter(s, step)
    ensures var b := BatchesAfter(s, step)[t];
            || (step.Find? && step.token == t && t !in s.tokens && b == Found(step))
            || (OfPass(step) && step.token == t && t in s.batches && CanAdvance(s.batches[t], s.docs, s.now, step)
                && Advanced(s.batches[t], s.docs, step) == Some(b))
            || ((OfPass(step) || step.Find? ==> step.token != t) && t in s.batches && b == s.batches[t])
  {
    hide Advanced, Claimable, External, Found;
  }

  function ReleasesAfter(s: State, step: Step): map<nat, Releasing>
    requires Enabled(s, step)
  {
    var rs := s.releases;
    match step
    case StartRelease(release, source, at) => rs[release := Releasing(source, at, {})]
    case SeeHeld(release, id) => rs[release := rs[release].(page := rs[release].page + {id})]
    case ReleaseOne(release, id) => rs[release := rs[release].(page := rs[release].page - {id})]
    case EndRelease(release) => rs - {release}
    case _ => rs
  }

  function Do(s: State, step: Step): State
    requires Enabled(s, step)
  {
    State(
      if step.Tick? then s.now + step.delta else s.now,
      DocAfter(s, step),
      if step.InsertInDlq? then s.dlq + {s.batches[step.token].move.id} else s.dlq,
      BatchesAfter(s, step),
      ReleasesAfter(s, step),
      if step.Publish? then s.published[step.id := step.target] else s.published,
      if step.Find? then s.tokens + {step.token} else s.tokens)
  }

  // ---------- runs ----------

  function Initial(now: Time): State {
    State(now, map[], {}, map[], map[], map[], {})
  }

  /** The state a run leads to, if each of its steps could be taken. */
  function Run(now: Time, steps: seq<Step>): Option<State> {
    if steps == [] then Some(Initial(now))
    else
      var n := |steps| - 1;
      match Run(now, steps[..n])
      case None => None
      case Some(s) => if Enabled(s, steps[n]) then Some(Do(s, steps[n])) else None
  }

  // ---------- nothing is lost ----------

  /** A handler returned true for the delivery, or there was none for it. */
  ghost predicate Answered(steps: seq<Step>, id: Id) {
    exists k :: 0 <= k < |steps| && steps[k].Handle? && steps[k].id == id && !steps[k].result.Failed?
  }

  /** It was discarded with its addressee, or it expired. */
  ghost predicate Removed(steps: seq<Step>, id: Id) {
    exists k :: 0 <= k < |steps| && (steps[k].Discard? || steps[k].Expire?) && steps[k].id == id
  }

  /** Its external subscriber acknowledged it, or no longer subscribes. */
  ghost predicate LetGo(steps: seq<Step>, id: Id) {
    exists k :: 0 <= k < |steps| && (steps[k].Acknowledge? || steps[k].Unsubscribe?) && steps[k].id == id
  }

  ghost predicate Accounted(steps: seq<Step>, s: State, id: Id)
    requires id in s.published
  {
    Answered(steps, id) || Removed(steps, id) || id in s.dlq || (External(s.published[id]) && LetGo(steps, id))
  }

  /** Nothing has left the collection without cause, and nothing is about to. */
  ghost predicate NoLoss(steps: seq<Step>, s: State) {
    && (forall id :: id in s.docs ==> id in s.published && s.docs[id].target == s.published[id])
    && (forall id :: id in s.published && id !in s.docs ==> Accounted(steps, s, id))
    && (forall t :: t in s.batches ==> KeepsCause(steps, s.batches[t], s.dlq))
  }

  lemma Remembered(steps: seq<Step>, step: Step, id: Id)
    ensures Answered(steps, id) ==> Answered(steps + [step], id)
    ensures Removed(steps, id) ==> Removed(steps + [step], id)
    ensures LetGo(steps, id) ==> LetGo(steps + [step], id)
    ensures step.Handle? && step.id == id && !step.result.Failed? ==> Answered(steps + [step], id)
    ensures (step.Discard? || step.Expire?) && step.id == id ==> Removed(steps + [step], id)
    ensures (step.Acknowledge? || step.Unsubscribe?) && step.id == id ==> LetGo(steps + [step], id)
  {
    var all := steps + [step];
    assert all[|steps|] == step;
    assert forall k :: 0 <= k < |steps| ==> all[k] == steps[k];
  }

  /** A step removes a document only with cause. */
  lemma DocsKept(steps: seq<Step>, s: State, step: Step, id: Id)
    requires NoLoss(steps, s) && Enabled(s, step) && id in s.docs && id !in DocAfter(s, step)
    ensures Accounted(steps + [step], s, id)
  {
    hide Answered, Removed, LetGo, External;
    Remembered(steps, step, id);
  }

  ghost predicate KeepsCause(steps: seq<Step>, b: Batch, dlq: set<Id>) {
    && (forall id :: id in b.acked ==> Answered(steps, id))
    && (b.phase == Deleting ==> b.left <= b.acked)
    && (b.move.Inserted? ==> b.move.id in dlq)
  }

  lemma AdvanceKeepsCause(steps: seq<Step>, s: State, b: Batch, step: Step)
    requires OfPass(step) && CanAdvance(b, s.docs, s.now, step) && KeepsCause(steps, b, s.dlq)
    requires step.token in s.batches && s.batches[step.token] == b && Advanced(b, s.docs, step).Some?
    ensures KeepsCause(steps + [step], Advanced(b, s.docs, step).value, Do(s, step).dlq)
  {
    hide Answered, Claimable, DocAfter, BatchesAfter, ReleasesAfter, External;
    forall id
      ensures Answered(steps, id) || (step.Handle? && step.id == id && !step.result.Failed?) ==>
          Answered(steps + [step], id)
    {
      Remembered(steps, step, id);
    }
  }

  lemma BatchesKept(steps: seq<Step>, s: State, step: Step, t: Token)
    requires Enabled(s, step) && t in BatchesAfter(s, step)
    requires forall u :: u in s.batches ==> KeepsCause(steps, s.batches[u], s.dlq)
    ensures KeepsCause(steps + [step], BatchesAfter(s, step)[t], Do(s, step).dlq)
  {
    hide Answered, Claimable, DocAfter, BatchesAfter, ReleasesAfter, CanAdvance, Advanced;
    BatchAfter(s, step, t);
    if OfPass(step) && step.token == t {
      AdvanceKeepsCause(steps, s, s.batches[t], step);
    } else {
      forall id ensures Answered(steps, id) ==> Answered(steps + [step], id) { Remembered(steps, step, id); }
    }
  }

  /** What was published and for whom does not change, nor does a document's target. */
  lemma TargetsKept(s: State, step: Step)
    requires Enabled(s, step)
    requires forall id :: id in s.docs ==> id in s.published && s.docs[id].target == s.published[id]
    ensures forall id :: id in s.published ==>
        id in Do(s, step).published && Do(s, step).published[id] == s.published[id]
    ensures forall id :: id in Do(s, step).docs ==>
        id in Do(s, step).published && Do(s, step).docs[id].target == Do(s, step).published[id]
  {
    hide External, BatchesAfter;
  }

  /** Every step of every interleaving keeps it, whatever leases have lapsed. */
  lemma StepLosesNothing(steps: seq<Step>, s: State, step: Step)
    requires NoLoss(steps, s) && Enabled(s, step)
    ensures NoLoss(steps + [step], Do(s, step))
  {
    hide Answered, Removed, LetGo, External, Claimable, BatchesAfter;
    var s' := Do(s, step);
    TargetsKept(s, step);
    forall id | id in s'.published && id !in s'.docs ensures Accounted(steps + [step], s', id) {
      Remembered(steps, step, id);
      if id in s.docs { DocsKept(steps, s, step, id); }
    }
    forall t | t in s'.batches ensures KeepsCause(steps + [step], s'.batches[t], s'.dlq) {
      BatchesKept(steps, s, step, t);
    }
  }

  lemma {:induction false} RunLosesNothing(now: Time, steps: seq<Step>)
    requires Run(now, steps).Some?
    ensures NoLoss(steps, Run(now, steps).value)
  {
    if steps != [] {
      var n := |steps| - 1;
      hide Do, Enabled, NoLoss;
      RunLosesNothing(now, steps[..n]);
      StepLosesNothing(steps[..n], Run(now, steps[..n]).value, steps[n]);
      assert steps == steps[..n] + [steps[n]];
    }
  }

  /** A run publishes what its Publish steps say, each id at most once. */
  lemma {:induction false} PublishedBy(now: Time, steps: seq<Step>, k: nat)
    requires Run(now, steps).Some? && k < |steps| && steps[k].Publish?
    ensures steps[k].id in Run(now, steps).value.published
    ensures Run(now, steps).value.published[steps[k].id] == steps[k].target
  {
    hide DocAfter, BatchesAfter;
    var n := |steps| - 1;
    var before := Run(now, steps[..n]).value;
    if k < n {
      PublishedBy(now, steps[..n], k);
      assert steps[..n][k] == steps[k];
    }
  }

  /**
   * No loss. A module delivery that is no longer in the collection was answered by a handler (or had none), was
   * discarded with its addressee, has expired, or is in the DLQ - whatever crashed and whatever settled late.
   */
  lemma ModuleDeliveryIsNotLost(now: Time, steps: seq<Step>, k: nat)
    requires Run(now, steps).Some? && k < |steps| && steps[k].Publish? && !External(steps[k].target)
    ensures var s := Run(now, steps).value;
            steps[k].id in s.docs || Answered(steps, steps[k].id) || Removed(steps, steps[k].id) || steps[k].id in s.dlq
  {
    hide Answered, Removed, LetGo, External;
    RunLosesNothing(now, steps);
    PublishedBy(now, steps, k);
  }

  // ---------- attempts are claims ----------

  /** How often a run claims a delivery. */
  function Claims(steps: seq<Step>, id: Id): nat {
    if steps == [] then 0
    else
      var step := steps[|steps| - 1];
      Claims(steps[..|steps| - 1], id) + if step.ClaimOne? && step.id == id then 1 else 0
  }

  ghost predicate AttemptsAreClaims(steps: seq<Step>, s: State) {
    && (forall id :: id in s.docs ==> id in s.published && s.docs[id].attempts == Claims(steps, id))
    && (forall id :: id !in s.published ==> Claims(steps, id) == 0)
    && (forall t :: t in s.batches ==> CountsClaims(steps, s.batches[t]))
    && (forall id :: id in s.dlq ==> Claims(steps, id) >= MAX_ATTEMPTS)
  }

  lemma ClaimsAdd(steps: seq<Step>, step: Step, id: Id)
    ensures Claims(steps + [step], id) == Claims(steps, id) + (if step.ClaimOne? && step.id == id then 1 else 0)
  {
    assert (steps + [step])[..|steps|] == steps;
  }

  lemma DocAttempts(steps: seq<Step>, s: State, step: Step)
    requires AttemptsAreClaims(steps, s) && Enabled(s, step)
    ensures forall id :: id in Do(s, step).docs ==>
        id in Do(s, step).published && Do(s, step).docs[id].attempts == Claims(steps + [step], id)
  {
    hide Claims, External, BatchesAfter;
    forall id
      ensures Claims(steps + [step], id) == Claims(steps, id) + (if step.ClaimOne? && step.id == id then 1 else 0)
    {
      ClaimsAdd(steps, step, id);
    }
  }

  ghost predicate CountsClaims(steps: seq<Step>, b: Batch) {
    && (forall id :: id in b.read ==> b.read[id].attempts <= Claims(steps, id))
    && (!b.move.NoMove? ==> Claims(steps, b.move.id) >= MAX_ATTEMPTS)
  }

  lemma AdvanceCounts(steps: seq<Step>, b: Batch, docs: Docs, now: Time, step: Step)
    requires OfPass(step) && CanAdvance(b, docs, now, step) && Advanced(b, docs, step).Some? && CountsClaims(steps, b)
    requires forall id :: id in docs ==> docs[id].attempts == Claims(steps, id)
    ensures CountsClaims(steps, Advanced(b, docs, step).value)
  {
    hide Claims, Claimable, External;
  }

  lemma BatchAttempts(steps: seq<Step>, s: State, step: Step, t: Token)
    requires AttemptsAreClaims(steps, s) && Enabled(s, step) && t in BatchesAfter(s, step)
    ensures CountsClaims(steps, BatchesAfter(s, step)[t])
  {
    hide Claims, DocAfter, BatchesAfter, CanAdvance, Advanced;
    BatchAfter(s, step, t);
    if OfPass(step) && step.token == t { AdvanceCounts(steps, s.batches[t], s.docs, s.now, step); }
  }

  lemma StepCountsAttempts(steps: seq<Step>, s: State, step: Step)
    requires AttemptsAreClaims(steps, s) && Enabled(s, step)
    ensures AttemptsAreClaims(steps + [step], Do(s, step))
  {
    hide Claims, External, Claimable, BatchesAfter, DocAfter;
    DocAttempts(steps, s, step);
    forall id
      ensures Claims(steps + [step], id) == Claims(steps, id) + (if step.ClaimOne? && step.id == id then 1 else 0)
    {
      ClaimsAdd(steps, step, id);
    }
    forall t | t in Do(s, step).batches ensures CountsClaims(steps + [step], Do(s, step).batches[t]) {
      BatchAttempts(steps, s, step, t);
    }
  }

  /** In every run a delivery's attempts are the claims made of it, and what is in the DLQ had its five. */
  lemma {:induction false} RunCountsAttempts(now: Time, steps: seq<Step>)
    requires Run(now, steps).Some?
    ensures AttemptsAreClaims(steps, Run(now, steps).value)
  {
    if steps != [] {
      var n := |steps| - 1;
      hide Do, Enabled, AttemptsAreClaims;
      RunCountsAttempts(now, steps[..n]);
      StepCountsAttempts(steps[..n], Run(now, steps[..n]).value, steps[n]);
      assert steps == steps[..n] + [steps[n]];
    }
  }

  /** What is in the DLQ was claimed five times. */
  lemma FiveBeforeDlq(now: Time, steps: seq<Step>, id: Id)
    requires Run(now, steps).Some?
    ensures id in Run(now, steps).value.dlq ==> Claims(steps, id) >= 5
    ensures id in Run(now, steps).value.docs ==> Run(now, steps).value.docs[id].attempts == Claims(steps, id)
  {
    RunCountsAttempts(now, steps);
    hide Run, Claims;
  }
}
