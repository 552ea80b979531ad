/**
 * No delivery is in two passes' hands, and held is a state of its own. Both rest on two hypotheses about the run:
 * passes settle inside their lease, and releases of one source do not overlap. The last two lemmas show what a late
 * pass and what overlapping releases lead to.
 */
module DeliveryExclusion {
  import opened Outcome
  import opened Deliveries
  import opened DeliveryProtocol

  /** What a pass has claimed, or read back, and neither settled nor moved. */
  function Hand(b: Batch): set<Id> {
    match b.phase
    case Claiming => b.won
    case Reading => b.won
    case Handling => b.left + b.acked + b.requeue + (if b.move.NoMove? then {} else {b.move.id})
    case Deleting => b.left + b.requeue
    case Requeueing => b.left
  }

  /** Whoever has anything in hand is inside its lease. */
  ghost predicate Timely(s: State) {
    forall t :: t in s.batches && Hand(s.batches[t]) != {} ==> s.now < s.batches[t].until
  }

  ghost predicate ReleasesApart(s: State) {
    forall r, q :: r in s.releases && q in s.releases && s.releases[r].source == s.releases[q].source ==> r == q
  }

  // ---------- the invariant ----------

  /** A document in a pass's hand is claimed with its token, until its lease ends. */
  predicate InHand(d: Doc, token: Token, until: Time) {
    d.status == Claimed && d.token == Some(token) && d.visibleAt == until
  }

  ghost predicate HandsHold(s: State) {
    forall t, id :: t in s.batches && id in Hand(s.batches[t]) && id in s.docs ==>
      InHand(s.docs[id], t, s.batches[t].until)
  }

  ghost predicate HandsApart(s: State) {
    forall t, u, id :: t in s.batches && u in s.batches && id in Hand(s.batches[t]) && id in Hand(s.batches[u]) ==>
      t == u
  }

  /** Nothing is settled before it is read back, and what is read back was won. */
  predicate Formed(b: Batch) {
    && b.read.Keys <= b.won
    && (b.phase == Claiming || b.phase == Reading ==> b.acked == {} && b.requeue == {} && b.move.NoMove?)
  }

  /** A pass is formed so, and a document with a pass's token was won by it. */
  ghost predicate TokensTell(s: State) {
    && (forall t :: t in s.batches ==> t in s.tokens && Formed(s.batches[t]) && s.batches[t].start <= s.now)
    && (forall id :: id in s.docs && s.docs[id].token.Some? ==>
          s.docs[id].token.value in s.tokens
          && (s.docs[id].token.value in s.batches ==> id in s.batches[s.docs[id].token.value].won))
  }

  ghost predicate Known(s: State) {
    && (forall id :: id in s.docs ==> id in s.published)
    && (forall t, id :: t in s.batches && id in Hand(s.batches[t]) ==> id in s.published)
    && (forall r, id :: r in s.releases && id in s.releases[r].page ==> id in s.published)
  }

  ghost predicate Holding(s: State) {
    && (forall id :: id in s.docs ==> HoldingIsConsistent(s.docs[id]))
    && (forall r, id :: r in s.releases && id in s.releases[r].page && id in s.docs ==>
          HeldFor(s.docs[id], s.releases[r].source))
  }

  ghost predicate Inv(s: State) {
    HandsHold(s) && HandsApart(s) && TokensTell(s) && Known(s) && Holding(s)
  }

  // ---------- every step keeps it ----------

  /** A pass goes on formed as it was, and its hand grows only by a claim. */
  lemma AdvanceForms(b: Batch, docs: Docs, now: Time, step: Step, b': Batch)
    requires OfPass(step) && CanAdvance(b, docs, now, step) && Advanced(b, docs, step) == Some(b') && Formed(b)
    requires step.ReadOne? && step.id in docs && docs[step.id].token == Some(step.token) ==> step.id in b.won
    ensures Formed(b') && b'.start == b.start && b'.until == b.until && b.won <= b'.won
    ensures step.ClaimOne? ==> step.id in b'.won
  {
    hide Claimable, External;
  }

  lemma HandAdvances(b: Batch, docs: Docs, now: Time, step: Step, b': Batch)
    requires OfPass(step) && CanAdvance(b, docs, now, step) && Advanced(b, docs, step) == Some(b') && Formed(b)
    ensures step.ClaimOne? ==> Hand(b') == Hand(b) + {step.id}
    ensures !step.ClaimOne? ==> Hand(b') <= Hand(b)
    ensures step.RequeueOne? ==> Hand(b') == Hand(b) - {step.id}
  {
    hide Claimable, External;
  }

  lemma HandAfter(s: State, step: Step, t: Token)
    requires TokensTell(s) && Enabled(s, step) && t in BatchesAfter(s, step)
    ensures t in s.batches ==> BatchesAfter(s, step)[t].until == s.batches[t].until
    ensures step.ClaimOne? && step.token == t ==>
        t in s.batches && Hand(BatchesAfter(s, step)[t]) == Hand(s.batches[t]) + {step.id}
    ensures !(step.ClaimOne? && step.token == t) ==>
              Hand(BatchesAfter(s, step)[t]) <= if t in s.batches then Hand(s.batches[t]) else {}
    ensures step.RequeueOne? && step.token == t ==>
        t in s.batches && Hand(BatchesAfter(s, step)[t]) == Hand(s.batches[t]) - {step.id}
  {
    hide DocAfter, BatchesAfter, CanAdvance, Advanced, Formed;
    BatchAfter(s, step, t);
    var b := BatchesAfter(s, step)[t];
    if OfPass(step) && step.token == t {
      hide Hand;
      AdvanceForms(s.batches[t], s.docs, s.now, step, b);
      HandAdvances(s.batches[t], s.docs, s.now, step, b);
    }
  }

  lemma FormedAfter(s: State, step: Step, t: Token)
    requires TokensTell(s) && Enabled(s, step) && t in BatchesAfter(s, step)
    ensures t in Do(s, step).tokens && Formed(BatchesAfter(s, step)[t])
    ensures BatchesAfter(s, step)[t].start <= Do(s, step).now
    ensures t in s.batches ==> BatchesAfter(s, step)[t].won >= s.batches[t].won
    ensures t !in s.batches ==> step.Find? && step.token == t
    ensures step.ClaimOne? && step.token == t ==> step.id in BatchesAfter(s, step)[t].won
  {
    hide DocAfter, BatchesAfter, ReleasesAfter, CanAdvance, Advanced;
    BatchAfter(s, step, t);
    if OfPass(step) && step.token == t {
      hide Formed;
      AdvanceForms(s.batches[t], s.docs, s.now, step, BatchesAfter(s, step)[t]);
    }
  }

  /** A step that changes a document names it; all others are as they were. */
  predicate Touches(step: Step, id: Id) {
    (step.Publish? || step.ClaimOne? || step.RequeueOne? || step.ReleaseOne? || step.ReapOne? || step.HoldOne?)
      && step.id == id
  }

  lemma DocKept(s: State, step: Step, id: Id)
    requires Enabled(s, step) && id in DocAfter(s, step) && !Touches(step, id)
    ensures id in s.docs && DocAfter(s, step)[id] == s.docs[id]
  {
    hide Claimable;
  }

  lemma TokenAfter(s: State, step: Step, id: Id)
    requires Enabled(s, step) && id in DocAfter(s, step) && DocAfter(s, step)[id].token.Some?
    ensures (step.ClaimOne? && step.id == id && DocAfter(s, step)[id].token.value == step.token)
            || (id in s.docs && s.docs[id].token == DocAfter(s, step)[id].token)
  {
    hide Claimable, BatchesAfter;
  }

  lemma TokensTellAfter(s: State, step: Step)
    requires TokensTell(s) && Enabled(s, step)
    ensures TokensTell(Do(s, step))
  {
    hide Claimable, DocAfter, BatchesAfter, Formed;
    var s' := Do(s, step);
    forall t | t in s'.batches
      ensures t in s'.tokens && Formed(s'.batches[t]) && s'.batches[t].start <= s'.now
    {
      FormedAfter(s, step, t);
    }
    forall id | id in s'.docs && s'.docs[id].token.Some?
      ensures var t := s'.docs[id].token.value; t in s'.tokens && (t in s'.batches ==> id in s'.batches[t].won)
    {
      TokenAfter(s, step, id);
      var t := s'.docs[id].token.value;
      if t in s'.batches { FormedAfter(s, step, t); }
    }
  }

  /** What is in somebody's hand cannot be claimed, reaped or released while hands are timely. */
  lemma OutOfReach(s: State, t: Token, id: Id, at: Time)
    requires HandsHold(s) && Timely(s) && t in s.batches && id in Hand(s.batches[t]) && id in s.docs && at <= s.now
    ensures s.docs[id].status == Claimed && !Claimable(s.docs[id], at) && !Lapsed(s.docs[id], at)
  {
  }

  /** So a document in hand is changed only by its own pass putting it back. */
  lemma OnlyOwnRequeue(s: State, step: Step, t: Token, id: Id)
    requires Inv(s) && Timely(s) && Enabled(s, step)
    requires t in s.batches && id in Hand(s.batches[t]) && id in s.docs && Touches(step, id)
    ensures step.RequeueOne? && step.token == t
  {
    hide Claimable, Lapsed, HoldingIsConsistent, Hand, Timely, HandsHold, Formed;
    OutOfReach(s, t, id, s.now);
    match step
    case ClaimOne(u, _) => OutOfReach(s, t, id, s.batches[u].start);
    case ReapOne(_, at) => OutOfReach(s, t, id, at);
    case RequeueOne(_, _, _) => RequeuedFromHand(s, step);
    case _ =>
  }

  lemma RequeuedFromHand(s: State, step: Step)
    requires Enabled(s, step) && step.RequeueOne?
    ensures step.token in s.batches && step.id in Hand(s.batches[step.token])
  {
  }

  lemma HandsHoldAfter(s: State, step: Step, t: Token, id: Id)
    requires Inv(s) && Timely(s) && Enabled(s, step)
    requires var s' := Do(s, step); t in s'.batches && id in Hand(s'.batches[t]) && id in s'.docs
    ensures InHand(Do(s, step).docs[id], t, Do(s, step).batches[t].until)
  {
    hide DocAfter, BatchesAfter, Hand, Claimable, Lapsed, HoldingIsConsistent;
    HandAfter(s, step, t);
    if !Touches(step, id) {
      DocKept(s, step, id);
    } else if step.ClaimOne? && step.token == t {
      ClaimedDoc(s, step);
    } else {
      KnownStays(s, step, id);
      OnlyOwnRequeue(s, step, t, id);
    }
  }

  lemma ClaimedDoc(s: State, step: Step)
    requires Enabled(s, step) && step.ClaimOne?
    ensures step.id in DocAfter(s, step) && InHand(DocAfter(s, step)[step.id], step.token, s.batches[step.token].until)
  {
    hide Claimable;
  }

  /** A document that was published before and is there now was there before. */
  lemma KnownStays(s: State, step: Step, id: Id)
    requires Enabled(s, step) && id in s.published && id in DocAfter(s, step)
    ensures id in s.docs
  {
    hide Claimable;
  }

  lemma HandsApartAfter(s: State, step: Step, t: Token, u: Token, id: Id)
    requires Inv(s) && Timely(s) && Enabled(s, step)
    requires var s' := Do(s, step);
             t in s'.batches && u in s'.batches && id in Hand(s'.batches[t]) && id in Hand(s'.batches[u])
    ensures t == u
  {
    hide DocAfter, BatchesAfter, Hand, Claimable, Lapsed, HoldingIsConsistent;
    HandAfter(s, step, t);
    HandAfter(s, step, u);
    if step.ClaimOne? && step.id == id && t != u {
      OnlyOwnRequeue(s, step, if step.token == t then u else t, id);
    }
  }

  lemma PageAfter(s: State, step: Step, r: nat)
    requires Enabled(s, step) && r in ReleasesAfter(s, step)
    ensures r in s.releases ==> ReleasesAfter(s, step)[r].source == s.releases[r].source
    ensures step.SeeHeld? && step.release == r ==>
        r in s.releases && ReleasesAfter(s, step)[r].page == s.releases[r].page + {step.id}
    ensures step.ReleaseOne? && step.release == r ==>
        r in s.releases && ReleasesAfter(s, step)[r].page == s.releases[r].page - {step.id}
    ensures !(step.SeeHeld? && step.release == r) ==>
        ReleasesAfter(s, step)[r].page <= if r in s.releases then s.releases[r].page else {}
  {
    hide DocAfter, BatchesAfter, Claimable;
  }

  lemma KnownAfter(s: State, step: Step)
    requires Known(s) && TokensTell(s) && Enabled(s, step)
    ensures Known(Do(s, step))
  {
    hide DocAfter, BatchesAfter, ReleasesAfter, Hand, Claimable, TokensTell;
    var s' := Do(s, step);
    forall id | id in s'.docs ensures id in s'.published {
      if !Touches(step, id) { DocKept(s, step, id); } else { TouchedIsKnown(s, step, id); }
    }
    forall t, id | t in s'.batches && id in Hand(s'.batches[t]) ensures id in s'.published { HandAfter(s, step, t); }
    forall r, id | r in s'.releases && id in s'.releases[r].page ensures id in s'.published { PageAfter(s, step, r); }
  }

  lemma TouchedIsKnown(s: State, step: Step, id: Id)
    requires Known(s) && Enabled(s, step) && Touches(step, id) && id in DocAfter(s, step)
    ensures id in Do(s, step).published
  {
    hide BatchesAfter, ReleasesAfter, Claimable;
  }

  lemma ConsistentAfter(s: State, step: Step, id: Id)
    requires Inv(s) && Enabled(s, step) && id in DocAfter(s, step)
    ensures HoldingIsConsistent(DocAfter(s, step)[id])
  {
    hide BatchesAfter, ReleasesAfter, Hand, HandsApart, TokensTell, Known;
    if !Touches(step, id) {
      DocKept(s, step, id);
    } else if step.RequeueOne? {
      RequeuedFromHand(s, step);
    }
  }

  /** A document on a release's page is changed only by that release. */
  lemma OnlyOwnRelease(s: State, step: Step, r: nat, id: Id)
    requires Inv(s) && ReleasesApart(s) && Enabled(s, step)
    requires r in s.releases && id in s.releases[r].page && id in s.docs && Touches(step, id)
    ensures step.ReleaseOne? && step.release == r
  {
    hide HoldingIsConsistent, Hand, HandsApart, TokensTell;
    if step.RequeueOne? { RequeuedFromHand(s, step); }
  }

  lemma PagesHeldAfter(s: State, step: Step, r: nat, id: Id)
    requires Inv(s) && ReleasesApart(s) && Enabled(s, step)
    requires var s' := Do(s, step); r in s'.releases && id in s'.releases[r].page && id in s'.docs
    ensures HeldFor(Do(s, step).docs[id], Do(s, step).releases[r].source)
  {
    hide DocAfter, BatchesAfter, ReleasesAfter, Hand, HandsHold, HandsApart, TokensTell, HoldingIsConsistent;
    PageAfter(s, step, r);
    if !Touches(step, id) {
      DocKept(s, step, id);
    } else {
      KnownStays(s, step, id);
      OnlyOwnRelease(s, step, r, id);
    }
  }

  /** Every step keeps the invariant from a state in which hands are timely and releases apart. */
  lemma StepKeepsInv(s: State, step: Step)
    requires Inv(s) && Timely(s) && ReleasesApart(s) && Enabled(s, step)
    ensures Inv(Do(s, step))
  {
    hide DocAfter, BatchesAfter, ReleasesAfter, Hand, HoldingIsConsistent, TokensTell, Known;
    var s' := Do(s, step);
    TokensTellAfter(s, step);
    KnownAfter(s, step);
    forall t, id | t in s'.batches && id in Hand(s'.batches[t]) && id in s'.docs
      ensures InHand(s'.docs[id], t, s'.batches[t].until)
    {
      HandsHoldAfter(s, step, t, id);
    }
    forall t, u, id | t in s'.batches && u in s'.batches && id in Hand(s'.batches[t]) && id in Hand(s'.batches[u])
      ensures t == u
    {
      HandsApartAfter(s, step, t, u, id);
    }
    forall id | id in s'.docs ensures HoldingIsConsistent(s'.docs[id]) { ConsistentAfter(s, step, id); }
    forall r, id | r in s'.releases && id in s'.releases[r].page && id in s'.docs
      ensures HeldFor(s'.docs[id], s'.releases[r].source)
    {
      PagesHeldAfter(s, step, r, id);
    }
  }

  // ---------- over whole runs ----------

  /** In every state the run goes through before its last, hands are timely and releases apart. */
  ghost predicate WellTimed(now: Time, steps: seq<Step>)
    requires Run(now, steps).Some?
  {
    steps == [] ||
    var before := steps[..|steps| - 1];
    WellTimed(now, before) && Timely(Run(now, before).value) && ReleasesApart(Run(now, before).value)
  }

  lemma {:induction false} RunKeepsInv(now: Time, steps: seq<Step>)
    requires Run(now, steps).Some? && WellTimed(now, steps)
    ensures Inv(Run(now, steps).value)
  {
    if steps != [] {
      var before := steps[..|steps| - 1];
      hide Do, Enabled, Inv, Timely, ReleasesApart;
      RunKeepsInv(now, before);
      StepKeepsInv(Run(now, before).value, steps[|steps| - 1]);
    }
  }

  /**
   * Exclusive delivery, and holding as a state of its own: in every well-timed run no delivery is in two passes'
   * hands, what is in a hand is claimed by it, and a document is held exactly when it has a holder and no expiry.
   */
  lemma ExclusiveDelivery(now: Time, steps: seq<Step>)
    requires Run(now, steps).Some? && WellTimed(now, steps)
    ensures var s := Run(now, steps).value;
            && (forall t, u :: t in s.batches && u in s.batches && t != u ==> Hand(s.batches[t]) !! Hand(s.batches[u]))
            && (forall t, id :: t in s.batches && id in Hand(s.batches[t]) && id in s.docs ==>
                  s.docs[id].status == Claimed && s.docs[id].token == Some(t))
            && (forall id :: id in s.docs ==> (s.docs[id].status == Held <==> s.docs[id].heldBy.Some?)
                                              && (s.docs[id].status == Held <==> s.docs[id].expiresAt.None?))
  {
    hide Run, Hand, WellTimed;
    RunKeepsInv(now, steps);
  }

  // ---------- without the hypotheses ----------

  function Poll(s: State, u: Token, id: Id): (s': State)
    requires id in s.docs && s.docs[id].status == Pending && id in s.published && u !in s.tokens
    ensures u in s'.batches && id in Hand(s'.batches[u])
    ensures s'.batches == s.batches[u := s'.batches[u]] && s'.tokens == s.tokens + {u}
    ensures s'.docs == s.docs[id := Claim(s.docs[id], u, s.now + VISIBILITY)]
    ensures s'.now == s.now && s'.published == s.published && s'.releases == s.releases
  {
    var s1 := Do(s, Find(u, s.published[id], s.now, VISIBILITY, {id}));
    Do(s1, ClaimOne(u, id))
  }

  /**
   * Timeliness cannot be dropped: from any state in which a pass is late with a delivery it claimed, a reap and
   * another poll put that delivery in a second hand.
   */
  lemma LateIsShared(s: State, t: Token, u: Token, id: Id)
    requires TokensTell(s) && id in s.published && u !in s.tokens
    requires t in s.batches && id in Hand(s.batches[t]) && id in s.docs && InHand(s.docs[id], t, s.batches[t].until)
    requires s.batches[t].until <= s.now
    ensures Enabled(s, ReapOne(id, s.now))
    ensures var s' := Poll(Do(s, ReapOne(id, s.now)), u, id);
            t != u && t in s'.batches && u in s'.batches && id in Hand(s'.batches[t]) && id in Hand(s'.batches[u])
  {
    hide Hand;
  }

  function ReleaseStep(s: State, r: nat, id: Id): (s': State)
    requires r in s.releases && id in s.releases[r].page && id in s.docs
    ensures id in s'.docs && s'.docs[id].status == Pending && s'.batches == s.batches && s'.tokens == s.tokens
    ensures s'.published == s.published && s'.releases.Keys == s.releases.Keys
    ensures forall q :: q in s.releases && q != r ==> s'.releases[q] == s.releases[q]
  {
    Do(s, ReleaseOne(r, id))
  }

  /** Nor can the other: two releases that have both read a page with the same delivery hand it to two polls. */
  lemma OverlapIsShared(s: State, r: nat, q: nat, t: Token, u: Token, id: Id)
    requires id in s.published && id in s.docs && t !in s.tokens && u !in s.tokens && t != u
    requires r in s.releases && q in s.releases && r != q && id in s.releases[r].page && id in s.releases[q].page
    ensures var s1 := Poll(ReleaseStep(s, r, id), t, id);
            var s2 := Poll(ReleaseStep(s1, q, id), u, id);
            t in s2.batches && u in s2.batches && id in Hand(s2.batches[t]) && id in Hand(s2.batches[u])
  {
    hide Hand, Poll, ReleaseStep;
  }
}
