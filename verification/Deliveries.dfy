/**
 * The event documents of database/src/EventBus.cpp and what a database call does to one of them. An update is
 * atomic per document; an expiry or a heldBy that is absent is None. Times are in seconds.
 */
module Deliveries {
  import opened Outcome

  type Id = nat
  type Token = nat
  type Time = int

  datatype Status = Pending | Claimed | Held

  datatype Doc = Doc(
    target: string,
    sourceErn: string,
    targetErn: string,
    status: Status,
    token: Option<Token>,
    visibleAt: Time,
    createdAt: Time,
    attempts: nat,
    heldBy: Option<string>,
    expiresAt: Option<Time>)

  type Docs = map<Id, Doc>

  const EXTERNAL_PREFIX := "client:"
  const MODULE_RETENTION := 30 * 24 * 3600
  const EXTERNAL_RETENTION := 7 * 24 * 3600
  const MAX_ATTEMPTS := 5
  const BATCH_SIZE := 200
  const VISIBILITY := 30
  const PAGE := 1000

  predicate External(target: string) {
    EXTERNAL_PREFIX <= target
  }

  function Retention(target: string): nat {
    if External(target) then EXTERNAL_RETENTION else MODULE_RETENTION
  }

  /** An envelope as published: pending with an expiry, or held by its source without one. */
  function Envelope(target: string, sourceErn: string, targetErn: string, heldBy: string, now: Time): Doc {
    Doc(target, sourceErn, targetErn, if heldBy == "" then Pending else Held, None, now, now, 0,
        if heldBy == "" then None else Some(heldBy), if heldBy == "" then Some(now + Retention(target)) else None)
  }

  /** A module claims what is pending; an external subscriber also what a lapsed lease left claimed. */
  predicate Claimable(d: Doc, now: Time) {
    d.status == Pending || (External(d.target) && d.status == Claimed && d.visibleAt <= now)
  }

  function Claim(d: Doc, token: Token, until: Time): Doc {
    d.(status := Claimed, token := Some(token), visibleAt := until, attempts := d.attempts + 1)
  }

  function Requeue(d: Doc, now: Time): Doc {
    d.(status := Pending, visibleAt := now)
  }

  predicate Lapsed(d: Doc, now: Time) {
    d.status == Claimed && d.visibleAt <= now
  }

  /** Reaping leaves the rest of the document alone, its claim token included. */
  function Reaped(d: Doc): Doc {
    d.(status := Pending)
  }

  function Hold(d: Doc, ern: string): Doc {
    d.(status := Held, heldBy := Some(ern), expiresAt := None)
  }

  predicate HeldFor(d: Doc, source: string) {
    d.heldBy == Some(source) && d.status == Held
  }

  function Release(d: Doc, now: Time): Doc {
    d.(status := Pending, visibleAt := now, expiresAt := Some(now + Retention(d.target)), heldBy := None)
  }

  /** Held, having a holder and having no expiry are one and the same. */
  predicate HoldingIsConsistent(d: Doc) {
    (d.status == Held <==> d.heldBy.Some?) && (d.status == Held <==> d.expiresAt.None?)
  }

  // ---------- in numbers ----------

  /** A published envelope, field by field: kept 7 days for an external subscriber and 30 for a module, unless held. */
  lemma EnvelopeMeans(target: string, sourceErn: string, targetErn: string, heldBy: string, now: Time)
    ensures var d := Envelope(target, sourceErn, targetErn, heldBy, now);
            && d.target == target && d.sourceErn == sourceErn && d.targetErn == targetErn
            && d.token == None && d.attempts == 0 && d.visibleAt == now && d.createdAt == now
            && (heldBy == "" ==> d.status == Pending && d.heldBy == None
                                 && d.expiresAt == Some(now + if "client:" <= target then 604800 else 2592000))
            && (heldBy != "" ==> d.status == Held && d.heldBy == Some(heldBy) && d.expiresAt == None)
  {
  }

  /** A released document: pending, visible, without a holder, and with the rest of its kind's days before it. */
  lemma ReleaseMeans(d: Doc, now: Time)
    ensures Release(d, now) == Doc(d.target, d.sourceErn, d.targetErn, Pending, d.token, now, d.createdAt, d.attempts,
                                   None, Some(now + if "client:" <= d.target then 604800 else 2592000))
  {
  }
}
