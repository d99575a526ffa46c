/**
 * What one reply from a worker does to the status store (the `getReply`
 * handler), stated as a function of the store before the reply.
 *
 * A reply carries the worker's `node` tag and, optionally, a `status` flag.
 * A tag ending in ".processing" is an in-progress report and is stored as is.
 * Any other tag is a final report: a `status` of `false` stores "FAILED",
 * anything else (including a missing flag) stores the tag, records the
 * creation time under `<id>.created` and counts a success. Final reports
 * give the keys they write a 24-hour expiry. There is no guard against a
 * later reply overwriting an earlier final one.
 */
module Replies {
  import opened Wrappers
  import opened Text
  import opened Redis

  const PROCESSING_SUFFIX := ".processing"
  const FAILED := "FAILED"
  const CREATED_SUFFIX := ".created"
  const SUCCESS_COUNTER := "status.success"
  /** The expiry, in seconds, of every key a final report writes. */
  const TTL_SECONDS: nat := 86400

  /** The store as a value: keys with expiry, and counters. */
  datatype Db = Db(entries: map<string, Entry>, counters: map<string, int>)

  datatype ReplyKind = Processing | Failed | Succeeded

  /** How `getReply` reads a reply: the suffix first, then `status == false`. */
  function Classify(node: string, status: Option<bool>): ReplyKind {
    if EndsWith(node, PROCESSING_SUFFIX) then Processing
    else if status == Some(false) then Failed
    else Succeeded
  }

  function CreatedKey(id: string): (k: string)
    ensures k != id
  {
    id + CREATED_SUFFIX
  }

  /** The instant, in milliseconds, at which the keys written at `now` lapse. */
  function Deadline(now: nat): int {
    now + TTL_SECONDS * MS_PER_SECOND
  }

  /** Apart from `keys`, the two maps agree on membership and contents. */
  ghost predicate UnchangedExcept(before: map<string, Entry>, after: map<string, Entry>, keys: set<string>) {
    && (forall k :: k !in keys ==> (k in before <==> k in after))
    && (forall k :: k !in keys && k in before ==> after[k] == before[k])
  }

  /** Apart from `name`, the two counter maps are the same. */
  ghost predicate OtherCountersUnchanged(before: map<string, int>, after: map<string, int>, name: string) {
    && (forall k :: k != name ==> (k in before <==> k in after))
    && (forall k :: k != name && k in before ==> after[k] == before[k])
  }

  /** The store after `getReply` handles a reply with correlation id `id` at time `now`. */
  function ApplyReply(db: Db, id: string, node: string, status: Option<bool>, now: nat): (r: Db)
    ensures id in r.entries
    // in-progress report: the tag, verbatim and without expiry, under `id` only
    ensures EndsWith(node, PROCESSING_SUFFIX) ==>
      && r.entries[id] == Entry(node, None)
      && UnchangedExcept(db.entries, r.entries, {id})
      && r.counters == db.counters
    // failure: "FAILED" under `id` for 24 hours; no created key, no count
    ensures !EndsWith(node, PROCESSING_SUFFIX) && status == Some(false) ==>
      && r.entries[id] == Entry(FAILED, Some(Deadline(now)))
      && UnchangedExcept(db.entries, r.entries, {id})
      && r.counters == db.counters
    // success: the tag under `id`, the time under `<id>.created`, both for 24 hours, one more success
    ensures !EndsWith(node, PROCESSING_SUFFIX) && status != Some(false) ==>
      && r.entries[id] == Entry(node, Some(Deadline(now)))
      && CreatedKey(id) in r.entries
      && r.entries[CreatedKey(id)] == Entry(NatToDecimal(now), Some(Deadline(now)))
      && UnchangedExcept(db.entries, r.entries, {id, CreatedKey(id)})
      && CounterValue(r.counters, SUCCESS_COUNTER) == CounterValue(db.counters, SUCCESS_COUNTER) + 1
      && OtherCountersUnchanged(db.counters, r.counters, SUCCESS_COUNTER)
  {
    var deadline := Some(Deadline(now));
    match Classify(node, status)
    case Processing => Db(db.entries[id := Entry(node, None)], db.counters)
    case Failed => Db(db.entries[id := Entry(FAILED, deadline)], db.counters)
    case Succeeded =>
      Db(db.entries[CreatedKey(id) := Entry(NatToDecimal(now), deadline)][id := Entry(node, deadline)],
         db.counters[SUCCESS_COUNTER := CounterValue(db.counters, SUCCESS_COUNTER) + 1])
  }

  /**
   * Last writer wins: what a reply stores under its id does not depend on
   * what was stored before.
   */
  lemma LastWriterWins(db1: Db, db2: Db, id: string, node: string, status: Option<bool>, now: nat)
    ensures ApplyReply(db1, id, node, status, now).entries[id] == ApplyReply(db2, id, node, status, now).entries[id]
  {
  }

  /** A final report lets its status and created keys lapse at the same instant. */
  lemma SameHorizon(db: Db, id: string, node: string, status: Option<bool>, now: nat)
    requires Classify(node, status) == Succeeded
    ensures var r := ApplyReply(db, id, node, status, now);
      r.entries[id].deadline == r.entries[CreatedKey(id)].deadline == Some(Deadline(now))
  {
  }

  /**
   * After a successful reply at `now`, polling at `t` finds the tag and the
   * creation time up to and including the deadline 24 hours on, and nothing
   * once the deadline has passed.
   */
  lemma SuccessVisibleUntilExpiry(db: Db, id: string, node: string, status: Option<bool>, now: nat, t: int)
    requires Classify(node, status) == Succeeded && now <= t
    ensures var r := ApplyReply(db, id, node, status, now);
      && Lookup(r.entries, id, t) == (if t <= Deadline(now) then Some(node) else None)
      && Lookup(r.entries, CreatedKey(id), t) == (if t <= Deadline(now) then Some(NatToDecimal(now)) else None)
  {
  }

  /**
   * The handler keeps no terminal state: an in-progress report arriving after
   * a success replaces the final status with its own tag and clears its expiry.
   */
  lemma NoTerminalGuard(db: Db, id: string, done: string, s: Option<bool>, now: nat,
                        node: string, s2: Option<bool>, later: nat)
    requires Classify(done, s) == Succeeded && EndsWith(node, PROCESSING_SUFFIX)
    ensures ApplyReply(ApplyReply(db, id, done, s, now), id, node, s2, later).entries[id] == Entry(node, None)
  {
  }

  /** Likewise a failure after a success replaces the final status with "FAILED". */
  lemma FailureAfterSuccess(db: Db, id: string, done: string, s: Option<bool>, now: nat,
                            node: string, later: nat)
    requires Classify(done, s) == Succeeded && Classify(node, Some(false)) == Failed
    ensures ApplyReply(ApplyReply(db, id, done, s, now), id, node, Some(false), later).entries[id]
         == Entry(FAILED, Some(Deadline(later)))
  {
  }

  /** A missing `status` flag counts as success, like `true`. */
  lemma MissingStatusSucceeds(node: string)
    requires !EndsWith(node, PROCESSING_SUFFIX)
    ensures Classify(node, None) == Classify(node, Some(true)) == Succeeded
  {
  }
}
