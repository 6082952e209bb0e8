/**
 `update_token_stats`: folding a list of send results into the token records.
 A result for an unknown token is ignored; a success counts a successful send
 and refreshes `last_active`; a failure counts a failed send and deactivates the
 token exactly when its error code is UNREGISTERED or INVALID_ARGUMENT.
 */
module Feedback {
  import opened TokenRecords

  /** The change one result makes to the record of its token. */
  function Absorb(rec: TokenRec, o: Outcome, now: nat): (r: TokenRec)
    ensures r.token == rec.token && r.registeredAt == rec.registeredAt
    ensures r.successfulSends + r.failedSends == rec.successfulSends + rec.failedSends + 1
    ensures o.success ==> r.successfulSends == rec.successfulSends + 1 && r.lastActive == now && r.isActive == rec.isActive
    ensures !o.success ==> r.failedSends == rec.failedSends + 1 && r.lastActive == rec.lastActive
    ensures !o.success ==> (r.isActive <==> rec.isActive && !Deactivates(o.errorCode))
  {
    if o.success then
      rec.(successfulSends := rec.successfulSends + 1, lastActive := now)
    else
      rec.(failedSends := rec.failedSends + 1,
           isActive := if Deactivates(o.errorCode) then false else rec.isActive)
  }

  /** One iteration of the loop: only the record of the result's own token changes. */
  function ApplyOutcome(records: map<string, TokenRec>, o: Outcome, now: nat): (r: map<string, TokenRec>)
    ensures r.Keys == records.Keys
    ensures o.token !in records ==> r == records
    ensures forall k :: k in records && k != o.token ==> r[k] == records[k]
  {
    if o.token in records then records[o.token := Absorb(records[o.token], o, now)] else records
  }

  /**
   The whole loop, results taken in order. The set of tokens never changes, and
   no record loses its token, its creation time or any counted send.
   */
  function ApplyOutcomes(records: map<string, TokenRec>, results: seq<Outcome>, now: nat): (r: map<string, TokenRec>)
    ensures r.Keys == records.Keys
    ensures forall k :: k in r ==>
      && r[k].token == records[k].token
      && r[k].registeredAt == records[k].registeredAt
      && r[k].successfulSends >= records[k].successfulSends
      && r[k].failedSends >= records[k].failedSends
  {
    if results == [] then records
    else ApplyOutcome(ApplyOutcomes(records, results[..|results| - 1], now), results[|results| - 1], now)
  }

  /** Folding one more result is one more iteration. */
  lemma ApplyOutcomesSnoc(records: map<string, TokenRec>, results: seq<Outcome>, i: nat, now: nat)
    requires i < |results|
    ensures ApplyOutcomes(records, results[..i + 1], now)
         == ApplyOutcome(ApplyOutcomes(records, results[..i], now), results[i], now)
  {
    assert results[..i + 1][..i] == results[..i];
  }

  /** How many results report a success for token `k`. */
  function SuccessesFor(results: seq<Outcome>, k: string): (r: nat)
  {
    if results == [] then 0
    else
      var o := results[|results| - 1];
      SuccessesFor(results[..|results| - 1], k) + if o.token == k && o.success then 1 else 0
  }

  /** How many results report a failure for token `k`. */
  function FailuresFor(results: seq<Outcome>, k: string): (r: nat)
  {
    if results == [] then 0
    else
      var o := results[|results| - 1];
      FailuresFor(results[..|results| - 1], k) + if o.token == k && !o.success then 1 else 0
  }

  /** Some result is a failure for `k` with a deactivating error code. */
  ghost predicate Invalidated(results: seq<Outcome>, k: string)
  {
    exists i :: 0 <= i < |results| && results[i].token == k && !results[i].success && Deactivates(results[i].errorCode)
  }

  /** Some result is a success for `k`. */
  ghost predicate Reached(results: seq<Outcome>, k: string)
  {
    exists i :: 0 <= i < |results| && results[i].token == k && results[i].success
  }

  /** How many results are successes for tokens in `keys`. */
  function KnownSuccesses(results: seq<Outcome>, keys: set<string>): (r: nat)
  {
    if results == [] then 0
    else
      var o := results[|results| - 1];
      KnownSuccesses(results[..|results| - 1], keys) + if o.token in keys && o.success then 1 else 0
  }

  /** How many results are failures for tokens in `keys`. */
  function KnownFailures(results: seq<Outcome>, keys: set<string>): (r: nat)
  {
    if results == [] then 0
    else
      var o := results[|results| - 1];
      KnownFailures(results[..|results| - 1], keys) + if o.token in keys && !o.success then 1 else 0
  }

  lemma InvalidatedSnoc(results: seq<Outcome>, k: string)
    requires results != []
    ensures var o := results[|results| - 1];
      Invalidated(results, k) <==>
        Invalidated(results[..|results| - 1], k) || (o.token == k && !o.success && Deactivates(o.errorCode))
  {
  }

  lemma ReachedSnoc(results: seq<Outcome>, k: string)
    requires results != []
    ensures var o := results[|results| - 1];
      Reached(results, k) <==> Reached(results[..|results| - 1], k) || (o.token == k && o.success)
  {
  }

  /**
   The exact effect of a list of results on one known token: each success adds
   one to `successful_sends`, each failure one to `failed_sends`; the token is
   active afterwards iff it was before and no result deactivated it; its
   `last_active` is `now` iff some result reached it, and is unchanged otherwise.
   */
  lemma {:induction false} ApplyOutcomesAt(records: map<string, TokenRec>, results: seq<Outcome>, now: nat, k: string)
    requires k in records
    ensures var r := ApplyOutcomes(records, results, now);
      && k in r
      && r[k].successfulSends == records[k].successfulSends + SuccessesFor(results, k)
      && r[k].failedSends == records[k].failedSends + FailuresFor(results, k)
      && (r[k].isActive <==> records[k].isActive && !Invalidated(results, k))
      && r[k].lastActive == (if Reached(results, k) then now else records[k].lastActive)
      && r[k].token == records[k].token
      && r[k].registeredAt == records[k].registeredAt
  {
    if results == [] {
      assert !Invalidated(results, k) && !Reached(results, k);
    } else {
      var n := |results| - 1;
      var prefix := results[..n];
      ApplyOutcomesAt(records, prefix, now, k);
      InvalidatedSnoc(results, k);
      ReachedSnoc(results, k);
      var m := ApplyOutcomes(records, prefix, now);
      assert ApplyOutcomes(records, results, now) == ApplyOutcome(m, results[n], now);
    }
  }
}
