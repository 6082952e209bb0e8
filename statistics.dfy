/**
 `get_stats`: aggregate counts over the records, walked in dictionary order.
 */
module Statistics {
  import opened TokenRecords
  import opened TokenTable
  import opened Feedback

  /** The quantities `get_stats` sums over the records. */
  datatype Tally = SuccessfulSends | FailedSends | ActiveFlag

  function Weight(rec: TokenRec, q: Tally): (r: nat)
  {
    match q
    case SuccessfulSends => rec.successfulSends
    case FailedSends => rec.failedSends
    case ActiveFlag => if rec.isActive then 1 else 0
  }

  /** The sum of one quantity over the records listed in `order`. */
  function Total(order: seq<string>, records: map<string, TokenRec>, q: Tally): (r: nat)
  {
    if order == [] then 0
    else (if order[0] in records then Weight(records[order[0]], q) else 0) + Total(order[1..], records, q)
  }

  /** The dictionary `get_stats` returns. */
  datatype Stats = Stats(
    totalTokens: nat,
    activeTokens: nat,
    inactiveTokens: int,
    totalSuccessfulSends: nat,
    totalFailedSends: nat)

  function StatsOf(t: Table): (r: Stats)
    ensures r.totalTokens == |t.records|
    ensures r.activeTokens == |ActiveIn(t.order, t.records)|
    ensures r.activeTokens + r.inactiveTokens == r.totalTokens
  {
    ActiveTotal(t.order, t.records);
    var active := Total(t.order, t.records, ActiveFlag);
    Stats(|t.records|, active, |t.records| - active,
          Total(t.order, t.records, SuccessfulSends), Total(t.order, t.records, FailedSends))
  }

  lemma {:induction false} ActiveTotal(order: seq<string>, records: map<string, TokenRec>)
    ensures Total(order, records, ActiveFlag) == |ActiveIn(order, records)|
  {
    if order != [] {
      ActiveTotal(order[1..], records);
    }
  }

  /**
   The counts are consistent: the active count is the number of active tokens,
   the inactive count the number of inactive ones (so never negative), and the
   two add up to the total.
   */
  lemma StatsConsistent(t: Table)
    requires Valid(t)
    ensures var s := StatsOf(t);
      && s.activeTokens == |ActiveIn(t.order, t.records)|
      && s.inactiveTokens == |InactiveIn(t.order, t.records)|
      && s.activeTokens + s.inactiveTokens == s.totalTokens
      && 0 <= s.inactiveTokens
  {
    ActiveTotal(t.order, t.records);
    ActiveInactiveSplit(t.order, t.records);
    ValidSize(t);
  }

  lemma {:induction false} TotalOutside(order: seq<string>, records: map<string, TokenRec>, k: string, v: TokenRec, q: Tally)
    requires k !in order
    ensures Total(order, records[k := v], q) == Total(order, records, q)
  {
    if order != [] {
      TotalOutside(order[1..], records, k, v, q);
    }
  }

  /** Replacing the record of a key listed once changes a sum by the difference of the two records. */
  lemma {:induction false} TotalUpdate(order: seq<string>, records: map<string, TokenRec>, k: string, v: TokenRec, q: Tally)
    requires Distinct(order) && k in order && k in records
    ensures Total(order, records[k := v], q) + Weight(records[k], q) == Total(order, records, q) + Weight(v, q)
  {
    DistinctTail(order);
    if order[0] == k {
      TotalOutside(order[1..], records, k, v, q);
    } else {
      TotalUpdate(order[1..], records, k, v, q);
    }
  }

  /** One result adds exactly one to the success or the failure total of a known token, and never raises the active count. */
  lemma ApplyOutcomeTotals(order: seq<string>, records: map<string, TokenRec>, o: Outcome, now: nat)
    requires Distinct(order) && forall k :: k in records <==> k in order
    ensures var r := ApplyOutcome(records, o, now);
      && Total(order, r, SuccessfulSends) == Total(order, records, SuccessfulSends) + (if o.token in records && o.success then 1 else 0)
      && Total(order, r, FailedSends) == Total(order, records, FailedSends) + (if o.token in records && !o.success then 1 else 0)
      && Total(order, r, ActiveFlag) <= Total(order, records, ActiveFlag)
  {
    if o.token in records {
      var v := Absorb(records[o.token], o, now);
      TotalUpdate(order, records, o.token, v, SuccessfulSends);
      TotalUpdate(order, records, o.token, v, FailedSends);
      TotalUpdate(order, records, o.token, v, ActiveFlag);
    }
  }

  lemma {:induction false} FeedbackSums(order: seq<string>, records: map<string, TokenRec>, results: seq<Outcome>, now: nat)
    requires Distinct(order) && forall k :: k in records <==> k in order
    ensures var r := ApplyOutcomes(records, results, now);
      && Total(order, r, SuccessfulSends) == Total(order, records, SuccessfulSends) + KnownSuccesses(results, records.Keys)
      && Total(order, r, FailedSends) == Total(order, records, FailedSends) + KnownFailures(results, records.Keys)
      && Total(order, r, ActiveFlag) <= Total(order, records, ActiveFlag)
  {
    if results != [] {
      var n := |results| - 1;
      FeedbackSums(order, records, results[..n], now);
      var m := ApplyOutcomes(records, results[..n], now);
      ApplyOutcomeTotals(order, m, results[n], now);
    }
  }

  /**
   Folding results into the records adds to the success and failure totals
   exactly the successes and failures reported for known tokens; the number of
   tokens is unchanged and the active count can only fall.
   */
  lemma FeedbackTotals(t: Table, results: seq<Outcome>, now: nat)
    requires Valid(t)
    ensures var s := StatsOf(t);
      var s' := StatsOf(Table(ApplyOutcomes(t.records, results, now), t.order));
      && s'.totalTokens == s.totalTokens
      && s'.totalSuccessfulSends == s.totalSuccessfulSends + KnownSuccesses(results, t.records.Keys)
      && s'.totalFailedSends == s.totalFailedSends + KnownFailures(results, t.records.Keys)
      && s'.activeTokens <= s.activeTokens
  {
    FeedbackSums(t.order, t.records, results, now);
  }

  /** After the sweep every remaining token is active and the total is the old active count. */
  lemma CleanupStats(t: Table)
    requires Valid(t)
    ensures var s := StatsOf(t);
      var s' := StatsOf(Cleanup(t));
      && s'.inactiveTokens == 0
      && s'.activeTokens == s'.totalTokens == s.activeTokens
  {
    CleanupSpec(t);
    StatsConsistent(t);
    StatsConsistent(Cleanup(t));
  }
}
