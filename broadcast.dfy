/**
 The `/send` route's own logic: refuse a broadcast when no token is active,
 otherwise send to every active token in turn and split the results into
 successes and failures. The messaging service is a parameter: `send` gives the
 service's answer for a token, and `SendResult` turns that answer into the
 result dictionary `send_message` builds.
 */
module Broadcast {
  import opened Wrappers
  import opened TokenRecords
  import opened TokenTable
  import opened Feedback
  import opened Statistics
  import opened Manager

  /** The exceptions `messaging.send` can raise that `send_message` tells apart. */
  datatype SendFault = InvalidArgumentError | UnregisteredError | OtherError

  /** The messaging service's answer for one token. */
  datatype Reply = Accepted | Raised(fault: SendFault)

  /**
   The result of sending to one token: a success carries no error code, and a
   failure carries the code of the exception, UNKNOWN for any other one.
   */
  function SendResult(token: string, reply: Reply): (o: Outcome)
    ensures o.token == token
    ensures o.success <==> reply.Accepted?
    ensures o.success <==> o.errorCode.None?
    ensures Deactivates(o.errorCode) <==> reply == Raised(InvalidArgumentError) || reply == Raised(UnregisteredError)
  {
    match reply
    case Accepted => Outcome(token, true, None)
    case Raised(InvalidArgumentError) => Outcome(token, false, Some(InvalidArgument))
    case Raised(UnregisteredError) => Outcome(token, false, Some(Unregistered))
    case Raised(OtherError) => Outcome(token, false, Some(Unknown))
  }

  /** The results list of the send loop: one result per token, in the tokens' order. */
  function SendAll(active: seq<string>, send: string -> Reply): (rs: seq<Outcome>)
    ensures |rs| == |active|
    ensures forall i :: 0 <= i < |active| ==> rs[i].token == active[i] && (rs[i].success <==> send(active[i]).Accepted?)
  {
    if active == [] then []
    else
      var n := |active| - 1;
      SendAll(active[..n], send) + [SendResult(active[n], send(active[n]))]
  }

  /** The successful results, in order. */
  function Successes(rs: seq<Outcome>): (r: seq<Outcome>)
    ensures forall o :: o in r <==> o in rs && o.success
    ensures |r| <= |rs|
  {
    if rs == [] then []
    else
      var n := |rs| - 1;
      Successes(rs[..n]) + if rs[n].success then [rs[n]] else []
  }

  /** The failed results, in order. */
  function Failures(rs: seq<Outcome>): (r: seq<Outcome>)
    ensures forall o :: o in r <==> o in rs && !o.success
    ensures |r| <= |rs|
  {
    if rs == [] then []
    else
      var n := |rs| - 1;
      Failures(rs[..n]) + if !rs[n].success then [rs[n]] else []
  }

  /** Every result is counted once, as a success or as a failure. */
  lemma {:induction false} PartitionSizes(rs: seq<Outcome>)
    ensures |Successes(rs)| + |Failures(rs)| == |rs|
  {
    if rs != [] {
      PartitionSizes(rs[..|rs| - 1]);
    }
  }

  /** Successes and failures together are the results, with multiplicity. */
  lemma {:induction false} PartitionMultiset(rs: seq<Outcome>)
    ensures multiset(Successes(rs)) + multiset(Failures(rs)) == multiset(rs)
  {
    if rs != [] {
      var n := |rs| - 1;
      PartitionMultiset(rs[..n]);
      assert rs == rs[..n] + [rs[n]];
    }
  }

  /** The report of a broadcast that was sent. */
  datatype Report = Report(sent: nat, failed: nat, successes: seq<Outcome>, failures: seq<Outcome>)

  /** The refusal when there is nobody to send to. */
  datatype BroadcastError = NoActiveTokens

  /**
   `send_push`: with no active token the broadcast is refused; otherwise there
   is one result per active token, and the report splits them into successes
   and failures whose counts add up to the number of active tokens.
   */
  method SendPush(manager: TokenManager, send: string -> Reply) returns (r: Result<Report, BroadcastError>)
    requires manager.Valid()
    ensures r.Failure? <==> manager.GetActiveTokens() == []
    ensures r.Failure? ==> r.error == NoActiveTokens
    ensures r.Success? ==>
      var rs := SendAll(manager.GetActiveTokens(), send);
      && r.value == Report(|Successes(rs)|, |Failures(rs)|, Successes(rs), Failures(rs))
      && r.value.sent + r.value.failed == |manager.GetActiveTokens()|
  {
    var active := manager.GetActiveTokens();
    if active == [] {
      return Failure(NoActiveTokens);
    }
    var results: seq<Outcome> := [];
    for i := 0 to |active|
      invariant results == SendAll(active[..i], send)
    {
      var result := SendResult(active[i], send(active[i]));
      results := results + [result];
      assert active[..i + 1][..i] == active[..i];
    }
    assert active[..|active|] == active;
    PartitionSizes(results);
    var successes := Successes(results);
    var failures := Failures(results);
    return Success(Report(|successes|, |failures|, successes, failures));
  }

  /** Results that all name known tokens count, as known successes, every success. */
  lemma {:induction false} AllKnownCounts(rs: seq<Outcome>, keys: set<string>)
    requires forall i :: 0 <= i < |rs| ==> rs[i].token in keys
    ensures KnownSuccesses(rs, keys) == |Successes(rs)|
    ensures KnownFailures(rs, keys) == |Failures(rs)|
  {
    if rs != [] {
      AllKnownCounts(rs[..|rs| - 1], keys);
    }
  }

  /**
   Feeding a broadcast's results back with `update_token_stats` (a call the
   route leaves disabled) would raise the success and failure totals by exactly
   the report's `sent` and `failed`.
   */
  lemma BroadcastFeedbackTotals(t: Table, send: string -> Reply, now: nat)
    requires Valid(t)
    ensures var rs := SendAll(ActiveIn(t.order, t.records), send);
      var after := Table(ApplyOutcomes(t.records, rs, now), t.order);
      && StatsOf(after).totalSuccessfulSends == StatsOf(t).totalSuccessfulSends + |Successes(rs)|
      && StatsOf(after).totalFailedSends == StatsOf(t).totalFailedSends + |Failures(rs)|
  {
    var rs := SendAll(ActiveIn(t.order, t.records), send);
    FeedbackTotals(t, rs, now);
    AllKnownCounts(rs, t.records.Keys);
  }

  /**
   The same feedback would deactivate every active token the service reported
   as unregistered or as an invalid argument.
   */
  lemma BroadcastFeedbackDeactivates(t: Table, send: string -> Reply, now: nat, k: string)
    requires Valid(t)
    requires k in ActiveIn(t.order, t.records)
    requires send(k) == Raised(UnregisteredError) || send(k) == Raised(InvalidArgumentError)
    ensures var rs := SendAll(ActiveIn(t.order, t.records), send);
      var after := ApplyOutcomes(t.records, rs, now);
      k in after && !after[k].isActive
  {
    var active := ActiveIn(t.order, t.records);
    var rs := SendAll(active, send);
    ApplyOutcomesAt(t.records, rs, now, k);
    var i :| 0 <= i < |active| && active[i] == k;
    SendAllAt(active, send, i);
    assert rs[i].token == k && !rs[i].success && Deactivates(rs[i].errorCode);
  }

  lemma {:induction false} SendAllAt(active: seq<string>, send: string -> Reply, i: nat)
    requires i < |active|
    ensures SendAll(active, send)[i] == SendResult(active[i], send(active[i]))
  {
    var n := |active| - 1;
    if i < n {
      SendAllAt(active[..n], send, i);
    }
  }

  // A worked case: two tokens registered into an empty dictionary, a broadcast
  // in which the service accepts "tok-A" and reports "tok-B" unregistered, then
  // the feedback.

  function ScenarioSend(k: string): Reply
  {
    if k == "tok-B" then Raised(UnregisteredError) else Accepted
  }

  /** Registering "tok-A" at time 1 and "tok-B" at time 2 gives two fresh, active records. */
  lemma ScenarioRegistration()
    ensures var t1 := Register(Table(map[], []), "tok-A", 1, DefaultMaxTokens).value.0;
      Register(t1, "tok-B", 2, DefaultMaxTokens).value.0
        == Table(map["tok-A" := NewRecord("tok-A", 1), "tok-B" := NewRecord("tok-B", 2)], ["tok-A", "tok-B"])
  {
  }

  /** Both tokens are sent to, in registration order: one success and one failure. */
  lemma ScenarioBroadcast()
    ensures var t := Table(map["tok-A" := NewRecord("tok-A", 1), "tok-B" := NewRecord("tok-B", 2)], ["tok-A", "tok-B"]);
      var rs := SendAll(ActiveIn(t.order, t.records), ScenarioSend);
      && rs == [Outcome("tok-A", true, None), Outcome("tok-B", false, Some(Unregistered))]
      && |Successes(rs)| == 1 && |Failures(rs)| == 1
  {
    var t := Table(map["tok-A" := NewRecord("tok-A", 1), "tok-B" := NewRecord("tok-B", 2)], ["tok-A", "tok-B"]);
    var active := ActiveIn(t.order, t.records);
    assert active == ["tok-A", "tok-B"] by {
      assert t.order[1..] == ["tok-B"] && ["tok-B"][1..] == [];
    }
    var rs := SendAll(active, ScenarioSend);
    assert active[..1] == ["tok-A"] && active[..1][..0] == [];
    assert rs[..1] == [rs[0]] && rs[..1][..0] == [];
  }

  /** Fed back at time 3, the results leave "tok-B" inactive and give "tok-A" one successful send. */
  lemma ScenarioFeedback()
    ensures var records := map["tok-A" := NewRecord("tok-A", 1), "tok-B" := NewRecord("tok-B", 2)];
      var after := ApplyOutcomes(records, [Outcome("tok-A", true, None), Outcome("tok-B", false, Some(Unregistered))], 3);
      && after["tok-A"] == NewRecord("tok-A", 1).(successfulSends := 1, lastActive := 3)
      && after["tok-B"] == NewRecord("tok-B", 2).(failedSends := 1, isActive := false)
  {
    var rs := [Outcome("tok-A", true, None), Outcome("tok-B", false, Some(Unregistered))];
    assert rs[..1] == [rs[0]] && rs[..1][..0] == [];
  }
}
