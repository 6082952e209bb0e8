/**
 The `TokenManager` object: the token dictionary as two fields (the records and
 their insertion order) updated in place. Each mutating method is proved to
 leave the object in the state the TokenTable and Feedback functions give for
 the old state; the read-only methods are functions of the fields.
 */
module Manager {
  import opened Wrappers
  import opened TokenRecords
  import opened TokenTable
  import opened Feedback
  import opened Statistics

  /** The capacity used when the environment sets none. */
  const DefaultMaxTokens: int := 10000

  class TokenManager {
    var tokens: map<string, TokenRec>
    var order: seq<string>
    const maxTokens: int

    /** The dictionary as a value. */
    function State(): Table
      reads this
    {
      Table(tokens, order)
    }

    ghost predicate Valid()
      reads this
    {
      TokenTable.Valid(State())
    }

    constructor (maxTokens: int)
      ensures Valid()
      ensures tokens == map[] && order == [] && this.maxTokens == maxTokens
    {
      this.maxTokens := maxTokens;
      tokens := map[];
      order := [];
    }

    /** `register_token`: refuse an empty token, refresh a known one, or add a new one. */
    method RegisterToken(token: string, now: nat) returns (r: Result<RegisterInfo, RegisterError>)
      requires Valid()
      modifies this
      ensures Valid()
      ensures match Register(old(State()), token, now, maxTokens)
        case Failure(e) => r == Failure(e) && State() == old(State())
        case Success(step) => r == Success(step.1) && State() == step.0
    {
      if token == "" {
        return Failure(InvalidToken);
      }
      RegisterKeepsValid(State(), token, now, maxTokens);
      if token in tokens {
        tokens := tokens[token := tokens[token].(lastActive := now, isActive := true)];
        return Success(RegisterInfo(false, |tokens|));
      }
      if |tokens| >= maxTokens {
        CleanupInactiveTokens();
      }
      tokens := tokens[token := NewRecord(token, now)];
      order := order + [token];
      return Success(RegisterInfo(true, |tokens|));
    }

    /** `get_active_tokens`: every active token, each once, in dictionary order. */
    function GetActiveTokens(): (r: seq<string>)
      reads this
      requires Valid()
      ensures Distinct(r)
      ensures forall k :: k in r <==> k in tokens && tokens[k].isActive
    {
      ActiveInDistinct(order, tokens);
      ActiveIn(order, tokens)
    }

    /** `update_token_stats`: fold the send results into the records, one result at a time. */
    method UpdateTokenStats(results: seq<Outcome>, now: nat)
      requires Valid()
      modifies this`tokens
      ensures Valid()
      ensures tokens == ApplyOutcomes(old(tokens), results, now)
      ensures order == old(order)
    {
      for i := 0 to |results|
        invariant tokens == ApplyOutcomes(old(tokens), results[..i], now)
      {
        var result := results[i];
        ApplyOutcomesSnoc(old(tokens), results, i, now);
        if result.token in tokens {
          var rec := tokens[result.token];
          if result.success {
            rec := rec.(successfulSends := rec.successfulSends + 1, lastActive := now);
          } else {
            rec := rec.(failedSends := rec.failedSends + 1);
            if Deactivates(result.errorCode) {
              rec := rec.(isActive := false);
            }
          }
          assert rec == Absorb(tokens[result.token], result, now);
          tokens := tokens[result.token := rec];
        }
      }
      assert results[..|results|] == results;
    }

    /** `_cleanup_inactive_tokens`: list the inactive tokens, then delete them one by one. */
    method CleanupInactiveTokens()
      requires Valid()
      modifies this
      ensures Valid()
      ensures State() == Cleanup(old(State()))
    {
      var inactive := InactiveIn(order, tokens);
      InactiveInDistinct(order, tokens);
      ghost var t0 := State();
      ghost var gone: set<string> := {};
      ExceptNothing(order);
      for i := 0 to |inactive|
        invariant gone == set j | 0 <= j < i :: inactive[j]
        invariant tokens == t0.records - gone
        invariant order == Except(t0.order, gone)
      {
        var k := inactive[i];
        SweepStep(t0, inactive, i, gone);
        tokens := tokens - {k};
        order := Except(order, {k});
        gone := gone + {k};
      }
      assert forall k :: k in gone <==> k in inactive;
      SweepComplete(t0, gone);
      CleanupKeepsValid(t0);
    }

    /** `get_stats`: the aggregate counts, consistent with the active list. */
    function GetStats(): (s: Stats)
      reads this
      requires Valid()
      ensures s.totalTokens == |tokens|
      ensures s.activeTokens == |GetActiveTokens()|
      ensures 0 <= s.inactiveTokens && s.activeTokens + s.inactiveTokens == s.totalTokens
    {
      StatsConsistent(State());
      StatsOf(State())
    }

    /** `remove_token`: delete the token if present and say whether it was. */
    method RemoveToken(token: string) returns (removed: bool)
      requires Valid()
      modifies this
      ensures Valid()
      ensures (State(), removed) == Remove(old(State()), token)
    {
      RemoveSpec(State(), token);
      if token in tokens {
        tokens := tokens - {token};
        order := Except(order, {token});
        return true;
      }
      return false;
    }
  }
}
