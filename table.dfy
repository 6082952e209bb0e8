/**
 The token dictionary of `TokenManager` as a value: a map from token string to
 record, plus the order in which the keys were inserted (a Python dict iterates
 in insertion order, and `get_active_tokens` and `get_stats` walk it that way).
 Registration, removal and the inactivity sweep are defined here as functions of
 the old dictionary; the class in the Manager module is proved against them.
 */
module TokenTable {
  import opened Wrappers
  import opened TokenRecords

  datatype Table = Table(records: map<string, TokenRec>, order: seq<string>)

  predicate Distinct(s: seq<string>)
  {
    forall i, j :: 0 <= i < j < |s| ==> s[i] != s[j]
  }

  /**
   The dictionary invariant: the insertion order lists every key exactly once,
   and every record stores the token it is filed under.
   */
  ghost predicate Valid(t: Table)
  {
    && Distinct(t.order)
    && (forall k :: k in t.records <==> k in t.order)
    && (forall k :: k in t.records ==> t.records[k].token == k)
  }

  lemma DistinctTail(s: seq<string>)
    requires Distinct(s) && s != []
    ensures Distinct(s[1..]) && s[0] !in s[1..]
  {
  }

  /** Keys whose record is active, in insertion order (the `get_active_tokens` comprehension). */
  function ActiveIn(order: seq<string>, records: map<string, TokenRec>): (r: seq<string>)
    ensures forall k :: k in r <==> k in order && k in records && records[k].isActive
    ensures |r| <= |order|
  {
    if order == [] then []
    else
      (if order[0] in records && records[order[0]].isActive then [order[0]] else [])
      + ActiveIn(order[1..], records)
  }

  /** Keys whose record is inactive, in insertion order (the list the sweep deletes). */
  function InactiveIn(order: seq<string>, records: map<string, TokenRec>): (r: seq<string>)
    ensures forall k :: k in r <==> k in order && k in records && !records[k].isActive
    ensures |r| <= |order|
  {
    if order == [] then []
    else
      (if order[0] in records && !records[order[0]].isActive then [order[0]] else [])
      + InactiveIn(order[1..], records)
  }

  /** The order with the keys in `drop` deleted; every other key keeps its place. */
  function Except(s: seq<string>, drop: set<string>): (r: seq<string>)
    ensures forall k :: k in r <==> k in s && k !in drop
  {
    if s == [] then []
    else (if s[0] in drop then [] else [s[0]]) + Except(s[1..], drop)
  }

  lemma {:induction false} ActiveInDistinct(order: seq<string>, records: map<string, TokenRec>)
    requires Distinct(order)
    ensures Distinct(ActiveIn(order, records))
  {
    if order != [] {
      DistinctTail(order);
      ActiveInDistinct(order[1..], records);
    }
  }

  lemma {:induction false} InactiveInDistinct(order: seq<string>, records: map<string, TokenRec>)
    requires Distinct(order)
    ensures Distinct(InactiveIn(order, records))
  {
    if order != [] {
      DistinctTail(order);
      InactiveInDistinct(order[1..], records);
    }
  }

  lemma {:induction false} ExceptDistinct(s: seq<string>, drop: set<string>)
    requires Distinct(s)
    ensures Distinct(Except(s, drop))
  {
    if s != [] {
      DistinctTail(s);
      ExceptDistinct(s[1..], drop);
    }
  }

  lemma {:induction false} ExceptNothing(s: seq<string>)
    ensures Except(s, {}) == s
  {
    if s != [] {
      ExceptNothing(s[1..]);
    }
  }

  /** Deleting keys one after another is deleting them all at once. */
  lemma {:induction false} ExceptTwice(s: seq<string>, drop: set<string>, x: string)
    ensures Except(Except(s, drop), {x}) == Except(s, drop + {x})
  {
    if s != [] {
      ExceptTwice(s[1..], drop, x);
      var head := if s[0] in drop then [] else [s[0]];
      var e := Except(s, drop);
      assert e == head + Except(s[1..], drop);
      if s[0] !in drop {
        assert e != [] && e[0] == s[0] && e[1..] == Except(s[1..], drop);
        assert Except(e, {x}) == (if s[0] in {x} then [] else [s[0]]) + Except(Except(s[1..], drop), {x});
      } else {
        assert e == Except(s[1..], drop);
      }
      assert Except(s, drop + {x}) == (if s[0] in drop + {x} then [] else [s[0]]) + Except(s[1..], drop + {x});
    }
  }

  /** Deleting exactly the inactive keys leaves the active keys in their order. */
  lemma {:induction false} ExceptInactive(order: seq<string>, records: map<string, TokenRec>, drop: set<string>)
    requires forall k :: k in order ==> k in records && (k in drop <==> !records[k].isActive)
    ensures Except(order, drop) == ActiveIn(order, records)
  {
    if order != [] {
      ExceptInactive(order[1..], records, drop);
    }
  }

  /** A list of keys that are all active is its own active list. */
  lemma {:induction false} ActiveInAllActive(s: seq<string>, records: map<string, TokenRec>)
    requires forall k :: k in s ==> k in records && records[k].isActive
    ensures ActiveIn(s, records) == s
  {
    if s != [] {
      ActiveInAllActive(s[1..], records);
    }
  }

  /** The active and the inactive keys together are as many as the keys. */
  lemma {:induction false} ActiveInactiveSplit(order: seq<string>, records: map<string, TokenRec>)
    requires forall k :: k in order ==> k in records
    ensures |ActiveIn(order, records)| + |InactiveIn(order, records)| == |order|
  {
    if order != [] {
      ActiveInactiveSplit(order[1..], records);
    }
  }

  lemma {:induction false} DistinctSize(s: seq<string>)
    requires Distinct(s)
    ensures |set k | k in s| == |s|
  {
    if s != [] {
      DistinctTail(s);
      DistinctSize(s[1..]);
      assert (set k | k in s) == {s[0]} + (set k | k in s[1..]);
    }
  }

  /** In a valid dictionary there are as many records as positions in the order. */
  lemma ValidSize(t: Table)
    requires Valid(t)
    ensures |t.records| == |t.order|
  {
    DistinctSize(t.order);
    assert t.records.Keys == set k | k in t.order;
  }

  // ---------------------------------------------------------------------------
  // _cleanup_inactive_tokens

  /** The dictionary after every inactive token has been deleted. */
  function Cleanup(t: Table): (r: Table)
    ensures forall k :: k in r.records <==> k in t.records && t.records[k].isActive
    ensures forall k :: k in r.records ==> r.records[k] == t.records[k]
    ensures forall k :: k in r.order <==> k in t.order && k in r.records
  {
    Table(map k | k in t.records && t.records[k].isActive :: t.records[k],
          ActiveIn(t.order, t.records))
  }

  /**
   One deletion of the sweep: the next listed key is still present, and deleting
   it from what is left is deleting the first i + 1 listed keys from the start.
   */
  lemma SweepStep(t: Table, inactive: seq<string>, i: nat, gone: set<string>)
    requires i < |inactive| && Distinct(inactive)
    requires forall k :: k in inactive ==> k in t.records
    requires gone == set j | 0 <= j < i :: inactive[j]
    ensures inactive[i] in t.records - gone
    ensures (t.records - gone) - {inactive[i]} == t.records - (gone + {inactive[i]})
    ensures Except(Except(t.order, gone), {inactive[i]}) == Except(t.order, gone + {inactive[i]})
    ensures gone + {inactive[i]} == set j | 0 <= j < i + 1 :: inactive[j]
  {
    ExceptTwice(t.order, gone, inactive[i]);
  }

  /** Deleting the listed inactive keys, in any order, ends in the swept dictionary. */
  lemma SweepComplete(t: Table, gone: set<string>)
    requires Valid(t)
    requires forall k :: k in gone <==> k in InactiveIn(t.order, t.records)
    ensures Cleanup(t) == Table(t.records - gone, Except(t.order, gone))
  {
    ExceptInactive(t.order, t.records, gone);
  }

  lemma CleanupKeepsValid(t: Table)
    requires Valid(t)
    ensures Valid(Cleanup(t))
  {
    ActiveInDistinct(t.order, t.records);
  }

  /**
   The sweep removes exactly the inactive tokens: every active record survives
   unchanged, no inactive one survives, and the active tokens keep their order.
   */
  lemma CleanupSpec(t: Table)
    requires Valid(t)
    ensures var c := Cleanup(t);
      && Valid(c)
      && (forall k :: k in t.records && t.records[k].isActive ==> k in c.records && c.records[k] == t.records[k])
      && (forall k :: k in t.records && !t.records[k].isActive ==> k !in c.records)
      && c.records.Keys <= t.records.Keys
      && ActiveIn(c.order, c.records) == ActiveIn(t.order, t.records)
      && |c.records| == |ActiveIn(t.order, t.records)|
  {
    var c := Cleanup(t);
    CleanupKeepsValid(t);
    ActiveInAllActive(c.order, c.records);
    ValidSize(c);
  }

  /** A second sweep finds nothing to remove. */
  lemma CleanupIdempotent(t: Table)
    requires Valid(t)
    ensures Cleanup(Cleanup(t)) == Cleanup(t)
  {
    var c := Cleanup(t);
    ActiveInAllActive(c.order, c.records);
    assert Cleanup(c).records == c.records;
  }

  // ---------------------------------------------------------------------------
  // register_token

  /** The dictionary `register_token` returns: `is_new` and `token_count`. */
  datatype RegisterInfo = RegisterInfo(isNew: bool, tokenCount: nat)

  /** The ValueError raised for an empty token. */
  datatype RegisterError = InvalidToken

  /**
   Register a token at time `now`. An empty token is refused. A known token is
   refreshed in place; an unknown one is appended, after a sweep of inactive
   tokens when the dictionary already holds `maxTokens` entries or more.
   */
  function Register(t: Table, token: string, now: nat, maxTokens: int): (r: Result<(Table, RegisterInfo), RegisterError>)
    ensures r.Failure? <==> token == ""
  {
    if token == "" then Failure(InvalidToken)
    else if token in t.records then
      var rec := t.records[token];
      var t' := Table(t.records[token := rec.(lastActive := now, isActive := true)], t.order);
      Success((t', RegisterInfo(false, |t'.records|)))
    else
      var room := if |t.records| >= maxTokens then Cleanup(t) else t;
      var t' := Table(room.records[token := NewRecord(token, now)], room.order + [token]);
      Success((t', RegisterInfo(true, |t'.records|)))
  }

  lemma RegisterKeepsValid(t: Table, token: string, now: nat, maxTokens: int)
    requires Valid(t) && token != ""
    ensures Valid(Register(t, token, now, maxTokens).value.0)
  {
    if token !in t.records {
      var room := if |t.records| >= maxTokens then Cleanup(t) else t;
      if |t.records| >= maxTokens {
        CleanupKeepsValid(t);
      }
      var o := room.order + [token];
      forall i, j | 0 <= i < j < |o| ensures o[i] != o[j] {
        if j == |o| - 1 {
          assert o[i] == room.order[i];
        }
      }
    }
  }

  /**
   Re-registering a known token adds no entry: it reactivates the record and
   refreshes `last_active`, keeps the creation time and both counters, and
   reports `is_new = false` with the unchanged size.
   */
  lemma RegisterExisting(t: Table, token: string, now: nat, maxTokens: int)
    requires Valid(t) && token != "" && token in t.records
    ensures var r := Register(t, token, now, maxTokens);
      && r.Success?
      && var (t', info) := r.value;
      && info == RegisterInfo(false, |t.records|)
      && t'.records.Keys == t.records.Keys
      && t'.order == t.order
      && t'.records[token].isActive
      && t'.records[token].lastActive == now
      && t'.records[token].registeredAt == t.records[token].registeredAt
      && t'.records[token].successfulSends == t.records[token].successfulSends
      && t'.records[token].failedSends == t.records[token].failedSends
      && t'.records[token].token == token
      && (forall k :: k in t.records && k != token ==> t'.records[k] == t.records[k])
  {
  }

  /**
   Registering a new token adds exactly that key, at the end of the order, with
   zero counters, active, and created and last active at `now`; it reports
   `is_new = true` with the new size. Every active record survives unchanged
   and no record other than the new one appears.
   */
  lemma RegisterNew(t: Table, token: string, now: nat, maxTokens: int)
    requires Valid(t) && token != "" && token !in t.records
    ensures var r := Register(t, token, now, maxTokens);
      && r.Success?
      && var (t', info) := r.value;
      && info.isNew
      && info.tokenCount == |t'.records|
      && token in t'.records
      && t'.records[token].token == token
      && t'.records[token].isActive
      && t'.records[token].successfulSends == 0
      && t'.records[token].failedSends == 0
      && t'.records[token].registeredAt == now
      && t'.records[token].lastActive == now
      && |t'.order| > 0 && t'.order[|t'.order| - 1] == token
      && (forall k :: k in t.records && t.records[k].isActive ==> k in t'.records && t'.records[k] == t.records[k])
      && (forall k :: k in t'.records && k != token ==> k in t.records && t'.records[k] == t.records[k])
  {
  }

  /** Below capacity a new token is simply appended: nothing else changes. */
  lemma RegisterNewBelowCapacity(t: Table, token: string, now: nat, maxTokens: int)
    requires Valid(t) && token != "" && token !in t.records
    requires |t.records| < maxTokens
    ensures var t' := Register(t, token, now, maxTokens).value.0;
      && t'.records == t.records[token := NewRecord(token, now)]
      && t'.order == t.order + [token]
      && |t'.records| == |t.records| + 1
  {
  }

  /**
   At or above capacity the inactive tokens are swept before the new token is
   appended: exactly they disappear, the active ones keep their order, and the
   size becomes the number of active tokens plus one.
   */
  lemma RegisterNewAtCapacity(t: Table, token: string, now: nat, maxTokens: int)
    requires Valid(t) && token != "" && token !in t.records
    requires |t.records| >= maxTokens
    ensures var t' := Register(t, token, now, maxTokens).value.0;
      && (forall k :: k in t.records && !t.records[k].isActive ==> k !in t'.records)
      && (forall k :: k in t.records && t.records[k].isActive ==> k in t'.records)
      && t'.order == ActiveIn(t.order, t.records) + [token]
      && |t'.records| == |ActiveIn(t.order, t.records)| + 1
  {
    CleanupSpec(t);
  }

  /**
   There is no hard bound: when every token is active, registering a new one at
   capacity sweeps nothing and the dictionary grows past `maxTokens`.
   */
  lemma RegisterBeyondCapacity(t: Table, token: string, now: nat, maxTokens: int)
    requires Valid(t) && token != "" && token !in t.records
    requires |t.records| >= maxTokens
    requires forall k :: k in t.records ==> t.records[k].isActive
    ensures |Register(t, token, now, maxTokens).value.0.records| == |t.records| + 1 > maxTokens
  {
    RegisterNewAtCapacity(t, token, now, maxTokens);
    ActiveInAllActive(t.order, t.records);
    ValidSize(t);
  }

  /** Registering the same token twice creates one entry: the second call reports it as known. */
  lemma RegisterTwice(t: Table, token: string, now: nat, later: nat, maxTokens: int)
    requires Valid(t) && token != ""
    ensures var (t1, info1) := Register(t, token, now, maxTokens).value;
      && var r2 := Register(t1, token, later, maxTokens);
      && r2.Success?
      && !r2.value.1.isNew
      && r2.value.1.tokenCount == info1.tokenCount
      && r2.value.0.records.Keys == t1.records.Keys
      && r2.value.0.order == t1.order
  {
    var (t1, info1) := Register(t, token, now, maxTokens).value;
    RegisterKeepsValid(t, token, now, maxTokens);
    if token in t.records {
      RegisterExisting(t, token, now, maxTokens);
    } else {
      RegisterNew(t, token, now, maxTokens);
    }
    RegisterExisting(t1, token, later, maxTokens);
  }

  // ---------------------------------------------------------------------------
  // remove_token

  /** Delete a token; the flag says whether it was there. */
  function Remove(t: Table, token: string): (r: (Table, bool))
    ensures r.1 <==> token in t.records
    ensures token !in r.0.records && r.0.records.Keys == t.records.Keys - {token}
    ensures forall k :: k in r.0.records ==> r.0.records[k] == t.records[k]
    ensures forall k :: k in r.0.order <==> k in t.order && (k != token || !r.1)
  {
    if token in t.records then (Table(t.records - {token}, Except(t.order, {token})), true)
    else (t, false)
  }

  /**
   `remove_token` reports true exactly when the token was present; afterwards
   it is absent and every other entry is as it was.
   */
  lemma RemoveSpec(t: Table, token: string)
    requires Valid(t)
    ensures var (t', removed) := Remove(t, token);
      && (removed <==> token in t.records)
      && Valid(t')
      && token !in t'.records
      && t'.records.Keys == t.records.Keys - {token}
      && (forall k :: k in t'.records ==> t'.records[k] == t.records[k])
      && |t'.records| == if removed then |t.records| - 1 else |t.records|
  {
    ExceptDistinct(t.order, {token});
  }

  /** Removing is idempotent: the second call reports false and changes nothing. */
  lemma RemoveTwice(t: Table, token: string)
    requires Valid(t)
    ensures var (t1, _) := Remove(t, token);
      Remove(t1, token) == (t1, false)
  {
    RemoveSpec(t, token);
  }
}
