# FCM token registry — a Dafny model

This project models the in-memory token registry of the Python FCM push server
(`TokenManager` in `server-python/main.py`). It also models the part of the `/send`
route that belongs to the registry's logic. The registry maps each FCM device token
to a record. A record holds its creation time, its last activity time, its successful
and failed send counts, and an activity flag. The registry's operations are:

- register or refresh a token, sweeping out inactive tokens when the capacity is reached;
- remove a token;
- list the active tokens;
- fold per-token send results into the counters and the activity flags;
- report aggregate statistics.

The route refuses a broadcast when no token is active. Otherwise it sends to every
active token and splits the results into successes and failures.

Layout, one module per file:

- `wrappers.dfy` (`Wrappers`): `Option` and `Result`.
- `records.dfy` (`TokenRecords`): the `FCMToken` record, the send result
  (`Outcome`: token, success flag, optional error code) and the two deactivating
  error codes.
- `table.dfy` (`TokenTable`): the dictionary as a value. It is a map plus the key
  insertion order, because a Python dict iterates in insertion order. This file
  defines registration, removal and the inactivity sweep as functions, with their
  lemmas.
- `feedback.dfy` (`Feedback`): `update_token_stats` as a fold over the results, and
  its exact per-token effect.
- `statistics.dfy` (`Statistics`): `get_stats`, its consistency, and how the
  totals move under feedback and under the sweep.
- `manager.dfy` (`Manager`): the class `TokenManager`. Its fields are the records
  and the order. Its methods update them in place, with loops where the source
  loops. Each method is proved to reach the state that the functions above give
  for the old state.
- `broadcast.dfy` (`Broadcast`): the route's no-target check, the send loop and
  the success/failure split, with the messaging service as a parameter.

The model follows the code as written. In particular:

- A successful send does not set `is_active` back to true. It only counts the send
  and refreshes `last_active`.
- The capacity sweep removes only inactive tokens. There is no time-based expiry
  window.
- The active list comes in dictionary insertion order. It is not sorted by last
  activity.
- Registration takes only a token. There are no identities, selection flags,
  registration counts, batching or message history.
- The `/send` route does not feed its results back. The `update_token_stats` call
  is commented out (`server-python/main.py:397`). The model keeps that operation
  separate. The `BroadcastFeedback…` lemmas state what the call would do if it
  were enabled.
- Removing an unknown token is a normal `false` result, not an error.

## Model

| member | source | states |
|---|---|---|
| `TokenRecords.NewRecord` | server-python/main.py:26-34 | a fresh record is for the given token, active, with no counted sends, and registered and last active now, as the dataclass defaults and main.py:147-151 give |
| `Feedback.Absorb` | server-python/main.py:165-175 | one result keeps the token and creation time and counts exactly one send; a success refreshes `last_active` and never changes `is_active`; a failure keeps `last_active` and leaves the token active iff it was active and the code is neither UNREGISTERED nor INVALID_ARGUMENT (the membership test at main.py:174, `TokenRecords.Deactivates`) |
| `TokenTable.Cleanup` | server-python/main.py:178-188 | the swept dictionary holds exactly the active tokens, each with its record unchanged, and its order lists exactly those of them that were listed |
| `TokenTable.Remove` | server-python/main.py:203-211 | the flag is true iff the token was present; afterwards it is absent, the other keys and their records are unchanged, and the order loses only that token |
| `Statistics.StatsOf` | server-python/main.py:190-202 | `total_tokens` is the number of tokens, `active_tokens` the length of the active list, and active plus inactive is the total; the sums at main.py:192-194 are `Statistics.Total` over the dictionary order |
| `TokenTable.ActiveIn` | server-python/main.py:155-157 | a key is in the active list iff it is in the dictionary and its record is active |
| `TokenTable.ActiveInDistinct` | server-python/main.py:155-157 | the active list names each token at most once |
| `TokenTable.InactiveIn` | server-python/main.py:180-183 | a key is in the sweep's list iff it is in the dictionary and its record is inactive |
| `TokenTable.InactiveInDistinct` | server-python/main.py:180-183 | the sweep's list names each token once, so every deletion finds its key |
| `TokenTable.Except` | server-python/main.py:185-186 | deleting keys from the order keeps exactly the keys not deleted |
| `TokenTable.ExceptDistinct` | server-python/main.py:205-206 | deleting keys keeps the order free of repeats |
| `TokenTable.ExceptTwice` | server-python/main.py:185-186 | deleting one more key after a batch equals deleting the larger batch at once |
| `TokenTable.ExceptInactive` | server-python/main.py:178-188 | deleting exactly the inactive keys leaves the active keys in their original order |
| `TokenTable.ActiveInactiveSplit` | server-python/main.py:192-199 | active and inactive tokens together are as many as the tokens |
| `TokenTable.SweepStep` | server-python/main.py:185-186 | each `del` of the sweep finds its key present and removes the first i+1 listed keys in total |
| `TokenTable.SweepComplete` | server-python/main.py:178-188 | deleting every listed inactive key one by one gives the swept dictionary |
| `TokenTable.CleanupKeepsValid` | server-python/main.py:178-188 | the sweep keeps the dictionary invariant |
| `TokenTable.CleanupSpec` | server-python/main.py:178-188 | the sweep removes exactly the inactive tokens, every active record survives unchanged, and the active list is unchanged |
| `TokenTable.CleanupIdempotent` | server-python/main.py:178-188 | a second sweep removes nothing |
| `TokenTable.Register` | server-python/main.py:128-153 | registration fails (ValueError) iff the token is empty |
| `TokenTable.RegisterKeepsValid` | server-python/main.py:128-153 | registration keeps every key listed once and every record filed under its own token |
| `TokenTable.RegisterExisting` | server-python/main.py:135-140 | re-registering adds no key, reactivates the token, sets `last_active` to now, keeps the creation time and both counters, changes no other record, and reports `is_new = false` with the unchanged size |
| `TokenTable.RegisterNew` | server-python/main.py:141-153 | a new token is added at the end of the order with zero counters, active, and both times set to now; the reply is `is_new = true` with the new size; every active record survives unchanged and no other record appears |
| `TokenTable.RegisterNewBelowCapacity` | server-python/main.py:141-153 | below `max_tokens` the new record is simply appended and nothing else changes |
| `TokenTable.RegisterNewAtCapacity` | server-python/main.py:143-151 | at or above `max_tokens` exactly the inactive tokens are swept before the insert; the active ones keep their order; the size becomes the active count plus one |
| `TokenTable.RegisterBeyondCapacity` | server-python/main.py:143-151 | when no token is inactive, a new token at capacity makes the dictionary grow past `max_tokens` |
| `TokenTable.RegisterTwice` | server-python/main.py:135-153 | registering the same token twice leaves one entry; the second call reports it as known with the same count |
| `TokenTable.RemoveSpec` | server-python/main.py:203-211 | removal reports true iff the token was present; afterwards it is absent, all other entries are unchanged, and the size drops by one exactly when it was present |
| `TokenTable.RemoveTwice` | server-python/main.py:203-211 | a second removal of the same token reports false and changes nothing |
| `Feedback.ApplyOutcome` | server-python/main.py:162-176 | one result never changes the key set, changes nothing for an unknown token, and changes no other token's record |
| `Feedback.ApplyOutcomes` | server-python/main.py:159-176 | the whole fold keeps the key set, each record's token and creation time, and never lowers a counter |
| `Feedback.ApplyOutcomesAt` | server-python/main.py:159-176 | for a known token: successes add to `successful_sends`, failures add to `failed_sends`, the token stays active iff no failure carried UNREGISTERED or INVALID_ARGUMENT, and `last_active` is now iff some send succeeded |
| `Statistics.ActiveTotal` | server-python/main.py:192 | the active count equals the length of the active-token list |
| `Statistics.StatsConsistent` | server-python/main.py:190-202 | `active_tokens` is the number of active tokens, `inactive_tokens` the number of inactive ones (never negative), and they add up to `total_tokens` |
| `Statistics.TotalUpdate` | server-python/main.py:193-194 | replacing one record changes a sum by the difference between the new and the old record |
| `Statistics.ApplyOutcomeTotals` | server-python/main.py:164-176 | one result for a known token adds exactly one to the success or the failure total and never raises the active count |
| `Statistics.FeedbackSums` | server-python/main.py:159-176 | folding results raises each sum by exactly the known successes or failures |
| `Statistics.FeedbackTotals` | server-python/main.py:190-202 | after `update_token_stats`, the statistics' totals rose by exactly the successes and failures reported for known tokens, the token count is unchanged, and the active count did not rise |
| `Statistics.CleanupStats` | server-python/main.py:178-188 | after the sweep, no token is inactive and the total equals the old active count |
| `Manager.TokenManager.constructor` | server-python/main.py:123-126 | a new manager is empty, valid, and has the given capacity |
| `Manager.TokenManager.RegisterToken` | server-python/main.py:128-153 | the new state and the reply are those of `Register`; on failure the state is unchanged |
| `Manager.TokenManager.GetActiveTokens` | server-python/main.py:155-157 | returns every active token, each once, and nothing else |
| `Manager.TokenManager.UpdateTokenStats` | server-python/main.py:159-176 | the loop leaves the records as `ApplyOutcomes` of the old records, and leaves the order unchanged |
| `Manager.TokenManager.CleanupInactiveTokens` | server-python/main.py:178-188 | the listing-then-deleting loop reaches exactly `Cleanup` of the old state |
| `Manager.TokenManager.GetStats` | server-python/main.py:190-202 | `total_tokens` is the size, `active_tokens` the length of the active list, and active plus inactive (never negative) is the total |
| `Manager.TokenManager.RemoveToken` | server-python/main.py:203-211 | the new state and the flag are those of `Remove` |
| `Broadcast.SendResult` | server-python/main.py:87-118 | a result is for the token sent to; it is a success iff the service accepted; a success has no error code; it deactivates iff the service raised UnregisteredError or InvalidArgumentError |
| `Broadcast.SendAll` | server-python/main.py:390-394 | one result per active token, in the same order, each successful iff the service accepted that token |
| `Broadcast.SendAllAt` | server-python/main.py:390-394 | the i-th result is the one built for the i-th active token |
| `Broadcast.Successes` | server-python/main.py:400 | the successes are exactly the successful results |
| `Broadcast.Failures` | server-python/main.py:401 | the failures are exactly the failed results |
| `Broadcast.PartitionSizes` | server-python/main.py:399-408 | `sent + failed` equals the number of results |
| `Broadcast.PartitionMultiset` | server-python/main.py:399-401 | successes and failures together are the results, with multiplicity |
| `Broadcast.SendPush` | server-python/main.py:378-414 | refused (no active tokens) iff no token is active; otherwise the report holds the split of the per-token results, and `sent + failed` equals the number of active tokens |
| `Broadcast.AllKnownCounts` | server-python/main.py:164 | when every result names a known token, each success and each failure is counted in the feedback |
| `Broadcast.BroadcastFeedbackTotals` | server-python/main.py:396-397 | feeding a broadcast's results back would raise the statistics' totals by exactly `sent` and `failed` |
| `Broadcast.ScenarioRegistration` | server-python/main.py:141-153 | registering "tok-A" then "tok-B" into an empty registry gives two fresh active records in that order |
| `Broadcast.ScenarioBroadcast` | server-python/main.py:390-401 | broadcasting to them, with "tok-B" reported unregistered, gives one result per token in registration order: one success and one failure |
| `Broadcast.ScenarioFeedback` | server-python/main.py:159-176 | feeding those results back leaves "tok-B" inactive with one failed send, and gives "tok-A" one successful send and a refreshed `last_active` |
| `Broadcast.BroadcastFeedbackDeactivates` | server-python/main.py:396-397 | feeding a broadcast's results back would deactivate every active token the service reported as unregistered or invalid |

## Left out

- `FCMService` (`server-python/main.py:39-118`) is not modelled beyond its result shape. Firebase initialisation, the credential file check and `messaging.send` are foreign calls. The service is the parameter `send`, which gives the service's answer per token. `SendResult` builds the result dictionary from that answer.
- The result's `response` message id and `error` text are not modelled. Only the token, the success flag and the error code are.
- Flask routes, JSON parsing, HTTP status codes, CORS, the request logging hooks, the error handlers, the health check, `/tokens`, `/stats` and the start-up block are web plumbing (`server-python/main.py:213-486`). The only exception is the `/send` logic in `Broadcast`.
- The title, body and message payload of a broadcast are hidden inside `send`. The route's catch-all exception handler is not modelled.
- Logging calls are not modelled.
- Environment variables are not modelled. `max_tokens` is the constructor parameter, and `Manager.DefaultMaxTokens` records the default of 10000.
- Wall-clock timestamps and ISO formatting are not modelled. A caller-supplied `now: nat` stands for `datetime.now()`.
- Manager.TokenManager.UpdateTokenStats: reads one `now` for the whole call, while the source reads the clock again at each success. All successes of one call therefore get the same `last_active`.
- `register_token`'s `isinstance(token, str)` check is not modelled, because the Dafny type already makes the token a string. Only the empty-token refusal remains.
- `FCMToken.to_dict` is not modelled. It is serialisation only.
- The records are values in a map, not mutable objects. The source never shares a record between two keys, so no aliasing is lost.
- Manager.TokenManager.GetActiveTokens: returns the dictionary keys, not each record's `token` field. The invariant `Valid` makes the two equal.
- Broadcast.SendPush: states that a refused broadcast carries no results. Because `send` is a pure function, it cannot state that no send was attempted.
- Concurrency between requests is not modelled. `TokenManager` takes no lock and the server may handle requests on several threads; the model treats each method call as atomic.
