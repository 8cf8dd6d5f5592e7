# Twitter user session store — a Dafny model

`TwitterUserSessionStore` reads a log of `user_id,timestamp,action` records
in arrival order. For each user it computes a running average session
duration. A session is an `open` record matched with the next `close`
record for the same user. The store keeps three dictionaries:

- `open_sessions`: user to start timestamp of the pending session.
- `user_session_counter`: user to number of completed sessions (a
  default-0 dictionary).
- `user_average`: user to the running mean duration.

A `close` with nothing pending is reported and dropped. An `open` that
arrives while one is pending is handled by the `consider_missing_close`
policy. If the policy is set, the new open closes the old session.
Otherwise the old session is silently dropped. Sessions still open at the
end of a day can be seeded into the next run from a residual file.

The model has four modules:

- `RunningMean` (RunningMean.dfy): sum and exact mean of a sequence of
  durations, and the textbook update `A_k = A_{k-1} + (d_k - A_{k-1}) / k`.
- `Reconciler` (Reconciler.dfy): the store's behaviour as pure functions
  over a `Tables` value holding the three dictionaries.
  - `IncrAverage` is `get_incr_average`.
  - `EndSession` is `end_session`.
  - `Ingest` is one line of `process_log_file`, and `Run` is the whole
    loop.
  - `Preload` is `load_incomplete_sessions`.
  - `ClosedBy` and `Log` are an independent reading of which records
    complete a session and with what duration. `Summarises` states that the
    counters and averages are the count and exact mean of those durations.
- `SessionStore` (SessionStore.dfy): the class `TwitterUserSessionStore`.
  Its three `map` fields are updated in place. Each method is proved
  against the matching `Reconciler` function. The methods keep the
  invariant `Valid()`: the tables summarise the ghost list `Sessions` of
  every session recorded so far.
- `Scenarios` (Scenarios.dfy): small logs with literal expected results.

Modelling decisions:

- Records are already parsed. The action is `Open`, `Close` or `Other`, and
  the source ignores any other action text. Timestamps are `int`. Averages
  are `real` with exact division.
- "Has an open session" is tested by key membership. In the source the
  stored timestamps are strings, so the `-1` default at
  `TwitterLogReader/TwitterUserSessionStore.py:120-122` only matches when
  the key is absent. An integer model that kept the sentinel would wrongly
  treat a real timestamp of -1 as "no open session".
- Durations are not checked for order. A close earlier than its open gives
  a negative duration, as in the source (`Scenarios.NegativeDuration`).

Divisor of the running average: `end_session` increments the counter at
line 85 before `get_incr_average` reads it at line 69 (called from line
86). The divisor is therefore the count that already includes the new
session, and the `.get(user_id, 1)` default is never used on this path.
Reading the divisor as the count before the increment would give 60 for
open 100, open 200, close 260 under the reconcile policy. The code
increments first and gives 80, the mean of 100 and 60
(`Scenarios.ReconcileRepeatedOpen`). In general the stored average is the
exact mean of the user's durations (`Reconciler.AverageIsMeanOfDurations`).

## Model

| member | source | states |
|---|---|---|
| `RunningMean.MeanAppend` | TwitterLogReader/TwitterUserSessionStore.py:60-72 | Folding one more duration into the mean of n durations with divisor n + 1, using the formula the method cites, gives exactly the mean of all n + 1 durations |
| `Reconciler.IncrAverage` | TwitterLogReader/TwitterUserSessionStore.py:60-72 | With divisor 1 (counter 1, or absent) the result is the new duration, whatever the previous average. With stored count k, k times the result equals (k - 1) times the previous average plus the duration, so the result is the mean of k samples |
| `Reconciler.IncrAverageIsMean` | TwitterLogReader/TwitterUserSessionStore.py:68-71 | When the counter already counts the new session and the stored average is the mean of the earlier durations, the new average is the mean of the earlier durations followed by the new one |
| `Reconciler.EndSession` | TwitterLogReader/TwitterUserSessionStore.py:74-87 | Removes the user's open session. Increments its counter by exactly 1, starting from 0 when absent. Stores an average for it, equal to the duration on its first session. Leaves every other user's counter and average unchanged |
| `Reconciler.EndSessionUpdatesUser` | TwitterLogReader/TwitterUserSessionStore.py:84-87 | If the user's counter and average were the count and mean of its recorded durations, they still are once end - start is appended |
| `Reconciler.EndSessionKeepsOthers` | TwitterLogReader/TwitterUserSessionStore.py:84-87 | Ending one user's session leaves every other user's recorded durations, counter and average as they were |
| `Reconciler.EndSessionKeepsSummary` | TwitterLogReader/TwitterUserSessionStore.py:74-87 | `end_session` preserves, for all users at once, "counters and averages are the count and exact mean of the recorded durations", with the new session appended |
| `Reconciler.Ingest` | TwitterLogReader/TwitterUserSessionStore.py:106-127 | After an open for u at t, open_sessions[u] == t whatever the policy or prior state. A close with no open session, or an unknown action, changes nothing. A matched close removes u's open session and adds 1 to its counter. A repeated open adds 1 to the counter under the reconcile policy. Otherwise it leaves counters and averages untouched. Other users' entries in all three maps are unchanged |
| `Reconciler.Empty` | TwitterLogReader/TwitterUserSessionStore.py:46-48 | A fresh store has no open session, and every user has count 0 and average 0. This state summarises the empty log of sessions |
| `Reconciler.ClosedBy` | TwitterLogReader/TwitterUserSessionStore.py:109-127 | Reference definition of which records complete a session. A record completes at most one. It completes one exactly when its user has a pending open and it is a close, or an open under the reconcile policy. That session is the record's user's and lasts from the pending start to the record's timestamp. The user's counter after `Ingest` grows by exactly the number of sessions completed |
| `Reconciler.Run` | TwitterLogReader/TwitterUserSessionStore.py:106-127 | The `for` loop over the log's records, one `Ingest` per record in order. No user's counter ever decreases |
| `Reconciler.RunFrame` | TwitterLogReader/TwitterUserSessionStore.py:106-127 | A user that no record of the log names keeps its entries, or their absence, in all three tables |
| `Reconciler.SummaryIgnoresOpenSessions` | TwitterLogReader/TwitterUserSessionStore.py:117 | Setting or overwriting start timestamps never disturbs the counters and averages |
| `Reconciler.IngestKeepsSummary` | TwitterLogReader/TwitterUserSessionStore.py:109-127 | One record keeps the counters and averages equal to the count and exact mean of the recorded durations, extended by exactly the sessions that ClosedBy says the record completes |
| `Reconciler.RunKeepsSummary` | TwitterLogReader/TwitterUserSessionStore.py:106-127 | The same over any sequence of records, from any consistent starting state |
| `Reconciler.AverageIsMeanOfDurations` | TwitterLogReader/TwitterUserSessionStore.py:84-86 | After any log fed to a fresh store, each user's counter equals the number of sessions completed for it. The counter is absent exactly when there are none. The user's average is the exact mean (d_1 + ... + d_k) / k of those durations |
| `Reconciler.Preload` | TwitterLogReader/TwitterUserSessionStore.py:55-58 | Preloading computes no durations and leaves counters and averages untouched |
| `Reconciler.LastOpen` | TwitterLogReader/TwitterUserSessionStore.py:55-58 | Reference reading of the residual records: None exactly when the user has no open record. Otherwise the timestamp of an open record for the user with no later open record for it |
| `Reconciler.PreloadLastWriteWins` | TwitterLogReader/TwitterUserSessionStore.py:55-58 | After preloading, a user with an open record starts at its last one (later records overwrite earlier ones). A user without one keeps its previous entry, or its absence. Records with other actions add nothing |
| `SessionStore.TwitterUserSessionStore.constructor` | TwitterLogReader/TwitterUserSessionStore.py:42-48 | A new store has three empty tables and satisfies the invariant |
| `SessionStore.TwitterUserSessionStore.EndSession` | TwitterLogReader/TwitterUserSessionStore.py:74-87 | The in-place update equals `Reconciler.EndSession` on the old tables. The session end - start is appended to the recorded sessions. The invariant is kept |
| `SessionStore.TwitterUserSessionStore.LoadIncompleteSessions` | TwitterLogReader/TwitterUserSessionStore.py:50-58 | The loop over the residual records leaves the tables equal to `Reconciler.Preload` of the old tables. It records no session and keeps the invariant |
| `SessionStore.TwitterUserSessionStore.ProcessLine` | TwitterLogReader/TwitterUserSessionStore.py:107-127 | One line updates the tables to `Reconciler.Ingest` of the old tables. It appends exactly the sessions `ClosedBy` names and keeps the invariant. It reports an unmatched record exactly when the line is a close for a user with no open session |
| `SessionStore.TwitterUserSessionStore.ProcessLogFile` | TwitterLogReader/TwitterUserSessionStore.py:89-128 | After the optional preload, the tables equal `Reconciler.Run` over the log. The recorded sessions grow by `Reconciler.Log`. The invariant is kept, so every average is the exact mean of its user's sessions |
| `Scenarios.SingleSession` | TwitterLogReader/TwitterUserSessionStore.py:106-127 | open 100, close 160 gives one session and an average of 60 |
| `Scenarios.ReconcileRepeatedOpen` | TwitterLogReader/TwitterUserSessionStore.py:111-117 | open 100, open 200, close 260 with the reconcile policy records sessions of 100 and 60, a counter of 2 and an average of 80 |
| `Scenarios.IgnoreRepeatedOpen` | TwitterLogReader/TwitterUserSessionStore.py:111-117 | The same log with the ignore policy records only the session of 60 |
| `Scenarios.UnmatchedClose` | TwitterLogReader/TwitterUserSessionStore.py:119-125 | A lone close leaves all three tables empty |
| `Scenarios.NegativeDuration` | TwitterLogReader/TwitterUserSessionStore.py:84 | A close earlier than its open is accepted with a negative duration |
| `Scenarios.CarryOverToNextRun` | TwitterLogReader/TwitterUserSessionStore.py:55-58 | An open left pending in one run, preloaded into the next and closed there, gives the expected duration |

## Left out

- File I/O is not modelled: opening and iterating the log and residual
  files, the residual file path, and the `log_file_location` attribute. The
  model takes sequences of records instead.
- Text parsing is not modelled: `strip().split(",")` and `int(...)`. The
  model takes well-formed records, with the action as `Open`, `Close` or
  `Other`. In the source, a line without exactly three fields raises when it
  is read. A non-integer timestamp is stored as text and raises only at
  `int(...)` in `end_session`. If its open is overwritten under the ignore
  policy, or stays pending, it never raises. The model has no such
  timestamps.
- The unmatched-close diagnostic is not printed. `ProcessLine` returns it
  as a boolean, and `ProcessLogFile` drops it.
- `write_incomplete_sessions` is not modelled, so neither is a
  write-then-load round trip. The source writes records with no line
  separator, so a residual file with more than one session cannot be read
  back line by line. No round-trip property is claimed.
- Resuming a split log in a fresh store carries over only the open
  sessions. The counters and averages are not carried, so no equality of
  final statistics between split and uninterrupted runs is claimed.
- Floating-point rounding is not modelled. Averages use exact `real`
  division. Python 2 would use floor division on integers, which is not
  modelled either.
- The `__main__` driver is not modelled, and neither are the default
  argument values of `process_log_file`
  (`consider_missing_close=True`, both file flags false). The policy and
  `read_incomplete_session_file` are explicit parameters of
  `ProcessLogFile`. The `write_incomplete_session_file` flag is dropped,
  together with `write_incomplete_sessions`.
- `Reconciler.IncrAverage` requires that a stored counter is not 0. The
  source would divide by zero there. That never happens, because a counter
  entry is created only by the increment in `end_session`.
