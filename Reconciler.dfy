/**
  The session reconciler of TwitterUserSessionStore as pure functions over a
  snapshot of its three tables. The class in SessionStore.dfy performs the
  same updates in place and is proved against these functions.

  Divisor convention: `end_session` increments the user's session counter
  before `get_incr_average` reads it, so the divisor is the count that
  includes the session being added and the running average is the exact
  mean of the user's recorded durations (see AverageIsMeanOfDurations).
 */
module Reconciler {
  import opened RunningMean

  type UserId = string

  /** The action field of a log record. Any text other than "open" or
      "close" is `Other`; the reconciler ignores such records. */
  datatype Action = Open | Close | Other

  /** One already-parsed log record `user_id,timestamp,action`. */
  datatype Event = Event(user: UserId, timestamp: int, action: Action)

  datatype Option<T> = None | Some(value: T)

  /** A completed session: the user and its duration. */
  datatype Sample = Sample(user: UserId, duration: int)

  /** The reconciler's state: `open_sessions` (user to start timestamp),
      `user_session_counter` (completed sessions per user, absent meaning 0)
      and `user_average` (running mean duration per user). */
  datatype Tables = Tables(
    openSessions: map<UserId, int>,
    sessionCounter: map<UserId, nat>,
    userAverage: map<UserId, real>)

  /** The state of a freshly constructed store: no open sessions, every
      user at count 0 and average 0, which summarises the empty log. */
  function Empty(): (r: Tables)
    ensures forall u :: u !in r.openSessions && Count(r, u) == 0 && AverageOf(r, u) == 0.0
    ensures Summarises(r, [])
  {
    Tables(map[], map[], map[])
  }

  /** The session counter read as a default-0 dictionary. */
  function Count(t: Tables, user: UserId): nat
  {
    if user in t.sessionCounter then t.sessionCounter[user] else 0
  }

  /** The running average of a user, 0 before the first completed session. */
  function AverageOf(t: Tables, user: UserId): real
  {
    if user in t.userAverage then t.userAverage[user] else 0.0
  }

  /** `get_incr_average`: the previous average (default 0) moved towards the
      new duration by 1/k, where k is the stored counter (default 1). A
      stored count of 0 would divide by zero, so it is excluded. */
  function IncrAverage(t: Tables, user: UserId, duration: int): (r: real)
    requires user in t.sessionCounter ==> t.sessionCounter[user] != 0
    // a divisor of 1 makes the result the new duration, whatever came before
    ensures user !in t.sessionCounter || t.sessionCounter[user] == 1 ==> r == duration as real
    // r is the mean of k samples whose first k - 1 have mean AverageOf(t, user)
    ensures user in t.sessionCounter ==>
      (t.sessionCounter[user] as real) * r
        == ((t.sessionCounter[user] - 1) as real) * AverageOf(t, user) + (duration as real)
  {
    var prevAverage := AverageOf(t, user);
    var sessionCount := if user in t.sessionCounter then t.sessionCounter[user] else 1;
    prevAverage + ((duration as real) - prevAverage) / (sessionCount as real)
  }

  /** `end_session`: count one more session of duration end - start for the
      user, fold it into the average, and close the user's open session. */
  function EndSession(t: Tables, user: UserId, start: int, end: int): (r: Tables)
    requires user in t.openSessions
    ensures r.openSessions == t.openSessions - {user}
    ensures user in r.sessionCounter && Count(r, user) == Count(t, user) + 1
    ensures user in r.userAverage
    ensures Count(t, user) == 0 ==> r.userAverage[user] == (end - start) as real
    ensures r.sessionCounter - {user} == t.sessionCounter - {user}
    ensures r.userAverage - {user} == t.userAverage - {user}
    ensures r.sessionCounter.Keys == t.sessionCounter.Keys + {user}
    ensures r.userAverage.Keys == t.userAverage.Keys + {user}
  {
    var duration := end - start;
    var counted := t.(sessionCounter := t.sessionCounter[user := Count(t, user) + 1]);
    var average := IncrAverage(counted, user, duration);
    counted.(userAverage := t.userAverage[user := average],
             openSessions := t.openSessions - {user})
  }

  /** The per-record step of `process_log_file`. */
  function Ingest(t: Tables, e: Event, considerMissingClose: bool): (r: Tables)
    // an open always (re)starts the user's session at its timestamp
    ensures e.action == Open ==> e.user in r.openSessions && r.openSessions[e.user] == e.timestamp
    // a close with nothing to match, or an unknown action, changes nothing
    ensures e.action == Close && e.user !in t.openSessions ==> r == t
    ensures e.action == Other ==> r == t
    // a matched close ends the session and counts it
    ensures e.action == Close && e.user in t.openSessions ==>
      e.user !in r.openSessions && Count(r, e.user) == Count(t, e.user) + 1
    // a repeated open under the reconcile policy counts the old session ...
    ensures e.action == Open && e.user in t.openSessions && considerMissingClose ==>
      Count(r, e.user) == Count(t, e.user) + 1
    // ... and otherwise leaves the user's statistics alone
    ensures e.action == Open && (e.user !in t.openSessions || !considerMissingClose) ==>
      r.sessionCounter == t.sessionCounter && r.userAverage == t.userAverage
    // no other user is affected
    ensures r.openSessions - {e.user} == t.openSessions - {e.user}
    ensures r.sessionCounter - {e.user} == t.sessionCounter - {e.user}
    ensures r.userAverage - {e.user} == t.userAverage - {e.user}
  {
    match e.action
    case Open =>
      var closed :=
        if e.user in t.openSessions && considerMissingClose
        then EndSession(t, e.user, t.openSessions[e.user], e.timestamp)
        else t;
      closed.(openSessions := closed.openSessions[e.user := e.timestamp])
    case Close =>
      if e.user in t.openSessions
      then EndSession(t, e.user, t.openSessions[e.user], e.timestamp)
      else t
    case Other => t
  }

  /** The sessions a record completes, as an independent reading of the
      rules: a matched close, or a repeated open under the reconcile policy,
      completes the pending session; nothing else completes one. */
  function ClosedBy(t: Tables, e: Event, considerMissingClose: bool): (s: seq<Sample>)
    ensures |s| <= 1
    ensures s != [] <==>
      e.user in t.openSessions && (e.action == Close || (e.action == Open && considerMissingClose))
    ensures s != [] ==> s[0] == Sample(e.user, e.timestamp - t.openSessions[e.user])
    // the record's user gains exactly one count per completed session
    ensures Count(Ingest(t, e, considerMissingClose), e.user) == Count(t, e.user) + |s|
  {
    if e.user in t.openSessions
       && (e.action == Close || (e.action == Open && considerMissingClose))
    then [Sample(e.user, e.timestamp - t.openSessions[e.user])]
    else []
  }

  /** The users the records name. */
  function Users(events: seq<Event>): set<UserId>
  {
    set i | 0 <= i < |events| :: events[i].user
  }

  /** The state after ingesting the records in order (the `for` loop of
      `process_log_file`). */
  function Run(t: Tables, events: seq<Event>, considerMissingClose: bool): (r: Tables)
    // counters never go down
    ensures forall u :: Count(t, u) <= Count(r, u)
  {
    if events == [] then t
    else Ingest(Run(t, events[..|events| - 1], considerMissingClose), events[|events| - 1], considerMissingClose)
  }

  /** A user the records do not name keeps all three of its entries. */
  lemma {:induction false} RunFrame(t: Tables, events: seq<Event>, considerMissingClose: bool)
    ensures var r := Run(t, events, considerMissingClose);
            && r.openSessions - Users(events) == t.openSessions - Users(events)
            && r.sessionCounter - Users(events) == t.sessionCounter - Users(events)
            && r.userAverage - Users(events) == t.userAverage - Users(events)
  {
    if events != [] {
      var before := events[..|events| - 1];
      var e := events[|events| - 1];
      var mid := Run(t, before, considerMissingClose);
      var r := Ingest(mid, e, considerMissingClose);
      RunFrame(t, before, considerMissingClose);
      assert Users(events) == Users(before) + {e.user} by {
        assert forall i :: 0 <= i < |before| ==> before[i] == events[i];
      }
      AgreeOutsideGrows(t.openSessions, mid.openSessions, r.openSessions, Users(before), e.user);
      AgreeOutsideGrows(t.sessionCounter, mid.sessionCounter, r.sessionCounter, Users(before), e.user);
      AgreeOutsideGrows(t.userAverage, mid.userAverage, r.userAverage, Users(before), e.user);
    }
  }

  /** Two maps that agree outside `users`, and a third that agrees with the
      second except at `u`, agree with the first outside `users + {u}`. */
  lemma AgreeOutsideGrows<V>(a: map<UserId, V>, b: map<UserId, V>, c: map<UserId, V>,
                             users: set<UserId>, u: UserId)
    requires b - users == a - users
    requires c - {u} == b - {u}
    ensures c - (users + {u}) == a - (users + {u})
  {
    forall k | k !in users && k != u
      ensures (k in c <==> k in a) && (k in c ==> c[k] == a[k])
    {
      assert k in c <==> k in c - {u};
      assert k in b <==> k in b - users;
      assert k in a <==> k in a - users;
    }
  }

  /** Extending the records by one ingests that one more record, and logs
      the sessions it completes. */
  lemma RunStep(t: Tables, events: seq<Event>, i: nat, considerMissingClose: bool)
    requires i < |events|
    ensures Run(t, events[..i + 1], considerMissingClose)
         == Ingest(Run(t, events[..i], considerMissingClose), events[i], considerMissingClose)
    ensures Log(t, events[..i + 1], considerMissingClose)
         == Log(t, events[..i], considerMissingClose)
            + ClosedBy(Run(t, events[..i], considerMissingClose), events[i], considerMissingClose)
  {
    assert events[..i + 1][..i] == events[..i];
  }

  /** Every session completed while ingesting the records, in order. */
  function Log(t: Tables, events: seq<Event>, considerMissingClose: bool): seq<Sample>
  {
    if events == [] then []
    else
      var before := events[..|events| - 1];
      Log(t, before, considerMissingClose)
        + ClosedBy(Run(t, before, considerMissingClose), events[|events| - 1], considerMissingClose)
  }

  /** The durations recorded for one user, in order. */
  function DurationsOf(log: seq<Sample>, user: UserId): seq<int>
  {
    if log == [] then []
    else
      var last := log[|log| - 1];
      DurationsOf(log[..|log| - 1], user) + (if last.user == user then [last.duration] else [])
  }

  /** One user's statistics agree with a log of completed sessions: its
      counter is the number of its sessions in the log (absent when there
      are none) and its average is their exact mean. */
  ghost predicate UserSummarised(t: Tables, log: seq<Sample>, u: UserId)
  {
    && Count(t, u) == |DurationsOf(log, u)|
    && (u in t.sessionCounter <==> u in t.userAverage)
    && (u in t.userAverage ==>
          DurationsOf(log, u) != [] && t.userAverage[u] == Mean(DurationsOf(log, u)))
  }

  /** Every user's statistics agree with the log of completed sessions. */
  ghost predicate Summarises(t: Tables, log: seq<Sample>)
  {
    forall u :: UserSummarised(t, log, u)
  }

  lemma DurationsOfAppend(log: seq<Sample>, s: Sample, user: UserId)
    ensures DurationsOf(log + [s], user)
      == DurationsOf(log, user) + (if s.user == user then [s.duration] else [])
  {
    assert (log + [s])[..|log|] == log;
  }

  /** `get_incr_average`, called once the counter includes the new session,
      turns the mean of the user's earlier durations into the mean of all
      of them, the new duration included. */
  lemma IncrAverageIsMean(t: Tables, user: UserId, ds: seq<int>, d: int)
    requires user in t.sessionCounter && t.sessionCounter[user] == |ds| + 1
    requires ds != [] ==> AverageOf(t, user) == Mean(ds)
    ensures IncrAverage(t, user, d) == Mean(ds + [d])
  {
    if ds == [] {
      MeanSingleton(d);
    } else {
      MeanAppend(ds, d);
    }
  }

  /** The user whose session ends: its counter and average now describe its
      earlier durations followed by the new one. */
  lemma EndSessionUpdatesUser(t: Tables, log: seq<Sample>, user: UserId, start: int, end: int)
    requires user in t.openSessions
    requires UserSummarised(t, log, user)
    ensures UserSummarised(EndSession(t, user, start, end), log + [Sample(user, end - start)], user)
  {
    var r := EndSession(t, user, start, end);
    var ds := DurationsOf(log, user);
    var ds' := DurationsOf(log + [Sample(user, end - start)], user);
    DurationsOfAppend(log, Sample(user, end - start), user);
    assert ds' == ds + [end - start];
    var counted := t.(sessionCounter := t.sessionCounter[user := Count(t, user) + 1]);
    assert ds != [] ==> AverageOf(counted, user) == Mean(ds);
    IncrAverageIsMean(counted, user, ds, end - start);
    calc {
      r.userAverage[user];
      IncrAverage(counted, user, end - start);
      Mean(ds');
    }
  }

  /** Every other user's statistics, and its recorded durations, are as before. */
  lemma EndSessionKeepsOthers(t: Tables, log: seq<Sample>, user: UserId, start: int, end: int,
                              u: UserId)
    requires user in t.openSessions
    requires u != user
    requires UserSummarised(t, log, u)
    ensures UserSummarised(EndSession(t, user, start, end), log + [Sample(user, end - start)], u)
  {
    DurationsOfAppend(log, Sample(user, end - start), u);
    assert DurationsOf(log + [Sample(user, end - start)], u) == DurationsOf(log, u);
    var r := EndSession(t, user, start, end);
    assert u in r.sessionCounter <==> u in t.sessionCounter;
    assert u in r.userAverage <==> u in t.userAverage;
    assert u in r.userAverage ==> r.userAverage[u] == t.userAverage[u];
  }

  /** `end_session` keeps the statistics equal to the count and mean of the
      recorded durations, with the new session appended to the record. */
  lemma EndSessionKeepsSummary(t: Tables, log: seq<Sample>, user: UserId, start: int, end: int)
    requires user in t.openSessions
    requires Summarises(t, log)
    ensures Summarises(EndSession(t, user, start, end), log + [Sample(user, end - start)])
  {
    var r := EndSession(t, user, start, end);
    var log' := log + [Sample(user, end - start)];
    forall u ensures UserSummarised(r, log', u) {
      assert UserSummarised(t, log, u);
      if u == user {
        EndSessionUpdatesUser(t, log, user, start, end);
      } else {
        EndSessionKeepsOthers(t, log, user, start, end, u);
      }
    }
  }

  /** Opening a session changes no statistics, so the summary is kept. */
  lemma SummaryIgnoresOpenSessions(t: Tables, open: map<UserId, int>, log: seq<Sample>)
    requires Summarises(t, log)
    ensures Summarises(t.(openSessions := open), log)
  {
    forall u ensures UserSummarised(t.(openSessions := open), log, u) {
      assert UserSummarised(t, log, u);
    }
  }

  /** One record keeps the statistics equal to the count and mean of the
      recorded durations, extended by the sessions the record completes. */
  lemma IngestKeepsSummary(t: Tables, log: seq<Sample>, e: Event, considerMissingClose: bool)
    requires Summarises(t, log)
    ensures Summarises(Ingest(t, e, considerMissingClose), log + ClosedBy(t, e, considerMissingClose))
  {
    var closed := ClosedBy(t, e, considerMissingClose);
    match e.action
    case Open =>
      if e.user in t.openSessions && considerMissingClose {
        var c := EndSession(t, e.user, t.openSessions[e.user], e.timestamp);
        EndSessionKeepsSummary(t, log, e.user, t.openSessions[e.user], e.timestamp);
        SummaryIgnoresOpenSessions(c, c.openSessions[e.user := e.timestamp], log + closed);
      } else {
        assert log + closed == log;
        SummaryIgnoresOpenSessions(t, t.openSessions[e.user := e.timestamp], log);
      }
    case Close =>
      if e.user in t.openSessions {
        EndSessionKeepsSummary(t, log, e.user, t.openSessions[e.user], e.timestamp);
      } else {
        assert log + closed == log;
      }
    case Other =>
      assert log + closed == log;
  }

  /** A whole run keeps the statistics equal to the count and mean of the
      recorded durations, extended by every session the run completes. */
  lemma {:induction false} RunKeepsSummary(t: Tables, log: seq<Sample>, events: seq<Event>,
                                           considerMissingClose: bool)
    requires Summarises(t, log)
    ensures Summarises(Run(t, events, considerMissingClose),
                       log + Log(t, events, considerMissingClose))
  {
    if events != [] {
      var before := events[..|events| - 1];
      var e := events[|events| - 1];
      var mid := Run(t, before, considerMissingClose);
      RunKeepsSummary(t, log, before, considerMissingClose);
      assert Run(t, events, considerMissingClose) == Ingest(mid, e, considerMissingClose);
      IngestKeepsSummary(mid, log + Log(t, before, considerMissingClose), e, considerMissingClose);
      assert log + Log(t, before, considerMissingClose) + ClosedBy(mid, e, considerMissingClose)
          == log + Log(t, events, considerMissingClose);
    } else {
      assert log + Log(t, events, considerMissingClose) == log;
    }
  }

  /** Over a whole stream fed to a fresh store, each user's counter is the
      number of sessions completed for it (absent when none) and its
      average is the exact mean of their durations. */
  lemma AverageIsMeanOfDurations(events: seq<Event>, considerMissingClose: bool, user: UserId)
    ensures var t := Run(Empty(), events, considerMissingClose);
            var ds := DurationsOf(Log(Empty(), events, considerMissingClose), user);
            && Count(t, user) == |ds|
            && (user in t.sessionCounter <==> ds != [])
            && (ds != [] ==> user in t.userAverage && t.userAverage[user] == Mean(ds))
  {
    var t := Run(Empty(), events, considerMissingClose);
    var log := Log(Empty(), events, considerMissingClose);
    RunKeepsSummary(Empty(), [], events, considerMissingClose);
    assert [] + log == log;
    assert Summarises(t, log);
    assert UserSummarised(t, log, user);
  }

  /** `load_incomplete_sessions`: every record whose action is open (re)sets
      the user's start timestamp; other records are skipped. */
  function Preload(t: Tables, records: seq<Event>): (r: Tables)
    ensures r.sessionCounter == t.sessionCounter && r.userAverage == t.userAverage
  {
    if records == [] then t
    else
      var before := Preload(t, records[..|records| - 1]);
      var last := records[|records| - 1];
      if last.action == Open
      then before.(openSessions := before.openSessions[last.user := last.timestamp])
      else before
  }

  /** The record is an open for the user. */
  predicate OpensFor(e: Event, user: UserId)
  {
    e.user == user && e.action == Open
  }

  /** The timestamp of the last open record for a user, if there is one. */
  function LastOpen(records: seq<Event>, user: UserId): (o: Option<int>)
    ensures o.None? <==> forall i :: 0 <= i < |records| ==> !OpensFor(records[i], user)
    ensures o.Some? ==>
      exists i :: 0 <= i < |records| && OpensFor(records[i], user) && records[i].timestamp == o.value
        && forall j :: i < j < |records| ==> !OpensFor(records[j], user)
  {
    if records == [] then None
    else
      var last := records[|records| - 1];
      if OpensFor(last, user) then Some(last.timestamp)
      else LastOpen(records[..|records| - 1], user)
  }

  /** Preloading is last-write-wins per user: a user with an open record
      starts at its last one; any other user keeps its entry, or its absence. */
  lemma {:induction false} PreloadLastWriteWins(t: Tables, records: seq<Event>, user: UserId)
    ensures var r := Preload(t, records);
            match LastOpen(records, user)
            case Some(start) => user in r.openSessions && r.openSessions[user] == start
            case None =>
              && (user in r.openSessions <==> user in t.openSessions)
              && (user in t.openSessions ==> r.openSessions[user] == t.openSessions[user])
  {
    if records != [] {
      PreloadLastWriteWins(t, records[..|records| - 1], user);
    }
  }
}
