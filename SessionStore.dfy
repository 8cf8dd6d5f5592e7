/**
  The class TwitterUserSessionStore: three dictionaries updated in place
  while a log is read line by line. Each method is proved against the pure
  reconciler functions, and keeps the invariant that the counters and
  averages are the count and exact mean of every session recorded so far.
 */
module SessionStore {
  import opened RunningMean
  import opened Reconciler

  class TwitterUserSessionStore {
    var openSessions: map<UserId, int>
    var userSessionCounter: map<UserId, nat>
    var userAverage: map<UserId, real>

    /** Every session completed so far, in the order it was recorded. */
    ghost var Sessions: seq<Sample>

    /** The three dictionaries as one value. */
    function State(): Tables
      reads this
    {
      Tables(openSessions, userSessionCounter, userAverage)
    }

    ghost predicate Valid()
      reads this
    {
      Summarises(State(), Sessions)
    }

    constructor ()
      ensures Valid()
      ensures State() == Empty() && Sessions == []
    {
      openSessions := map[];
      userSessionCounter := map[];
      userAverage := map[];
      Sessions := [];
      new;
      forall u ensures UserSummarised(Empty(), [], u) {}
    }

    /** `end_session`: record a session of duration end - start. */
    method EndSession(user: UserId, start: int, end: int)
      requires Valid() && user in openSessions
      modifies this
      ensures Valid()
      ensures State() == Reconciler.EndSession(old(State()), user, start, end)
      ensures Sessions == old(Sessions) + [Sample(user, end - start)]
    {
      EndSessionKeepsSummary(State(), Sessions, user, start, end);
      var duration := end - start;
      userSessionCounter := userSessionCounter[user := Count(State(), user) + 1];
      userAverage := userAverage[user := IncrAverage(State(), user, duration)];
      openSessions := openSessions - {user};
      Sessions := Sessions + [Sample(user, duration)];
    }

    /** `load_incomplete_sessions`: seed the open sessions from the residual
        records of a previous run. */
    method LoadIncompleteSessions(records: seq<Event>)
      requires Valid()
      modifies this
      ensures Valid()
      ensures State() == Preload(old(State()), records)
      ensures Sessions == old(Sessions)
    {
      for i := 0 to |records|
        invariant State() == Preload(old(State()), records[..i])
        invariant Sessions == old(Sessions)
        invariant Valid()
      {
        assert records[..i + 1][..i] == records[..i];
        var record := records[i];
        if record.action == Open {
          SummaryIgnoresOpenSessions(State(), openSessions[record.user := record.timestamp], Sessions);
          openSessions := openSessions[record.user := record.timestamp];
        }
      }
      assert records[..|records|] == records;
    }

    /** One line of `process_log_file`. Reports whether the line was a close
        with no open session to match (the source prints a diagnostic). */
    method ProcessLine(e: Event, considerMissingClose: bool) returns (unmatched: bool)
      requires Valid()
      modifies this
      ensures Valid()
      ensures State() == Ingest(old(State()), e, considerMissingClose)
      ensures Sessions == old(Sessions) + ClosedBy(old(State()), e, considerMissingClose)
      ensures unmatched <==> e.action == Close && e.user !in old(openSessions)
    {
      unmatched := false;
      match e.action
      case Open =>
        if e.user in openSessions && considerMissingClose {
          EndSession(e.user, openSessions[e.user], e.timestamp);
        } else {
          assert Sessions + ClosedBy(old(State()), e, considerMissingClose) == Sessions;
        }
        SummaryIgnoresOpenSessions(State(), openSessions[e.user := e.timestamp], Sessions);
        openSessions := openSessions[e.user := e.timestamp];
      case Close =>
        if e.user in openSessions {
          EndSession(e.user, openSessions[e.user], e.timestamp);
        } else {
          unmatched := true;
          assert Sessions + ClosedBy(old(State()), e, considerMissingClose) == Sessions;
        }
      case Other =>
        assert Sessions + ClosedBy(old(State()), e, considerMissingClose) == Sessions;
    }

    /** `process_log_file`: optionally seed from the residual records, then
        ingest the log's records in order. */
    method ProcessLogFile(events: seq<Event>, considerMissingClose: bool,
                          readIncompleteSessionFile: bool, incompleteSessions: seq<Event>)
      requires Valid()
      modifies this
      ensures Valid()
      ensures var seeded := if readIncompleteSessionFile
                            then Preload(old(State()), incompleteSessions)
                            else old(State());
              && State() == Run(seeded, events, considerMissingClose)
              && Sessions == old(Sessions) + Log(seeded, events, considerMissingClose)
    {
      if readIncompleteSessionFile {
        LoadIncompleteSessions(incompleteSessions);
      }
      ghost var seeded := State();
      ghost var before := Sessions;
      for i := 0 to |events|
        invariant Valid()
        invariant State() == Run(seeded, events[..i], considerMissingClose)
        invariant Sessions == before + Log(seeded, events[..i], considerMissingClose)
      {
        RunStep(seeded, events, i, considerMissingClose);
        var _ := ProcessLine(events[i], considerMissingClose);
      }
      assert events[..|events|] == events;
    }
  }
}
