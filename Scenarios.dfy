/**
  Concrete runs of the reconciler with literal expected values. They pin
  down the divisor convention of the running average and the behaviour of
  each policy on small logs.
 */
module Scenarios {
  import opened RunningMean
  import opened Reconciler

  /** open 100, close 160: one session of 60. */
  lemma SingleSession()
    ensures var t := Run(Empty(), [Event("u1", 100, Open), Event("u1", 160, Close)], true);
            && Count(t, "u1") == 1 && AverageOf(t, "u1") == 60.0
            && "u1" !in t.openSessions
  {
  }

  /** open 100, open 200, close 260 with the reconcile policy: sessions of
      100 and 60, and their mean 80, because the divisor is the count after
      the increment. */
  lemma ReconcileRepeatedOpen()
    ensures var events := [Event("u1", 100, Open), Event("u1", 200, Open), Event("u1", 260, Close)];
            var t := Run(Empty(), events, true);
            && Log(Empty(), events, true) == [Sample("u1", 100), Sample("u1", 60)]
            && Count(t, "u1") == 2 && AverageOf(t, "u1") == 80.0
            && t.openSessions == map[]
  {
    var events := [Event("u1", 100, Open), Event("u1", 200, Open), Event("u1", 260, Close)];
    assert events[..2][..1] == events[..1] == [Event("u1", 100, Open)];
    assert events[..1][..0] == [];
    assert Log(Empty(), events[..1], true) == [];
  }

  /** The same log with the ignore policy: the first open is dropped and only
      the session of 60 counts. */
  lemma IgnoreRepeatedOpen()
    ensures var events := [Event("u1", 100, Open), Event("u1", 200, Open), Event("u1", 260, Close)];
            var t := Run(Empty(), events, false);
            && Log(Empty(), events, false) == [Sample("u1", 60)]
            && Count(t, "u1") == 1 && AverageOf(t, "u1") == 60.0
  {
    var events := [Event("u1", 100, Open), Event("u1", 200, Open), Event("u1", 260, Close)];
    assert events[..2][..1] == events[..1] == [Event("u1", 100, Open)];
    assert events[..1][..0] == [];
    assert Log(Empty(), events[..1], false) == [];
  }

  /** A close with no open session leaves every table empty. */
  lemma UnmatchedClose()
    ensures Run(Empty(), [Event("u2", 50, Close)], true) == Empty()
  {
  }

  /** A close earlier than its open is accepted: the duration is negative. */
  lemma NegativeDuration()
    ensures var t := Run(Empty(), [Event("u4", 100, Open), Event("u4", 90, Close)], true);
            Count(t, "u4") == 1 && AverageOf(t, "u4") == -10.0
  {
  }

  /** An open left at the end of one log is carried into the next run by
      preloading it, and closed there. */
  lemma CarryOverToNextRun()
    ensures Run(Empty(), [Event("u3", 10, Open)], true).openSessions == map["u3" := 10]
    ensures var t := Run(Preload(Empty(), [Event("u3", 10, Open)]), [Event("u3", 70, Close)], true);
            Count(t, "u3") == 1 && AverageOf(t, "u3") == 60.0
  {
  }
}
