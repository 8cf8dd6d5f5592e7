/**
  Exact arithmetic behind the per-user running average: the sum and mean of
  a sequence of session durations, and the textbook one-step mean update
  A_k = A_{k-1} + (d_k - A_{k-1}) / k.
 */
module RunningMean {

  /** Sum of the durations, accumulated from the front (so appending one
      more duration adds it to the sum). */
  function Sum(ds: seq<int>): int
  {
    if ds == [] then 0 else Sum(ds[..|ds| - 1]) + ds[|ds| - 1]
  }

  /** The exact arithmetic mean of a non-empty sequence of durations. */
  function Mean(ds: seq<int>): real
    requires ds != []
  {
    (Sum(ds) as real) / (|ds| as real)
  }

  lemma SumAppend(ds: seq<int>, d: int)
    ensures Sum(ds + [d]) == Sum(ds) + d
  {
    assert (ds + [d])[..|ds|] == ds;
  }

  /** The mean of one duration is that duration. */
  lemma MeanSingleton(d: int)
    ensures Mean([d]) == d as real
  {
    SumAppend([], d);
  }

  /** The incremental update: folding one more duration d into the mean of
      ds, with divisor |ds| + 1, gives the mean of ds + [d]. */
  lemma MeanAppend(ds: seq<int>, d: int)
    requires ds != []
    ensures Mean(ds + [d]) == Mean(ds) + ((d as real) - Mean(ds)) / ((|ds| + 1) as real)
  {
    SumAppend(ds, d);
    var n := |ds| as real;
    var s := Sum(ds) as real;
    var m := Mean(ds);
    assert s == m * n;
    calc {
      m + ((d as real) - m) / (n + 1.0);
      (m * (n + 1.0) + (d as real) - m) / (n + 1.0);
      (m * n + (d as real)) / (n + 1.0);
      (s + (d as real)) / (n + 1.0);
      Mean(ds + [d]);
    }
  }
}
