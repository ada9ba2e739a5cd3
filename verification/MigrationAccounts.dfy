// The reports doMigration receives over a whole run of the channel protocol are the ones its
// accounting assumes.
module MigrationAccounts {
  import P = MigrationProtocol
  import R = MigrationRun

  /** The numbers read from the channel, in the order of arrival. */
  function Numbers(rs: seq<P.Report>): (cs: seq<int>)
    ensures |cs| == |rs| && forall i | 0 <= i < |rs| :: cs[i] == rs[i].c
  {
    seq(|rs|, i requires 0 <= i < |rs| => rs[i].c)
  }

  lemma {:induction false} SameSums(rs: seq<P.Report>)
    ensures R.Capacity(Numbers(rs)) == P.Capacity(rs) && R.Passed(Numbers(rs)) == P.Successes(rs)
    decreases |rs|
  {
    if rs != [] {
      SameSums(rs[..|rs| - 1]);
      assert Numbers(rs)[..|rs| - 1] == Numbers(rs[..|rs| - 1]);
    }
  }

  /** Movers that report their size or a failure never report more than the sizes add up to. */
  lemma {:induction false} PassedAtMostTotal(ms: seq<P.Mover>, sizes: seq<int>)
    requires |ms| == |sizes| && forall i | 0 <= i < |ms| :: sizes[i] >= 0
    requires forall i | 0 <= i < |ms| && P.IsReported(ms[i]) == 1 :: ms[i].c == sizes[i] || ms[i].c == -1
    ensures P.Sum(ms, P.Passed) <= R.Total(sizes)
    ensures (forall i | 0 <= i < |ms| :: P.HasPassed(ms[i]) == 1) ==> P.Sum(ms, P.Passed) == R.Total(sizes)
    decreases |ms|
  {
    if ms != [] {
      var n := |ms| - 1;
      PassedAtMostTotal(ms[..n], sizes[..n]);
      assert forall i | 0 <= i < n :: ms[i] == ms[..n][i];
    }
  }

  /** Once the channels are closed, doMigration has got one report per object; their capacity is at
      most the total, and equal to it if none reports a failure. */
  lemma RunsAreConsistent(s: P.State, es: seq<P.Event>, sizes: seq<int>, cap: nat)
    requires P.Init(s) && |sizes| == |s.movers| > 0 && P.Possible(s, es, sizes, cap)
    requires P.Final(s, es, sizes, cap).closed && forall i | 0 <= i < |sizes| :: sizes[i] >= 0
    ensures R.Consistent(Numbers(P.Final(s, es, sizes, cap).received), sizes)
  {
    P.InvInit(s, sizes, cap);
    P.InvRun(s, es, sizes, cap);
    ClosedIsConsistent(P.Final(s, es, sizes, cap), sizes, cap);
  }

  lemma ClosedIsConsistent(t: P.State, sizes: seq<int>, cap: nat)
    requires P.Inv(t, sizes, cap) && t.closed && forall i | 0 <= i < |sizes| :: sizes[i] >= 0
    ensures R.Consistent(Numbers(t.received), sizes)
  {
    SameSums(t.received);
    PassedAtMostTotal(t.movers, sizes);
    if P.Successes(t.received) == |sizes| {
      P.SumIsFull(t.movers, P.HasPassed, 1);
    }
  }
}
