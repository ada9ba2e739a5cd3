// A whole migration job (datamover/pkg/drivers/https/migration.go): the channel protocol, the bytes
// and the accounting together. What doMigration returns is true of the data.
module MigrationJob {
  import P = MigrationProtocol
  import D = MigrationData
  import R = MigrationRun
  import A = MigrationAccounts
  import J = JobRecord

  /** The channels and movers, and the backends. */
  datatype State = State(p: P.State, d: D.State)

  /** An event of the channels or of the data. */
  datatype Event = Proto(pe: P.Event) | Data(de: D.Event)

  function Sizes(j: D.Job): (sizes: seq<int>)
    ensures |sizes| == |j.items| && forall i | 0 <= i < |sizes| :: sizes[i] == |j.items[i].content|
  {
    seq(|j.items|, i requires 0 <= i < |j.items| => |j.items[i].content|)
  }

  predicate Shaped(j: D.Job, s: State) {
    |s.p.movers| == |s.d.phase| == |j.items|
  }

  /** The mover of object `i` has nothing left to do with the data. */
  predicate Settled(j: D.Job, d: D.State, i: nat)
    requires i < |d.phase|
  {
    d.phase[i].Failed? || d.phase[i].Cleaned? || (d.phase[i].Copied? && j.remainSource)
  }

  /** A mover works on the data of its own object while it moves, and then finishes with what became
      of the object. */
  predicate Enabled(j: D.Job, s: State, e: Event, cap: nat)
    requires Shaped(j, s)
  {
    match e
    case Proto(pe) =>
      && P.Enabled(s.p, pe, cap)
      && (pe.Finish? ==> Settled(j, s.d, pe.i) && pe.ok == !s.d.phase[pe.i].Failed?)
    case Data(de) => D.Enabled(j, s.d, de) && s.p.movers[de.i].Moving?
  }

  function After(j: D.Job, s: State, e: Event, cap: nat): (t: State)
    requires Shaped(j, s) && Enabled(j, s, e, cap)
    ensures Shaped(j, t)
  {
    match e
    case Proto(pe) => s.(p := P.After(s.p, pe, Sizes(j), cap))
    case Data(de) => s.(d := D.After(j, s.d, de))
  }

  predicate Possible(j: D.Job, s: State, es: seq<Event>, cap: nat)
    requires Shaped(j, s)
    decreases |es|
  {
    es == [] || (Enabled(j, s, es[0], cap) && Possible(j, After(j, s, es[0], cap), es[1..], cap))
  }

  function Final(j: D.Job, s: State, es: seq<Event>, cap: nat): (t: State)
    requires Shaped(j, s) && Possible(j, s, es, cap)
    ensures Shaped(j, t)
    decreases |es|
  {
    if es == [] then s else Final(j, After(j, s, es[0], cap), es[1..], cap)
  }

  predicate Init(j: D.Job, s: State) {
    Shaped(j, s) && j.items != [] && P.Init(s.p) && D.Init(j, s.d)
  }

  /** Movers that are through have settled their object, and their number says how. */
  predicate Linked(j: D.Job, s: State)
    requires Shaped(j, s)
  {
    forall i | 0 <= i < |s.p.movers| && !s.p.movers[i].NotSpawned? && !s.p.movers[i].Moving? ::
      Settled(j, s.d, i) && (s.p.movers[i].c >= 0 <==> !s.d.phase[i].Failed?)
  }

  ghost predicate Inv(j: D.Job, s: State, cap: nat) {
    Shaped(j, s) && P.Inv(s.p, Sizes(j), cap) && D.AllSafe(j, s.d) && Linked(j, s)
  }

  lemma LinkedStep(j: D.Job, s: State, e: Event, cap: nat)
    requires Inv(j, s, cap) && Enabled(j, s, e, cap)
    ensures Linked(j, After(j, s, e, cap))
  {}

  lemma InvStep(j: D.Job, s: State, e: Event, cap: nat)
    requires D.Separate(j) && Inv(j, s, cap) && Enabled(j, s, e, cap)
    ensures Inv(j, After(j, s, e, cap), cap)
  {
    LinkedStep(j, s, e, cap);
    match e
    case Proto(pe) => P.InvStep(s.p, pe, Sizes(j), cap);
    case Data(de) => D.SafeStep(j, s.d, de);
  }

  lemma {:induction false} InvRun(j: D.Job, s: State, es: seq<Event>, cap: nat)
    requires D.Separate(j) && Inv(j, s, cap) && Possible(j, s, es, cap)
    ensures Inv(j, Final(j, s, es, cap), cap)
    decreases |es|
  {
    if es != [] {
      InvStep(j, s, es[0], cap);
      InvRun(j, After(j, s, es[0], cap), es[1..], cap);
    }
  }

  /** A reader of the destination finds the object. */
  predicate Arrived(j: D.Job, d: D.State, i: nat)
    requires i < |j.items|
  {
    D.Has(d, D.DestAddr(j, i), j.items[i].content)
  }

  /** Every number doMigration has read comes from an object that fared accordingly. */
  lemma ReportIsTrue(j: D.Job, s: State, cap: nat, k: nat)
    requires Inv(j, s, cap) && k < |s.p.received|
    ensures var r := s.p.received[k];
      && r.obj < |j.items|
      && (r.c >= 0 && j.items[r.obj].content != [] && D.Agrees(j, r.obj) ==> Arrived(j, s.d, r.obj))
      && (r.c < 0 ==> D.Has(s.d, D.SrcAddr(j, r.obj), j.items[r.obj].content))
  {
    var r := s.p.received[k];
    assert P.IsReported(s.p.movers[r.obj]) == 1;
    assert D.Safe(j, s.d, r.obj);
    D.UploadsWhereRead(j, r.obj);
  }

  lemma {:induction false} NoneFailed(rs: seq<P.Report>)
    requires forall k | 0 <= k < |rs| :: rs[k].c >= 0
    ensures P.Successes(rs) == |rs|
  {
    if rs != [] {
      NoneFailed(rs[..|rs| - 1]);
    }
  }

  /** If no report is a failure, every object has passed. */
  lemma AllPassed(j: D.Job, s: State, cap: nat, i: nat)
    requires Inv(j, s, cap) && s.p.closed && i < |j.items|
    requires forall k | 0 <= k < |s.p.received| :: s.p.received[k].c >= 0
    ensures P.HasPassed(s.p.movers[i]) == 1
  {
    NoneFailed(s.p.received);
    P.SumIsFull(s.p.movers, P.HasPassed, 1);
  }

  lemma PassedHasArrived(j: D.Job, s: State, cap: nat, i: nat)
    requires Inv(j, s, cap) && i < |j.items| && P.HasPassed(s.p.movers[i]) == 1
    requires j.items[i].content != [] && D.Agrees(j, i)
    ensures Arrived(j, s.d, i)
  {
    assert D.Safe(j, s.d, i);
    D.UploadsWhereRead(j, i);
  }

  /** What the numbers of a complete run say about the data. */
  predicate Truthful(j: D.Job, d: D.State, cs: seq<int>)
    requires |d.phase| == |j.items|
  {
    if forall k | 0 <= k < |cs| :: cs[k] >= 0
    then forall i | 0 <= i < |j.items| && j.items[i].content != [] && D.Agrees(j, i) :: Arrived(j, d, i)
    else exists i | 0 <= i < |j.items| :: d.phase[i].Failed? && D.Has(d, D.SrcAddr(j, i), j.items[i].content)
  }

  lemma CompleteRun(j: D.Job, s: State, es: seq<Event>, cap: nat, cs: seq<int>)
    requires Init(j, s) && D.Separate(j) && Possible(j, s, es, cap)
    requires Final(j, s, es, cap).p.closed && cs == A.Numbers(Final(j, s, es, cap).p.received)
    ensures R.Consistent(cs, Sizes(j)) && Truthful(j, Final(j, s, es, cap).d, cs)
  {
    var t := Final(j, s, es, cap);
    P.InvInit(s.p, Sizes(j), cap);
    InvRun(j, s, es, cap);
    A.ClosedIsConsistent(t.p, Sizes(j), cap);
    if forall k | 0 <= k < |cs| :: cs[k] >= 0 {
      forall i | 0 <= i < |j.items| && j.items[i].content != [] && D.Agrees(j, i) ensures Arrived(j, t.d, i) {
        assert forall k | 0 <= k < |t.p.received| :: t.p.received[k].c == cs[k];
        AllPassed(j, t, cap, i);
        PassedHasArrived(j, t, cap, i);
      }
    } else {
      FailureIsTrue(j, t, cap, cs);
    }
  }

  /** The end of a job: after any complete run of spawner, movers, backends and receiver, doMigration
      does its accounting on the reports that came in. If it returns nil, every object that is not
      empty and whose sides agree can be read at the destination; if it does not, an object failed, and
      that one is still at its source. */
  method DoMigration(job: J.Job, store: J.JobStore, j: D.Job, ghost s: State, ghost es: seq<Event>, p: P.State, cap: nat)
    returns (ok: bool)
    requires Init(j, s) && D.Separate(j) && Possible(j, s, es, cap)
    requires Final(j, s, es, cap).p == p && p.closed
    requires R.Ahead(store, job) && job.status.Running? && job.endTime == 0
    requires job.totalCount == |j.items| && job.totalCapacity == R.Total(Sizes(j)) > 0
    requires job.passedCount == job.passedCapacity == job.progress == 0
    requires job.totalCapacity * 100 < 0x8000_0000_0000_0000
    modifies job, store
    ensures var d := Final(j, s, es, cap).d;
      && (ok ==> forall i | 0 <= i < |j.items| && j.items[i].content != [] && D.Agrees(j, i) :: Arrived(j, d, i))
      && (!ok ==> exists i | 0 <= i < |j.items| :: d.phase[i].Failed? && D.Has(d, D.SrcAddr(j, i), j.items[i].content))
    ensures ok ==> job.progress == 100
  {
    var cs := A.Numbers(p.received);
    CompleteRun(j, s, es, cap, cs);
    var errmsg;
    ok, errmsg := R.DoMigration(job, store, cs, Sizes(j));
  }

  lemma FailureIsTrue(j: D.Job, s: State, cap: nat, cs: seq<int>)
    requires Inv(j, s, cap) && cs == A.Numbers(s.p.received) && exists k | 0 <= k < |cs| :: cs[k] < 0
    ensures exists i | 0 <= i < |j.items| :: s.d.phase[i].Failed? && D.Has(s.d, D.SrcAddr(j, i), j.items[i].content)
  {
    var k :| 0 <= k < |cs| && cs[k] < 0;
    var r := s.p.received[k];
    assert P.IsReported(s.p.movers[r.obj]) == 1;
    ReportIsTrue(j, s, cap, k);
    assert s.d.phase[r.obj].Failed?;
  }

  // ---------------------------------------------------------------- every run comes to its end

  /** Steps left to the backends for one object. */
  function Left(phase: D.Phase): nat {
    match phase
    case Pending => 3
    case Fetched(_) => 2
    case Copied => 1
    case _ => 0
  }

  function DataMeasure(phase: seq<D.Phase>): nat {
    if phase == [] then 0 else DataMeasure(phase[..|phase| - 1]) + Left(phase[|phase| - 1])
  }

  lemma {:induction false} DataMeasureUpdate(phase: seq<D.Phase>, i: nat, x: D.Phase)
    requires i < |phase|
    ensures DataMeasure(phase[i := x]) == DataMeasure(phase) - Left(phase[i]) + Left(x)
  {
    var n := |phase| - 1;
    if i == n {
      assert phase[i := x][..n] == phase[..n];
    } else {
      assert phase[i := x][..n] == phase[..n][i := x];
      DataMeasureUpdate(phase[..n], i, x);
    }
  }

  lemma {:induction false} DataMeasureBound(phase: seq<D.Phase>)
    ensures DataMeasure(phase) <= 3 * |phase|
  {
    if phase != [] {
      DataMeasureBound(phase[..|phase| - 1]);
    }
  }

  function Measure(s: State): int { P.Measure(s.p) + DataMeasure(s.d.phase) }

  /** Every event, whether of the channels or of the backends, brings the end nearer. */
  lemma MeasureStep(j: D.Job, s: State, e: Event, cap: nat)
    requires Inv(j, s, cap) && Enabled(j, s, e, cap)
    ensures Measure(After(j, s, e, cap)) < Measure(s)
  {
    match e
    case Proto(pe) => P.MeasureStep(s.p, pe, Sizes(j), cap);
    case Data(de) =>
      var t := D.After(j, s.d, de);
      assert t.phase == s.d.phase[de.i := t.phase[de.i]];
      DataMeasureUpdate(s.d.phase, de.i, t.phase[de.i]);
  }

  lemma {:induction false} RunsAreFinite(j: D.Job, s: State, es: seq<Event>, cap: nat)
    requires D.Separate(j) && Inv(j, s, cap) && Possible(j, s, es, cap)
    ensures |es| + Measure(Final(j, s, es, cap)) <= Measure(s)
    decreases |es|
  {
    if es != [] {
      InvStep(j, s, es[0], cap);
      MeasureStep(j, s, es[0], cap);
      RunsAreFinite(j, After(j, s, es[0], cap), es[1..], cap);
    }
  }

  /** No run of the whole job has more than eight events per object, and the close. */
  lemma RunLength(j: D.Job, s: State, es: seq<Event>, cap: nat)
    requires Init(j, s) && D.Separate(j) && Possible(j, s, es, cap)
    ensures |es| <= 8 * |j.items| + 1
  {
    P.InvInit(s.p, Sizes(j), cap);
    RunsAreFinite(j, s, es, cap);
    P.MeasureBounds(s.p);
    P.MeasureBounds(Final(j, s, es, cap).p);
    DataMeasureBound(s.d.phase);
  }

  /** Until the close something can always happen: a mover that moves can finish, or its backends can
      still do or fail something. */
  lemma NotStuck(j: D.Job, s: State, cap: nat) returns (e: Event)
    requires Inv(j, s, cap) && !s.p.closed && cap > 0
    ensures Enabled(j, s, e, cap)
  {
    if i :| 0 <= i < |s.p.movers| && s.p.movers[i].Moving? {
      if Settled(j, s.d, i) {
        return Proto(P.Finish(i, !s.d.phase[i].Failed?));
      }
      return Data(if s.d.phase[i].Copied? then D.DeleteFails(i) else D.Fail(i));
    }
    var pe := P.NotStuck(s.p, Sizes(j), cap);
    e := Proto(pe);
  }

  /** So a run that cannot go on has closed the channels, and DoMigration speaks of it. */
  lemma MaximalRunsClose(j: D.Job, s: State, es: seq<Event>, cap: nat)
    requires Init(j, s) && D.Separate(j) && Possible(j, s, es, cap) && cap > 0
    requires forall e :: !Enabled(j, Final(j, s, es, cap), e, cap)
    ensures Final(j, s, es, cap).p.closed
  {
    P.InvInit(s.p, Sizes(j), cap);
    InvRun(j, s, es, cap);
    if !Final(j, s, es, cap).p.closed {
      var e := NotStuck(j, Final(j, s, es, cap), cap);
      assert false;
    }
  }

  // ---------------------------------------------------------------- what the record says

  /** The data after runjob: that of the run, if one was needed and started. */
  ghost function DataAfter(j: D.Job, s: State, es: seq<Event>, cap: nat, started: bool): (d: D.State)
    requires Shaped(j, s) && (started ==> Possible(j, s, es, cap))
    ensures |d.phase| == |j.items|
  {
    if started then Final(j, s, es, cap).d else s.d
  }

  lemma {:induction false} NothingToMove(sizes: seq<int>, i: nat)
    requires forall k | 0 <= k < |sizes| :: sizes[k] >= 0
    requires R.Total(sizes) <= 0 && i < |sizes|
    ensures sizes[i] == 0
  {
    var n := |sizes| - 1;
    R.TotalNonNegative(sizes[..n]);
    if i < n {
      NothingToMove(sizes[..n], i);
    }
  }

  /** runjob: whatever fails and whatever becomes of the writes, the stored record can be trusted. If
      it says succeed, every non-empty object whose sides agree is readable at the destination; if it
      says failed, an object has failed and is at its source, or no mover was started. */
  method RunJob(store: J.JobStore, j: D.Job, ghost s: State, ghost es: seq<Event>, p: P.State, cap: nat,
                srcOk: bool, destOk: bool, listOk: bool, now: nat)
    returns (job: J.Job, ok: bool)
    requires store.Valid() && store.record == J.CREATED && now > 0
    requires Shaped(j, s) && P.Init(s.p) && D.Init(j, s.d) && D.Separate(j)
    requires R.Total(Sizes(j)) * 100 < 0x8000_0000_0000_0000
    requires srcOk && destOk && listOk && R.Total(Sizes(j)) > 0 ==>
      Possible(j, s, es, cap) && Final(j, s, es, cap).p == p && p.closed
    modifies store
    ensures R.Ahead(store, job) && J.Terminal(job.status)
    ensures var started := srcOk && destOk && listOk && R.Total(Sizes(j)) > 0;
      var d := DataAfter(j, s, es, cap, started);
      && (store.record.status.Succeed? ==>
            forall i | 0 <= i < |j.items| && j.items[i].content != [] && D.Agrees(j, i) :: Arrived(j, d, i))
      && (store.record.status.Failed? && started ==>
            exists i | 0 <= i < |j.items| :: d.phase[i].Failed? && D.Has(d, D.SrcAddr(j, i), j.items[i].content))
      && (store.record == job.AsRec() || store.lost >= if started then 3 else 1)
  {
    var cs := A.Numbers(p.received);
    ghost var started := srcOk && destOk && listOk && R.Total(Sizes(j)) > 0;
    if started {
      CompleteRun(j, s, es, cap, cs);
    } else if srcOk && destOk && listOk {
      forall i | 0 <= i < |j.items| ensures j.items[i].content == [] {
        NothingToMove(Sizes(j), i);
      }
    }
    job, ok := R.RunJob(store, srcOk, destOk, listOk, Sizes(j), cs, now);
  }
}
