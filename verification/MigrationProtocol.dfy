// The channel protocol of datamover/pkg/drivers/https/migration.go: doMove spawns one mover per
// object and puts a token into `th` after each spawn; a mover reports on the unbuffered channel
// `capa` and then takes a token; doMigration receives the reports and closes both channels.
module MigrationProtocol {

  /** A mover; from Reporting on it carries the number it reports: its size, or -1 on failure. */
  datatype Mover = NotSpawned | Moving | Reporting(c: int) | Draining(c: int) | Done(c: int)

  datatype Report = Report(obj: nat, c: int)

  /** `sending` is the spawner between `go move` and the end of `th <- 1`; `tokens` is len(th). */
  datatype State = State(movers: seq<Mover>, spawned: nat, sending: bool, tokens: nat, received: seq<Report>, closed: bool)

  datatype Event =
    | Spawn
    | Send
    | Finish(i: nat, ok: bool)
    | Receive(i: nat)    // rendezvous on capa
    | Take(i: nat)       // <-th
    | Close              // close(capa) and close(th), once all reports are in

  predicate Init(s: State) {
    && s.spawned == 0 && !s.sending && s.tokens == 0 && s.received == [] && !s.closed
    && (forall i | 0 <= i < |s.movers| :: s.movers[i].NotSpawned?)
  }

  /** Enabled events; `cap` is the capacity of `th`. Receiving from a closed `th` needs no token. */
  predicate Enabled(s: State, e: Event, cap: nat) {
    match e
    case Spawn => !s.sending && s.spawned < |s.movers|
    case Send => s.sending && s.tokens < cap && !s.closed
    case Finish(i, _) => i < |s.movers| && s.movers[i].Moving?
    case Receive(i) => i < |s.movers| && s.movers[i].Reporting? && !s.closed
    case Take(i) => i < |s.movers| && s.movers[i].Draining? && (s.tokens > 0 || s.closed)
    case Close => |s.received| >= |s.movers| && !s.closed
  }

  function After(s: State, e: Event, sizes: seq<int>, cap: nat): State
    requires Enabled(s, e, cap) && |sizes| == |s.movers|
  {
    match e
    case Spawn => s.(movers := s.movers[s.spawned := Moving], spawned := s.spawned + 1, sending := true)
    case Send => s.(sending := false, tokens := s.tokens + 1)
    case Finish(i, ok) => s.(movers := s.movers[i := Reporting(if ok then sizes[i] else -1)])
    case Receive(i) =>
      var c := s.movers[i].c;
      s.(movers := s.movers[i := Draining(c)], received := s.received + [Report(i, c)])
    case Take(i) =>
      s.(movers := s.movers[i := Done(s.movers[i].c)], tokens := if s.tokens > 0 then s.tokens - 1 else 0)
    case Close => s.(closed := true)
  }

  predicate Possible(s: State, es: seq<Event>, sizes: seq<int>, cap: nat)
    requires |sizes| == |s.movers|
    decreases |es|
  {
    es == [] || (Enabled(s, es[0], cap) && Possible(After(s, es[0], sizes, cap), es[1..], sizes, cap))
  }

  function Final(s: State, es: seq<Event>, sizes: seq<int>, cap: nat): (t: State)
    requires |sizes| == |s.movers| && Possible(s, es, sizes, cap)
    ensures |t.movers| == |s.movers|
    decreases |es|
  {
    if es == [] then s else Final(After(s, es[0], sizes, cap), es[1..], sizes, cap)
  }

  // ---------------------------------------------------------------- sums over the movers

  function Sum(ms: seq<Mover>, f: Mover -> int): int {
    if ms == [] then 0 else Sum(ms[..|ms| - 1], f) + f(ms[|ms| - 1])
  }

  lemma {:induction false} SumUpdate(ms: seq<Mover>, i: nat, x: Mover, f: Mover -> int)
    requires i < |ms|
    ensures Sum(ms[i := x], f) == Sum(ms, f) - f(ms[i]) + f(x)
  {
    var n := |ms| - 1;
    if i == n {
      assert ms[i := x][..n] == ms[..n];
    } else {
      assert ms[i := x][..n] == ms[..n][i := x];
      SumUpdate(ms[..n], i, x, f);
    }
  }

  lemma {:induction false} SumBounds(ms: seq<Mover>, f: Mover -> int, lo: int, hi: int)
    requires forall i | 0 <= i < |ms| :: lo <= f(ms[i]) <= hi
    ensures lo * |ms| <= Sum(ms, f) <= hi * |ms|
  {
    if ms != [] {
      var n := |ms| - 1;
      SumBounds(ms[..n], f, lo, hi);
      assert lo * |ms| == lo * n + lo && hi * |ms| == hi * n + hi;
    }
  }

  /** If no mover is above the bound and the sum is the maximum, every mover is at the bound. */
  lemma {:induction false} SumIsFull(ms: seq<Mover>, f: Mover -> int, hi: int)
    requires forall i | 0 <= i < |ms| :: f(ms[i]) <= hi
    requires Sum(ms, f) == hi * |ms|
    ensures forall i | 0 <= i < |ms| :: f(ms[i]) == hi
  {
    if ms != [] {
      var n := |ms| - 1;
      SumAtMost(ms[..n], f, hi);
      SumIsFull(ms[..n], f, hi);
      assert forall i | 0 <= i < n :: ms[i] == ms[..n][i];
    }
  }

  lemma {:induction false} SumAtMost(ms: seq<Mover>, f: Mover -> int, hi: int)
    requires forall i | 0 <= i < |ms| :: f(ms[i]) <= hi
    ensures Sum(ms, f) <= hi * |ms|
  {
    if ms != [] {
      SumAtMost(ms[..|ms| - 1], f, hi);
    }
  }

  function IsDone(m: Mover): int { if m.Done? then 1 else 0 }
  function IsReported(m: Mover): int { if m.Draining? || m.Done? then 1 else 0 }

  /** The capacity a reported mover contributes. */
  function Passed(m: Mover): int { if (m.Draining? || m.Done?) && m.c >= 0 then m.c else 0 }

  function HasPassed(m: Mover): int { if (m.Draining? || m.Done?) && m.c >= 0 then 1 else 0 }

  /** Steps a mover still has to take; a mover not yet spawned also stands for its token. */
  function Weight(m: Mover): int {
    match m
    case NotSpawned => 5
    case Moving => 3
    case Reporting(_) => 2
    case Draining(_) => 1
    case Done(_) => 0
  }

  function Bit(b: bool): nat { if b then 1 else 0 }

  /** Movers spawned that have not taken their token yet. */
  function InFlight(s: State): int { s.spawned - Sum(s.movers, IsDone) }

  function Measure(s: State): int { Sum(s.movers, Weight) + Bit(s.sending) + Bit(!s.closed) }

  /** doMigration's `capacity`, from the reports received. */
  function Capacity(rs: seq<Report>): int {
    if rs == [] then 0
    else Capacity(rs[..|rs| - 1]) + if rs[|rs| - 1].c >= 0 then rs[|rs| - 1].c else 0
  }

  /** doMigration's `passedCount`. */
  function Successes(rs: seq<Report>): nat {
    if rs == [] then 0
    else Successes(rs[..|rs| - 1]) + if rs[|rs| - 1].c >= 0 then 1 else 0
  }

  // ---------------------------------------------------------------- the invariant

  ghost predicate Inv(s: State, sizes: seq<int>, cap: nat) {
    |sizes| == |s.movers| && Spawning(s) && Accounts(s, cap) && Reports(s, sizes)
  }

  /** The movers are spawned in order. */
  predicate Spawning(s: State) {
    && s.spawned <= |s.movers| && (s.sending ==> s.spawned > 0)
    && (forall i | 0 <= i < |s.movers| :: s.movers[i].NotSpawned? <==> i >= s.spawned)
  }

  /** Tokens, reports, capacity and successes match the movers. */
  ghost predicate Accounts(s: State, cap: nat) {
    && (!s.closed ==> s.tokens <= cap && s.tokens + Sum(s.movers, IsDone) + Bit(s.sending) == s.spawned)
    && |s.received| == Sum(s.movers, IsReported)
    && Capacity(s.received) == Sum(s.movers, Passed)
    && Successes(s.received) == Sum(s.movers, HasPassed)
    && (s.closed ==> |s.received| == |s.movers|)
  }

  /** Every report names an object whose mover has reported that number; nobody reports twice. */
  ghost predicate Reports(s: State, sizes: seq<int>)
    requires |sizes| == |s.movers|
  {
    && (forall i | 0 <= i < |s.movers| && !s.movers[i].NotSpawned? && !s.movers[i].Moving? ::
          s.movers[i].c == sizes[i] || s.movers[i].c == -1)
    && (forall k | 0 <= k < |s.received| ::
          var r := s.received[k];
          r.obj < |s.movers| && IsReported(s.movers[r.obj]) == 1 && s.movers[r.obj].c == r.c)
    && (forall k, l | 0 <= k < l < |s.received| :: s.received[k].obj != s.received[l].obj)
  }

  lemma {:induction false} SumZero(ms: seq<Mover>, f: Mover -> int)
    requires forall i | 0 <= i < |ms| :: f(ms[i]) == 0
    ensures Sum(ms, f) == 0
  {
    if ms != [] {
      SumZero(ms[..|ms| - 1], f);
    }
  }

  lemma InvInit(s: State, sizes: seq<int>, cap: nat)
    requires Init(s) && |sizes| == |s.movers| > 0
    ensures Inv(s, sizes, cap)
  {
    SumZero(s.movers, IsDone);
    SumZero(s.movers, IsReported);
    SumZero(s.movers, Passed);
    SumZero(s.movers, HasPassed);
  }

  /** One mover changes, and the books change with it. */
  lemma AccountsOne(s: State, e: Event, sizes: seq<int>, cap: nat, i: nat)
    requires Inv(s, sizes, cap) && Enabled(s, e, cap) && (e.Spawn? || e.Finish? || e.Take?)
    requires i == if e.Spawn? then s.spawned else e.i
    ensures Accounts(After(s, e, sizes, cap), cap)
  {
    SumsUpdate(s.movers, i, After(s, e, sizes, cap).movers[i]);
  }

  lemma AccountsReceive(s: State, i: nat, sizes: seq<int>, cap: nat)
    requires Inv(s, sizes, cap) && Enabled(s, Receive(i), cap)
    ensures Accounts(After(s, Receive(i), sizes, cap), cap)
  {
    var c := s.movers[i].c;
    SumsUpdate(s.movers, i, Draining(c));
    ReceivedSums(s.received, Report(i, c), Draining(c));
  }

  lemma AccountsStep(s: State, e: Event, sizes: seq<int>, cap: nat)
    requires Inv(s, sizes, cap) && Enabled(s, e, cap)
    ensures Accounts(After(s, e, sizes, cap), cap)
  {
    match e
    case Spawn => AccountsOne(s, e, sizes, cap, s.spawned);
    case Finish(i, _) => AccountsOne(s, e, sizes, cap, i);
    case Take(i) => AccountsOne(s, e, sizes, cap, i);
    case Receive(i) => AccountsReceive(s, i, sizes, cap);
    case Send =>
    case Close => ReportedAtMost(s);
  }

  lemma SpawningStep(s: State, e: Event, sizes: seq<int>, cap: nat)
    requires Inv(s, sizes, cap) && Enabled(s, e, cap)
    ensures Spawning(After(s, e, sizes, cap))
  {}

  lemma InvStep(s: State, e: Event, sizes: seq<int>, cap: nat)
    requires Inv(s, sizes, cap) && Enabled(s, e, cap)
    ensures Inv(After(s, e, sizes, cap), sizes, cap)
  {
    SpawningStep(s, e, sizes, cap);
    AccountsStep(s, e, sizes, cap);
    ReportsStep(s, e, sizes, cap);
  }

  lemma SumsUpdate(ms: seq<Mover>, i: nat, m: Mover)
    requires i < |ms|
    ensures Sum(ms[i := m], IsDone) == Sum(ms, IsDone) - IsDone(ms[i]) + IsDone(m)
    ensures Sum(ms[i := m], IsReported) == Sum(ms, IsReported) - IsReported(ms[i]) + IsReported(m)
    ensures Sum(ms[i := m], Passed) == Sum(ms, Passed) - Passed(ms[i]) + Passed(m)
    ensures Sum(ms[i := m], HasPassed) == Sum(ms, HasPassed) - HasPassed(ms[i]) + HasPassed(m)
  {
    SumUpdate(ms, i, m, IsDone);
    SumUpdate(ms, i, m, IsReported);
    SumUpdate(ms, i, m, Passed);
    SumUpdate(ms, i, m, HasPassed);
  }

  lemma ReceivedSums(rs: seq<Report>, r: Report, m: Mover)
    requires m.Draining? && m.c == r.c
    ensures Capacity(rs + [r]) == Capacity(rs) + Passed(m)
    ensures Successes(rs + [r]) == Successes(rs) + HasPassed(m)
  {
    assert (rs + [r])[..|rs|] == rs;
  }

  lemma ReportedAtMost(s: State)
    ensures Sum(s.movers, IsReported) <= |s.movers|
  {
    SumAtMost(s.movers, IsReported, 1);
  }

  lemma ReportsStep(s: State, e: Event, sizes: seq<int>, cap: nat)
    requires Inv(s, sizes, cap) && Enabled(s, e, cap)
    ensures Reports(After(s, e, sizes, cap), sizes)
  {
    var t := After(s, e, sizes, cap);
    forall k | 0 <= k < |t.received|
      ensures var r := t.received[k];
        r.obj < |t.movers| && IsReported(t.movers[r.obj]) == 1 && t.movers[r.obj].c == r.c
    {
      if k < |s.received| {
        assert t.received[k] == s.received[k];
      }
    }
    if e.Receive? {
      forall k | 0 <= k < |s.received| ensures s.received[k].obj != e.i {
        assert IsReported(s.movers[s.received[k].obj]) == 1;
      }
    }
  }

  lemma {:induction false} InvRun(s: State, es: seq<Event>, sizes: seq<int>, cap: nat)
    requires Inv(s, sizes, cap) && Possible(s, es, sizes, cap)
    ensures Inv(Final(s, es, sizes, cap), sizes, cap)
    decreases |es|
  {
    if es != [] {
      InvStep(s, es[0], sizes, cap);
      InvRun(After(s, es[0], sizes, cap), es[1..], sizes, cap);
    }
  }

  // ---------------------------------------------------------------- concurrency bound

  /** At most one mover more than the channel holds tokens, until the channels close. */
  lemma ConcurrencyBound(s: State, es: seq<Event>, sizes: seq<int>, cap: nat)
    requires Init(s) && |sizes| == |s.movers| > 0 && Possible(s, es, sizes, cap)
    ensures !Final(s, es, sizes, cap).closed ==> InFlight(Final(s, es, sizes, cap)) <= cap + 1
  {
    InvInit(s, sizes, cap);
    InvRun(s, es, sizes, cap);
  }

  lemma {:induction false} Extend(s: State, es: seq<Event>, e: Event, sizes: seq<int>, cap: nat)
    requires |sizes| == |s.movers| && Possible(s, es, sizes, cap) && Enabled(Final(s, es, sizes, cap), e, cap)
    ensures Possible(s, es + [e], sizes, cap)
    ensures Final(s, es + [e], sizes, cap) == After(Final(s, es, sizes, cap), e, sizes, cap)
    decreases |es|
  {
    var fs := es + [e];
    if es == [] {
      assert fs == [e] && [e][1..] == [];
    } else {
      assert fs[0] == es[0] && fs[1..] == es[1..] + [e];
      Extend(After(s, es[0], sizes, cap), es[1..], e, sizes, cap);
    }
  }

  /** `k` movers spawned and their tokens sent, nothing else done. */
  lemma {:induction false} SpawnAndSend(s: State, k: nat, sizes: seq<int>, cap: nat) returns (es: seq<Event>)
    requires Init(s) && |sizes| == |s.movers| && k <= |s.movers| && k <= cap
    ensures Possible(s, es, sizes, cap)
    ensures var t := Final(s, es, sizes, cap);
      && t.spawned == t.tokens == k && !t.sending && !t.closed
      && (forall i | 0 <= i < |t.movers| :: t.movers[i] == if i < k then Moving else NotSpawned)
  {
    if k == 0 {
      es := [];
    } else {
      es := SpawnAndSend(s, k - 1, sizes, cap);
      Extend(s, es, Spawn, sizes, cap);
      es := es + [Spawn];
      Extend(s, es, Send, sizes, cap);
      es := es + [Send];
    }
  }

  /** So many movers can work at the same time, up to one more than the capacity of the channel that
      is meant to limit them. */
  lemma BoundIsReached(s: State, k: nat, sizes: seq<int>, cap: nat) returns (es: seq<Event>)
    requires Init(s) && |sizes| == |s.movers| && 0 < k <= |s.movers| && k <= cap + 1
    ensures Possible(s, es, sizes, cap)
    ensures var t := Final(s, es, sizes, cap);
      InFlight(t) == k && !t.closed && forall i | 0 <= i < k :: t.movers[i].Moving?
  {
    es := SpawnAndSend(s, k - 1, sizes, cap);
    Extend(s, es, Spawn, sizes, cap);
    es := es + [Spawn];
    SumZero(Final(s, es, sizes, cap).movers, IsDone);
  }

  /** In no reachable state are more movers in flight, until the channels close. */
  ghost predicate NeverAbove(s: State, sizes: seq<int>, cap: nat, bound: nat)
    requires |sizes| == |s.movers|
  {
    forall es | Possible(s, es, sizes, cap) :: Final(s, es, sizes, cap).closed || InFlight(Final(s, es, sizes, cap)) <= bound
  }

  /** The exact bound is the smaller one of the number of objects and the capacity plus one. In
      particular the capacity itself is one only for jobs with no more objects than that. */
  lemma BoundExactlyIf(s: State, sizes: seq<int>, cap: nat, bound: nat)
    requires Init(s) && |sizes| == |s.movers| > 0
    ensures NeverAbove(s, sizes, cap, bound) <==> |s.movers| <= bound || cap + 1 <= bound
    ensures NeverAbove(s, sizes, cap, cap) <==> |s.movers| <= cap
  {
    BoundBy(s, sizes, cap, bound);
    BoundBy(s, sizes, cap, cap);
  }

  lemma BoundBy(s: State, sizes: seq<int>, cap: nat, bound: nat)
    requires Init(s) && |sizes| == |s.movers| > 0
    ensures NeverAbove(s, sizes, cap, bound) <==> |s.movers| <= bound || cap + 1 <= bound
  {
    if |s.movers| <= bound || cap + 1 <= bound {
      forall es | Possible(s, es, sizes, cap)
        ensures Final(s, es, sizes, cap).closed || InFlight(Final(s, es, sizes, cap)) <= bound
      {
        ConcurrencyBound(s, es, sizes, cap);
        FewMovers(s, es, sizes, cap);
      }
    } else {
      var es := BoundIsReached(s, bound + 1, sizes, cap);
    }
  }

  lemma FewMovers(s: State, es: seq<Event>, sizes: seq<int>, cap: nat)
    requires Init(s) && |sizes| == |s.movers| > 0 && Possible(s, es, sizes, cap)
    ensures InFlight(Final(s, es, sizes, cap)) <= |s.movers|
  {
    InvInit(s, sizes, cap);
    InvRun(s, es, sizes, cap);
    SumBounds(Final(s, es, sizes, cap).movers, IsDone, 0, 1);
  }

  // ---------------------------------------------------------------- progress and termination

  /** No state before the last report is stuck. */
  lemma NotStuck(s: State, sizes: seq<int>, cap: nat) returns (e: Event)
    requires Inv(s, sizes, cap) && !s.closed && cap > 0
    ensures Enabled(s, e, cap)
  {
    if i :| 0 <= i < |s.movers| && s.movers[i].Moving? {
      return Finish(i, true);
    }
    if i :| 0 <= i < |s.movers| && s.movers[i].Reporting? {
      return Receive(i);
    }
    if !s.sending {
      if s.spawned == |s.movers| {
        AllReported(s);
        return Close;
      }
      return Spawn;
    }
    if s.tokens < cap {
      return Send;
    }
    var i := SomeDraining(s, sizes, cap);
    return Take(i);
  }

  lemma AllReported(s: State)
    requires forall i | 0 <= i < |s.movers| :: IsReported(s.movers[i]) == 1
    ensures Sum(s.movers, IsReported) == |s.movers|
  {
    SumBounds(s.movers, IsReported, 1, 1);
  }

  /** If the channel is full and nobody moves or reports, a mover waits for its token. */
  lemma SomeDraining(s: State, sizes: seq<int>, cap: nat) returns (i: nat)
    requires Inv(s, sizes, cap) && !s.closed && s.tokens == cap > 0
    requires forall j | 0 <= j < |s.movers| :: !s.movers[j].Moving? && !s.movers[j].Reporting?
    ensures i < |s.movers| && s.movers[i].Draining?
  {
    if forall j | 0 <= j < s.spawned :: s.movers[j].Done? {
      DoneUpTo(s.movers, s.spawned);
      assert false;
    }
    i :| 0 <= i < s.spawned && !s.movers[i].Done?;
  }

  lemma {:induction false} DoneUpTo(ms: seq<Mover>, k: nat)
    requires k <= |ms|
    requires forall j | 0 <= j < |ms| :: ms[j].Done? <==> j < k
    ensures Sum(ms, IsDone) == k
    decreases |ms|
  {
    if ms != [] {
      DoneUpTo(ms[..|ms| - 1], if k < |ms| then k else k - 1);
    }
  }

  lemma MeasureStep(s: State, e: Event, sizes: seq<int>, cap: nat)
    requires Inv(s, sizes, cap) && Enabled(s, e, cap)
    ensures Measure(After(s, e, sizes, cap)) < Measure(s)
  {
    var t := After(s, e, sizes, cap);
    if !e.Send? && !e.Close? {
      var i := if e.Spawn? then s.spawned else e.i;
      SumUpdate(s.movers, i, t.movers[i], Weight);
      assert t.movers == s.movers[i := t.movers[i]];
    }
  }

  lemma MeasureBounds(s: State)
    ensures 0 <= Measure(s) <= 5 * |s.movers| + Bit(s.sending) + 1
  {
    SumBounds(s.movers, Weight, 0, 5);
  }

  /** Every interleaving ends: no run has more than five events per object, and the close. */
  lemma {:induction false} RunsAreFinite(s: State, es: seq<Event>, sizes: seq<int>, cap: nat)
    requires Inv(s, sizes, cap) && Possible(s, es, sizes, cap)
    ensures |es| + Measure(Final(s, es, sizes, cap)) <= Measure(s)
    decreases |es|
  {
    if es != [] {
      InvStep(s, es[0], sizes, cap);
      MeasureStep(s, es[0], sizes, cap);
      RunsAreFinite(After(s, es[0], sizes, cap), es[1..], sizes, cap);
    }
  }

  lemma RunLength(s: State, es: seq<Event>, sizes: seq<int>, cap: nat)
    requires Init(s) && |sizes| == |s.movers| > 0 && Possible(s, es, sizes, cap)
    ensures |es| <= 5 * |s.movers| + 1
  {
    InvInit(s, sizes, cap);
    RunsAreFinite(s, es, sizes, cap);
    MeasureBounds(s);
    MeasureBounds(Final(s, es, sizes, cap));
  }

  // ---------------------------------------------------------------- what a complete run has done

  /** A run that cannot continue has closed the channels. */
  lemma MaximalRunsClose(s: State, es: seq<Event>, sizes: seq<int>, cap: nat)
    requires Init(s) && |sizes| == |s.movers| > 0 && cap > 0 && Possible(s, es, sizes, cap)
    requires forall e :: !Enabled(Final(s, es, sizes, cap), e, cap)
    ensures Final(s, es, sizes, cap).closed
  {
    InvInit(s, sizes, cap);
    InvRun(s, es, sizes, cap);
    if !Final(s, es, sizes, cap).closed {
      var e := NotStuck(Final(s, es, sizes, cap), sizes, cap);
      assert false;
    }
  }

  /** When the channels are closed, every object has reported exactly once, its size or -1, and
      `capacity` is the sum of the sizes of the objects that succeeded. */
  lemma EveryObjectReportsOnce(s: State, es: seq<Event>, sizes: seq<int>, cap: nat)
    requires Init(s) && |sizes| == |s.movers| > 0 && Possible(s, es, sizes, cap)
    requires Final(s, es, sizes, cap).closed
    ensures var t := Final(s, es, sizes, cap);
      && |t.received| == |sizes|
      && (forall k | 0 <= k < |t.received| ::
            t.received[k].obj < |sizes| && (t.received[k].c == sizes[t.received[k].obj] || t.received[k].c == -1))
      && (forall k, l | 0 <= k < l < |t.received| :: t.received[k].obj != t.received[l].obj)
      && (forall i | 0 <= i < |sizes| :: IsReported(t.movers[i]) == 1 && (t.movers[i].c == sizes[i] || t.movers[i].c == -1))
      && Capacity(t.received) == Sum(t.movers, Passed)
  {
    InvInit(s, sizes, cap);
    InvRun(s, es, sizes, cap);
    var t := Final(s, es, sizes, cap);
    SumIsFull(t.movers, IsReported, 1);
    assert forall i | 0 <= i < |sizes| :: IsReported(t.movers[i]) == 1;
  }

  // ---------------------------------------------------------------- the last token

  /** After the close only the token of the last object can still be unsent. */
  lemma OnlyTheLastTokenIsLate(s: State, es: seq<Event>, sizes: seq<int>, cap: nat)
    requires Init(s) && |sizes| == |s.movers| > 0 && Possible(s, es, sizes, cap)
    ensures var t := Final(s, es, sizes, cap); t.closed ==> t.spawned == |t.movers|
  {
    InvInit(s, sizes, cap);
    InvRun(s, es, sizes, cap);
    var t := Final(s, es, sizes, cap);
    if t.closed {
      SumIsFull(t.movers, IsReported, 1);
      assert IsReported(t.movers[|t.movers| - 1]) == 1;
    }
  }

  /** The first `k` objects have been moved and everything about them is over. */
  predicate Completed(t: State, k: nat) {
    && t.spawned == |t.received| == k <= |t.movers| && t.tokens == 0 && !t.sending && !t.closed
    && (forall i | 0 <= i < |t.movers| :: if i < k then t.movers[i].Done? else t.movers[i].NotSpawned?)
  }

  lemma CompleteNext(s: State, es: seq<Event>, k: nat, sizes: seq<int>, cap: nat)
    requires |sizes| == |s.movers| && cap > 0 && Possible(s, es, sizes, cap)
    requires Completed(Final(s, es, sizes, cap), k) && k < |s.movers|
    ensures var fs := es + [Spawn] + [Send] + [Finish(k, true)] + [Receive(k)] + [Take(k)];
      Possible(s, fs, sizes, cap) && Completed(Final(s, fs, sizes, cap), k + 1)
  {
    Extend(s, es, Spawn, sizes, cap);
    Extend(s, es + [Spawn], Send, sizes, cap);
    Extend(s, es + [Spawn] + [Send], Finish(k, true), sizes, cap);
    Extend(s, es + [Spawn] + [Send] + [Finish(k, true)], Receive(k), sizes, cap);
    Extend(s, es + [Spawn] + [Send] + [Finish(k, true)] + [Receive(k)], Take(k), sizes, cap);
  }

  lemma {:induction false} CompleteFirst(s: State, k: nat, sizes: seq<int>, cap: nat) returns (es: seq<Event>)
    requires Init(s) && |sizes| == |s.movers| && k <= |s.movers| && (cap > 0 || k == 0)
    ensures Possible(s, es, sizes, cap) && Completed(Final(s, es, sizes, cap), k)
  {
    if k == 0 {
      es := [];
    } else {
      es := CompleteFirst(s, k - 1, sizes, cap);
      CompleteNext(s, es, k - 1, sizes, cap);
      es := es + [Spawn] + [Send] + [Finish(k - 1, true)] + [Receive(k - 1)] + [Take(k - 1)];
    }
  }

  /** In every job that is not empty: the last mover may report before the spawner has sent its token,
      and the spawner then sends on a closed channel. */
  lemma LateTokenExists(s: State, sizes: seq<int>, cap: nat) returns (es: seq<Event>)
    requires Init(s) && |sizes| == |s.movers| > 0 && (|s.movers| == 1 || cap > 0)
    ensures Possible(s, es, sizes, cap)
    ensures Final(s, es, sizes, cap).closed && Final(s, es, sizes, cap).sending
  {
    var n := |s.movers| - 1;
    es := CompleteFirst(s, n, sizes, cap);
    Extend(s, es, Spawn, sizes, cap);
    es := es + [Spawn];
    Extend(s, es, Finish(n, true), sizes, cap);
    es := es + [Finish(n, true)];
    Extend(s, es, Receive(n), sizes, cap);
    es := es + [Receive(n)];
    Extend(s, es, Close, sizes, cap);
    es := es + [Close];
  }
}
