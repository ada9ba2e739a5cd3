// runjob without assist (datamover/pkg/drivers/https/migration.go): prepare4Run, doMigration,
// updateJob, with the accounting of capacity and progress and the writes of the job record.
module MigrationRun {
  import opened JobRecord

  /** Sum of the reported sizes of the objects that succeeded. */
  function Capacity(cs: seq<int>): int {
    if cs == [] then 0 else Capacity(cs[..|cs| - 1]) + if cs[|cs| - 1] >= 0 then cs[|cs| - 1] else 0
  }

  /** Number of reports of success. */
  function Passed(cs: seq<int>): nat {
    if cs == [] then 0 else Passed(cs[..|cs| - 1]) + if cs[|cs| - 1] >= 0 then 1 else 0
  }

  function Total(sizes: seq<int>): int {
    if sizes == [] then 0 else Total(sizes[..|sizes| - 1]) + sizes[|sizes| - 1]
  }

  /** The reports of a complete run over objects of these sizes. */
  predicate Consistent(cs: seq<int>, sizes: seq<int>) {
    && |cs| == |sizes|
    && Capacity(cs) <= Total(sizes)
    && (Passed(cs) == |cs| ==> Capacity(cs) == Total(sizes))
  }

  lemma {:induction false} PassedAll(cs: seq<int>)
    ensures Passed(cs) <= |cs|
    ensures Passed(cs) == |cs| <==> forall i | 0 <= i < |cs| :: cs[i] >= 0
  {
    if cs != [] {
      var front := cs[..|cs| - 1];
      PassedAll(front);
      assert forall i | 0 <= i < |front| :: cs[i] == front[i];
    }
  }

  /** The objects that have passed. */
  function Successes(cs: seq<int>): set<nat> {
    set i | 0 <= i < |cs| && cs[i] >= 0 :: i
  }

  lemma {:induction false} PassedCounts(cs: seq<int>)
    ensures Passed(cs) == |Successes(cs)|
  {
    if cs == [] {
      assert Successes(cs) == {};
    } else {
      PassedCounts(cs[..|cs| - 1]);
      LastSuccess(cs);
    }
  }

  lemma LastSuccess(cs: seq<int>)
    requires cs != []
    ensures var n := |cs| - 1;
      |Successes(cs)| == |Successes(cs[..n])| + if cs[n] >= 0 then 1 else 0
  {
    var n := |cs| - 1;
    var front := Successes(cs[..n]);
    assert n !in front;
    assert Successes(cs) == if cs[n] >= 0 then front + {n} else front;
  }

  /** What each report adds to the capacity. */
  function Moved(cs: seq<int>): seq<int> {
    seq(|cs|, i requires 0 <= i < |cs| => if cs[i] >= 0 then cs[i] else 0)
  }

  lemma {:induction false} CapacityIsTotal(cs: seq<int>)
    ensures Capacity(cs) == Total(Moved(cs))
  {
    if cs != [] {
      CapacityIsTotal(cs[..|cs| - 1]);
      assert Moved(cs)[..|cs| - 1] == Moved(cs[..|cs| - 1]);
    }
  }

  lemma {:induction false} CapacityGrows(cs: seq<int>, k: nat)
    requires k <= |cs|
    ensures 0 <= Capacity(cs[..k]) <= Capacity(cs)
    decreases |cs|
  {
    if k < |cs| {
      var front := cs[..|cs| - 1];
      assert front[..k] == cs[..k];
      CapacityGrows(front, k);
    } else if k > 0 {
      assert cs[..k] == cs;
      CapacityGrows(cs[..k - 1], k - 1);
      assert cs[..k - 1][..k - 1] == cs[..k - 1];
    }
  }

  lemma {:induction false} TotalNonNegative(sizes: seq<int>)
    requires forall i | 0 <= i < |sizes| :: sizes[i] >= 0
    ensures Total(sizes) >= 0
  {
    if sizes != [] {
      TotalNonNegative(sizes[..|sizes| - 1]);
    }
  }

  /** capacity * 100 / TotalCapacity */
  function Percent(capacity: int, total: int): int
    requires total > 0
  {
    capacity * 100 / total
  }

  lemma PercentBounds(x: int, y: int, total: int)
    requires 0 <= x <= y <= total && total > 0
    ensures 0 <= Percent(x, total) <= Percent(y, total) <= 100
    ensures Percent(total, total) == 100
  {
    DivMonotone(x * 100, y * 100, total);
    DivMonotone(y * 100, total * 100, total);
    DivMonotone(0, x * 100, total);
    DivExact(100, total);
  }

  /** The quotient is the largest whole number of per cent that has been reached. */
  lemma PercentIsFloor(capacity: int, total: int)
    requires total > 0
    ensures var p := Percent(capacity, total); p * total <= 100 * capacity < (p + 1) * total
  {
    var p := Percent(capacity, total);
    assert capacity * 100 == p * total + capacity * 100 % total;
    assert (p + 1) * total == p * total + total;
  }

  lemma TimesNext(q: int, p: int, t: int)
    requires t > 0
    ensures q < p ==> q * t + t <= p * t
  {
    assert q < p ==> (p - q - 1) * t >= 0;
  }

  lemma DivMonotone(a: int, b: int, t: int)
    requires a <= b && t > 0
    ensures a / t <= b / t
  {
    var p, q := a / t, b / t;
    TimesNext(q, p, t);
    assert a == p * t + a % t && b == q * t + b % t;
  }

  lemma DivExact(k: int, t: int)
    requires t > 0
    ensures k * t / t == k && 0 / t == 0
  {
    var q := k * t / t;
    TimesNext(q, k, t);
    TimesNext(k, q, t);
    assert k * t == q * t + (k * t) % t;
  }

  lemma AdvancesTrans(a: Rec, b: Rec, c: Rec)
    requires Advances(a, b) && Advances(b, c)
    ensures Advances(a, c)
  {}

  /** The in-memory job is ahead of the stored record. */
  ghost predicate Ahead(store: JobStore, job: Job)
    reads store, job
  {
    store.Valid() && Advances(store.record, job.AsRec())
  }

  /** What updateJob makes of the job; `Unset` keeps the status. */
  function Updated(r: Rec, status: Status, step: string, now: nat): Rec {
    var s := if status.Unset? then r.status else status;
    r.(status := s, endTime := if Terminal(s) then now else r.endTime, stepDesc := r.stepDesc + step + "\n")
  }

  /** The history goes on with copies of `r`, if at all. */
  predicate Extends(h0: seq<Rec>, h: seq<Rec>, r: Rec) {
    h0 <= h && forall i | |h0| <= i < |h| :: h[i] == r
  }

  /** updateJob: at most three attempts to write. A write that took effect and was reported as failed
      is written again. */
  method UpdateJob(job: Job, store: JobStore, status: Status, step: string, now: nat)
    requires Ahead(store, job) && Advances(job.AsRec(), Updated(job.AsRec(), status, step, now))
    modifies job, store
    ensures Ahead(store, job) && job.AsRec() == Updated(old(job.AsRec()), status, step, now)
    ensures job.status == (if status.Unset? then old(job.status) else status) && job.stepDesc == old(job.stepDesc) + step + "\n"
    ensures job.endTime == if job.status.Succeed? || job.status.Failed? then now else old(job.endTime)
    // nothing but this version is written, and it is given up only after three attempts
    ensures Extends(old(store.history), store.history, job.AsRec())
    ensures store.lost == 0 || store.attempts == old(store.attempts) + 3
    ensures store.history == old(store.history) ==> store.attempts == old(store.attempts) + 3
    ensures old(store.attempts) < store.attempts <= old(store.attempts) + 3
    ensures store.record == job.AsRec() || store.lost >= 3
  {
    AdvancesTrans(store.record, job.AsRec(), Updated(job.AsRec(), status, step, now));
    job.stepDesc := job.stepDesc + step + "\n";
    if status != Unset {
      job.status := status;
    }
    if Terminal(job.status) {
      job.endTime := now;
    }
    var i := 1;
    while i <= 3
      invariant 1 <= i <= 4 && store.attempts == old(store.attempts) + i - 1
      invariant store.lost == old(store.lost) + i - 1
      invariant Ahead(store, job) && job.AsRec() == Updated(old(job.AsRec()), status, step, now)
      invariant Extends(old(store.history), store.history, job.AsRec())
    {
      var ok := store.UpdateJob(job);
      if ok {
        break;
      }
      i := i + 1;
    }
  }

  /** The fields doMigration sets after a report. */
  method Account(job: Job, passedCount: int, capacity: int)
    requires job.totalCapacity > 0
    modifies job
    ensures job.AsRec() == old(job.AsRec()).(passedCount := passedCount, passedCapacity := capacity,
                                             progress := Percent(capacity, old(job.totalCapacity)))
  {
    job.passedCount := passedCount;
    job.passedCapacity := capacity;
    job.progress := Percent(capacity, job.totalCapacity);
  }

  /** The job while reports come in: only the three accounting fields differ from `r0`. */
  predicate Counting(r0: Rec, r: Rec, passed: int, capacity: int)
    requires r0.totalCapacity > 0
  {
    && r == r0.(passedCount := r.passedCount, passedCapacity := r.passedCapacity, progress := r.progress)
    && 0 <= r.passedCount <= passed && 0 <= r.passedCapacity <= capacity
    && r.progress == Percent(r.passedCapacity, r0.totalCapacity)
  }

  lemma CountingAdvances(r0: Rec, r: Rec, passed: int, capacity: int)
    requires r0.totalCapacity > 0 && Counting(r0, r, passed, capacity) && 0 <= capacity <= r0.totalCapacity
    requires r.endTime == 0 && r.status.Running?
    ensures Advances(r, r0.(passedCount := passed, passedCapacity := capacity, progress := Percent(capacity, r0.totalCapacity)))
    ensures Counting(r0, r0.(passedCount := passed, passedCapacity := capacity, progress := Percent(capacity, r0.totalCapacity)), passed, capacity)
  {
    PercentBounds(r.passedCapacity, capacity, r0.totalCapacity);
  }

  /** The record is written after the `count`-th of `total` reports. */
  predicate Due(total: nat, count: nat) {
    total < 100 || count == total || count % (total / 10) == 0
  }

  /** Number of writes after the first `count` of `total` reports. */
  function Writes(total: nat, count: nat): nat {
    if count == 0 then 0 else Writes(total, count - 1) + if Due(total, count) then 1 else 0
  }

  /** Up to 99 objects every report is written, above that the record is written at most eleven times;
      the last report is written in any case. */
  lemma WritesAreFew(total: nat)
    requires total > 0
    ensures total < 100 ==> Writes(total, total) == total
    ensures total >= 100 ==> Writes(total, total) <= 11
    ensures Writes(total, total) > Writes(total, total - 1)
  {
    if total < 100 {
      WritesAll(total, total);
    } else {
      var deci := total / 10;
      WritesSpread(total, total - 1, deci);
      Cancel(Writes(total, total - 1), 11, deci);
    }
  }

  lemma Cancel(a: int, b: int, t: int)
    requires t > 0 && a * t < b * t
    ensures a < b && a * t + t <= b * t
  {
    TimesNext(a, b, t);
    TimesNext(b, a, t);
  }

  lemma {:induction false} WritesAll(total: nat, count: nat)
    requires total < 100
    ensures Writes(total, count) == count
  {
    if count > 0 {
      WritesAll(total, count - 1);
    }
  }

  lemma OneMoreMultiple(w: nat, count: nat, deci: nat)
    requires deci > 0 && count % deci == 0 && w * deci < count
    ensures (w + 1) * deci <= count
  {
    var q := count / deci;
    assert count == q * deci;
    Cancel(w, q, deci);
    assert (w + 1) * deci == w * deci + deci;
  }

  lemma {:induction false} WritesSpread(total: nat, count: nat, deci: nat)
    requires total >= 100 && deci == total / 10 && count < total
    ensures Writes(total, count) * deci <= count
  {
    if count > 0 {
      WritesSpread(total, count - 1, deci);
      if Due(total, count) {
        OneMoreMultiple(Writes(total, count - 1), count, deci);
      }
    }
  }

  /** The job `r0` after the first `k` reports: the successes among them are counted and summed up, and
      the progress is the largest whole number of per cent that has been reached. */
  predicate Shows(r0: Rec, r: Rec, cs: seq<int>, k: nat) {
    && k <= |cs|
    && r == r0.(passedCount := |Successes(cs[..k])|, passedCapacity := Total(Moved(cs[..k])), progress := r.progress)
    && r.progress * r0.totalCapacity <= 100 * r.passedCapacity < (r.progress + 1) * r0.totalCapacity
  }

  /** What is written while reports come in: the job after a report that is due. */
  ghost predicate Written(r0: Rec, h0: seq<Rec>, h: seq<Rec>, cs: seq<int>) {
    && h0 <= h
    && forall i | |h0| <= i < |h| :: exists k | 0 < k <= |cs| && Due(|cs|, k) :: Shows(r0, h[i], cs, k)
  }

  lemma WrittenNext(r0: Rec, h0: seq<Rec>, h: seq<Rec>, h1: seq<Rec>, r: Rec, cs: seq<int>, k: nat)
    requires Written(r0, h0, h, cs) && Extends(h, h1, r)
    requires 0 < k <= |cs| && Due(|cs|, k) && Shows(r0, r, cs, k)
    ensures Written(r0, h0, h1, cs)
  {
    forall i | |h0| <= i < |h1| ensures exists k | 0 < k <= |cs| && Due(|cs|, k) :: Shows(r0, h1[i], cs, k) {
      if i < |h| {
        assert h1[i] == h[i];
      }
    }
  }

  lemma ShowsCounting(r0: Rec, r: Rec, cs: seq<int>, k: nat)
    requires r0.totalCapacity > 0 && k <= |cs| && Counting(r0, r, Passed(cs[..k]), Capacity(cs[..k]))
    requires r.passedCount == Passed(cs[..k]) && r.passedCapacity == Capacity(cs[..k])
    ensures Shows(r0, r, cs, k)
  {
    PassedCounts(cs[..k]);
    CapacityIsTotal(cs[..k]);
    PercentIsFloor(r.passedCapacity, r0.totalCapacity);
  }

  lemma NextReport(cs: seq<int>, k: nat)
    requires k < |cs|
    ensures Passed(cs[..k + 1]) == Passed(cs[..k]) + if cs[k] >= 0 then 1 else 0
    ensures Capacity(cs[..k + 1]) == Capacity(cs[..k]) + if cs[k] >= 0 then cs[k] else 0
    ensures 0 <= Capacity(cs[..k]) <= Capacity(cs[..k + 1]) <= Capacity(cs)
  {
    assert cs[..k + 1][..k] == cs[..k];
    CapacityGrows(cs, k);
    CapacityGrows(cs, k + 1);
  }

  /** After the last report. */
  lemma LastReport(r0: Rec, r: Rec, cs: seq<int>, sizes: seq<int>)
    requires Consistent(cs, sizes) && r0.totalCapacity == Total(sizes) > 0 && Counting(r0, r, Passed(cs), Capacity(cs))
    requires r.passedCount == Passed(cs) && r.passedCapacity == Capacity(cs)
    ensures Shows(r0, r, cs, |cs|) && 0 <= r.progress <= 100
    ensures Passed(cs) <= |cs|
    ensures Passed(cs) == |cs| ==> r.progress == 100
    ensures Passed(cs) == |cs| <==> forall i | 0 <= i < |cs| :: cs[i] >= 0
  {
    assert cs[..|cs|] == cs;
    PassedAll(cs);
    CapacityGrows(cs, |cs|);
    PercentBounds(r.passedCapacity, r.passedCapacity, r0.totalCapacity);
    ShowsCounting(r0, r, cs, |cs|);
  }

  /** strconv.FormatInt(n, 10) */
  function Decimal(n: nat): (s: string)
    ensures s != "" && forall i | 0 <= i < |s| :: '0' <= s[i] <= '9'
  {
    var digit := ('0' as int + n % 10) as char;
    if n < 10 then [digit] else Decimal(n / 10) + [digit]
  }

  /** The number a text of digits stands for. */
  function Reads(s: string): int {
    if s == "" then 0 else 10 * Reads(s[..|s| - 1]) + (s[|s| - 1] as int - '0' as int)
  }

  lemma {:induction false} DecimalReads(n: nat)
    ensures Reads(Decimal(n)) == n && (|Decimal(n)| > 1 ==> Decimal(n)[0] != '0')
  {
    var s := Decimal(n);
    if n < 10 {
      assert s[..0] == "";
    } else {
      DecimalReads(n / 10);
      assert s[..|s| - 1] == Decimal(n / 10);
      assert n / 10 < 10 ==> Decimal(n / 10) == [('0' as int + n / 10 % 10) as char];
    }
  }

  /** The error of doMigration. */
  function FailureText(total: nat, passed: nat): string {
    "migrate failed:" + Decimal(total) + " objects, passed " + Decimal(passed)
  }

  /** doMigration: `cs` are the reports in the order of arrival. The job is written after each report
      for less than a hundred objects, otherwise about ten times and after the last report. */
  method DoMigration(job: Job, store: JobStore, cs: seq<int>, ghost sizes: seq<int>) returns (ok: bool, errmsg: string)
    requires Ahead(store, job) && job.status.Running? && job.endTime == 0
    requires Consistent(cs, sizes) && cs != []
    requires job.totalCount == |cs| && job.totalCapacity == Total(sizes) > 0
    requires job.passedCount == job.passedCapacity == job.progress == 0
    requires job.totalCapacity * 100 < 0x8000_0000_0000_0000
    modifies job, store
    ensures Ahead(store, job)
    ensures ok <==> forall i | 0 <= i < |cs| :: cs[i] >= 0
    ensures job.passedCapacity == Capacity(cs) && job.passedCount == Passed(cs)
    // the job, and every version of it that is written, shows the reports that have come in
    ensures Shows(old(job.AsRec()), job.AsRec(), cs, |cs|)
    ensures Written(old(job.AsRec()), old(store.history), store.history, cs)
    ensures 0 <= job.progress <= 100 && (ok ==> job.progress == 100)
    ensures Counting(old(job.AsRec()), job.AsRec(), Passed(cs), Capacity(cs))
    ensures store.attempts == old(store.attempts) + Writes(|cs|, |cs|)
    ensures !ok ==> errmsg == FailureText(|cs|, |Successes(cs)|)
  {
    ghost var r0 := job.AsRec();
    var count, passedCount, capacity := 0, 0, 0;
    var totalObjs := job.totalCount;
    DivExact(0, job.totalCapacity);
    while count < totalObjs
      invariant 0 <= count <= |cs|
      invariant passedCount == Passed(cs[..count]) && capacity == Capacity(cs[..count])
      invariant Counting(r0, job.AsRec(), passedCount, capacity)
      invariant Ahead(store, job) && store.attempts == old(store.attempts) + Writes(totalObjs, count)
      invariant Written(r0, old(store.history), store.history, cs)
      invariant count == |cs| ==> job.passedCount == passedCount && job.passedCapacity == capacity
    {
      var c := cs[count];
      NextReport(cs, count);
      count := count + 1;
      if c >= 0 {
        passedCount := passedCount + 1;
        capacity := capacity + c;
      }
      assert capacity * 100 < 0x8000_0000_0000_0000;
      var deci := totalObjs / 10;
      if totalObjs < 100 || count == totalObjs || count % deci == 0 {
        WriteProgress(job, store, r0, cs, count, old(store.history), passedCount, capacity);
      }
    }
    assert cs[..count] == cs;
    job.passedCount := passedCount;
    LastReport(r0, job.AsRec(), cs, sizes);
    PassedCounts(cs);
    ok, errmsg := true, "";
    if passedCount < totalObjs {
      ok, errmsg := false, "migrate failed:" + Decimal(totalObjs) + " objects, passed " + Decimal(passedCount);
    }
  }

  /** The accounting fields are set and written. */
  method WriteProgress(job: Job, store: JobStore, ghost r0: Rec, ghost cs: seq<int>, ghost count: nat, ghost h0: seq<Rec>,
                       passedCount: int, capacity: int)
    requires Ahead(store, job) && r0.totalCapacity > 0 && 0 <= capacity <= r0.totalCapacity
    requires Counting(r0, job.AsRec(), passedCount, capacity) && r0.endTime == 0 && r0.status.Running?
    requires 0 < count <= |cs| && Due(|cs|, count) && Written(r0, h0, store.history, cs)
    requires passedCount == Passed(cs[..count]) && capacity == Capacity(cs[..count])
    modifies job, store
    ensures Ahead(store, job)
    ensures Counting(r0, job.AsRec(), passedCount, capacity)
    ensures job.passedCount == passedCount && job.passedCapacity == capacity
    ensures Written(r0, h0, store.history, cs)
    ensures store.attempts == old(store.attempts) + 1
  {
    CountingAdvances(r0, job.AsRec(), passedCount, capacity);
    AdvancesTrans(store.record, job.AsRec(),
                  r0.(passedCount := passedCount, passedCapacity := capacity, progress := Percent(capacity, r0.totalCapacity)));
    Account(job, passedCount, capacity);
    ghost var before := store.history;
    var _ := store.UpdateJob(job);
    ShowsCounting(r0, job.AsRec(), cs, count);
    WrittenNext(r0, h0, before, store.history, job.AsRec(), cs, count);
  }

  /** The early failures of prepare4Run. */
  method FailEarly(job: Job, store: JobStore, now: nat)
    requires store.Valid() && store.record == CREATED && now > 0
    requires job.AsRec() == Rec(job.startTime, 0, 0, 0, 0, 0, Unset, 0, "") && job.startTime > 0
    modifies job, store
    ensures Ahead(store, job) && job.AsRec() == Rec(old(job.startTime), now, 0, 0, 0, 0, Failed, 0, "")
    ensures store.attempts == old(store.attempts) + 1
    ensures store.record == job.AsRec() || store.lost >= 1
  {
    job.status := Failed;
    job.endTime := now;
    var _ := store.UpdateJob(job);
  }

  /** The job after a successful preparation: finished at once if there is no data to move. */
  function Prepared(start: nat, sizes: seq<int>, now: nat): Rec {
    if Total(sizes) == 0 then Rec(start, now, 0, |sizes|, 0, 0, Succeed, 100, "")
    else Rec(start, 0, Total(sizes), |sizes|, 0, 0, Running, 0, "")
  }

  /** prepare4Run: locations, objects, totals; the status becomes failed, succeed or running. */
  method PrepareForRun(job: Job, store: JobStore, srcOk: bool, destOk: bool, listOk: bool, sizes: seq<int>, now: nat)
    returns (ok: bool)
    requires store.Valid() && store.record == CREATED && now > 0
    requires job.AsRec() == Rec(job.startTime, 0, 0, 0, 0, 0, Unset, 0, "") && job.startTime > 0
    requires forall i | 0 <= i < |sizes| :: sizes[i] >= 0
    modifies job, store
    ensures Ahead(store, job)
    ensures ok <==> srcOk && destOk && listOk
    ensures !ok ==> job.AsRec() == Rec(old(job.startTime), now, 0, 0, 0, 0, Failed, 0, "")
    ensures ok ==> job.AsRec() == Prepared(old(job.startTime), sizes, now)
    ensures ok ==> job.totalCount == |sizes| && job.totalCapacity == Total(sizes)
    ensures ok ==> if Total(sizes) == 0 then job.status.Succeed? && job.progress == 100 && job.endTime == now
                   else job.status.Running? && job.progress == job.endTime == 0
    ensures store.attempts == old(store.attempts) + 1
    ensures store.record == job.AsRec() || store.lost >= 1
  {
    if !srcOk || !destOk || !listOk {
      FailEarly(job, store, now);
      return false;
    }
    for i := 0 to |sizes|
      invariant job.AsRec() == Rec(old(job.startTime), 0, Total(sizes[..i]), i, 0, 0, Unset, 0, "")
      invariant store.Valid() && store.record == CREATED && store.attempts == old(store.attempts)
    {
      assert sizes[..i + 1][..i] == sizes[..i];
      job.totalCount := job.totalCount + 1;
      job.totalCapacity := job.totalCapacity + sizes[i];
    }
    assert sizes[..|sizes|] == sizes;
    if job.totalCount == 0 || job.totalCapacity == 0 {
      job.status := Succeed;
      job.endTime := now;
      job.progress := 100;
    } else {
      job.status := Running;
    }
    var _ := store.UpdateJob(job);
    ok := true;
  }

  /** runjob for a job without assist, whatever writes fail. The stored record only ever advances
      (store.Valid), it is at every moment the last version taken, and at the end the job is terminal. */
  method RunJob(store: JobStore, srcOk: bool, destOk: bool, listOk: bool, sizes: seq<int>, cs: seq<int>, now: nat)
    returns (job: Job, ok: bool)
    requires store.Valid() && store.record == CREATED && now > 0
    requires forall i | 0 <= i < |sizes| :: sizes[i] >= 0
    requires srcOk && destOk && listOk && Total(sizes) > 0 ==> Consistent(cs, sizes)
    requires Total(sizes) * 100 < 0x8000_0000_0000_0000
    modifies store
    ensures Ahead(store, job)
    ensures Terminal(job.status) && job.endTime == now && job.startTime == now
    ensures ok <==> srcOk && destOk && listOk && (Total(sizes) == 0 || forall i | 0 <= i < |cs| :: cs[i] >= 0)
    ensures ok <==> job.status.Succeed?
    ensures ok ==> job.progress == 100
    // the record is the final job, unless all of its last writes were lost: three of them after a
    // migration, the only one before
    ensures store.record == job.AsRec() || store.lost >= if srcOk && destOk && listOk && Total(sizes) > 0 then 3 else 1
    ensures srcOk && destOk && listOk && Total(sizes) > 0 ==>
      && job.passedCapacity == Capacity(cs) && job.passedCount == Passed(cs) && job.totalCapacity == Total(sizes)
      && job.stepDesc == "migrate ..." + "\n" + (if ok then "migrate sucecessfully." else FailureText(|cs|, |Successes(cs)|)) + "\n"
  {
    job := new Job(now);
    ok := PrepareForRun(job, store, srcOk, destOk, listOk, sizes, now);
    if !ok {
      return;
    }
    if job.totalCount == 0 || job.totalCapacity == 0 {
      return;
    }
    TotalNonNegative(sizes);
    ok := Migrate(job, store, cs, sizes, now);
  }

  /** The rest of runjob, for a job with something to move. */
  method Migrate(job: Job, store: JobStore, cs: seq<int>, ghost sizes: seq<int>, now: nat) returns (ok: bool)
    requires Ahead(store, job) && now > 0 && job.startTime > 0
    requires Consistent(cs, sizes) && cs != [] && Total(sizes) > 0 && Total(sizes) * 100 < 0x8000_0000_0000_0000
    requires job.AsRec() == Rec(job.startTime, 0, Total(sizes), |sizes|, 0, 0, Running, 0, "")
    modifies job, store
    ensures Ahead(store, job) && (store.record == job.AsRec() || store.lost >= 3)
    ensures ok <==> forall i | 0 <= i < |cs| :: cs[i] >= 0
    ensures job.status == (if ok then Succeed else Failed) && job.startTime == old(job.startTime) && job.endTime == now
    ensures job.passedCapacity == Capacity(cs) && job.passedCount == Passed(cs) && job.totalCapacity == Total(sizes)
    ensures ok ==> job.progress == 100
    ensures job.stepDesc == "migrate ..." + "\n" + (if ok then "migrate sucecessfully." else FailureText(|cs|, |Successes(cs)|)) + "\n"
  {
    UpdateJob(job, store, Running, "migrate ...", now);
    assert job.stepDesc == "migrate ..." + "\n";
    var errmsg;
    ok, errmsg := DoMigration(job, store, cs, sizes);
    Finish(job, store, ok, errmsg, now);
  }

  /** The last update of runjob. */
  method Finish(job: Job, store: JobStore, ok: bool, errmsg: string, now: nat)
    requires Ahead(store, job) && job.status.Running? && now > 0
    modifies job, store
    ensures Ahead(store, job) && (store.record == job.AsRec() || store.lost >= 3)
    ensures var text := if ok then "migrate sucecessfully." else errmsg;
      job.AsRec() == Updated(old(job.AsRec()), if ok then Succeed else Failed, text, now)
  {
    if !ok {
      UpdateJob(job, store, Failed, errmsg, now);
    } else {
      UpdateJob(job, store, Succeed, "migrate sucecessfully.", now);
    }
  }
}
