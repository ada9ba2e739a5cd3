// The job record: the in-memory Job of datamover/pkg/drivers/https/migration.go and the stored one,
// which UpdateJob of datamover/pkg/db/drivers/mongo/mongo.go merges field by field, skipping zeros.
module JobRecord {

  /** `Unset` is the empty string. */
  datatype Status = Unset | Pending | Running | Succeed | Failed

  predicate Terminal(s: Status) {
    s.Succeed? || s.Failed?
  }

  /** The fields UpdateJob writes; time 0 is the zero time. */
  datatype Rec = Rec(startTime: nat, endTime: nat, totalCapacity: int, totalCount: int, passedCount: int,
                     passedCapacity: int, status: Status, progress: int, stepDesc: string)

  /** The record a plan run creates. */
  const CREATED := Rec(0, 0, 0, 0, 0, 0, Pending, 0, "")

  /** No field that is set becomes zero again. */
  predicate Keeps(a: Rec, b: Rec) {
    && (a.startTime != 0 ==> b.startTime != 0)
    && (a.endTime != 0 ==> b.endTime != 0)
    && (a.totalCapacity != 0 ==> b.totalCapacity != 0)
    && (a.totalCount != 0 ==> b.totalCount != 0)
    && (a.passedCount != 0 ==> b.passedCount != 0)
    && (a.passedCapacity != 0 ==> b.passedCapacity != 0)
    && (a.status != Unset ==> b.status != Unset)
    && (a.progress != 0 ==> b.progress != 0)
    && (a.stepDesc != "" ==> b.stepDesc != "")
  }

  /** The merge: a field of `job` is taken unless it is zero. */
  function Merge(stored: Rec, job: Rec): Rec {
    Rec(if job.startTime != 0 then job.startTime else stored.startTime,
        if job.endTime != 0 then job.endTime else stored.endTime,
        if job.totalCapacity != 0 then job.totalCapacity else stored.totalCapacity,
        if job.totalCount != 0 then job.totalCount else stored.totalCount,
        if job.passedCount != 0 then job.passedCount else stored.passedCount,
        if job.passedCapacity != 0 then job.passedCapacity else stored.passedCapacity,
        if job.status != Unset then job.status else stored.status,
        if job.progress != 0 then job.progress else stored.progress,
        if job.stepDesc != "" then job.stepDesc else stored.stepDesc)
  }

  /** The merge is a plain overwrite exactly when no stored field would have to become zero. */
  lemma MergeIsOverwrite(stored: Rec, job: Rec)
    ensures Merge(stored, job) == job <==> Keeps(stored, job)
  {}

  const NOTHING := Rec(0, 0, 0, 0, 0, 0, Unset, 0, "")

  /** An empty job changes nothing, an empty record is overwritten, and merging one after the other is
      merging what they amount to. */
  lemma MergeIsMonoid(a: Rec, b: Rec, c: Rec)
    ensures Merge(a, NOTHING) == a && Merge(NOTHING, a) == a
    ensures Merge(Merge(a, b), c) == Merge(a, Merge(b, c))
  {}

  /** A write attempt: the in-memory version and whether the database took it. */
  datatype Write = Write(job: Rec, ok: bool)

  function Stored(initial: Rec, ws: seq<Write>): Rec {
    if ws == [] then initial
    else
      var before := Stored(initial, ws[..|ws| - 1]);
      var w := ws[|ws| - 1];
      if w.ok then Merge(before, w.job) else before
  }

  /** The last version the database took. */
  function LastTaken(initial: Rec, ws: seq<Write>): Rec {
    if ws == [] then initial
    else if ws[|ws| - 1].ok then ws[|ws| - 1].job
    else LastTaken(initial, ws[..|ws| - 1])
  }

  /** Versions in memory only ever gain fields. */
  predicate Growing(initial: Rec, ws: seq<Write>) {
    && (forall i | 0 <= i < |ws| :: Keeps(initial, ws[i].job))
    && (forall i, k | 0 <= i < k < |ws| :: Keeps(ws[i].job, ws[k].job))
  }

  /** Whatever writes are lost, merging refines overwriting: the record is the last version taken. */
  lemma {:induction false} MergeRefinesOverwrite(initial: Rec, ws: seq<Write>)
    requires Growing(initial, ws)
    ensures Stored(initial, ws) == LastTaken(initial, ws)
    decreases |ws|
  {
    if ws != [] {
      var front := ws[..|ws| - 1];
      assert forall i | 0 <= i < |front| :: front[i] == ws[i];
      MergeRefinesOverwrite(initial, front);
      TakenIsEarlier(initial, front);
      MergeIsOverwrite(Stored(initial, front), ws[|ws| - 1].job);
    }
  }

  lemma {:induction false} TakenIsEarlier(initial: Rec, ws: seq<Write>)
    ensures LastTaken(initial, ws) == initial || exists i | 0 <= i < |ws| :: LastTaken(initial, ws) == ws[i].job
    decreases |ws|
  {
    if ws != [] && !ws[|ws| - 1].ok {
      var front := ws[..|ws| - 1];
      TakenIsEarlier(initial, front);
      if i :| 0 <= i < |front| && LastTaken(initial, front) == front[i].job {
        assert ws[i] == front[i];
      }
    }
  }

  /** pending, then running, then succeed or failed; running may be skipped. */
  predicate StatusMay(a: Status, b: Status) {
    a == b || a.Pending? || (a.Running? && Terminal(b))
  }

  /** What every later version of the record satisfies with respect to an earlier one. */
  predicate Advances(a: Rec, b: Rec) {
    && Keeps(a, b) && StatusMay(a.status, b.status)
    && a.progress <= b.progress <= 100 && 0 <= b.progress
    && a.passedCount <= b.passedCount && a.passedCapacity <= b.passedCapacity
    && (b.endTime != 0 <==> Terminal(b.status))
  }

  /** Of any two versions of a record that advances step by step, the later one is ahead: pending,
      running and terminal in this order, progress growing, a terminal status never left. */
  lemma {:induction false} HistoryAdvances(h: seq<Rec>, i: nat, k: nat)
    requires forall n | 0 <= n < |h| - 1 :: Advances(h[n], h[n + 1])
    requires i < k < |h|
    ensures Advances(h[i], h[k]) && (Terminal(h[i].status) ==> h[k].status == h[i].status)
    decreases k
  {
    assert Advances(h[k - 1], h[k]);
    if i < k - 1 {
      HistoryAdvances(h, i, k - 1);
    }
  }

  /** The in-memory job. */
  class Job {
    var startTime: nat
    var endTime: nat
    var totalCapacity: int
    var totalCount: int
    var passedCount: int
    var passedCapacity: int
    var status: Status
    var progress: int
    var stepDesc: string

    constructor (now: nat)
      ensures AsRec() == Rec(now, 0, 0, 0, 0, 0, Unset, 0, "")
    {
      startTime, endTime, totalCapacity, totalCount, passedCount, passedCapacity := now, 0, 0, 0, 0, 0;
      status, progress, stepDesc := Unset, 0, "";
    }

    function AsRec(): Rec
      reads this
    {
      Rec(startTime, endTime, totalCapacity, totalCount, passedCount, passedCapacity, status, progress, stepDesc)
    }
  }

  /** The stored record, with every version it has had. */
  class JobStore {
    var record: Rec
    ghost var history: seq<Rec>
    ghost var attempts: nat    // calls of UpdateJob
    ghost var lost: nat        // how many of them have reported an error since the last one that did not

    /** The stored record has only ever advanced. */
    ghost predicate Valid()
      reads this
    {
      && history != [] && record == history[|history| - 1]
      && forall i | 0 <= i < |history| - 1 :: Advances(history[i], history[i + 1])
    }

    constructor ()
      ensures Valid() && record == CREATED && history == [CREATED]
    {
      record, history, attempts, lost := CREATED, [CREATED], 0, 0;
    }

    /** The fields of the record read are overwritten one by one. */
    method MergeInto(read: Rec, job: Job) returns (j: Rec)
      ensures j == Merge(read, job.AsRec())
      ensures Keeps(read, job.AsRec()) ==> j == job.AsRec()
    {
      j := read;
      if job.startTime != 0 { j := j.(startTime := job.startTime); }
      if job.endTime != 0 { j := j.(endTime := job.endTime); }
      if job.totalCapacity != 0 { j := j.(totalCapacity := job.totalCapacity); }
      if job.totalCount != 0 { j := j.(totalCount := job.totalCount); }
      if job.passedCount != 0 { j := j.(passedCount := job.passedCount); }
      if job.passedCapacity != 0 { j := j.(passedCapacity := job.passedCapacity); }
      if job.status != Unset { j := j.(status := job.status); }
      if job.progress != 0 { j := j.(progress := job.progress); }
      if job.stepDesc != "" { j := j.(stepDesc := job.stepDesc); }
      MergeIsOverwrite(read, job.AsRec());
    }

    /** UpdateJob: the record is read, merged with the job and written back; both accesses may fail, and
        a write that is reported as failed may have taken effect all the same. */
    method UpdateJob(job: Job) returns (ok: bool)
      requires Valid() && Advances(record, job.AsRec())
      modifies this
      ensures Valid() && Advances(record, job.AsRec())
      ensures ok ==> record == job.AsRec()
      ensures history == old(history) + [job.AsRec()] || (!ok && history == old(history))
      ensures attempts == old(attempts) + 1 && lost == if ok then 0 else old(lost) + 1
    {
      attempts, lost := attempts + 1, lost + 1;
      var found := *;
      if !found {
        return false;
      }
      var j := MergeInto(record, job);
      var written;
      ok, written := *, *;
      if ok || written {
        record, history := j, history + [j];
      }
      lost := if ok then 0 else lost;
    }
  }
}
