// The callers of the database lock: Run in dataflow/pkg/plan/plan.go and the prologue shared by
// DeletePolicy, UpdatePolicy, CreatePlan, DeletePlan and UpdatePlan.
module PlanRun {
  import opened LeaseLock
  import opened LockCall

  datatype RunResult = PlanError | RunPlanBusy | LocationError | Started

  /** All answers but the last one are errors of the database: only then the lock is asked for again. */
  predicate Retried(answers: seq<Code>) {
    forall i | 0 <= i < |answers| - 1 :: answers[i].LockDbErr?
  }

  /** The state in which the job was inserted belongs to the run. */
  ghost predicate Passed(db: Database, n: nat, at: State)
    reads db
  {
    n <= |db.trace| && Possible(db.start, db.trace[..n], db.lease) && Final(db.start, db.trace[..n], db.lease) == at
  }

  /** The last operation was the removal of the lock document, after which none of the name is left,
      or its failure. */
  ghost predicate GaveUp(db: Database, p: Proc, name: string)
    reads db
  {
    && db.trace != []
    && var e := db.trace[|db.trace| - 1];
       || e == UnlockFail(p)
       || (e.UnlockOk? && e.p == p && e.d.name == name && (UniqueNames(db.start) ==> Free(db.s, name)))
  }

  /** The loop over the lock attempts: three answers are examined, but four are asked for. `deferred`
      says that a success was examined, so that the lock is given back on return. */
  method AskForLock(db: Database, p: Proc, name: string)
    returns (busy: bool, deferred: bool, stamp: int, ghost answers: seq<Code>)
    requires db.At(p, Idle)
    modifies db
    ensures old(db.trace) <= db.trace
    ensures 1 <= |answers| <= 4 && Retried(answers)
    ensures var last := answers[|answers| - 1];
      && busy == (|answers| < 4 && last.LockBusy?) && deferred == (|answers| < 4 && last.LockSuccess?)
      && (|answers| < 4 ==> !last.LockDbErr?)
      && db.At(p, if last.LockSuccess? then Holding(name, stamp) else Idle)
  {
    var ret;
    ghost var looked;
    ret, stamp, looked := db.Lock(p, name);
    answers := [ret];
    for i := 0 to 3
      invariant old(db.trace) <= db.trace
      invariant |answers| == i + 1 && Retried(answers) && answers[i] == ret
      invariant db.At(p, if ret.LockSuccess? then Holding(name, stamp) else Idle)
    {
      if ret.LockSuccess? {
        return false, true, stamp, answers;
      } else if ret.LockBusy? {
        return true, false, stamp, answers;
      }
      ret, stamp, looked := db.Lock(p, name);
      answers := answers + [ret];
    }
    return false, false, stamp, answers;
  }

  /** Run: `answers` are the answers of the lock attempts, `at` the state in which the job is inserted.
      The insertion may be refused, or be reported as failed and take effect (`kept`); the caller is not
      told, and only a job whose insertion is reported as done is `sent` to the data mover. */
  method Run(db: Database, p: Proc, name: string, planFound: bool, srcOk: bool, destOk: bool, createOk: bool, kept: bool)
    returns (r: RunResult, inserted: bool, sent: bool, ghost answers: seq<Code>, ghost n: nat, ghost at: State)
    requires db.At(p, Idle)
    modifies db
    ensures db.Valid() && old(db.trace) <= db.trace
    ensures r.PlanError? <==> !planFound
    ensures !planFound ==> answers == [] && !inserted && db.At(p, Idle)
    ensures planFound ==> 1 <= |answers| <= 4 && Retried(answers)
    // a job is inserted by a holder of the lock, except when the fourth answer is not a success
    ensures inserted ==> planFound && Passed(db, n, at) && srcOk && destOk
    ensures inserted ==> (Holds(at, p, name) <==> answers[|answers| - 1].LockSuccess?)
    ensures inserted && !Holds(at, p, name) ==> |answers| == 4
    // the call is refused exactly when one of the first three answers says busy
    ensures planFound ==> (r.RunPlanBusy? <==> |answers| < 4 && answers[|answers| - 1].LockBusy?)
    ensures planFound ==> (r.Started? <==> !r.RunPlanBusy? && srcOk && destOk)
    ensures (sent <==> r.Started? && createOk) && (inserted <==> r.Started? && (createOk || kept))
    // the lock is given up on every return path, except when the fourth answer is a success
    ensures planFound ==> (Holds(db.s, p, name) <==> |answers| == 4 && answers[3].LockSuccess?)
    ensures planFound && !Holds(db.s, p, name) ==> db.At(p, Idle)
    // giving it up removes the document of the plan, unless the database fails to
    ensures planFound && |answers| < 4 && answers[|answers| - 1].LockSuccess? ==> GaveUp(db, p, name)
  {
    n, at := 0, db.s;
    if !planFound {
      return PlanError, false, false, [], n, at;
    }
    var busy, deferred, stamp;
    busy, deferred, stamp, answers := AskForLock(db, p, name);
    if busy {
      return RunPlanBusy, false, false, answers, n, at;
    }
    db.Interfere(p, db.s.pc[p]);
    r, inserted, sent := LocationError, false, false;
    if srcOk && destOk {
      r, inserted, sent := Started, createOk || kept, createOk;
      n, at := |db.trace|, db.s;
      assert db.trace[..n] == db.trace;
    }
    if deferred {
      ghost var before := db.trace;
      var _ := db.Unlock(p, name, stamp, false);
      assert inserted ==> db.trace[..n] == before;
    }
  }

  /** The prologue of the policy and plan operations: here the last answer is examined too, so the
      operation is entered exactly with the lock, and never left with it. */
  method WithManagerLock(db: Database, p: Proc, name: string)
    returns (entered: bool, ghost answers: seq<Code>, ghost n: nat, ghost at: State)
    requires db.At(p, Idle)
    modifies db
    ensures db.At(p, Idle) && old(db.trace) <= db.trace
    ensures 1 <= |answers| <= 4 && forall i | 0 <= i < |answers| - 1 :: !answers[i].LockSuccess?
    ensures entered <==> answers[|answers| - 1].LockSuccess?
    ensures !entered ==> |answers| == 4
    ensures entered ==> Passed(db, n, at) && Holds(at, p, name) && GaveUp(db, p, name)
  {
    var ret, stamp;
    ghost var looked;
    ret, stamp, looked := db.Lock(p, name);
    answers := [ret];
    var i := 0;
    while i < 3 && !ret.LockSuccess?
      invariant 0 <= i <= 3 && |answers| == i + 1 && answers[i] == ret && old(db.trace) <= db.trace
      invariant forall j | 0 <= j < i :: !answers[j].LockSuccess?
      invariant db.At(p, if ret.LockSuccess? then Holding(name, stamp) else Idle)
    {
      ret, stamp, looked := db.Lock(p, name);
      answers := answers + [ret];
      i := i + 1;
    }
    n, at := |db.trace|, db.s;
    if !ret.LockSuccess? {
      return false, answers, n, at;
    }
    assert db.trace[..n] == db.trace;
    ghost var before := db.trace;
    var _ := db.Unlock(p, name, stamp, false);
    assert db.trace[..n] == before;
    entered := true;
  }

  // ---------------------------------------------------------------- errors only

  /** The operations of so many calls of lock(), all failing at the insertion and at the look. */
  function ErrorCalls(p: Proc, name: string, n: nat): (es: seq<Event>)
    ensures |es| == 3 * n
  {
    if n == 0 then [] else [Begin(p, name), InsertFail(p), FindFail(p)] + ErrorCalls(p, name, n - 1)
  }

  lemma ErrorCallFirst(s: State, p: Proc, name: string, rest: seq<Event>, lease: int)
    requires Live(s, p) && s.pc[p].Idle? && Possible(s, rest, lease)
    ensures var es := [Begin(p, name), InsertFail(p), FindFail(p)] + rest;
      Possible(s, es, lease) && Final(s, es, lease) == Final(s, rest, lease)
  {
    var es := [Begin(p, name), InsertFail(p), FindFail(p)] + rest;
    var t := After(s, es[0], lease);
    var u := After(t, es[1], lease);
    assert After(u, es[2], lease) == s;
    assert es[1..][1..] == es[2..] && es[2..][1..] == rest;
    assert Possible(u, es[2..], lease) && Final(u, es[2..], lease) == Final(s, rest, lease);
    assert Possible(t, es[1..], lease) && Final(t, es[1..], lease) == Final(s, rest, lease);
  }

  /** From every state any number of calls may fail in a row and leave the state as it was. Four of
      them take Run to the insertion without the lock, whoever holds it in `s`. */
  lemma {:induction false} ErrorsOnly(s: State, p: Proc, name: string, n: nat, lease: int)
    requires Live(s, p) && s.pc[p].Idle?
    ensures Possible(s, ErrorCalls(p, name, n), lease) && Final(s, ErrorCalls(p, name, n), lease) == s
    ensures forall k | 0 <= k < n ::
      ErrorCalls(p, name, n)[3 * k] == Begin(p, name) && Answers(ErrorCalls(p, name, n)[3 * k + 2], p, LockDbErr)
  {
    if n > 0 {
      var es, rest := ErrorCalls(p, name, n), ErrorCalls(p, name, n - 1);
      ErrorsOnly(s, p, name, n - 1, lease);
      ErrorCallFirst(s, p, name, rest, lease);
      forall k | 0 <= k < n ensures es[3 * k] == Begin(p, name) && Answers(es[3 * k + 2], p, LockDbErr) {
        assert k > 0 ==> es[3 * k] == rest[3 * (k - 1)] && es[3 * k + 2] == rest[3 * (k - 1) + 2];
      }
    }
  }

  // ---------------------------------------------------------------- with the lock theorems

  /** While a holder inserts its job, nobody else is inside the section of the plan, if no removal so
      far has hit a live holder; by ExclusionExactlyIf there is no weaker guard. */
  lemma InsertsAlone(db: Database, n: nat, at: State, p: Proc, q: Proc, name: string)
    requires Initial(db.start) && Passed(db, n, at) && Clean(db.start, db.trace[..n], db.lease)
    requires Holds(at, p, name) && Holds(at, q, name)
    ensures p == q
  {
    ExclusionExactlyIf(db.start, db.trace[..n], db.lease);
  }

  /** In particular if no lock has expired. */
  lemma InsertsAloneWithoutExpiry(db: Database, n: nat, at: State, p: Proc, q: Proc, name: string)
    requires Initial(db.start) && Passed(db, n, at) && forall i | 0 <= i < n :: !db.trace[i].FindExpired?
    requires Holds(at, p, name) && Holds(at, q, name)
    ensures p == q
  {
    NoExpiryExclusion(db.start, db.trace[..n], db.lease);
    InsertsAlone(db, n, at, p, q, name);
  }
}
