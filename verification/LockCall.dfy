// lock() and unlock() of dataflow/pkg/db/drivers/mongo/mongo.go as the code runs them: one database
// operation after the other, with the operations of other processes in between. Every call is part
// of a run of the LeaseLock model.
module LockCall {
  import opened LeaseLock

  /** The result codes of lock() and unlock(). */
  datatype Code = LockSuccess | LockBusy | LockDbErr

  /** What the look at an existing lock document finds. */
  datatype Finding = Fresh | Expired | Unreadable

  /** The answer a call of lock() gives when this was its last operation. */
  predicate Answers(e: Event, p: Proc, code: Code) {
    match e
    case InsertOk(q) => q == p && code.LockSuccess?
    case RetryOk(q) => q == p && code.LockSuccess?
    case FindFresh(q, _) => q == p && code.LockBusy?
    case FindFail(q) => q == p && code.LockDbErr?
    case RemoveFail(q) => q == p && code.LockDbErr?
    case RetryFail(q) => q == p && code.LockDbErr?
    case _ => false
  }

  // ---------------------------------------------------------------- the others

  /** Time passes, or another process does something. */
  predicate Others(es: seq<Event>, p: Proc) {
    forall n | 0 <= n < |es| :: es[n].Tick? || es[n].p != p
  }

  /** Nothing but the passing of time. */
  predicate OnlyTime(es: seq<Event>) {
    forall n | 0 <= n < |es| :: es[n].Tick?
  }

  /** From here on no other process has done anything. */
  predicate AloneFrom(trace: seq<Event>, p: Proc, from: nat) {
    forall n | from <= n < |trace| :: trace[n].Tick? || trace[n].p == p
  }

  lemma AlonePart(early: seq<Event>, trace: seq<Event>, p: Proc, from: nat, later: nat)
    requires early <= trace && from <= later
    ensures AloneFrom(trace, p, from) ==> AloneFrom(early, p, later)
  {
    assert forall n | 0 <= n < |early| :: early[n] == trace[n];
  }

  lemma OtherKeeps(s: State, e: Event, p: Proc, lease: int)
    requires Enabled(s, e, lease) && (e.Tick? || e.p != p) && Live(s, p)
    ensures var t := After(s, e, lease); Live(t, p) && t.pc[p] == s.pc[p] && s.now <= t.now && (e.Tick? ==> t.docs == s.docs)
  {}

  /** Others leave the program of a process alone, and time alone leaves the documents alone. */
  lemma {:induction false} OthersKeep(s: State, es: seq<Event>, p: Proc, lease: int)
    requires Possible(s, es, lease) && Others(es, p) && Live(s, p)
    ensures var t := Final(s, es, lease);
      && Live(t, p) && t.pc[p] == s.pc[p] && s.now <= t.now
      && (OnlyTime(es) ==> t.docs == s.docs)
    decreases |es|
  {
    if es != [] {
      OtherKeeps(s, es[0], p, lease);
      assert Others(es[1..], p);
      OthersKeep(After(s, es[0], lease), es[1..], p, lease);
    }
  }

  lemma {:induction false} ExtendAll(s: State, es: seq<Event>, fs: seq<Event>, lease: int)
    requires Possible(s, es, lease) && Possible(Final(s, es, lease), fs, lease)
    ensures Possible(s, es + fs, lease) && Final(s, es + fs, lease) == Final(Final(s, es, lease), fs, lease)
    decreases |fs|
  {
    if fs == [] {
      assert es + fs == es;
    } else {
      Extend(s, es, fs[0], lease);
      ExtendAll(s, es + [fs[0]], fs[1..], lease);
      assert es + [fs[0]] + fs[1..] == es + fs;
    }
  }

  /** A removal leaves no document of the name. */
  lemma NoneLeft(start: State, trace: seq<Event>, s: State, e: Event, lease: int)
    requires Possible(start, trace, lease) && Final(start, trace, lease) == s
    requires (e.RemoveOk? || e.UnlockOk?) && Enabled(s, e, lease)
    ensures UniqueNames(start) ==> Free(After(s, e, lease), e.d.name)
  {
    if UniqueNames(start) {
      AtMostOneDocument(start, trace, lease);
      RemovalFrees(s, e, lease);
    }
  }

  /** The lock collection and everybody who uses it, with the run that led here. */
  class Database {
    const lease: int
    const start: State
    var s: State
    var trace: seq<Event>
    var schedule: seq<seq<Event>>    // what the other processes are going to do whenever they get a chance
    ghost var faults: nat            // operations that have failed although they could have been done

    ghost predicate Valid()
      reads this
    {
      Possible(start, trace, lease) && Final(start, trace, lease) == s
    }

    /** Process `p` is alive and at the given point of its program. */
    ghost predicate At(p: Proc, pc: Pc)
      reads this
    {
      Valid() && Live(s, p) && s.pc[p] == pc
    }

    /** Nothing is taken back from here on. */
    ghost predicate Since(before: seq<Event>, now: int, faults0: nat)
      reads this
    {
      before <= trace && now <= s.now && faults0 <= faults
    }

    ghost predicate Alone(p: Proc, from: nat)
      reads this
    {
      AloneFrom(trace, p, from)
    }

    constructor (start: State, lease: int, schedule: seq<seq<Event>>)
      ensures Valid() && trace == [] && this.start == start && this.lease == lease && s == start
      ensures this.schedule == schedule && faults == 0
    {
      this.start, this.lease, this.schedule, s, trace := start, lease, schedule, start, [];
      faults := 0;
    }

    ghost predicate LastIs(e: Event)
      reads this
    {
      trace != [] && trace[|trace| - 1] == e
    }

    /** One operation. */
    method Do(e: Event)
      requires Valid() && Enabled(s, e, lease)
      modifies this`s, this`trace
      ensures Valid() && trace == old(trace) + [e] && s == After(old(s), e, lease)
    {
      Extend(start, trace, e, lease);
      s, trace := After(s, e, lease), trace + [e];
    }

    /** Whether the database fails to do what it is asked for. */
    method Fails() returns (fails: bool)
      modifies this`faults
      ensures faults == old(faults) + if fails then 1 else 0
    {
      fails := *;
      faults := if fails then faults + 1 else faults;
    }

    /** Other processes run, fail and crash, and time passes. */
    method Interfere(p: Proc, ghost pc: Pc)
      requires At(p, pc)
      modifies this`s, this`trace, this`schedule
      ensures At(p, pc) && Since(old(trace), old(s).now, faults)
      ensures Alone(p, |old(trace)|) ==> s.docs == old(s).docs
    {
      if schedule != [] {
        var es := schedule[0];
        schedule := schedule[1..];
        if Possible(s, es, lease) && Others(es, p) {
          OthersKeep(s, es, p, lease);
          ExtendAll(start, trace, es, lease);
          ghost var before := |trace|;
          s, trace := Final(s, es, lease), trace + es;
          if Alone(p, before) {
            assert forall n | 0 <= n < |es| :: es[n] == trace[before + n];
          }
        }
      }
    }

    /** c.Insert(lock), for the first or the second time. */
    method Insert(p: Proc, name: string, stamp: int, again: bool) returns (ok: bool)
      requires At(p, if again then Retrying(name, stamp) else Inserting(name, stamp))
      modifies this
      ensures |old(trace)| < |trace| && Since(old(trace), old(s).now, old(faults))
      ensures LastIs(if again then if ok then RetryOk(p) else RetryFail(p) else if ok then InsertOk(p) else InsertFail(p))
      ensures At(p, if ok then Holding(name, stamp) else if again then Idle else Looking(name, stamp))
      ensures ok ==> Doc(name, stamp, p) in s.docs
      // an insertion is refused only if the name is taken
      ensures !ok ==> faults > old(faults) || !Free(s, name)
      ensures Alone(p, |old(trace)|) ==>
        s.docs == old(s).docs + (if ok then multiset{Doc(name, stamp, p)} else multiset{}) && (ok ==> Free(old(s), name))
    {
      ghost var n := |trace|;
      Interfere(p, if again then Retrying(name, stamp) else Inserting(name, stamp));
      ghost var early := trace;
      var fails := Fails();
      ok := !fails && Free(s, name);
      if again {
        Do(if ok then RetryOk(p) else RetryFail(p));
      } else {
        Do(if ok then InsertOk(p) else InsertFail(p));
      }
      AlonePart(early, trace, p, n, n);
    }

    /** c.Find and the comparison of the age with the lease: `d` is the document found. */
    method Find(p: Proc, name: string, stamp: int) returns (r: Finding, ghost d: Doc)
      requires At(p, Looking(name, stamp))
      modifies this
      ensures |old(trace)| < |trace| && Since(old(trace), old(s).now, old(faults))
      ensures At(p, if r.Expired? then Removing(name, stamp) else Idle)
      ensures LastIs(if r.Unreadable? then FindFail(p) else if r.Expired? then FindExpired(p, d) else FindFresh(p, d))
      ensures Alone(p, |old(trace)|) ==> s.docs == old(s).docs
      // the document is there and can be read, and its age decides
      ensures r.Unreadable? <==> faults > old(faults) || Free(s, name)
      ensures !r.Unreadable? ==> d in s.docs && d.name == name && (r.Expired? <==> s.now - d.time > lease)
    {
      ghost var n := |trace|;
      Interfere(p, Looking(name, stamp));
      ghost var early := trace;
      d := Doc(name, stamp, p);
      var fails := Fails();
      if fails || Free(s, name) {
        Do(FindFail(p));
        AlonePart(early, trace, p, n, n);
        return Unreadable, d;
      }
      var lk :| lk in s.docs && lk.name == name;
      d := lk;
      if s.now - lk.time > lease {
        Do(FindExpired(p, lk));
        AlonePart(early, trace, p, n, n);
        return Expired, d;
      }
      Do(FindFresh(p, lk));
      AlonePart(early, trace, p, n, n);
      return Fresh, d;
    }

    /** unlock(): removal by name, in the expiry branch of lock() or at the end of a section. */
    method Unlock(p: Proc, name: string, stamp: int, stealing: bool) returns (code: Code)
      requires At(p, if stealing then Removing(name, stamp) else Holding(name, stamp))
      modifies this
      ensures |old(trace)| < |trace| && Since(old(trace), old(s).now, old(faults))
      ensures code.LockSuccess? || (code.LockDbErr? && LastIs(if stealing then RemoveFail(p) else UnlockFail(p)))
      // a success has removed a document of the name, and there was only one
      ensures code.LockSuccess? ==> var e := trace[|trace| - 1];
        (if stealing then e.RemoveOk? else e.UnlockOk?) && e.p == p && e.d.name == name
      ensures code.LockSuccess? && UniqueNames(start) ==> Free(s, name)
      // it fails only if there is nothing to remove
      ensures code.LockDbErr? ==> faults > old(faults) || Free(s, name)
      ensures code.LockDbErr? && Alone(p, |old(trace)|) ==> s.docs == old(s).docs
      ensures At(p, if stealing && code.LockSuccess? then Retrying(name, stamp) else Idle)
    {
      ghost var n := |trace|;
      Interfere(p, if stealing then Removing(name, stamp) else Holding(name, stamp));
      ghost var early := trace;
      var fails := Fails();
      if !fails && !Free(s, name) {
        var d :| d in s.docs && d.name == name;
        var e := if stealing then RemoveOk(p, d) else UnlockOk(p, d);
        NoneLeft(start, trace, s, e, lease);
        Do(e);
        return LockSuccess;
      }
      Do(if stealing then RemoveFail(p) else UnlockFail(p));
      AlonePart(early, trace, p, n, n);
      return LockDbErr;
    }

    /** lock(): the call has succeeded exactly if the process now holds the lock in the model; in all
        other cases it is back at its start. `looked` is the time of the look at an existing document. */
    method Lock(p: Proc, name: string) returns (code: Code, stamp: int, ghost looked: int)
      requires At(p, Idle)
      modifies this
      ensures |old(trace)| < |trace| && Since(old(trace), old(s).now, old(faults))
      ensures trace[|old(trace)|] == Begin(p, name) && stamp == old(s).now <= looked <= s.now
      ensures Answers(trace[|trace| - 1], p, code)
      ensures At(p, if code.LockSuccess? then Holding(name, stamp) else Idle)
      ensures code.LockSuccess? ==> Doc(name, stamp, p) in s.docs
      // busy: there is a document, and it is not older than the lease
      ensures code.LockBusy? ==> exists d | d in s.docs && d.name == name :: LastIs(FindFresh(p, d)) && s.now - d.time <= lease
      // an error: an operation has failed, or another process came in between
      ensures code.LockDbErr? && UniqueNames(start) ==> faults > old(faults) || !Alone(p, |old(trace)|)
      // otherwise the call succeeds exactly if the name is free or its document older than the lease
      ensures UniqueNames(start) && faults == old(faults) && Alone(p, |old(trace)|) ==>
        (code.LockSuccess? <==> forall d | d in old(s).docs && d.name == name :: looked - d.time > lease)
    {
      stamp, looked := s.now, s.now;
      Do(Begin(p, name));
      ghost var n := |trace|;
      var inserted := Insert(p, name, stamp, false);
      AlonePart(trace, trace, p, n - 1, n);
      if inserted {
        return LockSuccess, stamp, looked;
      }
      ghost var early := trace;
      code, looked := Look(p, name, stamp);
      AlonePart(early, trace, p, n - 1, n);
      AlonePart(trace, trace, p, n - 1, |early|);
    }

    /** The rest of lock(), once the insertion has failed. */
    method Look(p: Proc, name: string, stamp: int) returns (code: Code, ghost looked: int)
      requires At(p, Looking(name, stamp))
      modifies this
      ensures |old(trace)| < |trace| && Since(old(trace), old(s).now, old(faults))
      ensures old(s).now <= looked <= s.now && Answers(trace[|trace| - 1], p, code)
      ensures At(p, if code.LockSuccess? then Holding(name, stamp) else Idle)
      ensures code.LockSuccess? ==> Doc(name, stamp, p) in s.docs
      ensures code.LockBusy? ==> exists d | d in s.docs && d.name == name :: LastIs(FindFresh(p, d)) && s.now - d.time <= lease
      ensures code.LockDbErr? && UniqueNames(start) ==> faults > old(faults) || !Alone(p, |old(trace)|) || Free(old(s), name)
      ensures UniqueNames(start) && faults == old(faults) && Alone(p, |old(trace)|) && !Free(old(s), name) ==>
        (code.LockSuccess? <==> forall d | d in old(s).docs && d.name == name :: looked - d.time > lease)
    {
      if UniqueNames(start) {
        AtMostOneDocument(start, trace, lease);
      }
      ghost var d;
      var lk;
      ghost var n := |trace|;
      lk, d := Find(p, name, stamp);
      looked := s.now;
      if lk.Expired? {
        ghost var early := trace;
        code := Steal(p, name, stamp);
        AlonePart(early, trace, p, n, n);
        AlonePart(trace, trace, p, n, |early|);
      } else {
        code := if lk.Fresh? then LockBusy else LockDbErr;
      }
    }

    /** The expiry branch of lock(): the document is removed and the own one inserted. */
    method Steal(p: Proc, name: string, stamp: int) returns (code: Code)
      requires At(p, Removing(name, stamp))
      modifies this
      ensures |old(trace)| < |trace| && Since(old(trace), old(s).now, old(faults))
      ensures !code.LockBusy? && Answers(trace[|trace| - 1], p, code)
      ensures At(p, if code.LockSuccess? then Holding(name, stamp) else Idle)
      ensures code.LockSuccess? ==> Doc(name, stamp, p) in s.docs
      ensures code.LockDbErr? && UniqueNames(start) ==> faults > old(faults) || !Alone(p, |old(trace)|) || Free(old(s), name)
    {
      ghost var n := |trace|;
      var err2 := Unlock(p, name, stamp, true);
      if err2.LockSuccess? {
        ghost var early := trace;
        var err3 := Insert(p, name, stamp, true);
        AlonePart(early, trace, p, n, n);
        AlonePart(trace, trace, p, n, |early|);
        if err3 {
          return LockSuccess;
        }
      }
      return LockDbErr;
    }
  }
}
