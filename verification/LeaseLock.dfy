// The database lock of dataflow/pkg/db/drivers/mongo/mongo.go: lock documents under a unique
// index, with a lease and a steal path made of separate find, remove and insert operations.
// Every event is one atomic database operation, a crash or the passing of time.
module LeaseLock {

  type Proc = nat

  /** A lock document; `owner` is the process whose insert created it (not stored). */
  datatype Doc = Doc(name: string, time: int, owner: Proc)

  /** Where a process is in lock() or between lock() and unlock(). `stamp` is the time of its
      MyLock value, taken once before the first insert. */
  datatype Pc =
    | Idle
    | Inserting(name: string, stamp: int)
    | Looking(name: string, stamp: int)
    | Removing(name: string, stamp: int)
    | Retrying(name: string, stamp: int)
    | Holding(name: string, stamp: int)

  datatype State = State(docs: multiset<Doc>, pc: map<Proc, Pc>, dead: set<Proc>, now: int)

  datatype Event =
    | Begin(p: Proc, name: string)
    | InsertOk(p: Proc)              // LockSuccess
    | InsertFail(p: Proc)            // duplicate key or another error
    | FindFresh(p: Proc, d: Doc)     // LockBusy
    | FindExpired(p: Proc, d: Doc)   // the lease is over, the document is to be removed
    | FindFail(p: Proc)              // LockDbErr
    | RemoveOk(p: Proc, d: Doc)
    | RemoveFail(p: Proc)            // LockDbErr
    | RetryOk(p: Proc)               // LockSuccess
    | RetryFail(p: Proc)             // LockDbErr
    | UnlockOk(p: Proc, d: Doc)
    | UnlockFail(p: Proc)
    | Crash(p: Proc)
    | Tick(t: nat)

  /** The unique index: an insert succeeds only if no document has the name. */
  predicate Free(s: State, name: string) {
    forall d | d in s.docs :: d.name != name
  }

  predicate Live(s: State, p: Proc) {
    p in s.pc && p !in s.dead
  }

  /** Enabledness; `lease` is maxLockTime. Removals are by name, whoever inserted the document. */
  predicate Enabled(s: State, e: Event, lease: int) {
    match e
    case Begin(p, _) => Live(s, p) && s.pc[p].Idle?
    case InsertOk(p) => Live(s, p) && s.pc[p].Inserting? && Free(s, s.pc[p].name)
    case InsertFail(p) => Live(s, p) && s.pc[p].Inserting?
    case FindFresh(p, d) => Live(s, p) && s.pc[p].Looking? && d in s.docs && d.name == s.pc[p].name && s.now - d.time <= lease
    case FindExpired(p, d) => Live(s, p) && s.pc[p].Looking? && d in s.docs && d.name == s.pc[p].name && s.now - d.time > lease
    case FindFail(p) => Live(s, p) && s.pc[p].Looking?
    case RemoveOk(p, d) => Live(s, p) && s.pc[p].Removing? && d in s.docs && d.name == s.pc[p].name
    case RemoveFail(p) => Live(s, p) && s.pc[p].Removing?
    case RetryOk(p) => Live(s, p) && s.pc[p].Retrying? && Free(s, s.pc[p].name)
    case RetryFail(p) => Live(s, p) && s.pc[p].Retrying?
    case UnlockOk(p, d) => Live(s, p) && s.pc[p].Holding? && d in s.docs && d.name == s.pc[p].name
    case UnlockFail(p) => Live(s, p) && s.pc[p].Holding?
    case Crash(p) => p in s.pc
    case Tick(_) => true
  }

  function Goto(s: State, p: Proc, pc: Pc): State {
    s.(pc := s.pc[p := pc])
  }

  function After(s: State, e: Event, lease: int): State
    requires Enabled(s, e, lease)
  {
    match e
    case Begin(p, n) => Goto(s, p, Inserting(n, s.now))
    case InsertOk(p) =>
      Goto(s, p, Holding(s.pc[p].name, s.pc[p].stamp)).(docs := s.docs + multiset{Doc(s.pc[p].name, s.pc[p].stamp, p)})
    case InsertFail(p) => Goto(s, p, Looking(s.pc[p].name, s.pc[p].stamp))
    case FindFresh(p, _) => Goto(s, p, Idle)
    case FindExpired(p, _) => Goto(s, p, Removing(s.pc[p].name, s.pc[p].stamp))
    case FindFail(p) => Goto(s, p, Idle)
    case RemoveOk(p, d) => Goto(s, p, Retrying(s.pc[p].name, s.pc[p].stamp)).(docs := s.docs - multiset{d})
    case RemoveFail(p) => Goto(s, p, Idle)
    case RetryOk(p) =>
      Goto(s, p, Holding(s.pc[p].name, s.pc[p].stamp)).(docs := s.docs + multiset{Doc(s.pc[p].name, s.pc[p].stamp, p)})
    case RetryFail(p) => Goto(s, p, Idle)
    case UnlockOk(p, d) => Goto(s, p, Idle).(docs := s.docs - multiset{d})
    case UnlockFail(p) => Goto(s, p, Idle)
    case Crash(p) => s.(dead := s.dead + {p})
    case Tick(t) => s.(now := s.now + t)
  }

  predicate Initial(s: State) {
    s.docs == multiset{} && forall p | p in s.pc :: s.pc[p].Idle?
  }

  /** The events happen one after the other from `s`. */
  predicate Possible(s: State, es: seq<Event>, lease: int)
    decreases |es|
  {
    es == [] || (Enabled(s, es[0], lease) && Possible(After(s, es[0], lease), es[1..], lease))
  }

  function Final(s: State, es: seq<Event>, lease: int): State
    requires Possible(s, es, lease)
    decreases |es|
  {
    if es == [] then s else Final(After(s, es[0], lease), es[1..], lease)
  }

  /** `p` lives and is between a successful lock(name) and the matching unlock. */
  predicate Holds(s: State, p: Proc, name: string) {
    Live(s, p) && s.pc[p].Holding? && s.pc[p].name == name
  }

  ghost predicate MutualExclusion(s: State) {
    forall p, q, n | Holds(s, p, n) && Holds(s, q, n) :: p == q
  }

  /** The unique index at work: never two documents of one name. */
  ghost predicate UniqueNames(s: State) {
    forall d, e | d in s.docs && e in s.docs && d.name == e.name :: d == e && s.docs[d] == 1
  }

  lemma UniqueStep(s: State, e: Event, lease: int)
    requires UniqueNames(s) && Enabled(s, e, lease)
    ensures UniqueNames(After(s, e, lease))
  {
    var t := After(s, e, lease);
    forall d, f | d in t.docs && f in t.docs && d.name == f.name ensures d == f && t.docs[d] == 1 {
      if e.InsertOk? || e.RetryOk? {
        var x := Doc(s.pc[e.p].name, s.pc[e.p].stamp, e.p);
        assert x !in s.docs;
        assert d == x || d in s.docs;
        assert f == x || f in s.docs;
      } else if e.RemoveOk? || e.UnlockOk? {
        assert d in s.docs && f in s.docs;
      }
    }
  }

  /** A removal leaves no document of the name. */
  lemma RemovalFrees(s: State, e: Event, lease: int)
    requires UniqueNames(s) && (e.RemoveOk? || e.UnlockOk?) && Enabled(s, e, lease)
    ensures Free(After(s, e, lease), e.d.name)
  {
    var t := After(s, e, lease);
    forall f | f in t.docs ensures f.name != e.d.name {
      assert f in s.docs && s.docs[e.d] == 1;
    }
  }

  /** In every interleaving, with failures, crashes and stealing, there is at most one document per name. */
  lemma {:induction false} AtMostOneDocument(s: State, es: seq<Event>, lease: int)
    requires UniqueNames(s) && Possible(s, es, lease)
    ensures UniqueNames(Final(s, es, lease))
    decreases |es|
  {
    if es != [] {
      UniqueStep(s, es[0], lease);
      AtMostOneDocument(After(s, es[0], lease), es[1..], lease);
    }
  }

  // ---------------------------------------------------------------- exactly when the lock excludes

  /** A removal that hits a live holder: the guard the expiry branch lacks. */
  predicate BadSteal(s: State, e: Event) {
    e.RemoveOk? && Holds(s, e.d.owner, e.d.name)
  }

  /** Every live holder owns the document of its name. */
  ghost predicate Owned(s: State) {
    UniqueNames(s) && forall p, n | Holds(s, p, n) :: Doc(n, s.pc[p].stamp, p) in s.docs
  }

  lemma OwnedExcludes(s: State)
    requires Owned(s)
    ensures MutualExclusion(s)
  {
    forall p, q, n | Holds(s, p, n) && Holds(s, q, n) ensures p == q {
      assert Doc(n, s.pc[p].stamp, p) in s.docs && Doc(n, s.pc[q].stamp, q) in s.docs;
    }
  }

  /** A live holder inserted the document that is there. */
  lemma HolderOwns(s: State, q: Proc, d: Doc)
    requires Owned(s) && d in s.docs && Holds(s, q, d.name)
    ensures d == Doc(d.name, s.pc[q].stamp, q)
  {
    assert Doc(d.name, s.pc[q].stamp, q) in s.docs;
  }

  /** So what a holder removes at the end of its section is its own document. */
  lemma UnlockRemovesOwn(s: State, p: Proc, d: Doc, lease: int)
    requires Owned(s) && Enabled(s, UnlockOk(p, d), lease)
    ensures d == Doc(s.pc[p].name, s.pc[p].stamp, p)
  {
    assert Holds(s, p, d.name);
    HolderOwns(s, p, d);
  }

  lemma HolderKeepsDoc(s: State, e: Event, lease: int, q: Proc)
    requires Owned(s) && Enabled(s, e, lease) && !BadSteal(s, e)
    requires var t := After(s, e, lease); Live(t, q) && t.pc[q].Holding?
    ensures var t := After(s, e, lease); Doc(t.pc[q].name, t.pc[q].stamp, q) in t.docs
  {
    var t := After(s, e, lease);
    if !((e.InsertOk? || e.RetryOk?) && q == e.p) {
      assert Holds(s, q, s.pc[q].name) && t.pc[q] == s.pc[q];
      if e.UnlockOk? {
        UnlockRemovesOwn(s, e.p, e.d, lease);
      }
    }
  }

  lemma OwnedStep(s: State, e: Event, lease: int)
    requires Owned(s) && Enabled(s, e, lease) && !BadSteal(s, e)
    ensures Owned(After(s, e, lease))
  {
    UniqueStep(s, e, lease);
    var t := After(s, e, lease);
    forall q, n | Holds(t, q, n) ensures Doc(n, t.pc[q].stamp, q) in t.docs {
      HolderKeepsDoc(s, e, lease, q);
    }
  }

  /** The state excludes, and still does if a process waiting to insert again succeeds. */
  ghost predicate Robust(s: State, lease: int) {
    && MutualExclusion(s)
    && (forall p | Enabled(s, RetryOk(p), lease) :: MutualExclusion(After(s, RetryOk(p), lease)))
  }

  lemma OwnedIsRobust(s: State, lease: int)
    requires Owned(s)
    ensures Robust(s, lease)
  {
    OwnedExcludes(s);
    forall p | Enabled(s, RetryOk(p), lease) ensures MutualExclusion(After(s, RetryOk(p), lease)) {
      OwnedStep(s, RetryOk(p), lease);
      OwnedExcludes(After(s, RetryOk(p), lease));
    }
  }

  /** After a bad steal the stealer can insert, and then it and its victim both hold the lock. */
  lemma BadStealIsFatal(s: State, e: Event, lease: int)
    requires Owned(s) && Enabled(s, e, lease) && BadSteal(s, e)
    ensures Enabled(After(s, e, lease), RetryOk(e.p), lease)
    ensures !Robust(After(s, e, lease), lease)
  {
    var t := After(s, e, lease);
    RemovalFrees(s, e, lease);
    var u := After(t, RetryOk(e.p), lease);
    assert Holds(u, e.p, e.d.name) && Holds(u, e.d.owner, e.d.name);
  }

  /** No event of the run is a bad steal. */
  predicate Clean(s: State, es: seq<Event>, lease: int)
    requires Possible(s, es, lease)
    decreases |es|
  {
    es == [] || (!BadSteal(s, es[0]) && Clean(After(s, es[0], lease), es[1..], lease))
  }

  /** Every state of the run is robust. */
  ghost predicate RobustRun(s: State, es: seq<Event>, lease: int)
    requires Possible(s, es, lease)
    decreases |es|
  {
    Robust(s, lease) && (es == [] || RobustRun(After(s, es[0], lease), es[1..], lease))
  }

  lemma {:induction false} RobustIsClean(s: State, es: seq<Event>, lease: int)
    requires Owned(s) && Possible(s, es, lease)
    ensures RobustRun(s, es, lease) <==> Clean(s, es, lease)
    ensures Clean(s, es, lease) ==> Owned(Final(s, es, lease))
    decreases |es|
  {
    OwnedIsRobust(s, lease);
    if es != [] {
      var t := After(s, es[0], lease);
      if BadSteal(s, es[0]) {
        BadStealIsFatal(s, es[0], lease);
        NotRobust(t, es[1..], lease);
      } else {
        OwnedStep(s, es[0], lease);
        RobustIsClean(t, es[1..], lease);
      }
    }
  }

  lemma NotRobust(s: State, es: seq<Event>, lease: int)
    requires Possible(s, es, lease) && !Robust(s, lease)
    ensures !RobustRun(s, es, lease)
  {}

  lemma OwnedInitial(s: State)
    requires Initial(s)
    ensures Owned(s)
  {}

  /** For every interleaving: all states of the run exclude, and also do one successful second insert
      later, exactly if no removal of the run hits a live holder. */
  lemma ExclusionExactlyIf(s: State, es: seq<Event>, lease: int)
    requires Initial(s) && Possible(s, es, lease)
    ensures RobustRun(s, es, lease) <==> Clean(s, es, lease)
    ensures Clean(s, es, lease) ==> MutualExclusion(Final(s, es, lease))
  {
    OwnedInitial(s);
    RobustIsClean(s, es, lease);
    if Clean(s, es, lease) {
      OwnedExcludes(Final(s, es, lease));
    }
  }

  // ---------------------------------------------------------------- the discipline of stealing

  /** The holder whose lease is seen as over takes no further step before its unlock. */
  predicate OwnerGone(s: State, e: Event) {
    e.FindExpired? ==> !Holds(s, e.d.owner, e.d.name)
  }

  /** Nobody else is between seeing the expiry of this name and removing its document. */
  ghost predicate LoneRemover(s: State, e: Event) {
    e.FindExpired? ==> forall q | Live(s, q) && s.pc[q].Removing? :: s.pc[q].name != e.d.name
  }

  ghost predicate Disciplined(s: State, es: seq<Event>, lease: int)
    requires Possible(s, es, lease)
    decreases |es|
  {
    es == [] || (OwnerGone(s, es[0]) && LoneRemover(s, es[0]) && Disciplined(After(s, es[0], lease), es[1..], lease))
  }

  /** What disciplined runs keep: holders own their documents, and while a process is about to remove
      a document, the document exists and nobody holds the lock. */
  ghost predicate Inv(s: State) {
    && Owned(s)
    && (forall q | Live(s, q) && s.pc[q].Removing? :: Unheld(s, s.pc[q].name))
    && OneRemover(s)
  }

  ghost predicate OneRemover(s: State) {
    forall q, r | Live(s, q) && Live(s, r) && s.pc[q].Removing? && s.pc[r].Removing? && s.pc[q].name == s.pc[r].name :: q == r
  }

  /** There is a document of this name and nobody holds its lock. */
  ghost predicate Unheld(s: State, name: string) {
    !Free(s, name) && forall p :: !Holds(s, p, name)
  }

  /** In such a state no removal is a bad steal. */
  lemma InvIsClean(s: State, e: Event, lease: int)
    requires Inv(s) && Enabled(s, e, lease)
    ensures !BadSteal(s, e)
  {
    if e.RemoveOk? {
      assert Unheld(s, s.pc[e.p].name);
    }
  }

  lemma InvInitial(s: State)
    requires Initial(s)
    ensures Inv(s)
  {}

  /** A process that was already about to remove a document: whatever else happens, the document
      stays and nobody comes to hold the lock. */
  lemma KeepsRemover(s: State, e: Event, lease: int, q: Proc)
    requires Inv(s) && Enabled(s, e, lease) && Live(s, q) && s.pc[q].Removing?
    requires var t := After(s, e, lease); Live(t, q) && t.pc[q] == s.pc[q]
    ensures Unheld(After(s, e, lease), s.pc[q].name)
  {
    var t, name := After(s, e, lease), s.pc[q].name;
    assert Unheld(s, name);
    var f :| f in s.docs && f.name == name;
    if e.RemoveOk? || e.UnlockOk? {
      RemovesAnother(s, e, lease, q);
    }
    assert f in t.docs;
    forall r ensures !Holds(t, r, name) {
      assert !Holds(s, r, name);
    }
  }

  /** Nobody else removes what `q` is about to remove. */
  lemma RemovesAnother(s: State, e: Event, lease: int, q: Proc)
    requires Inv(s) && (e.RemoveOk? || e.UnlockOk?) && Enabled(s, e, lease) && q != e.p
    requires Live(s, q) && s.pc[q].Removing?
    ensures s.pc[q].name != e.d.name
  {
    assert Unheld(s, s.pc[q].name);
    if e.UnlockOk? {
      assert Holds(s, e.p, e.d.name);
    }
  }

  /** A process that sees the expiry, disciplined as it is, finds nobody holding the lock. */
  lemma BecomesRemover(s: State, e: Event, lease: int)
    requires Inv(s) && e.FindExpired? && Enabled(s, e, lease) && OwnerGone(s, e)
    ensures Unheld(After(s, e, lease), e.d.name)
  {
    var t := After(s, e, lease);
    assert e.d in t.docs;
    forall q ensures !Holds(t, q, e.d.name) {
      if Holds(s, q, e.d.name) {
        HolderOwns(s, q, e.d);
      }
    }
  }

  lemma OneRemoverStep(s: State, e: Event, lease: int)
    requires OneRemover(s) && Enabled(s, e, lease) && LoneRemover(s, e)
    ensures OneRemover(After(s, e, lease))
  {}

  lemma InvStep(s: State, e: Event, lease: int)
    requires Inv(s) && Enabled(s, e, lease) && OwnerGone(s, e) && LoneRemover(s, e)
    ensures Inv(After(s, e, lease))
  {
    InvIsClean(s, e, lease);
    OwnedStep(s, e, lease);
    OneRemoverStep(s, e, lease);
    var t := After(s, e, lease);
    forall q | Live(t, q) && t.pc[q].Removing? ensures Unheld(t, t.pc[q].name) {
      if e.FindExpired? && q == e.p {
        BecomesRemover(s, e, lease);
      } else {
        KeepsRemover(s, e, lease, q);
      }
    }
  }

  lemma {:induction false} DisciplinedIsClean(s: State, es: seq<Event>, lease: int)
    requires Inv(s) && Possible(s, es, lease) && Disciplined(s, es, lease)
    ensures Clean(s, es, lease)
    decreases |es|
  {
    if es != [] {
      InvIsClean(s, es[0], lease);
      InvStep(s, es[0], lease);
      DisciplinedIsClean(After(s, es[0], lease), es[1..], lease);
    }
  }

  /** Mutual exclusion for every disciplined interleaving. Every prefix of a run is a run, so this
      speaks of all reachable states. */
  lemma DisciplinedExclusion(s: State, es: seq<Event>, lease: int)
    requires Initial(s) && Possible(s, es, lease) && Disciplined(s, es, lease)
    ensures Clean(s, es, lease) && MutualExclusion(Final(s, es, lease))
  {
    InvInitial(s);
    DisciplinedIsClean(s, es, lease);
    ExclusionExactlyIf(s, es, lease);
  }

  /** Without expiry nobody removes anything but its own document. */
  lemma {:induction false} NoExpiryIsClean(s: State, es: seq<Event>, lease: int)
    requires Possible(s, es, lease) && forall i | 0 <= i < |es| :: !es[i].FindExpired?
    requires forall p | p in s.pc :: !s.pc[p].Removing?
    ensures Clean(s, es, lease)
    decreases |es|
  {
    if es != [] {
      NoExpiryIsClean(After(s, es[0], lease), es[1..], lease);
    }
  }

  /** Without expiry the lock excludes unconditionally. */
  lemma NoExpiryExclusion(s: State, es: seq<Event>, lease: int)
    requires Initial(s) && Possible(s, es, lease) && forall i | 0 <= i < |es| :: !es[i].FindExpired?
    ensures Clean(s, es, lease) && MutualExclusion(Final(s, es, lease))
  {
    NoExpiryIsClean(s, es, lease);
    ExclusionExactlyIf(s, es, lease);
  }

  // ---------------------------------------------------------------- holders within their lease

  /** No live process holds a lock for longer than the lease, counted from its time stamp. */
  predicate InLease(s: State, lease: int) {
    forall p | p in s.pc && p !in s.dead && s.pc[p].Holding? :: s.now - s.pc[p].stamp <= lease
  }

  ghost predicate Prompt(s: State, es: seq<Event>, lease: int)
    requires Possible(s, es, lease)
    decreases |es|
  {
    es == [] || (InLease(s, lease) && LoneRemover(s, es[0]) && Prompt(After(s, es[0], lease), es[1..], lease))
  }

  /** Holders that finish within the lease are never seen as expired. */
  lemma {:induction false} PromptIsDisciplined(s: State, es: seq<Event>, lease: int)
    requires Inv(s) && Possible(s, es, lease) && Prompt(s, es, lease)
    ensures Disciplined(s, es, lease)
    decreases |es|
  {
    if es != [] {
      var e := es[0];
      if e.FindExpired? && Holds(s, e.d.owner, e.d.name) {
        HolderOwns(s, e.d.owner, e.d);
        assert false;
      }
      InvStep(s, e, lease);
      PromptIsDisciplined(After(s, e, lease), es[1..], lease);
    }
  }

  lemma PromptExclusion(s: State, es: seq<Event>, lease: int)
    requires Initial(s) && Possible(s, es, lease) && Prompt(s, es, lease)
    ensures Clean(s, es, lease) && MutualExclusion(Final(s, es, lease))
  {
    InvInitial(s);
    PromptIsDisciplined(s, es, lease);
    DisciplinedExclusion(s, es, lease);
  }

  // ---------------------------------------------------------------- runs with two holders

  lemma {:induction false} Extend(s: State, es: seq<Event>, e: Event, lease: int)
    requires Possible(s, es, lease) && Enabled(Final(s, es, lease), e, lease)
    ensures Possible(s, es + [e], lease)
    ensures Final(s, es + [e], lease) == After(Final(s, es, lease), e, lease)
    decreases |es|
  {
    var fs := es + [e];
    if es == [] {
      assert fs == [e] && [e][1..] == [];
    } else {
      assert fs[0] == es[0] && fs[1..] == es[1..] + [e];
      Extend(After(s, es[0], lease), es[1..], e, lease);
    }
  }

  ghost predicate Reaches(s: State, es: seq<Event>, t: State) {
    Possible(s, es, 5) && Final(s, es, 5) == t
  }

  lemma Play(s: State, es: seq<Event>, t: State, e: Event)
    requires Reaches(s, es, t) && Enabled(t, e, 5)
    ensures Reaches(s, es + [e], After(t, e, 5))
  {
    Extend(s, es, e, 5);
  }

  /** Process 1 takes the expired lock `d` over: three operations. */
  lemma TakeOver(s: State, es: seq<Event>, t: State, p: Proc, name: string, d: Doc)
    requires Reaches(s, es, t) && Live(t, p) && t.pc[p] == Looking(name, 6)
    requires t.docs == multiset{d} && d.name == name && t.now - d.time > 5
    ensures Reaches(s, es + [FindExpired(p, d)] + [RemoveOk(p, d)] + [RetryOk(p)],
                    t.(docs := multiset{Doc(name, 6, p)}, pc := t.pc[p := Holding(name, 6)]))
  {
    Play(s, es, t, FindExpired(p, d));
    var t1 := After(t, FindExpired(p, d), 5);
    Play(s, es + [FindExpired(p, d)], t1, RemoveOk(p, d));
    var t2 := After(t1, RemoveOk(p, d), 5);
    assert t2.docs == multiset{};
    Play(s, es + [FindExpired(p, d)] + [RemoveOk(p, d)], t2, RetryOk(p));
    var t3 := After(t2, RetryOk(p), 5);
    assert t3.docs == multiset{Doc(name, 6, p)};
    assert t3.pc == t.pc[p := Holding(name, 6)];
  }

  /** Process 0 locks at time 0, the lease runs out, the others ask for the lock. */
  lemma LockAndExpire(pc: map<Proc, Pc>, name: string)
    requires 0 in pc && 1 in pc && forall p | p in pc :: pc[p].Idle?
    ensures Reaches(State(multiset{}, pc, {}, 0),
                    [] + [Begin(0, name)] + [InsertOk(0)] + [Tick(6)] + [Begin(1, name)] + [InsertFail(1)],
                    State(multiset{Doc(name, 0, 0)}, pc[0 := Holding(name, 0)][1 := Looking(name, 6)], {}, 6))
  {
    var s := State(multiset{}, pc, {}, 0);
    assert Reaches(s, [], s);
    var es := [];
    Play(s, es, s, Begin(0, name));
    var t1 := After(s, Begin(0, name), 5);
    Play(s, es + [Begin(0, name)], t1, InsertOk(0));
    var t2 := After(t1, InsertOk(0), 5);
    Play(s, es + [Begin(0, name)] + [InsertOk(0)], t2, Tick(6));
    var t3 := After(t2, Tick(6), 5);
    Play(s, es + [Begin(0, name)] + [InsertOk(0)] + [Tick(6)], t3, Begin(1, name));
    var t4 := After(t3, Begin(1, name), 5);
    Play(s, es + [Begin(0, name)] + [InsertOk(0)] + [Tick(6)] + [Begin(1, name)], t4, InsertFail(1));
    var t5 := After(t4, InsertFail(1), 5);
    assert t5.docs == multiset{Doc(name, 0, 0)};
    assert t5.pc == pc[0 := Holding(name, 0)][1 := Looking(name, 6)];
  }

  /** A slow holder: its document is stolen while it is still at work. */
  lemma StolenFromSlowHolder(name: string) returns (s: State, es: seq<Event>)
    ensures Initial(s) && Possible(s, es, 5) && !MutualExclusion(Final(s, es, 5))
    ensures |s.pc| == 2 && Final(s, es, 5).dead == {}
  {
    var pc: map<Proc, Pc> := map[0 := Idle, 1 := Idle];
    assert pc.Keys == {0, 1};
    s := State(multiset{}, pc, {}, 0);
    LockAndExpire(pc, name);
    es := [] + [Begin(0, name)] + [InsertOk(0)] + [Tick(6)] + [Begin(1, name)] + [InsertFail(1)];
    var t := Final(s, es, 5);
    TakeOver(s, es, t, 1, name, Doc(name, 0, 0));
    es := es + [FindExpired(1, Doc(name, 0, 0))] + [RemoveOk(1, Doc(name, 0, 0))] + [RetryOk(1)];
    assert Holds(Final(s, es, 5), 0, name) && Holds(Final(s, es, 5), 1, name);
  }

  /** Two stealers: after a crash, the second one removes the document the first one has just
      inserted, because the removal is by name. All live holders are within their lease. */
  lemma StolenByTwo(name: string) returns (s: State, es: seq<Event>)
    ensures Initial(s) && Possible(s, es, 5) && !MutualExclusion(Final(s, es, 5))
    ensures InLease(Final(s, es, 5), 5)
    ensures forall i | 0 <= i < |es| && es[i].FindExpired? :: es[i].d.owner == 0 && Crash(0) in es[..i]
  {
    var pc: map<Proc, Pc> := map[0 := Idle, 1 := Idle, 2 := Idle];
    s := State(multiset{}, pc, {}, 0);
    var d := Doc(name, 0, 0);
    assert pc.Keys == {0, 1, 2};
    LockAndExpire(pc, name);
    var es0 := [] + [Begin(0, name)] + [InsertOk(0)] + [Tick(6)] + [Begin(1, name)] + [InsertFail(1)];
    var es1, t1 := SecondLooks(s, es0, Final(s, es0, 5), name);
    TakeOver(s, es1, t1, 1, name, d);
    var es2 := es1 + [FindExpired(1, d)] + [RemoveOk(1, d)] + [RetryOk(1)];
    es := SecondSteals(s, es2, Final(s, es2, 5), name);
    CrashComesFirst(es0, name, es1, es2, es);
  }

  lemma CrashComesFirst(es0: seq<Event>, name: string, es1: seq<Event>, es2: seq<Event>, es: seq<Event>)
    requires es0 == [] + [Begin(0, name)] + [InsertOk(0)] + [Tick(6)] + [Begin(1, name)] + [InsertFail(1)]
    requires es1 == es0 + [Crash(0)] + [Begin(2, name)] + [InsertFail(2)] + [FindExpired(2, Doc(name, 0, 0))]
    requires es2 == es1 + [FindExpired(1, Doc(name, 0, 0))] + [RemoveOk(1, Doc(name, 0, 0))] + [RetryOk(1)]
    requires es == es2 + [RemoveOk(2, Doc(name, 6, 1))] + [RetryOk(2)]
    ensures forall i | 0 <= i < |es| && es[i].FindExpired? :: es[i].d.owner == 0 && Crash(0) in es[..i]
  {
    assert |es0| == 5 && es[5] == Crash(0);
    forall i | 0 <= i < |es| && es[i].FindExpired? ensures es[i].d.owner == 0 && Crash(0) in es[..i] {
      assert i > 5 && es[..i][5] == Crash(0);
    }
  }

  /** Process 2 carries out the removal it decided on earlier. */
  lemma SecondSteals(s: State, es: seq<Event>, t: State, name: string) returns (fs: seq<Event>)
    requires Reaches(s, es, t) && Live(t, 2) && t.pc[2] == Removing(name, 6) && Holds(t, 1, name)
    requires t.docs == multiset{Doc(name, 6, 1)} && t.pc[1].stamp == t.now == 6 && t.pc.Keys == {0, 1, 2} && 0 in t.dead
    ensures fs == es + [RemoveOk(2, Doc(name, 6, 1))] + [RetryOk(2)]
    ensures Possible(s, fs, 5) && !MutualExclusion(Final(s, fs, 5)) && InLease(Final(s, fs, 5), 5)
  {
    var d1 := Doc(name, 6, 1);
    Play(s, es, t, RemoveOk(2, d1));
    var t1 := After(t, RemoveOk(2, d1), 5);
    assert t1.docs == multiset{};
    Play(s, es + [RemoveOk(2, d1)], t1, RetryOk(2));
    var t2 := After(t1, RetryOk(2), 5);
    fs := es + [RemoveOk(2, d1)] + [RetryOk(2)];
    assert Holds(t2, 1, name) && Holds(t2, 2, name);
  }

  /** Process 0 crashes and process 2 sees its document expired. */
  lemma SecondLooks(s: State, es: seq<Event>, t: State, name: string) returns (fs: seq<Event>, u: State)
    requires Reaches(s, es, t) && Live(t, 0) && Live(t, 2) && t.pc[2] == Idle
    requires t.docs == multiset{Doc(name, 0, 0)} && t.now == 6
    ensures Reaches(s, fs, u)
    ensures fs == es + [Crash(0)] + [Begin(2, name)] + [InsertFail(2)] + [FindExpired(2, Doc(name, 0, 0))]
    ensures u == t.(dead := t.dead + {0}, pc := t.pc[2 := Removing(name, 6)])
  {
    var d := Doc(name, 0, 0);
    Play(s, es, t, Crash(0));
    var t1 := After(t, Crash(0), 5);
    Play(s, es + [Crash(0)], t1, Begin(2, name));
    var t2 := After(t1, Begin(2, name), 5);
    Play(s, es + [Crash(0)] + [Begin(2, name)], t2, InsertFail(2));
    var t3 := After(t2, InsertFail(2), 5);
    Play(s, es + [Crash(0)] + [Begin(2, name)] + [InsertFail(2)], t3, FindExpired(2, d));
    fs := es + [Crash(0)] + [Begin(2, name)] + [InsertFail(2)] + [FindExpired(2, d)];
    u := After(t3, FindExpired(2, d), 5);
    assert u.pc == t.pc[2 := Removing(name, 6)];
  }
}
