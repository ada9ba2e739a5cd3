// Evaluation of checks against a rule map (the Exec methods of checks.go) as functions.
module Enforcement {
  import opened Checks

  /** What an evaluation ends with; `NilCheck` is the call on the nil check of an unknown rule,
      `OutOfStack` an evaluation deeper than the given number of nested rule references. */
  datatype Result = Bool(b: bool) | NilCheck | OutOfStack

  type Rules = map<string, Check>

  /** `v` gives the value of role and generic checks for the target and credentials at hand. */
  function Exec(rules: Rules, c: Check, v: Valuation, depth: nat): Result
    decreases depth, c, 1
  {
    match c
    case FalseCheck => Bool(false)
    case TrueCheck => Bool(true)
    case NotCheck(r) =>
      var x := Exec(rules, r, v, depth);
      if x.Bool? then Bool(!x.b) else x
    case AndCheck(rs) => ExecUntil(rules, rs, v, depth, false)
    case OrCheck(rs) => ExecUntil(rules, rs, v, depth, true)
    case RuleCheck(_, name) =>
      if rules == map[] then Bool(false)
      else if name !in rules then NilCheck
      else if depth == 0 then OutOfStack
      else Exec(rules, rules[name], v, depth - 1)
    case _ => Bool(v(c))
  }

  /** The loops of AndCheck.Exec and OrCheck.Exec: left to right, stopping at the first `stop`. */
  function ExecUntil(rules: Rules, rs: seq<Check>, v: Valuation, depth: nat, stop: bool): Result
    decreases depth, rs, 0
  {
    if rs == [] then Bool(!stop)
    else
      var x := Exec(rules, rs[0], v, depth);
      if x == Bool(!stop) then ExecUntil(rules, rs[1..], v, depth, stop) else x
  }

  /** The rule names a check mentions. */
  function Refs(c: Check): set<string> {
    match c
    case RuleCheck(_, name) => {name}
    case NotCheck(r) => Refs(r)
    case AndCheck(rs) => set i, n | 0 <= i < |rs| && n in Refs(rs[i]) :: n
    case OrCheck(rs) => set i, n | 0 <= i < |rs| && n in Refs(rs[i]) :: n
    case _ => {}
  }

  /** Every reference is defined and leads to a rule of smaller rank. */
  ghost predicate Ranked(rules: Rules, rank: string -> nat) {
    forall n, m | n in rules && m in Refs(rules[n]) :: m in rules && rank(m) < rank(n)
  }

  /** A solution of the rule map read as equations, over the given atoms. */
  ghost predicate Model(rules: Rules, v: Valuation, env: Valuation) {
    && (forall a: Check | a.RuleCheck? && a.body in rules :: env(a) == Eval(rules[a.body], env))
    && (forall a: Check | !a.RuleCheck? :: env(a) == v(a))
  }

  /** The equations of the rules below a rank. */
  ghost predicate ModelBelow(rules: Rules, rank: string -> nat, v: Valuation, env: Valuation, bound: nat) {
    && (forall a: Check | a.RuleCheck? && a.body in rules && rank(a.body) < bound ::
          env(a) == Eval(rules[a.body], env))
    && (forall a: Check | !a.RuleCheck? :: env(a) == v(a))
  }

  /** Evaluation agrees with every solution of the equations it can reach. */
  lemma {:induction false} ExecMeetsModelBelow(rules: Rules, rank: string -> nat, v: Valuation, env: Valuation, c: Check, depth: nat)
    requires Ranked(rules, rank) && ModelBelow(rules, rank, v, env, depth)
    requires forall m | m in Refs(c) :: m in rules && rank(m) < depth
    ensures Exec(rules, c, v, depth) == Bool(Eval(c, env))
    decreases depth, c, 1
  {
    match c
    case NotCheck(r) =>
      ExecMeetsModelBelow(rules, rank, v, env, r, depth);
    case AndCheck(rs) =>
      assert forall i, m | 0 <= i < |rs| && m in Refs(rs[i]) :: m in Refs(c);
      UntilMeetsModel(rules, rank, v, env, rs, depth, false);
    case OrCheck(rs) =>
      assert forall i, m | 0 <= i < |rs| && m in Refs(rs[i]) :: m in Refs(c);
      UntilMeetsModel(rules, rank, v, env, rs, depth, true);
    case RuleCheck(_, name) =>
      assert name in Refs(c);
      ExecMeetsModelBelow(rules, rank, v, env, rules[name], depth - 1);
    case _ =>
  }

  lemma {:induction false} UntilMeetsModel(rules: Rules, rank: string -> nat, v: Valuation, env: Valuation,
                                           rs: seq<Check>, depth: nat, stop: bool)
    requires Ranked(rules, rank) && ModelBelow(rules, rank, v, env, depth)
    requires forall i, m | 0 <= i < |rs| && m in Refs(rs[i]) :: m in rules && rank(m) < depth
    ensures ExecUntil(rules, rs, v, depth, stop)
         == Bool(if stop then Eval(OrCheck(rs), env) else Eval(AndCheck(rs), env))
    decreases depth, rs, 0
  {
    if rs != [] {
      ExecMeetsModelBelow(rules, rank, v, env, rs[0], depth);
      UntilMeetsModel(rules, rank, v, env, rs[1..], depth, stop);
      assert forall i | 1 <= i < |rs| :: rs[i] == rs[1..][i - 1];
      assert forall i | 0 <= i < |rs[1..]| :: rs[1..][i] == rs[i + 1];
    }
  }

  /** Short-circuit evaluation of a ranked rule map ends and yields the value in every model. */
  lemma ExecMeetsModel(rules: Rules, rank: string -> nat, v: Valuation, env: Valuation, c: Check, depth: nat)
    requires Ranked(rules, rank) && Model(rules, v, env)
    requires forall m | m in Refs(c) :: m in rules && rank(m) < depth
    ensures Exec(rules, c, v, depth) == Bool(Eval(c, env))
  {
    ExecMeetsModelBelow(rules, rank, v, env, c, depth);
  }

  /** The model evaluation itself provides. */
  ghost function ExecModel(rules: Rules, rank: string -> nat, v: Valuation): Valuation {
    (a: Check) =>
      if !a.RuleCheck? then v(a)
      else a.body in rules && Exec(rules, rules[a.body], v, rank(a.body)) == Bool(true)
  }

  lemma {:induction false} ExecModelBelow(rules: Rules, rank: string -> nat, v: Valuation, bound: nat)
    requires Ranked(rules, rank)
    ensures ModelBelow(rules, rank, v, ExecModel(rules, rank, v), bound)
  {
    var env := ExecModel(rules, rank, v);
    forall a: Check | a.RuleCheck? && a.body in rules && rank(a.body) < bound
      ensures env(a) == Eval(rules[a.body], env)
    {
      ExecModelBelow(rules, rank, v, rank(a.body));
      ExecMeetsModelBelow(rules, rank, v, env, rules[a.body], rank(a.body));
    }
  }

  /** Ranked rule maps have a model; by ExecMeetsModel its values are unique. */
  lemma ModelExists(rules: Rules, rank: string -> nat, v: Valuation)
    requires Ranked(rules, rank)
    ensures Model(rules, v, ExecModel(rules, rank, v))
  {
    var env := ExecModel(rules, rank, v);
    forall a: Check | a.RuleCheck? && a.body in rules ensures env(a) == Eval(rules[a.body], env) {
      ExecModelBelow(rules, rank, v, rank(a.body) + 1);
    }
  }

  /** More stack never changes an evaluation that ended. */
  lemma {:induction false} EnoughDepth(rules: Rules, c: Check, v: Valuation, depth: nat, more: nat)
    requires depth <= more && !Exec(rules, c, v, depth).OutOfStack?
    ensures Exec(rules, c, v, more) == Exec(rules, c, v, depth)
    decreases depth, c, 1
  {
    match c
    case NotCheck(r) => EnoughDepth(rules, r, v, depth, more);
    case AndCheck(rs) => EnoughDepthUntil(rules, rs, v, depth, more, false);
    case OrCheck(rs) => EnoughDepthUntil(rules, rs, v, depth, more, true);
    case RuleCheck(_, name) =>
      if name in rules {
        EnoughDepth(rules, rules[name], v, depth - 1, more - 1);
      }
    case _ =>
  }

  lemma {:induction false} EnoughDepthUntil(rules: Rules, rs: seq<Check>, v: Valuation, depth: nat, more: nat, stop: bool)
    requires depth <= more && !ExecUntil(rules, rs, v, depth, stop).OutOfStack?
    ensures ExecUntil(rules, rs, v, more, stop) == ExecUntil(rules, rs, v, depth, stop)
    decreases depth, rs, 0
  {
    if rs != [] {
      EnoughDepth(rules, rs[0], v, depth, more);
      if Exec(rules, rs[0], v, depth) == Bool(!stop) {
        EnoughDepthUntil(rules, rs[1..], v, depth, more, stop);
      }
    }
  }

  // ---------------------------------------------------------------- how much stack is enough

  /** `depth` is the least number of nested rule references with which the evaluation ends. */
  predicate Needs(rules: Rules, c: Check, v: Valuation, depth: nat) {
    !Exec(rules, c, v, depth).OutOfStack? && (depth == 0 || Exec(rules, c, v, depth - 1).OutOfStack?)
  }

  lemma NeedsIsUnique(rules: Rules, c: Check, v: Valuation, d: nat, e: nat)
    requires Needs(rules, c, v, d) && Needs(rules, c, v, e)
    ensures d == e
  {
    if d < e {
      EnoughDepth(rules, c, v, d, e - 1);
    } else if e < d {
      EnoughDepth(rules, c, v, e, d - 1);
    }
  }

  lemma {:induction false} Least(rules: Rules, c: Check, v: Valuation, depth: nat) returns (d: nat)
    requires !Exec(rules, c, v, depth).OutOfStack?
    ensures d <= depth && Needs(rules, c, v, d)
  {
    if depth == 0 || Exec(rules, c, v, depth - 1).OutOfStack? {
      d := depth;
    } else {
      d := Least(rules, c, v, depth - 1);
    }
  }

  /** A check that needs some nesting refers to a rule that needs one less. */
  lemma {:induction false} Deeper(rules: Rules, c: Check, v: Valuation, depth: nat) returns (n: string)
    requires depth > 0 && Needs(rules, c, v, depth)
    ensures n in Refs(c) && n in rules && Needs(rules, rules[n], v, depth - 1)
    decreases c, 1
  {
    match c
    case NotCheck(r) => n := Deeper(rules, r, v, depth);
    case AndCheck(rs) =>
      var i;
      i, n := DeeperUntil(rules, rs, v, depth, false);
    case OrCheck(rs) =>
      var i;
      i, n := DeeperUntil(rules, rs, v, depth, true);
    case RuleCheck(_, name) => n := name;
  }

  lemma {:induction false} DeeperUntil(rules: Rules, rs: seq<Check>, v: Valuation, depth: nat, stop: bool)
    returns (i: nat, n: string)
    requires depth > 0 && !ExecUntil(rules, rs, v, depth, stop).OutOfStack?
    requires ExecUntil(rules, rs, v, depth - 1, stop).OutOfStack?
    ensures i < |rs| && n in Refs(rs[i]) && n in rules && Needs(rules, rules[n], v, depth - 1)
    decreases rs, 0
  {
    if Exec(rules, rs[0], v, depth - 1).OutOfStack? {
      n := Deeper(rules, rs[0], v, depth);
      i := 0;
    } else {
      EnoughDepth(rules, rs[0], v, depth - 1, depth);
      i, n := DeeperUntil(rules, rs[1..], v, depth, stop);
      i := i + 1;
    }
  }

  /** A rule that needs nesting `k` leads through `k + 1` different rules. */
  lemma {:induction false} Levels(rules: Rules, n: string, v: Valuation, k: nat) returns (names: set<string>)
    requires n in rules && Needs(rules, rules[n], v, k)
    ensures |names| == k + 1 && names <= rules.Keys
    ensures forall m | m in names :: exists e: nat | e <= k :: Needs(rules, rules[m], v, e)
    decreases k
  {
    if k == 0 {
      names := {n};
    } else {
      var m := Deeper(rules, rules[n], v, k);
      names := Levels(rules, m, v, k - 1);
      if n in names {
        var e: nat :| e <= k - 1 && Needs(rules, rules[n], v, e);
        NeedsIsUnique(rules, rules[n], v, k, e);
        assert false;
      }
      names := names + {n};
    }
  }

  lemma {:induction false} SubsetSize<T>(a: set<T>, b: set<T>)
    requires a <= b
    ensures |a| <= |b|
    decreases a
  {
    if x :| x in a {
      SubsetSize(a - {x}, b - {x});
    }
  }

  /** No evaluation that ends needs more nested references than there are rules. */
  lemma NeedIsBounded(rules: Rules, c: Check, v: Valuation, depth: nat)
    requires Needs(rules, c, v, depth)
    ensures depth <= |rules|
  {
    if depth > 0 {
      var n := Deeper(rules, c, v, depth);
      var names := Levels(rules, n, v, depth - 1);
      SubsetSize(names, rules.Keys);
      assert |rules.Keys| == |rules|;
    }
  }

  /** For every rule map, closed and acyclic or not: the evaluation ends with some stack if and only if
      it ends with as many nested references as there are rules, and with any stack beyond that its
      outcome is the same. So this depth decides whether the evaluation answers, calls a nil check or
      never ends. */
  lemma EndsExactlyIf(rules: Rules, c: Check, v: Valuation)
    ensures (exists d: nat :: !Exec(rules, c, v, d).OutOfStack?) <==> !Exec(rules, c, v, |rules|).OutOfStack?
    ensures forall d: nat | d >= |rules| :: Exec(rules, c, v, d) == Exec(rules, c, v, |rules|)
    ensures (exists d: nat :: Exec(rules, c, v, d).NilCheck?) <==> Exec(rules, c, v, |rules|).NilCheck?
  {
    forall d: nat | !Exec(rules, c, v, d).OutOfStack? ensures Exec(rules, c, v, |rules|) == Exec(rules, c, v, d) {
      EndsInTime(rules, c, v, d);
    }
    forall d: nat | d >= |rules| ensures Exec(rules, c, v, d) == Exec(rules, c, v, |rules|) {
      if !Exec(rules, c, v, |rules|).OutOfStack? {
        EnoughDepth(rules, c, v, |rules|, d);
      }
    }
  }

  lemma EndsInTime(rules: Rules, c: Check, v: Valuation, d: nat)
    requires !Exec(rules, c, v, d).OutOfStack?
    ensures Exec(rules, c, v, |rules|) == Exec(rules, c, v, d)
  {
    var e := Least(rules, c, v, d);
    NeedIsBounded(rules, c, v, e);
    EnoughDepth(rules, c, v, e, |rules|);
    EnoughDepth(rules, c, v, e, d);
  }

  /** With ranked references the evaluation answers, and with the value in the model. */
  lemma RankedAnswers(rules: Rules, rank: string -> nat, v: Valuation, env: Valuation, c: Check)
    requires Ranked(rules, rank) && Model(rules, v, env) && Refs(c) <= rules.Keys
    ensures Exec(rules, c, v, |rules|) == Bool(Eval(c, env))
  {
    var depth := 1 + Highest(rank, Refs(c));
    ExecMeetsModel(rules, rank, v, env, c, depth);
    EndsExactlyIf(rules, c, v);
    if depth < |rules| {
      EnoughDepth(rules, c, v, depth, |rules|);
    }
  }

  ghost function Highest(rank: string -> nat, names: set<string>): (h: nat)
    ensures forall m | m in names :: rank(m) <= h
  {
    if names == {} then 0
    else
      var m :| m in names;
      var h := Highest(rank, names - {m});
      if rank(m) > h then rank(m) else h
  }

  /** The reference an evaluation of the check meets first, whatever the atoms are worth; empty if it
      first meets an atom or a constant. */
  function First(c: Check): seq<string>
    decreases c
  {
    match c
    case RuleCheck(_, name) => [name]
    case NotCheck(r) => First(r)
    case AndCheck(rs) => if rs == [] then [] else First(rs[0])
    case OrCheck(rs) => if rs == [] then [] else First(rs[0])
    case _ => []
  }

  lemma {:induction false} FirstIsMet(rules: Rules, c: Check, v: Valuation, depth: nat)
    requires First(c) != [] && First(c)[0] in rules
    requires depth > 0 ==> Exec(rules, rules[First(c)[0]], v, depth - 1).OutOfStack?
    ensures Exec(rules, c, v, depth).OutOfStack?
    decreases c
  {
    match c
    case RuleCheck(_, name) =>
    case NotCheck(r) => FirstIsMet(rules, r, v, depth);
    case AndCheck(rs) => FirstIsMet(rules, rs[0], v, depth);
    case OrCheck(rs) => FirstIsMet(rules, rs[0], v, depth);
  }

  /** Cycles of any length: rules that first refer to each other never end. */
  lemma {:induction false} CycleNeverEnds(rules: Rules, ring: set<string>, n: string, v: Valuation, depth: nat)
    requires n in ring && forall m | m in ring :: m in rules && First(rules[m]) != [] && First(rules[m])[0] in ring
    ensures Exec(rules, rules[n], v, depth).OutOfStack?
    decreases depth
  {
    if depth > 0 {
      CycleNeverEnds(rules, ring, First(rules[n])[0], v, depth - 1);
    }
    FirstIsMet(rules, rules[n], v, depth);
  }

  // ---------------------------------------------------------------- locality

  /** The two rule maps agree on `names`, and rules of `names` only refer to `names`. */
  ghost predicate AgreeOn(r1: Rules, r2: Rules, names: set<string>) {
    && (r1 == map[] <==> r2 == map[])
    && (forall n | n in names :: n in r1 <==> n in r2)
    && (forall n | n in names && n in r1 :: r1[n] == r2[n] && Refs(r1[n]) <= names)
  }

  /** Evaluation depends only on the rules reachable from the check, also when it panics or loops. */
  lemma {:induction false} ExecIsLocal(r1: Rules, r2: Rules, names: set<string>, c: Check, v: Valuation, depth: nat)
    requires AgreeOn(r1, r2, names) && Refs(c) <= names
    ensures Exec(r1, c, v, depth) == Exec(r2, c, v, depth)
    decreases depth, c, 1
  {
    match c
    case NotCheck(r) =>
      ExecIsLocal(r1, r2, names, r, v, depth);
    case AndCheck(rs) =>
      assert forall i, m | 0 <= i < |rs| && m in Refs(rs[i]) :: m in Refs(c);
      UntilIsLocal(r1, r2, names, rs, v, depth, false);
    case OrCheck(rs) =>
      assert forall i, m | 0 <= i < |rs| && m in Refs(rs[i]) :: m in Refs(c);
      UntilIsLocal(r1, r2, names, rs, v, depth, true);
    case RuleCheck(_, name) =>
      assert name in Refs(c);
      if name in r1 && depth > 0 {
        ExecIsLocal(r1, r2, names, r1[name], v, depth - 1);
      }
    case _ =>
  }

  lemma {:induction false} UntilIsLocal(r1: Rules, r2: Rules, names: set<string>, rs: seq<Check>, v: Valuation, depth: nat, stop: bool)
    requires AgreeOn(r1, r2, names) && forall i | 0 <= i < |rs| :: Refs(rs[i]) <= names
    ensures ExecUntil(r1, rs, v, depth, stop) == ExecUntil(r2, rs, v, depth, stop)
    decreases depth, rs, 0
  {
    if rs != [] {
      ExecIsLocal(r1, r2, names, rs[0], v, depth);
      UntilIsLocal(r1, r2, names, rs[1..], v, depth, stop);
    }
  }

  /** What Enforcer.Enforce answers; an unknown rule name is an error. */
  datatype Answer = NoSuchRule | Evaluated(r: Result)

  /** Updating rules that are not reachable from `name` does not change the evaluation of its rule. */
  lemma UpdateIsLocal(rules: Rules, update: Rules, names: set<string>, name: string, v: Valuation, depth: nat)
    requires name in rules && name in names
    requires forall n | n in names && n in rules :: Refs(rules[n]) <= names
    requires forall n | n in names && n in update :: n in rules && update[n] == rules[n]
    ensures Exec(rules + update, (rules + update)[name], v, depth) == Exec(rules, rules[name], v, depth)
  {
    ExecIsLocal(rules, rules + update, names, rules[name], v, depth);
  }

  // ---------------------------------------------------------------- answers

  /** Whenever an evaluation answers, for any rule map, closed or not, cyclic or not, the answer is the
      value in every solution of the rules read as equations. */
  lemma {:induction false} AnswerIsSound(rules: Rules, v: Valuation, env: Valuation, c: Check, depth: nat)
    requires rules != map[] && Model(rules, v, env) && Exec(rules, c, v, depth).Bool?
    ensures Exec(rules, c, v, depth).b == Eval(c, env)
    decreases depth, c, 1
  {
    match c
    case NotCheck(r) => AnswerIsSound(rules, v, env, r, depth);
    case AndCheck(rs) => UntilIsSound(rules, v, env, rs, depth, false);
    case OrCheck(rs) => UntilIsSound(rules, v, env, rs, depth, true);
    case RuleCheck(_, name) => AnswerIsSound(rules, v, env, rules[name], depth - 1);
    case _ =>
  }

  lemma {:induction false} UntilIsSound(rules: Rules, v: Valuation, env: Valuation, rs: seq<Check>, depth: nat, stop: bool)
    requires rules != map[] && Model(rules, v, env) && ExecUntil(rules, rs, v, depth, stop).Bool?
    ensures ExecUntil(rules, rs, v, depth, stop).b == if stop then Eval(OrCheck(rs), env) else Eval(AndCheck(rs), env)
    decreases depth, rs, 0
  {
    if rs != [] {
      AnswerIsSound(rules, v, env, rs[0], depth);
      FirstAndRest(rs, env);
      if Exec(rules, rs[0], v, depth) == Bool(!stop) {
        UntilIsSound(rules, v, env, rs[1..], depth, stop);
      }
    }
  }

  lemma FirstAndRest(rs: seq<Check>, env: Valuation)
    requires rs != []
    ensures Eval(OrCheck(rs), env) == (Eval(rs[0], env) || Eval(OrCheck(rs[1..]), env))
    ensures Eval(AndCheck(rs), env) == (Eval(rs[0], env) && Eval(AndCheck(rs[1..]), env))
  {
    assert rs == [rs[0]] + rs[1..];
    assert forall i | 1 <= i < |rs| :: rs[i] == rs[1..][i - 1];
    assert forall i | 0 <= i < |rs[1..]| :: rs[1..][i] == rs[i + 1];
  }

  /** With no rules at all every evaluation answers, and references are false. */
  lemma {:induction false} EmptyRules(c: Check, v: Valuation, depth: nat)
    ensures Exec(map[], c, v, depth) == Bool(Eval(c, (a: Check) => !a.RuleCheck? && v(a)))
    decreases c, 1
  {
    match c
    case NotCheck(r) => EmptyRules(r, v, depth);
    case AndCheck(rs) => EmptyRulesUntil(rs, v, depth, false);
    case OrCheck(rs) => EmptyRulesUntil(rs, v, depth, true);
    case _ =>
  }

  lemma {:induction false} EmptyRulesUntil(rs: seq<Check>, v: Valuation, depth: nat, stop: bool)
    ensures var env: Valuation := (a: Check) => !a.RuleCheck? && v(a);
      ExecUntil(map[], rs, v, depth, stop) == Bool(if stop then Eval(OrCheck(rs), env) else Eval(AndCheck(rs), env))
    decreases rs, 0
  {
    if rs != [] {
      var env: Valuation := (a: Check) => !a.RuleCheck? && v(a);
      EmptyRules(rs[0], v, depth);
      EmptyRulesUntil(rs[1..], v, depth, stop);
      FirstAndRest(rs, env);
    }
  }

  /** The first child that is not passed over decides, whatever those behind it would do. */
  lemma {:induction false} FirstDecides(rules: Rules, rs: seq<Check>, i: nat, v: Valuation, depth: nat, stop: bool)
    requires i < |rs| && Exec(rules, rs[i], v, depth) != Bool(!stop)
    requires forall k | 0 <= k < i :: Exec(rules, rs[k], v, depth) == Bool(!stop)
    ensures Exec(rules, if stop then OrCheck(rs) else AndCheck(rs), v, depth) == Exec(rules, rs[i], v, depth)
    decreases i
  {
    if i > 0 {
      FirstDecides(rules, rs[1..], i - 1, v, depth, stop);
    }
  }

  /** The constants are what they are called, and the value of role and generic checks is the one at hand. */
  lemma AtomsDecide(rules: Rules, kind: string, body: string, v: Valuation, depth: nat)
    ensures Exec(rules, FalseCheck, v, depth) == Bool(false) && Exec(rules, TrueCheck, v, depth) == Bool(true)
    ensures Exec(rules, RoleCheck(kind, body), v, depth) == Bool(v(RoleCheck(kind, body)))
    ensures Exec(rules, GenericCheck(kind, body), v, depth) == Bool(v(GenericCheck(kind, body)))
  {}

  /** A reference is worth what its rule is worth. */
  lemma ReferenceIsRule(rules: Rules, kind: string, name: string, v: Valuation, depth: nat)
    requires name in rules
    ensures Exec(rules, RuleCheck(kind, name), v, depth + 1) == Exec(rules, rules[name], v, depth)
    ensures forall other | other !in rules :: Exec(rules, RuleCheck(kind, other), v, depth).NilCheck?
  {}

  // ---------------------------------------------------------------- what goes wrong otherwise

  /** `names` holds every rule name reachable from the check. */
  predicate Reachable(rules: Rules, c: Check, names: set<string>) {
    Refs(c) <= names && forall n | n in names && n in rules :: Refs(rules[n]) <= names
  }

  /** An evaluation meets a nil check only if the map is not empty and one of the names reachable from
      the check is not defined, whatever the rest of the map looks like. */
  lemma {:induction false} NilCheckIsMissing(rules: Rules, names: set<string>, c: Check, v: Valuation, depth: nat)
    requires Reachable(rules, c, names) && Exec(rules, c, v, depth).NilCheck?
    ensures rules != map[] && exists n | n in names :: n !in rules
    decreases depth, c, 1
  {
    match c
    case NotCheck(r) =>
      NilCheckIsMissing(rules, names, r, v, depth);
    case AndCheck(rs) =>
      assert forall i, m | 0 <= i < |rs| && m in Refs(rs[i]) :: m in Refs(c);
      NilCheckInList(rules, names, rs, v, depth, false);
    case OrCheck(rs) =>
      assert forall i, m | 0 <= i < |rs| && m in Refs(rs[i]) :: m in Refs(c);
      NilCheckInList(rules, names, rs, v, depth, true);
    case RuleCheck(_, name) =>
      assert name in Refs(c);
      if name in rules {
        NilCheckIsMissing(rules, names, rules[name], v, depth - 1);
      }
  }

  lemma {:induction false} NilCheckInList(rules: Rules, names: set<string>, rs: seq<Check>, v: Valuation, depth: nat, stop: bool)
    requires (forall i | 0 <= i < |rs| :: Refs(rs[i]) <= names)
    requires forall n | n in names && n in rules :: Refs(rules[n]) <= names
    requires ExecUntil(rules, rs, v, depth, stop).NilCheck?
    ensures rules != map[] && exists n | n in names :: n !in rules
    decreases depth, rs, 0
  {
    if Exec(rules, rs[0], v, depth) == Bool(!stop) {
      NilCheckInList(rules, names, rs[1..], v, depth, stop);
    } else {
      NilCheckIsMissing(rules, names, rs[0], v, depth);
    }
  }

  /** With every reachable reference defined, no evaluation meets a nil check. */
  lemma NoNilCheck(rules: Rules, names: set<string>, c: Check, v: Valuation, depth: nat)
    requires Reachable(rules, c, names) && names <= rules.Keys
    ensures !Exec(rules, c, v, depth).NilCheck?
  {
    if Exec(rules, c, v, depth).NilCheck? {
      NilCheckIsMissing(rules, names, c, v, depth);
    }
  }

  /** A rule that refers to itself never ends, whatever the stack. */
  lemma {:induction false} SelfReference(rules: Rules, kind: string, name: string, v: Valuation, depth: nat)
    requires name in rules && rules[name] == RuleCheck(kind, name)
    ensures Exec(rules, rules[name], v, depth) == OutOfStack
  {
    CycleNeverEnds(rules, {name}, name, v, depth);
  }
}
