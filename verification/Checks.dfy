// The tree of checks a policy rule is parsed into (api/pkg/policy/checks.go).
module Checks {

  /** The check types of checks.go. `body` is the source's `match` field. */
  datatype Check =
    | FalseCheck
    | TrueCheck
    | RuleCheck(kind: string, body: string)
    | RoleCheck(kind: string, body: string)
    | GenericCheck(kind: string, body: string)
    | NotCheck(rule: Check)
    | AndCheck(rules: seq<Check>)
    | OrCheck(rules: seq<Check>)

  /** Truth values of the atoms; stands for the target, the credentials and the rule map. */
  type Valuation = Check -> bool

  /** Meaning of a check: every child of a conjunction, some child of a disjunction. */
  predicate Eval(c: Check, v: Valuation) {
    match c
    case FalseCheck => false
    case TrueCheck => true
    case NotCheck(r) => !Eval(r, v)
    case AndCheck(rs) => forall i | 0 <= i < |rs| :: Eval(rs[i], v)
    case OrCheck(rs) => exists i | 0 <= i < |rs| :: Eval(rs[i], v)
    case _ => v(c)
  }

  lemma EvalAndSnoc(rs: seq<Check>, c: Check, v: Valuation)
    ensures Eval(AndCheck(rs + [c]), v) == (Eval(AndCheck(rs), v) && Eval(c, v))
  {
    var all := rs + [c];
    assert all[|rs|] == c;
    assert forall i | 0 <= i < |rs| :: all[i] == rs[i];
  }

  lemma EvalOrSnoc(rs: seq<Check>, c: Check, v: Valuation)
    ensures Eval(OrCheck(rs + [c]), v) == (Eval(OrCheck(rs), v) || Eval(c, v))
  {
    var all := rs + [c];
    assert all[|rs|] == c;
    assert forall i | 0 <= i < |rs| :: all[i] == rs[i];
  }
}
