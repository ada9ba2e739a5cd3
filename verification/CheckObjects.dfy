// Check objects on the heap: values of the BaseCheck interface and the in-place
// AddCheck/PopCheck of checks.go, represented against the pure trees.
module CheckObjects {
  import opened Checks

  /** A BaseCheck interface value: its dynamic type and what the pointer leads to. Conjunctions and
      disjunctions are the only objects that change after construction. */
  datatype BaseCheck =
    | FalsePtr
    | TruePtr
    | RulePtr(kind: string, body: string)
    | RolePtr(kind: string, body: string)
    | GenericPtr(kind: string, body: string)
    | NotPtr(rule: BaseCheck)
    | AndPtr(list: CheckList)
    | OrPtr(list: CheckList)

  /** `b` stores the tree `t` in the objects of `fp`, which no other part of the tree shares. */
  ghost predicate Rep(b: BaseCheck, t: Check, fp: set<object>)
    reads fp
    decreases t
  {
    match t
    case FalseCheck => b == FalsePtr
    case TrueCheck => b == TruePtr
    case RuleCheck(k, m) => b == RulePtr(k, m)
    case RoleCheck(k, m) => b == RolePtr(k, m)
    case GenericCheck(k, m) => b == GenericPtr(k, m)
    case NotCheck(u) => b.NotPtr? && Rep(b.rule, u, fp)
    case AndCheck(ts) => b.AndPtr? && RepList(b.list, ts, fp)
    case OrCheck(ts) => b.OrPtr? && RepList(b.list, ts, fp)
  }

  ghost predicate RepList(l: CheckList, ts: seq<Check>, fp: set<object>)
    reads fp
    decreases ts
  {
    && l in fp
    && |l.rules| == |l.parts| == |ts|
    && (forall i | 0 <= i < |ts| :: l.parts[i] <= fp - {l} && Rep(l.rules[i], ts[i], l.parts[i]))
    && (forall i, j | 0 <= i < j < |ts| :: l.parts[i] !! l.parts[j])
  }

  /** The `rules` slice of an AndCheck or OrCheck object. */
  class CheckList {
    var rules: seq<BaseCheck>
    ghost var parts: seq<set<object>>

    constructor ()
      ensures rules == [] && RepList(this, [], {this})
    {
      rules, parts := [], [];
    }

    method AddCheck(c: BaseCheck, ghost ts: seq<Check>, ghost fp: set<object>, ghost t: Check, ghost part: set<object>)
      requires RepList(this, ts, fp) && Rep(c, t, part) && fp !! part
      modifies this
      ensures rules == old(rules) + [c]
      ensures RepList(this, ts + [t], fp + part)
    {
      rules := rules + [c];
      parts := parts + [part];
    }

    method PopCheck(ghost ts: seq<Check>, ghost fp: set<object>) returns (c: BaseCheck, ghost part: set<object>)
      requires RepList(this, ts, fp) && ts != []
      modifies this
      ensures old(rules) == rules + [c]
      ensures part <= fp - {this} && RepList(this, ts[..|ts| - 1], fp - part)
      ensures Rep(c, ts[|ts| - 1], part)
    {
      c, part := rules[|rules| - 1], parts[|parts| - 1];
      rules, parts := rules[..|rules| - 1], parts[..|parts| - 1];
    }
  }

  /** NewAndCheck and NewOrCheck: an empty slice to which both operands are added. */
  method NewList(c1: BaseCheck, c2: BaseCheck,
                 ghost t1: Check, ghost fp1: set<object>, ghost t2: Check, ghost fp2: set<object>)
    returns (l: CheckList)
    requires Rep(c1, t1, fp1) && Rep(c2, t2, fp2) && fp1 !! fp2
    ensures fresh(l) && RepList(l, [t1, t2], {l} + fp1 + fp2)
  {
    l := new CheckList();
    l.AddCheck(c1, [], {l}, t1, fp1);
    l.AddCheck(c2, [t1], {l} + fp1, t2, fp2);
    assert [] + [t1] == [t1] && [t1] + [t2] == [t1, t2];
  }
}
