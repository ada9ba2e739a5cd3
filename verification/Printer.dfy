// The String methods of check objects (api/pkg/policy/checks.go), which walk the heap.
module Printer {
  import opened Checks
  import opened CheckObjects
  import opened RoundTrip

  /** strings.Join */
  function JoinText(r: seq<string>, sep: string): string {
    if r == [] then "" else if |r| == 1 then r[0] else JoinText(r[..|r| - 1], sep) + sep + r[|r| - 1]
  }

  lemma {:induction false} JoinPrinted(cs: seq<Check>, r: seq<string>, sep: string)
    requires |r| == |cs| && forall i | 0 <= i < |r| :: r[i] == Print(cs[i])
    ensures JoinText(r, sep) == PrintList(cs, sep)
  {
    if |r| > 1 {
      JoinPrinted(cs[..|cs| - 1], r[..|r| - 1], sep);
    }
  }

  /** The printed text depends only on the tree the objects store. */
  method PrintObject(b: BaseCheck, ghost c: Check, ghost fp: set<object>) returns (s: string)
    requires Rep(b, c, fp)
    ensures s == Print(c)
    decreases c, 1
  {
    match b
    case FalsePtr => s := "!";
    case TruePtr => s := "@";
    case NotPtr(inner) =>
      s := PrintObject(inner, c.rule, fp);
      s := "not " + s;
    case AndPtr(l) =>
      s := PrintChildren(l, c.rules, fp, " and ");
    case OrPtr(l) =>
      s := PrintChildren(l, c.rules, fp, " or ");
    case RulePtr(kind, body) => s := kind + ":" + body;
    case RolePtr(kind, body) => s := kind + ":" + body;
    case GenericPtr(kind, body) => s := kind + ":" + body;
  }

  /** The loops of AndCheck.String and OrCheck.String. */
  method PrintChildren(l: CheckList, ghost cs: seq<Check>, ghost fp: set<object>, sep: string) returns (s: string)
    requires RepList(l, cs, fp)
    ensures s == "(" + PrintList(cs, sep) + ")"
    decreases cs, 0
  {
    var r: seq<string> := [];
    for i := 0 to |l.rules|
      invariant |r| == i && forall j | 0 <= j < i :: r[j] == Print(cs[j])
    {
      var rule := PrintObject(l.rules[i], cs[i], l.parts[i]);
      r := r + [rule];
    }
    JoinPrinted(cs, r, sep);
    s := "(" + JoinText(r, sep) + ")";
  }
}
