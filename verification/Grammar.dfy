// The rule language as a grammar, independent of the parser:
//   Or := And {or And}    And := Not {and Not}    Not := not Not | check | ( Or )
// The repetitions are written as left recursion.
module Grammar {
  import opened Checks

  /** A stack symbol: a token of the parser together with the check it carries. */
  datatype Sym =
    | LParen | RParen | AndWord | OrWord | NotWord | Quoted
    | Chk(c: Check)
    | AndExpr(rules: seq<Check>)
    | OrExpr(rules: seq<Check>)

  /** The symbols the tokenizer can emit. */
  predicate IsTerminal(x: Sym) {
    !x.AndExpr? && !x.OrExpr?
  }

  /** The symbols that carry a check, i.e. on which the final cast of parseRule succeeds. */
  predicate IsExpr(x: Sym) {
    x.Chk? || x.AndExpr? || x.OrExpr?
  }

  function ExprTree(x: Sym): Check
    requires IsExpr(x)
  {
    match x
    case Chk(c) => c
    case AndExpr(rs) => AndCheck(rs)
    case OrExpr(rs) => OrCheck(rs)
  }

  datatype NotPhrase = Atom(c: Check) | Negated(inner: NotPhrase) | Group(body: OrPhrase)
  datatype AndPhrase = AndUnit(only: NotPhrase) | AndSnoc(init: AndPhrase, last: NotPhrase)
  datatype OrPhrase = OrUnit(only: AndPhrase) | OrSnoc(init: OrPhrase, last: AndPhrase)

  function YieldNot(p: NotPhrase): seq<Sym> {
    match p
    case Atom(c) => [Chk(c)]
    case Negated(q) => [NotWord] + YieldNot(q)
    case Group(o) => [LParen] + YieldOr(o) + [RParen]
  }

  function YieldAnd(p: AndPhrase): seq<Sym> {
    match p
    case AndUnit(n) => YieldNot(n)
    case AndSnoc(a, n) => YieldAnd(a) + [AndWord] + YieldNot(n)
  }

  function YieldOr(p: OrPhrase): seq<Sym> {
    match p
    case OrUnit(a) => YieldAnd(a)
    case OrSnoc(o, a) => YieldOr(o) + [OrWord] + YieldAnd(a)
  }

  predicate MeaningNot(p: NotPhrase, v: Valuation) {
    match p
    case Atom(c) => Eval(c, v)
    case Negated(q) => !MeaningNot(q, v)
    case Group(o) => MeaningOr(o, v)
  }

  predicate MeaningAnd(p: AndPhrase, v: Valuation) {
    match p
    case AndUnit(n) => MeaningNot(n, v)
    case AndSnoc(a, n) => MeaningAnd(a, v) && MeaningNot(n, v)
  }

  predicate MeaningOr(p: OrPhrase, v: Valuation) {
    match p
    case OrUnit(a) => MeaningAnd(a, v)
    case OrSnoc(o, a) => MeaningOr(o, v) || MeaningAnd(a, v)
  }

  /** The rule language: token lists that derive from Or. */
  ghost predicate InLanguage(w: seq<Sym>) {
    exists p: OrPhrase :: YieldOr(p) == w
  }
}
