// The eager shift-reduce parser of api/pkg/policy/parser.go as a function on stacks,
// and its correctness against the grammar.
module Reduction {
  import opened Checks
  import opened Grammar

  /** mixOrAndExpr: the last disjunct is popped and becomes the left side of the conjunction. */
  function Mix(rules: seq<Check>, c: Check): seq<Check>
    requires rules != []
  {
    var front, last := rules[..|rules| - 1], rules[|rules| - 1];
    front + [if last.AndCheck? then AndCheck(last.rules + [c]) else AndCheck([last, c])]
  }

  /** The result of `left op c` on the stack, if one of the table's rules has this form. */
  predicate Joins(left: Sym, op: Sym) {
    match op
    case AndWord => left.Chk? || left.AndExpr? || (left.OrExpr? && left.rules != [])
    case OrWord => left.Chk? || left.AndExpr? || left.OrExpr?
    case _ => false
  }

  function Join(left: Sym, op: Sym, c: Check): Sym
    requires Joins(left, op)
  {
    if op.AndWord? then
      match left
      case Chk(a) => AndExpr([a, c])
      case AndExpr(rs) => AndExpr(rs + [c])
      case OrExpr(rs) => OrExpr(Mix(rs, c))
    else
      match left
      case Chk(a) => OrExpr([a, c])
      case AndExpr(rs) => OrExpr([AndCheck(rs), c])
      case OrExpr(rs) => OrExpr(rs + [c])
  }

  predicate Reducible(s: seq<Sym>) {
    var n := |s|;
    || (n >= 3 && s[n-1].RParen? && IsExpr(s[n-2]) && s[n-3].LParen?)
    || (n >= 3 && s[n-1].Chk? && Joins(s[n-3], s[n-2]))
    || (n >= 2 && s[n-1].Chk? && s[n-2].NotWord?)
  }

  /** One application of the reduction table at the top of the stack. */
  function Step(s: seq<Sym>): (r: seq<Sym>)
    requires Reducible(s)
    ensures |r| < |s|
  {
    var n := |s|;
    if s[n-1].RParen? then
      s[..n-3] + [Chk(ExprTree(s[n-2]))]
    else if s[n-2].NotWord? then
      s[..n-2] + [Chk(NotCheck(s[n-1].c))]
    else
      s[..n-3] + [Join(s[n-3], s[n-2], s[n-1].c)]
  }

  function Reduce(s: seq<Sym>): seq<Sym>
    decreases |s|
  {
    if Reducible(s) then Reduce(Step(s)) else s
  }

  function Shift(s: seq<Sym>, x: Sym): seq<Sym> {
    Reduce(s + [x])
  }

  function ShiftAll(s: seq<Sym>, w: seq<Sym>): seq<Sym>
    decreases |w|
  {
    if w == [] then s else ShiftAll(Shift(s, w[0]), w[1..])
  }

  // ---------------------------------------------------------------- general facts

  lemma {:induction false} ShiftAllAppend(s: seq<Sym>, u: seq<Sym>, w: seq<Sym>)
    ensures ShiftAll(s, u + w) == ShiftAll(ShiftAll(s, u), w)
    decreases |u|
  {
    if u == [] {
      assert u + w == w;
    } else {
      assert (u + w)[1..] == u[1..] + w;
      ShiftAllAppend(Shift(s, u[0]), u[1..], w);
    }
  }

  lemma ShiftAllOne(s: seq<Sym>, x: Sym)
    ensures ShiftAll(s, [x]) == Shift(s, x)
  {
    assert [x][1..] == [];
  }

  /** Keywords and opening parentheses are only pushed. */
  lemma PushOnly(s: seq<Sym>, x: Sym)
    requires !x.Chk? && !x.RParen?
    ensures Shift(s, x) == s + [x]
  {
    assert (s + [x])[|s|] == x;
  }

  /** An operand arriving after an operator is combined with the left operand at once. */
  lemma ShiftOperand(s: seq<Sym>, left: Sym, op: Sym, c: Check)
    requires Joins(left, op)
    ensures Shift(s + [left, op], Chk(c)) == s + [Join(left, op, c)]
  {
    var t := s + [left, op] + [Chk(c)];
    assert t[..|s|] == s;
    assert t[|s|] == left && t[|s| + 1] == op && t[|s| + 2] == Chk(c);
    var r := s + [Join(left, op, c)];
    assert Step(t) == r;
    assert r[|r| - 1] == Join(left, op, c);
    assert s + [left, op] + [Chk(c)] == t && Reduce(t) == Reduce(r) == r;
  }

  /** An operand arriving where an expression starts stays on the stack. */
  lemma ShiftFirst(s: seq<Sym>, c: Check)
    requires Fresh(s)
    ensures Shift(s, Chk(c)) == s + [Chk(c)]
  {
    var t := s + [Chk(c)];
    assert t[|s|] == Chk(c);
    assert s != [] ==> t[|s| - 1] == s[|s| - 1];
  }

  /** The places where a whole expression may start: the bottom, or after "(". */
  predicate Fresh(s: seq<Sym>) {
    s == [] || s[|s| - 1].LParen?
  }

  // ---------------------------------------------------------------- completeness

  /** The trees the parser builds, read off the derivation. */
  function TreeNot(p: NotPhrase): Check {
    match p
    case Atom(c) => c
    case Negated(q) => NotCheck(TreeNot(q))
    case Group(o) => ExprTree(SymOr(o))
  }

  function SymAnd(p: AndPhrase): (x: Sym)
    ensures x.Chk? || x.AndExpr?
  {
    match p
    case AndUnit(n) => Chk(TreeNot(n))
    case AndSnoc(a, n) => Join(SymAnd(a), AndWord, TreeNot(n))
  }

  /** The last disjunct after the late repair of `... or p`. */
  function Repaired(p: AndPhrase): Check {
    match p
    case AndUnit(n) => TreeNot(n)
    case AndSnoc(a, n) => Mix([Repaired(a)], TreeNot(n))[0]
  }

  /** The disjuncts an expression contributes when `or` follows it. */
  function Disjuncts(x: Sym): seq<Check>
    requires IsExpr(x)
  {
    if x.OrExpr? then x.rules else [ExprTree(x)]
  }

  function SymOr(p: OrPhrase): (x: Sym)
    ensures IsExpr(x)
  {
    match p
    case OrUnit(a) => SymAnd(a)
    case OrSnoc(o, a) =>
      OrExpr(Disjuncts(SymOr(o)) + [Repaired(a)])
  }

  /** On any stack, shifting the tokens of a Not phrase is shifting one check. */
  lemma {:induction false} NotComplete(p: NotPhrase, s: seq<Sym>)
    ensures ShiftAll(s, YieldNot(p)) == Shift(s, Chk(TreeNot(p)))
    decreases p, 0
  {
    match p
    case Atom(c) =>
      ShiftAllOne(s, Chk(c));
    case Negated(q) =>
      PushOnly(s, NotWord);
      ShiftAllAppend(s, [NotWord], YieldNot(q));
      ShiftAllOne(s, NotWord);
      NotComplete(q, s + [NotWord]);
      var t := s + [NotWord] + [Chk(TreeNot(q))];
      assert t[..|s|] == s && t[|s|] == NotWord;
      assert Step(t) == s + [Chk(NotCheck(TreeNot(q)))];
    case Group(o) =>
      PushOnly(s, LParen);
      ShiftAllAppend(s, [LParen], YieldOr(o));
      ShiftAllAppend(s, [LParen] + YieldOr(o), [RParen]);
      ShiftAllOne(s, LParen);
      OrComplete(o, s + [LParen]);
      var x := SymOr(o);
      ShiftAllOne(s + [LParen] + [x], RParen);
      var t := s + [LParen] + [x] + [RParen];
      assert t[..|s|] == s && t[|s|] == LParen && t[|s| + 1] == x && t[|s| + 2] == RParen;
      assert Step(t) == s + [Chk(ExprTree(x))];
  }

  lemma {:induction false} AndComplete(p: AndPhrase, s: seq<Sym>)
    requires Fresh(s)
    ensures ShiftAll(s, YieldAnd(p)) == s + [SymAnd(p)]
    decreases p
  {
    match p
    case AndUnit(n) =>
      NotComplete(n, s);
      ShiftFirst(s, TreeNot(n));
    case AndSnoc(a, n) =>
      AndComplete(a, s);
      OperandComplete(s, YieldAnd(a), SymAnd(a), AndWord, n);
  }

  /** After `u` has left `left` on the stack, `op` and a Not phrase are joined to it. */
  lemma {:induction false} OperandComplete(s: seq<Sym>, u: seq<Sym>, left: Sym, op: Sym, n: NotPhrase)
    requires Joins(left, op)
    requires ShiftAll(s, u) == s + [left]
    ensures ShiftAll(s, u + [op] + YieldNot(n)) == s + [Join(left, op, TreeNot(n))]
    decreases n, 1
  {
    ShiftAllAppend(s, u + [op], YieldNot(n));
    ShiftAllAppend(s, u, [op]);
    ShiftAllOne(s + [left], op);
    PushOnly(s + [left], op);
    assert s + [left] + [op] == s + [left, op];
    NotComplete(n, s + [left, op]);
    ShiftOperand(s, left, op, TreeNot(n));
  }

  lemma JoinOr(left: Sym, c: Check)
    requires IsExpr(left)
    ensures Join(left, OrWord, c) == OrExpr(Disjuncts(left) + [c])
  {
    assert !left.OrExpr? ==> [ExprTree(left)] + [c] == [ExprTree(left), c];
  }

  /** The late repair: a conjunction parsed behind a pending `or`. */
  lemma {:induction false} RepairComplete(p: AndPhrase, s: seq<Sym>, u: seq<Sym>, left: Sym)
    requires IsExpr(left)
    requires ShiftAll(s, u) == s + [left]
    ensures ShiftAll(s, u + [OrWord] + YieldAnd(p))
         == s + [OrExpr(Disjuncts(left) + [Repaired(p)])]
    decreases p
  {
    match p
    case AndUnit(n) =>
      OperandComplete(s, u, left, OrWord, n);
      JoinOr(left, TreeNot(n));
    case AndSnoc(a, n) =>
      RepairComplete(a, s, u, left);
      var before := Disjuncts(left);
      var x := OrExpr(before + [Repaired(a)]);
      OperandComplete(s, u + [OrWord] + YieldAnd(a), x, AndWord, n);
      assert u + [OrWord] + YieldAnd(a) + [AndWord] + YieldNot(n) == u + [OrWord] + YieldAnd(p);
      assert x.rules[..|x.rules| - 1] == before;
      assert Mix(x.rules, TreeNot(n)) == before + [Repaired(p)];
  }

  /** A whole expression leaves exactly one symbol. */
  lemma {:induction false} OrComplete(p: OrPhrase, s: seq<Sym>)
    requires Fresh(s)
    ensures ShiftAll(s, YieldOr(p)) == s + [SymOr(p)]
    decreases p
  {
    match p
    case OrUnit(a) =>
      AndComplete(a, s);
    case OrSnoc(o, a) =>
      OrComplete(o, s);
      RepairComplete(a, s, YieldOr(o), SymOr(o));
  }

  // ---------------------------------------------------------------- meaning

  lemma EvalMix(last: Check, c: Check, v: Valuation)
    ensures Eval(Mix([last], c)[0], v) == (Eval(last, v) && Eval(c, v))
  {
    if last.AndCheck? {
      EvalAndSnoc(last.rules, c, v);
    } else {
      EvalPair(last, c, v);
    }
  }

  lemma EvalPair(a: Check, b: Check, v: Valuation)
    ensures Eval(AndCheck([a, b]), v) == (Eval(a, v) && Eval(b, v))
    ensures Eval(OrCheck([a, b]), v) == (Eval(a, v) || Eval(b, v))
  {
    assert [a, b][0] == a && [a, b][1] == b;
  }

  lemma {:induction false} MeaningOfNot(p: NotPhrase, v: Valuation)
    ensures Eval(TreeNot(p), v) == MeaningNot(p, v)
    decreases p
  {
    match p
    case Atom(c) =>
    case Negated(q) => MeaningOfNot(q, v);
    case Group(o) => MeaningOfOr(o, v);
  }

  lemma {:induction false} MeaningOfAnd(p: AndPhrase, v: Valuation)
    ensures Eval(ExprTree(SymAnd(p)), v) == MeaningAnd(p, v)
    ensures Eval(Repaired(p), v) == MeaningAnd(p, v)
    decreases p
  {
    match p
    case AndUnit(n) =>
      MeaningOfNot(n, v);
    case AndSnoc(a, n) =>
      MeaningOfAnd(a, v);
      MeaningOfNot(n, v);
      EvalMix(Repaired(a), TreeNot(n), v);
      match SymAnd(a)
      case Chk(c) => EvalPair(c, TreeNot(n), v);
      case AndExpr(rs) => EvalAndSnoc(rs, TreeNot(n), v);
  }

  lemma {:induction false} MeaningOfOr(p: OrPhrase, v: Valuation)
    ensures Eval(ExprTree(SymOr(p)), v) == MeaningOr(p, v)
    decreases p
  {
    match p
    case OrUnit(a) =>
      MeaningOfAnd(a, v);
    case OrSnoc(o, a) =>
      MeaningOfOr(o, v);
      MeaningOfAnd(a, v);
      var x := SymOr(o);
      EvalOrSnoc(Disjuncts(x), Repaired(a), v);
      assert !x.OrExpr? ==> Disjuncts(x)[0] == ExprTree(x);
  }

  // ---------------------------------------------------------------- soundness

  /** The token list `w` is a phrase of the kind the stack symbol `x` stands for. */
  ghost predicate Spells(x: Sym, w: seq<Sym>) {
    match x
    case Chk(_) => exists p: NotPhrase :: YieldNot(p) == w
    case AndExpr(_) => exists p: AndPhrase :: YieldAnd(p) == w
    case OrExpr(rs) => rs != [] && exists p: OrPhrase :: YieldOr(p) == w
    case _ => w == [x]
  }

  /** `w` splits into phrases spelled by the symbols of the stack, in order. */
  ghost predicate SpellsAll(s: seq<Sym>, w: seq<Sym>)
    decreases |s|
  {
    if s == [] then w == []
    else exists k | 0 <= k <= |w| :: SpellsAll(s[..|s| - 1], w[..k]) && Spells(s[|s| - 1], w[k..])
  }

  lemma SpellsPush(s: seq<Sym>, w: seq<Sym>, x: Sym, u: seq<Sym>)
    requires SpellsAll(s, w) && Spells(x, u)
    ensures SpellsAll(s + [x], w + u)
  {
    var t, z := s + [x], w + u;
    assert t[..|t| - 1] == s;
    assert z[..|w|] == w && z[|w|..] == u;
    assert SpellsAll(t[..|t| - 1], z[..|w|]) && Spells(t[|t| - 1], z[|w|..]);
  }

  lemma SpellsPop(s: seq<Sym>, w: seq<Sym>) returns (u: seq<Sym>, z: seq<Sym>)
    requires s != [] && SpellsAll(s, w)
    ensures w == u + z && SpellsAll(s[..|s| - 1], u) && Spells(s[|s| - 1], z)
  {
    var k :| 0 <= k <= |w| && SpellsAll(s[..|s| - 1], w[..k]) && Spells(s[|s| - 1], w[k..]);
    u, z := w[..k], w[k..];
  }

  /** Every expression symbol spells an Or phrase, and everything but an or_expr an And phrase. */
  lemma SpellsWiden(x: Sym, w: seq<Sym>)
    requires IsExpr(x) && Spells(x, w)
    ensures InLanguage(w)
    ensures !x.OrExpr? ==> exists p: AndPhrase :: YieldAnd(p) == w
  {
    match x
    case Chk(_) =>
      var p: NotPhrase :| YieldNot(p) == w;
      assert YieldAnd(AndUnit(p)) == w;
      assert YieldOr(OrUnit(AndUnit(p))) == w;
    case AndExpr(_) =>
      var p: AndPhrase :| YieldAnd(p) == w;
      assert YieldOr(OrUnit(p)) == w;
    case OrExpr(_) =>
  }

  lemma SpellsWrap(x: Sym, w: seq<Sym>, c: Check)
    requires IsExpr(x) && Spells(x, w)
    ensures Spells(Chk(c), [LParen] + w + [RParen])
  {
    SpellsWiden(x, w);
    var p: OrPhrase :| YieldOr(p) == w;
    assert YieldNot(Group(p)) == [LParen] + w + [RParen];
  }

  lemma SpellsNegate(w: seq<Sym>, c: Check, d: Check)
    requires Spells(Chk(c), w)
    ensures Spells(Chk(d), [NotWord] + w)
  {
    var p: NotPhrase :| YieldNot(p) == w;
    assert YieldNot(Negated(p)) == [NotWord] + w;
  }

  lemma SpellsJoin(left: Sym, w: seq<Sym>, op: Sym, c: Check, u: seq<Sym>)
    requires Joins(left, op) && Spells(left, w) && Spells(Chk(c), u)
    ensures Spells(Join(left, op, c), w + [op] + u)
  {
    SpellsWiden(left, w);
    var n: NotPhrase :| YieldNot(n) == u;
    if op.OrWord? {
      var o: OrPhrase :| YieldOr(o) == w;
      assert YieldOr(OrSnoc(o, AndUnit(n))) == w + [op] + u;
    } else if left.OrExpr? {
      var o: OrPhrase :| YieldOr(o) == w;
      AndInsideOr(o, n);
    } else {
      var a: AndPhrase :| YieldAnd(a) == w;
      assert YieldAnd(AndSnoc(a, n)) == w + [op] + u;
    }
  }

  /** `Or and Not` is an Or phrase: the conjunct extends the last And phrase. */
  lemma AndInsideOr(o: OrPhrase, n: NotPhrase)
    ensures InLanguage(YieldOr(o) + [AndWord] + YieldNot(n))
  {
    var w := YieldOr(o) + [AndWord] + YieldNot(n);
    match o
    case OrUnit(a) =>
      assert YieldOr(OrUnit(AndSnoc(a, n))) == w;
    case OrSnoc(o', a) =>
      assert YieldOr(OrSnoc(o', AndSnoc(a, n))) == w;
  }

  lemma SpellsPop2(s: seq<Sym>, w: seq<Sym>) returns (u: seq<Sym>, y: seq<Sym>, z: seq<Sym>)
    requires |s| >= 2 && SpellsAll(s, w)
    ensures w == u + y + z && SpellsAll(s[..|s| - 2], u)
    ensures Spells(s[|s| - 2], y) && Spells(s[|s| - 1], z)
  {
    var t;
    t, z := SpellsPop(s, w);
    var s' := s[..|s| - 1];
    u, y := SpellsPop(s', t);
    assert s'[..|s'| - 1] == s[..|s| - 2];
  }

  lemma SpellsPop3(s: seq<Sym>, w: seq<Sym>) returns (u: seq<Sym>, x: seq<Sym>, y: seq<Sym>, z: seq<Sym>)
    requires |s| >= 3 && SpellsAll(s, w)
    ensures w == u + x + y + z && SpellsAll(s[..|s| - 3], u)
    ensures Spells(s[|s| - 3], x) && Spells(s[|s| - 2], y) && Spells(s[|s| - 1], z)
  {
    var t;
    t, y, z := SpellsPop2(s, w);
    var s' := s[..|s| - 2];
    u, x := SpellsPop(s', t);
    assert s'[..|s'| - 1] == s[..|s| - 3];
  }

  lemma StepSound(s: seq<Sym>, w: seq<Sym>)
    requires Reducible(s) && SpellsAll(s, w)
    ensures SpellsAll(Step(s), w)
  {
    var n := |s|;
    if s[n-1].RParen? {
      WrapSound(s, w);
    } else if s[n-2].NotWord? {
      var u, y, z := SpellsPop2(s, w);
      SpellsNegate(z, s[n-1].c, NotCheck(s[n-1].c));
      SpellsPush(s[..n-2], u, Chk(NotCheck(s[n-1].c)), [NotWord] + z);
      assert u + ([NotWord] + z) == w;
    } else {
      JoinSound(s, w);
    }
  }

  lemma WrapSound(s: seq<Sym>, w: seq<Sym>)
    requires Reducible(s) && SpellsAll(s, w) && s[|s| - 1].RParen?
    ensures SpellsAll(Step(s), w)
  {
    var n := |s|;
    var u, x, y, z := SpellsPop3(s, w);
    SpellsWrap(s[n-2], y, ExprTree(s[n-2]));
    SpellsPush(s[..n-3], u, Chk(ExprTree(s[n-2])), [LParen] + y + [RParen]);
    assert x == [LParen] && z == [RParen];
    assert u + ([LParen] + y + [RParen]) == w;
  }

  lemma JoinSound(s: seq<Sym>, w: seq<Sym>)
    requires Reducible(s) && SpellsAll(s, w) && s[|s| - 1].Chk? && !s[|s| - 2].NotWord?
    ensures SpellsAll(Step(s), w)
  {
    var n := |s|;
    var u, x, y, z := SpellsPop3(s, w);
    var op, c := s[n-2], s[n-1].c;
    assert y == [op];
    SpellsJoin(s[n-3], x, op, c, z);
    SpellsPush(s[..n-3], u, Join(s[n-3], op, c), x + [op] + z);
    assert u + (x + [op] + z) == w;
  }

  lemma {:induction false} ReduceSound(s: seq<Sym>, w: seq<Sym>)
    requires SpellsAll(s, w)
    ensures SpellsAll(Reduce(s), w)
    decreases |s|
  {
    if Reducible(s) {
      StepSound(s, w);
      ReduceSound(Step(s), w);
    }
  }

  lemma {:induction false} ShiftAllSound(s: seq<Sym>, u: seq<Sym>, w: seq<Sym>)
    requires SpellsAll(s, u) && (forall i | 0 <= i < |w| :: IsTerminal(w[i]))
    ensures SpellsAll(ShiftAll(s, w), u + w)
    decreases |w|
  {
    if w == [] {
      assert u + w == u;
    } else {
      if w[0].Chk? {
        assert YieldNot(Atom(w[0].c)) == [w[0]];
      }
      SpellsPush(s, u, w[0], [w[0]]);
      ReduceSound(s + [w[0]], u + [w[0]]);
      ShiftAllSound(Shift(s, w[0]), u + [w[0]], w[1..]);
      assert u + [w[0]] + w[1..] == u + w;
    }
  }

  lemma SpellsOne(x: Sym, w: seq<Sym>)
    requires SpellsAll([x], w)
    ensures Spells(x, w)
  {
    var u, z := SpellsPop([x], w);
    assert [x][..0] == [];
    assert w == z;
  }

  // ---------------------------------------------------------------- main results

  /** What parseRule makes of a token list; the last case is the failing type assertion. */
  datatype Outcome = Parsed(c: Check) | CastPanic

  function ParseTokens(w: seq<Sym>): Outcome {
    var s := ShiftAll([], w);
    if |s| != 1 then Parsed(FalseCheck)
    else if IsExpr(s[0]) then Parsed(ExprTree(s[0]))
    else CastPanic
  }

  predicate Accepts(w: seq<Sym>) {
    var s := ShiftAll([], w);
    |s| == 1 && IsExpr(s[0])
  }

  /** The parser accepts exactly the rule language. */
  lemma AcceptsExactlyTheLanguage(w: seq<Sym>)
    requires forall i | 0 <= i < |w| :: IsTerminal(w[i])
    ensures Accepts(w) <==> InLanguage(w)
  {
    var s := ShiftAll([], w);
    ShiftAllSound([], [], w);
    assert [] + w == w;
    if Accepts(w) {
      assert s == [s[0]];
      SpellsOne(s[0], w);
      SpellsWiden(s[0], w);
    }
    if InLanguage(w) {
      var p: OrPhrase :| YieldOr(p) == w;
      OrComplete(p, []);
    }
  }

  /** The check built for a derivable list means what the grammar says, for every derivation. */
  lemma ParsedMeaning(p: OrPhrase, v: Valuation)
    ensures ParseTokens(YieldOr(p)).Parsed?
    ensures Eval(ParseTokens(YieldOr(p)).c, v) == MeaningOr(p, v)
  {
    OrComplete(p, []);
    assert [] + [SymOr(p)] == [SymOr(p)];
    MeaningOfOr(p, v);
  }

  /** The grammar is unambiguous in meaning. */
  lemma MeaningIsUnique(p: OrPhrase, q: OrPhrase, v: Valuation)
    requires YieldOr(p) == YieldOr(q)
    ensures MeaningOr(p, v) == MeaningOr(q, v)
  {
    ParsedMeaning(p, v);
    ParsedMeaning(q, v);
  }

  /** A list outside the language denies, unless it is one lone token that is no check. */
  lemma RejectedMeaning(w: seq<Sym>)
    requires forall i | 0 <= i < |w| :: IsTerminal(w[i])
    ensures ParseTokens(w).CastPanic? <==> |w| == 1 && !w[0].Chk?
    ensures !InLanguage(w) && !(|w| == 1 && !w[0].Chk?) ==> ParseTokens(w) == Parsed(FalseCheck)
  {
    var s := ShiftAll([], w);
    ShiftAllSound([], [], w);
    assert [] + w == w;
    if ParseTokens(w).CastPanic? {
      assert s == [s[0]];
      SpellsOne(s[0], w);
      assert w[0] == s[0];
    }
    if |w| == 1 && !w[0].Chk? {
      assert w == [w[0]];
      ShiftAllOne([], w[0]);
      assert [] + w == w;
      assert ShiftAll([], w) == Reduce(w) == w;
    }
    AcceptsExactlyTheLanguage(w);
  }
}
