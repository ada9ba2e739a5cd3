// ParseState of parser.go: two slices updated in place by Shift and reduce, whose table is
// walked in the random order of a Go map with a token string computed once per call.
module ParseStates {
  import opened Checks
  import opened Grammar
  import opened Reduction
  import opened Segments
  import opened Vocabulary
  import opened CheckObjects

  /** A stack value: the text of a keyword, parenthesis or quoted string, or a check. */
  datatype Value = TextVal(text: string) | CheckVal(check: BaseCheck)

  /** The value `v` is what the symbol `x` stands for; the type assertions of the reduce
      functions succeed on it. */
  ghost predicate RepSym(v: Value, x: Sym, fp: set<object>)
    reads fp
  {
    match x
    case Chk(c) => v.CheckVal? && Rep(v.check, c, fp)
    case AndExpr(rs) => v.CheckVal? && v.check.AndPtr? && RepList(v.check.list, rs, fp)
    case OrExpr(rs) => v.CheckVal? && v.check.OrPtr? && rs != [] && RepList(v.check.list, rs, fp)
    case _ => v.TextVal?
  }

  method MakeAndExpr(args: seq<Value>, ghost a: Check, ghost fa: set<object>, ghost c: Check, ghost fc: set<object>)
    returns (val: Value, ghost part: set<object>)
    requires |args| == 3 && args[0].CheckVal? && args[2].CheckVal?
    requires Rep(args[0].check, a, fa) && Rep(args[2].check, c, fc) && fa !! fc
    ensures RepSym(val, AndExpr([a, c]), part)
    ensures fa + fc <= part && fresh(part - fa - fc)
  {
    var l := NewList(args[0].check, args[2].check, a, fa, c, fc);
    val, part := CheckVal(AndPtr(l)), {l} + fa + fc;
  }

  method MakeOrExpr(args: seq<Value>, ghost a: Check, ghost fa: set<object>, ghost c: Check, ghost fc: set<object>)
    returns (val: Value, ghost part: set<object>)
    requires |args| == 3 && args[0].CheckVal? && args[2].CheckVal?
    requires Rep(args[0].check, a, fa) && Rep(args[2].check, c, fc) && fa !! fc
    ensures RepSym(val, OrExpr([a, c]), part)
    ensures fa + fc <= part && fresh(part - fa - fc)
  {
    var l := NewList(args[0].check, args[2].check, a, fa, c, fc);
    val, part := CheckVal(OrPtr(l)), {l} + fa + fc;
  }

  /** extendAndExpr and extendOrExpr: the operand is appended to the existing object. */
  method ExtendExpr(args: seq<Value>, ghost x: Sym, ghost fx: set<object>, ghost c: Check, ghost fc: set<object>)
    returns (val: Value, ghost part: set<object>)
    requires |args| == 3 && args[2].CheckVal? && (x.AndExpr? || x.OrExpr?)
    requires RepSym(args[0], x, fx) && Rep(args[2].check, c, fc) && fx !! fc
    modifies fx
    ensures RepSym(val, x.(rules := x.rules + [c]), part)
    ensures part == fx + fc
  {
    args[0].check.list.AddCheck(args[2].check, x.rules, fx, c, fc);
    val, part := args[0], fx + fc;
  }

  /** The conjunction mixOrAndExpr builds from the popped disjunct. */
  method Conjoin(last: BaseCheck, c: BaseCheck, ghost tl: Check, ghost fl: set<object>, ghost tc: Check, ghost fc: set<object>)
    returns (r: BaseCheck, ghost part: set<object>)
    requires Rep(last, tl, fl) && Rep(c, tc, fc) && fl !! fc
    modifies fl
    ensures Rep(r, Mix([tl], tc)[0], part)
    ensures fl + fc <= part && fresh(part - fl - fc)
  {
    if last.AndPtr? {
      last.list.AddCheck(c, tl.rules, fl, tc, fc);
      r, part := last, fl + fc;
    } else {
      var l := NewList(last, c, tl, fl, tc, fc);
      r, part := AndPtr(l), {l} + fl + fc;
    }
  }

  method MixOrAndExpr(args: seq<Value>, ghost rs: seq<Check>, ghost fx: set<object>, ghost c: Check, ghost fc: set<object>)
    returns (val: Value, ghost part: set<object>)
    requires |args| == 3 && args[2].CheckVal?
    requires RepSym(args[0], OrExpr(rs), fx) && Rep(args[2].check, c, fc) && fx !! fc
    modifies fx
    ensures RepSym(val, OrExpr(Mix(rs, c)), part)
    ensures fx + fc <= part && fresh(part - fx - fc)
  {
    var orList := args[0].check.list;
    ghost var front, last := rs[..|rs| - 1], rs[|rs| - 1];
    var check1, p1 := orList.PopCheck(rs, fx);
    var andExpr, p2 := Conjoin(check1, args[2].check, last, p1, c, fc);
    orList.AddCheck(andExpr, front, fx - p1, Mix([last], c)[0], p2);
    assert front + [Mix([last], c)[0]] == Mix(rs, c);
    val, part := args[0], fx - p1 + p2;
  }

  /** The token and value the reduce function of `p` makes of the popped arguments. */
  method Call(p: Production, args: seq<Value>, ghost syms: seq<Sym>, ghost fps: seq<set<object>>, ghost own: set<object>)
    returns (tok: Token, val: Value, ghost part: set<object>)
    requires |args| == |syms| == |fps| == |KeyTokens(p)| && own == fps[0] + fps[1] + fps[|fps| - 1]
    requires Reducible(syms) && Entry(syms) == p
    requires forall i | 0 <= i < |args| :: RepSym(args[i], syms[i], fps[i])
    requires forall i, j | 0 <= i < j < |args| :: fps[i] !! fps[j]
    modifies fps[0]
    ensures Step(syms) == [TopOf(syms)] && tok == TokenOf(TopOf(syms))
    ensures RepSym(val, TopOf(syms), part)
    ensures fresh(part - own)
  {
    match p
    case WrapCheck | WrapAnd | WrapOr =>
      tok, val, part := TCheck, args[1], fps[1];
    case MakeAnd =>
      tok := TAndExpr;
      val, part := MakeAndExpr(args, syms[0].c, fps[0], syms[2].c, fps[2]);
    case ExtendAnd =>
      tok := TAndExpr;
      val, part := ExtendExpr(args, syms[0], fps[0], syms[2].c, fps[2]);
    case MixOrAnd =>
      tok := TOrExpr;
      val, part := MixOrAndExpr(args, syms[0].rules, fps[0], syms[2].c, fps[2]);
    case MakeOr | MakeOrFromAnd =>
      tok := TOrExpr;
      val, part := MakeOrExpr(args, ExprTree(syms[0]), fps[0], syms[2].c, fps[2]);
    case ExtendOr =>
      tok := TOrExpr;
      val, part := ExtendExpr(args, syms[0], fps[0], syms[2].c, fps[2]);
    case MakeNot =>
      tok, val, part := TCheck, CheckVal(NotPtr(args[1].check)), fps[1];
  }

  /** The symbol a reducible two- or three-symbol stack is replaced by. */
  ghost function TopOf(syms: seq<Sym>): Sym
    requires Reducible(syms)
  {
    Step(syms)[|Step(syms)| - 1]
  }

  /** strings.Count(key, ",") + 1 */
  method ArgNum(p: Production) returns (n: nat)
    ensures n == |KeyTokens(p)|
  {
    ArgumentCount(p);
    n := Commas(Key(p)) + 1;
  }

  class ParseState {
    var tokens: seq<Token>
    var values: seq<Value>
    ghost var stack: seq<Sym>
    ghost var parts: seq<set<object>>
    ghost var Repr: set<object>

    /** Both slices describe the same symbols, and every check object belongs to one slot. */
    ghost predicate Valid()
      reads this, Repr
    {
      && this in Repr
      && |values| == |parts| == |stack|
      && tokens == Tokens(stack)
      && (forall i | 0 <= i < |stack| :: parts[i] <= Repr - {this} && RepSym(values[i], stack[i], parts[i]))
      && (forall i, j | 0 <= i < j < |stack| :: parts[i] !! parts[j])
    }

    constructor ()
      ensures Valid() && fresh(Repr) && stack == []
    {
      tokens, values := [], [];
      stack, parts, Repr := [], [], {this};
    }

    lemma ValidStack()
      requires Valid()
      ensures WellFormed(stack)
    {
      forall i | 0 <= i < |stack| && stack[i].OrExpr? ensures stack[i].rules != [] {
        assert RepSym(values[i], stack[i], parts[i]);
      }
    }

    /** The slots from `k` on, as the reduce functions receive them. */
    lemma Arguments(k: nat)
      requires Valid() && k <= |stack|
      ensures forall i | 0 <= i < |stack| - k :: RepSym(values[k..][i], stack[k..][i], parts[k..][i])
      ensures forall i, j | 0 <= i < j < |stack| - k :: parts[k..][i] !! parts[k..][j]
      ensures forall i, j | 0 <= i < k && 0 <= j < |stack| - k :: parts[i] !! parts[k..][j]
      ensures forall j | 0 <= j < |stack| - k :: parts[k..][j] <= Repr - {this}
    {}

    /** One table entry applied to the top of both slices. */
    method Apply(p: Production)
      requires Valid() && Reducible(stack) && Entry(stack) == p
      modifies Repr
      ensures Valid() && fresh(Repr - old(Repr))
      ensures stack == Step(old(stack))
    {
      var argNum := ArgNum(p);
      ghost var k, after := TopStep(stack, p);
      ReplaceTop(p, |values| - argNum, after);
    }

    method ReplaceTop(p: Production, argIdx: nat, ghost after: seq<Sym>)
      requires Valid() && argIdx + |KeyTokens(p)| == |stack|
      requires Reducible(stack[argIdx..]) && Entry(stack[argIdx..]) == p
      requires after == stack[..argIdx] + [TopOf(stack[argIdx..])]
      modifies Repr
      ensures Valid() && fresh(Repr - old(Repr))
      ensures stack == after
    {
      ghost var top := TopOf(stack[argIdx..]);
      var tok, val, part := CallTop(p, argIdx, top);
      Replace(argIdx, tok, val, top, part);
    }

    /** The reduce function gets the popped values; the slots below keep theirs. */
    method CallTop(p: Production, argIdx: nat, ghost top: Sym) returns (tok: Token, val: Value, ghost part: set<object>)
      requires Valid() && argIdx + |KeyTokens(p)| == |stack|
      requires Reducible(stack[argIdx..]) && Entry(stack[argIdx..]) == p && top == TopOf(stack[argIdx..])
      modifies Repr - {this}
      ensures forall i | 0 <= i < argIdx :: RepSym(values[i], stack[i], parts[i]) && parts[i] !! part
      ensures tok == TokenOf(top) && RepSym(val, top, part) && this !in part && fresh(part - Repr)
    {
      ghost var syms, fps := stack[argIdx..], parts[argIdx..];
      Arguments(argIdx);
      assert |fps| >= 2;
      ghost var own := fps[0] + fps[1] + fps[|fps| - 1];
      assert own <= Repr - {this};
      forall i | 0 <= i < argIdx ensures parts[i] !! own {}
      tok, val, part := Call(p, values[argIdx..], syms, fps, own);
    }

    /** Slots below `k` stay, the slots from `k` on are replaced by one. */
    method Replace(k: nat, tok: Token, val: Value, ghost sym: Sym, ghost part: set<object>)
      requires this in Repr && k <= |values| == |parts| == |stack| && tokens == Tokens(stack)
      requires forall i | 0 <= i < k :: parts[i] <= Repr - {this} && RepSym(values[i], stack[i], parts[i])
      requires forall i, j | 0 <= i < j < k :: parts[i] !! parts[j]
      requires tok == TokenOf(sym) && RepSym(val, sym, part) && this !in part
      requires forall i | 0 <= i < k :: parts[i] !! part
      modifies this
      ensures Valid() && Repr == old(Repr) + part
      ensures stack == old(stack[..k]) + [sym]
    {
      tokens := tokens[..k] + [tok];
      values := values[..k] + [val];
      stack := stack[..k] + [sym];
      parts := parts[..k] + [part];
      Repr := Repr + part;
    }

    /** reduce(): the table is walked in any order, with the token string of the first moment even
        after a recursive call has changed the slices. The result does not depend on the order. */
    method Reduce()
      requires Valid()
      modifies Repr
      ensures Valid() && fresh(Repr - old(Repr))
      ensures stack == Reduction.Reduce(old(stack))
      decreases |stack|, 2
    {
      ghost var before := stack;
      ValidStack();
      var tokenStr := Joined(Names(tokens));
      ghost var fired: set<Production> := {};
      var remaining := ALL;
      while remaining != {}
        invariant Valid() && fresh(Repr - old(Repr))
        invariant Progress(before, fired, remaining) && stack == Expected(before, fired)
      {
        var p :| p in remaining;
        assert remaining - {p} + {p} == remaining;
        remaining := remaining - {p};
        fired := Visit(p, tokenStr, before, fired, remaining);
      }
      AllVisited(before, fired);
    }

    /** The body of the loop. */
    method Visit(p: Production, tokenStr: string, ghost before: seq<Sym>, ghost fired: set<Production>,
                 ghost remaining: set<Production>)
      returns (ghost nowFired: set<Production>)
      requires Valid() && WellFormed(before) && tokenStr == Joined(Names(Tokens(before))) && p !in remaining
      requires Progress(before, fired, remaining + {p}) && stack == Expected(before, fired)
      modifies Repr
      ensures Valid() && fresh(Repr - old(Repr))
      ensures Progress(before, nowFired, remaining) && stack == Expected(before, nowFired)
      decreases |before|, 1
    {
      nowFired := fired;
      if HasSuffix(tokenStr, Key(p)) {
        FiresOnce(before, p, fired, remaining);
        Fire(p);
        nowFired := {p};
      } else {
        SkipKey(before, p, fired, remaining);
      }
    }

    /** The body of the loop once a key has matched. */
    method Fire(p: Production)
      requires Valid() && Reducible(stack) && Entry(stack) == p
      modifies Repr
      ensures Valid() && fresh(Repr - old(Repr))
      ensures stack == Reduction.Reduce(old(stack))
      decreases |stack|, 0
    {
      Apply(p);
      Reduce();
    }

    method Shift(tok: Token, val: Value, ghost sym: Sym, ghost part: set<object>)
      requires Valid() && tok == TokenOf(sym) && RepSym(val, sym, part) && part !! Repr
      modifies Repr, part
      ensures Valid() && fresh(Repr - old(Repr) - part)
      ensures stack == Reduction.Shift(old(stack), sym)
    {
      Replace(|tokens|, tok, val, sym, part);
      assert stack == old(stack) + [sym];
      Reduce();
    }

    /** Result(): the only value, or none when the rule could not be parsed. */
    method Result() returns (value: Value, ok: bool)
      requires Valid()
      ensures ok <==> |stack| == 1
      ensures ok ==> values == [value] && RepSym(value, stack[0], parts[0])
    {
      if |values| != 1 {
        return TextVal(""), false;
      }
      return values[0], true;
    }
  }

  /** The keys walked so far: those in `fired` matched the stack `s`, the others did not. */
  ghost predicate Progress(s: seq<Sym>, fired: set<Production>, remaining: set<Production>) {
    && fired !! remaining
    && (forall p | p in ALL :: p in remaining || (p in fired <==> Matches(Tokens(s), p)))
  }

  /** The key that matches now is the only one that can have matched before. */
  lemma FiresOnce(s: seq<Sym>, p: Production, fired: set<Production>, remaining: set<Production>)
    requires WellFormed(s) && Matches(Tokens(s), p) && p !in remaining
    requires Progress(s, fired, remaining + {p})
    ensures fired == {} && Reducible(s) && Entry(s) == p
    ensures Progress(s, {p}, remaining)
  {
    TableIsStep(s, p);
    forall q ensures q in ALL {
      AllProductions(q);
    }
    forall q | Matches(Tokens(s), q) ensures q == p {
      AtMostOneKey(Tokens(s), p, q);
    }
  }

  /** Nothing has matched yet, or everything is reduced already. */
  ghost function Expected(s: seq<Sym>, fired: set<Production>): seq<Sym> {
    if fired == {} then s else Reduction.Reduce(s)
  }

  lemma SkipKey(s: seq<Sym>, p: Production, fired: set<Production>, remaining: set<Production>)
    requires Progress(s, fired, remaining + {p}) && !Matches(Tokens(s), p)
    ensures Progress(s, fired, remaining)
  {}

  lemma AllVisited(s: seq<Sym>, fired: set<Production>)
    requires WellFormed(s) && Progress(s, fired, {})
    ensures Expected(s, fired) == Reduction.Reduce(s)
  {
    if Reducible(s) {
      TableIsStep(s, Entry(s));
      AllProductions(Entry(s));
    }
  }

  lemma AllProductions(p: Production)
    ensures p in ALL
  {}

  /** A step only looks at the arguments of its table entry. */
  lemma TopStep(s: seq<Sym>, p: Production) returns (k: nat, after: seq<Sym>)
    requires Reducible(s) && Entry(s) == p
    ensures k + |KeyTokens(p)| == |s|
    ensures Reducible(s[k..]) && Entry(s[k..]) == p
    ensures Step(s[k..]) == [TopOf(s[k..])]
    ensures after == Step(s) == s[..k] + [TopOf(s[k..])]
  {
    k, after := |s| - |KeyTokens(p)|, Step(s);
    TopReduces(s, k);
    StepOnTop(s, k);
  }

  lemma TopReduces(s: seq<Sym>, k: nat)
    requires Reducible(s) && k + |KeyTokens(Entry(s))| == |s|
    ensures Reducible(s[k..]) && Entry(s[k..]) == Entry(s)
  {}

  lemma StepOnTop(s: seq<Sym>, k: nat)
    requires Reducible(s) && k + |KeyTokens(Entry(s))| == |s| && Reducible(s[k..])
    ensures Step(s) == s[..k] + Step(s[k..]) && |Step(s[k..])| == 1
  {}
}
