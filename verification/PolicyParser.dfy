// parseRule of api/pkg/policy/parser.go: tokenizing, shifting and the final cast.
module PolicyParser {
  import opened Checks
  import opened Grammar
  import opened Reduction
  import opened Vocabulary
  import opened Tokenizer
  import opened CheckObjects
  import opened ParseStates
  import opened RoundTrip
  import opened Meaning

  /** The object parseCheck returns for an atom. */
  function AtomPtr(c: AtomCheck): BaseCheck {
    match c
    case FalseCheck => FalsePtr
    case TrueCheck => TruePtr
    case RuleCheck(k, b) => RulePtr(k, b)
    case RoleCheck(k, b) => RolePtr(k, b)
    case GenericCheck(k, b) => GenericPtr(k, b)
  }

  function PairValue(tp: TokenPair): Value {
    match tp
    case TextPair(_, text) => TextVal(text)
    case CheckPair(c) => CheckVal(AtomPtr(c))
  }

  lemma PairRepresents(tp: TokenPair)
    ensures RepSym(PairValue(tp), SymOfPair(tp), {})
  {}

  lemma ShiftAllSnoc(s: seq<Sym>, w: seq<Sym>, x: Sym)
    ensures ShiftAll(s, w + [x]) == Shift(ShiftAll(s, w), x)
  {
    ShiftAllAppend(s, w, [x]);
    ShiftAllOne(ShiftAll(s, w), x);
  }

  /** The loop of parseRule that shifts every token pair. */
  method ShiftTokens(tokPairs: seq<TokenPair>) returns (state: ParseState)
    ensures fresh(state) && state.Valid() && fresh(state.Repr)
    ensures state.stack == ShiftAll([], Syms(tokPairs))
  {
    state := new ParseState();
    for i := 0 to |tokPairs|
      invariant fresh(state) && state.Valid() && fresh(state.Repr)
      invariant state.stack == ShiftAll([], Syms(tokPairs[..i]))
    {
      var tp := tokPairs[i];
      PairRepresents(tp);
      state.Shift(TokenOf(SymOfPair(tp)), PairValue(tp), SymOfPair(tp), {});
      ShiftAllSnoc([], Syms(tokPairs[..i]), SymOfPair(tp));
      assert Syms(tokPairs[..i + 1]) == Syms(tokPairs[..i]) + [SymOfPair(tp)];
    }
    assert tokPairs[..|tokPairs|] == tokPairs;
  }

  lemma RuleMeans(rule: string)
    ensures ParseText(rule).Parsed? <==> !Panics(rule)
    ensures !Panics(rule) ==> forall v :: Eval(ParseText(rule).c, v) <==> Means(rule, v)
  {
    TextMeans(rule, c => false);
    forall v ensures !Panics(rule) ==> (Eval(ParseText(rule).c, v) <==> Means(rule, v)) {
      TextMeans(rule, v);
    }
  }

  lemma BlankRule(rule: string)
    requires rule != "" && forall i | 0 <= i < |rule| :: Tokenizer.IsSpace(rule[i])
    ensures !Panics(rule) && forall v :: !Means(rule, v)
  {
    BlankMeans(rule, c => false);
    forall v ensures !Means(rule, v) {
      BlankMeans(rule, v);
    }
  }

  lemma DerivedRule(rule: string, p: OrPhrase)
    requires rule != "" && YieldOr(p) == Read(rule)
    ensures !Panics(rule) && forall v :: Means(rule, v) <==> MeaningOr(p, v)
  {
    MeansDerivation(rule, p, c => false);
    forall v ensures Means(rule, v) <==> MeaningOr(p, v) {
      MeansDerivation(rule, p, v);
    }
  }

  /** The objects built for a rule text store a tree that means what the text does; `ok` is false where the
      type assertion on the result panics. */
  method ParseRule(rule: string) returns (ok: bool, result: BaseCheck, ghost fp: set<object>)
    ensures fresh(fp)
    ensures ok <==> ParseText(rule).Parsed?
    ensures ok ==> Rep(result, ParseText(rule).c, fp)
    ensures ok <==> !Panics(rule)
    ensures ok ==> forall v :: Eval(ParseText(rule).c, v) <==> Means(rule, v)
    // in particular: the empty text, blank texts, and texts with a derivation
    ensures rule == "" ==> ok && forall v :: Eval(ParseText(rule).c, v)
    ensures rule != "" && (forall i | 0 <= i < |rule| :: Tokenizer.IsSpace(rule[i])) ==>
      ok && forall v :: !Eval(ParseText(rule).c, v)
    ensures rule != "" ==> forall p: OrPhrase | YieldOr(p) == Read(rule) ::
      ok && forall v :: Eval(ParseText(rule).c, v) <==> MeaningOr(p, v)
  {
    RuleMeans(rule);
    if rule != "" && forall i | 0 <= i < |rule| :: Tokenizer.IsSpace(rule[i]) {
      BlankRule(rule);
    }
    if rule != "" {
      forall p: OrPhrase | YieldOr(p) == Read(rule)
        ensures !Panics(rule) && forall v :: Eval(ParseText(rule).c, v) <==> MeaningOr(p, v)
      {
        DerivedRule(rule, p);
      }
    }
    if rule == "" {
      return true, TruePtr, {};
    }
    var tokPairs := ParseTokenize(rule);
    var state := ShiftTokens(tokPairs);
    var value, single := state.Result();
    if !single {
      return true, FalsePtr, {};
    }
    if value.CheckVal? {
      return true, value.check, state.parts[0];
    }
    return false, FalsePtr, {};
  }
}
