// Parsing, printing and parsing again: the printed text of whatever a rule parses to is a normal
// form of the rule (api/pkg/policy/parser.go with the String methods of api/pkg/policy/checks.go).
module Normalize {
  import opened Checks
  import opened Grammar
  import opened Reduction
  import opened Vocabulary
  import opened Tokenizer
  import opened RoundTrip

  // ---------------------------------------------------------------- trees the parser builds

  predicate AtomsPrintable(w: seq<Sym>) {
    forall i | 0 <= i < |w| && w[i].Chk? :: Printable(w[i].c)
  }

  lemma AtomsConcat(u: seq<Sym>, w: seq<Sym>)
    requires AtomsPrintable(u + w)
    ensures AtomsPrintable(u) && AtomsPrintable(w)
  {
    assert forall i | 0 <= i < |u| :: (u + w)[i] == u[i];
    assert forall i | 0 <= i < |w| :: (u + w)[|u| + i] == w[i];
  }

  lemma {:induction false} NotPrintable(p: NotPhrase)
    requires AtomsPrintable(YieldNot(p))
    ensures Printable(TreeNot(p))
    decreases p
  {
    match p
    case Atom(c) =>
      assert YieldNot(p)[0] == Chk(c);
    case Negated(q) =>
      AtomsConcat([NotWord], YieldNot(q));
      NotPrintable(q);
    case Group(o) =>
      AtomsConcat([LParen] + YieldOr(o), [RParen]);
      AtomsConcat([LParen], YieldOr(o));
      OrPrintable(o);
  }

  /** Also the conjunction that the late repair builds. */
  lemma {:induction false} AndPrintable(p: AndPhrase)
    requires AtomsPrintable(YieldAnd(p))
    ensures Printable(ExprTree(SymAnd(p))) && Printable(Repaired(p))
    decreases p
  {
    match p
    case AndUnit(n) => NotPrintable(n);
    case AndSnoc(a, n) =>
      AtomsConcat(YieldAnd(a) + [AndWord], YieldNot(n));
      AtomsConcat(YieldAnd(a), [AndWord]);
      AndPrintable(a);
      NotPrintable(n);
  }

  lemma {:induction false} OrPrintable(p: OrPhrase)
    requires AtomsPrintable(YieldOr(p))
    ensures Printable(ExprTree(SymOr(p)))
    decreases p
  {
    match p
    case OrUnit(a) => AndPrintable(a);
    case OrSnoc(o, a) =>
      AtomsConcat(YieldOr(o) + [OrWord], YieldAnd(a));
      AtomsConcat(YieldOr(o), [OrWord]);
      OrPrintable(o);
      AndPrintable(a);
  }

  /** And/or nodes of a parsed tree always have two children or more. */
  lemma ParsedIsPrintable(w: seq<Sym>)
    requires (forall i | 0 <= i < |w| :: IsTerminal(w[i])) && AtomsPrintable(w)
    ensures ParseTokens(w).Parsed? ==> Printable(ParseTokens(w).c)
  {
    RejectedMeaning(w);
    if InLanguage(w) {
      var p: OrPhrase :| YieldOr(p) == w;
      OrPrintable(p);
      OrComplete(p, []);
      assert [] + [SymOr(p)] == [SymOr(p)];
    }
  }

  // ---------------------------------------------------------------- the atoms the tokenizer finds

  predicate Solid(w: string) {
    w != "" && forall i | 0 <= i < |w| :: !IsSpace(w[i])
  }

  /** What is left of a word without its parentheses can be printed. */
  lemma AtomIsPrintable(clean: string)
    requires Core(clean)
    ensures Printable(ParseCheck(clean))
  {
    var n := Colon(clean);
    if n < |clean| {
      assert clean == clean[..n] + ":" + clean[n + 1..];
    }
  }

  lemma {:induction false} FieldsAreSolid(s: string)
    ensures forall i | 0 <= i < |Fields(s)| :: Solid(Fields(s)[i])
    decreases |s|
  {
    if s != "" {
      if IsSpace(s[0]) {
        FieldsAreSolid(s[1..]);
      } else {
        FieldsAreSolid(s[WordLength(s)..]);
      }
    }
  }

  predicate ChecksPrintable(tps: seq<TokenPair>) {
    forall i | 0 <= i < |tps| && tps[i].CheckPair? :: Printable(tps[i].check)
  }

  lemma PartsPrintable(u: seq<TokenPair>, m: seq<TokenPair>)
    requires ChecksPrintable(u) && ChecksPrintable(m)
    ensures ChecksPrintable(u + m)
  {}

  lemma ParensPrintable(n: nat)
    ensures ChecksPrintable(Copies(n, OPEN)) && ChecksPrintable(Copies(n, CLOSE))
  {}

  lemma WordIsPrintable(w: string)
    requires Solid(w)
    ensures ChecksPrintable(Word(w))
  {
    ParensPrintable(|w| - |TrimLeft(w)|);
    UnopenedIsPrintable(w, TrimLeft(w));
    PartsPrintable(Copies(|w| - |TrimLeft(w)|, OPEN), Unopened(TrimLeft(w)));
  }

  lemma UnopenedIsPrintable(w: string, tok: string)
    requires Solid(w) && |tok| <= |w| && w[|w| - |tok|..] == tok && (tok != "" ==> tok[0] != '(')
    ensures ChecksPrintable(Unopened(tok))
  {
    var clean := TrimRight(tok);
    if clean != "" {
      CoreOfPart(w, tok, clean);
    }
    MiddleIsPrintable(tok, clean);
    ParensPrintable(|tok| - |clean|);
    PartsPrintable(Middle(tok, clean), Copies(|tok| - |clean|, CLOSE));
  }

  lemma MiddleIsPrintable(tok: string, clean: string)
    requires clean != "" ==> Core(clean)
    ensures ChecksPrintable(Middle(tok, clean))
  {
    MiddleShape(tok, clean);
    if clean != "" {
      AtomIsPrintable(clean);
    }
  }

  lemma MiddleShape(tok: string, clean: string)
    ensures var m := Middle(tok, clean);
      |m| <= 1 && (m != [] && m[0].CheckPair? ==> clean != "" && m[0].check == ParseCheck(clean))
  {}

  lemma CoreOfPart(w: string, tok: string, clean: string)
    requires Solid(w) && |tok| <= |w| && w[|w| - |tok|..] == tok && clean <= tok && clean != ""
    requires tok[0] != '(' && clean[|clean| - 1] != ')'
    ensures Core(clean)
  {
    assert forall i | 0 <= i < |clean| :: clean[i] == tok[i] == w[|w| - |tok| + i];
  }

  lemma {:induction false} WordsArePrintable(ws: seq<string>)
    requires forall i | 0 <= i < |ws| :: Solid(ws[i])
    ensures ChecksPrintable(FlatMap(ws, Word))
    decreases |ws|
  {
    if ws != [] {
      WordsArePrintable(ws[..|ws| - 1]);
      WordIsPrintable(ws[|ws| - 1]);
      PartsPrintable(FlatMap(ws[..|ws| - 1], Word), Word(ws[|ws| - 1]));
    }
  }

  /** Whatever text a rule has, its tree can be printed. */
  lemma RuleIsPrintable(rule: string)
    requires ParseText(rule).Parsed?
    ensures Printable(ParseText(rule).c)
  {
    if rule != "" {
      FieldsAreSolid(rule);
      WordsArePrintable(Fields(rule));
      ParsedIsPrintable(Syms(Tokenize(rule)));
    }
  }

  /** Printing what a rule text parses to and parsing that again changes nothing, whatever spelling,
      spacing, nesting and repairs the text went through, exactly if the parsed tree is shown. */
  lemma ReparsePrinted(rule: string)
    requires ParseText(rule).Parsed?
    ensures ParseText(Print(ParseText(rule).c)) == ParseText(rule) <==> Shown(ParseText(rule).c, false)
  {
    RuleIsPrintable(rule);
    ParsePrint(ParseText(rule).c);
  }

  /** One text of the failing family: an atom enclosed in quotes that only its own parentheses make a
      check, and printing drops these. */
  lemma QuotedAtomIsLost(text: string)
    requires Core(text) && Quote(text) && ':' in text
    ensures ParseText("(" + text + ")") == Parsed(ParseCheck(text)) && Print(ParseCheck(text)) == text
    ensures ParseText(Print(ParseCheck(text))) == CastPanic
  {
    ParenthesizedAtom(text);
    AtomIsPrintable(text);
    PrintsBack(text);
    ParsePrint(ParseCheck(text));
  }

  lemma PrintsBack(text: string)
    requires Core(text) && ':' in text
    ensures Print(ParseCheck(text)) == text
  {
    var n := Colon(text);
    assert text == text[..n] + ":" + text[n + 1..];
  }

  lemma ParenthesizedAtom(text: string)
    requires Core(text) && ':' in text
    ensures ParseText("(" + text + ")") == Parsed(ParseCheck(text))
  {
    var c := ParseCheck(text);
    AtomTokens(text, 1, 1);
    OneParenthesis(text, Chk(c));
    WrappedAtom(c);
  }

  lemma OneParenthesis(text: string, x: Sym)
    ensures Parens(1, text, 1) == "(" + text + ")"
    ensures Wrapped(1, [x], 1) == [LParen] + [x] + [RParen]
  {
    assert Copies(1, '(') == "(" && Copies(1, ')') == ")";
    assert Copies(1, LParen) == [LParen] && Copies(1, RParen) == [RParen];
  }

  lemma WrappedAtom(c: Check)
    ensures ParseTokens([LParen] + [Chk(c)] + [RParen]) == Parsed(c)
  {
    var group := Group(OrUnit(AndUnit(Atom(c))));
    assert YieldAnd(AndUnit(Atom(c))) == [Chk(c)] && SymAnd(AndUnit(Atom(c))) == Chk(c);
    NotComplete(group, []);
    assert TreeNot(group) == c;
    ShiftFirst([], c);
    assert [] + [Chk(c)] == [Chk(c)];
  }
}
