// What a rule text means, read off the grammar without the parser, and that parseRule
// (api/pkg/policy/parser.go) builds a check of that meaning.
module Meaning {
  import opened Checks
  import opened Grammar
  import opened Reduction
  import opened Tokenizer
  import opened RoundTrip
  import opened Reading

  /** The empty text allows everybody; another one what its derivation means, and without one nobody. */
  ghost predicate Means(rule: string, v: Valuation) {
    rule == "" || exists p: OrPhrase :: YieldOr(p) == Read(rule) && MeaningOr(p, v)
  }

  /** A single token that is no check: the cast at the end of parseRule fails. */
  predicate Panics(rule: string) {
    rule != "" && |Read(rule)| == 1 && !Read(rule)[0].Chk?
  }

  /** Whatever derivation of the text one takes. */
  lemma MeansDerivation(rule: string, p: OrPhrase, v: Valuation)
    requires rule != "" && YieldOr(p) == Read(rule)
    ensures Means(rule, v) == MeaningOr(p, v) && !Panics(rule)
  {
    if q: OrPhrase :| YieldOr(q) == Read(rule) && MeaningOr(q, v) {
      MeaningIsUnique(p, q, v);
    }
    ParsedMeaning(p, v);
    RejectedMeaning(Read(rule));
  }

  /** A text of white space only is not the empty text. */
  lemma BlankMeans(rule: string, v: Valuation)
    requires rule != "" && forall i | 0 <= i < |rule| :: IsSpace(rule[i])
    ensures !Means(rule, v) && !Panics(rule)
  {
    BlankReads(rule);
    forall p: OrPhrase ensures YieldOr(p) != [] {
      YieldIsNotEmpty(p);
    }
  }

  lemma {:induction false} YieldIsNotEmpty(p: OrPhrase)
    ensures YieldOr(p) != []
  {
    match p
    case OrUnit(a) => AndIsNotEmpty(a);
    case OrSnoc(o, a) =>
  }

  lemma {:induction false} AndIsNotEmpty(p: AndPhrase)
    ensures YieldAnd(p) != []
  {
    match p
    case AndUnit(n) => assert YieldNot(n) != [];
    case AndSnoc(a, n) =>
  }

  /** The parser panics exactly on those texts, and builds a check of the meaning of every other one. */
  lemma TextMeans(rule: string, v: Valuation)
    ensures ParseText(rule).CastPanic? <==> Panics(rule)
    ensures !Panics(rule) ==> (Eval(ParseText(rule).c, v) <==> Means(rule, v))
  {
    var w := Read(rule);
    if rule != "" && !Panics(rule) {
      if p: OrPhrase :| YieldOr(p) == w {
        ParsedMeaning(p, v);
        MeansDerivation(rule, p, v);
      } else {
        RejectedMeaning(w);
      }
    }
    RejectedMeaning(w);
  }
}
