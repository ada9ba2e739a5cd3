// The reduction table of parser.go at character level: token names are joined with commas
// and the ten keys are looked up as string suffixes (api/pkg/policy/parser.go:106-143).
module Vocabulary {
  import opened Checks
  import opened Grammar
  import opened Reduction
  import opened Segments

  /** The token names the tokenizer and the reduce functions use. */
  datatype Token = TLParen | TRParen | TAnd | TOr | TNot | TString | TCheck | TAndExpr | TOrExpr

  function Text(t: Token): string {
    match t
    case TLParen => "("
    case TRParen => ")"
    case TAnd => "and"
    case TOr => "or"
    case TNot => "not"
    case TString => "string"
    case TCheck => "check"
    case TAndExpr => "and_expr"
    case TOrExpr => "or_expr"
  }

  function TokenOf(x: Sym): Token {
    match x
    case LParen => TLParen
    case RParen => TRParen
    case AndWord => TAnd
    case OrWord => TOr
    case NotWord => TNot
    case Quoted => TString
    case Chk(_) => TCheck
    case AndExpr(_) => TAndExpr
    case OrExpr(_) => TOrExpr
  }

  /** The names of a token list. */
  function Names(ts: seq<Token>): (ss: seq<string>)
    ensures |ss| == |ts|
    ensures forall i | 0 <= i < |ts| :: ss[i] == Text(ts[i])
  {
    seq(|ts|, i requires 0 <= i < |ts| => Text(ts[i]))
  }

  function Tokens(s: seq<Sym>): (ts: seq<Token>)
    ensures |ts| == |s|
    ensures forall i | 0 <= i < |s| :: ts[i] == TokenOf(s[i])
  {
    seq(|s|, i requires 0 <= i < |s| => TokenOf(s[i]))
  }

  /** The entries of ReduceFuncMap, named by key and reduce function. */
  datatype Production =
    | WrapCheck | WrapAnd | WrapOr
    | MakeAnd | MixOrAnd | ExtendAnd
    | MakeOr | MakeOrFromAnd | ExtendOr
    | MakeNot

  const ALL: set<Production> :=
    {WrapCheck, WrapAnd, WrapOr, MakeAnd, MixOrAnd, ExtendAnd, MakeOr, MakeOrFromAnd, ExtendOr, MakeNot}

  function Key(p: Production): string {
    match p
    case WrapCheck => "(,check,)"
    case WrapAnd => "(,and_expr,)"
    case WrapOr => "(,or_expr,)"
    case MakeAnd => "check,and,check"
    case MixOrAnd => "or_expr,and,check"
    case ExtendAnd => "and_expr,and,check"
    case MakeOr => "check,or,check"
    case MakeOrFromAnd => "and_expr,or,check"
    case ExtendOr => "or_expr,or,check"
    case MakeNot => "not,check"
  }

  function KeyTokens(p: Production): (ks: seq<Token>)
    ensures 2 <= |ks| <= 3
  {
    match p
    case WrapCheck => [TLParen, TCheck, TRParen]
    case WrapAnd => [TLParen, TAndExpr, TRParen]
    case WrapOr => [TLParen, TOrExpr, TRParen]
    case MakeAnd => [TCheck, TAnd, TCheck]
    case MixOrAnd => [TOrExpr, TAnd, TCheck]
    case ExtendAnd => [TAndExpr, TAnd, TCheck]
    case MakeOr => [TCheck, TOr, TCheck]
    case MakeOrFromAnd => [TAndExpr, TOr, TCheck]
    case ExtendOr => [TOrExpr, TOr, TCheck]
    case MakeNot => [TNot, TCheck]
  }

  lemma JoinedPair(a: string, b: string)
    ensures Joined([a, b]) == a + "," + b
  {
    assert [a, b][..1] == [a];
  }

  lemma JoinedTriple(a: string, b: string, c: string)
    ensures Joined([a, b, c]) == a + "," + b + "," + c
  {
    assert [a, b, c][..2] == [a, b];
    JoinedPair(a, b);
  }

  lemma JoinedNames(k: seq<Token>)
    requires 2 <= |k| <= 3
    ensures |k| == 2 ==> Joined(Names(k)) == Text(k[0]) + "," + Text(k[1])
    ensures |k| == 3 ==> Joined(Names(k)) == Text(k[0]) + "," + Text(k[1]) + "," + Text(k[2])
  {
    if |k| == 3 {
      assert Names(k) == [Text(k[0]), Text(k[1]), Text(k[2])];
      JoinedTriple(Text(k[0]), Text(k[1]), Text(k[2]));
    } else {
      assert Names(k) == [Text(k[0]), Text(k[1])];
      JoinedPair(Text(k[0]), Text(k[1]));
    }
  }

  lemma KeyIsJoined(p: Production)
    ensures Joined(Names(KeyTokens(p))) == Key(p)
  {
    JoinedNames(KeyTokens(p));
    match p {
      case WrapCheck | WrapAnd | WrapOr => WrapKeys(p);
      case MakeAnd | MixOrAnd | ExtendAnd => AndKeys(p);
      case MakeOr | MakeOrFromAnd | ExtendOr => OrKeys(p);
      case MakeNot => assert "not" + "," + "check" == "not,check";
    }
  }

  lemma WrapKeys(p: Production)
    requires p.WrapCheck? || p.WrapAnd? || p.WrapOr?
    ensures Key(p) == "(" + "," + Text(KeyTokens(p)[1]) + "," + ")"
  {}

  lemma AndKeys(p: Production)
    requires p.MakeAnd? || p.MixOrAnd? || p.ExtendAnd?
    ensures Key(p) == Text(KeyTokens(p)[0]) + "," + "and" + "," + "check"
  {}

  lemma OrKeys(p: Production)
    requires p.MakeOr? || p.MakeOrFromAnd? || p.ExtendOr?
    ensures Key(p) == Text(KeyTokens(p)[0]) + "," + "or" + "," + "check"
  {}

  function LastChar(t: Token): char {
    match t
    case TLParen => '('
    case TRParen => ')'
    case TAnd => 'd'
    case TNot => 't'
    case TString => 'g'
    case TCheck => 'k'
    case TOr | TAndExpr | TOrExpr => 'r'
  }

  lemma LastCharOf(t: Token)
    ensures Text(t) != "" && Text(t)[|Text(t)| - 1] == LastChar(t)
  {}

  /** A suffix agrees with the whole at every distance from the end. */
  lemma EndsAgree(x: string, y: string, k: nat)
    requires HasSuffix(x, y) && k < |y|
    ensures k < |x| && x[|x| - 1 - k] == y[|y| - 1 - k]
  {
    assert x[|x| - |y|..][|y| - 1 - k] == x[|x| - 1 - k];
  }

  /** The three names that end with "r". */
  lemma NamesInR(a: Token, b: Token)
    requires LastChar(a) == LastChar(b) == 'r' && HasSuffix(Text(a), Text(b))
    ensures a == b
  {
    EndsAgree(Text(a), Text(b), if b.TOr? then 1 else 5);
  }

  /** No token name is a proper suffix of another one. */
  lemma NamesAreSuffixFree(a: Token, b: Token)
    ensures HasSuffix(Text(a), Text(b)) <==> a == b
  {
    LastCharOf(a);
    LastCharOf(b);
    if a == b {
      assert Text(a)[0..] == Text(b);
    } else if HasSuffix(Text(a), Text(b)) {
      EndsAgree(Text(a), Text(b), 0);
      NamesInR(a, b);
    }
  }

  lemma NameHasNoComma(t: Token)
    ensures ',' !in Text(t)
  {}

  lemma NamesAreCommaFree(ts: seq<Token>)
    ensures CommaFree(Names(ts))
  {
    forall i | 0 <= i < |ts| ensures ',' !in Names(ts)[i] {
      NameHasNoComma(ts[i]);
    }
  }

  lemma NamesSuffixFree(ts: seq<Token>, ks: seq<Token>)
    ensures SuffixFree(Names(ts), Names(ks))
  {
    forall i, j | 0 <= i < |ts| && 0 <= j < |ks| && HasSuffix(Names(ts)[i], Names(ks)[j])
      ensures Names(ts)[i] == Names(ks)[j]
    {
      NamesAreSuffixFree(ts[i], ks[j]);
    }
  }

  lemma NamesSuffix(ts: seq<Token>, ks: seq<Token>)
    ensures ListSuffix(Names(ts), Names(ks)) <==> ListSuffix(ts, ks)
  {
    if |ks| <= |ts| {
      var d := |ts| - |ks|;
      forall i | 0 <= i < |ks| ensures Names(ts)[d + i] == Names(ks)[i] <==> ts[d + i] == ks[i] {
        NamesAreSuffixFree(ts[d + i], ks[i]);
      }
      if ListSuffix(ts, ks) {
        assert forall i | 0 <= i < |ks| :: ts[d..][i] == ts[d + i];
        assert Names(ts)[d..] == Names(ks);
      }
      if ListSuffix(Names(ts), Names(ks)) {
        assert forall i | 0 <= i < |ks| :: Names(ts)[d..][i] == Names(ts)[d + i];
        assert ts[d..] == ks;
      }
    }
  }

  /** reduce()'s test: the joined token names end with the key. */
  predicate Matches(ts: seq<Token>, p: Production) {
    HasSuffix(Joined(Names(ts)), Key(p))
  }

  /** The string test is the token test. */
  lemma MatchesIsTokenSuffix(ts: seq<Token>, p: Production)
    ensures Matches(ts, p) <==> ListSuffix(ts, KeyTokens(p))
  {
    KeyIsJoined(p);
    var ks := KeyTokens(p);
    NamesAreCommaFree(ts);
    NamesAreCommaFree(ks);
    NamesSuffixFree(ts, ks);
    NamesSuffix(ts, ks);
    if ts != [] {
      SuffixIsListSuffix(Names(ts), Names(ks));
    } else {
      assert Joined(Names(ts)) == "";
    }
  }

  /** The number of stack entries a key consumes, counted as reduce() does it. */
  lemma ArgumentCount(p: Production)
    ensures Commas(Key(p)) + 1 == |KeyTokens(p)|
  {
    KeyIsJoined(p);
    NamesAreCommaFree(KeyTokens(p));
    CommasOfJoined(Names(KeyTokens(p)));
  }

  predicate Top2(ts: seq<Token>, ks: seq<Token>)
    requires |ks| == 2
  {
    |ts| >= 2 && ts[|ts| - 2] == ks[0] && ts[|ts| - 1] == ks[1]
  }

  predicate Top3(ts: seq<Token>, ks: seq<Token>)
    requires |ks| == 3
  {
    |ts| >= 3 && ts[|ts| - 3] == ks[0] && ts[|ts| - 2] == ks[1] && ts[|ts| - 1] == ks[2]
  }

  lemma SuffixIsTop(ts: seq<Token>, ks: seq<Token>)
    requires 2 <= |ks| <= 3
    ensures |ks| == 2 ==> (ListSuffix(ts, ks) <==> Top2(ts, ks))
    ensures |ks| == 3 ==> (ListSuffix(ts, ks) <==> Top3(ts, ks))
  {
    if |ks| <= |ts| {
      var t := ts[|ts| - |ks|..];
      assert t[0] == ts[|ts| - |ks|] && t[1] == ts[|ts| - |ks| + 1];
      if |ks| == 3 {
        assert t[2] == ts[|ts| - 1];
        assert t == [t[0], t[1], t[2]] && ks == [ks[0], ks[1], ks[2]];
      } else {
        assert t == [t[0], t[1]] && ks == [ks[0], ks[1]];
      }
    }
  }

  /** Whatever order the map is walked in, at most one key applies to a stack. */
  lemma AtMostOneKey(ts: seq<Token>, p: Production, q: Production)
    requires Matches(ts, p) && Matches(ts, q)
    ensures p == q
  {
    MatchesIsTokenSuffix(ts, p);
    MatchesIsTokenSuffix(ts, q);
    AtMostOneTop(ts, p, q);
  }

  lemma AtMostOneTop(ts: seq<Token>, p: Production, q: Production)
    requires ListSuffix(ts, KeyTokens(p)) && ListSuffix(ts, KeyTokens(q))
    ensures p == q
  {
    SuffixIsTop(ts, KeyTokens(p));
    SuffixIsTop(ts, KeyTokens(q));
  }

  /** The or_expr entries of a reachable stack hold at least one check. */
  predicate WellFormed(s: seq<Sym>) {
    forall i | 0 <= i < |s| :: s[i].OrExpr? ==> s[i].rules != []
  }

  /** The table entry for the top of a reducible stack. */
  function Entry(s: seq<Sym>): Production
    requires Reducible(s)
  {
    var n := |s|;
    if s[n-1].RParen? then
      if s[n-2].Chk? then WrapCheck else if s[n-2].AndExpr? then WrapAnd else WrapOr
    else if s[n-2].NotWord? then MakeNot
    else if s[n-2].AndWord? then
      if s[n-3].Chk? then MakeAnd else if s[n-3].AndExpr? then ExtendAnd else MixOrAnd
    else
      if s[n-3].Chk? then MakeOr else if s[n-3].AndExpr? then MakeOrFromAnd else ExtendOr
  }

  /** The string table fires exactly on the stacks the grammar-level step reduces, with its entry. */
  lemma TableIsStep(s: seq<Sym>, p: Production)
    requires WellFormed(s)
    ensures Matches(Tokens(s), p) <==> Reducible(s) && Entry(s) == p
  {
    MatchesIsTokenSuffix(Tokens(s), p);
    SuffixIsTop(Tokens(s), KeyTokens(p));
    TopIsStep(s, p);
  }

  lemma TopIsStep(s: seq<Sym>, p: Production)
    requires WellFormed(s)
    ensures (if |KeyTokens(p)| == 2 then Top2(Tokens(s), KeyTokens(p)) else Top3(Tokens(s), KeyTokens(p)))
       <==> Reducible(s) && Entry(s) == p
  {
    var n := |s|;
    if n >= 2 {
      var b, c := s[n - 2], s[n - 1];
      assert Tokens(s)[n - 1] == TokenOf(c) && Tokens(s)[n - 2] == TokenOf(b);
      if n >= 3 {
        var a := s[n - 3];
        assert Tokens(s)[n - 3] == TokenOf(a);
        match p {
          case WrapCheck =>
          case WrapAnd =>
          case WrapOr =>
          case MakeAnd =>
          case MixOrAnd =>
          case ExtendAnd =>
          case MakeOr =>
          case MakeOrFromAnd =>
          case ExtendOr =>
          case MakeNot =>
        }
      }
    }
  }
}
