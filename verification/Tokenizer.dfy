// parseTokenize and parseCheck of api/pkg/policy/parser.go, character by character.
module Tokenizer {
  import opened Checks
  import opened Grammar
  import opened Reduction
  import opened Vocabulary

  /** unicode.IsSpace, which strings.Fields splits at. */
  predicate IsSpace(c: char) {
    var n := c as int;
    || 9 <= n <= 13 || n == 32 || n == 0x85 || n == 0xA0 || n == 0x1680 || 0x2000 <= n <= 0x200A
    || n == 0x2028 || n == 0x2029 || n == 0x202F || n == 0x205F || n == 0x3000
  }

  /** Length of the longest prefix without white space. */
  function WordLength(s: string): (n: nat)
    ensures n <= |s| && (forall i | 0 <= i < n :: !IsSpace(s[i]))
    ensures n < |s| ==> IsSpace(s[n])
  {
    if s == "" || IsSpace(s[0]) then 0
    else
      var n := WordLength(s[1..]);
      assert forall i | 1 <= i < 1 + n :: s[i] == s[1..][i - 1];
      1 + n
  }

  /** strings.Fields */
  function Fields(s: string): seq<string>
    decreases |s|
  {
    if s == "" then []
    else if IsSpace(s[0]) then Fields(s[1..])
    else [s[..WordLength(s)]] + Fields(s[WordLength(s)..])
  }

  /** strings.TrimLeft(s, "(") */
  function TrimLeft(s: string): (r: string)
    ensures |r| <= |s| && s[|s| - |r|..] == r
    ensures forall i | 0 <= i < |s| - |r| :: s[i] == '('
    ensures r != "" ==> r[0] != '('
  {
    if s != "" && s[0] == '(' then
      var r := TrimLeft(s[1..]);
      assert forall i | 1 <= i < |s| - |r| :: s[i] == s[1..][i - 1];
      r
    else s
  }

  /** strings.TrimRight(s, ")") */
  function TrimRight(s: string): (r: string)
    ensures r <= s
    ensures forall i | |r| <= i < |s| :: s[i] == ')'
    ensures r != "" ==> r[|r| - 1] != ')'
  {
    if s != "" && s[|s| - 1] == ')' then TrimRight(s[..|s| - 1]) else s
  }

  /** strings.ToLower on the letters that occur in a keyword; no other character maps to one of these. */
  function Lower(s: string): string {
    seq(|s|, i requires 0 <= i < |s| => if 'A' <= s[i] <= 'Z' then (s[i] as int + 32) as char else s[i])
  }

  /** The first colon, as strings.SplitN(s, ":", 2) finds it. */
  function Colon(s: string): (n: nat)
    ensures n <= |s| && (n < |s| ==> s[n] == ':')
    ensures ':' !in s[..n]
  {
    if s == "" || s[0] == ':' then 0
    else
      var n := Colon(s[1..]);
      assert s[..1 + n] == [s[0]] + s[1..][..n];
      1 + n
  }

  /** The checks one token can denote. */
  type AtomCheck = c: Check | !c.NotCheck? && !c.AndCheck? && !c.OrCheck? witness FalseCheck

  /** parseCheck, with the three kinds registered by checks.go. */
  function ParseCheck(rule: string): AtomCheck {
    if rule == "!" then FalseCheck
    else if rule == "@" then TrueCheck
    else
      var n := Colon(rule);
      if n == |rule| then FalseCheck
      else
        var kind, body := rule[..n], rule[n + 1..];
        if kind == "rule" then RuleCheck(kind, body)
        else if kind == "role" then RoleCheck(kind, body)
        else GenericCheck(kind, body)
  }

  /** The tokens that carry text. */
  type TextToken = t: Token | !t.TCheck? && !t.TAndExpr? && !t.TOrExpr? witness TLParen

  /** A token with its value: the text it was read from, or a check. */
  datatype TokenPair = TextPair(token: TextToken, text: string) | CheckPair(check: AtomCheck)

  function SymOfPair(tp: TokenPair): (x: Sym)
    ensures IsTerminal(x)
  {
    match tp
    case CheckPair(c) => Chk(c)
    case TextPair(t, _) =>
      match t
      case TLParen => LParen
      case TRParen => RParen
      case TAnd => AndWord
      case TOr => OrWord
      case TNot => NotWord
      case TString => Quoted
  }

  predicate Quote(s: string) {
    |s| >= 2 && s[0] == s[|s| - 1] && (s[0] == '"' || s[0] == '\'')
  }

  /** The token between the parentheses of a word: `clean` is `tok` without trailing ")". */
  function Middle(tok: string, clean: string): seq<TokenPair> {
    var lowered := Lower(clean);
    if lowered == "and" then [TextPair(TAnd, clean)]
    else if lowered == "or" then [TextPair(TOr, clean)]
    else if lowered == "not" then [TextPair(TNot, clean)]
    else if clean == "" then []
    else if Quote(tok) then [TextPair(TString, tok[1..|tok| - 1])]
    else [CheckPair(ParseCheck(clean))]
  }

  function Copies<T>(n: nat, x: T): (s: seq<T>)
    ensures |s| == n && forall i | 0 <= i < n :: s[i] == x
  {
    seq(n, i => x)
  }

  const OPEN := TextPair(TLParen, "(")
  const CLOSE := TextPair(TRParen, ")")

  /** The tokens of a word without its opening parentheses. */
  function Unopened(tok: string): seq<TokenPair> {
    var clean := TrimRight(tok);
    Middle(tok, clean) + Copies(|tok| - |clean|, CLOSE)
  }

  /** The tokens of one white-space separated word. */
  function Word(w: string): seq<TokenPair> {
    var tok := TrimLeft(w);
    Copies(|w| - |tok|, OPEN) + Unopened(tok)
  }

  /** The results of `f` on the elements, in order. */
  function FlatMap<A, B>(xs: seq<A>, f: A -> seq<B>): seq<B> {
    if xs == [] then [] else FlatMap(xs[..|xs| - 1], f) + f(xs[|xs| - 1])
  }

  /** parseTokenize as a function of the rule text. */
  function Tokenize(rule: string): seq<TokenPair> {
    FlatMap(Fields(rule), Word)
  }

  function Syms(tps: seq<TokenPair>): (w: seq<Sym>)
    ensures |w| == |tps| && (forall i | 0 <= i < |w| :: w[i] == SymOfPair(tps[i]) && IsTerminal(w[i]))
  {
    seq(|tps|, i requires 0 <= i < |tps| => SymOfPair(tps[i]))
  }

  /** parseRule as a function of the rule text. */
  function ParseText(rule: string): Outcome {
    if rule == "" then Parsed(TrueCheck) else ParseTokens(Syms(Tokenize(rule)))
  }

  /** parseTokenize: appends word by word and, within a word, parenthesis by parenthesis. */
  method ParseTokenize(rule: string) returns (tokPairs: seq<TokenPair>)
    ensures tokPairs == Tokenize(rule)
  {
    tokPairs := [];
    var fields := Fields(rule);
    for f := 0 to |fields|
      invariant tokPairs == FlatMap(fields[..f], Word)
    {
      assert fields[..f + 1][..f] == fields[..f];
      tokPairs := AppendWord(tokPairs, fields[f]);
    }
    assert fields[..|fields|] == fields;
  }

  /** The body of the loop over the words. */
  method AppendWord(before: seq<TokenPair>, w: string) returns (tokPairs: seq<TokenPair>)
    ensures tokPairs == before + Word(w)
  {
    var clean := TrimLeft(w);
    var leading := |w| - |clean|;
    tokPairs := AppendCopies(before, leading, OPEN);
    if clean == "" {
      NothingUnopened();
    } else {
      tokPairs := AppendToken(tokPairs, clean);
    }
    ConcatAssoc(before, Copies(leading, OPEN), Unopened(clean));
  }

  /** A word without its opening parentheses. */
  method AppendToken(before: seq<TokenPair>, tok: string) returns (tokPairs: seq<TokenPair>)
    requires tok != ""
    ensures tokPairs == before + Unopened(tok)
  {
    var clean := TrimRight(tok);
    var trail := |tok| - |clean|;
    tokPairs := AppendMiddle(before, tok, clean);
    tokPairs := AppendCopies(tokPairs, trail, CLOSE);
    ConcatAssoc(before, Middle(tok, clean), Copies(trail, CLOSE));
  }

  lemma ConcatAssoc<T>(a: seq<T>, b: seq<T>, c: seq<T>)
    ensures (a + b) + c == a + (b + c)
  {}

  /** The loops over the parentheses of a word. */
  method AppendCopies(before: seq<TokenPair>, n: nat, tp: TokenPair) returns (tokPairs: seq<TokenPair>)
    ensures tokPairs == before + Copies(n, tp)
  {
    tokPairs := before;
    for i := 0 to n
      invariant tokPairs == before + Copies(i, tp)
    {
      tokPairs := tokPairs + [tp];
    }
  }

  method AppendMiddle(before: seq<TokenPair>, tok: string, clean: string) returns (tokPairs: seq<TokenPair>)
    ensures tokPairs == before + Middle(tok, clean)
  {
    tokPairs := before;
    var lowered := Lower(clean);
    if lowered == "and" {
      tokPairs := tokPairs + [TextPair(TAnd, clean)];
    } else if lowered == "or" {
      tokPairs := tokPairs + [TextPair(TOr, clean)];
    } else if lowered == "not" {
      tokPairs := tokPairs + [TextPair(TNot, clean)];
    } else if clean != "" {
      if Quote(tok) {
        tokPairs := tokPairs + [TextPair(TString, tok[1..|tok| - 1])];
      } else {
        tokPairs := tokPairs + [CheckPair(ParseCheck(clean))];
      }
    }
  }

  /** A word of opening parentheses only has no other tokens. */
  lemma NothingUnopened()
    ensures Unopened("") == []
  {
    assert |Lower("")| == 0;
    assert TrimRight("") == "";
  }
}
