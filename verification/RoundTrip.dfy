// Printing a check (the String methods of checks.go) and parsing it again.
module RoundTrip {
  import opened Checks
  import opened Grammar
  import opened Reduction
  import opened Vocabulary
  import opened Tokenizer

  /** The String methods. */
  function Print(c: Check): string
    decreases c
  {
    match c
    case FalseCheck => "!"
    case TrueCheck => "@"
    case RuleCheck(k, b) => k + ":" + b
    case RoleCheck(k, b) => k + ":" + b
    case GenericCheck(k, b) => k + ":" + b
    case NotCheck(r) => "not " + Print(r)
    case AndCheck(rs) => "(" + PrintList(rs, " and ") + ")"
    case OrCheck(rs) => "(" + PrintList(rs, " or ") + ")"
  }

  /** strings.Join over the printed children */
  function PrintList(rs: seq<Check>, sep: string): string
    decreases rs
  {
    if rs == [] then ""
    else if |rs| == 1 then Print(rs[0])
    else PrintList(rs[..|rs| - 1], sep) + sep + Print(rs[|rs| - 1])
  }

  /** The texts of a tree, literally: parentheses around every and/or node, the keyword and one space on
      both sides of it between any two children. */
  lemma PrintExactly(rs: seq<Check>, c: Check)
    requires rs != []
    ensures Print(FalseCheck) == "!" && Print(TrueCheck) == "@" && Print(NotCheck(c)) == "not " + Print(c)
    ensures Print(AndCheck(rs + [c])) == "(" + (PrintList(rs, " and ") + " and " + Print(c)) + ")"
    ensures Print(OrCheck(rs + [c])) == "(" + (PrintList(rs, " or ") + " or " + Print(c)) + ")"
    ensures PrintList([c], " and ") == PrintList([c], " or ") == Print(c)
  {
    PrintListSnoc(rs, c, " and ");
    PrintListSnoc(rs, c, " or ");
  }

  lemma PrintListSnoc(rs: seq<Check>, c: Check, sep: string)
    requires rs != []
    ensures PrintList(rs + [c], sep) == PrintList(rs, sep) + sep + Print(c)
  {
    assert (rs + [c])[..|rs|] == rs;
  }

  /** What can be left of a word without its parentheses. */
  predicate Core(text: string) {
    && text != ""
    && (forall i | 0 <= i < |text| :: !IsSpace(text[i]))
    && text[0] != '(' && text[|text| - 1] != ')'
  }

  predicate PrintableAtom(kind: string, body: string) {
    ':' !in kind && Core(kind + ":" + body)
  }

  /** Trees the parser can produce. */
  predicate Printable(c: Check) {
    match c
    case FalseCheck => true
    case TrueCheck => true
    case RuleCheck(k, b) => k == "rule" && PrintableAtom(k, b)
    case RoleCheck(k, b) => k == "role" && PrintableAtom(k, b)
    case GenericCheck(k, b) => k != "rule" && k != "role" && PrintableAtom(k, b)
    case NotCheck(r) => Printable(r)
    case AndCheck(rs) => |rs| >= 2 && forall i | 0 <= i < |rs| :: Printable(rs[i])
    case OrCheck(rs) => |rs| >= 2 && forall i | 0 <= i < |rs| :: Printable(rs[i])
  }

  predicate IsAtom(c: Check) {
    !c.NotCheck? && !c.AndCheck? && !c.OrCheck?
  }

  /** No atom is taken for a quoted string where it is printed: an atom enclosed in matching quotes has
      a closing parenthesis behind it, i.e. it ends the last child of a conjunction or disjunction.
      `closed` says that a parenthesis follows the tree. */
  predicate Shown(c: Check, closed: bool) {
    match c
    case NotCheck(r) => Shown(r, closed)
    case AndCheck(rs) => forall i | 0 <= i < |rs| :: Shown(rs[i], i == |rs| - 1)
    case OrCheck(rs) => forall i | 0 <= i < |rs| :: Shown(rs[i], i == |rs| - 1)
    case _ => closed || !Quote(Print(c))
  }

  predicate ShownList(rs: seq<Check>, closed: bool) {
    forall i | 0 <= i < |rs| :: Shown(rs[i], closed && i == |rs| - 1)
  }

  // ---------------------------------------------------------------- the derivation of a printed tree

  function NotOf(c: Check): NotPhrase
    requires Printable(c)
    decreases c, 1
  {
    match c
    case NotCheck(r) => Negated(NotOf(r))
    case AndCheck(rs) => Group(OrUnit(AndOf(rs)))
    case OrCheck(rs) => Group(OrOf(rs))
    case _ => Atom(c)
  }

  function AndOf(rs: seq<Check>): AndPhrase
    requires rs != [] && forall i | 0 <= i < |rs| :: Printable(rs[i])
    decreases rs, 0
  {
    if |rs| == 1 then AndUnit(NotOf(rs[0]))
    else AndSnoc(AndOf(rs[..|rs| - 1]), NotOf(rs[|rs| - 1]))
  }

  function OrOf(rs: seq<Check>): OrPhrase
    requires rs != [] && forall i | 0 <= i < |rs| :: Printable(rs[i])
    decreases rs, 0
  {
    if |rs| == 1 then OrUnit(AndUnit(NotOf(rs[0])))
    else OrSnoc(OrOf(rs[..|rs| - 1]), AndUnit(NotOf(rs[|rs| - 1])))
  }

  /** The parser builds the tree the derivation was read off. */
  lemma {:induction false} TreeOfNotOf(c: Check)
    requires Printable(c)
    ensures TreeNot(NotOf(c)) == c
    decreases c, 1
  {
    match c
    case NotCheck(r) => TreeOfNotOf(r);
    case AndCheck(rs) => SymOfAndOf(rs);
    case OrCheck(rs) => SymOfOrOf(rs);
    case _ =>
  }

  lemma JoinLast(rs: seq<Check>)
    requires |rs| > 1
    ensures var front, last := rs[..|rs| - 1], rs[|rs| - 1];
      Join(if |rs| == 2 then Chk(rs[0]) else AndExpr(front), AndWord, last) == AndExpr(rs)
  {
    if |rs| == 2 {
      assert rs == [rs[0], rs[1]];
    } else {
      assert rs == rs[..|rs| - 1] + [rs[|rs| - 1]];
    }
  }

  lemma {:induction false} SymOfAndOf(rs: seq<Check>)
    requires rs != [] && forall i | 0 <= i < |rs| :: Printable(rs[i])
    ensures SymAnd(AndOf(rs)) == if |rs| == 1 then Chk(rs[0]) else AndExpr(rs)
    decreases rs, 0
  {
    TreeOfNotOf(rs[|rs| - 1]);
    if |rs| > 1 {
      SymOfAndOf(rs[..|rs| - 1]);
      JoinLast(rs);
    }
  }

  lemma DisjunctsLast(rs: seq<Check>)
    requires |rs| > 1
    ensures var front, last := rs[..|rs| - 1], rs[|rs| - 1];
      Disjuncts(if |rs| == 2 then Chk(rs[0]) else OrExpr(front)) + [last] == rs
  {
    if |rs| == 2 {
      assert rs == [rs[0]] + [rs[1]];
    } else {
      assert rs == rs[..|rs| - 1] + [rs[|rs| - 1]];
    }
  }

  lemma {:induction false} SymOfOrOf(rs: seq<Check>)
    requires rs != [] && forall i | 0 <= i < |rs| :: Printable(rs[i])
    ensures SymOr(OrOf(rs)) == if |rs| == 1 then Chk(rs[0]) else OrExpr(rs)
    decreases rs, 0
  {
    TreeOfNotOf(rs[|rs| - 1]);
    if |rs| > 1 {
      SymOfOrOf(rs[..|rs| - 1]);
      DisjunctsLast(rs);
    }
  }

  // ---------------------------------------------------------------- characters to tokens

  lemma SplitAt<T>(a: seq<T>, c: seq<T>, n: nat)
    requires n <= |a|
    ensures (a + c)[..n] == a[..n] && (a + c)[n..] == a[n..] + c
  {}

  /** White space separates words whatever stands on its sides. */
  lemma {:induction false} FieldsSplit(a: string, gap: string, b: string)
    requires |gap| == 1 && IsSpace(gap[0])
    ensures Fields(a + gap + b) == Fields(a) + Fields(b)
    decreases |a|
  {
    ConcatAssoc(a, gap, b);
    var s := a + (gap + b);
    if a == "" {
      assert s[0] == gap[0] && s[1..] == b;
    } else {
      var n := if IsSpace(a[0]) then 1 else WordLength(a);
      WordLengthStops(a, gap + b);
      SplitAt(a, gap + b, n);
      ConcatAssoc(a[n..], gap, b);
      FieldsSplit(a[n..], gap, b);
      if !IsSpace(a[0]) {
        ConcatAssoc([a[..n]], Fields(a[n..]), Fields(b));
      }
    }
  }

  lemma {:induction false} WordLengthStops(a: string, rest: string)
    requires rest != "" && IsSpace(rest[0])
    ensures WordLength(a + rest) == WordLength(a)
  {
    if a == "" {
      assert a + rest == rest;
    } else {
      assert (a + rest)[1..] == a[1..] + rest;
      WordLengthStops(a[1..], rest);
    }
  }

  lemma {:induction false} FlatMapConcat<A, B>(u: seq<A>, v: seq<A>, f: A -> seq<B>)
    ensures FlatMap(u + v, f) == FlatMap(u, f) + FlatMap(v, f)
    decreases |v|
  {
    if v == [] {
      assert u + v == u;
    } else {
      assert (u + v)[..|u + v| - 1] == u + v[..|v| - 1];
      FlatMapConcat(u, v[..|v| - 1], f);
    }
  }

  lemma TokenizeSplit(a: string, gap: string, b: string)
    requires |gap| == 1 && IsSpace(gap[0])
    ensures Tokenize(a + gap + b) == Tokenize(a) + Tokenize(b)
  {
    FieldsSplit(a, gap, b);
    FlatMapConcat(Fields(a), Fields(b), Word);
  }

  lemma FlatMapOne<A, B>(x: A, f: A -> seq<B>)
    ensures FlatMap([x], f) == f(x)
  {
    assert [x][..0] == [];
  }

  lemma FieldsOfWord(w: string)
    requires w != "" && forall i | 0 <= i < |w| :: !IsSpace(w[i])
    ensures Fields(w) == [w]
  {
    assert WordLength(w) == |w|;
    assert w[..|w|] == w && w[|w|..] == "";
  }

  lemma TokenizeWord(w: string)
    requires w != "" && forall i | 0 <= i < |w| :: !IsSpace(w[i])
    ensures Tokenize(w) == Word(w)
  {
    FieldsOfWord(w);
    FlatMapOne(w, Word);
  }

  lemma {:induction false} TrimLeftParens(k: nat, s: string)
    requires s == "" || s[0] != '('
    ensures TrimLeft(Copies(k, '(') + s) == s
  {
    var t := Copies(k, '(') + s;
    if k == 0 {
      assert t == s;
    } else {
      assert t[1..] == Copies(k - 1, '(') + s;
      TrimLeftParens(k - 1, s);
    }
  }

  lemma {:induction false} TrimRightParens(s: string, m: nat)
    requires s == "" || s[|s| - 1] != ')'
    ensures TrimRight(s + Copies(m, ')')) == s
  {
    var t := s + Copies(m, ')');
    if m == 0 {
      assert t == s;
    } else {
      assert t[..|t| - 1] == s + Copies(m - 1, ')');
      TrimRightParens(s, m - 1);
    }
  }

  function Parens(k: nat, s: string, m: nat): string {
    Copies(k, '(') + s + Copies(m, ')')
  }

  /** A core between parentheses is one word; keywords and checks keep their parentheses apart. */
  lemma WordInParens(k: nat, core: string, m: nat)
    requires core != "" && (forall i | 0 <= i < |core| :: !IsSpace(core[i]))
    requires core[0] != '(' && core[|core| - 1] != ')'
    ensures Tokenize(Parens(k, core, m)) == Copies(k, OPEN) + Middle(core + Copies(m, ')'), core) + Copies(m, CLOSE)
  {
    var w := Parens(k, core, m);
    assert w == Copies(k, '(') + (core + Copies(m, ')'));
    TokenizeWord(w);
    TrimLeftParens(k, core + Copies(m, ')'));
    TrimRightParens(core, m);
    ConcatAssoc(Copies(k, OPEN), Middle(core + Copies(m, ')'), core), Copies(m, CLOSE));
  }

  /** A text with a colon, or one of the two constants, is no keyword; enclosed in quotes it is a
      check only in front of a parenthesis. */
  lemma MiddleOfCheck(text: string, m: nat)
    requires Core(text) && (m > 0 || !Quote(text)) && (':' in text || |text| == 1)
    ensures Middle(text + Copies(m, ')'), text) == [CheckPair(ParseCheck(text))]
  {
    var lowered, tok := Lower(text), text + Copies(m, ')');
    if ':' in text {
      var i :| 0 <= i < |text| && text[i] == ':';
      assert lowered[i] == ':';
      assert "and"[0] != ':' && "and"[1] != ':' && "and"[2] != ':';
      assert "or"[0] != ':' && "or"[1] != ':';
      assert "not"[0] != ':' && "not"[1] != ':' && "not"[2] != ':';
    }
    assert |lowered| == |text|;
    if m == 0 {
      assert tok == text;
    } else {
      assert tok[|tok| - 1] == ')';
    }
  }

  lemma {:induction false} ColonFirst(kind: string, body: string)
    requires ':' !in kind
    ensures Colon(kind + ":" + body) == |kind|
  {
    var s := kind + ":" + body;
    if kind != "" {
      assert s[1..] == kind[1..] + ":" + body;
      ColonFirst(kind[1..], body);
    }
  }

  lemma ParseCheckAtom(kind: string, body: string)
    requires PrintableAtom(kind, body)
    ensures ParseCheck(kind + ":" + body) ==
      if kind == "rule" then RuleCheck(kind, body)
      else if kind == "role" then RoleCheck(kind, body)
      else GenericCheck(kind, body)
  {
    var s := kind + ":" + body;
    ColonFirst(kind, body);
    assert s[..|kind|] == kind && s[|kind| + 1..] == body;
    assert s[|kind|] == ':';
    if |s| == 1 {
      assert s == ":";
    }
  }

  /** Concatenation of the symbols of `k` parentheses, a phrase and `m` parentheses. */
  function Wrapped(k: nat, w: seq<Sym>, m: nat): seq<Sym> {
    Copies(k, LParen) + w + Copies(m, RParen)
  }

  lemma SymsWrapped(k: nat, tps: seq<TokenPair>, m: nat)
    ensures Syms(Copies(k, OPEN) + tps + Copies(m, CLOSE)) == Wrapped(k, Syms(tps), m)
  {}

  lemma SymsConcat(a: seq<TokenPair>, b: seq<TokenPair>)
    ensures Syms(a + b) == Syms(a) + Syms(b)
  {}

  lemma AtomTokens(text: string, k: nat, m: nat)
    requires Core(text) && (m > 0 || !Quote(text)) && (':' in text || |text| == 1)
    ensures Syms(Tokenize(Parens(k, text, m))) == Wrapped(k, [Chk(ParseCheck(text))], m)
  {
    WordInParens(k, text, m);
    MiddleOfCheck(text, m);
    SymsWrapped(k, [CheckPair(ParseCheck(text))], m);
    assert Syms([CheckPair(ParseCheck(text))]) == [Chk(ParseCheck(text))];
  }

  lemma TextWord(k: nat, word: string, t: TextToken, text: string)
    requires word != "" && (forall i | 0 <= i < |word| :: !IsSpace(word[i]))
    requires word[0] != '(' && word[|word| - 1] != ')'
    requires Middle(word, word) == [TextPair(t, text)]
    ensures Syms(Tokenize(Parens(k, word, 0))) == Wrapped(k, [SymOfPair(TextPair(t, text))], 0)
  {
    WordInParens(k, word, 0);
    assert word + Copies(0, ')') == word;
    SymsWrapped(k, [TextPair(t, text)], 0);
    assert Syms([TextPair(t, text)]) == [SymOfPair(TextPair(t, text))];
  }

  /** The tokenizer as the parser sees it. */
  function Read(s: string): seq<Sym> {
    Syms(Tokenize(s))
  }

  /** Reading distributes over a space. */
  ghost predicate Splits(read: string -> seq<Sym>) {
    forall a, b :: read(a + " " + b) == read(a) + read(b)
  }

  /** Keywords are read as themselves, `not` also behind opening parentheses. */
  ghost predicate ReadsKeywords(read: string -> seq<Sym>) {
    && read("and") == [AndWord]
    && read("or") == [OrWord]
    && (forall k: nat :: read(Parens(k, "not", 0)) == Wrapped(k, [NotWord], 0))
  }

  /** What an atom's text is read as: a check, or a string if it is quoted and nothing closes it. */
  function AtomSym(text: string, closed: bool): Sym {
    if closed || !Quote(text) then Chk(ParseCheck(text)) else Quoted
  }

  /** Atom texts are read as one token between any parentheses. */
  ghost predicate ReadsAtoms(read: string -> seq<Sym>) {
    forall text, k: nat, m: nat | Core(text) && (':' in text || |text| == 1) ::
      read(Parens(k, text, m)) == Wrapped(k, [AtomSym(text, m > 0)], m)
  }

  /** What the printer relies on. */
  ghost predicate Reader(read: string -> seq<Sym>) {
    Splits(read) && ReadsKeywords(read) && ReadsAtoms(read)
  }

  lemma ReadSplits()
    ensures Splits(Read)
  {
    forall a, b ensures Read(a + " " + b) == Read(a) + Read(b) {
      TokenizeSplit(a, " ", b);
      SymsConcat(Tokenize(a), Tokenize(b));
    }
  }

  lemma ReadKeywords()
    ensures ReadsKeywords(Read)
  {
    ReadKeyword("and", AndWord);
    ReadKeyword("or", OrWord);
    ReadKeyword("not", NotWord);
  }

  lemma KeywordMiddles()
    ensures Middle("and", "and") == [TextPair(TAnd, "and")] && Core("and")
    ensures Middle("or", "or") == [TextPair(TOr, "or")] && Core("or")
    ensures Middle("not", "not") == [TextPair(TNot, "not")] && Core("not")
  {
    assert Lower("and") == "and" && Lower("or") == "or" && Lower("not") == "not";
  }

  lemma ReadWord(k: nat, word: string, t: TextToken, x: Sym)
    requires Core(word) && Middle(word, word) == [TextPair(t, word)] && x == SymOfPair(TextPair(t, word))
    ensures Read(Parens(k, word, 0)) == Wrapped(k, [x], 0)
    ensures Read(word) == [x]
  {
    TextWord(k, word, t, word);
    TextWord(0, word, t, word);
    WrappedInNone(word, [x]);
  }

  lemma ReadKeyword(word: string, x: Sym)
    requires (word == "and" && x == AndWord) || (word == "or" && x == OrWord) || (word == "not" && x == NotWord)
    ensures forall k: nat :: Read(Parens(k, word, 0)) == Wrapped(k, [x], 0)
    ensures Read(word) == [x]
  {
    KeywordMiddles();
    var t: TextToken := if x.AndWord? then TAnd else if x.OrWord? then TOr else TNot;
    forall k: nat ensures Read(Parens(k, word, 0)) == Wrapped(k, [x], 0) && Read(word) == [x] {
      ReadWord(k, word, t, x);
    }
    ReadWord(0, word, t, x);
  }

  lemma WrappedInNone(s: string, w: seq<Sym>)
    ensures Parens(0, s, 0) == s && Wrapped(0, w, 0) == w
  {}

  lemma ReadAtom(text: string, k: nat, m: nat)
    requires Core(text) && (':' in text || |text| == 1)
    ensures Read(Parens(k, text, m)) == Wrapped(k, [AtomSym(text, m > 0)], m)
  {
    if m > 0 || !Quote(text) {
      AtomTokens(text, k, m);
    } else {
      QuotedMiddle(text);
      TextWord(k, text, TString, text[1..|text| - 1]);
    }
  }

  lemma QuotedMiddle(text: string)
    requires Quote(text)
    ensures Middle(text, text) == [TextPair(TString, text[1..|text| - 1])]
    ensures SymOfPair(TextPair(TString, text[1..|text| - 1])) == Quoted
  {
    assert Lower(text)[0] == text[0];
    assert "and"[0] == 'a' && "or"[0] == 'o' && "not"[0] == 'n';
  }

  lemma ReadIsReader()
    ensures Reader(Read)
  {
    ReadSplits();
    ReadKeywords();
    forall text, k: nat, m: nat | Core(text) && (':' in text || |text| == 1)
      ensures Read(Parens(k, text, m)) == Wrapped(k, [AtomSym(text, m > 0)], m)
    {
      ReadAtom(text, k, m);
    }
  }

  // ---------------------------------------------------------------- the tokens of a printed tree

  /** The tokens a printed tree is read as, shown or not. */
  function Spelled(c: Check, closed: bool): seq<Sym>
    requires Printable(c)
    decreases c, 1
  {
    match c
    case NotCheck(r) => [NotWord] + Spelled(r, closed)
    case AndCheck(rs) => [LParen] + SpelledList(rs, AndWord, true) + [RParen]
    case OrCheck(rs) => [LParen] + SpelledList(rs, OrWord, true) + [RParen]
    case _ => [AtomSym(Print(c), closed)]
  }

  function SpelledList(rs: seq<Check>, op: Sym, closed: bool): seq<Sym>
    requires rs != [] && forall i | 0 <= i < |rs| :: Printable(rs[i])
    decreases rs, 0
  {
    if |rs| == 1 then Spelled(rs[0], closed)
    else SpelledList(rs[..|rs| - 1], op, false) + [op] + Spelled(rs[|rs| - 1], closed)
  }

  lemma AtomRead(read: string -> seq<Sym>, c: Check, k: nat, m: nat)
    requires ReadsAtoms(read) && Printable(c) && IsAtom(c)
    ensures read(Parens(k, Print(c), m)) == Wrapped(k, [AtomSym(Print(c), m > 0)], m)
  {
    match c
    case RuleCheck(kind, b) => assert Print(c)[|kind|] == ':';
    case RoleCheck(kind, b) => assert Print(c)[|kind|] == ':';
    case GenericCheck(kind, b) => assert Print(c)[|kind|] == ':';
    case _ =>
  }

  /** Printing a tree and reading the text, inside any number of parentheses. */
  lemma {:induction false} PrintTokens(read: string -> seq<Sym>, c: Check, k: nat, m: nat)
    requires Reader(read) && Printable(c)
    ensures read(Parens(k, Print(c), m)) == Wrapped(k, Spelled(c, m > 0), m)
    decreases c, 1
  {
    match c
    case NotCheck(r) =>
      PrintTokens(read, r, 0, m);
      NegationTokens(read, Print(r), Spelled(r, m > 0), k, m);
    case AndCheck(rs) =>
      ListTokens(read, rs, "and", AndWord, k + 1, m + 1);
      assert " " + "and" + " " == " and ";
      GroupText(PrintList(rs, " and "), SpelledList(rs, AndWord, true), k, m);
    case OrCheck(rs) =>
      ListTokens(read, rs, "or", OrWord, k + 1, m + 1);
      assert " " + "or" + " " == " or ";
      GroupText(PrintList(rs, " or "), SpelledList(rs, OrWord, true), k, m);
    case _ => AtomRead(read, c, k, m);
  }

  lemma GroupText(s: string, w: seq<Sym>, k: nat, m: nat)
    ensures Parens(k, "(" + s + ")", m) == Parens(k + 1, s, m + 1)
    ensures Wrapped(k, [LParen] + w + [RParen], m) == Wrapped(k + 1, w, m + 1)
  {
    assert Copies(k + 1, '(') == Copies(k, '(') + "(";
    assert Copies(m + 1, ')') == ")" + Copies(m, ')');
    assert Copies(k + 1, LParen) == Copies(k, LParen) + [LParen];
    assert Copies(m + 1, RParen) == [RParen] + Copies(m, RParen);
  }

  lemma NegationTokens(read: string -> seq<Sym>, s: string, w: seq<Sym>, k: nat, m: nat)
    requires Splits(read) && ReadsKeywords(read) && read(Parens(0, s, m)) == Wrapped(0, w, m)
    ensures read(Parens(k, "not " + s, m)) == Wrapped(k, [NotWord] + w, m)
  {
    var a, b := Parens(k, "not", 0), Parens(0, s, m);
    assert "not " == "not" + " ";
    assert Parens(k, "not " + s, m) == a + " " + b;
    assert Wrapped(k, [NotWord], 0) + Wrapped(0, w, m) == Wrapped(k, [NotWord] + w, m);
  }

  /** `front word last` with a keyword between two spaces. */
  lemma SeparatedTokens(read: string -> seq<Sym>, front: string, word: string, last: string,
                        u: seq<Sym>, x: Sym, w: seq<Sym>, k: nat, m: nat)
    requires Splits(read) && read(word) == [x]
    requires read(Parens(k, front, 0)) == Wrapped(k, u, 0) && read(Parens(0, last, m)) == Wrapped(0, w, m)
    ensures read(Parens(k, front + (" " + word + " ") + last, m)) == Wrapped(k, u + [x] + w, m)
  {
    var a, b := Parens(k, front, 0), Parens(0, last, m);
    assert Parens(k, front + (" " + word + " ") + last, m) == a + " " + (word + " " + b);
    assert Wrapped(k, u, 0) + ([x] + Wrapped(0, w, m)) == Wrapped(k, u + [x] + w, m);
  }

  lemma {:induction false} ListTokens(read: string -> seq<Sym>, rs: seq<Check>, word: string, op: Sym, k: nat, m: nat)
    requires Reader(read) && read(word) == [op] && rs != [] && forall i | 0 <= i < |rs| :: Printable(rs[i])
    ensures read(Parens(k, PrintList(rs, " " + word + " "), m)) == Wrapped(k, SpelledList(rs, op, m > 0), m)
    decreases rs, 0
  {
    var last := rs[|rs| - 1];
    PrintTokens(read, last, if |rs| == 1 then k else 0, m);
    if |rs| > 1 {
      var front := rs[..|rs| - 1];
      ListTokens(read, front, word, op, k, 0);
      SeparatedTokens(read, PrintList(front, " " + word + " "), word, Print(last),
                      SpelledList(front, op, false), op, Spelled(last, m > 0), k, m);
    }
  }

  // ---------------------------------------------------------------- shown trees

  lemma AtomShown(c: Check, closed: bool)
    requires Printable(c) && IsAtom(c) && Shown(c, closed)
    ensures AtomSym(Print(c), closed) == Chk(c)
  {
    match c
    case RuleCheck(kind, b) => ParseCheckAtom(kind, b);
    case RoleCheck(kind, b) => ParseCheckAtom(kind, b);
    case GenericCheck(kind, b) => ParseCheckAtom(kind, b);
    case _ =>
  }

  /** A shown tree is read as its derivation. */
  lemma {:induction false} ShownSpells(c: Check, closed: bool)
    requires Printable(c) && Shown(c, closed)
    ensures Spelled(c, closed) == YieldNot(NotOf(c))
    decreases c, 1
  {
    match c
    case NotCheck(r) => ShownSpells(r, closed);
    case AndCheck(rs) => ShownSpellsAnd(rs, true);
    case OrCheck(rs) => ShownSpellsOr(rs, true);
    case _ => AtomShown(c, closed);
  }

  lemma ShownParts(rs: seq<Check>, closed: bool)
    requires |rs| > 1 && ShownList(rs, closed)
    ensures ShownList(rs[..|rs| - 1], false) && Shown(rs[|rs| - 1], closed)
  {
    assert forall i | 0 <= i < |rs| - 1 :: rs[..|rs| - 1][i] == rs[i] && Shown(rs[i], false);
  }

  lemma {:induction false} ShownSpellsAnd(rs: seq<Check>, closed: bool)
    requires rs != [] && (forall i | 0 <= i < |rs| :: Printable(rs[i])) && ShownList(rs, closed)
    ensures SpelledList(rs, AndWord, closed) == YieldAnd(AndOf(rs))
    decreases rs, 0
  {
    if |rs| > 1 {
      ShownParts(rs, closed);
      ShownSpellsAnd(rs[..|rs| - 1], false);
    }
    ShownSpells(rs[|rs| - 1], closed);
  }

  lemma {:induction false} ShownSpellsOr(rs: seq<Check>, closed: bool)
    requires rs != [] && (forall i | 0 <= i < |rs| :: Printable(rs[i])) && ShownList(rs, closed)
    ensures SpelledList(rs, OrWord, closed) == YieldOr(OrOf(rs))
    decreases rs, 0
  {
    if |rs| > 1 {
      ShownParts(rs, closed);
      ShownSpellsOr(rs[..|rs| - 1], false);
    }
    ShownSpells(rs[|rs| - 1], closed);
  }

  /** The stack a derivation read off a tree leaves. */
  lemma ParsePrintedTokens(c: Check)
    requires Printable(c)
    ensures ParseTokens(YieldNot(NotOf(c))) == Parsed(c)
  {
    NotComplete(NotOf(c), []);
    TreeOfNotOf(c);
    ShiftFirst([], c);
    assert [] + [Chk(c)] == [Chk(c)];
  }

  // ---------------------------------------------------------------- trees that are not shown

  /** A tree that is not shown is read with a quoted string among its tokens. */
  lemma {:induction false} UnshownIsQuoted(c: Check, closed: bool)
    requires Printable(c) && !Shown(c, closed)
    ensures Quoted in Spelled(c, closed)
    decreases c, 1
  {
    match c
    case NotCheck(r) => UnshownIsQuoted(r, closed);
    case AndCheck(rs) =>
      var i :| 0 <= i < |rs| && !Shown(rs[i], i == |rs| - 1);
      UnshownListIsQuoted(rs, AndWord, true, i);
    case OrCheck(rs) =>
      var i :| 0 <= i < |rs| && !Shown(rs[i], i == |rs| - 1);
      UnshownListIsQuoted(rs, OrWord, true, i);
    case _ =>
  }

  lemma InParts(u: seq<Sym>, op: Sym, w: seq<Sym>)
    requires Quoted in u || Quoted in w
    ensures Quoted in u + [op] + w
  {}

  lemma {:induction false} UnshownListIsQuoted(rs: seq<Check>, op: Sym, closed: bool, i: nat)
    requires i < |rs| && (forall k | 0 <= k < |rs| :: Printable(rs[k])) && !Shown(rs[i], closed && i == |rs| - 1)
    ensures Quoted in SpelledList(rs, op, closed)
    decreases rs, 0
  {
    var n := |rs| - 1;
    if n == 0 {
      UnshownIsQuoted(rs[0], closed);
    } else {
      var front, last := rs[..n], rs[n];
      if i == n {
        UnshownIsQuoted(last, closed);
      } else {
        UnshownListIsQuoted(front, op, false, i);
      }
      InParts(SpelledList(front, op, false), op, Spelled(last, closed));
    }
  }

  /** No phrase of the rule language holds a quoted string. */
  lemma {:induction false} NotHasNoQuoted(p: NotPhrase)
    ensures Quoted !in YieldNot(p)
    decreases p
  {
    match p
    case Atom(c) =>
    case Negated(q) => NotHasNoQuoted(q);
    case Group(o) => OrHasNoQuoted(o);
  }

  lemma {:induction false} AndHasNoQuoted(p: AndPhrase)
    ensures Quoted !in YieldAnd(p)
    decreases p
  {
    match p
    case AndUnit(n) => NotHasNoQuoted(n);
    case AndSnoc(a, n) =>
      AndHasNoQuoted(a);
      NotHasNoQuoted(n);
  }

  lemma {:induction false} OrHasNoQuoted(p: OrPhrase)
    ensures Quoted !in YieldOr(p)
    decreases p
  {
    match p
    case OrUnit(a) => AndHasNoQuoted(a);
    case OrSnoc(o, a) =>
      OrHasNoQuoted(o);
      AndHasNoQuoted(a);
  }

  lemma QuotedIsRejected(w: seq<Sym>)
    requires Quoted in w
    ensures !InLanguage(w)
  {
    forall p: OrPhrase ensures YieldOr(p) != w {
      OrHasNoQuoted(p);
    }
  }

  lemma {:induction false} SpelledIsLong(c: Check, closed: bool)
    requires Printable(c)
    ensures |Spelled(c, closed)| >= 1 && (|Spelled(c, closed)| == 1 <==> IsAtom(c))
    decreases c
  {
    match c
    case NotCheck(r) => SpelledIsLong(r, closed);
    case _ =>
  }

  // ---------------------------------------------------------------- main results

  lemma ReadPrint(c: Check)
    requires Printable(c)
    ensures Read(Print(c)) == Spelled(c, false)
  {
    ReadIsReader();
    PrintTokens(Read, c, 0, 0);
    WrappedInNone(Print(c), Spelled(c, false));
  }

  /** Parsing the printed text of a tree gives the tree back, node for node, exactly if the tree is
      shown. Of the other trees a lone atom makes the final cast fail and the rest deny. */
  lemma ParsePrint(c: Check)
    requires Printable(c)
    ensures ParseText(Print(c)) == Parsed(c) <==> Shown(c, false)
    ensures !Shown(c, false) ==> ParseText(Print(c)) == if IsAtom(c) then CastPanic else Parsed(FalseCheck)
  {
    ReadPrint(c);
    PrintNonempty(c);
    if Shown(c, false) {
      ShownSpells(c, false);
      ParsePrintedTokens(c);
    } else {
      var w := Read(Print(c));
      UnshownIsQuoted(c, false);
      SpelledIsLong(c, false);
      QuotedIsRejected(w);
      RejectedMeaning(w);
      assert IsAtom(c) ==> w == [Quoted];
    }
  }

  lemma PrintNonempty(c: Check)
    requires Printable(c)
    ensures Print(c) != "" && (Print(c) == "!" ==> c == FalseCheck)
  {
    match c
    case RuleCheck(k, b) => assert Print(c)[|k|] == ':';
    case RoleCheck(k, b) => assert Print(c)[|k|] == ':';
    case GenericCheck(k, b) => assert Print(c)[|k|] == ':';
    case NotCheck(r) => assert Print(c)[0] == 'n';
    case AndCheck(rs) => assert Print(c)[0] == '(';
    case OrCheck(rs) => assert Print(c)[0] == '(';
    case _ =>
  }

  /** No other tree has the text of a shown tree. */
  lemma PrintInjective(a: Check, b: Check)
    requires Printable(a) && Printable(b) && Shown(a, false) && Print(a) == Print(b)
    ensures a == b
  {
    ParsePrint(a);
    ParsePrint(b);
    PrintNonempty(a);
    PrintNonempty(b);
  }

  /** An atom alone round-trips unless its text is enclosed in matching quotes; then the rule is one
      string token and the final cast of parseRule fails. */
  lemma LoneAtomRoundTrip(kind: string, body: string)
    requires ':' !in kind && Core(kind + ":" + body)
    ensures var text := kind + ":" + body;
      && (ParseText(text) == Parsed(ParseCheck(text)) <==> !Quote(text))
      && (Quote(text) ==> ParseText(text) == CastPanic)
  {
    ParseCheckAtom(kind, body);
    ParsePrint(ParseCheck(kind + ":" + body));
  }
}
