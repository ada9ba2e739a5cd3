// What every word of a rule text is read as (parseTokenize and parseCheck of api/pkg/policy/parser.go).
// With RoundTrip.TokenizeSplit this covers every text.
module Reading {
  import opened Checks
  import opened Grammar
  import opened Tokenizer
  import opened RoundTrip

  /** The keyword in any mixture of cases. */
  predicate AnyCase(word: string, keyword: string) {
    && |word| == |keyword|
    && forall i | 0 <= i < |word| :: word[i] == keyword[i] || word[i] as int + 32 == keyword[i] as int
  }

  /** Lower-casing finds exactly these. */
  lemma LowerExactly(word: string, keyword: string)
    requires forall i | 0 <= i < |keyword| :: 'a' <= keyword[i] <= 'z'
    ensures Lower(word) == keyword <==> AnyCase(word, keyword)
  {
    if AnyCase(word, keyword) {
      assert forall i | 0 <= i < |word| :: Lower(word)[i] == keyword[i];
    }
    if Lower(word) == keyword {
      forall i | 0 <= i < |word| ensures word[i] == keyword[i] || word[i] as int + 32 == keyword[i] as int {
        assert Lower(word)[i] == keyword[i];
      }
    }
  }

  /** The check a text stands for: "@" is always true, any other text without a colon never, and the kind
      in front of the first colon decides about the rest. */
  ghost predicate Denotes(text: string, c: Check) {
    if text == "@" then c == TrueCheck
    else if ':' !in text then c == FalseCheck
    else forall kind, body | text == kind + ":" + body && ':' !in kind ::
      c == if kind == "rule" then RuleCheck(kind, body)
           else if kind == "role" then RoleCheck(kind, body)
           else GenericCheck(kind, body)
  }

  lemma ParseCheckDenotes(text: string)
    ensures Denotes(text, ParseCheck(text))
    ensures ':' !in text ==> forall v :: Eval(ParseCheck(text), v) <==> text == "@"
  {
    if ':' !in text {
      assert Colon(text) == |text|;
    }
    forall kind, body | text == kind + ":" + body && ':' !in kind
      ensures ParseCheck(text) == if kind == "rule" then RuleCheck(kind, body)
        else if kind == "role" then RoleCheck(kind, body)
        else GenericCheck(kind, body)
    {
      ColonFirst(kind, body);
      assert text[|kind|] == ':' && text[..|kind|] == kind && text[|kind| + 1..] == body;
    }
  }

  /** The keyword a text is, if it is one. */
  function Keyword(text: string): Sym {
    if AnyCase(text, "and") then AndWord
    else if AnyCase(text, "or") then OrWord
    else if AnyCase(text, "not") then NotWord
    else Quoted
  }

  lemma LoweredKeyword(text: string)
    ensures Keyword(text) == var l := Lower(text);
      if l == "and" then AndWord else if l == "or" then OrWord else if l == "not" then NotWord else Quoted
  {
    LowerExactly(text, "and");
    LowerExactly(text, "or");
    LowerExactly(text, "not");
  }

  lemma QuoteBehind(text: string, m: nat)
    requires Core(text)
    ensures Quote(text + Copies(m, ')')) <==> m == 0 && Quote(text)
  {
    var tok := text + Copies(m, ')');
    if m == 0 {
      assert tok == text;
    } else {
      assert tok[|tok| - 1] == ')';
    }
  }

  lemma MiddleReads(text: string, m: nat) returns (tp: TokenPair)
    requires Core(text)
    ensures Middle(text + Copies(m, ')'), text) == [tp]
    ensures SymOfPair(tp) == if !Keyword(text).Quoted? then Keyword(text)
      else if Quote(text) && m == 0 then Quoted else Chk(ParseCheck(text))
  {
    LoweredKeyword(text);
    QuoteBehind(text, m);
    tp := Middle(text + Copies(m, ')'), text)[0];
  }

  /** Two quotation marks of one kind, and anything between them. */
  ghost predicate InQuotes(text: string) {
    exists inner: string :: text == "\"" + inner + "\"" || text == "'" + inner + "'"
  }

  lemma QuoteExactly(text: string)
    ensures Quote(text) <==> InQuotes(text)
  {
    if Quote(text) {
      var inner := text[1..|text| - 1];
      assert text == [text[0]] + inner + [text[|text| - 1]];
    }
  }

  /** Keywords come first, then texts in quotes with no parenthesis behind them, then checks. */
  ghost predicate ReadsAs(text: string, closed: bool, x: Sym) {
    if !Keyword(text).Quoted? then x == Keyword(text)
    else if InQuotes(text) && !closed then x == Quoted
    else x.Chk? && Denotes(text, x.c)
  }

  /** Every word with something between its parentheses. */
  lemma WordReads(k: nat, text: string, m: nat) returns (x: Sym)
    requires Core(text)
    ensures Read(Parens(k, text, m)) == Wrapped(k, [x], m) && ReadsAs(text, m > 0, x)
  {
    var tp := MiddleReads(text, m);
    ParseCheckDenotes(text);
    QuoteExactly(text);
    x := SymOfPair(tp);
    WordInParens(k, text, m);
    SymsWrapped(k, [tp], m);
    assert Syms([tp]) == [x];
  }

  /** Every word of parentheses only: those that open come first. */
  lemma ParensRead(k: nat, m: nat)
    requires k + m > 0
    ensures Read(Parens(k, "", m)) == Wrapped(k, [], m)
  {
    var w, close := Parens(k, "", m), Copies(m, ')');
    assert w == Copies(k, '(') + close && close == "" + close;
    TokenizeWord(w);
    TrimLeftParens(k, close);
    TrimRightParens("", m);
    assert |Lower("")| == 0;
    ConcatAssoc(Copies(k, OPEN), [], Copies(m, CLOSE));
    SymsWrapped(k, [], m);
  }

  /** White space alone holds no tokens. */
  lemma {:induction false} BlankReads(s: string)
    requires forall i | 0 <= i < |s| :: IsSpace(s[i])
    ensures Read(s) == []
  {
    BlankFields(s);
  }

  lemma {:induction false} BlankFields(s: string)
    requires forall i | 0 <= i < |s| :: IsSpace(s[i])
    ensures Fields(s) == []
  {
    if s != "" {
      BlankFields(s[1..]);
    }
  }
}
