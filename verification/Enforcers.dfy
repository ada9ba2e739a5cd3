// Enforcer and Rules of api/pkg/policy/policy.go: rule maps of check objects.
module Enforcers {
  import opened Checks
  import opened Reduction
  import opened Tokenizer
  import opened CheckObjects
  import opened PolicyParser
  import opened Grammar
  import opened RoundTrip
  import opened Meaning
  import opened Enforcement

  /** A rule map of check objects stores the trees of `trees`, each in its own objects. */
  ghost predicate RepMap(rules: map<string, BaseCheck>, trees: Rules, parts: map<string, set<object>>, repr: set<object>)
    reads repr
  {
    && rules.Keys == trees.Keys == parts.Keys
    && (forall n | n in rules :: parts[n] <= repr && Rep(rules[n], trees[n], parts[n]))
  }

  /** The Exec methods on check objects. `depth` bounds the nested rule references. */
  method ExecObject(b: BaseCheck, ghost c: Check, ghost fp: set<object>,
                    rules: map<string, BaseCheck>, ghost trees: Rules, ghost parts: map<string, set<object>>,
                    ghost repr: set<object>, v: Valuation, depth: nat)
    returns (r: Result)
    requires Rep(b, c, fp) && RepMap(rules, trees, parts, repr)
    ensures r == Exec(trees, c, v, depth)
    decreases depth, c, 1
  {
    match b
    case FalsePtr => r := Bool(false);
    case TruePtr => r := Bool(true);
    case NotPtr(inner) =>
      r := ExecObject(inner, c.rule, fp, rules, trees, parts, repr, v, depth);
      if r.Bool? {
        r := Bool(!r.b);
      }
    case AndPtr(l) =>
      r := ExecList(l, c.rules, fp, rules, trees, parts, repr, v, depth, false);
    case OrPtr(l) =>
      r := ExecList(l, c.rules, fp, rules, trees, parts, repr, v, depth, true);
    case RulePtr(kind, name) =>
      if |rules| == 0 {
        EmptyKeys(rules, trees);
        return Bool(false);
      }
      NonEmptyKeys(rules, trees);
      if name !in rules {
        r := NilCheck;
      } else if depth == 0 {
        r := OutOfStack;
      } else {
        r := ExecObject(rules[name], trees[name], parts[name], rules, trees, parts, repr, v, depth - 1);
      }
    case RolePtr(kind, body) => r := Bool(v(RoleCheck(kind, body)));
    case GenericPtr(kind, body) => r := Bool(v(GenericCheck(kind, body)));
  }

  lemma EmptyKeys<A, B, C>(m: map<A, B>, t: map<A, C>)
    requires |m| == 0 && m.Keys == t.Keys
    ensures t == map[]
  {
    assert m == map[];
  }

  lemma NonEmptyKeys<A, B, C>(m: map<A, B>, t: map<A, C>)
    requires |m| != 0 && m.Keys == t.Keys
    ensures t != map[]
  {
    assert t == map[] ==> t.Keys == {} && |m.Keys| == |m|;
  }

  /** The loops of AndCheck.Exec (`stop` is false) and OrCheck.Exec (`stop` is true). */
  method ExecList(l: CheckList, ghost cs: seq<Check>, ghost fp: set<object>,
                  rules: map<string, BaseCheck>, ghost trees: Rules, ghost parts: map<string, set<object>>,
                  ghost repr: set<object>, v: Valuation, depth: nat, stop: bool)
    returns (r: Result)
    requires RepList(l, cs, fp) && RepMap(rules, trees, parts, repr)
    ensures r == ExecUntil(trees, cs, v, depth, stop)
    decreases depth, cs, 0
  {
    for i := 0 to |l.rules|
      invariant ExecUntil(trees, cs, v, depth, stop) == ExecUntil(trees, cs[i..], v, depth, stop)
    {
      r := ExecObject(l.rules[i], cs[i], l.parts[i], rules, trees, parts, repr, v, depth);
      assert cs[i..][0] == cs[i] && cs[i..][1..] == cs[i + 1..];
      if r != Bool(!stop) {
        return;
      }
    }
    assert cs[|cs|..] == [];
    r := Bool(!stop);
  }

  lemma RepMapMerge(r1: map<string, BaseCheck>, t1: Rules, p1: map<string, set<object>>, s1: set<object>,
                    r2: map<string, BaseCheck>, t2: Rules, p2: map<string, set<object>>, s2: set<object>)
    requires RepMap(r1, t1, p1, s1) && RepMap(r2, t2, p2, s2)
    ensures RepMap(r1 + r2, t1 + t2, p1 + p2, s1 + s2)
  {}

  /** `base` with the entries of `update` written whose names are not in `left`. */
  function Written<V>(base: map<string, V>, update: map<string, V>, left: set<string>): map<string, V> {
    base + (map k | k in update && k !in left :: update[k])
  }

  lemma AllWritten<V>(base: map<string, V>, update: map<string, V>)
    ensures Written(base, update, {}) == base + update
    ensures Written(base, update, update.Keys) == base
  {
    assert (map k | k in update && k !in {} :: update[k]) == update;
  }

  lemma WriteNext<V>(base: map<string, V>, update: map<string, V>, left: set<string>, k: string)
    requires k in left && k in update
    ensures Written(base, update, left - {k}) == Written(base, update, left)[k := update[k]]
  {}

  class Enforcer {
    var rules: map<string, BaseCheck>
    ghost var trees: Rules
    ghost var parts: map<string, set<object>>
    ghost var Repr: set<object>

    ghost predicate Valid()
      reads this, Repr
    {
      this in Repr && RepMap(rules, trees, parts, Repr - {this})
    }

    constructor ()
      ensures Valid() && fresh(Repr) && trees == map[]
    {
      rules, trees, parts := map[], map[], map[];
      Repr := {this};
    }

    /** UpdateRules: the entries of `update` are written one by one, in any order. */
    method UpdateRules(update: map<string, BaseCheck>, ghost newTrees: Rules, ghost newParts: map<string, set<object>>, ghost newRepr: set<object>)
      requires Valid() && RepMap(update, newTrees, newParts, newRepr) && this !in newRepr
      modifies this
      ensures Valid() && Repr == old(Repr) + newRepr
      ensures trees == old(trees) + newTrees
      ensures rules == old(rules) + update
    {
      RepMapMerge(rules, trees, parts, Repr - {this}, update, newTrees, newParts, newRepr);
      assert Repr - {this} + newRepr == Repr + newRepr - {this};
      WriteRules(update);
      trees, parts, Repr := trees + newTrees, parts + newParts, Repr + newRepr;
    }

    /** The loop of UpdateRules. */
    method WriteRules(update: map<string, BaseCheck>)
      modifies this`rules
      ensures rules == old(rules) + update
    {
      AllWritten(rules, update);
      var left := update.Keys;
      while left != {}
        invariant left <= update.Keys
        invariant rules == Written(old(rules), update, left)
      {
        var k :| k in left;
        WriteNext(old(rules), update, left, k);
        rules := rules[k := update[k]];
        left := left - {k};
      }
    }

    /** Enforce, with the rules already loaded. */
    method Enforce(name: string, v: Valuation, depth: nat) returns (a: Answer)
      requires Valid()
      ensures a.NoSuchRule? <==> name !in trees
      ensures name in trees ==> a == Evaluated(Exec(trees, trees[name], v, depth))
      ensures name in trees && (trees[name].RoleCheck? || trees[name].GenericCheck?) ==> a == Evaluated(Bool(v(trees[name])))
      // an answer is the value of the rule in every solution of the rules
      ensures Answered(a) ==> forall env | Model(trees, v, env) :: a.r.b == Eval(trees[name], env)
      // it answers if the references are ranked, and calls a nil check only if a reachable rule is missing
      ensures name in trees && depth >= |trees| ==> forall rank | Ranked(trees, rank) :: Answered(a)
      ensures name in trees && a.r.NilCheck? ==> forall names | Reachable(trees, trees[name], names) :: !(names <= trees.Keys)
      // with the stack for one reference to every rule, only what would never end is cut off
      ensures name in trees && depth >= |trees| && a.r.OutOfStack? ==> forall d :: Exec(trees, trees[name], v, d).OutOfStack?
    {
      if name !in rules {
        return NoSuchRule;
      }
      var r := ExecObject(rules[name], trees[name], parts[name], rules, trees, parts, Repr - {this}, v, depth);
      ExecMeans(trees, name, v, depth);
      return Evaluated(r);
    }
  }

  predicate Answered(a: Answer) {
    a.Evaluated? && a.r.Bool?
  }

  lemma ExecMeans(trees: Rules, name: string, v: Valuation, depth: nat)
    requires name in trees
    ensures var r := Exec(trees, trees[name], v, depth);
      && (r.Bool? ==> forall env | Model(trees, v, env) :: r.b == Eval(trees[name], env))
      && (depth >= |trees| ==> forall rank | Ranked(trees, rank) :: r.Bool?)
      && (r.NilCheck? ==> forall names | Reachable(trees, trees[name], names) :: !(names <= trees.Keys))
      && (depth >= |trees| && r.OutOfStack? ==> forall d :: Exec(trees, trees[name], v, d).OutOfStack?)
  {
    var c := trees[name];
    var r := Exec(trees, c, v, depth);
    if r.Bool? {
      forall env | Model(trees, v, env) ensures r.b == Eval(c, env) {
        AnswerIsSound(trees, v, env, c, depth);
      }
    }
    EndsExactlyIf(trees, c, v);
    forall rank | Ranked(trees, rank) && depth >= |trees| ensures r.Bool? {
      ModelExists(trees, rank, v);
      RankedAnswers(trees, rank, v, ExecModel(trees, rank, v), c);
    }
    forall names | r.NilCheck? && Reachable(trees, c, names) ensures !(names <= trees.Keys) {
      NilCheckIsMissing(trees, names, c, v, depth);
    }
  }

  datatype DefaultRule = DefaultRule(name: string, checkStr: string)

  /** The rule texts with the defaults filled in where the file says nothing; the first default wins. */
  function WithDefaults(texts: map<string, string>, defaults: seq<DefaultRule>): map<string, string>
    decreases |defaults|
  {
    if defaults == [] then texts
    else
      var d := defaults[0];
      WithDefaults(if d.name in texts then texts else texts[d.name := d.checkStr], defaults[1..])
  }

  /** A default never overrides the policy file, and every default name is defined. */
  lemma {:induction false} DefaultsFillGaps(texts: map<string, string>, defaults: seq<DefaultRule>)
    ensures forall n | n in texts :: n in WithDefaults(texts, defaults) && WithDefaults(texts, defaults)[n] == texts[n]
    ensures forall i | 0 <= i < |defaults| :: defaults[i].name in WithDefaults(texts, defaults)
    ensures forall n | n in WithDefaults(texts, defaults) && n !in texts ::
      exists i | 0 <= i < |defaults| :: defaults[i] == DefaultRule(n, WithDefaults(texts, defaults)[n])
    decreases |defaults|
  {
    if defaults != [] {
      var d := defaults[0];
      var texts' := if d.name in texts then texts else texts[d.name := d.checkStr];
      DefaultsFillGaps(texts', defaults[1..]);
      var all := WithDefaults(texts, defaults);
      assert all == WithDefaults(texts', defaults[1..]);
      forall i | 0 <= i < |defaults| ensures defaults[i].name in all {
        if i > 0 {
          assert defaults[i] == defaults[1..][i - 1];
        }
      }
      forall n | n in all && n !in texts
        ensures exists i | 0 <= i < |defaults| :: defaults[i] == DefaultRule(n, all[n])
      {
        if n in texts' {
          assert defaults[0] == DefaultRule(n, all[n]);
        } else {
          var i :| 0 <= i < |defaults[1..]| && defaults[1..][i] == DefaultRule(n, all[n]);
          assert defaults[i + 1] == DefaultRule(n, all[n]);
        }
      }
    }
  }

  /** Of several defaults of one name the first one counts. */
  lemma {:induction false} FirstDefaultWins(texts: map<string, string>, defaults: seq<DefaultRule>, i: nat)
    requires i < |defaults| && defaults[i].name !in texts && forall k | 0 <= k < i :: defaults[k].name != defaults[i].name
    ensures defaults[i].name in WithDefaults(texts, defaults)
    ensures WithDefaults(texts, defaults)[defaults[i].name] == defaults[i].checkStr
    decreases i
  {
    var d := defaults[0];
    var texts' := if d.name in texts then texts else texts[d.name := d.checkStr];
    DefaultsFillGaps(texts', defaults[1..]);
    if i > 0 {
      FirstDefaultWins(texts', defaults[1..], i - 1);
    }
  }

  /** The trees of a policy file whose texts all parse; a text that panics has none and stands here as one
      that is never true. */
  function TreesOf(texts: map<string, string>): Rules {
    map n | n in texts :: if ParseText(texts[n]).Parsed? then ParseText(texts[n]).c else FalseCheck
  }

  /** Rules.Load: the defaults are added, then every text is parsed, in any order. `ok` is false
      when one of the texts panics. */
  method Load(data: map<string, string>, defaults: seq<DefaultRule>)
    returns (ok: bool, rules: map<string, BaseCheck>, ghost parts: map<string, set<object>>, ghost repr: set<object>)
    ensures fresh(repr)
    ensures ok <==> forall n | n in WithDefaults(data, defaults) :: ParseText(WithDefaults(data, defaults)[n]).Parsed?
    ensures ok ==> RepMap(rules, TreesOf(WithDefaults(data, defaults)), parts, repr)
  {
    var texts := data;
    for i := 0 to |defaults|
      invariant WithDefaults(texts, defaults[i..]) == WithDefaults(data, defaults)
    {
      var d := defaults[i];
      assert defaults[i..][0] == d && defaults[i..][1..] == defaults[i + 1..];
      if d.name !in texts {
        texts := texts[d.name := d.checkStr];
      }
    }
    ok, rules, parts, repr := ParseAll(texts);
  }

  method ParseAll(texts: map<string, string>)
    returns (ok: bool, rules: map<string, BaseCheck>, ghost parts: map<string, set<object>>, ghost repr: set<object>)
    ensures fresh(repr)
    ensures ok <==> forall n | n in texts :: ParseText(texts[n]).Parsed?
    ensures ok ==> RepMap(rules, TreesOf(texts), parts, repr)
  {
    rules, parts, repr := map[], map[], {};
    var left := texts.Keys;
    while left != {}
      invariant left <= texts.Keys && fresh(repr)
      invariant rules.Keys == parts.Keys == texts.Keys - left
      invariant forall n | n in rules ::
        ParseText(texts[n]).Parsed? && parts[n] <= repr && Rep(rules[n], ParseText(texts[n]).c, parts[n])
    {
      var n :| n in left;
      left := left - {n};
      var parsed, check, fp := ParseRule(texts[n]);
      if !parsed {
        return false, map[], map[], {};
      }
      rules, parts, repr := rules[n := check], parts[n := fp], repr + fp;
    }
    ok := true;
  }

  // ---------------------------------------------------------------- from texts to answers

  /** A solution of the rule texts read as equations, by their grammar and over the given atoms. */
  ghost predicate TextModel(texts: map<string, string>, v: Valuation, env: Valuation) {
    && (forall a: Check | a.RuleCheck? && a.body in texts :: env(a) == Means(texts[a.body], env))
    && (forall a: Check | !a.RuleCheck? :: env(a) == v(a))
  }

  lemma TreesMean(texts: map<string, string>, v: Valuation, env: Valuation)
    requires forall n | n in texts :: ParseText(texts[n]).Parsed?
    requires TextModel(texts, v, env)
    ensures Model(TreesOf(texts), v, env)
    ensures forall n | n in texts :: Eval(TreesOf(texts)[n], env) == Means(texts[n], env)
  {
    forall n | n in texts ensures Eval(TreesOf(texts)[n], env) == Means(texts[n], env) {
      TextMeans(texts[n], env);
    }
  }

  /** What an answer says about the rule texts: it is the meaning of the text of the rule, in every
      solution, and for every derivation of it. */
  ghost predicate AnswerMeans(texts: map<string, string>, name: string, v: Valuation, b: bool)
    requires name in texts
  {
    forall env | TextModel(texts, v, env) ::
      && b == Means(texts[name], env)
      && forall p: OrPhrase | texts[name] != "" && YieldOr(p) == Read(texts[name]) :: b == MeaningOr(p, env)
  }

  /** LoadRules of a new Enforcer; it panics exactly if one of the texts does. */
  method LoadRules(data: map<string, string>, defaults: seq<DefaultRule>) returns (loaded: bool, e: Enforcer)
    ensures fresh(e) && e.Valid()
    ensures loaded <==> forall n | n in WithDefaults(data, defaults) :: !Panics(WithDefaults(data, defaults)[n])
    ensures loaded ==> e.trees == TreesOf(WithDefaults(data, defaults))
  {
    ghost var texts := WithDefaults(data, defaults);
    ParsedUnlessPanics(texts);
    var rules;
    ghost var parts, repr;
    loaded, rules, parts, repr := Load(data, defaults);
    e := new Enforcer();
    if loaded {
      e.UpdateRules(rules, TreesOf(texts), parts, repr);
      NothingBefore(TreesOf(texts));
    }
  }

  lemma NothingBefore(trees: Rules)
    ensures map[] + trees == trees
  {}

  /** Enforce from the texts on: it answers with the meaning of the text of the rule, and if the references
      are ranked it does answer. */
  method LoadAndEnforce(data: map<string, string>, defaults: seq<DefaultRule>, name: string, v: Valuation, depth: nat)
    returns (loaded: bool, a: Answer)
    ensures loaded <==> forall n | n in WithDefaults(data, defaults) :: !Panics(WithDefaults(data, defaults)[n])
    ensures loaded ==> (a.NoSuchRule? <==> name !in WithDefaults(data, defaults))
    ensures loaded && Answered(a) ==> AnswerMeans(WithDefaults(data, defaults), name, v, a.r.b)
    ensures loaded && a.Evaluated? && depth >= |WithDefaults(data, defaults)| ==>
      forall rank | Ranked(TreesOf(WithDefaults(data, defaults)), rank) :: Answered(a)
  {
    var e;
    a := NoSuchRule;
    loaded, e := LoadRules(data, defaults);
    if loaded {
      a := EnforceTexts(e, WithDefaults(data, defaults), name, v, depth);
    }
  }

  method EnforceTexts(e: Enforcer, ghost texts: map<string, string>, name: string, v: Valuation, depth: nat) returns (a: Answer)
    requires e.Valid() && e.trees == TreesOf(texts) && forall n | n in texts :: !Panics(texts[n])
    ensures a.NoSuchRule? <==> name !in texts
    ensures Answered(a) ==> AnswerMeans(texts, name, v, a.r.b)
    ensures a.Evaluated? && depth >= |texts| ==> forall rank | Ranked(TreesOf(texts), rank) :: Answered(a)
  {
    a := e.Enforce(name, v, depth);
    ParsedUnlessPanics(texts);
    SameSize(texts, e.trees);
    if Answered(a) {
      AnswerIsMeaning(texts, name, v, a.r.b);
    }
  }

  lemma SameSize<A, B, C>(m: map<A, B>, t: map<A, C>)
    requires m.Keys == t.Keys
    ensures |m| == |t|
  {
    assert |m| == |m.Keys| && |t| == |t.Keys|;
  }

  lemma ParsedUnlessPanics(texts: map<string, string>)
    ensures forall n | n in texts :: ParseText(texts[n]).Parsed? <==> !Panics(texts[n])
  {
    forall n | n in texts ensures ParseText(texts[n]).Parsed? <==> !Panics(texts[n]) {
      RuleMeans(texts[n]);
    }
  }

  lemma AnswerIsMeaning(texts: map<string, string>, name: string, v: Valuation, b: bool)
    requires (forall n | n in texts :: ParseText(texts[n]).Parsed?) && name in texts
    requires forall env | Model(TreesOf(texts), v, env) :: b == Eval(TreesOf(texts)[name], env)
    ensures AnswerMeans(texts, name, v, b)
  {
    forall env | TextModel(texts, v, env)
      ensures b == Means(texts[name], env)
      ensures forall p: OrPhrase | texts[name] != "" && YieldOr(p) == Read(texts[name]) :: b == MeaningOr(p, env)
    {
      TreesMean(texts, v, env);
      forall p: OrPhrase | texts[name] != "" && YieldOr(p) == Read(texts[name]) ensures b == MeaningOr(p, env) {
        MeansDerivation(texts[name], p, env);
      }
    }
  }
}
