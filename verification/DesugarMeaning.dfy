// What desugaring preserves, and what it stops at.
module DesugarMeaning {
  import opened Ir
  import opened Semantics
  import opened Desugar

  // ---------- redexes and normal forms ----------

  predicate Matches(r: Rule, t: IrTerm) {
    Match(r.lhs, t, map[]).Some?
  }

  /** No rule matches at any node. */
  predicate Normal(rules: seq<Rule>, t: IrTerm)
    decreases TermSize(t), 0
  {
    match t
    case Ctor(_, args) => AllNormal(rules, args) && forall r :: r in rules ==> !Matches(r, t)
    case Lambda(_, _, body) => Normal(rules, body)
    case Let(bs, body) => BindingsNormal(rules, bs) && Normal(rules, body)
    case _ => true
  }

  predicate AllNormal(rules: seq<Rule>, ts: seq<IrTerm>)
    decreases TermsSize(ts), 1
  {
    ts == [] || (Normal(rules, ts[0]) && AllNormal(rules, ts[1..]))
  }

  predicate BindingsNormal(rules: seq<Rule>, bs: seq<LetBinding>)
    decreases BindingsSize(bs), 1
  {
    bs == [] || (Normal(rules, bs[0].bound) && BindingsNormal(rules, bs[1..]))
  }

  lemma {:induction false} NoRuleApplies(rules: seq<Rule>, t: IrTerm)
    ensures ApplyFirst(rules, t) == Unchanged <==> forall r :: r in rules ==> !Matches(r, t)
  {
    if rules != [] {
      NoRuleApplies(rules[1..], t);
      assert rules[0] in rules;
      assert forall r :: r in rules <==> r == rules[0] || r in rules[1..];
    }
  }

  // The rewriter reports no step exactly at the normal forms.
  lemma {:induction false} UnchangedIsNormal(rules: seq<Rule>, t: IrTerm)
    ensures RewriteOnce(rules, t) == Unchanged <==> Normal(rules, t)
    decreases TermSize(t), 0
  {
    match t
    case Ctor(_, args) =>
      UnchangedArgs(rules, args);
      NoRuleApplies(rules, t);
    case Lambda(_, _, body) => UnchangedIsNormal(rules, body);
    case Let(bs, body) =>
      UnchangedBindings(rules, bs);
      UnchangedIsNormal(rules, body);
    case _ =>
  }

  lemma {:induction false} UnchangedArgs(rules: seq<Rule>, ts: seq<IrTerm>)
    ensures RewriteArgs(rules, ts) == Unchanged <==> AllNormal(rules, ts)
    decreases TermsSize(ts), 1
  {
    if ts != [] {
      UnchangedIsNormal(rules, ts[0]);
      UnchangedArgs(rules, ts[1..]);
    }
  }

  lemma {:induction false} UnchangedBindings(rules: seq<Rule>, bs: seq<LetBinding>)
    ensures RewriteBindings(rules, bs) == Unchanged <==> BindingsNormal(rules, bs)
    decreases BindingsSize(bs), 1
  {
    if bs != [] {
      UnchangedIsNormal(rules, bs[0].bound);
      UnchangedBindings(rules, bs[1..]);
    }
  }

  // ---------- equations ----------

  /** A pattern's value, its variables valued by s. */
  ghost function EvalPattern<V(!new)>(M: Model<V>, p: EquationTerm, s: Env<V>): V
    decreases PatternSize(p), 0
  {
    match p
    case PVar(name) => Lookup(M, s, name)
    case POp(name, ps) => M.ctor(name, EvalPatterns(M, ps, s))
    case PConst(value, sort) => M.constant(value, sort)
    case PUnit => M.ctor("unit", [])
  }

  ghost function EvalPatterns<V(!new)>(M: Model<V>, ps: seq<EquationTerm>, s: Env<V>): seq<V>
    decreases PatternsSize(ps), 1
  {
    if ps == [] then [] else [EvalPattern(M, ps[0], s)] + EvalPatterns(M, ps[1..], s)
  }

  /** An interpretation in which every rule is an equation and aliases are one operation. */
  ghost predicate Satisfies<V(!new)>(M: Model<V>, rules: seq<Rule>) {
    && (forall a, b, vs :: NamesAlias(a, b) ==> M.ctor(a, vs) == M.ctor(b, vs))
    && (forall r, s: Env<V> :: r in rules ==> EvalPattern(M, r.lhs, s) == EvalPattern(M, r.rhs, s))
  }

  ghost function Valuation<V(!new)>(M: Model<V>, b: Bindings, e: Env<V>): Env<V> {
    map x | x in b :: Eval(M, b[x], e)
  }

  /** Every variable of a pattern. */
  function Vars(p: EquationTerm): set<Name>
    decreases PatternSize(p), 0
  {
    match p
    case PVar(name) => {name}
    case POp(_, ps) => VarsAll(ps)
    case _ => {}
  }

  function VarsAll(ps: seq<EquationTerm>): set<Name>
    decreases PatternsSize(ps), 1
  {
    if ps == [] then {} else Vars(ps[0]) + VarsAll(ps[1..])
  }

  predicate Extends(small: Bindings, big: Bindings) {
    forall x :: x in small ==> x in big && big[x] == small[x]
  }

  lemma {:induction false} MatchBinds(p: EquationTerm, t: IrTerm, b: Bindings)
    requires Match(p, t, b).Some?
    ensures Extends(b, Match(p, t, b).value) && Vars(p) <= Match(p, t, b).value.Keys
    decreases PatternSize(p), 0
  {
    match p
    case POp(_, ps) => MatchAllBinds(ps, t.args, b);
    case _ =>
  }

  lemma {:induction false} MatchAllBinds(ps: seq<EquationTerm>, ts: seq<IrTerm>, b: Bindings)
    requires |ps| == |ts| && MatchAll(ps, ts, b).Some?
    ensures Extends(b, MatchAll(ps, ts, b).value) && VarsAll(ps) <= MatchAll(ps, ts, b).value.Keys
    decreases PatternsSize(ps), 1
  {
    if ps != [] {
      MatchBinds(ps[0], ts[0], b);
      MatchAllBinds(ps[1..], ts[1..], Match(ps[0], ts[0], b).value);
    }
  }

  // A matched term has the value of the pattern, under any bindings that extend the match.
  lemma {:induction false} MatchEval<V(!new)>(M: Model<V>, rules: seq<Rule>, p: EquationTerm, t: IrTerm, b: Bindings,
                                              big: Bindings, e: Env<V>)
    requires Satisfies(M, rules) && Match(p, t, b).Some? && Extends(Match(p, t, b).value, big)
    ensures Eval(M, t, e) == EvalPattern(M, p, Valuation(M, big, e))
    decreases PatternSize(p), 0
  {
    match p
    case PVar(name) =>
      assert name in Match(p, t, b).value && Match(p, t, b).value[name] == t;
    case PConst(_, _) =>
    case PUnit =>
      UnitAliases(t.ctor);
      assert EvalAll(M, [], e) == [];
      assert M.ctor("unit", []) == M.ctor(t.ctor, []);
    case POp(name, ps) =>
      MatchAllEval(M, rules, ps, t.args, b, big, e);
      assert M.ctor(name, EvalAll(M, t.args, e)) == M.ctor(t.ctor, EvalAll(M, t.args, e));
  }

  lemma {:induction false} MatchAllEval<V(!new)>(M: Model<V>, rules: seq<Rule>, ps: seq<EquationTerm>, ts: seq<IrTerm>,
                                                 b: Bindings, big: Bindings, e: Env<V>)
    requires Satisfies(M, rules) && |ps| == |ts| && MatchAll(ps, ts, b).Some? && Extends(MatchAll(ps, ts, b).value, big)
    ensures EvalAll(M, ts, e) == EvalPatterns(M, ps, Valuation(M, big, e))
    decreases PatternsSize(ps), 1
  {
    if ps != [] {
      var b' := Match(ps[0], ts[0], b).value;
      MatchAllBinds(ps[1..], ts[1..], b');
      MatchEval(M, rules, ps[0], ts[0], b, big, e);
      MatchAllEval(M, rules, ps[1..], ts[1..], b', big, e);
    }
  }

  lemma {:induction false} InstantiateEval<V(!new)>(M: Model<V>, p: EquationTerm, b: Bindings, e: Env<V>)
    requires Instantiate(p, b).Some?
    ensures Eval(M, Instantiate(p, b).value, e) == EvalPattern(M, p, Valuation(M, b, e))
    decreases PatternSize(p), 0
  {
    match p
    case POp(_, ps) => InstantiateAllEval(M, ps, b, e);
    case PUnit => assert EvalAll(M, [], e) == [];
    case _ =>
  }

  lemma {:induction false} InstantiateAllEval<V(!new)>(M: Model<V>, ps: seq<EquationTerm>, b: Bindings, e: Env<V>)
    requires InstantiateAll(ps, b).Some?
    ensures EvalAll(M, InstantiateAll(ps, b).value, e) == EvalPatterns(M, ps, Valuation(M, b, e))
    decreases PatternsSize(ps), 1
  {
    if ps != [] {
      InstantiateEval(M, ps[0], b, e);
      InstantiateAllEval(M, ps[1..], b, e);
      assert InstantiateAll(ps, b).value[1..] == InstantiateAll(ps[1..], b).value;
    }
  }

  lemma {:induction false} ApplyEval<V(!new)>(M: Model<V>, rules: seq<Rule>, rest: seq<Rule>, t: IrTerm, e: Env<V>)
    requires Satisfies(M, rules) && (forall r :: r in rest ==> r in rules) && ApplyFirst(rest, t).Rewritten?
    ensures Eval(M, ApplyFirst(rest, t).term, e) == Eval(M, t, e)
    ensures ApplyFirst(rest, t).rule in rest
    decreases rest
  {
    var r := rest[0];
    assert r in rest && forall r' :: r' in rest[1..] ==> r' in rest;
    var m := Match(r.lhs, t, map[]);
    if m.Some? {
      MatchEval(M, rules, r.lhs, t, map[], m.value, e);
      InstantiateEval(M, r.rhs, m.value, e);
    } else {
      ApplyEval(M, rules, rest[1..], t, e);
    }
  }

  // One step changes neither the value of the term nor which rules there are to blame for it.
  lemma {:induction false} StepEval<V(!new)>(M: Model<V>, rules: seq<Rule>, t: IrTerm, e: Env<V>)
    requires Satisfies(M, rules) && RewriteOnce(rules, t).Rewritten?
    ensures Eval(M, RewriteOnce(rules, t).term, e) == Eval(M, t, e)
    ensures RewriteOnce(rules, t).rule in rules
    decreases TermSize(t), 0
  {
    match t
    case Ctor(_, args) =>
      if RewriteArgs(rules, args).Rewritten? {
        ArgsEval(M, rules, args, e);
      } else {
        ApplyEval(M, rules, rules, t, e);
      }
    case Lambda(param, sort, body) =>
      var body' := RewriteOnce(rules, body).term;
      forall v: V
        ensures Eval(M, body', Assign(e, param, v)) == Eval(M, body, Assign(e, param, v))
      {
        StepEval(M, rules, body, Assign(e, param, v));
      }
      StepEval(M, rules, body, e);
      assert Graph(M, body', param, e) == Graph(M, body, param, e);
    case Let(bs, body) =>
      if RewriteBindings(rules, bs).Rewritten? {
        BindingsEval(M, rules, bs, body, e);
      } else {
        LetBodyEval(M, rules, bs, body, e);
      }
  }

  lemma {:induction false} ArgsEval<V(!new)>(M: Model<V>, rules: seq<Rule>, ts: seq<IrTerm>, e: Env<V>)
    requires Satisfies(M, rules) && RewriteArgs(rules, ts).Rewritten?
    ensures EvalAll(M, RewriteArgs(rules, ts).term, e) == EvalAll(M, ts, e)
    ensures RewriteArgs(rules, ts).rule in rules
    decreases TermsSize(ts), 1
  {
    var us := RewriteArgs(rules, ts).term;
    if RewriteOnce(rules, ts[0]).Rewritten? {
      StepEval(M, rules, ts[0], e);
      assert us[1..] == ts[1..];
    } else {
      ArgsEval(M, rules, ts[1..], e);
      assert us[1..] == RewriteArgs(rules, ts[1..]).term;
    }
  }

  lemma {:induction false} BindingsEval<V(!new)>(M: Model<V>, rules: seq<Rule>, bs: seq<LetBinding>, body: IrTerm,
                                                 e: Env<V>)
    requires Satisfies(M, rules) && RewriteBindings(rules, bs).Rewritten?
    ensures EvalLet(M, RewriteBindings(rules, bs).term, body, e) == EvalLet(M, bs, body, e)
    ensures RewriteBindings(rules, bs).rule in rules
    decreases BindingsSize(bs), 1
  {
    var cs := RewriteBindings(rules, bs).term;
    if RewriteOnce(rules, bs[0].bound).Rewritten? {
      StepEval(M, rules, bs[0].bound, e);
      assert cs[1..] == bs[1..];
    } else {
      BindingsEval(M, rules, bs[1..], body, Assign(e, bs[0].name, Eval(M, bs[0].bound, e)));
      assert cs[1..] == RewriteBindings(rules, bs[1..]).term;
    }
  }

  lemma {:induction false} LetBodyEval<V(!new)>(M: Model<V>, rules: seq<Rule>, bs: seq<LetBinding>, body: IrTerm,
                                                e: Env<V>)
    requires Satisfies(M, rules) && RewriteOnce(rules, body).Rewritten?
    ensures EvalLet(M, bs, RewriteOnce(rules, body).term, e) == EvalLet(M, bs, body, e)
    ensures RewriteOnce(rules, body).rule in rules
    decreases TermSize(body), 1, |bs|
  {
    if bs == [] {
      StepEval(M, rules, body, e);
    } else {
      LetBodyEval(M, rules, bs[1..], body, Assign(e, bs[0].name, Eval(M, bs[0].bound, e)));
    }
  }
}
