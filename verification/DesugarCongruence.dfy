// Innermost steps stay within the least congruence that the rules generate.
module DesugarCongruence {
  import opened Wrappers
  import opened Ir
  import opened Desugar
  import opened DesugarMeaning
  import opened DesugarTermination
  import opened DesugarRuns

  type Relation = (IrTerm, IrTerm) -> bool

  ghost predicate Equivalence(E: Relation) {
    && (forall t :: E(t, t))
    && (forall t, u :: E(t, u) ==> E(u, t))
    && (forall t, u, v :: E(t, u) && E(u, v) ==> E(t, v))
  }

  ghost predicate AllRelated(E: Relation, ts: seq<IrTerm>, us: seq<IrTerm>) {
    |ts| == |us| && forall i :: 0 <= i < |ts| ==> E(ts[i], us[i])
  }

  ghost predicate BindingsRelated(E: Relation, bs: seq<LetBinding>, cs: seq<LetBinding>) {
    |bs| == |cs| && forall i :: 0 <= i < |bs| ==> bs[i].name == cs[i].name && E(bs[i].bound, cs[i].bound)
  }

  ghost predicate UnderConstructors(E: Relation) {
    && (forall name, ts, us :: AllRelated(E, ts, us) ==> E(Ctor(name, ts), Ctor(name, us)))
    && (forall param, sort, t, u :: E(t, u) ==> E(Lambda(param, sort, t), Lambda(param, sort, u)))
    && (forall bs, cs, t, u :: BindingsRelated(E, bs, cs) && E(t, u) ==> E(Let(bs, t), Let(cs, u)))
  }

  /** Aliases name one operation, and every instance of a rule is an equation. */
  ghost predicate HoldsRules(E: Relation, rules: seq<Rule>) {
    && (forall a, b, ts :: NamesAlias(a, b) ==> E(Ctor(a, ts), Ctor(b, ts)))
    && (forall r, b: Bindings, t, u ::
          r in rules && Instantiate(r.lhs, b) == Some(t) && Instantiate(r.rhs, b) == Some(u) ==> E(t, u))
  }

  /** The least such relation is the congruence the rules generate. */
  ghost predicate Congruence(E: Relation, rules: seq<Rule>) {
    Equivalence(E) && UnderConstructors(E) && HoldsRules(E, rules)
  }

  // A matched term is congruent to the instance of the pattern.
  lemma {:induction false} MatchCongruent(E: Relation, rules: seq<Rule>, p: EquationTerm, t: IrTerm, b: Bindings,
                                          big: Bindings)
    requires Congruence(E, rules) && Match(p, t, b).Some? && Extends(Match(p, t, b).value, big)
    ensures Instantiate(p, big).Some? && E(Instantiate(p, big).value, t)
    decreases PatternSize(p), 0
  {
    match p
    case PVar(name) => assert name in Match(p, t, b).value;
    case PConst(_, _) =>
    case PUnit => UnitAliases(t.ctor);
    case POp(name, ps) =>
      MatchAllCongruent(E, rules, ps, t.args, b, big);
      var ls := InstantiateAll(ps, big).value;
      assert E(Ctor(name, ls), Ctor(name, t.args)) && E(Ctor(name, t.args), Ctor(t.ctor, t.args));
  }

  lemma {:induction false} MatchAllCongruent(E: Relation, rules: seq<Rule>, ps: seq<EquationTerm>, ts: seq<IrTerm>,
                                             b: Bindings, big: Bindings)
    requires Congruence(E, rules) && |ps| == |ts| && MatchAll(ps, ts, b).Some?
               && Extends(MatchAll(ps, ts, b).value, big)
    ensures InstantiateAll(ps, big).Some? && AllRelated(E, InstantiateAll(ps, big).value, ts)
    decreases PatternsSize(ps), 1
  {
    if ps != [] {
      var b' := Match(ps[0], ts[0], b).value;
      MatchAllBinds(ps[1..], ts[1..], b');
      MatchCongruent(E, rules, ps[0], ts[0], b, big);
      MatchAllCongruent(E, rules, ps[1..], ts[1..], b', big);
      var rest := InstantiateAll(ps[1..], big).value;
      forall i | 0 <= i < |ts|
        ensures E(InstantiateAll(ps, big).value[i], ts[i])
      {
        assert i > 0 ==> E(rest[i - 1], ts[1..][i - 1]);
      }
    }
  }

  // Every innermost step relates congruent terms.
  lemma {:induction false} StepCongruent(E: Relation, rules: seq<Rule>, t: IrTerm, u: IrTerm)
    requires Congruence(E, rules) && InnerStep(rules, t, u)
    ensures E(t, u)
    decreases TermSize(t), 0
  {
    match t
    case Ctor(_, args) =>
      if AllNormal(rules, args) && exists r :: r in rules && Contracts(r, t, u) {
        var r :| r in rules && Contracts(r, t, u);
        ContractionCongruent(E, rules, r, t, u);
      } else {
        StepsCongruent(E, rules, args, u.args);
      }
    case Lambda(_, _, body) => StepCongruent(E, rules, body, u.body);
    case Let(bs, body) =>
      if u.letBody == body && InnerBindings(rules, bs, u.bindings) {
        BindingsCongruent(E, rules, bs, u.bindings);
        assert E(body, body);
      } else {
        StepCongruent(E, rules, body, u.letBody);
        assert BindingsRelated(E, bs, bs);
      }
  }

  lemma {:induction false} ContractionCongruent(E: Relation, rules: seq<Rule>, r: Rule, t: IrTerm, u: IrTerm)
    requires Congruence(E, rules) && r in rules && Contracts(r, t, u)
    ensures E(t, u)
  {
    var m := Match(r.lhs, t, map[]).value;
    MatchCongruent(E, rules, r.lhs, t, map[], m);
    var l := Instantiate(r.lhs, m).value;
    assert E(l, u) && E(l, t) && E(t, l);
  }

  lemma {:induction false} StepsCongruent(E: Relation, rules: seq<Rule>, ts: seq<IrTerm>, us: seq<IrTerm>)
    requires Congruence(E, rules) && InnerSteps(rules, ts, us)
    ensures AllRelated(E, ts, us)
    decreases TermsSize(ts), 1
  {
    if us[1..] == ts[1..] && InnerStep(rules, ts[0], us[0]) {
      StepCongruent(E, rules, ts[0], us[0]);
      assert forall i :: 0 < i < |ts| ==> ts[i] == ts[1..][i - 1] && us[i] == us[1..][i - 1];
    } else {
      StepsCongruent(E, rules, ts[1..], us[1..]);
      assert forall i :: 0 < i < |ts| ==> ts[i] == ts[1..][i - 1] && us[i] == us[1..][i - 1];
    }
  }

  lemma {:induction false} BindingsCongruent(E: Relation, rules: seq<Rule>, bs: seq<LetBinding>, cs: seq<LetBinding>)
    requires Congruence(E, rules) && InnerBindings(rules, bs, cs)
    ensures BindingsRelated(E, bs, cs)
    decreases BindingsSize(bs), 1
  {
    if cs[1..] == bs[1..] && InnerStep(rules, bs[0].bound, cs[0].bound) {
      StepCongruent(E, rules, bs[0].bound, cs[0].bound);
    } else {
      BindingsCongruent(E, rules, bs[1..], cs[1..]);
    }
    assert forall i :: 0 < i < |bs| ==> bs[i] == bs[1..][i - 1] && cs[i] == cs[1..][i - 1];
  }

  // The output of a run is equal to its input in every congruence that has the rules, so in the least.
  lemma {:induction false} TraceCongruent(E: Relation, rules: seq<Rule>, ts: seq<IrTerm>, fired: seq<Rule>)
    requires Congruence(E, rules) && Trace(rules, ts, fired)
    ensures E(ts[0], ts[|fired|])
    decreases |fired|
  {
    if fired != [] {
      var n := |fired| - 1;
      TraceCongruent(E, rules, ts[..n + 1], fired[..n]);
      StepAt(rules, ts, fired, n);
      RewriteIsInner(rules, ts[n]);
      StepCongruent(E, rules, ts[n], ts[n + 1]);
    }
  }
}
