// Whole desugaring runs: the rewriting loop, and why under the certificates every
// innermost strategy ends in the same place after the same number of steps.
module DesugarRuns {
  import opened Ir
  import opened Semantics
  import opened Desugar
  import opened DesugarMeaning
  import opened DesugarTermination
  import opened DesugarOverlap
  import opened DesugarConfluence

  // ---------- the loop ----------

  datatype Outcome =
    | Desugared(normalForm: IrTerm, applied: seq<string>, obligations: seq<string>)
    | NonTerminating(applied: seq<string>)
    | UnboundVariable(rule: Rule)

  /** ts[0] rewrites to ts[1] by fired[0], and so on. */
  ghost predicate Trace(rules: seq<Rule>, ts: seq<IrTerm>, fired: seq<Rule>) {
    && |ts| == |fired| + 1
    && forall i :: 0 <= i < |fired| ==> RewriteOnce(rules, ts[i]) == Rewritten(ts[i + 1], fired[i])
  }

  function Names(fired: seq<Rule>): (s: seq<string>) {
    seq(|fired|, i requires 0 <= i < |fired| => fired[i].fnName)
  }

  function Obligations(fired: seq<Rule>): (s: seq<string>) {
    seq(|fired|, i requires 0 <= i < |fired| => fired[i].obligation)
  }

  /** The run behind an outcome: the terms passed through and the rules fired. */
  ghost predicate Explains(rules: seq<Rule>, t: IrTerm, o: Outcome, ts: seq<IrTerm>, fired: seq<Rule>) {
    && Trace(rules, ts, fired) && ts[0] == t
    && match o
       case Desugared(normalForm, applied, obligations) =>
         && normalForm == ts[|fired|] && Normal(rules, normalForm) && |fired| < 10_000
         && applied == Names(fired) && obligations == Obligations(fired)
       case NonTerminating(applied) => |fired| == 10_000 && applied == Names(fired)
       case UnboundVariable(rule) => RewriteOnce(rules, ts[|fired|]) == Refused(rule) && |fired| < 10_000
  }

  method DesugarTerm(rules: seq<Rule>, t: IrTerm) returns (o: Outcome)
    ensures exists ts, fired :: Explains(rules, t, o, ts, fired)
  {
    hide RewriteOnce, Normal;
    var current, applied, obligations := t, [], [];
    ghost var ts: seq<IrTerm>, fired: seq<Rule> := [t], [];
    for step := 0 to MAX_REWRITE_STEPS
      invariant Trace(rules, ts, fired) && ts[0] == t && ts[|fired|] == current && |fired| == step
      invariant applied == Names(fired) && obligations == Obligations(fired)
    {
      var r := RewriteOnceInnermost(rules, current);
      UnchangedIsNormal(rules, current);
      match r {
        case Refused(rule) =>
          assert Explains(rules, t, UnboundVariable(rule), ts, fired);
          return UnboundVariable(rule);
        case Unchanged =>
          assert Explains(rules, t, Desugared(current, applied, obligations), ts, fired);
          return Desugared(current, applied, obligations);
        case Rewritten(next, rule) =>
          applied, obligations := applied + [rule.fnName], obligations + [rule.obligation];
          current := next;
          ts, fired := ts + [next], fired + [rule];
      }
    }
    o := NonTerminating(applied);
    assert Explains(rules, t, o, ts, fired);
  }

  // Every term of a run means what the first one does, wherever the rules' equations hold.
  lemma {:induction false} TraceEval<V(!new)>(M: Model<V>, rules: seq<Rule>, ts: seq<IrTerm>, fired: seq<Rule>,
                                              e: Env<V>)
    requires Satisfies(M, rules) && Trace(rules, ts, fired)
    ensures Eval(M, ts[|fired|], e) == Eval(M, ts[0], e)
    ensures forall r :: r in fired ==> r in rules
    decreases |fired|
  {
    if fired != [] {
      var n := |fired| - 1;
      TraceEval(M, rules, ts[..n + 1], fired[..n], e);
      StepAt(rules, ts, fired, n);
      StepEval(M, rules, ts[n], e);
      assert fired == fired[..n] + [fired[n]];
    }
  }

  lemma {:induction false} TraceIsInner(rules: seq<Rule>, ts: seq<IrTerm>, fired: seq<Rule>)
    requires Trace(rules, ts, fired)
    ensures InnerRun(rules, ts)
  {
    forall i | 0 < i < |ts|
      ensures InnerStep(rules, ts[i - 1], ts[i])
    {
      StepAt(rules, ts, fired, i - 1);
      RewriteIsInner(rules, ts[i - 1]);
    }
  }

  // Ranked rules stay below the step limit from any term whose potential does.
  lemma {:induction false} RankedWithinLimit(rules: seq<Rule>, order: seq<Name>, ts: seq<IrTerm>, fired: seq<Rule>)
    requires Ranked(rules, order) && Trace(rules, ts, fired) && Potential(rules, order, ts[0]) < MAX_REWRITE_STEPS
    ensures |fired| < MAX_REWRITE_STEPS
  {
    TraceIsInner(rules, ts, fired);
    InnerRunBound(rules, order, ts);
  }

  // ---------- right sides that bring no variable of their own ----------

  predicate Closed(rules: seq<Rule>) {
    forall r :: r in rules ==> Vars(r.rhs) <= Vars(r.lhs)
  }

  lemma {:induction false} BoundInstantiates(p: EquationTerm, b: Bindings)
    ensures Instantiate(p, b).Some? <==> Vars(p) <= b.Keys
    decreases PatternSize(p), 0
  {
    match p
    case POp(_, ps) => AllBoundInstantiate(ps, b);
    case _ =>
  }

  lemma {:induction false} AllBoundInstantiate(ps: seq<EquationTerm>, b: Bindings)
    ensures InstantiateAll(ps, b).Some? <==> VarsAll(ps) <= b.Keys
    decreases PatternsSize(ps), 1
  {
    if ps != [] {
      BoundInstantiates(ps[0], b);
      AllBoundInstantiate(ps[1..], b);
    }
  }

  // A set of rules refuses some term for an unbound variable only by a rule that is not closed.
  lemma {:induction false} RefusalBlames(rules: seq<Rule>, t: IrTerm)
    ensures RewriteOnce(rules, t).Refused? ==>
              var r := RewriteOnce(rules, t).unbound; r in rules && !(Vars(r.rhs) <= Vars(r.lhs))
    decreases TermSize(t), 0
  {
    match t
    case Ctor(_, args) =>
      ArgsRefusalBlames(rules, args);
      ApplyRefusalBlames(rules, t);
    case Lambda(_, _, body) => RefusalBlames(rules, body);
    case Let(bs, body) =>
      BindingsRefusalBlames(rules, bs);
      RefusalBlames(rules, body);
    case _ =>
  }

  lemma {:induction false} ApplyRefusalBlames(rules: seq<Rule>, t: IrTerm)
    ensures ApplyFirst(rules, t).Refused? ==>
              var r := ApplyFirst(rules, t).unbound; r in rules && !(Vars(r.rhs) <= Vars(r.lhs))
  {
    if rules != [] {
      var m := Match(rules[0].lhs, t, map[]);
      if m.Some? {
        MatchKeys(rules[0].lhs, t, map[]);
        BoundInstantiates(rules[0].rhs, m.value);
      } else {
        ApplyRefusalBlames(rules[1..], t);
      }
    }
  }

  lemma {:induction false} ArgsRefusalBlames(rules: seq<Rule>, ts: seq<IrTerm>)
    ensures RewriteArgs(rules, ts).Refused? ==>
              var r := RewriteArgs(rules, ts).unbound; r in rules && !(Vars(r.rhs) <= Vars(r.lhs))
    decreases TermsSize(ts), 1
  {
    if ts != [] {
      RefusalBlames(rules, ts[0]);
      ArgsRefusalBlames(rules, ts[1..]);
    }
  }

  lemma {:induction false} BindingsRefusalBlames(rules: seq<Rule>, bs: seq<LetBinding>)
    ensures RewriteBindings(rules, bs).Refused? ==>
              var r := RewriteBindings(rules, bs).unbound; r in rules && !(Vars(r.rhs) <= Vars(r.lhs))
    decreases BindingsSize(bs), 1
  {
    if bs != [] {
      RefusalBlames(rules, bs[0].bound);
      BindingsRefusalBlames(rules, bs[1..]);
    }
  }

  // ---------- any innermost strategy ----------

  // Two different innermost steps from one term are closed by one more step on each side.
  lemma {:induction false} Diamond(rules: seq<Rule>, t: IrTerm, u: IrTerm, v: IrTerm) returns (w: IrTerm)
    requires Exclusive(rules) && InnerStep(rules, t, u) && InnerStep(rules, t, v) && u != v
    ensures InnerStep(rules, u, w) && InnerStep(rules, v, w)
    decreases TermSize(t), 0
  {
    match t
    case Ctor(name, args) =>
      if AllNormal(rules, args) {
        SameContractum(rules, args, t, u, v);
      } else {
        var ws := DiamondArgs(rules, args, u.args, v.args);
        w := Ctor(name, ws);
      }
    case Lambda(param, sort, body) =>
      var w' := Diamond(rules, body, u.body, v.body);
      w := Lambda(param, sort, w');
    case Let(bs, body) =>
      if u.letBody == body && InnerBindings(rules, bs, u.bindings) {
        if v.letBody == body && InnerBindings(rules, bs, v.bindings) {
          var cs := DiamondBindings(rules, bs, u.bindings, v.bindings);
          w := Let(cs, body);
        } else {
          w := Let(u.bindings, v.letBody);
        }
      } else if v.letBody == body && InnerBindings(rules, bs, v.bindings) {
        w := Let(v.bindings, u.letBody);
      } else {
        var w' := Diamond(rules, body, u.letBody, v.letBody);
        w := Let(bs, w');
      }
  }

  lemma {:induction false} SameContractum(rules: seq<Rule>, args: seq<IrTerm>, t: IrTerm, u: IrTerm, v: IrTerm)
    requires Exclusive(rules) && t.Ctor? && t.args == args && AllNormal(rules, args)
    requires InnerStep(rules, t, u) && InnerStep(rules, t, v)
    ensures u == v
  {
    if u.Ctor? && InnerSteps(rules, args, u.args) {
      NotAllNormal(rules, args, u.args);
    }
    if v.Ctor? && InnerSteps(rules, args, v.args) {
      NotAllNormal(rules, args, v.args);
    }
    var r :| r in rules && Contracts(r, t, u);
    var s :| s in rules && Contracts(s, t, v);
    assert Matches(r, t) && Matches(s, t);
  }

  lemma {:induction false} DiamondArgs(rules: seq<Rule>, ts: seq<IrTerm>, us: seq<IrTerm>,
                                       vs: seq<IrTerm>) returns (ws: seq<IrTerm>)
    requires Exclusive(rules) && InnerSteps(rules, ts, us) && InnerSteps(rules, ts, vs) && us != vs
    ensures InnerSteps(rules, us, ws) && InnerSteps(rules, vs, ws)
    decreases TermsSize(ts), 1
  {
    assert us == [us[0]] + us[1..] && vs == [vs[0]] + vs[1..];
    if us[1..] == ts[1..] && InnerStep(rules, ts[0], us[0]) {
      if vs[1..] == ts[1..] && InnerStep(rules, ts[0], vs[0]) {
        var w := Diamond(rules, ts[0], us[0], vs[0]);
        ws := [w] + ts[1..];
      } else {
        ws := [us[0]] + vs[1..];
      }
    } else if vs[1..] == ts[1..] && InnerStep(rules, ts[0], vs[0]) {
      ws := [vs[0]] + us[1..];
    } else {
      var rest := DiamondArgs(rules, ts[1..], us[1..], vs[1..]);
      ws := [ts[0]] + rest;
    }
  }

  lemma {:induction false} DiamondBindings(rules: seq<Rule>, bs: seq<LetBinding>, cs: seq<LetBinding>,
                                           ds: seq<LetBinding>)
    returns (es: seq<LetBinding>)
    requires Exclusive(rules) && InnerBindings(rules, bs, cs) && InnerBindings(rules, bs, ds) && cs != ds
    ensures InnerBindings(rules, cs, es) && InnerBindings(rules, ds, es)
    decreases BindingsSize(bs), 1
  {
    assert cs == [cs[0]] + cs[1..] && ds == [ds[0]] + ds[1..];
    if cs[1..] == bs[1..] && InnerStep(rules, bs[0].bound, cs[0].bound) {
      if ds[1..] == bs[1..] && InnerStep(rules, bs[0].bound, ds[0].bound) {
        var w := Diamond(rules, bs[0].bound, cs[0].bound, ds[0].bound);
        es := [LetBinding(bs[0].name, w)] + bs[1..];
      } else {
        es := [cs[0]] + ds[1..];
      }
    } else if ds[1..] == bs[1..] && InnerStep(rules, bs[0].bound, ds[0].bound) {
      es := [ds[0]] + cs[1..];
    } else {
      var rest := DiamondBindings(rules, bs[1..], cs[1..], ds[1..]);
      es := [bs[0]] + rest;
    }
  }

  /** Some innermost strategy takes t to the normal form n in exactly k steps. */
  ghost predicate Reaches(rules: seq<Rule>, t: IrTerm, k: nat, n: IrTerm)
    decreases k
  {
    if k == 0 then t == n && Normal(rules, n)
    else exists u :: InnerStep(rules, t, u) && Reaches(rules, u, k - 1, n)
  }

  // No step leaves the way to a normal form, and each is one nearer.
  lemma {:induction false} StepStaysOnCourse(rules: seq<Rule>, t: IrTerm, k: nat, n: IrTerm, v: IrTerm)
    requires Exclusive(rules) && Reaches(rules, t, k, n) && InnerStep(rules, t, v)
    ensures k > 0 && Reaches(rules, v, k - 1, n)
    decreases k
  {
    NotNormal(rules, t, v);
    var u :| InnerStep(rules, t, u) && Reaches(rules, u, k - 1, n);
    if u != v {
      var w := Diamond(rules, t, u, v);
      StepStaysOnCourse(rules, u, k - 1, n, w);
      assert InnerStep(rules, v, w) && Reaches(rules, w, k - 2, n);
    }
  }

  // All innermost strategies agree on the normal form and on the number of steps to it.
  lemma {:induction false} StrategiesAgree(rules: seq<Rule>, t: IrTerm, k: nat, n: IrTerm, l: nat, m: IrTerm)
    requires Exclusive(rules) && Reaches(rules, t, k, n) && Reaches(rules, t, l, m)
    ensures k == l && n == m
    decreases l
  {
    if l == 0 {
      if k > 0 {
        var u :| InnerStep(rules, t, u) && Reaches(rules, u, k - 1, n);
        NotNormal(rules, t, u);
      }
    } else {
      var v :| InnerStep(rules, t, v) && Reaches(rules, v, l - 1, m);
      StepStaysOnCourse(rules, t, k, n, v);
      StrategiesAgree(rules, v, k - 1, n, l - 1, m);
    }
  }

  lemma {:induction false} TraceReaches(rules: seq<Rule>, ts: seq<IrTerm>, fired: seq<Rule>)
    requires Trace(rules, ts, fired) && Normal(rules, ts[|fired|])
    ensures Reaches(rules, ts[0], |fired|, ts[|fired|])
    decreases |fired|
  {
    if fired != [] {
      StepAt(rules, ts, fired, 0);
      RewriteIsInner(rules, ts[0]);
      forall i | 0 <= i < |fired[1..]|
        ensures RewriteOnce(rules, ts[1..][i]) == Rewritten(ts[1..][i + 1], fired[1..][i])
      {
        StepAt(rules, ts, fired, i + 1);
      }
      TraceReaches(rules, ts[1..], fired[1..]);
      assert InnerStep(rules, ts[0], ts[1]) && Reaches(rules, ts[1], |fired| - 1, ts[|fired|]);
    }
  }

  // Where at most one rule fires at a node, no innermost strategy finds another normal form than the rewriter, or a
  // shorter way to it.
  lemma {:induction false} ApartUnique(rules: seq<Rule>, ts: seq<IrTerm>, fired: seq<Rule>, l: nat, m: IrTerm)
    requires Apart(rules)
    requires Trace(rules, ts, fired) && Normal(rules, ts[|fired|]) && Reaches(rules, ts[0], l, m)
    ensures m == ts[|fired|] && l == |fired|
  {
    ApartIsExclusive(rules);
    TraceReaches(rules, ts, fired);
    StrategiesAgree(rules, ts[0], |fired|, ts[|fired|], l, m);
  }

  // Under the certificate that leaves only the rules that share a right side to look at.
  lemma {:induction false} CertifiedUnique(rules: seq<Rule>, ts: seq<IrTerm>, fired: seq<Rule>, l: nat, m: IrTerm)
    requires Confluent(rules) && AllComparable(rules) && SameRightsApart(rules)
    requires Trace(rules, ts, fired) && Normal(rules, ts[|fired|]) && Reaches(rules, ts[0], l, m)
    ensures m == ts[|fired|] && l == |fired|
  {
    ConfluentIsExclusive(rules);
    ApartUnique(rules, ts, fired, l, m);
  }

  // For closed rules, ranked by an order and with a small enough potential, the loop succeeds.
  lemma {:induction false} RankedSucceeds(rules: seq<Rule>, order: seq<Name>, t: IrTerm, o: Outcome, ts: seq<IrTerm>,
                                          fired: seq<Rule>)
    requires Explains(rules, t, o, ts, fired)
    requires Closed(rules) && Ranked(rules, order) && Potential(rules, order, t) < MAX_REWRITE_STEPS
    ensures o.Desugared?
  {
    RankedWithinLimit(rules, order, ts, fired);
    RefusalBlames(rules, ts[|fired|]);
  }

  lemma {:induction false} TracesAgree(rules: seq<Rule>, ts: seq<IrTerm>, fired: seq<Rule>, ts': seq<IrTerm>,
                                       fired': seq<Rule>, k: nat)
    requires Trace(rules, ts, fired) && Trace(rules, ts', fired') && ts[0] == ts'[0] && k <= |fired| && k <= |fired'|
    ensures ts[..k + 1] == ts'[..k + 1] && fired[..k] == fired'[..k]
  {
    if k > 0 {
      TracesAgree(rules, ts, fired, ts', fired', k - 1);
      assert ts[..k][k - 1] == ts'[..k][k - 1];
      StepAt(rules, ts, fired, k - 1);
      StepAt(rules, ts', fired', k - 1);
      assert ts[..k + 1] == ts[..k] + [ts[k]] && ts'[..k + 1] == ts'[..k] + [ts'[k]];
      assert fired[..k] == fired[..k - 1] + [fired[k - 1]] && fired'[..k] == fired'[..k - 1] + [fired'[k - 1]];
    }
  }

  lemma {:induction false} StepAt(rules: seq<Rule>, ts: seq<IrTerm>, fired: seq<Rule>, i: nat)
    requires Trace(rules, ts, fired) && i < |fired|
    ensures RewriteOnce(rules, ts[i]) == Rewritten(ts[i + 1], fired[i])
  {
  }

  // Rules and term leave the loop no choice of outcome.
  lemma {:induction false} OneOutcome(rules: seq<Rule>, t: IrTerm, o: Outcome, ts: seq<IrTerm>, fired: seq<Rule>,
                                      o': Outcome, ts': seq<IrTerm>, fired': seq<Rule>)
    requires Explains(rules, t, o, ts, fired) && Explains(rules, t, o', ts', fired') && |fired| <= |fired'|
    ensures o == o'
  {
    var k := |fired|;
    TracesAgree(rules, ts, fired, ts', fired', k);
    assert ts[..k + 1][k] == ts'[..k + 1][k];
    UnchangedIsNormal(rules, ts[k]);
    if k < |fired'| {
      StepAt(rules, ts', fired', k);
    }
    assert fired == fired[..k] == fired'[..k] == fired';
  }
}
