// Why a certified rule set terminates: innermost steps use up a potential that
// weighs each non-normal node by the rank of its operation.
module DesugarTermination {
  import opened Wrappers
  import opened Ir
  import opened Desugar
  import opened DesugarMeaning

  // ---------- ranks ----------

  /** One more than the last position of an alias of the name; 0 if there is none. */
  function Rank(order: seq<Name>, name: Name): (k: nat)
    ensures k <= |order|
    ensures k > 0 ==> NamesAlias(order[k - 1], name)
    ensures forall i :: k <= i < |order| ==> !NamesAlias(order[i], name)
  {
    if order == [] then 0
    else if NamesAlias(order[|order| - 1], name) then |order|
    else Rank(order[..|order| - 1], name)
  }

  function OpNames(p: EquationTerm): set<Name>
    decreases PatternSize(p), 0
  {
    match p
    case POp(name, ps) => {name} + OpNamesAll(ps)
    case _ => {}
  }

  function OpNamesAll(ps: seq<EquationTerm>): set<Name>
    decreases PatternsSize(ps), 1
  {
    if ps == [] then {} else OpNames(ps[0]) + OpNamesAll(ps[1..])
  }

  /** The operations a right side builds: those it mentions, and unit. */
  function Built(p: EquationTerm): set<Name>
    decreases PatternSize(p), 0
  {
    match p
    case POp(name, ps) => {name} + BuiltAll(ps)
    case PUnit => {"unit"}
    case _ => {}
  }

  function BuiltAll(ps: seq<EquationTerm>): set<Name>
    decreases PatternsSize(ps), 1
  {
    if ps == [] then {} else Built(ps[0]) + BuiltAll(ps[1..])
  }

  function OpCount(p: EquationTerm): nat
    decreases PatternSize(p), 0
  {
    match p
    case POp(_, ps) => 1 + OpCountAll(ps)
    case PUnit => 1
    case _ => 0
  }

  function OpCountAll(ps: seq<EquationTerm>): nat
    decreases PatternsSize(ps), 1
  {
    if ps == [] then 0 else OpCount(ps[0]) + OpCountAll(ps[1..])
  }

  /** The most operations any right side builds. */
  function Widest(rules: seq<Rule>): nat {
    if rules == [] then 0 else
    var w := Widest(rules[1..]);
    if OpCount(rules[0].rhs) > w then OpCount(rules[0].rhs) else w
  }

  lemma {:induction false} WidestBounds(rules: seq<Rule>, r: Rule)
    requires r in rules
    ensures OpCount(r.rhs) <= Widest(rules)
  {
    if r != rules[0] {
      WidestBounds(rules[1..], r);
    }
  }

  /** Every operation a right side builds ranks below the root its left side has. */
  ghost predicate Ranked(rules: seq<Rule>, order: seq<Name>) {
    forall r :: r in rules ==>
      && r.lhs.POp?
      && (exists i :: 0 <= i < |order| && order[i] == r.lhs.op && forall o :: o in Built(r.rhs) ==> Rank(order, o) <= i)
  }

  // ---------- potential ----------

  function Pow(b: nat, k: nat): (p: nat)
    ensures b > 0 ==> p > 0
  {
    if k == 0 then 1 else b * Pow(b, k - 1)
  }

  lemma {:induction false} PowMonotone(b: nat, j: nat, k: nat)
    requires b > 0 && j <= k
    ensures Pow(b, j) <= Pow(b, k)
  {
    if j < k {
      PowMonotone(b, j, k - 1);
    }
  }

  function Weight(rules: seq<Rule>, order: seq<Name>, name: Name): nat {
    if Rank(order, name) == 0 then 0 else Pow(Widest(rules) + 1, Rank(order, name))
  }

  /** The weights of the non-normal nodes. */
  function Potential(rules: seq<Rule>, order: seq<Name>, t: IrTerm): nat
    decreases TermSize(t), 0
  {
    match t
    case Ctor(name, args) =>
      if Normal(rules, t) then 0 else Weight(rules, order, name) + Potentials(rules, order, args)
    case Lambda(_, _, body) => if Normal(rules, t) then 0 else Potential(rules, order, body)
    case Let(bs, body) =>
      if Normal(rules, t) then 0 else BindingPotentials(rules, order, bs) + Potential(rules, order, body)
    case _ => 0
  }

  function Potentials(rules: seq<Rule>, order: seq<Name>, ts: seq<IrTerm>): nat
    decreases TermsSize(ts), 1
  {
    if ts == [] then 0 else Potential(rules, order, ts[0]) + Potentials(rules, order, ts[1..])
  }

  function BindingPotentials(rules: seq<Rule>, order: seq<Name>, bs: seq<LetBinding>): nat
    decreases BindingsSize(bs), 1
  {
    if bs == [] then 0 else Potential(rules, order, bs[0].bound) + BindingPotentials(rules, order, bs[1..])
  }

  // ---------- innermost steps, of any strategy ----------

  /** A step that contracts some redex whose arguments are all normal. */
  ghost predicate InnerStep(rules: seq<Rule>, t: IrTerm, u: IrTerm)
    decreases TermSize(t), 0
  {
    match t
    case Ctor(name, args) =>
      || (AllNormal(rules, args) && exists r :: r in rules && Contracts(r, t, u))
      || (u.Ctor? && u.ctor == name && InnerSteps(rules, args, u.args))
    case Lambda(param, sort, body) =>
      u.Lambda? && u.param == param && u.paramSort == sort && InnerStep(rules, body, u.body)
    case Let(bs, body) =>
      && u.Let?
      && ((u.letBody == body && InnerBindings(rules, bs, u.bindings))
          || (u.bindings == bs && InnerStep(rules, body, u.letBody)))
    case _ => false
  }

  predicate Contracts(r: Rule, t: IrTerm, u: IrTerm) {
    var m := Match(r.lhs, t, map[]);
    m.Some? && Instantiate(r.rhs, m.value) == Some(u)
  }

  ghost predicate InnerSteps(rules: seq<Rule>, ts: seq<IrTerm>, us: seq<IrTerm>)
    decreases TermsSize(ts), 1
  {
    && |ts| == |us| > 0
    && ((us[1..] == ts[1..] && InnerStep(rules, ts[0], us[0]))
        || (us[0] == ts[0] && InnerSteps(rules, ts[1..], us[1..])))
  }

  ghost predicate InnerBindings(rules: seq<Rule>, bs: seq<LetBinding>, cs: seq<LetBinding>)
    decreases BindingsSize(bs), 1
  {
    && |bs| == |cs| > 0 && bs[0].name == cs[0].name
    && ((cs[1..] == bs[1..] && InnerStep(rules, bs[0].bound, cs[0].bound))
        || (cs[0] == bs[0] && InnerBindings(rules, bs[1..], cs[1..])))
  }

  // ---------- the decrease ----------

  predicate NormalValues(rules: seq<Rule>, b: Bindings) {
    forall x :: x in b ==> Normal(rules, b[x])
  }

  // Matching inside normal terms binds normal terms.
  lemma {:induction false} MatchNormal(rules: seq<Rule>, p: EquationTerm, t: IrTerm, b: Bindings)
    requires Normal(rules, t) && NormalValues(rules, b) && Match(p, t, b).Some?
    ensures NormalValues(rules, Match(p, t, b).value)
    decreases PatternSize(p), 0
  {
    match p
    case POp(_, ps) => MatchAllNormal(rules, ps, t.args, b);
    case _ =>
  }

  lemma {:induction false} MatchAllNormal(rules: seq<Rule>, ps: seq<EquationTerm>, ts: seq<IrTerm>, b: Bindings)
    requires AllNormal(rules, ts) && NormalValues(rules, b) && |ps| == |ts| && MatchAll(ps, ts, b).Some?
    ensures NormalValues(rules, MatchAll(ps, ts, b).value)
    decreases PatternsSize(ps), 1
  {
    if ps != [] {
      MatchNormal(rules, ps[0], ts[0], b);
      MatchAllNormal(rules, ps[1..], ts[1..], Match(ps[0], ts[0], b).value);
    }
  }

  // A right side instantiated with normal terms costs at most one unit per operation.
  lemma {:induction false} InstantiateCost(rules: seq<Rule>, order: seq<Name>, p: EquationTerm, b: Bindings, i: nat)
    requires NormalValues(rules, b) && Instantiate(p, b).Some?
    requires forall o :: o in Built(p) ==> Rank(order, o) <= i
    ensures Potential(rules, order, Instantiate(p, b).value) <= OpCount(p) * Pow(Widest(rules) + 1, i)
    decreases PatternSize(p), 0
  {
    hide Pow, Widest, Rank, AllNormal;
    match p
    case POp(name, ps) =>
      InstantiateAllCost(rules, order, ps, b, i);
      assert name in Built(p);
      PowMonotone(Widest(rules) + 1, Rank(order, name), i);
      OneMore(OpCountAll(ps), Pow(Widest(rules) + 1, i));
    case PUnit =>
      assert "unit" in Built(p) && Potentials(rules, order, []) == 0;
      PowMonotone(Widest(rules) + 1, Rank(order, "unit"), i);
    case _ =>
  }

  lemma {:induction false} OneMore(n: nat, p: nat)
    ensures (1 + n) * p == p + n * p
  {
  }

  lemma {:induction false} SumCost(m: nat, n: nat, p: nat)
    ensures (m + n) * p == m * p + n * p
  {
  }

  lemma {:induction false} InstantiateAllCost(rules: seq<Rule>, order: seq<Name>, ps: seq<EquationTerm>, b: Bindings,
                                              i: nat)
    requires NormalValues(rules, b) && InstantiateAll(ps, b).Some?
    requires forall o :: o in BuiltAll(ps) ==> Rank(order, o) <= i
    ensures Potentials(rules, order, InstantiateAll(ps, b).value) <= OpCountAll(ps) * Pow(Widest(rules) + 1, i)
    decreases PatternsSize(ps), 1
  {
    hide Pow, Widest, Rank, Built, OpCount, Potential, Normal;
    if ps != [] {
      InstantiateCost(rules, order, ps[0], b, i);
      InstantiateAllCost(rules, order, ps[1..], b, i);
      assert InstantiateAll(ps, b).value[1..] == InstantiateAll(ps[1..], b).value;
      SumCost(OpCount(ps[0]), OpCountAll(ps[1..]), Pow(Widest(rules) + 1, i));
    }
  }

  lemma {:induction false} CostBelow(n: nat, w: nat, p: nat)
    requires n <= w && p > 0
    ensures n * p < (w + 1) * p
  {
    SumCost(w - n, n, p);
    OneMore(w, p);
  }

  // Contracting a redex with normal arguments.
  lemma {:induction false} ContractionDecreases(rules: seq<Rule>, order: seq<Name>, t: IrTerm, r: Rule, u: IrTerm)
    requires Ranked(rules, order) && t.Ctor? && AllNormal(rules, t.args) && r in rules && Contracts(r, t, u)
    ensures Potential(rules, order, u) < Potential(rules, order, t)
  {
    var i :| 0 <= i < |order| && order[i] == r.lhs.op && forall o :: o in Built(r.rhs) ==> Rank(order, o) <= i;
    ContractumBound(rules, order, t, r, u, i);
    RedexBound(rules, order, t, r, i);
  }

  lemma {:induction false} ContractumBound(rules: seq<Rule>, order: seq<Name>, t: IrTerm, r: Rule, u: IrTerm, i: nat)
    requires r.lhs.POp? && t.Ctor? && AllNormal(rules, t.args) && r in rules && Contracts(r, t, u)
    requires forall o :: o in Built(r.rhs) ==> Rank(order, o) <= i
    ensures Potential(rules, order, u) < Pow(Widest(rules) + 1, i + 1)
  {
    hide Potential, AllNormal, MatchAll, Instantiate, Built, OpCount, Widest;
    var m := Match(r.lhs, t, map[]).value;
    MatchAllNormal(rules, r.lhs.args, t.args, map[]);
    InstantiateCost(rules, order, r.rhs, m, i);
    WidestBounds(rules, r);
    CostBelow(OpCount(r.rhs), Widest(rules), Pow(Widest(rules) + 1, i));
  }

  lemma {:induction false} RedexBound(rules: seq<Rule>, order: seq<Name>, t: IrTerm, r: Rule, i: nat)
    requires r in rules && r.lhs.POp? && Matches(r, t) && i < |order| && order[i] == r.lhs.op
    ensures t.Ctor? && Potential(rules, order, t) >= Pow(Widest(rules) + 1, i + 1)
  {
    hide Potentials, AllNormal, MatchAll, Pow, Widest;
    assert Rank(order, t.ctor) >= i + 1;
    PowMonotone(Widest(rules) + 1, i + 1, Rank(order, t.ctor));
    assert !Normal(rules, t);
  }

  lemma {:induction false} NotNormal(rules: seq<Rule>, t: IrTerm, u: IrTerm)
    requires InnerStep(rules, t, u)
    ensures !Normal(rules, t)
    decreases TermSize(t), 0
  {
    match t
    case Ctor(_, args) =>
      if AllNormal(rules, args) && exists r :: r in rules && Contracts(r, t, u) {
        var r :| r in rules && Contracts(r, t, u);
        assert Matches(r, t);
      } else {
        NotAllNormal(rules, args, u.args);
      }
    case Lambda(_, _, body) => NotNormal(rules, body, u.body);
    case Let(bs, body) =>
      if u.letBody == body && InnerBindings(rules, bs, u.bindings) {
        NotBindingsNormal(rules, bs, u.bindings);
      } else {
        NotNormal(rules, body, u.letBody);
      }
  }

  lemma {:induction false} NotAllNormal(rules: seq<Rule>, ts: seq<IrTerm>, us: seq<IrTerm>)
    requires InnerSteps(rules, ts, us)
    ensures !AllNormal(rules, ts)
    decreases TermsSize(ts), 1
  {
    if us[1..] == ts[1..] && InnerStep(rules, ts[0], us[0]) {
      NotNormal(rules, ts[0], us[0]);
    } else {
      NotAllNormal(rules, ts[1..], us[1..]);
    }
  }

  lemma {:induction false} NotBindingsNormal(rules: seq<Rule>, bs: seq<LetBinding>, cs: seq<LetBinding>)
    requires InnerBindings(rules, bs, cs)
    ensures !BindingsNormal(rules, bs)
    decreases BindingsSize(bs), 1
  {
    if cs[1..] == bs[1..] && InnerStep(rules, bs[0].bound, cs[0].bound) {
      NotNormal(rules, bs[0].bound, cs[0].bound);
    } else {
      NotBindingsNormal(rules, bs[1..], cs[1..]);
    }
  }

  // Every innermost step, wherever it happens, uses up potential.
  lemma {:induction false} StepDecreases(rules: seq<Rule>, order: seq<Name>, t: IrTerm, u: IrTerm)
    requires Ranked(rules, order) && InnerStep(rules, t, u)
    ensures Potential(rules, order, u) < Potential(rules, order, t)
    decreases TermSize(t), 0
  {
    NotNormal(rules, t, u);
    match t
    case Ctor(_, args) =>
      if AllNormal(rules, args) && exists r :: r in rules && Contracts(r, t, u) {
        var r :| r in rules && Contracts(r, t, u);
        ContractionDecreases(rules, order, t, r, u);
      } else {
        StepsDecrease(rules, order, args, u.args);
      }
    case Lambda(_, _, body) => StepDecreases(rules, order, body, u.body);
    case Let(bs, body) =>
      if u.letBody == body && InnerBindings(rules, bs, u.bindings) {
        BindingsDecrease(rules, order, bs, u.bindings);
      } else {
        StepDecreases(rules, order, body, u.letBody);
      }
  }

  lemma {:induction false} StepsDecrease(rules: seq<Rule>, order: seq<Name>, ts: seq<IrTerm>, us: seq<IrTerm>)
    requires Ranked(rules, order) && InnerSteps(rules, ts, us)
    ensures Potentials(rules, order, us) < Potentials(rules, order, ts)
    decreases TermsSize(ts), 1
  {
    if us[1..] == ts[1..] && InnerStep(rules, ts[0], us[0]) {
      StepDecreases(rules, order, ts[0], us[0]);
    } else {
      StepsDecrease(rules, order, ts[1..], us[1..]);
    }
  }

  lemma {:induction false} BindingsDecrease(rules: seq<Rule>, order: seq<Name>, bs: seq<LetBinding>,
                                            cs: seq<LetBinding>)
    requires Ranked(rules, order) && InnerBindings(rules, bs, cs)
    ensures BindingPotentials(rules, order, cs) < BindingPotentials(rules, order, bs)
    decreases BindingsSize(bs), 1
  {
    if cs[1..] == bs[1..] && InnerStep(rules, bs[0].bound, cs[0].bound) {
      StepDecreases(rules, order, bs[0].bound, cs[0].bound);
    } else {
      BindingsDecrease(rules, order, bs[1..], cs[1..]);
    }
  }

  /** A run of innermost steps, of any strategy. */
  ghost predicate InnerRun(rules: seq<Rule>, run: seq<IrTerm>) {
    run != [] && forall i :: 0 < i < |run| ==> InnerStep(rules, run[i - 1], run[i])
  }

  // No innermost run of a ranked rule set is longer than the potential it starts with.
  lemma {:induction false} InnerRunBound(rules: seq<Rule>, order: seq<Name>, run: seq<IrTerm>)
    requires Ranked(rules, order) && InnerRun(rules, run)
    ensures |run| - 1 + Potential(rules, order, run[|run| - 1]) <= Potential(rules, order, run[0])
    decreases |run|
  {
    if |run| > 1 {
      var n := |run| - 1;
      var init := run[..n];
      forall i | 0 < i < |init|
        ensures InnerStep(rules, init[i - 1], init[i])
      {
        assert InnerStep(rules, run[i - 1], run[i]);
      }
      InnerRunBound(rules, order, init);
      assert InnerStep(rules, run[n - 1], run[n]);
      StepDecreases(rules, order, run[n - 1], run[n]);
    }
  }

  // The code's own step is an innermost step.
  lemma {:induction false} RewriteIsInner(rules: seq<Rule>, t: IrTerm)
    requires RewriteOnce(rules, t).Rewritten?
    ensures InnerStep(rules, t, RewriteOnce(rules, t).term)
    decreases TermSize(t), 0
  {
    match t
    case Ctor(_, args) =>
      if RewriteArgs(rules, args).Rewritten? {
        RewriteArgsInner(rules, args);
      } else {
        UnchangedArgs(rules, args);
        ApplyContracts(rules, t);
      }
    case Lambda(_, _, body) => RewriteIsInner(rules, body);
    case Let(bs, body) =>
      if RewriteBindings(rules, bs).Rewritten? {
        RewriteBindingsInner(rules, bs);
      } else {
        RewriteIsInner(rules, body);
      }
  }

  lemma {:induction false} ApplyContracts(rules: seq<Rule>, t: IrTerm)
    requires ApplyFirst(rules, t).Rewritten?
    ensures exists r :: r in rules && Contracts(r, t, ApplyFirst(rules, t).term)
  {
    if Match(rules[0].lhs, t, map[]).Some? {
      assert rules[0] in rules && Contracts(rules[0], t, ApplyFirst(rules, t).term);
    } else {
      ApplyContracts(rules[1..], t);
      var r :| r in rules[1..] && Contracts(r, t, ApplyFirst(rules[1..], t).term);
      assert r in rules;
    }
  }

  lemma {:induction false} RewriteArgsInner(rules: seq<Rule>, ts: seq<IrTerm>)
    requires RewriteArgs(rules, ts).Rewritten?
    ensures InnerSteps(rules, ts, RewriteArgs(rules, ts).term)
    decreases TermsSize(ts), 1
  {
    var us := RewriteArgs(rules, ts).term;
    if RewriteOnce(rules, ts[0]).Rewritten? {
      RewriteIsInner(rules, ts[0]);
      assert us[1..] == ts[1..];
    } else {
      RewriteArgsInner(rules, ts[1..]);
      assert us[1..] == RewriteArgs(rules, ts[1..]).term;
    }
  }

  lemma {:induction false} RewriteBindingsInner(rules: seq<Rule>, bs: seq<LetBinding>)
    requires RewriteBindings(rules, bs).Rewritten?
    ensures InnerBindings(rules, bs, RewriteBindings(rules, bs).term)
    decreases BindingsSize(bs), 1
  {
    var cs := RewriteBindings(rules, bs).term;
    if RewriteOnce(rules, bs[0].bound).Rewritten? {
      RewriteIsInner(rules, bs[0].bound);
      assert cs[1..] == bs[1..];
    } else {
      RewriteBindingsInner(rules, bs[1..]);
      assert cs[1..] == RewriteBindings(rules, bs[1..]).term;
    }
  }
}
