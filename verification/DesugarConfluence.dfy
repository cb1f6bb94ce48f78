// What the confluence certificate means: which common instances of left-hand patterns it
// notices, and what follows for innermost rewriting when there are none.
module DesugarConfluence {
  import opened Wrappers
  import opened Ir
  import opened Desugar
  import opened DesugarMeaning
  import opened DesugarOverlap
  import opened DesugarTermination

  // ---------- when a common instance is noticed ----------

  // Two names have a common alias exactly when they agree after the last colon.
  lemma {:induction false} CommonAlias(f: Name, g: Name)
    ensures (exists n :: NamesAlias(f, n) && NamesAlias(g, n)) <==> Unqualified(f) == Unqualified(g)
  {
    if Unqualified(f) == Unqualified(g) {
      assert NamesAlias(f, Unqualified(f)) && NamesAlias(g, Unqualified(f));
    }
  }

  lemma {:induction false} AliasAgrees(f: Name, n: Name)
    ensures NamesAlias(f, n) ==> Unqualified(f) == Unqualified(n)
  {
  }

  lemma {:induction false} UnitUnqualified()
    ensures Unqualified("unit") == "unit"
  {
  }

  /** The syntactic overlap of two patterns whose names need only agree after the last colon. */
  function SharesShape(p: EquationTerm, q: EquationTerm): bool
    decreases PatternSize(p), 0
  {
    match (p, q)
    case (PVar(_), _) => true
    case (_, PVar(_)) => true
    case (PUnit, PUnit) => true
    case (PUnit, POp(g, qs)) => Unqualified(g) == "unit" && qs == []
    case (POp(f, ps), PUnit) => Unqualified(f) == "unit" && ps == []
    case (PConst(v, s), PConst(w, s')) => v == w && s == s'
    case (POp(f, ps), POp(g, qs)) => Unqualified(f) == Unqualified(g) && |ps| == |qs| && AllShare(ps, qs)
    case _ => false
  }

  function AllShare(ps: seq<EquationTerm>, qs: seq<EquationTerm>): bool
    requires |ps| == |qs|
    decreases PatternsSize(ps), 1
  {
    ps == [] || (SharesShape(ps[0], qs[0]) && AllShare(ps[1..], qs[1..]))
  }

  // Patterns some term matches share their shape, whatever was bound before.
  lemma {:induction false} BothMatchShare(p: EquationTerm, q: EquationTerm, t: IrTerm, b: Bindings, c: Bindings)
    requires Match(p, t, b).Some? && Match(q, t, c).Some?
    ensures SharesShape(p, q)
    decreases PatternSize(p), 0
  {
    hide NamesAlias, IsUnitName, Unqualified;
    if t.Ctor? && IsUnitName(t.ctor) {
      UnitAliases(t.ctor);
      AliasAgrees("unit", t.ctor);
      UnitUnqualified();
    }
    match (p, q)
    case (POp(f, ps), POp(g, qs)) =>
      AliasAgrees(f, t.ctor);
      AliasAgrees(g, t.ctor);
      AllMatchShare(ps, qs, t.args, b, c);
    case (POp(f, _), PUnit) => AliasAgrees(f, t.ctor);
    case (PUnit, POp(g, _)) => AliasAgrees(g, t.ctor);
    case _ =>
  }

  lemma {:induction false} AllMatchShare(ps: seq<EquationTerm>, qs: seq<EquationTerm>, ts: seq<IrTerm>, b: Bindings,
                                         c: Bindings)
    requires |ps| == |qs| == |ts| && MatchAll(ps, ts, b).Some? && MatchAll(qs, ts, c).Some?
    ensures AllShare(ps, qs)
    decreases PatternsSize(ps), 1
  {
    if ps != [] {
      BothMatchShare(ps[0], qs[0], ts[0], b, c);
      AllMatchShare(ps[1..], qs[1..], ts[1..], Match(ps[0], ts[0], b).value, Match(qs[0], ts[0], c).value);
    }
  }

  /** No variable twice. */
  predicate Linear(p: EquationTerm)
    decreases PatternSize(p), 0
  {
    p.POp? ==> AllLinear(p.args)
  }

  predicate AllLinear(ps: seq<EquationTerm>)
    decreases PatternsSize(ps), 1
  {
    ps == [] || (Linear(ps[0]) && Vars(ps[0]) !! VarsAll(ps[1..]) && AllLinear(ps[1..]))
  }

  function Instance(p: EquationTerm): IrTerm
    decreases PatternSize(p), 0
  {
    match p
    case PVar(x) => Var(x)
    case PConst(v, s) => Const(v, s)
    case PUnit => Ctor("unit", [])
    case POp(f, ps) => Ctor(Unqualified(f), Instances(ps))
  }

  function Instances(ps: seq<EquationTerm>): (ts: seq<IrTerm>)
    ensures |ts| == |ps|
    decreases PatternsSize(ps), 1
  {
    if ps == [] then [] else [Instance(ps[0])] + Instances(ps[1..])
  }

  /** A term that matches both patterns. */
  function CommonInstance(p: EquationTerm, q: EquationTerm): IrTerm
    requires SharesShape(p, q)
    decreases PatternSize(p), 0
  {
    match (p, q)
    case (PVar(_), _) => Instance(q)
    case (POp(f, ps), POp(_, qs)) => Ctor(Unqualified(f), CommonInstances(ps, qs))
    case _ => Instance(p)
  }

  function CommonInstances(ps: seq<EquationTerm>, qs: seq<EquationTerm>): (ts: seq<IrTerm>)
    requires |ps| == |qs| && AllShare(ps, qs)
    ensures |ts| == |ps|
    decreases PatternsSize(ps), 1
  {
    if ps == [] then [] else [CommonInstance(ps[0], qs[0])] + CommonInstances(ps[1..], qs[1..])
  }

  lemma {:induction false} MatchKeys(p: EquationTerm, t: IrTerm, b: Bindings)
    requires Match(p, t, b).Some?
    ensures Match(p, t, b).value.Keys == b.Keys + Vars(p)
    decreases PatternSize(p), 0
  {
    match p
    case POp(_, ps) => MatchAllKeys(ps, t.args, b);
    case _ =>
  }

  lemma {:induction false} MatchAllKeys(ps: seq<EquationTerm>, ts: seq<IrTerm>, b: Bindings)
    requires |ps| == |ts| && MatchAll(ps, ts, b).Some?
    ensures MatchAll(ps, ts, b).value.Keys == b.Keys + VarsAll(ps)
    decreases PatternsSize(ps), 1
  {
    if ps != [] {
      MatchKeys(ps[0], ts[0], b);
      MatchAllKeys(ps[1..], ts[1..], Match(ps[0], ts[0], b).value);
    }
  }

  lemma {:induction false} InstanceMatches(p: EquationTerm, b: Bindings)
    requires Linear(p) && Vars(p) !! b.Keys
    ensures Match(p, Instance(p), b).Some?
    decreases PatternSize(p), 0
  {
    match p
    case POp(_, ps) => InstancesMatch(ps, b);
    case _ =>
  }

  lemma {:induction false} InstancesMatch(ps: seq<EquationTerm>, b: Bindings)
    requires AllLinear(ps) && VarsAll(ps) !! b.Keys
    ensures MatchAll(ps, Instances(ps), b).Some?
    decreases PatternsSize(ps), 1
  {
    if ps != [] {
      InstanceMatches(ps[0], b);
      MatchKeys(ps[0], Instance(ps[0]), b);
      InstancesMatch(ps[1..], Match(ps[0], Instance(ps[0]), b).value);
      assert Instances(ps)[1..] == Instances(ps[1..]);
    }
  }

  lemma {:induction false} CommonMatches(p: EquationTerm, q: EquationTerm, b: Bindings, c: Bindings)
    requires SharesShape(p, q) && Linear(p) && Linear(q) && Vars(p) !! b.Keys && Vars(q) !! c.Keys
    ensures Match(p, CommonInstance(p, q), b).Some? && Match(q, CommonInstance(p, q), c).Some?
    decreases PatternSize(p), 0
  {
    match (p, q)
    case (PVar(_), _) => InstanceMatches(q, c);
    case (POp(_, ps), POp(_, qs)) => AllCommonMatch(ps, qs, b, c);
    case _ => InstanceMatches(p, b);
  }

  lemma {:induction false} AllCommonMatch(ps: seq<EquationTerm>, qs: seq<EquationTerm>, b: Bindings, c: Bindings)
    requires |ps| == |qs| && AllShare(ps, qs) && AllLinear(ps) && AllLinear(qs)
    requires VarsAll(ps) !! b.Keys && VarsAll(qs) !! c.Keys
    ensures MatchAll(ps, CommonInstances(ps, qs), b).Some? && MatchAll(qs, CommonInstances(ps, qs), c).Some?
    decreases PatternsSize(ps), 1
  {
    if ps != [] {
      var t := CommonInstance(ps[0], qs[0]);
      CommonMatches(ps[0], qs[0], b, c);
      MatchKeys(ps[0], t, b);
      MatchKeys(qs[0], t, c);
      AllCommonMatch(ps[1..], qs[1..], Match(ps[0], t, b).value, Match(qs[0], t, c).value);
      assert CommonInstances(ps, qs)[1..] == CommonInstances(ps[1..], qs[1..]);
    }
  }

  ghost predicate CommonTerm(p: EquationTerm, q: EquationTerm, t: IrTerm) {
    Match(p, t, map[]).Some? && Match(q, t, map[]).Some?
  }

  /** The unification check misses no common instance of p and q. */
  ghost predicate NothingMissed(p: EquationTerm, q: EquationTerm) {
    (exists t :: CommonTerm(p, q, t)) ==> PatternsUnify(p, q)
  }

  /** Where the patterns agree but for qualifiers and spellings of unit, the check agrees as well. */
  predicate Comparable(p: EquationTerm, q: EquationTerm) {
    SharesShape(p, q) ==> PatternsUnify(p, q)
  }

  // The check is complete for comparable patterns, and for linear patterns only for those.
  lemma {:induction false} MissesNothing(p: EquationTerm, q: EquationTerm)
    ensures Comparable(p, q) ==> NothingMissed(p, q)
    ensures Linear(p) && Linear(q) ==> (NothingMissed(p, q) <==> Comparable(p, q))
  {
    if t :| CommonTerm(p, q, t) {
      BothMatchShare(p, q, t, map[], map[]);
    }
    if Linear(p) && Linear(q) && SharesShape(p, q) {
      CommonMatches(p, q, map[], map[]);
      assert CommonTerm(p, q, CommonInstance(p, q));
    }
  }

  /** Every operation is named without a qualifier, and none is called unit. */
  predicate Plain(p: EquationTerm) {
    forall f :: f in OpNames(p) ==> ':' !in f && f != "unit"
  }

  lemma {:induction false} PlainIsComparable(p: EquationTerm, q: EquationTerm)
    requires Plain(p) && Plain(q)
    ensures Comparable(p, q)
    decreases PatternSize(p), 0
  {
    match (p, q)
    case (POp(f, ps), POp(g, qs)) =>
      assert f in OpNames(p) && g in OpNames(q);
      if |ps| == |qs| {
        AllPlainComparable(ps, qs);
      }
    case (POp(f, _), PUnit) => assert f in OpNames(p);
    case (PUnit, POp(g, _)) => assert g in OpNames(q);
    case _ =>
  }

  lemma {:induction false} AllPlainComparable(ps: seq<EquationTerm>, qs: seq<EquationTerm>)
    requires |ps| == |qs|
    requires forall f :: f in OpNamesAll(ps) || f in OpNamesAll(qs) ==> ':' !in f && f != "unit"
    ensures AllShare(ps, qs) ==> AllUnify(ps, qs)
    decreases PatternsSize(ps), 1
  {
    if ps != [] {
      PlainIsComparable(ps[0], qs[0]);
      AllPlainComparable(ps[1..], qs[1..]);
    }
  }

  // ---------- one rule at a node ----------

  /** No term is matched by two rules. */
  ghost predicate Exclusive(rules: seq<Rule>) {
    forall r, s, t :: r in rules && s in rules && Matches(r, t) && Matches(s, t) ==> r == s
  }

  /** No two left sides have a common shape. */
  predicate Apart(rules: seq<Rule>) {
    forall i, j :: 0 <= i < j < |rules| ==> !SharesShape(rules[i].lhs, rules[j].lhs)
  }

  predicate Different(rules: seq<Rule>) {
    forall i, j :: 0 <= i < j < |rules| ==> rules[i] != rules[j]
  }

  predicate LeftLinear(rules: seq<Rule>) {
    forall r :: r in rules ==> Linear(r.lhs)
  }

  // At most one rule matches a term if the left sides are apart; for linear left sides of different rules, only then.
  lemma {:induction false} ExclusiveExactly(rules: seq<Rule>)
    ensures Apart(rules) ==> Exclusive(rules)
    ensures Different(rules) && LeftLinear(rules) ==> (Exclusive(rules) <==> Apart(rules))
  {
    hide SharesShape, Linear;
    if Apart(rules) {
      ApartIsExclusive(rules);
    }
    if Different(rules) && LeftLinear(rules) && Exclusive(rules) {
      forall i, j | 0 <= i < j < |rules|
        ensures !SharesShape(rules[i].lhs, rules[j].lhs)
      {
        assert rules[i] in rules && rules[j] in rules;
        if SharesShape(rules[i].lhs, rules[j].lhs) {
          var t := BothMatched(rules[i], rules[j]);
        }
      }
    }
  }

  lemma {:induction false} ApartIsExclusive(rules: seq<Rule>)
    requires Apart(rules)
    ensures Exclusive(rules)
  {
    hide SharesShape;
    forall r, s, t | r in rules && s in rules && Matches(r, t) && Matches(s, t)
      ensures r == s
    {
      var i :| 0 <= i < |rules| && rules[i] == r;
      var j :| 0 <= j < |rules| && rules[j] == s;
      BothMatchShare(r.lhs, s.lhs, t, map[], map[]);
      BothMatchShare(s.lhs, r.lhs, t, map[], map[]);
    }
  }

  lemma {:induction false} BothMatched(r: Rule, s: Rule) returns (t: IrTerm)
    requires Linear(r.lhs) && Linear(s.lhs) && SharesShape(r.lhs, s.lhs)
    ensures Matches(r, t) && Matches(s, t)
  {
    t := CommonInstance(r.lhs, s.lhs);
    CommonMatches(r.lhs, s.lhs, map[], map[]);
  }

  predicate AllComparable(rules: seq<Rule>) {
    forall i, j :: 0 <= i < j < |rules| ==> Comparable(rules[i].lhs, rules[j].lhs)
  }

  /** Rules with one right side have no common shape on the left. */
  predicate SameRightsApart(rules: seq<Rule>) {
    forall i, j :: 0 <= i < j < |rules| && rules[i].rhs == rules[j].rhs ==> !SharesShape(rules[i].lhs, rules[j].lhs)
  }

  // The certificate sees every common shape of comparable left sides but those under one right side.
  lemma {:induction false} ConfluentIsExclusive(rules: seq<Rule>)
    requires Confluent(rules) && AllComparable(rules)
    ensures Apart(rules) <==> SameRightsApart(rules)
    ensures SameRightsApart(rules) ==> Exclusive(rules)
  {
    hide SharesShape, PatternsUnify, ContainsUnifiable, Overlap, RootsOverlap;
    if SameRightsApart(rules) {
      forall i, j | 0 <= i < j < |rules|
        ensures !SharesShape(rules[i].lhs, rules[j].lhs)
      {
        assert Comparable(rules[i].lhs, rules[j].lhs) && !Overlap(rules[i], rules[j]);
        OverlapChecked(rules[i], rules[j]);
      }
      ApartIsExclusive(rules);
    }
  }

  // The order of exclusive rules does not matter.
  lemma {:induction false} ApplyIsContracts(rules: seq<Rule>, all: seq<Rule>, r: Rule, t: IrTerm)
    requires Exclusive(all) && (forall s :: s in rules ==> s in all) && r in rules && Matches(r, t)
    ensures ApplyFirst(rules, t) == ApplyFirst([r], t)
    decreases rules
  {
    if !Matches(rules[0], t) {
      ApplyIsContracts(rules[1..], all, r, t);
    }
  }

  lemma {:induction false} ApplyAnyOrder(rules: seq<Rule>, other: seq<Rule>, t: IrTerm)
    requires Exclusive(rules) && forall r :: r in rules <==> r in other
    ensures ApplyFirst(rules, t) == ApplyFirst(other, t)
  {
    NoRuleApplies(rules, t);
    NoRuleApplies(other, t);
    if r :| r in rules && Matches(r, t) {
      ApplyIsContracts(rules, rules, r, t);
      ApplyIsContracts(other, rules, r, t);
    }
  }

  lemma {:induction false} RewriteAnyOrder(rules: seq<Rule>, other: seq<Rule>, t: IrTerm)
    requires Exclusive(rules) && forall r :: r in rules <==> r in other
    ensures RewriteOnce(rules, t) == RewriteOnce(other, t)
    decreases TermSize(t), 0
  {
    hide Exclusive;
    match t
    case Ctor(_, args) =>
      RewriteArgsAnyOrder(rules, other, args);
      ApplyAnyOrder(rules, other, t);
    case Lambda(_, _, body) => RewriteAnyOrder(rules, other, body);
    case Let(bs, body) =>
      RewriteBindingsAnyOrder(rules, other, bs);
      RewriteAnyOrder(rules, other, body);
    case _ =>
  }

  lemma {:induction false} RewriteArgsAnyOrder(rules: seq<Rule>, other: seq<Rule>, ts: seq<IrTerm>)
    requires Exclusive(rules) && forall r :: r in rules <==> r in other
    ensures RewriteArgs(rules, ts) == RewriteArgs(other, ts)
    decreases TermsSize(ts), 1
  {
    hide Exclusive;
    if ts != [] {
      RewriteAnyOrder(rules, other, ts[0]);
      RewriteArgsAnyOrder(rules, other, ts[1..]);
    }
  }

  lemma {:induction false} RewriteBindingsAnyOrder(rules: seq<Rule>, other: seq<Rule>, bs: seq<LetBinding>)
    requires Exclusive(rules) && forall r :: r in rules <==> r in other
    ensures RewriteBindings(rules, bs) == RewriteBindings(other, bs)
    decreases BindingsSize(bs), 1
  {
    hide Exclusive;
    if bs != [] {
      RewriteAnyOrder(rules, other, bs[0].bound);
      RewriteBindingsAnyOrder(rules, other, bs[1..]);
    }
  }

  // ---------- what the certificate does not notice ----------

  function Call(f: Name, p: EquationTerm): EquationTerm {
    POp(f, [p])
  }

  lemma {:induction false} MatchCall(f: Name, g: Name, p: EquationTerm, t: IrTerm)
    requires NamesAlias(f, g) && Match(p, t, map[]).Some?
    ensures Match(Call(f, p), Ctor(g, [t]), map[]) == Match(p, t, map[])
  {
    assert [p][1..] == [] && [t][1..] == [];
    assert MatchAll([], [], Match(p, t, map[]).value) == Match(p, t, map[]);
  }

  // Two qualified names never alias, but an unqualified term is matched through both.
  lemma {:induction false} QualifiedNamesMissed(x: Name, a: EquationTerm, b: EquationTerm)
    requires a != b
    ensures var rules := [Rule("1", Call("m:f", PVar(x)), a, ""), Rule("2", Call("n:f", PVar(x)), b, "")];
            Confluent(rules) && !Exclusive(rules)
  {
    var rules := [Rule("1", Call("m:f", PVar(x)), a, ""), Rule("2", Call("n:f", PVar(x)), b, "")];
    assert Unqualified("m:f") == "f" == Unqualified("n:f") by {
      assert "m:f"[1..] == ":f" == "n:f"[1..] && ":f"[1..] == "f";
    }
    var t := Ctor("f", [Var(x)]);
    MatchCall("m:f", "f", PVar(x), Var(x));
    MatchCall("n:f", "f", PVar(x), Var(x));
    assert rules[0] in rules && rules[1] in rules && Matches(rules[0], t) && Matches(rules[1], t);
    VariableContainsNothing(x, rules[0].lhs);
    VariableContainsNothing(x, rules[1].lhs);
    OverlapChecked(rules[0], rules[1]);
  }

  lemma {:induction false} VariableContainsNothing(x: Name, q: EquationTerm)
    ensures !AnyContains([PVar(x)], q)
  {
    assert [PVar(x)][1..] == [];
  }

  // The unit pattern and the operation `unit` match the same term and never unify.
  lemma {:induction false} UnitSpellingMissed(a: EquationTerm, b: EquationTerm)
    requires a != b
    ensures var rules := [Rule("1", Call("f", PUnit), a, ""), Rule("2", Call("f", POp("unit", [])), b, "")];
            Confluent(rules) && !Exclusive(rules)
  {
    var rules := [Rule("1", Call("f", PUnit), a, ""), Rule("2", Call("f", POp("unit", [])), b, "")];
    var t := Ctor("f", [Ctor("unit", [])]);
    MatchCall("f", "f", PUnit, Ctor("unit", []));
    MatchCall("f", "f", POp("unit", []), Ctor("unit", []));
    assert rules[0] in rules && rules[1] in rules && Matches(rules[0], t) && Matches(rules[1], t);
    assert [PUnit][1..] == [] && [POp("unit", [])][1..] == [];
    assert !AnyContains([], rules[0].lhs) && !AnyContains([], rules[1].lhs);
    OverlapChecked(rules[0], rules[1]);
  }

  // Equal right sides pass, though their variables need not stand for the same parts.
  lemma {:induction false} SameRightSideMissed(x: Name, y: Name, t: IrTerm, u: IrTerm)
    requires x != y && t != u && (t.Const? || t.Var?) && (u.Const? || u.Var?)
    ensures var left := Rule("1", POp("f", [PVar(x), PVar(y)]), PVar(x), "");
            var right := Rule("2", POp("f", [PVar(y), PVar(x)]), PVar(x), "");
            && Confluent([left, right])
            && RewriteOnce([left, right], Ctor("f", [t, u])) == Rewritten(t, left)
            && RewriteOnce([right, left], Ctor("f", [t, u])) == Rewritten(u, right)
  {
    var left := Rule("1", POp("f", [PVar(x), PVar(y)]), PVar(x), "");
    var right := Rule("2", POp("f", [PVar(y), PVar(x)]), PVar(x), "");
    MatchPair(x, y, t, u);
    MatchPair(y, x, t, u);
    LeavesUnchanged([left, right], t, u);
    LeavesUnchanged([right, left], t, u);
    assert [PVar(x), PVar(y)][1..] == [PVar(y)] && [PVar(y), PVar(x)][1..] == [PVar(x)];
    VariableContainsNothing(y, right.lhs);
    VariableContainsNothing(x, left.lhs);
    assert !AnyContains(left.lhs.args, right.lhs) && !AnyContains(right.lhs.args, left.lhs);
    OverlapChecked(left, right);
  }

  lemma {:induction false} MatchPair(x: Name, y: Name, t: IrTerm, u: IrTerm)
    requires x != y
    ensures Match(POp("f", [PVar(x), PVar(y)]), Ctor("f", [t, u]), map[]) == Some(map[x := t, y := u])
  {
    assert [PVar(x), PVar(y)][1..] == [PVar(y)] && [t, u][1..] == [u];
    assert [PVar(y)][1..] == [] && [u][1..] == [];
    assert MatchAll([], [], map[x := t, y := u]) == Some(map[x := t, y := u]);
    assert MatchAll([PVar(y)], [u], map[x := t]) == Some(map[x := t, y := u]);
    assert Match(PVar(x), t, map[]) == Some(map[x := t]);
    assert MatchAll([PVar(x), PVar(y)], [t, u], map[]) == MatchAll([PVar(y)], [u], map[x := t]);
  }

  lemma {:induction false} LeavesUnchanged(rules: seq<Rule>, t: IrTerm, u: IrTerm)
    requires (t.Const? || t.Var?) && (u.Const? || u.Var?)
    ensures RewriteArgs(rules, [t, u]) == Unchanged
  {
    assert [t, u][1..] == [u] && [u][1..] == [];
    assert RewriteArgs(rules, []) == Unchanged;
    assert RewriteArgs(rules, [u]) == Unchanged;
  }
}
