// The confluence certificate (desugar.rs): which left-hand patterns overlap, at the root or
// at a position inside.
module DesugarOverlap {
  import opened Wrappers
  import opened Ir
  import opened Desugar

  // ---------- the checks as they run ----------

  function PatternsUnify(p: EquationTerm, q: EquationTerm): bool
    decreases PatternSize(p), 0
  {
    match (p, q)
    case (PVar(_), _) => true
    case (_, PVar(_)) => true
    case (PUnit, PUnit) => true
    case (PConst(v, s), PConst(w, s')) => v == w && s == s'
    case (POp(f, ps), POp(g, qs)) => NamesAlias(f, g) && |ps| == |qs| && AllUnify(ps, qs)
    case _ => false
  }

  function AllUnify(ps: seq<EquationTerm>, qs: seq<EquationTerm>): bool
    requires |ps| == |qs|
    decreases PatternsSize(ps), 1
  {
    ps == [] || (PatternsUnify(ps[0], qs[0]) && AllUnify(ps[1..], qs[1..]))
  }

  /** Some argument of p, at any depth and not a variable, unifies with q. */
  function ContainsUnifiable(p: EquationTerm, q: EquationTerm): bool
    decreases PatternSize(p), 0
  {
    p.POp? && AnyContains(p.args, q)
  }

  function AnyContains(ps: seq<EquationTerm>, q: EquationTerm): bool
    decreases PatternsSize(ps), 1
  {
    && ps != []
    && ((!ps[0].PVar? && (PatternsUnify(ps[0], q) || ContainsUnifiable(ps[0], q))) || AnyContains(ps[1..], q))
  }

  // ---------- overlap by position ----------

  /** The way down from the root, one argument index after the other. */
  type Position = seq<nat>

  function At(p: EquationTerm, at: Position): Option<EquationTerm> {
    if at == [] then Some(p)
    else if p.POp? && at[0] < |p.args| then At(p.args[at[0]], at[1..])
    else None
  }

  /** Nothing at the roots keeps a term from matching both. */
  predicate RootsAgree(p: EquationTerm, q: EquationTerm) {
    || p.PVar? || q.PVar? || p == q
    || (p.POp? && q.POp? && NamesAlias(p.op, q.op) && |p.args| == |q.args|)
  }

  predicate AgreeAt(p: EquationTerm, q: EquationTerm, at: Position) {
    At(p, at).Some? && At(q, at).Some? ==> RootsAgree(At(p, at).value, At(q, at).value)
  }

  ghost predicate AgreeEverywhere(p: EquationTerm, q: EquationTerm) {
    forall at :: AgreeAt(p, q, at)
  }

  lemma {:induction false} AgreeBelow(p: EquationTerm, q: EquationTerm, at: Position)
    requires p.POp? && q.POp? && |p.args| == |q.args| && at != [] && at[0] < |p.args|
    ensures AgreeAt(p, q, at) <==> AgreeAt(p.args[at[0]], q.args[at[0]], at[1..])
  {
  }

  // Two patterns unify exactly when their roots agree at every position they share.
  lemma {:induction false} UnifyExactly(p: EquationTerm, q: EquationTerm)
    ensures PatternsUnify(p, q) <==> AgreeEverywhere(p, q)
    decreases PatternSize(p), 0
  {
    hide NamesAlias;
    assert AgreeAt(p, q, []) <==> RootsAgree(p, q);
    if RootsAgree(p, q) {
      if p.POp? && q.POp? && |p.args| == |q.args| {
        ArgsExactly(p, q);
        if p == q && !NamesAlias(p.op, q.op) {
          SameName(p.op);
        }
      } else {
        forall at: Position
          ensures AgreeAt(p, q, at)
        {
        }
      }
    }
  }

  lemma {:induction false} SameName(f: Name)
    ensures NamesAlias(f, f)
  {
  }

  lemma {:induction false} ArgsExactly(p: EquationTerm, q: EquationTerm)
    requires p.POp? && q.POp? && |p.args| == |q.args| && RootsAgree(p, q)
    ensures AllUnify(p.args, q.args) <==> AgreeEverywhere(p, q)
    decreases PatternSize(p) - 1, 2
  {
    hide RootsAgree;
    AllExactly(p.args, q.args);
    if AgreeEverywhere(p, q) {
      forall i: nat | i < |p.args|
        ensures AgreeEverywhere(p.args[i], q.args[i])
      {
        forall at: Position
          ensures AgreeAt(p.args[i], q.args[i], at)
        {
          AgreeBelow(p, q, [i] + at);
          assert ([i] + at)[1..] == at;
        }
      }
    }
    if forall i: nat :: i < |p.args| ==> AgreeEverywhere(p.args[i], q.args[i]) {
      forall at: Position
        ensures AgreeAt(p, q, at)
      {
        if at != [] && at[0] < |p.args| {
          AgreeBelow(p, q, at);
          assert AgreeEverywhere(p.args[at[0]], q.args[at[0]]);
        }
      }
    }
  }

  lemma {:induction false} AllExactly(ps: seq<EquationTerm>, qs: seq<EquationTerm>)
    requires |ps| == |qs|
    ensures AllUnify(ps, qs) <==> forall i: nat :: i < |ps| ==> AgreeEverywhere(ps[i], qs[i])
    decreases PatternsSize(ps), 1
  {
    hide AgreeEverywhere;
    if ps != [] {
      UnifyExactly(ps[0], qs[0]);
      AllExactly(ps[1..], qs[1..]);
      assert forall i: nat :: 0 < i < |ps| ==> ps[i] == ps[1..][i - 1] && qs[i] == qs[1..][i - 1];
      assert forall i: nat :: i < |ps| - 1 ==> ps[1..][i] == ps[i + 1] && qs[1..][i] == qs[i + 1];
    }
  }

  /** A position strictly inside p whose subpattern, not a variable, agrees with q everywhere. */
  ghost predicate InsideAt(p: EquationTerm, q: EquationTerm, at: Position) {
    at != [] && At(p, at).Some? && !At(p, at).value.PVar? && AgreeEverywhere(At(p, at).value, q)
  }

  ghost predicate Inside(p: EquationTerm, q: EquationTerm) {
    exists at :: InsideAt(p, q, at)
  }

  ghost predicate HereOrInside(p: EquationTerm, q: EquationTerm) {
    !p.PVar? && (AgreeEverywhere(p, q) || Inside(p, q))
  }

  // The search through the arguments finds such a position exactly when there is one.
  lemma {:induction false} ContainsExactly(p: EquationTerm, q: EquationTerm)
    ensures ContainsUnifiable(p, q) <==> Inside(p, q)
    decreases PatternSize(p), 0
  {
    hide AgreeEverywhere, HereOrInside, Inside, InsideAt;
    InsideExactly(p, q);
    if p.POp? {
      AnyExactly(p.args, q);
    }
  }

  lemma {:induction false} InsideExactly(p: EquationTerm, q: EquationTerm)
    ensures Inside(p, q) <==> p.POp? && exists i: nat :: i < |p.args| && HereOrInside(p.args[i], q)
  {
    hide AgreeEverywhere, HereOrInside;
    if Inside(p, q) {
      var at :| InsideAt(p, q, at);
      BelowArgument(p, q, at);
    }
    if p.POp? {
      if i: nat :| i < |p.args| && HereOrInside(p.args[i], q) {
        InsideArgument(p, q, i);
      }
    }
  }

  lemma {:induction false} BelowArgument(p: EquationTerm, q: EquationTerm, at: Position)
    requires InsideAt(p, q, at)
    ensures p.POp? && at[0] < |p.args| && HereOrInside(p.args[at[0]], q)
  {
    hide AgreeEverywhere;
    assert At(p, at) == At(p.args[at[0]], at[1..]);
    if at[1..] != [] {
      assert InsideAt(p.args[at[0]], q, at[1..]);
    }
  }

  lemma {:induction false} InsideArgument(p: EquationTerm, q: EquationTerm, i: nat)
    requires p.POp? && i < |p.args| && HereOrInside(p.args[i], q)
    ensures Inside(p, q)
  {
    hide AgreeEverywhere;
    if AgreeEverywhere(p.args[i], q) {
      assert [i][1..] == [] && At(p, [i]) == Some(p.args[i]);
      assert InsideAt(p, q, [i]);
    } else {
      var at :| InsideAt(p.args[i], q, at);
      assert ([i] + at)[1..] == at;
      assert InsideAt(p, q, [i] + at);
    }
  }

  lemma {:induction false} AnyExactly(ps: seq<EquationTerm>, q: EquationTerm)
    ensures AnyContains(ps, q) <==> exists i: nat :: i < |ps| && HereOrInside(ps[i], q)
    decreases PatternsSize(ps), 1
  {
    hide AgreeEverywhere, Inside, PatternsUnify;
    if ps != [] {
      UnifyExactly(ps[0], q);
      ContainsExactly(ps[0], q);
      AnyExactly(ps[1..], q);
      if AnyContains(ps[1..], q) {
        var i: nat :| i < |ps[1..]| && HereOrInside(ps[1..][i], q);
        assert HereOrInside(ps[i + 1], q);
      }
      if i: nat :| i < |ps| && HereOrInside(ps[i], q) {
        assert i == 0 || HereOrInside(ps[1..][i - 1], q);
      }
    }
  }

  // ---------- the certificate ----------

  ghost predicate RootsOverlap(left: Rule, right: Rule) {
    AgreeEverywhere(left.lhs, right.lhs) && left.rhs != right.rhs
  }

  ghost predicate Overlap(left: Rule, right: Rule) {
    RootsOverlap(left, right) || Inside(left.lhs, right.lhs) || Inside(right.lhs, left.lhs)
  }

  /** No two rules overlap, at the root or below it. */
  ghost predicate Confluent(rules: seq<Rule>) {
    forall i, j :: 0 <= i < j < |rules| ==> !Overlap(rules[i], rules[j])
  }

  predicate ChecksOverlap(left: Rule, right: Rule) {
    || (PatternsUnify(left.lhs, right.lhs) && left.rhs != right.rhs)
    || ContainsUnifiable(left.lhs, right.lhs)
    || ContainsUnifiable(right.lhs, left.lhs)
  }

  lemma {:induction false} OverlapChecked(left: Rule, right: Rule)
    ensures ChecksOverlap(left, right) <==> Overlap(left, right)
    ensures PatternsUnify(left.lhs, right.lhs) && left.rhs != right.rhs <==> RootsOverlap(left, right)
  {
    hide PatternsUnify, ContainsUnifiable, Inside, AgreeEverywhere;
    UnifyExactly(left.lhs, right.lhs);
    ContainsExactly(left.lhs, right.lhs);
    ContainsExactly(right.lhs, left.lhs);
  }

  datatype Verdict = NoOverlap | RootOverlap(left: Rule, right: Rule) | NestedOverlap(left: Rule, right: Rule)

  /** The first pair of rules that overlap. */
  ghost predicate FirstOverlap(rules: seq<Rule>, i: nat, j: nat) {
    && i < j < |rules| && Overlap(rules[i], rules[j])
    && forall k, l :: 0 <= k < l < |rules| && (k < i || (k == i && l < j)) ==> !Overlap(rules[k], rules[l])
  }

  method CertifyConfluence(rules: seq<Rule>) returns (v: Verdict)
    ensures v.NoOverlap? <==> Confluent(rules)
    ensures !v.NoOverlap? ==>
              exists i: nat, j: nat :: FirstOverlap(rules, i, j) && rules[i] == v.left && rules[j] == v.right
    ensures !v.NoOverlap? ==> (v.RootOverlap? <==> RootsOverlap(v.left, v.right))
  {
    hide PatternsUnify, ContainsUnifiable, Overlap, RootsOverlap;
    for i := 0 to |rules|
      invariant forall k, l :: 0 <= k < i && k < l < |rules| ==> !Overlap(rules[k], rules[l])
    {
      for j := i + 1 to |rules|
        invariant forall l :: i < l < j ==> !Overlap(rules[i], rules[l])
      {
        OverlapChecked(rules[i], rules[j]);
        if PatternsUnify(rules[i].lhs, rules[j].lhs) && rules[i].rhs != rules[j].rhs {
          assert FirstOverlap(rules, i, j);
          return RootOverlap(rules[i], rules[j]);
        }
        if ContainsUnifiable(rules[i].lhs, rules[j].lhs) || ContainsUnifiable(rules[j].lhs, rules[i].lhs) {
          assert FirstOverlap(rules, i, j);
          return NestedOverlap(rules[i], rules[j]);
        }
      }
    }
    v := NoOverlap;
  }
}
