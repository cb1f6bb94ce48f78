// What the overlap checks mean for terms: linear patterns overlap where some term is an instance of both, at the root
// or at a position inside, and the certificate is then exactly the absence of such terms.
module DesugarInstances {
  import opened Wrappers
  import opened Ir
  import opened Desugar
  import opened DesugarMeaning
  import opened DesugarTermination
  import opened DesugarOverlap
  import opened DesugarMatch
  import opened DesugarConfluence

  ghost predicate Instantiates(p: EquationTerm, t: IrTerm) {
    Match(p, t, map[]).Some?
  }

  // ---------- linear patterns match argument by argument ----------

  lemma {:induction false} LinearMatch(p: EquationTerm, t: IrTerm, b: Bindings)
    requires Linear(p) && Vars(p) !! b.Keys
    ensures Match(p, t, b).Some? <==> Instantiates(p, t)
    decreases PatternSize(p), 0
  {
    hide NamesAlias, IsUnitName;
    match p
    case POp(f, ps) =>
      if t.Ctor? && NamesAlias(f, t.ctor) && |ps| == |t.args| {
        LinearMatchAll(ps, t.args, b);
        LinearMatchAll(ps, t.args, map[]);
      }
    case _ =>
  }

  lemma {:induction false} LinearMatchAll(ps: seq<EquationTerm>, ts: seq<IrTerm>, b: Bindings)
    requires |ps| == |ts| && AllLinear(ps) && VarsAll(ps) !! b.Keys
    ensures MatchAll(ps, ts, b).Some? <==> forall i: nat :: i < |ps| ==> Instantiates(ps[i], ts[i])
    decreases PatternsSize(ps), 1
  {
    hide Instantiates, Linear;
    if ps != [] {
      LinearMatch(ps[0], ts[0], b);
      if Match(ps[0], ts[0], b).Some? {
        var b' := Match(ps[0], ts[0], b).value;
        MatchKeys(ps[0], ts[0], b);
        LinearMatchAll(ps[1..], ts[1..], b');
        assert forall i: nat :: i < |ps| - 1 ==> ps[1..][i] == ps[i + 1] && ts[1..][i] == ts[i + 1];
        assert forall i: nat :: 0 < i < |ps| ==> ps[i] == ps[1..][i - 1] && ts[i] == ts[1..][i - 1];
      }
    }
  }

  // ---------- below the root ----------

  // An instance of a pattern holds at every position an instance of the subpattern there, up to what is bound.
  lemma {:induction false} MatchInside(p: EquationTerm, t: IrTerm, b: Bindings, at: Position) returns (c: Bindings)
    requires Match(p, t, b).Some? && At(p, at).Some?
    ensures TermAt(t, at).Some? && Match(At(p, at).value, TermAt(t, at).value, c).Some?
    decreases |at|
  {
    c := b;
    if at != [] {
      c := MatchArgument(p.args, t.args, b, at[0]);
      c := MatchInside(p.args[at[0]], t.args[at[0]], c, at[1..]);
    }
  }

  lemma {:induction false} MatchArgument(ps: seq<EquationTerm>, ts: seq<IrTerm>, b: Bindings, i: nat)
    returns (c: Bindings)
    requires |ps| == |ts| && MatchAll(ps, ts, b).Some? && i < |ps|
    ensures Match(ps[i], ts[i], c).Some?
    decreases i
  {
    c := b;
    if i > 0 {
      c := MatchArgument(ps[1..], ts[1..], Match(ps[0], ts[0], b).value, i - 1);
    }
  }

  /** The instance of p that holds the term u at a position. */
  function InstanceWith(p: EquationTerm, at: Position, u: IrTerm): (t: IrTerm)
    requires At(p, at).Some?
    ensures TermAt(t, at) == Some(u)
    decreases |at|
  {
    if at == [] then u
    else Ctor(Unqualified(p.op), Instances(p.args)[at[0] := InstanceWith(p.args[at[0]], at[1..], u)])
  }

  lemma {:induction false} InstanceAt(ps: seq<EquationTerm>, i: nat)
    requires i < |ps|
    ensures Instances(ps)[i] == Instance(ps[i])
  {
    if i > 0 {
      InstanceAt(ps[1..], i - 1);
    }
  }

  lemma {:induction false} LinearArgument(ps: seq<EquationTerm>, i: nat)
    requires AllLinear(ps) && i < |ps|
    ensures Linear(ps[i])
  {
    hide Linear;
    if i > 0 {
      LinearArgument(ps[1..], i - 1);
    }
  }

  lemma {:induction false} InstanceWithMatches(p: EquationTerm, at: Position, u: IrTerm)
    requires At(p, at).Some? && Linear(p) && Instantiates(At(p, at).value, u)
    ensures Instantiates(p, InstanceWith(p, at, u))
    decreases |at|
  {
    if at != [] {
      var t := InstanceWith(p, at, u);
      LinearArgument(p.args, at[0]);
      InstanceWithMatches(p.args[at[0]], at[1..], u);
      forall i: nat | i < |p.args|
        ensures Instantiates(p.args[i], t.args[i])
      {
        LinearArgument(p.args, i);
        InstanceAt(p.args, i);
        InstanceMatches(p.args[i], map[]);
      }
      LinearMatchAll(p.args, t.args, map[]);
    }
  }

  // ---------- what the checks decide ----------

  ghost predicate SharesInsideAt(p: EquationTerm, q: EquationTerm, at: Position) {
    at != [] && At(p, at).Some? && !At(p, at).value.PVar? && SharesShape(At(p, at).value, q)
  }

  /** Some instance of p holds an instance of q at a position of p that is not its root and not a variable. */
  ghost predicate InstanceInside(p: EquationTerm, q: EquationTerm) {
    exists t, at: Position :: HoldsAt(p, q, t, at)
  }

  ghost predicate HoldsAt(p: EquationTerm, q: EquationTerm, t: IrTerm, at: Position) {
    && Instantiates(p, t) && at != [] && At(p, at).Some? && !At(p, at).value.PVar?
    && TermAt(t, at).Some? && Instantiates(q, TermAt(t, at).value)
  }

  /** Wherever a subpattern agrees with q but for qualifiers and spellings of unit, the checks find one that agrees. */
  ghost predicate ComparableInside(p: EquationTerm, q: EquationTerm) {
    (exists at :: SharesInsideAt(p, q, at)) ==> Inside(p, q)
  }

  // What unifies has one shape.
  lemma {:induction false} UnifyShares(p: EquationTerm, q: EquationTerm)
    requires PatternsUnify(p, q)
    ensures SharesShape(p, q)
    decreases PatternSize(p), 0
  {
    match (p, q)
    case (POp(f, ps), POp(g, qs)) =>
      AliasAgrees(f, g);
      AllUnifyShare(ps, qs);
    case _ =>
  }

  lemma {:induction false} AllUnifyShare(ps: seq<EquationTerm>, qs: seq<EquationTerm>)
    requires |ps| == |qs| && AllUnify(ps, qs)
    ensures AllShare(ps, qs)
    decreases PatternsSize(ps), 1
  {
    if ps != [] {
      UnifyShares(ps[0], qs[0]);
      AllUnifyShare(ps[1..], qs[1..]);
    }
  }

  // Linear patterns agree everywhere only if some term is an instance of both, and comparable ones if some term is.
  lemma {:induction false} AgreeInstances(p: EquationTerm, q: EquationTerm)
    ensures Comparable(p, q) && (exists t :: CommonTerm(p, q, t)) ==> AgreeEverywhere(p, q)
    ensures Linear(p) && Linear(q) && AgreeEverywhere(p, q) ==> exists t :: CommonTerm(p, q, t)
  {
    hide AgreeEverywhere, SharesShape;
    UnifyExactly(p, q);
    MissesNothing(p, q);
    if Linear(p) && Linear(q) && AgreeEverywhere(p, q) {
      UnifyShares(p, q);
      CommonMatches(p, q, map[], map[]);
      assert CommonTerm(p, q, CommonInstance(p, q));
    }
  }

  lemma {:induction false} LinearInside(p: EquationTerm, at: Position)
    requires Linear(p) && At(p, at).Some?
    ensures Linear(At(p, at).value)
    decreases |at|
  {
    if at != [] {
      LinearArgument(p.args, at[0]);
      LinearInside(p.args[at[0]], at[1..]);
    }
  }

  lemma {:induction false} SharedHolds(p: EquationTerm, q: EquationTerm, at: Position)
    requires Linear(p) && Linear(q) && SharesInsideAt(p, q, at)
    ensures InstanceInside(p, q)
  {
    hide Linear, SharesShape;
    var sub := At(p, at).value;
    LinearInside(p, at);
    CommonMatches(sub, q, map[], map[]);
    var u := CommonInstance(sub, q);
    InstanceWithMatches(p, at, u);
    assert HoldsAt(p, q, InstanceWith(p, at, u), at);
  }

  lemma {:induction false} HoldingShares(p: EquationTerm, q: EquationTerm, t: IrTerm, at: Position)
    requires HoldsAt(p, q, t, at)
    ensures SharesInsideAt(p, q, at)
  {
    hide SharesShape;
    var c := MatchInside(p, t, map[], at);
    BothMatchShare(At(p, at).value, q, TermAt(t, at).value, c, map[]);
  }

  // The search below the root misses no instance of comparable patterns, for linear patterns only of those, and finds
  // nothing else.
  lemma {:induction false} InsideInstances(p: EquationTerm, q: EquationTerm)
    ensures ComparableInside(p, q) && InstanceInside(p, q) ==> Inside(p, q)
    ensures Linear(p) && Linear(q) && Inside(p, q) ==> InstanceInside(p, q)
    ensures Linear(p) && Linear(q) ==> ((InstanceInside(p, q) ==> Inside(p, q)) <==> ComparableInside(p, q))
  {
    hide Linear, HoldsAt, SharesInsideAt, InsideAt;
    if t, at: Position :| HoldsAt(p, q, t, at) {
      HoldingShares(p, q, t, at);
    }
    if Linear(p) && Linear(q) {
      if at :| SharesInsideAt(p, q, at) {
        SharedHolds(p, q, at);
      }
      if at :| InsideAt(p, q, at) {
        InsideShares(p, q, at);
        SharedHolds(p, q, at);
      }
    }
  }

  lemma {:induction false} InsideShares(p: EquationTerm, q: EquationTerm, at: Position)
    requires InsideAt(p, q, at)
    ensures SharesInsideAt(p, q, at)
  {
    hide AgreeEverywhere, SharesShape;
    UnifyExactly(At(p, at).value, q);
    UnifyShares(At(p, at).value, q);
  }

  // ---------- the certificate ----------

  /** Some term is rewritten by both rules at its root, or by one at the root and the other inside its left side. */
  ghost predicate Critical(left: Rule, right: Rule) {
    || ((exists t :: CommonTerm(left.lhs, right.lhs, t)) && left.rhs != right.rhs)
    || InstanceInside(left.lhs, right.lhs)
    || InstanceInside(right.lhs, left.lhs)
  }

  ghost predicate EverywhereComparable(rules: seq<Rule>) {
    forall i, j :: 0 <= i < j < |rules| ==>
      && Comparable(rules[i].lhs, rules[j].lhs)
      && ComparableInside(rules[i].lhs, rules[j].lhs) && ComparableInside(rules[j].lhs, rules[i].lhs)
  }

  // For linear comparable left sides the certificate is given exactly where no two rules have a critical term.
  lemma {:induction false} ConfluentExactly(rules: seq<Rule>)
    requires LeftLinear(rules) && EverywhereComparable(rules)
    ensures Confluent(rules) <==> forall i, j :: 0 <= i < j < |rules| ==> !Critical(rules[i], rules[j])
  {
    hide Linear, Comparable, ComparableInside, Overlap, Critical;
    forall i, j | 0 <= i < j < |rules|
      ensures Overlap(rules[i], rules[j]) <==> Critical(rules[i], rules[j])
    {
      OverlapIsCritical(rules[i], rules[j]);
    }
  }

  lemma {:induction false} OverlapIsCritical(left: Rule, right: Rule)
    requires Linear(left.lhs) && Linear(right.lhs) && Comparable(left.lhs, right.lhs)
    requires ComparableInside(left.lhs, right.lhs) && ComparableInside(right.lhs, left.lhs)
    ensures Overlap(left, right) <==> Critical(left, right)
  {
    hide Linear, Comparable, ComparableInside, Inside, InstanceInside, AgreeEverywhere, CommonTerm;
    AgreeInstances(left.lhs, right.lhs);
    InsideInstances(left.lhs, right.lhs);
    InsideInstances(right.lhs, left.lhs);
  }

  // Patterns of unqualified names other than unit are comparable at every position.
  lemma {:induction false} PlainComparableInside(p: EquationTerm, q: EquationTerm)
    requires Plain(p) && Plain(q)
    ensures ComparableInside(p, q)
  {
    if at :| SharesInsideAt(p, q, at) {
      PlainInside(p, at);
      PlainIsComparable(At(p, at).value, q);
      UnifyExactly(At(p, at).value, q);
      assert InsideAt(p, q, at);
    }
  }

  lemma {:induction false} PlainInside(p: EquationTerm, at: Position)
    requires At(p, at).Some?
    ensures OpNames(At(p, at).value) <= OpNames(p)
    decreases |at|
  {
    if at != [] {
      NamesOfArgument(p.args, at[0]);
      PlainInside(p.args[at[0]], at[1..]);
    }
  }

  lemma {:induction false} NamesOfArgument(ps: seq<EquationTerm>, i: nat)
    requires i < |ps|
    ensures OpNames(ps[i]) <= OpNamesAll(ps)
  {
    if i > 0 {
      NamesOfArgument(ps[1..], i - 1);
    }
  }

  // The names of a pattern are those of its operations, at whatever position.
  lemma {:induction false} OpNamesExactly(p: EquationTerm, o: Name)
    ensures o in OpNames(p) <==> exists at :: NamedAt(p, o, at)
    decreases PatternSize(p), 0
  {
    if o in OpNames(p) {
      if p.op == o {
        assert NamedAt(p, o, []);
      } else {
        var i := ArgumentNaming(p.args, o);
        OpNamesExactly(p.args[i], o);
        var at: Position :| NamedAt(p.args[i], o, at);
        assert ([i] + at)[1..] == at;
        assert NamedAt(p, o, [i] + at);
      }
    }
    if at: Position :| NamedAt(p, o, at) {
      PlainInside(p, at);
    }
  }

  predicate NamedAt(p: EquationTerm, o: Name, at: Position) {
    At(p, at).Some? && At(p, at).value.POp? && At(p, at).value.op == o
  }

  lemma {:induction false} ArgumentNaming(ps: seq<EquationTerm>, o: Name) returns (i: nat)
    requires o in OpNamesAll(ps)
    ensures i < |ps| && o in OpNames(ps[i]) && PatternSize(ps[i]) <= PatternsSize(ps)
  {
    i := 0;
    if o !in OpNames(ps[0]) {
      i := ArgumentNaming(ps[1..], o);
      i := i + 1;
    }
  }
}
