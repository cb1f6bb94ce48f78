// What matching, instantiating and one rewrite step are, position by position (desugar.rs): a match is an instance of
// the pattern up to aliases, and a step contracts the first redex in post-order by the first rule that matches it.
module DesugarMatch {
  import opened Wrappers
  import opened Ir
  import opened Desugar
  import opened DesugarMeaning
  import opened DesugarOverlap

  function TermAt(t: IrTerm, at: Position): Option<IrTerm> {
    if at == [] then Some(t)
    else if t.Ctor? && at[0] < |t.args| then TermAt(t.args[at[0]], at[1..])
    else None
  }

  // ---------- names ----------

  // The unqualified name is what follows the last colon, and the whole name where there is none.
  lemma {:induction false} UnqualifiedExactly(name: Name)
    ensures ':' in name ==> exists qualifier: Name :: name == qualifier + ":" + Unqualified(name)
  {
    if name != "" && ':' in name[1..] {
      UnqualifiedExactly(name[1..]);
      var q: Name :| name[1..] == q + ":" + Unqualified(name[1..]);
      assert name == ([name[0]] + q) + ":" + Unqualified(name);
    } else if name != "" && name[0] == ':' {
      assert name == "" + ":" + name[1..];
    }
  }

  // The names the unit pattern takes are the aliases of unit.
  lemma {:induction false} UnitExactly(name: Name)
    ensures IsUnitName(name) <==> NamesAlias("unit", name)
  {
    if IsUnitName(name) {
      UnitAliases(name);
    }
    if NamesAlias("unit", name) && name != "unit" && ':' in name {
      UnqualifiedExactly(name);
      var q: Name :| name == q + ":" + Unqualified(name);
      assert name[|name| - 5..] == ":unit";
    }
  }

  // ---------- matching ----------

  /** The term is what the pattern asks for at its root, its variables standing for what s says. */
  predicate FitsRoot(p: EquationTerm, t: IrTerm, s: Bindings) {
    match p
    case PVar(x) => x in s && s[x] == t
    case PConst(value, sort) => t == Const(value, sort)
    case PUnit => t.Ctor? && NamesAlias("unit", t.ctor) && t.args == []
    case POp(f, ps) => t.Ctor? && NamesAlias(f, t.ctor) && |t.args| == |ps|
  }

  predicate FitsAt(p: EquationTerm, t: IrTerm, s: Bindings, at: Position) {
    At(p, at).Some? ==> TermAt(t, at).Some? && FitsRoot(At(p, at).value, TermAt(t, at).value, s)
  }

  /** The term is the pattern with its variables replaced, each name perhaps by an alias. */
  ghost predicate InstanceOf(p: EquationTerm, t: IrTerm, s: Bindings) {
    forall at :: FitsAt(p, t, s, at)
  }

  lemma {:induction false} InstanceParts(p: EquationTerm, t: IrTerm, s: Bindings)
    requires p.POp?
    ensures InstanceOf(p, t, s) <==>
              && FitsRoot(p, t, s)
              && forall i: nat :: i < |p.args| ==> InstanceOf(p.args[i], t.args[i], s)
  {
    hide FitsRoot;
    assert FitsAt(p, t, s, []) <==> FitsRoot(p, t, s);
    if FitsRoot(p, t, s) {
      RootArity(p, t, s);
      if InstanceOf(p, t, s) {
        forall i: nat, at: Position | i < |p.args|
          ensures FitsAt(p.args[i], t.args[i], s, at)
        {
          assert ([i] + at)[1..] == at;
          assert FitsAt(p, t, s, [i] + at);
        }
      }
      if forall i: nat :: i < |p.args| ==> InstanceOf(p.args[i], t.args[i], s) {
        forall at: Position
          ensures FitsAt(p, t, s, at)
        {
          if at != [] && at[0] < |p.args| {
            assert FitsAt(p.args[at[0]], t.args[at[0]], s, at[1..]);
          }
        }
      }
    }
  }

  lemma {:induction false} RootArity(p: EquationTerm, t: IrTerm, s: Bindings)
    requires p.POp? && FitsRoot(p, t, s)
    ensures t.Ctor? && |t.args| == |p.args|
  {
  }

  lemma {:induction false} LeafInstance(p: EquationTerm, t: IrTerm, s: Bindings)
    requires !p.POp?
    ensures InstanceOf(p, t, s) <==> FitsRoot(p, t, s)
  {
    assert FitsAt(p, t, s, []) <==> FitsRoot(p, t, s);
    forall at: Position | at != []
      ensures FitsAt(p, t, s, at)
    {
    }
  }

  // What is matched is an instance, under the bindings found and whatever extends them.
  lemma {:induction false} MatchSound(p: EquationTerm, t: IrTerm, b: Bindings, big: Bindings)
    requires Match(p, t, b).Some? && Extends(Match(p, t, b).value, big)
    ensures InstanceOf(p, t, big)
    decreases PatternSize(p), 0
  {
    hide NamesAlias, IsUnitName, InstanceOf;
    match p
    case POp(f, ps) =>
      MatchAllSound(ps, t.args, b, big);
      InstanceParts(p, t, big);
    case PUnit =>
      UnitExactly(t.ctor);
      LeafInstance(p, t, big);
    case PVar(x) =>
      assert x in Match(p, t, b).value && Match(p, t, b).value[x] == t;
      LeafInstance(p, t, big);
    case _ => LeafInstance(p, t, big);
  }

  lemma {:induction false} MatchAllSound(ps: seq<EquationTerm>, ts: seq<IrTerm>, b: Bindings, big: Bindings)
    requires |ps| == |ts| && MatchAll(ps, ts, b).Some? && Extends(MatchAll(ps, ts, b).value, big)
    ensures forall i: nat :: i < |ps| ==> InstanceOf(ps[i], ts[i], big)
    decreases PatternsSize(ps), 1
  {
    hide InstanceOf, Match;
    if ps != [] {
      var b' := Match(ps[0], ts[0], b).value;
      MatchAllBinds(ps[1..], ts[1..], b');
      MatchSound(ps[0], ts[0], b, big);
      MatchAllSound(ps[1..], ts[1..], b', big);
      assert forall i: nat :: 0 < i < |ps| ==> ps[i] == ps[1..][i - 1] && ts[i] == ts[1..][i - 1];
    }
  }

  // An instance is matched, and nothing is bound but what makes it one.
  lemma {:induction false} MatchComplete(p: EquationTerm, t: IrTerm, b: Bindings, s: Bindings)
    requires InstanceOf(p, t, s) && Extends(b, s)
    ensures Match(p, t, b).Some? && Extends(Match(p, t, b).value, s)
    decreases PatternSize(p), 0
  {
    hide NamesAlias, IsUnitName, InstanceOf;
    match p
    case POp(f, ps) =>
      InstanceParts(p, t, s);
      MatchAllComplete(ps, t.args, b, s);
    case PUnit =>
      LeafInstance(p, t, s);
      UnitExactly(t.ctor);
    case _ => LeafInstance(p, t, s);
  }

  lemma {:induction false} MatchAllComplete(ps: seq<EquationTerm>, ts: seq<IrTerm>, b: Bindings, s: Bindings)
    requires |ps| == |ts| && (forall i: nat :: i < |ps| ==> InstanceOf(ps[i], ts[i], s)) && Extends(b, s)
    ensures MatchAll(ps, ts, b).Some? && Extends(MatchAll(ps, ts, b).value, s)
    decreases PatternsSize(ps), 1
  {
    hide InstanceOf, Match;
    if ps != [] {
      MatchComplete(ps[0], ts[0], b, s);
      assert forall i: nat :: i < |ps| - 1 ==> ps[1..][i] == ps[i + 1] && ts[1..][i] == ts[i + 1];
      MatchAllComplete(ps[1..], ts[1..], Match(ps[0], ts[0], b).value, s);
    }
  }

  // A rule's left side matches exactly its instances, and the match is the least substitution that makes it one.
  lemma {:induction false} MatchExactly(p: EquationTerm, t: IrTerm)
    ensures Match(p, t, map[]).Some? <==> exists s :: InstanceOf(p, t, s)
    ensures Match(p, t, map[]).Some? ==>
              var b := Match(p, t, map[]).value;
              InstanceOf(p, t, b) && forall s :: InstanceOf(p, t, s) ==> Extends(b, s)
  {
    hide InstanceOf, Match;
    if Match(p, t, map[]).Some? {
      MatchSound(p, t, map[], Match(p, t, map[]).value);
    }
    forall s | InstanceOf(p, t, s)
      ensures Match(p, t, map[]).Some? && Extends(Match(p, t, map[]).value, s)
    {
      MatchComplete(p, t, map[], s);
    }
  }

  // ---------- instantiating ----------

  predicate BuildsRoot(p: EquationTerm, t: IrTerm, b: Bindings) {
    match p
    case PVar(x) => x in b && b[x] == t
    case PConst(value, sort) => t == Const(value, sort)
    case PUnit => t == Ctor("unit", [])
    case POp(f, ps) => t.Ctor? && t.ctor == f && |t.args| == |ps|
  }

  predicate BuildsAt(p: EquationTerm, t: IrTerm, b: Bindings, at: Position) {
    At(p, at).Some? ==> TermAt(t, at).Some? && BuildsRoot(At(p, at).value, TermAt(t, at).value, b)
  }

  /** The term is the pattern with its variables replaced, every name as it stands. */
  ghost predicate BuiltFrom(p: EquationTerm, t: IrTerm, b: Bindings) {
    forall at :: BuildsAt(p, t, b, at)
  }

  lemma {:induction false} BuiltParts(p: EquationTerm, t: IrTerm, b: Bindings)
    requires p.POp?
    ensures BuiltFrom(p, t, b) <==>
              && BuildsRoot(p, t, b)
              && forall i: nat :: i < |p.args| ==> BuiltFrom(p.args[i], t.args[i], b)
  {
    assert BuildsAt(p, t, b, []) <==> BuildsRoot(p, t, b);
    if BuildsRoot(p, t, b) {
      if BuiltFrom(p, t, b) {
        forall i: nat, at: Position | i < |p.args|
          ensures BuildsAt(p.args[i], t.args[i], b, at)
        {
          assert ([i] + at)[1..] == at;
          assert BuildsAt(p, t, b, [i] + at);
        }
      }
      if forall i: nat :: i < |p.args| ==> BuiltFrom(p.args[i], t.args[i], b) {
        forall at: Position
          ensures BuildsAt(p, t, b, at)
        {
          if at != [] && at[0] < |p.args| {
            assert BuildsAt(p.args[at[0]], t.args[at[0]], b, at[1..]);
          }
        }
      }
    }
  }

  lemma {:induction false} LeafBuilt(p: EquationTerm, t: IrTerm, b: Bindings)
    requires !p.POp?
    ensures BuiltFrom(p, t, b) <==> BuildsRoot(p, t, b)
  {
    assert BuildsAt(p, t, b, []) <==> BuildsRoot(p, t, b);
    forall at: Position | at != []
      ensures BuildsAt(p, t, b, at)
    {
    }
  }

  // A right side becomes the one term built from it.
  lemma {:induction false} InstantiateExactly(p: EquationTerm, b: Bindings, t: IrTerm)
    ensures Instantiate(p, b) == Some(t) <==> BuiltFrom(p, t, b)
    decreases PatternSize(p), 0
  {
    hide BuiltFrom;
    match p
    case POp(f, ps) =>
      BuiltParts(p, t, b);
      if t.Ctor? {
        InstantiateAllExactly(ps, b, t.args);
      }
    case _ => LeafBuilt(p, t, b);
  }

  lemma {:induction false} InstantiateAllExactly(ps: seq<EquationTerm>, b: Bindings, ts: seq<IrTerm>)
    ensures InstantiateAll(ps, b) == Some(ts) <==>
              |ts| == |ps| && forall i: nat :: i < |ps| ==> BuiltFrom(ps[i], ts[i], b)
    decreases PatternsSize(ps), 1
  {
    hide BuiltFrom, Instantiate;
    if ps != [] && ts != [] {
      InstantiateExactly(ps[0], b, ts[0]);
      InstantiateAllExactly(ps[1..], b, ts[1..]);
      assert ts == [ts[0]] + ts[1..];
      assert forall i: nat :: i < |ps| - 1 && i < |ts| - 1 ==> ps[1..][i] == ps[i + 1] && ts[1..][i] == ts[i + 1];
      assert forall i: nat :: 0 < i < |ps| && i < |ts| ==> ps[i] == ps[1..][i - 1] && ts[i] == ts[1..][i - 1];
    }
  }

  // ---------- the rule that is applied ----------

  /** Rule i matches, and none before it. */
  ghost predicate FirstMatch(rules: seq<Rule>, t: IrTerm, i: nat) {
    i < |rules| && Matches(rules[i], t) && forall j: nat :: j < i ==> !Matches(rules[j], t)
  }

  // The first rule that matches decides, even where its right side cannot be built.
  lemma {:induction false} FirstDecides(rules: seq<Rule>, t: IrTerm, i: nat)
    requires FirstMatch(rules, t, i)
    ensures ApplyFirst(rules, t) ==
            match Instantiate(rules[i].rhs, Match(rules[i].lhs, t, map[]).value)
            case None => Refused(rules[i])
            case Some(u) => Rewritten(u, rules[i])
  {
    hide Match, Instantiate;
    if i > 0 {
      assert !Matches(rules[0], t);
      assert forall j: nat :: j < i - 1 ==> rules[1..][j] == rules[j + 1];
      FirstDecides(rules[1..], t, i - 1);
    }
  }

  // ---------- where it is applied ----------

  /** The constructor sub-terms in post-order: arguments first, left to right. */
  function Nodes(t: IrTerm): seq<IrTerm>
    decreases TermSize(t), 0
  {
    match t
    case Ctor(_, args) => AllNodes(args) + [t]
    case Lambda(_, _, body) => Nodes(body)
    case Let(bs, body) => BindingNodes(bs) + Nodes(body)
    case _ => []
  }

  function AllNodes(ts: seq<IrTerm>): seq<IrTerm>
    decreases TermsSize(ts), 1
  {
    if ts == [] then [] else Nodes(ts[0]) + AllNodes(ts[1..])
  }

  function BindingNodes(bs: seq<LetBinding>): seq<IrTerm>
    decreases BindingsSize(bs), 1
  {
    if bs == [] then [] else Nodes(bs[0].bound) + BindingNodes(bs[1..])
  }

  /** The term with its k-th node replaced. */
  function Replace(t: IrTerm, k: nat, u: IrTerm): IrTerm
    requires k < |Nodes(t)|
    decreases TermSize(t), 0
  {
    match t
    case Ctor(name, args) => if k < |AllNodes(args)| then Ctor(name, ReplaceIn(args, k, u)) else u
    case Lambda(param, sort, body) => Lambda(param, sort, Replace(body, k, u))
    case Let(bs, body) =>
      var n := |BindingNodes(bs)|;
      if k < n then Let(ReplaceBinding(bs, k, u), body) else Let(bs, Replace(body, k - n, u))
  }

  function ReplaceIn(ts: seq<IrTerm>, k: nat, u: IrTerm): seq<IrTerm>
    requires k < |AllNodes(ts)|
    decreases TermsSize(ts), 1
  {
    var n := |Nodes(ts[0])|;
    if k < n then [Replace(ts[0], k, u)] + ts[1..] else [ts[0]] + ReplaceIn(ts[1..], k - n, u)
  }

  function ReplaceBinding(bs: seq<LetBinding>, k: nat, u: IrTerm): seq<LetBinding>
    requires k < |BindingNodes(bs)|
    decreases BindingsSize(bs), 1
  {
    var n := |Nodes(bs[0].bound)|;
    if k < n then [LetBinding(bs[0].name, Replace(bs[0].bound, k, u))] + bs[1..]
    else [bs[0]] + ReplaceBinding(bs[1..], k - n, u)
  }

  ghost predicate Redex(rules: seq<Rule>, t: IrTerm) {
    exists r :: r in rules && Matches(r, t)
  }

  /** Node k is a redex, and none before it. */
  ghost predicate FirstRedex(rules: seq<Rule>, nodes: seq<IrTerm>, k: nat) {
    k < |nodes| && Redex(rules, nodes[k]) && NoRedex(rules, nodes[..k])
  }

  ghost predicate NoRedex(rules: seq<Rule>, nodes: seq<IrTerm>) {
    forall n :: n in nodes ==> !Redex(rules, n)
  }

  lemma {:induction false} NoRedexSnoc(rules: seq<Rule>, nodes: seq<IrTerm>, t: IrTerm)
    ensures NoRedex(rules, nodes + [t]) <==> NoRedex(rules, nodes) && !Redex(rules, t)
  {
    assert forall n :: n in nodes + [t] <==> n in nodes || n == t;
  }

  lemma {:induction false} NormalNodes(rules: seq<Rule>, t: IrTerm)
    ensures Normal(rules, t) <==> NoRedex(rules, Nodes(t))
    decreases TermSize(t), 0
  {
    match t
    case Ctor(_, args) =>
      AllNormalNodes(rules, args);
      NoRedexSnoc(rules, AllNodes(args), t);
    case Lambda(_, _, body) => NormalNodes(rules, body);
    case Let(bs, body) =>
      BindingsNormalNodes(rules, bs);
      NormalNodes(rules, body);
    case _ =>
  }

  lemma {:induction false} AllNormalNodes(rules: seq<Rule>, ts: seq<IrTerm>)
    ensures AllNormal(rules, ts) <==> NoRedex(rules, AllNodes(ts))
    decreases TermsSize(ts), 1
  {
    if ts != [] {
      NormalNodes(rules, ts[0]);
      AllNormalNodes(rules, ts[1..]);
    }
  }

  lemma {:induction false} BindingsNormalNodes(rules: seq<Rule>, bs: seq<LetBinding>)
    ensures BindingsNormal(rules, bs) <==> NoRedex(rules, BindingNodes(bs))
    decreases BindingsSize(bs), 1
  {
    if bs != [] {
      NormalNodes(rules, bs[0].bound);
      BindingsNormalNodes(rules, bs[1..]);
    }
  }

  lemma {:induction false} FirstOfFront(rules: seq<Rule>, front: seq<IrTerm>, back: seq<IrTerm>, k: nat)
    requires FirstRedex(rules, front, k)
    ensures FirstRedex(rules, front + back, k)
  {
    assert (front + back)[..k] == front[..k];
  }

  lemma {:induction false} FirstOfBack(rules: seq<Rule>, front: seq<IrTerm>, back: seq<IrTerm>, k: nat)
    requires NoRedex(rules, front) && FirstRedex(rules, back, k)
    ensures FirstRedex(rules, front + back, |front| + k)
  {
    assert (front + back)[..|front| + k] == front + back[..k];
  }

  ghost predicate StepsAt(rules: seq<Rule>, t: IrTerm, k: nat, r: Rewrite<IrTerm>) {
    && FirstRedex(rules, Nodes(t), k)
    && match ApplyFirst(rules, Nodes(t)[k])
       case Rewritten(u, rule) => r == Rewritten(Replace(t, k, u), rule)
       case Refused(rule) => r == Refused(rule)
       case Unchanged => false
  }

  // A step that is taken or refused is at the first redex in post-order.
  lemma {:induction false} InnermostExactly(rules: seq<Rule>, t: IrTerm) returns (k: nat)
    ensures RewriteOnce(rules, t) == Unchanged <==> NoRedex(rules, Nodes(t))
    ensures RewriteOnce(rules, t) != Unchanged ==> StepsAt(rules, t, k, RewriteOnce(rules, t))
    decreases TermSize(t), 0
  {
    hide FirstRedex, NoRedex, ApplyFirst, Normal;
    UnchangedIsNormal(rules, t);
    NormalNodes(rules, t);
    k := 0;
    match t
    case Ctor(_, args) =>
      k := InnermostArgs(rules, args);
      if RewriteArgs(rules, args) == Unchanged {
        k := |AllNodes(args)|;
        if ApplyFirst(rules, t) != Unchanged {
          RootRedex(rules, t);
          FirstOfBack(rules, AllNodes(args), [t], 0);
        }
      } else {
        FirstOfFront(rules, AllNodes(args), [t], k);
        FirstIsNode(rules, AllNodes(args), k);
      }
    case Lambda(_, _, body) => k := InnermostExactly(rules, body);
    case Let(bs, body) =>
      k := InnermostBindings(rules, bs);
      if RewriteBindings(rules, bs) == Unchanged {
        var j := InnermostExactly(rules, body);
        k := |BindingNodes(bs)| + j;
        if RewriteOnce(rules, body) != Unchanged {
          FirstOfBack(rules, BindingNodes(bs), Nodes(body), j);
        }
      } else {
        FirstOfFront(rules, BindingNodes(bs), Nodes(body), k);
        FirstIsNode(rules, BindingNodes(bs), k);
      }
    case _ =>
  }

  lemma {:induction false} RootRedex(rules: seq<Rule>, t: IrTerm)
    requires ApplyFirst(rules, t) != Unchanged
    ensures FirstRedex(rules, [t], 0)
  {
    NoRuleApplies(rules, t);
  }

  lemma {:induction false} FirstIsNode(rules: seq<Rule>, nodes: seq<IrTerm>, k: nat)
    requires FirstRedex(rules, nodes, k)
    ensures k < |nodes|
  {
  }

  ghost predicate StepsIn(rules: seq<Rule>, ts: seq<IrTerm>, k: nat, r: Rewrite<seq<IrTerm>>) {
    && FirstRedex(rules, AllNodes(ts), k)
    && match ApplyFirst(rules, AllNodes(ts)[k])
       case Rewritten(u, rule) => r == Rewritten(ReplaceIn(ts, k, u), rule)
       case Refused(rule) => r == Refused(rule)
       case Unchanged => false
  }

  lemma {:induction false} InnermostArgs(rules: seq<Rule>, ts: seq<IrTerm>) returns (k: nat)
    ensures RewriteArgs(rules, ts) == Unchanged <==> NoRedex(rules, AllNodes(ts))
    ensures RewriteArgs(rules, ts) != Unchanged ==> StepsIn(rules, ts, k, RewriteArgs(rules, ts))
    decreases TermsSize(ts), 1
  {
    hide FirstRedex, NoRedex, ApplyFirst, AllNormal;
    UnchangedArgs(rules, ts);
    AllNormalNodes(rules, ts);
    k := 0;
    if ts != [] {
      k := InnermostExactly(rules, ts[0]);
      if RewriteOnce(rules, ts[0]) == Unchanged {
        var j := InnermostArgs(rules, ts[1..]);
        k := |Nodes(ts[0])| + j;
        if RewriteArgs(rules, ts[1..]) != Unchanged {
          FirstOfBack(rules, Nodes(ts[0]), AllNodes(ts[1..]), j);
        }
      } else {
        FirstOfFront(rules, Nodes(ts[0]), AllNodes(ts[1..]), k);
        FirstIsNode(rules, Nodes(ts[0]), k);
      }
    }
  }

  ghost predicate StepsBinding(rules: seq<Rule>, bs: seq<LetBinding>, k: nat, r: Rewrite<seq<LetBinding>>) {
    && FirstRedex(rules, BindingNodes(bs), k)
    && match ApplyFirst(rules, BindingNodes(bs)[k])
       case Rewritten(u, rule) => r == Rewritten(ReplaceBinding(bs, k, u), rule)
       case Refused(rule) => r == Refused(rule)
       case Unchanged => false
  }

  lemma {:induction false} InnermostBindings(rules: seq<Rule>, bs: seq<LetBinding>) returns (k: nat)
    ensures RewriteBindings(rules, bs) == Unchanged <==> NoRedex(rules, BindingNodes(bs))
    ensures RewriteBindings(rules, bs) != Unchanged ==> StepsBinding(rules, bs, k, RewriteBindings(rules, bs))
    decreases BindingsSize(bs), 1
  {
    hide FirstRedex, NoRedex, ApplyFirst, BindingsNormal;
    UnchangedBindings(rules, bs);
    BindingsNormalNodes(rules, bs);
    k := 0;
    if bs != [] {
      k := InnermostExactly(rules, bs[0].bound);
      if RewriteOnce(rules, bs[0].bound) == Unchanged {
        var j := InnermostBindings(rules, bs[1..]);
        k := |Nodes(bs[0].bound)| + j;
        if RewriteBindings(rules, bs[1..]) != Unchanged {
          FirstOfBack(rules, Nodes(bs[0].bound), BindingNodes(bs[1..]), j);
        }
      } else {
        FirstOfFront(rules, Nodes(bs[0].bound), BindingNodes(bs[1..]), k);
        FirstIsNode(rules, Nodes(bs[0].bound), k);
      }
    }
  }
}
