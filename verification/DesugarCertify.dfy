// The termination certificate: a dependency graph over left-hand roots, searched
// for cycles, and what the search buys.
module DesugarCertify {
  import opened Sequences
  import opened Wrappers
  import opened Ir
  import opened Desugar
  import opened DesugarGraph
  import opened DesugarMeaning
  import opened DesugarTermination

  // ---------- the graph of a rule set ----------

  predicate OpRoots(rules: seq<Rule>) {
    forall r :: r in rules ==> r.lhs.POp?
  }

  function Roots(rules: seq<Rule>): set<Name>
    requires OpRoots(rules)
  {
    set r | r in rules :: r.lhs.op
  }

  /** The lookup by name: the first rule that has it. */
  function FirstNamed(rules: seq<Rule>, name: string): (r: Rule)
    requires exists r :: r in rules && r.fnName == name
    ensures r in rules && r.fnName == name
  {
    if rules[0].fnName == name then rules[0] else FirstNamed(rules[1..], name)
  }

  predicate Mentions(p: EquationTerm, root: Name) {
    exists o :: o in OpNames(p) && NamesAlias(o, root)
  }

  function Edges(rules: seq<Rule>, p: EquationTerm): set<Name>
    requires OpRoots(rules)
  {
    set root | root in Roots(rules) && Mentions(p, root)
  }

  /** The graph after the first k rules: a later rule replaces the edges of an earlier one with its root. */
  function GraphUpTo(rules: seq<Rule>, k: nat): Graph
    requires OpRoots(rules) && k <= |rules|
  {
    if k == 0 then map[] else
    var r := rules[k - 1];
    GraphUpTo(rules, k - 1)[r.lhs.op := Edges(rules, FirstNamed(rules, r.fnName).rhs)]
  }

  function DependencyGraph(rules: seq<Rule>): Graph
    requires OpRoots(rules)
  {
    GraphUpTo(rules, |rules|)
  }

  lemma {:induction false} GraphNodes(rules: seq<Rule>, k: nat)
    requires OpRoots(rules) && k <= |rules|
    ensures GraphUpTo(rules, k).Keys == set r | r in rules[..k] :: r.lhs.op
    ensures forall n :: n in GraphUpTo(rules, k) ==> GraphUpTo(rules, k)[n] <= Roots(rules)
  {
    if k > 0 {
      GraphNodes(rules, k - 1);
      assert rules[..k] == rules[..k - 1] + [rules[k - 1]];
    }
  }

  datatype Verdict = Certified | RootNotOp(rule: Rule) | Cyclic(root: Name, equations: seq<string>)

  /** The names of the first k rules whose root reaches the one given. */
  ghost function NamesReaching(rules: seq<Rule>, g: Graph, root: Name, k: nat): seq<string>
    requires OpRoots(rules) && k <= |rules|
  {
    if k == 0 then []
    else NamesReaching(rules, g, root, k - 1)
         + if Reaches(g, rules[k - 1].lhs.op, root) then [rules[k - 1].fnName] else []
  }

  /** The first rule, in their order, whose left side is no operation. */
  ghost predicate FirstNotOp(rules: seq<Rule>, r: Rule) {
    exists i: nat :: i < |rules| && rules[i] == r && !r.lhs.POp? && OpRoots(rules[..i])
  }

  // ---------- what the graph is ----------

  /** Rule i is the last with its root. */
  predicate LastWithRoot(rules: seq<Rule>, i: nat)
    requires OpRoots(rules)
  {
    i < |rules| && forall j :: i < j < |rules| ==> rules[j].lhs.op != rules[i].lhs.op
  }

  /** Rule j is the first of its name. */
  predicate FirstOfName(rules: seq<Rule>, j: nat) {
    j < |rules| && forall k :: 0 <= k < j ==> rules[k].fnName != rules[j].fnName
  }

  /** By the last rule with that root, taken for the first rule of its name, one root leads to another. */
  ghost predicate LeadsTo(rules: seq<Rule>, root: Name, next: Name)
    requires OpRoots(rules)
  {
    && (exists r :: r in rules && r.lhs.op == next)
    && exists i: nat, j: nat ::
         && LastWithRoot(rules, i) && rules[i].lhs.op == root
         && FirstOfName(rules, j) && rules[j].fnName == rules[i].fnName
         && Mentions(rules[j].rhs, next)
  }

  lemma {:induction false} FirstNamedIndex(rules: seq<Rule>, name: string) returns (j: nat)
    requires exists r :: r in rules && r.fnName == name
    ensures FirstOfName(rules, j) && rules[j] == FirstNamed(rules, name)
    decreases |rules|
  {
    j := 0;
    if rules[0].fnName != name {
      j := FirstNamedIndex(rules[1..], name);
      assert forall k :: 0 < k <= j ==> rules[k] == rules[1..][k - 1];
      j := j + 1;
    }
  }

  lemma {:induction false} OneFirst(rules: seq<Rule>, j: nat, k: nat)
    requires FirstOfName(rules, j) && FirstOfName(rules, k) && rules[j].fnName == rules[k].fnName
    ensures j == k
  {
  }

  lemma {:induction false} LastWins(rules: seq<Rule>, k: nat, root: Name) returns (i: nat)
    requires OpRoots(rules) && k <= |rules| && root in GraphUpTo(rules, k)
    ensures i < k && rules[i].lhs.op == root && forall j :: i < j < k ==> rules[j].lhs.op != root
    ensures GraphUpTo(rules, k)[root] == Edges(rules, FirstNamed(rules, rules[i].fnName).rhs)
    decreases k
  {
    hide Edges, FirstNamed;
    i := k - 1;
    if rules[k - 1].lhs.op != root {
      i := LastWins(rules, k - 1, root);
    }
  }

  // The edges of the graph, from the rules alone.
  lemma {:induction false} GraphExactly(rules: seq<Rule>, root: Name, next: Name)
    requires OpRoots(rules)
    ensures next in Next(DependencyGraph(rules), root) <==> LeadsTo(rules, root, next)
  {
    hide Mentions, FirstNamed, GraphUpTo;
    GraphNodes(rules, |rules|);
    assert rules[..|rules|] == rules;
    if root in DependencyGraph(rules) {
      var i := LastWins(rules, |rules|, root);
      assert rules[i] in rules;
      var j := FirstNamedIndex(rules, rules[i].fnName);
      assert LastWithRoot(rules, i);
      if LeadsTo(rules, root, next) {
        var i': nat, j': nat :| LastWithRoot(rules, i') && rules[i'].lhs.op == root && FirstOfName(rules, j')
          && rules[j'].fnName == rules[i'].fnName && Mentions(rules[j'].rhs, next);
        assert i' == i;
        OneFirst(rules, j, j');
      }
    }
  }

  // ---------- the certificate ----------

  method EdgesOf(rules: seq<Rule>, roots: seq<Name>, rhs: EquationTerm) returns (edges: set<Name>)
    requires OpRoots(rules) && |roots| == |rules| && forall j :: 0 <= j < |rules| ==> roots[j] == rules[j].lhs.op
    ensures edges == Edges(rules, rhs)
  {
    hide Mentions;
    edges := {};
    for j := 0 to |roots|
      invariant forall root :: root in edges <==> root in roots[..j] && Mentions(rhs, root)
    {
      if Mentions(rhs, roots[j]) {
        edges := edges + {roots[j]};
      }
    }
    RootsListed(rules, roots);
  }

  lemma {:induction false} RootsListed(rules: seq<Rule>, roots: seq<Name>)
    requires OpRoots(rules) && |roots| == |rules| && forall j :: 0 <= j < |rules| ==> roots[j] == rules[j].lhs.op
    ensures forall root :: root in Roots(rules) <==> root in roots
  {
    forall root | root in Roots(rules)
      ensures root in roots
    {
      var k :| 0 <= k < |rules| && rules[k].lhs.op == root;
      assert roots[k] == root;
    }
  }

  method BuildGraph(rules: seq<Rule>, roots: seq<Name>) returns (graph: Graph)
    requires OpRoots(rules) && |roots| == |rules| && forall j :: 0 <= j < |rules| ==> roots[j] == rules[j].lhs.op
    ensures graph == DependencyGraph(rules)
  {
    hide Edges, OpRoots;
    graph := map[];
    for i := 0 to |rules|
      invariant graph == GraphUpTo(rules, i)
    {
      assert rules[i] in rules;
      var edges := EdgesOf(rules, roots, FirstNamed(rules, rules[i].fnName).rhs);
      graph := graph[roots[i] := edges];
    }
  }

  method EquationsReaching(rules: seq<Rule>, roots: seq<Name>, graph: Graph, root: Name)
    returns (equations: seq<string>)
    requires OpRoots(rules) && |roots| == |rules| && forall j :: 0 <= j < |rules| ==> roots[j] == rules[j].lhs.op
    requires forall n :: n in graph ==> graph[n] <= Roots(rules)
    ensures equations == NamesReaching(rules, graph, root, |rules|)
  {
    hide Reaches;
    equations := [];
    for i := 0 to |rules|
      invariant equations == NamesReaching(rules, graph, root, i)
    {
      assert rules[i] in rules;
      var reaches := GraphReaches(roots[i], root, graph, Roots(rules));
      if reaches {
        equations := equations + [rules[i].fnName];
      } else {
        assert equations + [] == equations;
      }
    }
  }

  lemma {:induction false} LoopIsCycle(g: Graph, n: Name)
    requires LoopBehind(g, n)
    ensures exists c :: Cycle(g, c)
  {
  }

  method CertifyTermination(rules: seq<Rule>) returns (v: Verdict, ghost order: seq<Name>)
    ensures v.RootNotOp? ==> FirstNotOp(rules, v.rule)
    ensures v.Cyclic? ==>
              && OpRoots(rules) && v.root in Roots(rules) && LoopBehind(DependencyGraph(rules), v.root)
              && v.equations == NamesReaching(rules, DependencyGraph(rules), v.root, |rules|)
    ensures v.Certified? <==> OpRoots(rules) && !exists c :: Cycle(DependencyGraph(rules), c)
    ensures v.Certified? ==> Topological(DependencyGraph(rules), order) && Elements(order) == Roots(rules)
  {
    hide Topological, DependencyGraph, Cycle, LoopBehind, Reaches;
    order := [];
    var roots: seq<Name> := [];
    for i := 0 to |rules|
      invariant |roots| == i && forall j :: 0 <= j < i ==> rules[j].lhs.POp? && roots[j] == rules[j].lhs.op
    {
      if !rules[i].lhs.POp? {
        assert OpRoots(rules[..i]) && FirstNotOp(rules, rules[i]);
        return RootNotOp(rules[i]), order;
      }
      roots := roots + [rules[i].lhs.op];
    }
    var graph := BuildGraph(rules, roots);
    GraphKeys(rules, graph);
    NothingVisited(graph);
    var visiting, visited := {}, {};
    for i := 0 to |roots|
      invariant visiting == {} && visited == Elements(order) <= Roots(rules) && Topological(graph, order)
      invariant forall j :: 0 <= j < i ==> roots[j] in visited
    {
      assert rules[i] in rules;
      var cyclic;
      LonePath(graph, roots[i]);
      cyclic, visiting, visited, order := HasCycle(roots[i], graph, visiting, visited, [], order, Roots(rules));
      if cyclic {
        LoopIsCycle(graph, roots[i]);
        var equations := EquationsReaching(rules, roots, graph, roots[i]);
        return Cyclic(roots[i], equations), order;
      }
    }
    RootsListed(rules, roots);
    forall c
      ensures !Cycle(graph, c)
    {
      TopologicalNoCycle(graph, order, c);
    }
    v := Certified;
  }

  lemma {:induction false} GraphKeys(rules: seq<Rule>, graph: Graph)
    requires OpRoots(rules) && graph == DependencyGraph(rules)
    ensures graph.Keys == Roots(rules) && forall n :: n in graph ==> graph[n] <= Roots(rules)
  {
    GraphNodes(rules, |rules|);
    assert rules[..|rules|] == rules;
  }

  lemma {:induction false} NothingVisited(g: Graph)
    ensures Topological(g, []) && Elements<Name>([]) == {}
  {
  }

  lemma {:induction false} LonePath(g: Graph, node: Name)
    ensures Path(g, [] + [node])
  {
  }

  // ---------- what the certificate buys ----------

  /** The roots a right side can lead to, through what it mentions or through unit. */
  function Dependencies(rules: seq<Rule>, p: EquationTerm): set<Name>
    requires OpRoots(rules)
  {
    set root | root in Roots(rules) && exists o :: o in Built(p) && NamesAlias(o, root)
  }

  /** The graph has an edge for everything each rule leads to. */
  predicate Covers(rules: seq<Rule>)
    requires OpRoots(rules)
  {
    forall r :: r in rules ==> Dependencies(rules, r.rhs) <= Next(DependencyGraph(rules), r.lhs.op)
  }

  /** The graph with an edge for everything the rules lead to. */
  function TrueGraph(rules: seq<Rule>): Graph
    requires OpRoots(rules)
  {
    map root | root in Roots(rules) :: set r, d | r in rules && r.lhs.op == root && d in Dependencies(rules, r.rhs) :: d
  }

  // An order of the roots ranks the rules exactly if it is a topological order of everything they lead to.
  lemma {:induction false} RankedExactly(rules: seq<Rule>, order: seq<Name>)
    requires OpRoots(rules) && Elements(order) == Roots(rules)
    requires forall i, j :: 0 <= i < j < |order| ==> order[i] != order[j]
    ensures Ranked(rules, order) <==> Topological(TrueGraph(rules), order)
  {
    hide Dependencies, Rank, Built, NamesAlias;
    if Ranked(rules, order) {
      forall i, m | 0 <= i < |order| && m in Next(TrueGraph(rules), order[i])
        ensures m in order[..i]
      {
        var r :| r in rules && r.lhs.op == order[i] && m in Dependencies(rules, r.rhs);
        RankedBefore(rules, order, r, i, m);
      }
    }
    if Topological(TrueGraph(rules), order) {
      forall r | r in rules
        ensures exists i ::
                  0 <= i < |order| && order[i] == r.lhs.op && forall o :: o in Built(r.rhs) ==> Rank(order, o) <= i
      {
        assert r.lhs.op in Elements(order);
        var i :| 0 <= i < |order| && order[i] == r.lhs.op;
        forall o | o in Built(r.rhs)
          ensures Rank(order, o) <= i
        {
          RankBelow(rules, order, r, i, o);
        }
      }
    }
  }

  lemma {:induction false} RankedBefore(rules: seq<Rule>, order: seq<Name>, r: Rule, i: nat, m: Name)
    requires OpRoots(rules) && Ranked(rules, order) && Elements(order) == Roots(rules)
    requires forall j, k :: 0 <= j < k < |order| ==> order[j] != order[k]
    requires r in rules && i < |order| && order[i] == r.lhs.op && m in Dependencies(rules, r.rhs)
    ensures m in order[..i]
  {
    hide Built, NamesAlias;
    var o :| o in Built(r.rhs) && NamesAlias(o, m);
    AliasSymmetric(o, m);
    assert m in Elements(order);
    var k :| 0 <= k < |order| && order[k] == m;
    assert Rank(order, o) <= i;
  }

  lemma {:induction false} RankBelow(rules: seq<Rule>, order: seq<Name>, r: Rule, i: nat, o: Name)
    requires OpRoots(rules) && Topological(TrueGraph(rules), order) && Elements(order) == Roots(rules)
    requires r in rules && i < |order| && order[i] == r.lhs.op && o in Built(r.rhs)
    ensures Rank(order, o) <= i
  {
    hide Built, NamesAlias;
    var k := Rank(order, o);
    if k > 0 {
      var root := order[k - 1];
      AliasSymmetric(root, o);
      assert root in Elements(order) && NamesAlias(o, root);
      assert root in Dependencies(rules, r.rhs);
      assert r.lhs.op in Roots(rules) && root in Next(TrueGraph(rules), order[i]);
      assert root in order[..i];
      var j :| 0 <= j < i && order[j] == root;
      assert j == k - 1;
    }
  }

  // A topological order of the certified graph ranks the rules, if the graph has all their edges.
  lemma {:induction false} CertifiedIsRanked(rules: seq<Rule>, order: seq<Name>)
    requires OpRoots(rules) && Covers(rules)
    requires Topological(DependencyGraph(rules), order) && Elements(order) == Roots(rules)
    ensures Ranked(rules, order)
  {
    hide Dependencies, Ranked, DependencyGraph;
    RankedExactly(rules, order);
    forall i, m | 0 <= i < |order| && m in Next(TrueGraph(rules), order[i])
      ensures m in order[..i]
    {
      var r :| r in rules && r.lhs.op == order[i] && m in Dependencies(rules, r.rhs);
      assert m in Next(DependencyGraph(rules), order[i]);
    }
  }

  lemma {:induction false} AliasSymmetric(a: Name, b: Name)
    ensures NamesAlias(a, b) == NamesAlias(b, a)
  {
  }

  // Every innermost run of a certified rule set is finite, however it picks its redexes.
  lemma {:induction false} CertifiedTerminates(rules: seq<Rule>, order: seq<Name>, run: seq<IrTerm>)
    requires OpRoots(rules) && Covers(rules)
    requires Topological(DependencyGraph(rules), order) && Elements(order) == Roots(rules)
    requires InnerRun(rules, run)
    ensures |run| <= 1 + Potential(rules, order, run[0])
  {
    CertifiedIsRanked(rules, order);
    InnerRunBound(rules, order, run);
  }

  /** What the graph is keyed by tells the rules apart, and no root can be built by a `unit` right side. */
  predicate Separate(rules: seq<Rule>)
    requires OpRoots(rules)
  {
    && (forall i, j :: 0 <= i < j < |rules| ==>
         rules[i].lhs.op != rules[j].lhs.op && rules[i].fnName != rules[j].fnName)
    && (forall r :: r in rules ==> !NamesAlias(r.lhs.op, "unit"))
  }

  // Rules told apart by root and by name are covered.
  lemma {:induction false} SeparateCovers(rules: seq<Rule>)
    requires OpRoots(rules) && Separate(rules)
    ensures Covers(rules)
  {
    hide Edges, Dependencies, NamesAlias, GraphUpTo;
    forall r | r in rules
      ensures Dependencies(rules, r.rhs) <= Next(DependencyGraph(rules), r.lhs.op)
    {
      var n :| 0 <= n < |rules| && rules[n] == r;
      EdgesOfRule(rules, |rules|, n);
      DependenciesMentioned(rules, r.rhs);
    }
  }

  lemma {:induction false} DependenciesMentioned(rules: seq<Rule>, p: EquationTerm)
    requires OpRoots(rules) && forall r :: r in rules ==> !NamesAlias(r.lhs.op, "unit")
    ensures Dependencies(rules, p) <= Edges(rules, p)
  {
    hide NamesAlias, Built, OpNames;
    forall root | root in Dependencies(rules, p)
      ensures root in Edges(rules, p)
    {
      var o :| o in Built(p) && NamesAlias(o, root);
      AliasSymmetric(o, root);
      BuiltMentioned(p, o);
    }
  }

  lemma {:induction false} BuiltMentioned(p: EquationTerm, o: Name)
    requires o in Built(p)
    ensures o in OpNames(p) || o == "unit"
    decreases PatternSize(p), 0
  {
    match p
    case POp(name, ps) =>
      if o != name {
        AllBuiltMentioned(ps, o);
      }
    case _ =>
  }

  lemma {:induction false} AllBuiltMentioned(ps: seq<EquationTerm>, o: Name)
    requires o in BuiltAll(ps)
    ensures o in OpNamesAll(ps) || o == "unit"
    decreases PatternsSize(ps), 1
  {
    if o in Built(ps[0]) {
      BuiltMentioned(ps[0], o);
    } else {
      AllBuiltMentioned(ps[1..], o);
    }
  }

  lemma {:induction false} NameFindsRule(rules: seq<Rule>, i: nat)
    requires i < |rules| && forall j :: 0 <= j < i ==> rules[j].fnName != rules[i].fnName
    ensures FirstNamed(rules, rules[i].fnName) == rules[i]
  {
    if i > 0 {
      NameFindsRule(rules[1..], i - 1);
    }
  }

  lemma {:induction false} EdgesOfRule(rules: seq<Rule>, k: nat, i: nat)
    requires OpRoots(rules) && Separate(rules) && i < k <= |rules|
    ensures rules[i].lhs.op in GraphUpTo(rules, k)
    ensures GraphUpTo(rules, k)[rules[i].lhs.op] == Edges(rules, rules[i].rhs)
  {
    hide Edges, FirstNamed;
    if k == i + 1 {
      NameFindsRule(rules, i);
    } else {
      EdgesOfRule(rules, k - 1, i);
    }
  }

  // ---------- what it does not buy ----------

  /** The certificate passes, and yet there are innermost runs of every length from one term. */
  ghost predicate CertifiedLoop(rules: seq<Rule>, order: seq<Name>, t: IrTerm) {
    && OpRoots(rules)
    && Topological(DependencyGraph(rules), order) && Elements(order) == Roots(rules)
    && forall n: nat :: InnerRun(rules, Stutter(t, n))
  }

  ghost function Stutter(t: IrTerm, n: nat): seq<IrTerm> {
    seq(n + 1, _ => t)
  }

  lemma {:induction false} SelfStepLoops(rules: seq<Rule>, r: Rule, t: IrTerm)
    requires r in rules && t.Ctor? && AllNormal(rules, t.args) && Contracts(r, t, t)
    ensures forall n: nat :: InnerRun(rules, Stutter(t, n))
  {
    assert InnerStep(rules, t, t);
  }

  // What loops in spite of the certificate lacks an edge in the graph.
  lemma {:induction false} LoopsAreUncovered(rules: seq<Rule>, order: seq<Name>, t: IrTerm)
    requires CertifiedLoop(rules, order, t)
    ensures !Covers(rules)
  {
    if Covers(rules) {
      var run := Stutter(t, 1 + Potential(rules, order, t));
      CertifiedTerminates(rules, order, run);
    }
  }

  function One(name: Name, p: EquationTerm): EquationTerm {
    POp(name, [p])
  }

  function Tagged(tag: Json, p: EquationTerm): EquationTerm {
    POp("f", [PConst(tag, "Any"), p])
  }

  // Two rules with one root: the second overwrites the self-edge of the first.
  lemma {:induction false} OverwrittenEdgesLoop(x: Name, fired: string, kept: string)
    requires fired != kept
    ensures var looping := Rule(fired, Tagged("0", PVar(x)), Tagged("0", PVar(x)), "");
            CertifiedLoop([looping, Rule(kept, Tagged("1", PVar(x)), PVar(x), "")], ["f"],
                          Ctor("f", [Const("0", "Any"), Var(x)]))
  {
    var looping := Rule(fired, Tagged("0", PVar(x)), Tagged("0", PVar(x)), "");
    var rules := [looping, Rule(kept, Tagged("1", PVar(x)), PVar(x), "")];
    var args := [Const("0", "Any"), Var(x)];
    assert Roots(rules) == {"f"} by {
      assert rules[0] in rules && rules[1] in rules;
    }
    assert DependencyGraph(rules)["f"] == Edges(rules, PVar(x));
    assert Elements(["f"]) == {"f"};
    assert args[1..] == [Var(x)] && args[1..][1..] == [];
    assert AllNormal(rules, args[1..][1..]);
    assert AllNormal(rules, args[1..]);
    MatchTagged(x);
    SelfStepLoops(rules, looping, Ctor("f", args));
  }

  lemma {:induction false} MatchTagged(x: Name)
    ensures var p := Tagged("0", PVar(x));
            var t := Ctor("f", [Const("0", "Any"), Var(x)]);
            Match(p, t, map[]) == Some(map[x := Var(x)]) && Instantiate(p, map[x := Var(x)]) == Some(t)
  {
    var p := Tagged("0", PVar(x));
    var t := Ctor("f", [Const("0", "Any"), Var(x)]);
    var b := map[x := Var(x)];
    assert p.args[1..] == [PVar(x)] && t.args[1..] == [Var(x)];
    MatchSingle(PVar(x), Var(x), map[], b);
    InstantiateSingle(PVar(x), b, Var(x));
    assert Match(p.args[0], t.args[0], map[]) == Some(map[]);
    assert MatchAll(p.args, t.args, map[]) == MatchAll([PVar(x)], [Var(x)], map[]);
    assert Instantiate(p.args[0], b) == Some(t.args[0]);
    assert [t.args[0]] + [Var(x)] == t.args;
    assert InstantiateAll(p.args[1..], b) == Some([Var(x)]);
    assert InstantiateAll(p.args, b) == Some(t.args);
  }

  lemma {:induction false} MatchSingle(p: EquationTerm, t: IrTerm, b: Bindings, b': Bindings)
    requires Match(p, t, b) == Some(b')
    ensures MatchAll([p], [t], b) == Some(b')
  {
    assert [p][1..] == [] && [t][1..] == [];
    assert MatchAll([], [], b') == Some(b');
  }

  lemma {:induction false} InstantiateSingle(p: EquationTerm, b: Bindings, t: IrTerm)
    requires Instantiate(p, b) == Some(t)
    ensures InstantiateAll([p], b) == Some([t])
  {
    assert [p][1..] == [];
    assert InstantiateAll([], b) == Some([]);
    assert [t] + [] == [t];
  }

  // Two rules with one name: the edges of the first stand in for those of the second.
  lemma {:induction false} SharedNameLoops(x: Name, name: string)
    ensures var looping := Rule(name, One("g", PVar(x)), One("g", PVar(x)), "");
            CertifiedLoop([Rule(name, One("f", PVar(x)), PVar(x), ""), looping], ["f", "g"], Ctor("g", [Var(x)]))
  {
    var looping := Rule(name, One("g", PVar(x)), One("g", PVar(x)), "");
    var rules := [Rule(name, One("f", PVar(x)), PVar(x), ""), looping];
    assert Roots(rules) == {"f", "g"} by {
      assert rules[0] in rules && rules[1] in rules;
    }
    assert Edges(rules, PVar(x)) == {};
    assert DependencyGraph(rules) == GraphUpTo(rules, 1)["g" := {}] == map["f" := {}, "g" := {}];
    assert Elements(["f", "g"]) == {"f", "g"};
    assert [Var(x)][1..] == [] && AllNormal(rules, [Var(x)][1..]);
    MatchSingle(PVar(x), Var(x), map[], map[x := Var(x)]);
    InstantiateSingle(PVar(x), map[x := Var(x)], Var(x));
    SelfStepLoops(rules, looping, Ctor("g", [Var(x)]));
  }

  // A `unit` right side builds the operation `unit` without mentioning it.
  lemma {:induction false} UnitLoops(name: string)
    ensures CertifiedLoop([Rule(name, POp("unit", []), PUnit, "")], ["unit"], Ctor("unit", []))
  {
    var rules := [Rule(name, POp("unit", []), PUnit, "")];
    assert rules[0] in rules;
    assert Roots(rules) == {"unit"};
    assert DependencyGraph(rules)["unit"] == Edges(rules, PUnit) == {};
    assert Elements(["unit"]) == {"unit"};
    SelfStepLoops(rules, rules[0], Ctor("unit", []));
  }
}
