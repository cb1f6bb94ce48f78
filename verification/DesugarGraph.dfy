// Depth-first search of a graph for cycles, and for a path between two nodes (desugar.rs).
module DesugarGraph {
  import opened Sequences
  import opened Ir

  type Graph = map<Name, set<Name>>

  function Next(g: Graph, n: Name): set<Name> {
    if n in g then g[n] else {}
  }

  ghost predicate Path(g: Graph, p: seq<Name>) {
    forall i :: 0 < i < |p| ==> p[i] in Next(g, p[i - 1])
  }

  ghost predicate Cycle(g: Graph, c: seq<Name>) {
    c != [] && Path(g, c) && c[0] in Next(g, c[|c| - 1])
  }

  ghost predicate Reaches(g: Graph, n: Name, m: Name) {
    exists p :: p != [] && Path(g, p) && p[0] == n && p[|p| - 1] == m
  }

  /** A path from n leads into a cycle. */
  ghost predicate LoopBehind(g: Graph, n: Name) {
    exists c :: Cycle(g, c) && Reaches(g, n, c[0])
  }

  lemma {:induction false} ReachesSelf(g: Graph, n: Name)
    ensures Reaches(g, n, n)
  {
    var p := [n];
    assert p != [] && Path(g, p) && p[0] == n && p[|p| - 1] == n;
  }

  lemma {:induction false} ReachesThrough(g: Graph, n: Name, next: Name, m: Name)
    requires next in Next(g, n) && Reaches(g, next, m)
    ensures Reaches(g, n, m)
  {
    var p :| p != [] && Path(g, p) && p[0] == next && p[|p| - 1] == m;
    var q := [n] + p;
    forall i | 0 < i < |q|
      ensures q[i] in Next(g, q[i - 1])
    {
      assert i > 1 ==> p[i - 1] in Next(g, p[i - 2]);
    }
    assert q != [] && Path(g, q) && q[0] == n && q[|q| - 1] == m;
  }

  lemma {:induction false} ReachesOn(g: Graph, n: Name, m: Name, next: Name)
    requires Reaches(g, n, m) && next in Next(g, m)
    ensures Reaches(g, n, next)
  {
    var p :| p != [] && Path(g, p) && p[0] == n && p[|p| - 1] == m;
    assert p == p[..|p| - 1] + [m];
    PathExtends(g, p[..|p| - 1], m, next);
    var q := p[..|p| - 1] + [m] + [next];
    assert q != [] && Path(g, q) && q[0] == n && q[|q| - 1] == next;
  }

  lemma {:induction false} LoopThrough(g: Graph, n: Name, next: Name)
    requires next in Next(g, n) && LoopBehind(g, next)
    ensures LoopBehind(g, n)
  {
    var c :| Cycle(g, c) && Reaches(g, next, c[0]);
    ReachesThrough(g, n, next, c[0]);
  }

  /** No name twice, and every successor before its predecessor. */
  ghost predicate Topological(g: Graph, order: seq<Name>) {
    && (forall i, j :: 0 <= i < j < |order| ==> order[i] != order[j])
    && (forall i, m :: 0 <= i < |order| && m in Next(g, order[i]) ==> m in order[..i])
  }

  // A path only goes down a topological order.
  lemma {:induction false} PathDescends(g: Graph, order: seq<Name>, p: seq<Name>, i: nat)
    requires Topological(g, order) && Path(g, p) && p != [] && i < |order| && p[0] == order[i]
    ensures exists j :: 0 <= j <= i - (|p| - 1) && order[j] == p[|p| - 1]
    decreases |p|
  {
    if |p| > 1 {
      assert p[1] in Next(g, p[0]);
      var k :| 0 <= k < i && order[k] == p[1];
      assert forall j :: 0 < j < |p[1..]| ==> p[j + 1] in Next(g, p[j]);
      PathDescends(g, order, p[1..], k);
    }
  }

  lemma {:induction false} TopologicalNoCycle(g: Graph, order: seq<Name>, c: seq<Name>)
    requires Topological(g, order) && (forall n :: n in g ==> n in order)
    ensures !Cycle(g, c)
  {
    if Cycle(g, c) {
      var p := c + [c[0]];
      assert c[|c| - 1] in g;
      assert c[0] in g by {
        if |c| > 1 {
          assert c[1] in Next(g, c[0]);
        }
      }
      var i :| 0 <= i < |order| && order[i] == c[0];
      assert Path(g, p) by {
        forall j | 0 < j < |p|
          ensures p[j] in Next(g, p[j - 1])
        {
          if j < |c| {
            assert c[j] in Next(g, c[j - 1]);
          }
        }
      }
      PathDescends(g, order, p, i);
    }
  }

  lemma {:induction false} CycleOnPath(g: Graph, path: seq<Name>, node: Name)
    requires Path(g, path + [node]) && node in path
    ensures LoopBehind(g, node)
  {
    var k :| 0 <= k < |path| && path[k] == node;
    var whole := path + [node];
    var c := path[k..];
    forall i | 0 < i < |c|
      ensures c[i] in Next(g, c[i - 1])
    {
      assert whole[k + i] in Next(g, whole[k + i - 1]);
    }
    assert whole[|path|] in Next(g, whole[|path| - 1]);
    assert Cycle(g, c) && c[0] == node;
    ReachesSelf(g, node);
  }

  lemma {:induction false} PathExtends(g: Graph, path: seq<Name>, node: Name, next: Name)
    requires Path(g, path + [node]) && next in Next(g, node)
    ensures Path(g, path + [node] + [next])
  {
    var p := path + [node];
    forall i | 0 < i < |p + [next]|
      ensures (p + [next])[i] in Next(g, (p + [next])[i - 1])
    {
      if i < |p| {
        assert p[i] in Next(g, p[i - 1]);
      }
    }
  }

  lemma {:induction false} TopologicalExtends(g: Graph, order: seq<Name>, node: Name)
    requires Topological(g, order) && node !in order && Next(g, node) <= Elements(order)
    ensures Topological(g, order + [node]) && Elements(order + [node]) == Elements(order) + {node}
  {
    var all := order + [node];
    forall i, m | 0 <= i < |all| && m in Next(g, all[i])
      ensures m in all[..i]
    {
      if i < |order| {
        assert m in order[..i] && all[..i] == order[..i];
      } else {
        assert m in Elements(order) && all[..i] == order;
      }
    }
  }

  /**
   * Depth-first search. `path` is how the search came to `node`, `order` lists
   * the visited nodes as they were finished.
   */
  method HasCycle(node: Name, g: Graph, visiting: set<Name>, visited: set<Name>,
                  ghost path: seq<Name>, ghost order: seq<Name>, ghost nodes: set<Name>)
    returns (cyclic: bool, visiting': set<Name>, visited': set<Name>, ghost order': seq<Name>)
    requires Path(g, path + [node]) && visiting == Elements(path)
    requires Topological(g, order) && visited == Elements(order) && visited !! visiting
    requires node in nodes && visiting <= nodes && visited <= nodes && forall n :: n in g ==> g[n] <= nodes
    ensures cyclic ==> LoopBehind(g, node)
    ensures !cyclic ==> visiting' == visiting && visited + {node} <= visited' <= nodes
    ensures !cyclic ==> Topological(g, order') && visited' == Elements(order') && visited' !! visiting
    decreases |nodes - visiting|
  {
    visiting', visited', order' := visiting, visited, order;
    if node in visited {
      return false, visiting', visited', order';
    }
    if node in visiting {
      CycleOnPath(g, path, node);
      return true, visiting', visited', order';
    }
    visiting' := visiting + {node};
    assert nodes - visiting' < nodes - visiting by {
      assert node in nodes - visiting;
    }
    Shrinks(nodes - visiting', nodes - visiting);
    var todo := if node in g then g[node] else {};
    while todo != {}
      invariant todo <= Next(g, node) && Next(g, node) - todo <= visited'
      invariant visiting' == visiting + {node} == Elements(path + [node])
      invariant visited <= visited' <= nodes && visited' !! visiting'
      invariant Topological(g, order') && visited' == Elements(order')
      decreases todo
    {
      var next :| next in todo;
      todo := todo - {next};
      PathExtends(g, path, node, next);
      cyclic, visiting', visited', order' := HasCycle(next, g, visiting', visited', path + [node], order', nodes);
      if cyclic {
        LoopThrough(g, node, next);
        return true, visiting', visited', order';
      }
    }
    TopologicalExtends(g, order', node);
    visiting' := visiting' - {node};
    visited' := visited' + {node};
    order' := order' + [node];
    cyclic := false;
  }

  lemma {:induction false} Shrinks(small: set<Name>, big: set<Name>)
    requires small < big
    ensures |small| < |big|
  {
    var rest := big - small;
    assert big == small + rest && rest != {};
  }

  // A closed set of nodes holds everything that is reached from inside it.
  lemma {:induction false} ClosedHolds(g: Graph, seen: set<Name>, p: seq<Name>)
    requires p != [] && Path(g, p) && p[0] in seen && forall n, m :: n in seen && m in Next(g, n) ==> m in seen
    ensures p[|p| - 1] in seen
    decreases |p|
  {
    if |p| > 1 {
      assert p[1] in Next(g, p[0]);
      assert forall i :: 0 < i < |p[1..]| ==> p[1..][i] == p[i + 1] && p[1..][i - 1] == p[i];
      ClosedHolds(g, seen, p[1..]);
    }
  }

  /** What is still to be seen or stacked: everything in `todo` pushed, in some order. */
  method PushAll(stack: seq<Name>, all: set<Name>) returns (stack': seq<Name>)
    ensures Elements(stack') == Elements(stack) + all
  {
    stack' := stack;
    var todo := all;
    while todo != {}
      invariant todo <= all && Elements(stack') == Elements(stack) + (all - todo)
      decreases todo
    {
      var next :| next in todo;
      todo := todo - {next};
      ElementsSnoc(stack', next);
      stack' := stack' + [next];
    }
  }

  /** What the search has established: it sees only what it reaches, and loses nothing. */
  ghost predicate Searching(g: Graph, start: Name, target: Name, stack: seq<Name>, seen: set<Name>) {
    && (forall n :: n in Elements(stack) || n in seen ==> Reaches(g, start, n))
    && start in Elements(stack) + seen && target !in seen
    && (forall n :: n in seen ==> Next(g, n) <= Elements(stack) + seen)
  }

  lemma {:induction false} Popped(stack: seq<Name>)
    requires stack != []
    ensures Elements(stack) == Elements(stack[..|stack| - 1]) + {stack[|stack| - 1]}
  {
    ElementsSnoc(stack[..|stack| - 1], stack[|stack| - 1]);
    assert stack == stack[..|stack| - 1] + [stack[|stack| - 1]];
  }

  lemma {:induction false} SearchStarts(g: Graph, start: Name, target: Name)
    ensures Searching(g, start, target, [start], {}) && Elements([start]) == {start}
  {
    ReachesSelf(g, start);
  }

  lemma {:induction false} SearchSkips(g: Graph, start: Name, target: Name, stack: seq<Name>, seen: set<Name>)
    requires Searching(g, start, target, stack, seen) && stack != [] && stack[|stack| - 1] in seen
    ensures Searching(g, start, target, stack[..|stack| - 1], seen)
  {
    hide Reaches, Next;
    Popped(stack);
  }

  lemma {:induction false} SearchGoesOn(g: Graph, start: Name, target: Name, stack: seq<Name>, seen: set<Name>,
                                        stack': seq<Name>, node: Name)
    requires Searching(g, start, target, stack, seen) && stack != [] && node == stack[|stack| - 1] != target
    requires Elements(stack') == Elements(stack[..|stack| - 1]) + Next(g, node)
    ensures Searching(g, start, target, stack', seen + {node})
  {
    hide Reaches, Next, Elements;
    Popped(stack);
    forall m | m in Next(g, node)
      ensures Reaches(g, start, m)
    {
      ReachesOn(g, start, node, m);
    }
  }

  lemma {:induction false} SearchEnds(g: Graph, start: Name, target: Name, seen: set<Name>)
    requires Searching(g, start, target, [], seen)
    ensures !Reaches(g, start, target)
  {
    if Reaches(g, start, target) {
      var p :| p != [] && Path(g, p) && p[0] == start && p[|p| - 1] == target;
      ClosedHolds(g, seen, p);
    }
  }

  lemma {:induction false} SearchFinds(g: Graph, start: Name, target: Name, stack: seq<Name>, seen: set<Name>)
    requires Searching(g, start, target, stack, seen) && stack != []
    ensures Reaches(g, start, stack[|stack| - 1])
  {
    hide Reaches, Next, Elements;
    Popped(stack);
  }

  /** The search of a stack of nodes for a target. */
  method GraphReaches(start: Name, target: Name, g: Graph, ghost nodes: set<Name>) returns (found: bool)
    requires start in nodes && forall n :: n in g ==> g[n] <= nodes
    ensures found <==> Reaches(g, start, target)
  {
    hide Searching, Elements, Reaches;
    var stack, seen := [start], {};
    SearchStarts(g, start, target);
    while stack != []
      invariant Searching(g, start, target, stack, seen) && Elements(stack) <= nodes && seen <= nodes
      decreases |nodes - seen|, |stack|
    {
      var node, rest := stack[|stack| - 1], stack[..|stack| - 1];
      Popped(stack);
      if node in seen {
        SearchSkips(g, start, target, stack, seen);
        stack := rest;
        continue;
      }
      if node == target {
        SearchFinds(g, start, target, stack, seen);
        return true;
      }
      Shrinks(nodes - (seen + {node}), nodes - seen);
      var pushed := PushAll(rest, if node in g then g[node] else {});
      SearchGoesOn(g, start, target, stack, seen, pushed, node);
      stack, seen := pushed, seen + {node};
    }
    SearchEnds(g, start, target, seen);
    found := false;
  }
}
