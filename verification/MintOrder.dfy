// The mint order (mint_corpus.py): members listed after the members they depend
// on, by a depth-first search that skips back-edges.
module MintOrder {
  import opened Sequences

  type Member = string

  /** The members each member requires. */
  type Deps = map<Member, seq<Member>>

  ghost predicate Closed(deps: Deps) {
    forall n, d :: n in deps && d in deps[n] ==> d in deps
  }

  ghost predicate Edge(deps: Deps, n: Member, d: Member) {
    n in deps && d in deps[n]
  }

  /** Each element requires the next. */
  ghost predicate Chain(deps: Deps, p: seq<Member>) {
    forall i :: 0 < i < |p| ==> Edge(deps, p[i - 1], p[i])
  }

  ghost predicate Requires(deps: Deps, n: Member, d: Member) {
    exists p :: p != [] && p[0] == n && p[|p| - 1] == d && Chain(deps, p)
  }

  /** n requires d, and d does not in turn require n. */
  ghost predicate FreeEdge(deps: Deps, n: Member, d: Member) {
    Edge(deps, n, d) && !Requires(deps, d, n)
  }

  ghost predicate Acyclic(deps: Deps) {
    forall n, d :: Edge(deps, n, d) ==> FreeEdge(deps, n, d)
  }

  predicate Before(order: seq<Member>, d: Member, n: Member) {
    exists i, j :: 0 <= i < j < |order| && order[i] == d && order[j] == n
  }

  predicate NoRepeats(order: seq<Member>) {
    forall i, j :: 0 <= i < j < |order| ==> order[i] != order[j]
  }

  ghost predicate Respects(deps: Deps, order: seq<Member>) {
    forall n, d :: n in order && FreeEdge(deps, n, d) ==> Before(order, d, n)
  }

  /** A dependency of a listed member is listed, or on the way to be. */
  ghost predicate Settled(deps: Deps, done: set<Member>, visiting: set<Member>) {
    forall n, d :: n in done && Edge(deps, n, d) ==> d in done || d in visiting
  }

  ghost predicate RequiredBy(deps: Deps, starts: seq<Member>, m: Member) {
    exists j :: 0 <= j < |starts| && Requires(deps, starts[j], m)
  }

  /** The order begins with just what the starting members require. */
  ghost predicate Block(deps: Deps, starts: seq<Member>, order: seq<Member>) {
    exists k: nat :: k <= |order| && forall m :: m in order[..k] <==> RequiredBy(deps, starts, m)
  }

  predicate Met(ds: seq<Member>, met: set<Member>) {
    forall d :: d in ds ==> d in met
  }

  lemma {:induction false} MetSnoc(ds: seq<Member>, i: nat, met: set<Member>, met': set<Member>)
    requires i < |ds| && Met(ds[..i], met) && met <= met' && ds[i] in met'
    ensures Met(ds[..i + 1], met')
  {
    assert ds[..i + 1] == ds[..i] + [ds[i]];
  }

  /** The state the nested visit function updates. */
  class Search {
    var order: seq<Member>
    var done: set<Member>
    var visiting: set<Member>

    /** `path` is how the search came to where it is. */
    ghost predicate Valid(deps: Deps, path: seq<Member>)
      reads this
    {
      && Chain(deps, path) && visiting == Elements(path) <= deps.Keys
      && NoRepeats(order) && done == Elements(order) <= deps.Keys && done !! visiting
      && Respects(deps, order) && Settled(deps, done, visiting)
    }

    constructor (ghost deps: Deps)
      ensures Valid(deps, []) && order == []
    {
      order, done, visiting := [], {}, {};
    }

    method Visit(n: Member, deps: Deps, ghost path: seq<Member>)
      requires Closed(deps) && n in deps && Valid(deps, path) && Chain(deps, path + [n])
      modifies this
      ensures Valid(deps, path) && (n in done || n in visiting) && old(done) <= done && visiting == old(visiting)
      ensures old(order) <= order
      ensures forall m :: m in done && m !in old(done) ==> Requires(deps, n, m)
      decreases |deps.Keys - visiting|
    {
      hide Valid, Chain, Requires, Closed, Edge;
      if n in done || n in visiting {
        return;
      }
      Shrinks(deps.Keys, visiting, n);
      Enter(n, deps, path);
      RequiresSelf(deps, n);
      for i := 0 to |deps[n]|
        invariant Valid(deps, path + [n]) && old(done) <= done && visiting == old(visiting) + {n}
        invariant old(order) <= order
        invariant Met(deps[n][..i], done + visiting)
        invariant forall m :: m in done && m !in old(done) ==> Requires(deps, n, m)
      {
        ghost var before := done;
        EdgeTo(deps, n, i);
        ChainExtends(deps, path, n, deps[n][i]);
        RequiresThrough(deps, n, deps[n][i]);
        Visit(deps[n][i], deps, path + [n]);
        MetSnoc(deps[n], i, before + visiting, done + visiting);
      }
      assert deps[n][..|deps[n]|] == deps[n];
      Leave(n, deps, path);
    }

    method Enter(n: Member, deps: Deps, ghost path: seq<Member>)
      requires n in deps && Valid(deps, path) && Chain(deps, path + [n]) && n !in done && n !in visiting
      modifies this`visiting
      ensures Valid(deps, path + [n]) && visiting == old(visiting) + {n} && n !in path
    {
      hide Respects, NoRepeats;
      visiting := visiting + {n};
      ElementsSnoc(path, n);
    }

    method Leave(n: Member, deps: Deps, ghost path: seq<Member>)
      requires n in deps && Valid(deps, path + [n]) && n !in path
      requires Met(deps[n], done + visiting)
      modifies this
      ensures Valid(deps, path) && done == old(done) + {n} && visiting == old(visiting) - {n}
      ensures order == old(order) + [n]
    {
      hide Requires;
      ChainPrefix(deps, path, n);
      OnPathRequires(deps, path, n);
      RespectsExtends(deps, order, n, visiting);
      ElementsSnoc(path, n);
      ElementsSnoc(order, n);
      visiting := visiting - {n};
      done := done + {n};
      order := order + [n];
    }
  }

  // With nothing on the way, whatever a listed member requires is listed.
  lemma {:induction false} SettledHolds(deps: Deps, done: set<Member>, p: seq<Member>)
    requires Settled(deps, done, {}) && p != [] && Chain(deps, p) && p[0] in done
    ensures p[|p| - 1] in done
    decreases |p|
  {
    if |p| > 1 {
      assert Edge(deps, p[0], p[1]);
      var q := p[1..];
      forall i | 0 < i < |q|
        ensures Edge(deps, q[i - 1], q[i])
      {
        assert Edge(deps, p[i], p[i + 1]);
      }
      SettledHolds(deps, done, q);
    }
  }

  lemma {:induction false} RequiredDone(deps: Deps, done: set<Member>, n: Member)
    requires Settled(deps, done, {}) && n in done
    ensures forall m :: Requires(deps, n, m) ==> m in done
  {
    forall m | Requires(deps, n, m)
      ensures m in done
    {
      var p :| p != [] && p[0] == n && p[|p| - 1] == m && Chain(deps, p);
      SettledHolds(deps, done, p);
    }
  }

  lemma {:induction false} RequiredBySnoc(deps: Deps, starts: seq<Member>, n: Member)
    ensures forall m :: RequiredBy(deps, starts + [n], m) <==> RequiredBy(deps, starts, m) || Requires(deps, n, m)
  {
    hide Requires;
    forall m
      ensures RequiredBy(deps, starts + [n], m) <==> RequiredBy(deps, starts, m) || Requires(deps, n, m)
    {
      var all := starts + [n];
      assert all[|starts|] == n && forall j :: 0 <= j < |starts| ==> all[j] == starts[j];
    }
  }

  lemma {:induction false} BlockKept(deps: Deps, starts: seq<Member>, order: seq<Member>, order': seq<Member>)
    requires Block(deps, starts, order) && order <= order'
    ensures Block(deps, starts, order')
  {
    hide RequiredBy;
    var k: nat :| k <= |order| && forall m :: m in order[..k] <==> RequiredBy(deps, starts, m);
    assert order'[..k] == order[..k];
  }

  lemma {:induction false} WholeBlock(deps: Deps, starts: seq<Member>, order: seq<Member>, done: set<Member>)
    requires done == Elements(order) && forall m :: m in done <==> RequiredBy(deps, starts, m)
    ensures Block(deps, starts, order)
  {
    hide RequiredBy;
    assert order[..|order|] == order;
    forall m
      ensures m in order <==> RequiredBy(deps, starts, m)
    {
      assert m in Elements(order) <==> m in order;
    }
  }

  lemma {:induction false} EdgeTo(deps: Deps, n: Member, i: nat)
    requires Closed(deps) && n in deps && i < |deps[n]|
    ensures Edge(deps, n, deps[n][i]) && deps[n][i] in deps
  {
  }

  lemma {:induction false} Shrinks(all: set<Member>, visiting: set<Member>, n: Member)
    requires n in all && n !in visiting
    ensures |all - (visiting + {n})| < |all - visiting|
  {
    assert all - (visiting + {n}) == all - visiting - {n};
  }

  lemma {:induction false} RequiresSelf(deps: Deps, n: Member)
    ensures Requires(deps, n, n)
  {
    var p := [n];
    assert p[0] == n && p[|p| - 1] == n && Chain(deps, p);
  }

  lemma {:induction false} RequiresThrough(deps: Deps, n: Member, d: Member)
    requires Edge(deps, n, d)
    ensures forall m :: Requires(deps, d, m) ==> Requires(deps, n, m)
  {
    forall m | Requires(deps, d, m)
      ensures Requires(deps, n, m)
    {
      var p :| p != [] && p[0] == d && p[|p| - 1] == m && Chain(deps, p);
      var q := [n] + p;
      forall i | 0 < i < |q|
        ensures Edge(deps, q[i - 1], q[i])
      {
        assert i > 1 ==> Edge(deps, p[i - 2], p[i - 1]);
      }
      assert q[0] == n && q[|q| - 1] == m && Chain(deps, q);
    }
  }

  lemma {:induction false} ChainExtends(deps: Deps, path: seq<Member>, n: Member, d: Member)
    requires Chain(deps, path + [n]) && Edge(deps, n, d)
    ensures Chain(deps, path + [n] + [d])
  {
    var p := path + [n];
    forall i | 0 < i < |p + [d]|
      ensures Edge(deps, (p + [d])[i - 1], (p + [d])[i])
    {
      assert i < |p| ==> Edge(deps, p[i - 1], p[i]);
    }
  }

  lemma {:induction false} ChainPrefix(deps: Deps, path: seq<Member>, n: Member)
    requires Chain(deps, path + [n])
    ensures Chain(deps, path)
  {
    forall i | 0 < i < |path|
      ensures Edge(deps, path[i - 1], path[i])
    {
      assert Edge(deps, (path + [n])[i - 1], (path + [n])[i]);
    }
  }

  // Every member being visited requires the one the search is at.
  lemma {:induction false} OnPathRequires(deps: Deps, path: seq<Member>, n: Member)
    requires Chain(deps, path + [n])
    ensures forall d :: d in path + [n] ==> Requires(deps, d, n)
  {
    var p := path + [n];
    forall d | d in p
      ensures Requires(deps, d, n)
    {
      var k :| 0 <= k < |p| && p[k] == d;
      var q := p[k..];
      forall i | 0 < i < |q|
        ensures Edge(deps, q[i - 1], q[i])
      {
        assert Edge(deps, p[k + i - 1], p[k + i]);
      }
      assert q[0] == d && q[|q| - 1] == n && Chain(deps, q);
    }
  }

  lemma {:induction false} RespectsExtends(deps: Deps, order: seq<Member>, n: Member, visiting: set<Member>)
    requires Respects(deps, order) && n in deps
    requires forall d :: d in deps[n] ==> d in order || d in visiting
    requires forall d :: d in visiting ==> Requires(deps, d, n)
    ensures Respects(deps, order + [n])
  {
    var all := order + [n];
    forall m, d | m in all && FreeEdge(deps, m, d)
      ensures Before(all, d, m)
    {
      if m in order {
        assert Before(order, d, m);
        var i, j :| 0 <= i < j < |order| && order[i] == d && order[j] == m;
        assert all[i] == d && all[j] == m;
      } else {
        var i :| 0 <= i < |order| && order[i] == d;
        assert all[i] == d && all[|order|] == m;
      }
    }
  }

  // ---------- orders and cycles ----------

  // Along a chain, an order that respects every edge only goes back.
  lemma {:induction false} ChainGoesBack(deps: Deps, order: seq<Member>, p: seq<Member>, j: nat)
    requires NoRepeats(order) && (forall n, d :: Edge(deps, n, d) ==> Before(order, d, n))
    requires p != [] && Chain(deps, p) && j < |order| && order[j] == p[0]
    ensures exists i :: 0 <= i <= j && order[i] == p[|p| - 1]
    decreases |p|
  {
    if |p| > 1 {
      assert Edge(deps, p[0], p[1]);
      var i, k :| 0 <= i < k < |order| && order[i] == p[1] && order[k] == p[0];
      assert k == j;
      var q := p[1..];
      forall l | 0 < l < |q|
        ensures Edge(deps, q[l - 1], q[l])
      {
        assert Edge(deps, p[l], p[l + 1]);
      }
      ChainGoesBack(deps, order, q, i);
    }
  }

  // Only an acyclic world has an order that puts every dependency first.
  lemma {:induction false} OrderedIsAcyclic(deps: Deps, order: seq<Member>)
    requires NoRepeats(order) && (forall n, d :: Edge(deps, n, d) ==> Before(order, d, n))
    ensures Acyclic(deps)
  {
    forall n, d | Edge(deps, n, d)
      ensures !Requires(deps, d, n)
    {
      var i, j :| 0 <= i < j < |order| && order[i] == d && order[j] == n;
      if Requires(deps, d, n) {
        var p :| p != [] && p[0] == d && p[|p| - 1] == n && Chain(deps, p);
        ChainGoesBack(deps, order, p, i);
      }
    }
  }

  lemma {:induction false} OrderedExactly(deps: Deps, order: seq<Member>)
    requires NoRepeats(order) && Respects(deps, order) && forall n :: n in deps ==> n in order
    ensures (forall n, d :: Edge(deps, n, d) ==> Before(order, d, n)) <==> Acyclic(deps)
  {
    if forall n, d :: Edge(deps, n, d) ==> Before(order, d, n) {
      OrderedIsAcyclic(deps, order);
    }
  }

  // ---------- the whole order ----------

  /** `sorted` lists the members, in the order the search starts from them. */
  method TopoOrder(versions: map<Member, string>, deps: Deps, sorted: seq<Member>)
    returns (pins: seq<string>, order: seq<Member>)
    requires Closed(deps) && deps.Keys == versions.Keys && forall n :: n in deps <==> n in sorted
    ensures NoRepeats(order) && forall n :: n in order <==> n in versions
    ensures Respects(deps, order)
    ensures (forall n, d :: Edge(deps, n, d) ==> Before(order, d, n)) <==> Acyclic(deps)
    ensures forall i :: 0 <= i <= |sorted| ==> Block(deps, sorted[..i], order)
    ensures |pins| == |order| && forall i :: 0 <= i < |order| ==> pins[i] == order[i] + "==" + versions[order[i]]
  {
    hide Requires, RequiredBy, Block, Respects, Settled, Acyclic, Edge, Before;
    var s := new Search(deps);
    assert sorted[..0] == [];
    NothingRequired(deps, s);
    for i := 0 to |sorted|
      invariant s.Valid(deps, []) && s.visiting == {} && forall k :: 0 <= k < i ==> sorted[k] in s.done
      invariant forall m :: m in s.done <==> RequiredBy(deps, sorted[..i], m)
      invariant forall k :: 0 <= k <= i ==> Block(deps, sorted[..k], s.order)
    {
      assert Chain(deps, [] + [sorted[i]]);
      ghost var before := s.order;
      s.Visit(sorted[i], deps, []);
      RequiredDone(deps, s.done, sorted[i]);
      assert sorted[..i + 1] == sorted[..i] + [sorted[i]];
      RequiredBySnoc(deps, sorted[..i], sorted[i]);
      forall k | 0 <= k <= i
        ensures Block(deps, sorted[..k], s.order)
      {
        BlockKept(deps, sorted[..k], before, s.order);
      }
      WholeBlock(deps, sorted[..i + 1], s.order, s.done);
    }
    order := s.order;
    pins := [];
    for i := 0 to |order|
      invariant |pins| == i && forall k :: 0 <= k < i ==> pins[k] == order[k] + "==" + versions[order[k]]
    {
      assert order[i] in Elements(order);
      pins := pins + [order[i] + "==" + versions[order[i]]];
    }
    AllListed(versions, order, s.done);
    OrderedExactly(deps, order);
  }

  lemma {:induction false} NothingRequired(deps: Deps, s: Search)
    requires s.Valid(deps, []) && s.order == []
    ensures s.visiting == {} && s.done == {} && (forall m :: !RequiredBy(deps, [], m)) && Block(deps, [], s.order)
  {
    assert s.order[..0] == [] && Elements<Member>([]) == {};
  }

  lemma {:induction false} AllListed(versions: map<Member, string>, order: seq<Member>, done: set<Member>)
    requires done == Elements(order) == versions.Keys
    ensures forall n :: n in order <==> n in versions
  {
    forall n
      ensures n in order <==> n in versions
    {
      assert n in Elements(order) <==> n in order;
    }
  }
}
