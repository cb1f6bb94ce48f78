// Transport, operation by operation (transport.rs): it succeeds exactly if every operation has a row for its very CID,
// renames each and changes nothing else, and otherwise blames the first operation without one.
module TransportOps {
  import opened Sequences
  import opened Ir
  import opened WpEvaluator
  import opened Transport

  datatype TermNode = OpNode(cid: string, name: Name, arity: nat) | Leaf(term: Term)

  /** The term read from the root, each operation before its arguments. */
  function PreOrder(t: Term): (ns: seq<TermNode>)
    ensures ns != []
    decreases Size(t), 0
  {
    match t
    case Op(cid, name, args) => [OpNode(cid, name, |args|)] + AllPreOrder(args)
    case _ => [Leaf(t)]
  }

  function AllPreOrder(ts: seq<Term>): seq<TermNode>
    decreases Sizes(ts), 1
  {
    if ts == [] then [] else PreOrder(ts[0]) + AllPreOrder(ts[1..])
  }

  // That sequence determines the term.
  lemma {:induction false} PreOrderUnique(t: Term, u: Term, s: seq<TermNode>, s': seq<TermNode>)
    requires PreOrder(t) + s == PreOrder(u) + s'
    ensures t == u && s == s'
    decreases Size(t), 0
  {
    var x, y := PreOrder(t) + s, PreOrder(u) + s';
    assert x[0] == PreOrder(t)[0] && y[0] == PreOrder(u)[0];
    if t.Op? {
      assert x[1..] == AllPreOrder(t.args) + s && y[1..] == AllPreOrder(u.args) + s';
      AllPreOrderUnique(t.args, u.args, s, s');
    } else {
      assert x[1..] == s && y[1..] == s';
    }
  }

  lemma {:induction false} AllPreOrderUnique(ts: seq<Term>, us: seq<Term>, s: seq<TermNode>, s': seq<TermNode>)
    requires |ts| == |us| && AllPreOrder(ts) + s == AllPreOrder(us) + s'
    ensures ts == us && s == s'
    decreases Sizes(ts), 1
  {
    if ts == [] {
      assert AllPreOrder(ts) + s == s && AllPreOrder(us) + s' == s';
    } else {
      ConcatAssoc(PreOrder(ts[0]), AllPreOrder(ts[1..]), s);
      ConcatAssoc(PreOrder(us[0]), AllPreOrder(us[1..]), s');
      PreOrderUnique(ts[0], us[0], AllPreOrder(ts[1..]) + s, AllPreOrder(us[1..]) + s');
      AllPreOrderUnique(ts[1..], us[1..], s, s');
      assert ts == [ts[0]] + ts[1..] && us == [us[0]] + us[1..];
    }
  }

  // ---------- what a transport does to each operation ----------

  /** There is a row for the operation, and it is about this very operation. */
  predicate Discharged(tr: TermTransport, n: TermNode) {
    n.OpNode? ==> n.name in tr && tr[n.name].sourceCid == n.cid
  }

  predicate AllDischarged(tr: TermTransport, ns: seq<TermNode>) {
    forall n :: n in ns ==> Discharged(tr, n)
  }

  /** The second node is the first with the target's name and CID. */
  predicate Carries(tr: TermTransport, n: TermNode, m: TermNode) {
    match n
    case Leaf(_) => m == n
    case OpNode(_, name, arity) => name in tr && m == OpNode(tr[name].targetCid, tr[name].targetName, arity)
  }

  predicate CarriesAll(tr: TermTransport, ns: seq<TermNode>, ms: seq<TermNode>) {
    |ms| == |ns| && forall i :: 0 <= i < |ns| ==> Carries(tr, ns[i], ms[i])
  }

  predicate Blames(tr: TermTransport, n: TermNode, error: TransportError) {
    match error
    case MissingOperationMorphism(name) => n.OpNode? && n.name == name && name !in tr
    case OperationCidMismatch(name, expected, actual) =>
      && n.OpNode? && n.name == name && name in tr
      && expected == tr[name].sourceCid && actual == n.cid && expected != actual
  }

  /** The error is about the first operation that is not discharged. */
  ghost predicate BlamesFirst(tr: TermTransport, ns: seq<TermNode>, error: TransportError) {
    exists i :: 0 <= i < |ns| && AllDischarged(tr, ns[..i]) && Blames(tr, ns[i], error)
  }

  lemma {:induction false} DischargedJoin(tr: TermTransport, ns: seq<TermNode>, ms: seq<TermNode>)
    ensures AllDischarged(tr, ns + ms) <==> AllDischarged(tr, ns) && AllDischarged(tr, ms)
  {
    assert forall n :: n in ns + ms <==> n in ns || n in ms;
  }

  lemma {:induction false} BlamesFront(tr: TermTransport, ns: seq<TermNode>, ms: seq<TermNode>, error: TransportError)
    requires BlamesFirst(tr, ns, error)
    ensures BlamesFirst(tr, ns + ms, error)
  {
    var i :| 0 <= i < |ns| && AllDischarged(tr, ns[..i]) && Blames(tr, ns[i], error);
    assert (ns + ms)[..i] == ns[..i] && (ns + ms)[i] == ns[i];
  }

  lemma {:induction false} BlamesBack(tr: TermTransport, ns: seq<TermNode>, ms: seq<TermNode>, error: TransportError)
    requires AllDischarged(tr, ns) && BlamesFirst(tr, ms, error)
    ensures BlamesFirst(tr, ns + ms, error)
  {
    var i :| 0 <= i < |ms| && AllDischarged(tr, ms[..i]) && Blames(tr, ms[i], error);
    DischargedJoin(tr, ns, ms[..i]);
    assert (ns + ms)[..|ns| + i] == ns + ms[..i] && (ns + ms)[|ns| + i] == ms[i];
  }

  lemma {:induction false} NothingCarried(tr: TermTransport)
    ensures AllDischarged(tr, []) && CarriesAll(tr, [], [])
  {
  }

  lemma {:induction false} CarriesJoin(tr: TermTransport, ns: seq<TermNode>, ms: seq<TermNode>, ns': seq<TermNode>,
                                       ms': seq<TermNode>)
    requires CarriesAll(tr, ns, ns') && CarriesAll(tr, ms, ms')
    ensures CarriesAll(tr, ns + ms, ns' + ms')
  {
    hide Carries;
  }

  lemma {:induction false} RootBlamed(tr: TermTransport, n: TermNode, ns: seq<TermNode>, error: TransportError)
    requires Blames(tr, n, error)
    ensures BlamesFirst(tr, [n] + ns, error)
  {
    assert ([n] + ns)[0] == n && ([n] + ns)[..0] == [];
  }

  // Transport succeeds exactly if every operation is discharged. Then each is renamed, in its place and with its
  // arguments; else the first that is not discharged is blamed.
  lemma {:induction false} TransportExactly(tr: TermTransport, t: Term)
    ensures TransportTerm(tr, t).Done? <==> AllDischarged(tr, PreOrder(t))
    ensures TransportTerm(tr, t).Done? ==> CarriesAll(tr, PreOrder(t), PreOrder(TransportTerm(tr, t).value))
    ensures TransportTerm(tr, t).Refused? ==> BlamesFirst(tr, PreOrder(t), TransportTerm(tr, t).error)
    decreases Size(t), 0
  {
    hide AllDischarged, BlamesFirst;
    match t
    case Op(cid, name, args) =>
      var root := OpNode(cid, name, |args|);
      AllTransportExactly(tr, args);
      DischargedJoin(tr, [root], AllPreOrder(args));
      LoneNode(tr, root);
      if !Discharged(tr, root) {
        RootBlamed(tr, root, AllPreOrder(args), TransportTerm(tr, t).error);
      } else if TransportTerms(tr, args).Refused? {
        BlamesBack(tr, [root], AllPreOrder(args), TransportTerm(tr, t).error);
      }
    case _ => LoneNode(tr, Leaf(t));
  }

  lemma {:induction false} LoneNode(tr: TermTransport, n: TermNode)
    ensures AllDischarged(tr, [n]) <==> Discharged(tr, n)
  {
    assert n in [n];
  }

  lemma {:induction false} AllTransportExactly(tr: TermTransport, ts: seq<Term>)
    ensures TransportTerms(tr, ts).Done? <==> AllDischarged(tr, AllPreOrder(ts))
    ensures TransportTerms(tr, ts).Done? ==>
              CarriesAll(tr, AllPreOrder(ts), AllPreOrder(TransportTerms(tr, ts).value))
    ensures TransportTerms(tr, ts).Refused? ==> BlamesFirst(tr, AllPreOrder(ts), TransportTerms(tr, ts).error)
    decreases Sizes(ts), 1
  {
    hide BlamesFirst, CarriesAll, AllDischarged, PreOrder;
    if ts == [] {
      NothingCarried(tr);
    } else {
      TransportExactly(tr, ts[0]);
      AllTransportExactly(tr, ts[1..]);
      var front, back := PreOrder(ts[0]), AllPreOrder(ts[1..]);
      DischargedJoin(tr, front, back);
      if TransportTerm(tr, ts[0]).Refused? {
        BlamesFront(tr, front, back, TransportTerm(tr, ts[0]).error);
      } else if TransportTerms(tr, ts[1..]).Refused? {
        BlamesBack(tr, front, back, TransportTerms(tr, ts[1..]).error);
      } else {
        var u, us := TransportTerm(tr, ts[0]).value, TransportTerms(tr, ts[1..]).value;
        CarriesJoin(tr, front, back, PreOrder(u), AllPreOrder(us));
        assert ([u] + us)[1..] == us;
      }
    }
  }
}
