// Exactly when substituting the argument values one after the other gives every
// formal its own value.
module WpOrder {
  import opened Ir
  import opened Semantics
  import opened Substitution
  import opened SubstLemma
  import opened WpEvaluator
  import opened WpSound

  /** A term's tree, bound variables not told apart. */
  datatype Shape =
    | Missing
    | Free(name: Name)
    | Literal(value: Json, sort: Sort)
    | Node(ctor: Name, parts: seq<Shape>)
    | Abstraction(sort: Sort, body: Shape)
    | Bound

  ghost function Shapes(): Model<Shape> {
    Model(Missing, (value, sort) => Literal(value, sort), (name, vs) => Node(name, vs),
          (sort, graph: imap<Shape, Shape>) => if Bound in graph then Abstraction(sort, graph[Bound]) else Missing,
          (name, vs) => false, (sort, v) => true, (sort, vs) => false, (p, q) => false)
  }

  ghost function Named(xs: set<Name>): Env<Shape> {
    map x | x in xs :: Free(x)
  }

  predicate DistinctFormals(ss: seq<Subst>) {
    forall i, j :: 0 <= i < j < |ss| ==> ss[i].formal != ss[j].formal
  }

  // A term shows the value of each of its free variables.
  lemma {:induction false} Shows(t: IrTerm, x: Name, e: Env<Shape>, h: Env<Shape>)
    requires LetFreeTerm(t) && x in FreeTerm(t) && Lookup(Shapes(), e, x) != Lookup(Shapes(), h, x)
    ensures Eval(Shapes(), t, e) != Eval(Shapes(), t, h)
    decreases TermSize(t), 0
  {
    match t
    case Var(_) =>
    case Ctor(_, args) => ShowsAll(args, x, e, h);
    case Lambda(param, _, body) => Shows(body, x, Assign(e, param, Bound), Assign(h, param, Bound));
  }

  lemma {:induction false} ShowsAll(ts: seq<IrTerm>, x: Name, e: Env<Shape>, h: Env<Shape>)
    requires (forall t :: t in ts ==> LetFreeTerm(t)) && x in FreeTerms(ts)
    requires Lookup(Shapes(), e, x) != Lookup(Shapes(), h, x)
    ensures EvalAll(Shapes(), ts, e) != EvalAll(Shapes(), ts, h)
    decreases TermsSize(ts), 1
  {
    if x in FreeTerm(ts[0]) {
      Shows(ts[0], x, e, h);
      assert EvalAll(Shapes(), ts, e)[0] != EvalAll(Shapes(), ts, h)[0];
    } else {
      ShowsAll(ts[1..], x, e, h);
      assert EvalAll(Shapes(), ts, e)[1..] != EvalAll(Shapes(), ts, h)[1..];
    }
  }

  lemma {:induction false} OnlyItself(t: IrTerm, x: Name, xs: set<Name>)
    requires LetFreeTerm(t) && Eval(Shapes(), t, Named(xs)) == Free(x)
    ensures t == Var(x)
  {
  }

  lemma {:induction false} BindAllAt<V(!new)>(M: Model<V>, ss: seq<Subst>, e: Env<V>, i: nat)
    requires DistinctFormals(ss) && i < |ss|
    ensures Lookup(M, BindAll(M, ss, e), ss[i].formal) == Eval(M, ss[i].value, e)
  {
    if i > 0 {
      BindAllAt(M, ss[1..], e, i - 1);
    }
  }

  /** Substituting in order makes something else of some formal than its value. */
  ghost predicate GoesWrong(ss: seq<Subst>, xs: set<Name>, i: nat)
    requires i < |ss|
  {
    Eval(Shapes(), InstantiateTerm(Var(ss[i].formal), ss), Named(xs)) != Eval(Shapes(), ss[i].value, Named(xs))
  }

  lemma {:induction false} OutOfOrder(ss: seq<Subst>, xs: set<Name>) returns (i: nat)
    requires DistinctFormals(ss) && LetFreeValues(ss) && (forall a :: a in ss ==> a.formal in xs) && !InOrder(ss)
    ensures i < |ss| && GoesWrong(ss, xs, i)
  {
    hide Eval, FreeTerm, BindAll, SubstTerm;
    var tail := ss[1..];
    assert forall a :: a in tail ==> a in ss;
    if !InOrder(tail) {
      var k := OutOfOrder(tail, xs);
      i := k + 1;
      OtherVariable(ss[i].formal, ss[0].formal, ss[0].value);
    } else {
      i := 0;
      SameVariable(ss[0].formal, ss[0].value);
      var j := FirstViolated(ss);
      assert tail[j - 1] == ss[j] && ss[j] in ss && ss[0] in ss;
      var e := Named(xs);
      var h := BindAll(Shapes(), tail, e);
      InstantiateEval(Shapes(), ss[0].value, tail, e);
      BindAllAt(Shapes(), tail, e, j - 1);
      if Eval(Shapes(), ss[j].value, e) == Free(ss[j].formal) {
        OnlyItself(ss[j].value, ss[j].formal, xs);
      }
      assert Lookup(Shapes(), e, ss[j].formal) == Free(ss[j].formal);
      Shows(ss[0].value, ss[j].formal, h, e);
    }
  }

  lemma {:induction false} OtherVariable(y: Name, x: Name, r: IrTerm)
    requires y != x
    ensures SubstTerm(Var(y), x, r) == Var(y)
  {
  }

  lemma {:induction false} SameVariable(x: Name, r: IrTerm)
    ensures SubstTerm(Var(x), x, r) == r
  {
  }

  lemma {:induction false} FirstViolated(ss: seq<Subst>) returns (j: nat)
    requires ss != [] && !InOrder(ss) && InOrder(ss[1..])
    ensures 0 < j < |ss| && ss[j].formal in FreeTerm(ss[0].value) && ss[j].value != Var(ss[j].formal)
  {
    var i, k :| 0 <= i < k < |ss| && ss[k].formal in FreeTerm(ss[i].value) && ss[k].value != Var(ss[k].formal);
    if i > 0 {
      TailViolated(ss, i, k);
    }
    j := k;
  }

  lemma {:induction false} TailViolated(ss: seq<Subst>, i: nat, k: nat)
    requires 0 < i < k < |ss| && ss[k].formal in FreeTerm(ss[i].value) && ss[k].value != Var(ss[k].formal)
    ensures !InOrder(ss[1..])
  {
    assert ss[1..][k - 1] == ss[k] && ss[1..][i - 1] == ss[i];
  }

  // For distinct formals, in-order substitution gives every formal its value exactly under the condition; and
  // under it (InstantiateEval) every term the value it has with all formals bound at once.
  lemma {:induction false} InOrderExactly(ss: seq<Subst>, xs: set<Name>)
    requires DistinctFormals(ss) && LetFreeValues(ss) && forall a :: a in ss ==> a.formal in xs
    ensures InOrder(ss) <==> forall i :: 0 <= i < |ss| ==> !GoesWrong(ss, xs, i)
  {
    if InOrder(ss) {
      forall i | 0 <= i < |ss|
        ensures !GoesWrong(ss, xs, i)
      {
        InstantiateEval(Shapes(), Var(ss[i].formal), ss, Named(xs));
        BindAllAt(Shapes(), ss, Named(xs), i);
      }
    } else {
      var i := OutOfOrder(ss, xs);
    }
  }
}
