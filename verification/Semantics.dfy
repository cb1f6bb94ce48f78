// What IR terms and formulas mean, over an arbitrary interpretation of
// constants, constructors, lambdas and predicates.
module Semantics {
  import opened Ir

  type Env<V> = map<Name, V>

  /** A lambda is interpreted through its graph, so equal graphs give equal values. */
  datatype Model<!V(!new)> = Model(
    unbound: V,
    constant: (Json, Sort) -> V,
    ctor: (Name, seq<V>) -> V,
    lambda: (Sort, imap<V, V>) -> V,
    predicate_: (Name, seq<V>) -> bool,
    inSort: (Sort, V) -> bool,
    choice: (Sort, iset<V>) -> bool,
    divergence: (bool, bool) -> bool)

  ghost function Lookup<V(!new)>(M: Model<V>, e: Env<V>, x: Name): V {
    if x in e then e[x] else M.unbound
  }

  ghost function Assign<V>(e: Env<V>, x: Name, v: V): Env<V> {
    e[x := v]
  }

  ghost function Eval<V(!new)>(M: Model<V>, t: IrTerm, e: Env<V>): V
    decreases TermSize(t), 0
  {
    match t
    case Var(name) => Lookup(M, e, name)
    case Const(value, sort) => M.constant(value, sort)
    case Ctor(name, args) => M.ctor(name, EvalAll(M, args, e))
    case Lambda(param, sort, body) => M.lambda(sort, Graph(M, body, param, e))
    case Let(bindings, body) => EvalLet(M, bindings, body, e)
  }

  ghost function Graph<V(!new)>(M: Model<V>, body: IrTerm, param: Name, e: Env<V>): imap<V, V>
    decreases TermSize(body), 1
  {
    imap v: V | true :: Eval(M, body, Assign(e, param, v))
  }

  ghost function EvalAll<V(!new)>(M: Model<V>, ts: seq<IrTerm>, e: Env<V>): (vs: seq<V>)
    ensures |vs| == |ts|
    decreases TermsSize(ts), 1
  {
    if ts == [] then [] else [Eval(M, ts[0], e)] + EvalAll(M, ts[1..], e)
  }

  ghost function EvalLet<V(!new)>(M: Model<V>, bs: seq<LetBinding>, body: IrTerm, e: Env<V>): V
    decreases BindingsSize(bs) + TermSize(body), 1
  {
    if bs == [] then Eval(M, body, e)
    else EvalLet(M, bs[1..], body, Assign(e, bs[0].name, Eval(M, bs[0].bound, e)))
  }

  /** One operand each way is the usual reading; other arities are the evident generalisation. */
  function Truth(c: Connective, bs: seq<bool>): bool {
    match c
    case And => false !in bs
    case Or => true in bs
    case Not => false in bs
    case Implies => |bs| == 0 || false in bs[..|bs| - 1] || bs[|bs| - 1]
  }

  ghost function Quantify<V(!new)>(M: Model<V>, b: Binder, sort: Sort, vs: iset<V>): bool {
    match b
    case Forall => forall v: V :: M.inSort(sort, v) ==> v in vs
    case Exists => exists v: V :: M.inSort(sort, v) && v in vs
    case Choice => M.choice(sort, vs)
  }

  /** Truth of a formula. Substitute and Apply are schema nodes; they have no reading of their own. */
  ghost function Holds<V(!new)>(M: Model<V>, f: IrFormula, e: Env<V>): bool
    decreases FormulaSize(f), 0
  {
    match f
    case Atomic(name, args) => M.predicate_(name, EvalAll(M, args, e))
    case Connect(c, operands) => Truth(c, HoldsAll(M, operands, e))
    case Bind(b, name, sort, body) => Quantify(M, b, sort, Extent(M, body, name, e))
    case Substitute(_, _, _) => false
    case Apply(_, _) => false
    case DivergenceBetween(source, dest) => M.divergence(Holds(M, source, e), Holds(M, dest, e))
  }

  /** The values of the bound name for which the body holds. */
  ghost function Extent<V(!new)>(M: Model<V>, body: IrFormula, name: Name, e: Env<V>): iset<V>
    decreases FormulaSize(body), 1
  {
    iset v: V | Holds(M, body, Assign(e, name, v))
  }

  ghost function HoldsAll<V(!new)>(M: Model<V>, fs: seq<IrFormula>, e: Env<V>): (bs: seq<bool>)
    ensures |bs| == |fs|
    decreases FormulasSize(fs), 1
  {
    if fs == [] then [] else [Holds(M, fs[0], e)] + HoldsAll(M, fs[1..], e)
  }

  /** The two environments give every name of xs the same value. */
  ghost predicate Agree<V(!new)>(M: Model<V>, xs: set<Name>, e1: Env<V>, e2: Env<V>) {
    forall x :: x in xs ==> Lookup(M, e1, x) == Lookup(M, e2, x)
  }

  lemma {:induction false} AgreeAssign<V(!new)>(M: Model<V>, xs: set<Name>, x: Name, v: V, e1: Env<V>, e2: Env<V>)
    requires Agree(M, xs - {x}, e1, e2)
    ensures Agree(M, xs, Assign(e1, x, v), Assign(e2, x, v))
  {
    forall y | y in xs
      ensures Lookup(M, Assign(e1, x, v), y) == Lookup(M, Assign(e2, x, v), y)
    {
      if y != x {
        assert y in xs - {x};
      }
    }
  }

  // Only the free variables matter.
  lemma {:induction false} EvalAgree<V(!new)>(M: Model<V>, t: IrTerm, e1: Env<V>, e2: Env<V>)
    requires Agree(M, FreeTerm(t), e1, e2)
    ensures Eval(M, t, e1) == Eval(M, t, e2)
    decreases TermSize(t), 0
  {
    match t
    case Var(name) => assert name in FreeTerm(t);
    case Const(_, _) =>
    case Ctor(_, args) => EvalAllAgree(M, args, e1, e2);
    case Lambda(param, sort, body) =>
      forall v: V
        ensures Eval(M, body, Assign(e1, param, v)) == Eval(M, body, Assign(e2, param, v))
      {
        AgreeAssign(M, FreeTerm(body), param, v, e1, e2);
        EvalAgree(M, body, Assign(e1, param, v), Assign(e2, param, v));
      }
      assert Graph(M, body, param, e1) == Graph(M, body, param, e2);
    case Let(bindings, body) => EvalLetAgree(M, bindings, body, e1, e2);
  }

  lemma {:induction false} EvalAllAgree<V(!new)>(M: Model<V>, ts: seq<IrTerm>, e1: Env<V>, e2: Env<V>)
    requires Agree(M, FreeTerms(ts), e1, e2)
    ensures EvalAll(M, ts, e1) == EvalAll(M, ts, e2)
    decreases TermsSize(ts), 1
  {
    if ts != [] {
      EvalAgree(M, ts[0], e1, e2);
      EvalAllAgree(M, ts[1..], e1, e2);
    }
  }

  lemma {:induction false} EvalLetAgree<V(!new)>(M: Model<V>, bs: seq<LetBinding>, body: IrTerm, e1: Env<V>, e2: Env<V>)
    requires Agree(M, FreeLet(bs, body), e1, e2)
    ensures EvalLet(M, bs, body, e1) == EvalLet(M, bs, body, e2)
    decreases BindingsSize(bs) + TermSize(body), 1
  {
    if bs == [] {
      EvalAgree(M, body, e1, e2);
    } else {
      EvalAgree(M, bs[0].bound, e1, e2);
      var v := Eval(M, bs[0].bound, e1);
      AgreeAssign(M, FreeLet(bs[1..], body), bs[0].name, v, e1, e2);
      EvalLetAgree(M, bs[1..], body, Assign(e1, bs[0].name, v), Assign(e2, bs[0].name, v));
    }
  }

  lemma {:induction false} HoldsAgree<V(!new)>(M: Model<V>, f: IrFormula, e1: Env<V>, e2: Env<V>)
    requires Agree(M, FreeFormula(f), e1, e2)
    ensures Holds(M, f, e1) == Holds(M, f, e2)
    decreases FormulaSize(f), 0
  {
    match f
    case Atomic(_, args) => EvalAllAgree(M, args, e1, e2);
    case Connect(_, operands) => HoldsAllAgree(M, operands, e1, e2);
    case Bind(b, name, sort, body) =>
      forall v: V
        ensures Holds(M, body, Assign(e1, name, v)) == Holds(M, body, Assign(e2, name, v))
      {
        AgreeAssign(M, FreeFormula(body), name, v, e1, e2);
        HoldsAgree(M, body, Assign(e1, name, v), Assign(e2, name, v));
      }
      assert Extent(M, body, name, e1) == Extent(M, body, name, e2);
    case Substitute(_, _, _) =>
    case Apply(_, _) =>
    case DivergenceBetween(source, dest) =>
      HoldsAgree(M, source, e1, e2);
      HoldsAgree(M, dest, e1, e2);
  }

  lemma {:induction false} HoldsAllAgree<V(!new)>(M: Model<V>, fs: seq<IrFormula>, e1: Env<V>, e2: Env<V>)
    requires Agree(M, FreeFormulas(fs), e1, e2)
    ensures HoldsAll(M, fs, e1) == HoldsAll(M, fs, e2)
    decreases FormulasSize(fs), 1
  {
    if fs != [] {
      HoldsAgree(M, fs[0], e1, e2);
      HoldsAllAgree(M, fs[1..], e1, e2);
    }
  }
}
