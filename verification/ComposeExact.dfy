// Exactly when joining two contracts keeps what honest runs establish.
module ComposeExact {
  import opened Wrappers
  import opened Ir
  import opened Semantics
  import opened Substitution
  import opened SubstLemma
  import opened WpEvaluator
  import opened WpValueOp
  import opened Compose

  function Equation(value: IrTerm): IrFormula {
    Atomic("=", [Var(RESULT), value])
  }

  /** A run of the inner part with result r and of the outer step on r with result r', both within their
      postconditions, is within the joined one. */
  ghost predicate KeepsHonest<V(!new)>(M: Model<V>, outer: FunctionContract, inner: Composed, formalIdx: nat) {
    var c := ComposeWithComposed(outer, inner, formalIdx);
    c.Some? ==> forall e: Env<V>, r: V, r': V ::
      && Holds(M, inner.post, Assign(e, RESULT, r))
      && Holds(M, outer.post, Assign(Assign(e, outer.formals[formalIdx], r), RESULT, r'))
      ==> Holds(M, c.value.post, Assign(e, RESULT, r'))
  }

  ghost predicate KeepsAll<V(!new)>(inner: Composed) {
    forall M: Model<V>, outer: FunctionContract, formalIdx: nat ::
      Standard(M) && Plain(outer.post) && RESULT !in outer.formals ==> KeepsHonest(M, outer, inner, formalIdx)
  }

  lemma {:induction false} PairOf<V(!new)>(M: Model<V>, ts: seq<IrTerm>, e: Env<V>)
    requires |ts| == 2
    ensures EvalAll(M, ts, e) == [Eval(M, ts[0], e), Eval(M, ts[1], e)]
  {
    assert ts[1..] == [ts[1]] && ts[1..][1..] == [];
    assert EvalAll(M, [], e) == [];
  }

  // A value that does not mention the result is kept by every interpretation, outer contract and run.
  lemma {:induction false} ResultFreeKeeps<V(!new)>(M: Model<V>, outer: FunctionContract, inner: Composed,
                                                    formalIdx: nat, value: IrTerm)
    requires Standard(M) && Plain(outer.post) && RESULT !in outer.formals
    requires inner.post == Equation(value) && LetFreeTerm(value) && RESULT !in FreeTerm(value)
    ensures KeepsHonest(M, outer, inner, formalIdx)
  {
    hide Holds, Eval, SubstFormula;
    if ComposeWithComposed(outer, inner, formalIdx).Some? {
      var y := outer.formals[formalIdx];
      assert ComposeWithComposed(outer, inner, formalIdx).value.post == SubstFormula(outer.post, y, value);
      forall e: Env<V>, r: V, r': V |
        Holds(M, inner.post, Assign(e, RESULT, r)) && Holds(M, outer.post, Assign(Assign(e, y, r), RESULT, r'))
        ensures Holds(M, SubstFormula(outer.post, y, value), Assign(e, RESULT, r'))
      {
        EquationHolds(M, inner.post, RESULT, Assign(e, RESULT, r));
        assert Eval(M, value, Assign(e, RESULT, r)) == r;
        var k := Assign(e, RESULT, r');
        EvalAgree(M, value, Assign(e, RESULT, r), k);
        ValueInFormal(M, outer.post, y, value, k, r);
        assert Assign(k, y, r) == Assign(Assign(e, y, r), RESULT, r');
      }
    }
  }

  // ---------- a value that mentions the result ----------

  /** Booleans, every constructor the disjunction of its arguments, "differ" inequality. */
  function Ors(): Model<bool> {
    Model(false, (value, sort) => false, (name, vs: seq<bool>) => true in vs,
          (sort, graph: imap<bool, bool>) => false in graph && graph[false],
          (name, vs: seq<bool>) => |vs| == 2 && (if name == "=" then vs[0] == vs[1] else vs[0] != vs[1]),
          (sort, v) => true, (sort, vs) => false, (p, q) => false)
  }

  // Where the result is the only variable that may be true, a term is true exactly if it is, and occurs.
  lemma {:induction false} OrValue(t: IrTerm, e: Env<bool>)
    requires LetFreeTerm(t) && forall x :: x != RESULT ==> !Lookup(Ors(), e, x)
    ensures Eval(Ors(), t, e) <==> RESULT in FreeTerm(t) && Lookup(Ors(), e, RESULT)
    decreases TermSize(t), 0
  {
    match t
    case Var(_) =>
    case Const(_, _) =>
    case Ctor(_, args) => OrValues(args, e);
    case Lambda(param, sort, body) =>
      var h := Assign(e, param, false);
      forall x | x != RESULT
        ensures !Lookup(Ors(), h, x)
      {
        assert x != param ==> Lookup(Ors(), h, x) == Lookup(Ors(), e, x);
      }
      OrValue(body, h);
      assert Graph(Ors(), body, param, e)[false] == Eval(Ors(), body, h);
  }

  lemma {:induction false} OrValues(ts: seq<IrTerm>, e: Env<bool>)
    requires (forall t :: t in ts ==> LetFreeTerm(t)) && forall x :: x != RESULT ==> !Lookup(Ors(), e, x)
    ensures true in EvalAll(Ors(), ts, e) <==> RESULT in FreeTerms(ts) && Lookup(Ors(), e, RESULT)
    decreases TermsSize(ts), 1
  {
    if ts != [] {
      OrValue(ts[0], e);
      OrValues(ts[1..], e);
      assert EvalAll(Ors(), ts, e) == [Eval(Ors(), ts[0], e)] + EvalAll(Ors(), ts[1..], e);
    }
  }

  /** An outer contract whose result is to differ from its argument. */
  function Differing(pre: IrFormula): FunctionContract {
    FunctionContract(["y"], pre, Atomic("differ", [Var("y"), Var(RESULT)]), [], "outer")
  }

  // The honest run with results true and false is not within the joined postcondition.
  lemma {:induction false} ResultLoses(inner: Composed, value: IrTerm)
    requires inner.post == Equation(value) && LetFreeTerm(value) && RESULT in FreeTerm(value)
    ensures !KeepsHonest(Ors(), Differing(True()), inner, 0)
  {
    var outer, e: Env<bool> := Differing(True()), map[];
    var c := ComposeWithComposed(outer, inner, 0).value;
    JoinedDiffers(value);
    assert c.post == Atomic("differ", [value, Var(RESULT)]);
    var inside, last := Assign(e, RESULT, true), Assign(e, RESULT, false);
    OrValue(value, inside);
    OrValue(value, last);
    PairOf(Ors(), [Var(RESULT), value], inside);
    PairOf(Ors(), [Var("y"), Var(RESULT)], Assign(Assign(e, "y", true), RESULT, false));
    PairOf(Ors(), [value, Var(RESULT)], last);
    assert Holds(Ors(), inner.post, inside) && !Holds(Ors(), c.post, last);
    assert Holds(Ors(), outer.post, Assign(Assign(e, "y", true), RESULT, false));
  }

  function True(): IrFormula {
    Connect(And, [])
  }

  lemma {:induction false} JoinedDiffers(value: IrTerm)
    ensures SubstFormula(Atomic("differ", [Var("y"), Var(RESULT)]), "y", value)
              == Atomic("differ", [value, Var(RESULT)])
  {
    var ts := [Var("y"), Var(RESULT)];
    assert ts[1..] == [Var(RESULT)] && ts[1..][1..] == [];
    assert SubstTerms([], "y", value) == [];
    assert SubstTerms(ts[1..], "y", value) == [Var(RESULT)];
    assert SubstTerms(ts, "y", value) == [value] + [Var(RESULT)];
  }

  // A join behind `result = value` keeps honest runs, whatever the outer contract and the interpretation, exactly if
  // the value does not mention the result.
  lemma {:induction false} JoinExactly(inner: Composed, value: IrTerm)
    requires inner.post == Equation(value) && LetFreeTerm(value)
    ensures KeepsAll<bool>(inner) <==> RESULT !in FreeTerm(value)
  {
    hide KeepsHonest;
    if RESULT in FreeTerm(value) {
      ResultLoses(inner, value);
      assert Standard(Ors()) && Plain(Differing(True()).post);
    } else {
      forall M: Model<bool>, outer: FunctionContract, formalIdx: nat | Standard(M) && Plain(outer.post)
        && RESULT !in outer.formals
        ensures KeepsHonest(M, outer, inner, formalIdx)
      {
        ResultFreeKeeps(M, outer, inner, formalIdx, value);
      }
    }
  }

  // ---------- a result that is guessed ----------

  /** The formula equates some namespaced result with v, the result on the left if both sides are. */
  predicate EquatesNamespaced(f: IrFormula, v: IrTerm) {
    f.Atomic? && f.predicate_ == "=" && |f.terms| == 2 &&
    if IsNamespaced(f.terms[0]) then v == f.terms[1] else IsNamespaced(f.terms[1]) && v == f.terms[0]
  }

  predicate IsNamespaced(t: IrTerm) {
    t.Var? && "result__" <= t.name
  }

  ghost predicate NoNamespaced(fs: seq<IrFormula>) {
    forall f, v :: f in fs ==> !EquatesNamespaced(f, v)
  }

  ghost predicate FirstNamespaced(fs: seq<IrFormula>, v: IrTerm) {
    exists i: nat :: i < |fs| && EquatesNamespaced(fs[i], v) && NoNamespaced(fs[..i])
  }

  // The fallback finds the first equation on a namespaced result, whichever that is.
  lemma {:induction false} NamespacedExactly(f: IrFormula)
    ensures FindNamespacedResult(f).None? ==> NoNamespaced(Conjuncts(f))
    ensures FindNamespacedResult(f).Some? ==> FirstNamespaced(Conjuncts(f), FindNamespacedResult(f).value)
    decreases FormulaSize(f), 0
  {
    match f
    case Atomic(name, args) =>
      if FindNamespacedResult(f).Some? {
        assert EquatesNamespaced([f][0], FindNamespacedResult(f).value) && [f][..0] == [];
      }
    case Connect(c, operands) =>
      if c == And {
        FirstNamespacedExactly(operands);
      }
    case _ =>
  }

  lemma {:induction false} FirstNamespacedExactly(fs: seq<IrFormula>)
    ensures FindFirstNamespaced(fs).None? ==> NoNamespaced(AllConjuncts(fs))
    ensures FindFirstNamespaced(fs).Some? ==> FirstNamespaced(AllConjuncts(fs), FindFirstNamespaced(fs).value)
    decreases FormulasSize(fs), 1
  {
    hide EquatesNamespaced;
    if fs != [] {
      NamespacedExactly(fs[0]);
      FirstNamespacedExactly(fs[1..]);
      var front, back := Conjuncts(fs[0]), AllConjuncts(fs[1..]);
      if FindNamespacedResult(fs[0]).Some? {
        var i: nat :| i < |front| && EquatesNamespaced(front[i], FindNamespacedResult(fs[0]).value)
          && NoNamespaced(front[..i]);
        assert (front + back)[i] == front[i] && (front + back)[..i] == front[..i];
      } else if FindFirstNamespaced(fs).Some? {
        var i: nat :| i < |back| && EquatesNamespaced(back[i], FindFirstNamespaced(fs).value)
          && NoNamespaced(back[..i]);
        assert (front + back)[|front| + i] == back[i] && (front + back)[..|front| + i] == front + back[..i];
      }
    }
  }

  // Where the inner postcondition has no equation for the result, the fallback takes the value of an earlier result for
  // it: an honest run with the results true and false is not within the joined postcondition.
  lemma {:induction false} NamespacedGuess(components: seq<string>, formalIdx: nat, pre: IrFormula)
    ensures var inner := Composed(components, formalIdx, pre, Atomic("=", [Var("result__0"), Const("", "s")]));
            !KeepsHonest(Ors(), Differing(True()), inner, 0)
  {
    var ts := [Var("result__0"), Const("", "s")];
    var inner := Composed(components, formalIdx, pre, Atomic("=", ts));
    var outer, e: Env<bool> := Differing(True()), map[];
    assert NAMESPACE == "result__"[..|NAMESPACE|] == "result__0"[..|NAMESPACE|];
    assert "result__0" != RESULT;
    assert FindResultEquation(inner.post, RESULT).None?;
    assert ComposedResult(inner) == Some(Const("", "s"));
    var c := ComposeWithComposed(outer, inner, 0).value;
    JoinedDiffers(Const("", "s"));
    PairOf(Ors(), ts, Assign(e, RESULT, true));
    PairOf(Ors(), [Var("y"), Var(RESULT)], Assign(Assign(e, "y", true), RESULT, false));
    PairOf(Ors(), [Const("", "s"), Var(RESULT)], Assign(e, RESULT, false));
    assert Holds(Ors(), inner.post, Assign(e, RESULT, true)) && !Holds(Ors(), c.post, Assign(e, RESULT, false));
    assert Holds(Ors(), outer.post, Assign(Assign(e, "y", true), RESULT, false));
  }
}
