// The composed precondition says exactly what its parts do: the first contract's precondition, and each later one for
// every result that what is composed before it allows.
module ComposePre {
  import opened Wrappers
  import opened Ir
  import opened Substitution
  import opened Semantics
  import opened SubstLemma
  import opened SubstFree
  import opened WpEvaluator
  import opened Compose

  // ---------- one join ----------

  // Whatever the value found, the composed precondition puts it into the outer formal where the inner postcondition
  // holds, and the composed postcondition is the outer one with it there.
  lemma {:induction false} JoinMeans<V(!new)>(M: Model<V>, outer: FunctionContract, innerPre: IrFormula,
                                              innerPost: IrFormula, value: IrTerm, formalIdx: nat,
                                              components: seq<string>, h: Env<V>)
    requires Plain(outer.pre) && Plain(outer.post) && LetFreeTerm(value) && formalIdx < |outer.formals|
    ensures var c := Joined(outer, innerPre, innerPost, value, formalIdx, components);
            var inFormal := Assign(h, outer.formals[formalIdx], Eval(M, value, h));
            && (Holds(M, c.pre, h) <==>
                  Holds(M, innerPre, h) && (Holds(M, innerPost, h) ==> Holds(M, outer.pre, inFormal)))
            && (Holds(M, c.post, h) <==> Holds(M, outer.post, inFormal))
  {
    hide Holds, Eval, SubstFormula, Plain;
    var formal, v := outer.formals[formalIdx], Eval(M, value, h);
    JoinedPre(M, innerPre, innerPost, SubstFormula(outer.pre, formal, value), h);
    ValueInFormal(M, outer.pre, formal, value, h, v);
    ValueInFormal(M, outer.post, formal, value, h, v);
  }

  // The renamed postcondition says of the renamed result what the postcondition says of the result.
  lemma {:induction false} RenamedHolds<V(!new)>(M: Model<V>, inner: FunctionContract, e: Env<V>, r: V)
    requires CleanContract(inner, inner.ResultVarName())
    ensures Holds(M, RenamedPost(inner), Assign(e, inner.ResultVarName(), r)) <==>
              Holds(M, inner.post, Assign(e, RESULT, r))
  {
    hide Holds, Eval, SubstFormula, Plain, FreeFormula;
    var rho := inner.ResultVarName();
    var h := Assign(e, rho, r);
    PlainSafe(inner.post, RESULT, Var(rho));
    SubstHolds(M, inner.post, RESULT, Var(rho), h);
    assert Eval(M, Var(rho), h) == r by { VarValue(M, rho, h); }
    HoldsAgree(M, inner.post, Assign(h, RESULT, r), Assign(e, RESULT, r));
  }

  // The first join, for a result r: the inner precondition holds, and if the inner postcondition allows r then the
  // outer precondition holds with r in its formal.
  lemma {:induction false} FirstPreExactly<V(!new)>(M: Model<V>, outer: FunctionContract, inner: FunctionContract,
                                                    formalIdx: nat, e: Env<V>, r: V)
    requires Standard(M) && ComposeFunctionContracts(outer, inner, formalIdx).Some?
    requires CleanContract(inner, inner.ResultVarName()) && CleanContract(outer, inner.ResultVarName())
    ensures Holds(M, ComposeFunctionContracts(outer, inner, formalIdx).value.pre,
                  Assign(e, inner.ResultVarName(), r)) <==>
              && Holds(M, inner.pre, e)
              && (Holds(M, inner.post, Assign(e, RESULT, r)) ==>
                    Holds(M, outer.pre, Assign(e, outer.formals[formalIdx], r)))
  {
    hide Holds, Eval, SubstFormula, Plain, FreeFormula, FreeTerm, FindResultEquation, RenamedPost, Joined;
    var rho, formal := inner.ResultVarName(), outer.formals[formalIdx];
    var innerPost, h := RenamedPost(inner), Assign(e, rho, r);
    var value := FindResultEquation(innerPost, rho).value;
    RenamedPostFacts(inner, rho);
    JoinMeans(M, outer, inner.pre, innerPost, value, formalIdx, [outer.cid, inner.cid], h);
    HoldsAgree(M, inner.pre, h, e);
    RenamedHolds(M, inner, e, r);
    if Holds(M, innerPost, h) {
      EquationHolds(M, innerPost, rho, h);
      HoldsAgree(M, outer.pre, Assign(h, formal, r), Assign(e, formal, r));
    }
  }

  // Each later join, the same of what is composed before it.
  lemma {:induction false} StepPreExactly<V(!new)>(M: Model<V>, outer: FunctionContract, inner: Composed,
                                                   formalIdx: nat, e: Env<V>, r: V)
    requires Standard(M) && ComposeWithComposed(outer, inner, formalIdx).Some?
    requires FindResultEquation(inner.post, RESULT).Some? && Plain(inner.post)
    requires Plain(outer.pre) && Plain(outer.post) && RESULT !in FreeFormula(outer.pre)
    ensures var h := Assign(e, RESULT, r);
            Holds(M, ComposeWithComposed(outer, inner, formalIdx).value.pre, h) <==>
              && Holds(M, inner.pre, h)
              && (Holds(M, inner.post, h) ==> Holds(M, outer.pre, Assign(e, outer.formals[formalIdx], r)))
  {
    hide Holds, Eval, SubstFormula, Plain, FreeFormula, FreeTerm, FindResultEquation, FindNamespacedResult, Joined;
    var formal, h := outer.formals[formalIdx], Assign(e, RESULT, r);
    var value := FindResultEquation(inner.post, RESULT).value;
    EquationParts(inner.post, RESULT);
    JoinMeans(M, outer, inner.pre, inner.post, value, formalIdx, [outer.cid] + inner.components, h);
    if Holds(M, inner.post, h) {
      EquationHolds(M, inner.post, RESULT, h);
      HoldsAgree(M, outer.pre, Assign(h, formal, r), Assign(e, formal, r));
    }
  }

  // ---------- a whole chain ----------

  /** If the postcondition allows the result, it is within the step's precondition. */
  ghost predicate CoversResult<V(!new)>(M: Model<V>, post: IrFormula, step: ChainStep, e: Env<V>, r: V)
    requires step.formalIdx < |step.contract.formals|
  {
    Holds(M, post, Assign(e, RESULT, r)) ==>
      Holds(M, step.contract.pre, Assign(e, step.contract.formals[step.formalIdx], r))
  }

  ghost predicate Covered<V(!new)>(M: Model<V>, post: IrFormula, step: ChainStep, e: Env<V>)
    requires step.formalIdx < |step.contract.formals|
  {
    forall r: V :: CoversResult(M, post, step, e, r)
  }

  /** So from step i on, for each composed postcondition on the way. */
  ghost predicate CoveredFrom<V(!new)>(M: Model<V>, steps: seq<ChainStep>, i: nat, acc: Composed, e: Env<V>)
    requires 1 <= i <= |steps|
    decreases |steps| - i
  {
    i == |steps| ||
    (var next := ComposeWithComposed(steps[i].contract, acc, steps[i].formalIdx);
     next.Some? && Covered(M, acc.post, steps[i], e) && CoveredFrom(M, steps, i + 1, next.value, e))
  }

  ghost function Results<V(!new)>(rho: Name, e: Env<V>, a: V, b: V): Env<V> {
    Assign(Assign(e, rho, a), RESULT, b)
  }

  lemma {:induction false} FirstCoveredAt<V(!new)>(M: Model<V>, inner: FunctionContract, step: ChainStep, e: Env<V>,
                                                   a: V, b: V)
    requires Standard(M) && ComposeFunctionContracts(step.contract, inner, step.formalIdx).Some?
    requires CleanContract(inner, inner.ResultVarName()) && CleanContract(step.contract, inner.ResultVarName())
    ensures var first := ComposeFunctionContracts(step.contract, inner, step.formalIdx).value;
            Holds(M, first.pre, Results(inner.ResultVarName(), e, a, b)) <==>
              Holds(M, inner.pre, e) && CoversResult(M, inner.post, step, e, a)
  {
    hide Holds, Plain, FreeFormula, FindResultEquation, RenamedPost, Joined;
    var rho, k := inner.ResultVarName(), Assign(e, RESULT, b);
    assert |rho| > |RESULT|;
    var formal := step.contract.formals[step.formalIdx];
    assert Assign(k, rho, a) == Results(rho, e, a, b) && Assign(k, RESULT, a) == Assign(e, RESULT, a);
    FirstPreExactly(M, step.contract, inner, step.formalIdx, k, a);
    HoldsAgree(M, inner.pre, k, e);
    HoldsAgree(M, step.contract.pre, Assign(k, formal, a), Assign(e, formal, a));
  }

  lemma {:induction false} FirstCovered<V(!new)>(M: Model<V>, inner: FunctionContract, step: ChainStep, e: Env<V>)
    requires Standard(M) && ComposeFunctionContracts(step.contract, inner, step.formalIdx).Some?
    requires CleanContract(inner, inner.ResultVarName()) && CleanContract(step.contract, inner.ResultVarName())
    ensures var first := ComposeFunctionContracts(step.contract, inner, step.formalIdx).value;
            ForAllResults(M, first.pre, inner.ResultVarName(), e) <==>
              Holds(M, inner.pre, e) && Covered(M, inner.post, step, e)
  {
    hide Holds, CoversResult, CleanContract;
    var rho, first := inner.ResultVarName(), ComposeFunctionContracts(step.contract, inner, step.formalIdx).value;
    forall a: V, b: V
      ensures Holds(M, first.pre, Results(rho, e, a, b)) <==>
                Holds(M, inner.pre, e) && CoversResult(M, inner.post, step, e, a)
    {
      FirstCoveredAt(M, inner, step, e, a, b);
    }
    if ForAllResults(M, first.pre, rho, e) {
      assert Holds(M, first.pre, Results(rho, e, M.unbound, M.unbound));
      forall a: V
        ensures CoversResult(M, inner.post, step, e, a)
      {
        assert Holds(M, first.pre, Results(rho, e, a, M.unbound));
      }
    }
    if Holds(M, inner.pre, e) && Covered(M, inner.post, step, e) {
      forall a: V, b: V
        ensures Holds(M, first.pre, Assign(Assign(e, rho, a), RESULT, b))
      {
        assert Holds(M, first.pre, Results(rho, e, a, b));
      }
    }
  }

  lemma {:induction false} StepCoveredAt<V(!new)>(M: Model<V>, step: ChainStep, acc: Composed, rho: Name, e: Env<V>,
                                                  a: V, b: V)
    requires Standard(M) && rho != RESULT && CleanContract(step.contract, rho)
    requires ComposeWithComposed(step.contract, acc, step.formalIdx).Some?
    requires FindResultEquation(acc.post, RESULT).Some? && Plain(acc.post) && rho !in FreeFormula(acc.post)
    ensures var next := ComposeWithComposed(step.contract, acc, step.formalIdx).value;
            Holds(M, next.pre, Results(rho, e, a, b)) <==>
              Holds(M, acc.pre, Results(rho, e, a, b)) && CoversResult(M, acc.post, step, e, b)
  {
    hide Holds, Plain, FreeFormula, FindResultEquation, FindNamespacedResult, Joined;
    var k, formal := Assign(e, rho, a), step.contract.formals[step.formalIdx];
    StepPreExactly(M, step.contract, acc, step.formalIdx, k, b);
    HoldsAgree(M, acc.post, Assign(k, RESULT, b), Assign(e, RESULT, b));
    HoldsAgree(M, step.contract.pre, Assign(k, formal, b), Assign(e, formal, b));
  }

  lemma {:induction false} StepCovered<V(!new)>(M: Model<V>, step: ChainStep, acc: Composed, rho: Name, e: Env<V>)
    requires Standard(M) && rho != RESULT && CleanContract(step.contract, rho)
    requires ComposeWithComposed(step.contract, acc, step.formalIdx).Some?
    requires FindResultEquation(acc.post, RESULT).Some? && Plain(acc.post) && rho !in FreeFormula(acc.post)
    ensures ForAllResults(M, ComposeWithComposed(step.contract, acc, step.formalIdx).value.pre, rho, e) <==>
              ForAllResults(M, acc.pre, rho, e) && Covered(M, acc.post, step, e)
  {
    hide Holds, CoversResult, CleanContract, FindResultEquation, FindNamespacedResult, Joined;
    var next := ComposeWithComposed(step.contract, acc, step.formalIdx).value;
    forall a: V, b: V
      ensures Holds(M, next.pre, Results(rho, e, a, b)) <==>
                Holds(M, acc.pre, Results(rho, e, a, b)) && CoversResult(M, acc.post, step, e, b)
    {
      StepCoveredAt(M, step, acc, rho, e, a, b);
    }
    if ForAllResults(M, next.pre, rho, e) {
      forall a: V, b: V
        ensures Holds(M, acc.pre, Assign(Assign(e, rho, a), RESULT, b))
      {
        assert Holds(M, next.pre, Results(rho, e, a, b));
      }
      forall b: V
        ensures CoversResult(M, acc.post, step, e, b)
      {
        assert Holds(M, next.pre, Results(rho, e, M.unbound, b));
      }
    }
    if ForAllResults(M, acc.pre, rho, e) && Covered(M, acc.post, step, e) {
      forall a: V, b: V
        ensures Holds(M, next.pre, Assign(Assign(e, rho, a), RESULT, b))
      {
        assert Holds(M, acc.pre, Results(rho, e, a, b));
      }
    }
  }

  lemma {:induction false} FromCovered<V(!new)>(M: Model<V>, steps: seq<ChainStep>, i: nat, acc: Composed, rho: Name,
                                                e: Env<V>)
    requires 1 <= i <= |steps| && Standard(M) && rho != RESULT
    requires (forall j :: 0 <= j < |steps| ==> CleanContract(steps[j].contract, rho)) && CleanFrom(steps, i, acc)
    requires Plain(acc.post) && rho !in FreeFormula(acc.post) && ChainFrom(steps, i, acc).Composition?
    ensures ForAllResults(M, ChainFrom(steps, i, acc).value.pre, rho, e) <==>
              ForAllResults(M, acc.pre, rho, e) && CoveredFrom(M, steps, i, acc, e)
    decreases |steps| - i
  {
    hide ForAllResults, Covered, Plain, FreeFormula, FindResultEquation, ComposeWithComposed;
    if i < |steps| {
      var next := ComposeWithComposed(steps[i].contract, acc, steps[i].formalIdx).value;
      NextClean(steps[i], acc, rho);
      StepCovered(M, steps[i], acc, rho, e);
      FromCovered(M, steps, i + 1, next, rho, e);
    }
  }

  lemma {:induction false} NextClean(step: ChainStep, acc: Composed, rho: Name)
    requires CleanContract(step.contract, rho) && Plain(acc.post) && rho !in FreeFormula(acc.post)
    requires FindResultEquation(acc.post, RESULT).Some?
    requires ComposeWithComposed(step.contract, acc, step.formalIdx).Some?
    ensures var next := ComposeWithComposed(step.contract, acc, step.formalIdx).value;
            Plain(next.post) && rho !in FreeFormula(next.post)
  {
    hide Plain, FreeFormula, FreeTerm, FindResultEquation, FindNamespacedResult, SubstFormula;
    var value, formal := FindResultEquation(acc.post, RESULT).value, step.contract.formals[step.formalIdx];
    EquationParts(acc.post, RESULT);
    PlainSafe(step.contract.post, formal, value);
    SubstFormulaFree(step.contract.post, formal, value);
  }

  lemma {:induction false} FirstClean(steps: seq<ChainStep>)
    requires |steps| >= 2 && CleanChain(steps)
    requires ComposeFunctionContracts(steps[1].contract, steps[0].contract, steps[1].formalIdx).Some?
    ensures var first := ComposeFunctionContracts(steps[1].contract, steps[0].contract, steps[1].formalIdx).value;
            Plain(first.post) && steps[0].contract.ResultVarName() !in FreeFormula(first.post)
  {
    hide Plain, FreeFormula, FreeTerm, FindResultEquation, SubstFormula, RenamedPost, CleanFrom;
    var inner, outer := steps[0].contract, steps[1].contract;
    var rho := inner.ResultVarName();
    var value, formal := FindResultEquation(RenamedPost(inner), rho).value, outer.formals[steps[1].formalIdx];
    RenamedPostFacts(inner, rho);
    PlainSafe(outer.post, formal, value);
    SubstFormulaFree(outer.post, formal, value);
  }

  // The precondition of a composed chain holds for every value of its result names exactly if the first precondition
  // holds, and each later one of every result that what is composed before it allows.
  lemma {:induction false} ChainPreExactly<V(!new)>(M: Model<V>, steps: seq<ChainStep>, r: Composed, e: Env<V>)
    requires |steps| >= 2 && Standard(M) && Chained(steps, r) && CleanChain(steps)
    ensures steps[1].formalIdx < |steps[1].contract.formals|
    ensures var first := ComposeFunctionContracts(steps[1].contract, steps[0].contract, steps[1].formalIdx);
            ForAllResults(M, r.pre, steps[0].contract.ResultVarName(), e) <==>
              && Holds(M, steps[0].contract.pre, e)
              && Covered(M, steps[0].contract.post, steps[1], e)
              && CoveredFrom(M, steps, 2, first.value, e)
  {
    hide Holds, ForAllResults, Covered, Plain, FreeFormula, FindResultEquation, RenamedPost;
    var rho := steps[0].contract.ResultVarName();
    assert |rho| > |RESULT|;
    var first := ComposeFunctionContracts(steps[1].contract, steps[0].contract, steps[1].formalIdx).value;
    FirstClean(steps);
    FirstCovered(M, steps[0].contract, steps[1], e);
    FromCovered(M, steps, 2, first, rho, e);
  }
}
