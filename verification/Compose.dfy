// Contract composition (compose.rs): the inner contract's result feeds one
// formal of the outer one; a chain folds this from left to right.
module Compose {
  import opened Wrappers
  import opened Ir
  import opened Substitution
  import opened Semantics
  import opened SubstLemma
  import opened SubstFree
  import opened WpEvaluator

  datatype FunctionContract = FunctionContract(formals: seq<Name>, pre: IrFormula, post: IrFormula,
    effects: seq<string>, cid: string)
  {
    predicate IsPure() {
      effects == []
    }

    /** The result name used while composing: the last twelve characters of the CID behind a prefix. */
    function ResultVarName(): (name: Name)
      ensures |name| == 8 + (if |cid| < 12 then |cid| else 12) && "result__" <= name
      ensures forall i :: 8 <= i < |name| ==> name[i] == cid[|cid| - |name| + i]
    {
      NAMESPACE + (if |cid| <= 12 then cid else cid[|cid| - 12..])
    }

    function ResultValue(): Option<IrTerm> {
      FindResultEquation(post, RESULT)
    }
  }

  datatype Composed = Composed(components: seq<string>, formalIdx: nat, pre: IrFormula, post: IrFormula)

  datatype ChainStep = ChainStep(contract: FunctionContract, formalIdx: nat)

  datatype CompositionError =
    | ChainTooShort(len: nat)
    | ImpureInput(atomIndex: nat, atomCid: string)
    | FormalIndexOutOfRange(atomIndex: nat, formalIdx: nat, formalsLen: nat, atomCid: string)
    | MissingResultEquation(atomIndex: nat, atomCid: string)

  datatype Outcome<+T> = Composition(value: T) | Failed(error: CompositionError)

  const NAMESPACE: string := "result__"

  /** The other side of the first equation on a namespaced result. */
  function FindNamespacedResult(f: IrFormula): Option<IrTerm>
    decreases FormulaSize(f), 0
  {
    match f
    case Atomic(name, args) =>
      if name != "=" || |args| != 2 then None
      else if args[0].Var? && NAMESPACE <= args[0].name then Some(args[1])
      else if args[1].Var? && NAMESPACE <= args[1].name then Some(args[0])
      else None
    case Connect(And, operands) => FindFirstNamespaced(operands)
    case _ => None
  }

  function FindFirstNamespaced(fs: seq<IrFormula>): Option<IrTerm>
    decreases FormulasSize(fs), 1
  {
    if fs == [] then None
    else
      var first := FindNamespacedResult(fs[0]);
      if first.Some? then first else FindFirstNamespaced(fs[1..])
  }

  function RenamedPost(inner: FunctionContract): IrFormula {
    SubstFormula(inner.post, RESULT, Var(inner.ResultVarName()))
  }

  /** inner.pre, and inner's postcondition implies outer.pre of the value; outer.post of the value. */
  function Joined(outer: FunctionContract, innerPre: IrFormula, innerPost: IrFormula, value: IrTerm, formalIdx: nat,
                  components: seq<string>): Composed
    requires formalIdx < |outer.formals|
  {
    var formal := outer.formals[formalIdx];
    Composed(components, formalIdx,
             Connect(And, [innerPre, Connect(Implies, [innerPost, SubstFormula(outer.pre, formal, value)])]),
             SubstFormula(outer.post, formal, value))
  }

  function ComposeFunctionContracts(outer: FunctionContract, inner: FunctionContract,
                                    formalIdx: nat): Option<Composed> {
    if !outer.IsPure() || !inner.IsPure() || formalIdx >= |outer.formals| then None else
    match FindResultEquation(RenamedPost(inner), inner.ResultVarName())
    case None => None
    case Some(value) => Some(Joined(outer, inner.pre, RenamedPost(inner), value, formalIdx, [outer.cid, inner.cid]))
  }

  function ComposedResult(inner: Composed): Option<IrTerm> {
    var direct := FindResultEquation(inner.post, RESULT);
    if direct.Some? then direct else FindNamespacedResult(inner.post)
  }

  function ComposeWithComposed(outer: FunctionContract, inner: Composed, formalIdx: nat): Option<Composed> {
    if !outer.IsPure() || formalIdx >= |outer.formals| then None else
    match ComposedResult(inner)
    case None => None
    case Some(value) => Some(Joined(outer, inner.pre, inner.post, value, formalIdx, [outer.cid] + inner.components))
  }

  /** The chain from step i on, with everything before it composed. */
  function ChainFrom(steps: seq<ChainStep>, i: nat, acc: Composed): Outcome<Composed>
    requires 1 <= i <= |steps|
    decreases |steps| - i
  {
    if i == |steps| then Composition(acc) else
    var contract := steps[i].contract;
    if steps[i].formalIdx >= |contract.formals| then
      Failed(FormalIndexOutOfRange(i, steps[i].formalIdx, |contract.formals|, contract.cid))
    else
      match ComposeWithComposed(contract, acc, steps[i].formalIdx)
      case None => Failed(MissingResultEquation(i - 1, steps[i - 1].contract.cid))
      case Some(next) => ChainFrom(steps, i + 1, next)
  }

  predicate AllPure(steps: seq<ChainStep>) {
    forall i :: 0 <= i < |steps| ==> steps[i].contract.IsPure()
  }

  /** The first k steps composed. */
  function Prefix(steps: seq<ChainStep>, k: nat): Option<Composed>
    requires 2 <= k <= |steps|
  {
    if k == 2 then ComposeFunctionContracts(steps[1].contract, steps[0].contract, steps[1].formalIdx) else
    match Prefix(steps, k - 1)
    case None => None
    case Some(acc) => ComposeWithComposed(steps[k - 1].contract, acc, steps[k - 1].formalIdx)
  }

  /** The first k steps compose, so far as there is anything to compose. */
  predicate Composes(steps: seq<ChainStep>, k: nat)
    requires k <= |steps|
  {
    k >= 2 ==> Prefix(steps, k).Some?
  }

  /** What an error says about the steps. */
  predicate Blames(steps: seq<ChainStep>, error: CompositionError) {
    match error
    case ChainTooShort(len) => len == |steps| < 2
    case ImpureInput(i, cid) =>
      && |steps| >= 2 && i < |steps|
      && !steps[i].contract.IsPure() && cid == steps[i].contract.cid && AllPure(steps[..i])
    case FormalIndexOutOfRange(i, formalIdx, len, cid) =>
      && AllPure(steps) && 1 <= i < |steps| && Composes(steps, i)
      && formalIdx == steps[i].formalIdx >= len == |steps[i].contract.formals| && cid == steps[i].contract.cid
    case MissingResultEquation(i, cid) =>
      && AllPure(steps) && i + 1 < |steps| && Composes(steps, i + 1)
      && steps[i + 1].formalIdx < |steps[i + 1].contract.formals| && cid == steps[i].contract.cid
      && (i > 0 ==> ComposedResult(Prefix(steps, i + 1).value).None?)
      && (i == 0 ==> var inner := steps[0].contract;
                     inner.ResultValue().None? || FindResultEquation(RenamedPost(inner), inner.ResultVarName()).None?)
  }

  /** The components of the first k steps, the last one first, and the formal of the last. */
  predicate Lists(steps: seq<ChainStep>, k: nat, r: Composed)
    requires 0 < k <= |steps|
  {
    && |r.components| == k && (forall i :: 0 <= i < k ==> r.components[i] == steps[k - 1 - i].contract.cid)
    && r.formalIdx == steps[k - 1].formalIdx
  }

  method ComposeChain(steps: seq<ChainStep>) returns (r: Outcome<Composed>)
    ensures r.Composition? ==> Chained(steps, r.value) && Prefix(steps, |steps|) == Some(r.value)
    ensures r.Composition? ==> Lists(steps, |steps|, r.value)
    ensures r.Failed? ==> Blames(steps, r.error)
  {
    hide FindResultEquation, RenamedPost, ComposedResult, ComposeFunctionContracts, ComposeWithComposed;
    if |steps| < 2 {
      return Failed(ChainTooShort(|steps|));
    }
    for i := 0 to |steps|
      invariant forall j :: 0 <= j < i ==> steps[j].contract.IsPure()
    {
      if !steps[i].contract.IsPure() {
        return Failed(ImpureInput(i, steps[i].contract.cid));
      }
    }
    var second := steps[1].contract;
    if steps[1].formalIdx >= |second.formals| {
      return Failed(FormalIndexOutOfRange(1, steps[1].formalIdx, |second.formals|, second.cid));
    }
    if steps[0].contract.ResultValue().None? {
      return Failed(MissingResultEquation(0, steps[0].contract.cid));
    }
    var first := ComposeFunctionContracts(second, steps[0].contract, steps[1].formalIdx);
    if first.None? {
      NoFirst(second, steps[0].contract, steps[1].formalIdx);
      return Failed(MissingResultEquation(0, steps[0].contract.cid));
    }
    var acc := first.value;
    FirstLists(second, steps[0].contract, steps[1].formalIdx);
    for i := 2 to |steps|
      invariant ChainFrom(steps, i, acc) == ChainFrom(steps, 2, first.value) && Prefix(steps, i) == Some(acc)
      invariant Lists(steps, i, acc)
    {
      var contract := steps[i].contract;
      if steps[i].formalIdx >= |contract.formals| {
        return Failed(FormalIndexOutOfRange(i, steps[i].formalIdx, |contract.formals|, contract.cid));
      }
      var next := ComposeWithComposed(contract, acc, steps[i].formalIdx);
      if next.None? {
        NoNext(contract, acc, steps[i].formalIdx);
        return Failed(MissingResultEquation(i - 1, steps[i - 1].contract.cid));
      }
      NextLists(contract, acc, steps[i].formalIdx);
      acc := next.value;
    }
    return Composition(acc);
  }

  lemma {:induction false} FirstLists(outer: FunctionContract, inner: FunctionContract, formalIdx: nat)
    requires ComposeFunctionContracts(outer, inner, formalIdx).Some?
    ensures var c := ComposeFunctionContracts(outer, inner, formalIdx).value;
            c.components == [outer.cid, inner.cid] && c.formalIdx == formalIdx
  {
  }

  lemma {:induction false} NextLists(outer: FunctionContract, inner: Composed, formalIdx: nat)
    requires ComposeWithComposed(outer, inner, formalIdx).Some?
    ensures var c := ComposeWithComposed(outer, inner, formalIdx).value;
            c.components == [outer.cid] + inner.components && c.formalIdx == formalIdx
  {
  }

  lemma {:induction false} NoFirst(outer: FunctionContract, inner: FunctionContract, formalIdx: nat)
    requires outer.IsPure() && inner.IsPure() && formalIdx < |outer.formals|
    requires ComposeFunctionContracts(outer, inner, formalIdx).None?
    ensures FindResultEquation(RenamedPost(inner), inner.ResultVarName()).None?
  {
  }

  lemma {:induction false} NoNext(outer: FunctionContract, inner: Composed, formalIdx: nat)
    requires outer.IsPure() && formalIdx < |outer.formals| && ComposeWithComposed(outer, inner, formalIdx).None?
    ensures ComposedResult(inner).None?
  {
  }

  /** What a successful chain returns. */
  predicate Chained(steps: seq<ChainStep>, r: Composed) {
    && |steps| >= 2
    && AllPure(steps)
    && var first := ComposeFunctionContracts(steps[1].contract, steps[0].contract, steps[1].formalIdx);
       first.Some? && ChainFrom(steps, 2, first.value) == Composition(r)
  }

  // ---------- running a chain ----------

  /** The predicate "=" is equality. */
  ghost predicate Standard<V(!new)>(M: Model<V>) {
    forall a, b :: M.predicate_("=", [a, b]) <==> a == b
  }

  /** Step i sees the common environment with the previous result in its chosen formal. */
  ghost function StepEnv<V(!new)>(steps: seq<ChainStep>, i: nat, e: Env<V>, rs: seq<V>): Env<V>
    requires i < |steps| == |rs|
  {
    if i == 0 || steps[i].formalIdx >= |steps[i].contract.formals| then e
    else Assign(e, steps[i].contract.formals[steps[i].formalIdx], rs[i - 1])
  }

  ghost predicate PreMet<V(!new)>(M: Model<V>, steps: seq<ChainStep>, i: nat, e: Env<V>, rs: seq<V>)
    requires i < |steps| == |rs|
  {
    Holds(M, steps[i].contract.pre, StepEnv(steps, i, e, rs))
  }

  /** Step i, run with its precondition met, returns a result its postcondition allows. */
  ghost predicate Honoured<V(!new)>(M: Model<V>, steps: seq<ChainStep>, i: nat, e: Env<V>, rs: seq<V>)
    requires i < |steps| == |rs|
  {
    PreMet(M, steps, i, e, rs) ==> Holds(M, steps[i].contract.post, Assign(StepEnv(steps, i, e, rs), RESULT, rs[i]))
  }

  /** A composed precondition, for every value of its result variables. */
  ghost predicate ForAllResults<V(!new)>(M: Model<V>, pre: IrFormula, rho: Name, e: Env<V>) {
    forall a: V, b: V :: Holds(M, pre, Assign(Assign(e, rho, a), RESULT, b))
  }

  // ---------- hygiene ----------

  /** No result name in the precondition or among the formals; no namespaced one in the postcondition. */
  predicate CleanContract(c: FunctionContract, rho: Name) {
    && Plain(c.pre) && Plain(c.post)
    && RESULT !in FreeFormula(c.pre) && rho !in FreeFormula(c.pre) && rho !in FreeFormula(c.post)
    && RESULT !in c.formals && rho !in c.formals
  }

  /** Every later result is found directly, and its right side does not mention the result. */
  predicate CleanFrom(steps: seq<ChainStep>, i: nat, acc: Composed)
    requires 1 <= i <= |steps|
    decreases |steps| - i
  {
    i == |steps| ||
    (var value := FindResultEquation(acc.post, RESULT);
     var next := ComposeWithComposed(steps[i].contract, acc, steps[i].formalIdx);
     && value.Some? && RESULT !in FreeTerm(value.value)
     && (next.Some? ==> CleanFrom(steps, i + 1, next.value)))
  }

  predicate CleanChain(steps: seq<ChainStep>)
    requires |steps| >= 2
  {
    var rho := steps[0].contract.ResultVarName();
    var value := FindResultEquation(RenamedPost(steps[0].contract), rho);
    var first := ComposeFunctionContracts(steps[1].contract, steps[0].contract, steps[1].formalIdx);
    && (forall i :: 0 <= i < |steps| ==> CleanContract(steps[i].contract, rho))
    && (value.Some? ==> rho !in FreeTerm(value.value))
    && (first.Some? ==> CleanFrom(steps, 2, first.value))
  }

  // ---------- soundness ----------

  // A result equation that is found pins the value down.
  lemma {:induction false} EquationHolds<V(!new)>(M: Model<V>, f: IrFormula, x: Name, e: Env<V>)
    requires Standard(M) && FindResultEquation(f, x).Some? && Holds(M, f, e)
    ensures Lookup(M, e, x) == Eval(M, FindResultEquation(f, x).value, e)
    decreases FormulaSize(f), 0
  {
    match f
    case Atomic(_, args) =>
      assert args[1..][1..] == [];
      assert EvalAll(M, args[1..], e) == [Eval(M, args[1], e)];
      assert EvalAll(M, args, e) == [Eval(M, args[0], e), Eval(M, args[1], e)];
    case Connect(And, operands) => FirstEquationHolds(M, operands, x, e);
    case _ =>
  }

  lemma {:induction false} FirstEquationHolds<V(!new)>(M: Model<V>, fs: seq<IrFormula>, x: Name, e: Env<V>)
    requires Standard(M) && FindFirstEquation(fs, x).Some? && false !in HoldsAll(M, fs, e)
    ensures Lookup(M, e, x) == Eval(M, FindFirstEquation(fs, x).value, e)
    decreases FormulasSize(fs), 1
  {
    var bs := HoldsAll(M, fs, e);
    assert bs[0] in bs && bs[1..] == HoldsAll(M, fs[1..], e);
    if FindResultEquation(fs[0], x).Some? {
      EquationHolds(M, fs[0], x, e);
    } else {
      assert forall b :: b in bs[1..] ==> b in bs;
      FirstEquationHolds(M, fs[1..], x, e);
    }
  }

  lemma {:induction false} EquationParts(f: IrFormula, x: Name)
    requires Plain(f) && FindResultEquation(f, x).Some?
    ensures LetFreeTerm(FindResultEquation(f, x).value)
    ensures FreeTerm(FindResultEquation(f, x).value) <= FreeFormula(f)
    decreases FormulaSize(f), 0
  {
    match f
    case Atomic(_, args) =>
      assert args[0] in args && args[1] in args;
      assert FreeTerms(args) == FreeTerm(args[0]) + (FreeTerm(args[1..][0]) + FreeTerms(args[1..][1..]));
    case Connect(And, operands) => FirstEquationParts(operands, x);
    case _ =>
  }

  lemma {:induction false} FirstEquationParts(fs: seq<IrFormula>, x: Name)
    requires (forall f :: f in fs ==> Plain(f)) && FindFirstEquation(fs, x).Some?
    ensures LetFreeTerm(FindFirstEquation(fs, x).value)
    ensures FreeTerm(FindFirstEquation(fs, x).value) <= FreeFormulas(fs)
    decreases FormulasSize(fs), 1
  {
    assert fs[0] in fs;
    if FindResultEquation(fs[0], x).Some? {
      EquationParts(fs[0], x);
    } else {
      FirstEquationParts(fs[1..], x);
    }
  }

  // The joined precondition is the inner one, and the outer one wherever the inner postcondition holds.
  lemma {:induction false} JoinedPre<V(!new)>(M: Model<V>, a: IrFormula, b: IrFormula, c: IrFormula, e: Env<V>)
    ensures Holds(M, Connect(And, [a, Connect(Implies, [b, c])]), e) <==>
              Holds(M, a, e) && (Holds(M, b, e) ==> Holds(M, c, e))
  {
    PairHolds(M, b, c, e);
    PairHolds(M, a, Connect(Implies, [b, c]), e);
    var p, q, r := Holds(M, a, e), Holds(M, b, e), Holds(M, c, e);
    assert [q, r][..1] == [q];
    assert Holds(M, Connect(Implies, [b, c]), e) == Truth(Implies, [q, r]) == (q ==> r);
  }

  lemma {:induction false} PairHolds<V(!new)>(M: Model<V>, a: IrFormula, b: IrFormula, e: Env<V>)
    ensures HoldsAll(M, [a, b], e) == [Holds(M, a, e), Holds(M, b, e)]
  {
    assert [a, b][1..] == [b] && [b][1..] == [];
    assert HoldsAll(M, [b], e) == [Holds(M, b, e)];
  }

  /** Everything the first i steps establish. */
  ghost predicate Reached<V(!new)>(M: Model<V>, steps: seq<ChainStep>, i: nat, acc: Composed, rho: Name, e: Env<V>,
                                   rs: seq<V>)
    requires 1 <= i <= |steps| == |rs|
  {
    && Plain(acc.post) && rho !in FreeFormula(acc.post)
    && (ForAllResults(M, acc.pre, rho, e) && (forall j :: 0 <= j < i ==> Honoured(M, steps, j, e, rs)) ==>
          && (forall j :: 0 <= j < i ==> PreMet(M, steps, j, e, rs))
          && Holds(M, acc.post, Assign(e, RESULT, rs[i - 1])))
  }

  // The value found for a result makes the outer contract's substituted formula speak of that result.
  lemma {:induction false} ValueInFormal<V(!new)>(M: Model<V>, f: IrFormula, formal: Name, value: IrTerm, e: Env<V>,
                                                  r: V)
    requires Plain(f) && LetFreeTerm(value) && Eval(M, value, e) == r
    ensures Holds(M, SubstFormula(f, formal, value), e) == Holds(M, f, Assign(e, formal, r))
  {
    PlainSafe(f, formal, value);
    SubstHolds(M, f, formal, value, e);
  }

  /** One more step: the common part of the first composition and of every later one. */
  lemma {:induction false} JoinSound<V(!new)>(M: Model<V>, outer: FunctionContract, formal: Name, value: IrTerm,
                                              innerPre: IrFormula, innerPost: IrFormula, rho: Name, resultName: Name,
                                              e: Env<V>, r: V, r': V)
    requires CleanContract(outer, rho) && formal in outer.formals
    requires LetFreeTerm(value) && RESULT !in FreeTerm(value) && rho !in FreeTerm(value) && rho != RESULT
    requires resultName == rho || resultName == RESULT
    requires Holds(M, innerPost, Assign(e, resultName, r)) ==> Eval(M, value, Assign(e, resultName, r)) == r
    ensures Holds(M, Connect(And, [innerPre, Connect(Implies, [innerPost, SubstFormula(outer.pre, formal, value)])]),
                  Assign(e, resultName, r))
            && Holds(M, innerPost, Assign(e, resultName, r))
            ==> Holds(M, outer.pre, Assign(e, formal, r))
    ensures Eval(M, value, Assign(e, resultName, r)) == r
              && Holds(M, outer.post, Assign(Assign(e, formal, r), RESULT, r'))
            ==> Holds(M, SubstFormula(outer.post, formal, value), Assign(e, RESULT, r'))
  {
    hide Holds, Eval, SubstFormula, Plain, FreeFormula, FreeTerm;
    var h := Assign(e, resultName, r);
    var pre := SubstFormula(outer.pre, formal, value);
    if Holds(M, Connect(And, [innerPre, Connect(Implies, [innerPost, pre])]), h) && Holds(M, innerPost, h) {
      JoinedPre(M, innerPre, innerPost, pre, h);
      ValueInFormal(M, outer.pre, formal, value, h, r);
      HoldsAgree(M, outer.pre, Assign(h, formal, r), Assign(e, formal, r));
    }
    if Eval(M, value, h) == r && Holds(M, outer.post, Assign(Assign(e, formal, r), RESULT, r')) {
      var k := Assign(e, RESULT, r');
      EvalAgree(M, value, h, k);
      ValueInFormal(M, outer.post, formal, value, k, r);
      assert Assign(k, formal, r) == Assign(Assign(e, formal, r), RESULT, r');
    }
  }

  lemma {:induction false} FromAll<V(!new)>(M: Model<V>, pre: IrFormula, rho: Name, e: Env<V>, r: V)
    requires ForAllResults(M, pre, rho, e) && rho != RESULT
    ensures Holds(M, pre, e) && Holds(M, pre, Assign(e, rho, r)) && Holds(M, pre, Assign(e, RESULT, r))
  {
    var a, b := Lookup(M, e, rho), Lookup(M, e, RESULT);
    assert Holds(M, pre, Assign(Assign(e, rho, a), RESULT, b));
    HoldsAgree(M, pre, Assign(Assign(e, rho, a), RESULT, b), e);
    assert Holds(M, pre, Assign(Assign(e, rho, r), RESULT, b));
    HoldsAgree(M, pre, Assign(Assign(e, rho, r), RESULT, b), Assign(e, rho, r));
    assert Holds(M, pre, Assign(Assign(e, rho, a), RESULT, r));
    HoldsAgree(M, pre, Assign(Assign(e, rho, a), RESULT, r), Assign(e, RESULT, r));
  }

  lemma {:induction false} InnerForAll<V(!new)>(M: Model<V>, a: IrFormula, b: IrFormula, c: IrFormula, rho: Name,
                                                e: Env<V>)
    requires ForAllResults(M, Connect(And, [a, Connect(Implies, [b, c])]), rho, e)
    ensures ForAllResults(M, a, rho, e)
  {
    forall x: V, y: V
      ensures Holds(M, a, Assign(Assign(e, rho, x), RESULT, y))
    {
      var h := Assign(Assign(e, rho, x), RESULT, y);
      assert Holds(M, Connect(And, [a, Connect(Implies, [b, c])]), h);
      JoinedPre(M, a, b, c, h);
    }
  }

  lemma {:induction false} RenamedPostFacts(c: FunctionContract, rho: Name)
    requires CleanContract(c, rho) && rho == c.ResultVarName()
    requires FindResultEquation(RenamedPost(c), rho).Some?
    ensures rho != RESULT && Plain(RenamedPost(c))
    ensures var value := FindResultEquation(RenamedPost(c), rho).value;
            LetFreeTerm(value) && RESULT !in FreeTerm(value)
  {
    assert |rho| > |RESULT|;
    PlainSafe(c.post, RESULT, Var(rho));
    SubstFormulaFree(c.post, RESULT, Var(rho));
    EquationParts(RenamedPost(c), rho);
  }

  // The first two steps.
  lemma {:induction false} FirstSound<V(!new)>(M: Model<V>, steps: seq<ChainStep>, e: Env<V>, rs: seq<V>)
    requires |steps| == |rs| >= 2 && Standard(M) && CleanChain(steps)
    requires ComposeFunctionContracts(steps[1].contract, steps[0].contract, steps[1].formalIdx).Some?
    ensures var first := ComposeFunctionContracts(steps[1].contract, steps[0].contract, steps[1].formalIdx).value;
            Reached(M, steps, 2, first, steps[0].contract.ResultVarName(), e, rs)
  {
    hide Holds, Eval, SubstFormula, Plain, FreeFormula, FreeTerm, FindResultEquation, CleanFrom;
    var inner, outer := steps[0].contract, steps[1].contract;
    var rho := inner.ResultVarName();
    var acc := ComposeFunctionContracts(outer, inner, steps[1].formalIdx).value;
    var innerPost := RenamedPost(inner);
    var value := FindResultEquation(innerPost, rho).value;
    var formal := outer.formals[steps[1].formalIdx];
    RenamedPostFacts(inner, rho);
    PlainSafe(outer.post, formal, value);
    SubstFormulaFree(outer.post, formal, value);
    if ForAllResults(M, acc.pre, rho, e) && forall j :: 0 <= j < 2 ==> Honoured(M, steps, j, e, rs) {
      var h := Assign(e, rho, rs[0]);
      var outerPre := SubstFormula(outer.pre, formal, value);
      InnerForAll(M, inner.pre, innerPost, outerPre, rho, e);
      FromAll(M, inner.pre, rho, e, rs[0]);
      FromAll(M, acc.pre, rho, e, rs[0]);
      assert PreMet(M, steps, 0, e, rs) && Honoured(M, steps, 0, e, rs);
      PlainSafe(inner.post, RESULT, Var(rho));
      SubstHolds(M, inner.post, RESULT, Var(rho), h);
      assert Eval(M, Var(rho), h) == rs[0] by { VarValue(M, rho, h); }
      HoldsAgree(M, inner.post, Assign(h, RESULT, rs[0]), Assign(e, RESULT, rs[0]));
      assert Holds(M, innerPost, h);
      EquationHolds(M, innerPost, rho, h);
      JoinSound(M, outer, formal, value, inner.pre, innerPost, rho, rho, e, rs[0], rs[1]);
      assert PreMet(M, steps, 1, e, rs) && Honoured(M, steps, 1, e, rs);
    }
  }

  lemma {:induction false} VarValue<V(!new)>(M: Model<V>, x: Name, e: Env<V>)
    ensures Eval(M, Var(x), e) == Lookup(M, e, x)
  {
  }

  // Each further step.
  lemma {:induction false} StepSound<V(!new)>(M: Model<V>, steps: seq<ChainStep>, i: nat, acc: Composed, rho: Name,
                                              e: Env<V>, rs: seq<V>)
    requires 1 <= i < |steps| == |rs| && Standard(M) && rho != RESULT
    requires CleanContract(steps[i].contract, rho) && CleanFrom(steps, i, acc)
    requires Reached(M, steps, i, acc, rho, e, rs)
    requires ComposeWithComposed(steps[i].contract, acc, steps[i].formalIdx).Some?
    ensures Reached(M, steps, i + 1, ComposeWithComposed(steps[i].contract, acc, steps[i].formalIdx).value, rho, e, rs)
  {
    hide Holds, Eval, SubstFormula, Plain, FreeFormula, FreeTerm, FindResultEquation, FindNamespacedResult;
    var outer := steps[i].contract;
    var next := ComposeWithComposed(outer, acc, steps[i].formalIdx).value;
    var value := FindResultEquation(acc.post, RESULT).value;
    var formal := outer.formals[steps[i].formalIdx];
    EquationParts(acc.post, RESULT);
    PlainSafe(outer.post, formal, value);
    SubstFormulaFree(outer.post, formal, value);
    if ForAllResults(M, next.pre, rho, e) && forall j :: 0 <= j < i + 1 ==> Honoured(M, steps, j, e, rs) {
      var h := Assign(e, RESULT, rs[i - 1]);
      InnerForAll(M, acc.pre, acc.post, SubstFormula(outer.pre, formal, value), rho, e);
      FromAll(M, next.pre, rho, e, rs[i - 1]);
      EquationHolds(M, acc.post, RESULT, h);
      JoinSound(M, outer, formal, value, acc.pre, acc.post, rho, RESULT, e, rs[i - 1], rs[i]);
      assert PreMet(M, steps, i, e, rs) && Honoured(M, steps, i, e, rs);
    }
  }

  lemma {:induction false} FromSound<V(!new)>(M: Model<V>, steps: seq<ChainStep>, i: nat, acc: Composed, rho: Name,
                                              e: Env<V>, rs: seq<V>)
    requires 1 <= i <= |steps| == |rs| && Standard(M) && rho != RESULT
    requires (forall j :: 0 <= j < |steps| ==> CleanContract(steps[j].contract, rho)) && CleanFrom(steps, i, acc)
    requires Reached(M, steps, i, acc, rho, e, rs) && ChainFrom(steps, i, acc).Composition?
    ensures Reached(M, steps, |steps|, ChainFrom(steps, i, acc).value, rho, e, rs)
    decreases |steps| - i
  {
    if i < |steps| {
      StepSound(M, steps, i, acc, rho, e, rs);
      FromSound(M, steps, i + 1, ComposeWithComposed(steps[i].contract, acc, steps[i].formalIdx).value, rho, e, rs);
    }
  }

  // A composed chain is sound: if its precondition holds whatever the results are, and every step honours its
  // contract, then each step is run within its own precondition and the composed postcondition holds at the end.
  lemma {:induction false} ChainSound<V(!new)>(M: Model<V>, steps: seq<ChainStep>, r: Composed, e: Env<V>, rs: seq<V>)
    requires |steps| == |rs| >= 2 && Standard(M) && Chained(steps, r) && CleanChain(steps)
    requires ForAllResults(M, r.pre, steps[0].contract.ResultVarName(), e)
    requires forall i :: 0 <= i < |steps| ==> Honoured(M, steps, i, e, rs)
    ensures forall i :: 0 <= i < |steps| ==> PreMet(M, steps, i, e, rs)
    ensures Holds(M, r.post, Assign(e, RESULT, rs[|rs| - 1]))
  {
    hide Holds, FindResultEquation, Plain;
    var rho := steps[0].contract.ResultVarName();
    assert |rho| > |RESULT|;
    FirstSound(M, steps, e, rs);
    var first := ComposeFunctionContracts(steps[1].contract, steps[0].contract, steps[1].formalIdx).value;
    FromSound(M, steps, 2, first, rho, e, rs);
  }
}
