// The evaluator against Dijkstra's reading: a term denotes a predicate
// transformer over environments, and the formula wp(t, q) denotes the
// transformer of t applied to what q denotes.
module WpSound {
  import opened Wrappers
  import opened Ir
  import opened Substitution
  import opened Semantics
  import opened SubstLemma
  import opened WpEvaluator

  type Pred<!V(==,!new)> = iset<Env<V>>

  // ---------- the semantic side ----------

  /** The value of a term in value position. */
  ghost function Value<V(!new)>(M: Model<V>, R: Resolver, t: Term, e: Env<V>): V
    decreases Size(t), 0
  {
    match t
    case Variable(name) => Lookup(M, e, name)
    case Constant(value, sort) => M.constant(value, sort)
    case Unit => M.ctor("unit", [])
    case Op(_, name, args) =>
      var uninterpreted := M.ctor(name, Values(M, R, args, e));
      match R(name)
      case None => uninterpreted
      case Some(contract) =>
        match contract.ValueExpr()
        case None => uninterpreted
        case Some(expr) => Eval(M, expr, BindFormals(M, R, contract.slots, args, {}, e))
  }

  ghost function Values<V(!new)>(M: Model<V>, R: Resolver, ts: seq<Term>, e: Env<V>): seq<V>
    decreases Sizes(ts), 1
  {
    if ts == [] then [] else [Value(M, R, ts[0], e)] + Values(M, R, ts[1..], e)
  }

  /** The environment with every value-slot formal, but for the hidden ones, bound to the value of its argument. */
  ghost function BindFormals<V(!new)>(M: Model<V>, R: Resolver, slots: seq<SlotInfo>, args: seq<Term>,
                                      hidden: set<Name>, e: Env<V>): Env<V>
    decreases Sizes(args), 1
  {
    if slots == [] || args == [] then e else
    var rest := BindFormals(M, R, slots[1..], args[1..], hidden, e);
    if slots[0].kind == ValueSlot && slots[0].name !in hidden
    then Assign(rest, slots[0].name, Value(M, R, args[0], e))
    else rest
  }

  /** Every operation the value of t is computed with is within its precondition. */
  ghost predicate Defined<V(!new)>(M: Model<V>, R: Resolver, t: Term, e: Env<V>)
    decreases Size(t), 0
  {
    match t
    case Op(_, name, args) =>
      && AllDefined(M, R, args, e)
      && (R(name).Some? && Demands(R(name).value.pre) ==>
            Holds(M, R(name).value.pre.value, BindFormals(M, R, R(name).value.slots, args, {}, e)))
    case _ => true
  }

  /** There is a precondition to meet. One that is literally true asks for nothing. */
  predicate Demands(pre: Option<IrFormula>) {
    pre.Some? && pre.value != Atomic("true", [])
  }

  ghost predicate AllDefined<V(!new)>(M: Model<V>, R: Resolver, ts: seq<Term>, e: Env<V>)
    decreases Sizes(ts), 1
  {
    ts == [] || (Defined(M, R, ts[0], e) && AllDefined(M, R, ts[1..], e))
  }

  /** The same for the value slots of an operation. */
  ghost predicate SlotsDefined<V(!new)>(M: Model<V>, R: Resolver, slots: seq<SlotInfo>, args: seq<Term>, e: Env<V>) {
    slots == [] || args == [] ||
    ((slots[0].kind == ValueSlot ==> Defined(M, R, args[0], e)) && SlotsDefined(M, R, slots[1..], args[1..], e))
  }

  /** The states from which t establishes P. An operation without an authored rule demands its precondition and leaves
      the value of its result equation in the result variable. Read strictly, any operation also needs its value
      arguments defined. */
  ghost function Transformer<V(!new)>(M: Model<V>, R: Resolver, strict: bool, t: Term, P: Pred<V>): Pred<V>
    decreases Size(t), 0, 0
  {
    match t
    case Variable(_) => iset e: Env<V> | Assign(e, "result", Value(M, R, t, e)) in P
    case Constant(_, _) => iset e: Env<V> | Assign(e, "result", Value(M, R, t, e)) in P
    case Unit => P
    case Op(_, name, args) =>
      if R(name).None? then iset{} else
      var contract := R(name).value;
      iset e: Env<V> |
        && (strict ==> SlotsDefined(M, R, contract.slots, args, e))
        && if contract.wpRule.Some?
           then RuleHolds(M, R, strict, contract.wpRule.value, contract.slots, args, {}, P, e)
           else
             && contract.post.Some? && FindResultEquation(contract.post.value, contract.resultVar).Some?
             && (Demands(contract.pre) ==>
                   RuleHolds(M, R, strict, contract.pre.value, contract.slots, args, {}, P, e))
             && var value := FindResultEquation(contract.post.value, contract.resultVar).value;
                var v := Eval(M, value, BindFormals(M, R, contract.slots, args, {}, e));
                Assign(e, contract.resultVar, v) in P
  }

  /** A rule read as a transformer: formals denote their arguments' values in the current state and Q is P. A part
      without schema nodes is read as the formula it is. Around Q and the slots' transformers a binder ranges over the
      values of the program variable it names, hiding a formal of that name, and Substitute assigns. */
  ghost function RuleHolds<V(!new)>(M: Model<V>, R: Resolver, strict: bool, f: IrFormula, slots: seq<SlotInfo>,
                                    args: seq<Term>, hidden: set<Name>, P: Pred<V>, e: Env<V>): bool
    decreases Sizes(args), 1, FormulaSize(f), 0
  {
    if f == Atomic("Q", []) then e in P else
    if SchemaFree(f) then Holds(M, f, BindFormals(M, R, slots, args, hidden, e)) else
    match f
    case Atomic(_, _) => false
    case Connect(c, operands) => Truth(c, RuleHoldsAll(M, R, strict, operands, slots, args, hidden, P, e))
    case Bind(b, name, sort, body) =>
      Quantify(M, b, sort, RuleExtent(M, R, strict, body, name, slots, args, hidden + {name}, P, e))
    case Substitute(target, term, x) =>
      var v := Eval(M, term, BindFormals(M, R, slots, args, hidden, e));
      RuleHolds(M, R, strict, target, slots, args, hidden, P, Assign(e, x, v))
    case Apply(fn, fargs) =>
      if !IsSlotTransformer(fn) || |slots| != |args| then false else
      (match StmtArg(slots, args, fn[|SLOT_PREFIX|..])
       case None => false
       case Some(slotTerm) =>
         assert fargs != [] ==> FormulasSize(fargs) == FormulaSize(fargs[0]) + FormulasSize(fargs[1..]);
         var X := if fargs == [] then P else RulePred(M, R, strict, fargs[0], slots, args, hidden, P);
         e in Transformer(M, R, strict, slotTerm, X))
    case DivergenceBetween(source, dest) =>
      M.divergence(RuleHolds(M, R, strict, source, slots, args, hidden, P, e),
                   RuleHolds(M, R, strict, dest, slots, args, hidden, P, e))
  }

  ghost function RuleHoldsAll<V(!new)>(M: Model<V>, R: Resolver, strict: bool, fs: seq<IrFormula>, slots: seq<SlotInfo>,
                                       args: seq<Term>, hidden: set<Name>, P: Pred<V>, e: Env<V>): seq<bool>
    decreases Sizes(args), 1, FormulasSize(fs), 2
  {
    if fs == [] then [] else
    [RuleHolds(M, R, strict, fs[0], slots, args, hidden, P, e)]
    + RuleHoldsAll(M, R, strict, fs[1..], slots, args, hidden, P, e)
  }

  ghost function RulePred<V(!new)>(M: Model<V>, R: Resolver, strict: bool, f: IrFormula, slots: seq<SlotInfo>,
                                   args: seq<Term>, hidden: set<Name>, P: Pred<V>): Pred<V>
    decreases Sizes(args), 1, FormulaSize(f), 1
  {
    iset e: Env<V> | RuleHolds(M, R, strict, f, slots, args, hidden, P, e)
  }

  ghost function RuleExtent<V(!new)>(M: Model<V>, R: Resolver, strict: bool, body: IrFormula, name: Name,
                                     slots: seq<SlotInfo>, args: seq<Term>, hidden: set<Name>, P: Pred<V>,
                                     e: Env<V>): iset<V>
    decreases Sizes(args), 1, FormulaSize(body), 1
  {
    iset v: V | RuleHolds(M, R, strict, body, slots, args, hidden, P, Assign(e, name, v))
  }

  // So an operation is read as its rule, authored or synthesized.
  lemma {:induction false} OpIsRule<V(!new)>(M: Model<V>, R: Resolver, strict: bool, t: Term, P: Pred<V>, e: Env<V>)
    requires t.Op? && R(t.name).Some?
    ensures var contract := R(t.name).value;
            e in Transformer(M, R, strict, t, P) <==>
              && contract.Rule().Some?
              && (strict ==> SlotsDefined(M, R, contract.slots, t.args, e))
              && RuleHolds(M, R, strict, contract.Rule().value, contract.slots, t.args, {}, P, e)
  {
    hide SlotsDefined, Eval, BindFormals, FindResultEquation;
    var contract := R(t.name).value;
    if contract.wpRule.None? && contract.ValueExpr().Some? {
      var value := contract.ValueExpr().value;
      var assigns := Substitute(Placeholder(), value, contract.resultVar);
      AssignsHolds(M, R, strict, value, contract.resultVar, contract.slots, t.args, P, e);
      if contract.Guarded() {
        var pre := contract.pre.value;
        assert contract.Rule() == Some(Connect(And, [pre, assigns]));
        BothHold(M, R, strict, pre, assigns, contract.slots, t.args, P, e);
      }
    }
  }

  lemma {:induction false} AssignsHolds<V(!new)>(M: Model<V>, R: Resolver, strict: bool, value: IrTerm, x: Name,
                                                 slots: seq<SlotInfo>, args: seq<Term>, P: Pred<V>, e: Env<V>)
    ensures RuleHolds(M, R, strict, Substitute(Placeholder(), value, x), slots, args, {}, P, e) <==>
              Assign(e, x, Eval(M, value, BindFormals(M, R, slots, args, {}, e))) in P
  {
    hide Eval, BindFormals;
    var e' := Assign(e, x, Eval(M, value, BindFormals(M, R, slots, args, {}, e)));
    assert RuleHolds(M, R, strict, Placeholder(), slots, args, {}, P, e') <==> e' in P;
    assert !SchemaFree(Substitute(Placeholder(), value, x));
  }

  lemma {:induction false} BothHold<V(!new)>(M: Model<V>, R: Resolver, strict: bool, f: IrFormula, g: IrFormula,
                                             slots: seq<SlotInfo>, args: seq<Term>, P: Pred<V>, e: Env<V>)
    requires !SchemaFree(g)
    ensures RuleHolds(M, R, strict, Connect(And, [f, g]), slots, args, {}, P, e) <==>
              && RuleHolds(M, R, strict, f, slots, args, {}, P, e)
              && RuleHolds(M, R, strict, g, slots, args, {}, P, e)
  {
    hide BindFormals;
    var fs := [f, g];
    assert g in fs && fs[1..] == [g] && fs[1..][1..] == [];
    var a, b := RuleHolds(M, R, strict, f, slots, args, {}, P, e), RuleHolds(M, R, strict, g, slots, args, {}, P, e);
    assert RuleHoldsAll(M, R, strict, fs[1..][1..], slots, args, {}, P, e) == [];
    assert RuleHoldsAll(M, R, strict, fs[1..], slots, args, {}, P, e) == [b];
    assert RuleHoldsAll(M, R, strict, fs, slots, args, {}, P, e) == [a, b];
    assert [a, b][0] == a && [a, b][1] == b;
  }

  /** What a formula denotes. */
  ghost function Meaning<V(!new)>(M: Model<V>, q: IrFormula): Pred<V> {
    iset e: Env<V> | Holds(M, q, e)
  }

  // ---------- hygiene ----------

  /** No later formal is free in an earlier value, unless it is substituted by itself. */
  predicate InOrder(ss: seq<Subst>) {
    forall i, j :: 0 <= i < j < |ss| && ss[j].formal in FreeTerm(ss[i].value) ==> ss[j].value == Var(ss[j].formal)
  }

  /** No operation the value of t is computed with has a precondition to lose. */
  predicate Unguarded(t: Term, R: Resolver)
    decreases Size(t), 0
  {
    match t
    case Op(_, name, args) => AllUnguarded(args, R) && (R(name).Some? ==> !R(name).value.Guarded())
    case _ => true
  }

  predicate AllUnguarded(ts: seq<Term>, R: Resolver)
    decreases Sizes(ts), 1
  {
    ts == [] || (Unguarded(ts[0], R) && AllUnguarded(ts[1..], R))
  }

  /** The same for everything in value position of a statement. */
  predicate ValuesUnguarded(t: Term, R: Resolver)
    decreases Size(t), 0
  {
    t.Op? && R(t.name).Some? ==> SlotsUnguarded(R(t.name).value.slots, t.args, R)
  }

  predicate SlotsUnguarded(slots: seq<SlotInfo>, args: seq<Term>, R: Resolver)
    decreases Sizes(args), 1
  {
    slots == [] || args == [] ||
    ((if slots[0].kind == ValueSlot then Unguarded(args[0], R) else ValuesUnguarded(args[0], R))
     && SlotsUnguarded(slots[1..], args[1..], R))
  }

  lemma {:induction false} UnguardedDefined<V(!new)>(M: Model<V>, R: Resolver, t: Term, e: Env<V>)
    requires Unguarded(t, R)
    ensures Defined(M, R, t, e)
    decreases Size(t), 0
  {
    match t
    case Op(_, _, args) => AllUnguardedDefined(M, R, args, e);
    case _ =>
  }

  lemma {:induction false} AllUnguardedDefined<V(!new)>(M: Model<V>, R: Resolver, ts: seq<Term>, e: Env<V>)
    requires AllUnguarded(ts, R)
    ensures AllDefined(M, R, ts, e)
    decreases Sizes(ts), 1
  {
    if ts != [] {
      UnguardedDefined(M, R, ts[0], e);
      AllUnguardedDefined(M, R, ts[1..], e);
    }
  }

  lemma {:induction false} SlotsUnguardedDefined<V(!new)>(M: Model<V>, R: Resolver, slots: seq<SlotInfo>,
                                                          args: seq<Term>, e: Env<V>)
    requires SlotsUnguarded(slots, args, R)
    ensures SlotsDefined(M, R, slots, args, e)
  {
    if slots != [] && args != [] {
      if slots[0].kind == ValueSlot {
        UnguardedDefined(M, R, args[0], e);
      }
      SlotsUnguardedDefined(M, R, slots[1..], args[1..], e);
    }
  }

  predicate LetFreeValues(ss: seq<Subst>) {
    forall a :: a in ss ==> LetFreeTerm(a.value)
  }

  /** Value position: at every op the formals may be substituted in order, and no let occurs. */
  predicate CleanValue(t: Term, R: Resolver)
    decreases Size(t), 0
  {
    match t
    case Op(_, name, args) =>
      && CleanValues(args, R)
      && (R(name).Some? && |R(name).value.slots| == |args| && ValueExprs(args, R).Ok? ==>
            var expr := R(name).value.ValueExpr();
            expr.Some? ==>
              && LetFreeTerm(expr.value)
              && InOrder(ValueSubsts(R(name).value.slots, ValueExprs(args, R).value)))
    case _ => true
  }

  predicate CleanValues(ts: seq<Term>, R: Resolver)
    decreases Sizes(ts), 1
  {
    ts == [] || (CleanValue(ts[0], R) && CleanValues(ts[1..], R))
  }

  /** The substitutions of the formals that are not hidden. */
  function Visible(ss: seq<Subst>, hidden: set<Name>): (r: seq<Subst>)
    ensures forall a :: a in r <==> a in ss && a.formal !in hidden
  {
    if ss == [] then []
    else if ss[0].formal in hidden then Visible(ss[1..], hidden)
    else [ss[0]] + Visible(ss[1..], hidden)
  }

  /** A binder stays as it is: no value that is substituted under it has its name free. */
  predicate Untouched(name: Name, ss: seq<Subst>) {
    forall a :: a in ss ==> a.formal == name || name !in FreeTerm(a.value)
  }

  /** No let occurs, and the binders around schema nodes stay as they are. */
  predicate CleanRule(f: IrFormula, ss: seq<Subst>) {
    if SchemaFree(f) then Plain(f) else
    match f
    case Atomic(_, _) => true
    case Connect(_, operands) => forall o :: o in operands ==> CleanRule(o, ss)
    case Bind(_, name, _, body) => Untouched(name, ss) && CleanRule(body, Visible(ss, {name}))
    case Substitute(target, term, _) => CleanRule(target, ss) && LetFreeTerm(term)
    case Apply(_, fargs) => forall o :: o in fargs ==> CleanRule(o, ss)
    case DivergenceBetween(source, dest) => CleanRule(source, ss) && CleanRule(dest, ss)
  }

  predicate Clean(t: Term, R: Resolver)
    decreases Size(t), 0
  {
    match t
    case Op(_, name, args) =>
      R(name).Some? && |R(name).value.slots| == |args| ==>
        var contract := R(name).value;
        && CleanArgs(contract.slots, args, R)
        && (SlotSubsts(contract.slots, args, R).Ok? ==>
              var ss := SlotSubsts(contract.slots, args, R).value;
              InOrder(ss) && (contract.Rule().Some? ==> CleanRule(contract.Rule().value, ss)))
    case _ => true
  }

  predicate CleanArgs(slots: seq<SlotInfo>, args: seq<Term>, R: Resolver)
    requires |slots| == |args|
    decreases Sizes(args), 1
  {
    slots == [] ||
    ((if slots[0].kind == ValueSlot then CleanValue(args[0], R) else Clean(args[0], R))
      && CleanArgs(slots[1..], args[1..], R))
  }

  // ---------- values ----------

  /** Every formal bound, the first substitution outermost. */
  ghost function BindAll<V(!new)>(M: Model<V>, ss: seq<Subst>, e: Env<V>): Env<V> {
    if ss == [] then e else Assign(BindAll(M, ss[1..], e), ss[0].formal, Eval(M, ss[0].value, e))
  }

  lemma {:induction false} BindAllElsewhere<V(!new)>(M: Model<V>, ss: seq<Subst>, e: Env<V>, x: Name)
    requires forall a :: a in ss && a.formal == x ==> a.value == Var(x)
    ensures Lookup(M, BindAll(M, ss, e), x) == Lookup(M, e, x)
  {
    if ss != [] {
      assert ss[0] in ss;
      BindAllElsewhere(M, ss[1..], e, x);
    }
  }

  lemma {:induction false} InOrderTail(ss: seq<Subst>)
    requires ss != [] && InOrder(ss)
    ensures InOrder(ss[1..])
  {
  }

  lemma {:induction false} LaterIsSelf(ss: seq<Subst>, x: Name)
    requires ss != [] && InOrder(ss) && x in FreeTerm(ss[0].value)
    ensures forall a :: a in ss[1..] && a.formal == x ==> a.value == Var(x)
  {
    forall a | a in ss[1..] && a.formal == x
      ensures a.value == Var(x)
    {
      var j :| 0 <= j < |ss[1..]| && ss[1..][j] == a;
      assert ss[j + 1] == a;
    }
  }

  lemma {:induction false} InstantiateEval<V(!new)>(M: Model<V>, t: IrTerm, ss: seq<Subst>, e: Env<V>)
    requires LetFreeTerm(t) && LetFreeValues(ss) && InOrder(ss)
    ensures LetFreeTerm(InstantiateTerm(t, ss))
    ensures Eval(M, InstantiateTerm(t, ss), e) == Eval(M, t, BindAll(M, ss, e))
    decreases ss
  {
    hide SubstTerm, Eval, FreeTerm;
    if ss != [] {
      var s := ss[0];
      assert s in ss;
      assert forall a :: a in ss[1..] ==> a in ss;
      LetFreeSafe(t, s.formal, s.value);
      InOrderTail(ss);
      InstantiateEval(M, SubstTerm(t, s.formal, s.value), ss[1..], e);
      var h := BindAll(M, ss[1..], e);
      SubstEval(M, t, s.formal, s.value, h);
      forall x | x in FreeTerm(s.value)
        ensures Lookup(M, h, x) == Lookup(M, e, x)
      {
        LaterIsSelf(ss, x);
        BindAllElsewhere(M, ss[1..], e, x);
      }
      EvalAgree(M, s.value, h, e);
    }
  }

  lemma {:induction false} ValueSound<V(!new)>(M: Model<V>, t: Term, R: Resolver, e: Env<V>)
    requires ValueExprOfTerm(t, R).Ok? && CleanValue(t, R)
    ensures LetFreeTerm(ValueExprOfTerm(t, R).value)
    ensures Eval(M, ValueExprOfTerm(t, R).value, e) == Value(M, R, t, e)
    decreases Size(t), 0
  {
    match t
    case Op(_, name, args) =>
      ValuesSound(M, args, R, e);
      if R(name).Some? && R(name).value.ValueExpr().Some? {
        var contract := R(name).value;
        var vs := ValueExprs(args, R).value;
        BindValues(M, contract.slots, args, R, vs, e);
        InstantiateEval(M, contract.ValueExpr().value, ValueSubsts(contract.slots, vs), e);
      }
    case _ =>
  }

  lemma {:induction false} ValuesSound<V(!new)>(M: Model<V>, ts: seq<Term>, R: Resolver, e: Env<V>)
    requires ValueExprs(ts, R).Ok? && CleanValues(ts, R)
    ensures forall v :: v in ValueExprs(ts, R).value ==> LetFreeTerm(v)
    ensures EvalAll(M, ValueExprs(ts, R).value, e) == Values(M, R, ts, e)
    decreases Sizes(ts), 1
  {
    if ts != [] {
      ValueSound(M, ts[0], R, e);
      ValuesSound(M, ts[1..], R, e);
      var vs := ValueExprs(ts, R).value;
      assert vs[1..] == ValueExprs(ts[1..], R).value;
    }
  }

  lemma {:induction false} BindValues<V(!new)>(M: Model<V>, slots: seq<SlotInfo>, args: seq<Term>, R: Resolver,
                                               vs: seq<IrTerm>, e: Env<V>)
    requires |slots| == |args| == |vs| && EvalAll(M, vs, e) == Values(M, R, args, e)
    requires forall v :: v in vs ==> LetFreeTerm(v)
    ensures LetFreeValues(ValueSubsts(slots, vs))
    ensures BindAll(M, ValueSubsts(slots, vs), e) == BindFormals(M, R, slots, args, {}, e)
  {
    hide Eval, Value;
    if slots != [] {
      assert EvalAll(M, vs, e) == [Eval(M, vs[0], e)] + EvalAll(M, vs[1..], e);
      assert Values(M, R, args, e) == [Value(M, R, args[0], e)] + Values(M, R, args[1..], e);
      assert EvalAll(M, vs, e)[1..] == EvalAll(M, vs[1..], e);
      assert Values(M, R, args, e)[1..] == Values(M, R, args[1..], e);
      assert EvalAll(M, vs, e)[0] == Values(M, R, args, e)[0];
      BindValues(M, slots[1..], args[1..], R, vs[1..], e);
      var rest := ValueSubsts(slots[1..], vs[1..]);
      if slots[0].kind == ValueSlot {
        assert ([Subst(slots[0].name, vs[0])] + rest)[1..] == rest;
      }
    }
  }

  lemma {:induction false} SlotsSound<V(!new)>(M: Model<V>, slots: seq<SlotInfo>, args: seq<Term>, R: Resolver,
                                               hidden: set<Name>, e: Env<V>)
    requires |slots| == |args| && SlotSubsts(slots, args, R).Ok? && CleanArgs(slots, args, R)
    ensures LetFreeValues(SlotSubsts(slots, args, R).value)
    ensures BindAll(M, Visible(SlotSubsts(slots, args, R).value, hidden), e)
              == BindFormals(M, R, slots, args, hidden, e)
  {
    hide Eval, Value;
    if slots != [] {
      SlotsSound(M, slots[1..], args[1..], R, hidden, e);
      var ss := SlotSubsts(slots, args, R).value;
      if slots[0].kind == ValueSlot {
        ValueSound(M, args[0], R, e);
        assert ss[1..] == SlotSubsts(slots[1..], args[1..], R).value;
        if slots[0].name !in hidden {
          assert Visible(ss, hidden)[1..] == Visible(ss[1..], hidden);
        }
      }
    }
  }

  // ---------- hiding ----------

  lemma {:induction false} NothingHidden(ss: seq<Subst>)
    ensures Visible(ss, {}) == ss
  {
    if ss != [] {
      NothingHidden(ss[1..]);
    }
  }

  lemma {:induction false} HiddenMore(ss: seq<Subst>, hidden: set<Name>, name: Name)
    ensures Visible(Visible(ss, hidden), {name}) == Visible(ss, hidden + {name})
  {
    if ss != [] {
      HiddenMore(ss[1..], hidden, name);
      if ss[0].formal !in hidden {
        assert Visible(ss, hidden)[1..] == Visible(ss[1..], hidden);
      }
    }
  }

  lemma {:induction false} VisibleInOrder(ss: seq<Subst>, hidden: set<Name>)
    requires InOrder(ss)
    ensures InOrder(Visible(ss, hidden))
  {
    if ss != [] {
      InOrderTail(ss);
      VisibleInOrder(ss[1..], hidden);
      if ss[0].formal !in hidden {
        var rest := Visible(ss[1..], hidden);
        forall j | 0 <= j < |rest| && rest[j].formal in FreeTerm(ss[0].value)
          ensures rest[j].value == Var(rest[j].formal)
        {
          assert rest[j] in rest;
          LaterIsSelf(ss, rest[j].formal);
        }
        InOrderCons(ss[0], rest);
      }
    }
  }

  lemma {:induction false} InOrderCons(s: Subst, rest: seq<Subst>)
    requires InOrder(rest)
    requires forall j :: 0 <= j < |rest| && rest[j].formal in FreeTerm(s.value) ==> rest[j].value == Var(rest[j].formal)
    ensures InOrder([s] + rest)
  {
  }

  // ---------- instantiating a rule goes under every constructor ----------

  function InstantiateTerms(ts: seq<IrTerm>, ss: seq<Subst>): (us: seq<IrTerm>)
    ensures |us| == |ts|
    decreases ss
  {
    if ss == [] then ts else InstantiateTerms(SubstTerms(ts, ss[0].formal, ss[0].value), ss[1..])
  }

  function InstantiateFormulas(fs: seq<IrFormula>, ss: seq<Subst>): (gs: seq<IrFormula>)
    ensures |gs| == |fs|
    decreases ss
  {
    if ss == [] then fs else InstantiateFormulas(SubstFormulas(fs, ss[0].formal, ss[0].value), ss[1..])
  }

  lemma {:induction false} UnderAtomic(name: Name, ts: seq<IrTerm>, ss: seq<Subst>)
    ensures InstantiateFormula(Atomic(name, ts), ss) == Atomic(name, InstantiateTerms(ts, ss))
    decreases ss
  {
    if ss != [] {
      UnderAtomic(name, SubstTerms(ts, ss[0].formal, ss[0].value), ss[1..]);
    }
  }

  lemma {:induction false} UnderConnect(c: Connective, fs: seq<IrFormula>, ss: seq<Subst>)
    ensures InstantiateFormula(Connect(c, fs), ss) == Connect(c, InstantiateFormulas(fs, ss))
    decreases ss
  {
    if ss != [] {
      UnderConnect(c, SubstFormulas(fs, ss[0].formal, ss[0].value), ss[1..]);
    }
  }

  lemma {:induction false} UnderApply(fn: Name, fs: seq<IrFormula>, ss: seq<Subst>)
    ensures InstantiateFormula(Apply(fn, fs), ss) == Apply(fn, InstantiateFormulas(fs, ss))
    decreases ss
  {
    if ss != [] {
      UnderApply(fn, SubstFormulas(fs, ss[0].formal, ss[0].value), ss[1..]);
    }
  }

  // An untouched binder is passed through without renaming; a formal of its name is hidden below it.
  lemma {:induction false} UnderBind(b: Binder, name: Name, sort: Sort, body: IrFormula, ss: seq<Subst>)
    requires Untouched(name, ss)
    ensures InstantiateFormula(Bind(b, name, sort, body), ss)
         == Bind(b, name, sort, InstantiateFormula(body, Visible(ss, {name})))
    decreases ss
  {
    if ss != [] {
      assert ss[0] in ss && forall a :: a in ss[1..] ==> a in ss;
      var f, v := ss[0].formal, ss[0].value;
      if f == name {
        assert SubstFormula(Bind(b, name, sort, body), f, v) == Bind(b, name, sort, body);
        UnderBind(b, name, sort, body, ss[1..]);
      } else {
        assert SubstFormula(Bind(b, name, sort, body), f, v) == Bind(b, name, sort, SubstFormula(body, f, v));
        UnderBind(b, name, sort, SubstFormula(body, f, v), ss[1..]);
        assert Visible(ss, {name})[1..] == Visible(ss[1..], {name});
      }
    }
  }

  lemma {:induction false} UnderSubstitute(target: IrFormula, term: IrTerm, x: Name, ss: seq<Subst>)
    ensures InstantiateFormula(Substitute(target, term, x), ss)
         == Substitute(InstantiateFormula(target, ss), InstantiateTerm(term, ss), x)
    decreases ss
  {
    if ss != [] {
      UnderSubstitute(SubstFormula(target, ss[0].formal, ss[0].value), SubstTerm(term, ss[0].formal, ss[0].value), x,
        ss[1..]);
    }
  }

  lemma {:induction false} UnderDivergence(f: IrFormula, g: IrFormula, ss: seq<Subst>)
    ensures InstantiateFormula(DivergenceBetween(f, g), ss)
         == DivergenceBetween(InstantiateFormula(f, ss), InstantiateFormula(g, ss))
    decreases ss
  {
    if ss != [] {
      UnderDivergence(SubstFormula(f, ss[0].formal, ss[0].value), SubstFormula(g, ss[0].formal, ss[0].value), ss[1..]);
    }
  }

  lemma {:induction false} InstantiateCons(fs: seq<IrFormula>, ss: seq<Subst>)
    requires fs != []
    ensures InstantiateFormulas(fs, ss)[0] == InstantiateFormula(fs[0], ss)
    ensures InstantiateFormulas(fs, ss)[1..] == InstantiateFormulas(fs[1..], ss)
    decreases ss
  {
    if ss != [] {
      var gs := SubstFormulas(fs, ss[0].formal, ss[0].value);
      assert gs[1..] == SubstFormulas(fs[1..], ss[0].formal, ss[0].value);
      InstantiateCons(gs, ss[1..]);
    }
  }

  lemma {:induction false} InstantiatePlaceholder(ss: seq<Subst>)
    ensures InstantiateFormula(Placeholder(), ss) == Placeholder()
    decreases ss
  {
    if ss != [] {
      InstantiatePlaceholder(ss[1..]);
    }
  }

  // ---------- parts without schema nodes ----------

  lemma {:induction false} InstantiateHolds<V(!new)>(M: Model<V>, f: IrFormula, ss: seq<Subst>, e: Env<V>)
    requires Plain(f) && LetFreeValues(ss) && InOrder(ss)
    ensures Plain(InstantiateFormula(f, ss))
    ensures Holds(M, InstantiateFormula(f, ss), e) == Holds(M, f, BindAll(M, ss, e))
    decreases ss
  {
    hide SubstFormula, Holds, Eval, FreeTerm, SafeFormula, Plain;
    if ss != [] {
      var s := ss[0];
      assert s in ss;
      assert forall a :: a in ss[1..] ==> a in ss;
      PlainSafe(f, s.formal, s.value);
      InOrderTail(ss);
      InstantiateHolds(M, SubstFormula(f, s.formal, s.value), ss[1..], e);
      var h := BindAll(M, ss[1..], e);
      SubstHolds(M, f, s.formal, s.value, h);
      forall x | x in FreeTerm(s.value)
        ensures Lookup(M, h, x) == Lookup(M, e, x)
      {
        LaterIsSelf(ss, x);
        BindAllElsewhere(M, ss[1..], e, x);
      }
      EvalAgree(M, s.value, h, e);
    }
  }

  lemma {:induction false} InstantiateSchemaFree(f: IrFormula, ss: seq<Subst>)
    requires SchemaFree(f)
    ensures SchemaFree(InstantiateFormula(f, ss))
    decreases ss
  {
    if ss != [] {
      SubstSchemaFree(f, ss[0].formal, ss[0].value);
      InstantiateSchemaFree(SubstFormula(f, ss[0].formal, ss[0].value), ss[1..]);
    }
  }

  lemma {:induction false} ReduceSame(f: IrFormula, q: IrFormula, slots: seq<SlotInfo>, args: seq<Term>, op: Name,
                                      R: Resolver)
    requires SchemaFree(f) && |slots| == |args|
    ensures Reduce(f, q, slots, args, op, R) == Ok(f)
    decreases FormulaSize(f), 0
  {
    match f
    case Connect(_, operands) => ReduceEachSame(operands, q, slots, args, op, R);
    case Bind(_, _, _, body) => ReduceSame(body, q, slots, args, op, R);
    case DivergenceBetween(source, dest) =>
      ReduceSame(source, q, slots, args, op, R);
      ReduceSame(dest, q, slots, args, op, R);
    case _ =>
  }

  lemma {:induction false} ReduceEachSame(fs: seq<IrFormula>, q: IrFormula, slots: seq<SlotInfo>, args: seq<Term>,
                                          op: Name, R: Resolver)
    requires (forall f :: f in fs ==> SchemaFree(f)) && |slots| == |args|
    ensures ReduceEach(fs, q, slots, args, op, R) == Ok(fs)
    decreases FormulasSize(fs), 1
  {
    if fs != [] {
      ReduceSame(fs[0], q, slots, args, op, R);
      ReduceEachSame(fs[1..], q, slots, args, op, R);
      assert [fs[0]] + fs[1..] == fs;
    }
  }

  // ---------- the theorem ----------

  /** What the lemmas below assume of the op whose rule is being reduced. */
  ghost predicate AtOp(slots: seq<SlotInfo>, args: seq<Term>, R: Resolver, strict: bool, hidden: set<Name>,
                       ss: seq<Subst>)
  {
    && |slots| == |args|
    && SlotSubsts(slots, args, R).Ok?
    && ss == Visible(SlotSubsts(slots, args, R).value, hidden)
    && CleanArgs(slots, args, R)
    && InOrder(ss)
    && (strict ==> SlotsUnguarded(slots, args, R))
  }

  lemma {:induction false} AtOpUnder(slots: seq<SlotInfo>, args: seq<Term>, R: Resolver, strict: bool,
                                     hidden: set<Name>, ss: seq<Subst>, name: Name)
    requires AtOp(slots, args, R, strict, hidden, ss)
    ensures AtOp(slots, args, R, strict, hidden + {name}, Visible(ss, {name}))
  {
    HiddenMore(SlotSubsts(slots, args, R).value, hidden, name);
    VisibleInOrder(ss, {name});
  }

  // wp(t, q) holds exactly where the transformer of t, applied to the meaning of q, does.
  lemma {:induction false} WpMeaning<V(!new)>(M: Model<V>, R: Resolver, strict: bool, t: Term, q: IrFormula)
    requires Wp(t, q, R).Ok? && Clean(t, R) && Plain(q) && (strict ==> ValuesUnguarded(t, R))
    ensures Plain(Wp(t, q, R).value)
    ensures Meaning(M, Wp(t, q, R).value) == Transformer(M, R, strict, t, Meaning(M, q))
    decreases Size(t), 0, 0
  {
    hide InstantiateFormula, CleanArgs, BindFormals, SlotSubsts, FreeTerm, SubstFormula, RuleHolds;
    match t
    case Variable(name) => LeafMeaning(M, R, t, q, Var(name));
    case Constant(value, sort) => LeafMeaning(M, R, t, q, Const(value, sort));
    case Unit =>
    case Op(_, name, args) =>
      var contract := R(name).value;
      var rule := contract.Rule().value;
      var ss := SlotSubsts(contract.slots, args, R).value;
      var w := Wp(t, q, R).value;
      NothingHidden(ss);
      RuleMeaning(M, R, strict, rule, contract.slots, args, {}, name, ss, q);
      if strict {
        forall e: Env<V>
          ensures SlotsDefined(M, R, contract.slots, args, e)
        {
          SlotsUnguardedDefined(M, R, contract.slots, args, e);
        }
      }
      forall e: Env<V>
        ensures e in Transformer(M, R, strict, t, Meaning(M, q)) <==>
                  RuleHolds(M, R, strict, rule, contract.slots, args, {}, Meaning(M, q), e)
      {
        OpIsRule(M, R, strict, t, Meaning(M, q), e);
      }
  }

  lemma {:induction false} LeafMeaning<V(!new)>(M: Model<V>, R: Resolver, t: Term, q: IrFormula, r: IrTerm)
    requires Plain(q) && LetFreeTerm(r)
    requires forall e: Env<V> :: Eval(M, r, e) == Value(M, R, t, e)
    ensures Plain(SubstFormula(q, RESULT, r))
    ensures Meaning(M, SubstFormula(q, RESULT, r))
              == iset e: Env<V> | Assign(e, RESULT, Value(M, R, t, e)) in Meaning(M, q)
  {
    PlainSafe(q, RESULT, r);
    forall e: Env<V>
      ensures Holds(M, SubstFormula(q, RESULT, r), e) == Holds(M, q, Assign(e, RESULT, Value(M, R, t, e)))
    {
      SubstHolds(M, q, RESULT, r, e);
    }
  }

  // A reduced rule denotes the rule read as a transformer.
  lemma {:induction false} RuleMeaning<V(!new)>(M: Model<V>, R: Resolver, strict: bool, f: IrFormula,
                                                slots: seq<SlotInfo>, args: seq<Term>, hidden: set<Name>, op: Name,
                                                ss: seq<Subst>, q: IrFormula)
    requires AtOp(slots, args, R, strict, hidden, ss) && CleanRule(f, ss) && Plain(q)
    requires Reduce(InstantiateFormula(f, ss), q, slots, args, op, R).Ok?
    ensures var w := Reduce(InstantiateFormula(f, ss), q, slots, args, op, R).value;
            Plain(w) && Meaning(M, w) == RulePred(M, R, strict, f, slots, args, hidden, Meaning(M, q))
    decreases Sizes(args), 1, FormulaSize(f), 0
  {
    hide Eval, EvalAll, InstantiateFormula, InstantiateTerm, CleanArgs, BindFormals, SlotSubsts, InOrder, Wp,
         Transformer, FreeTerm, SubstFormula, Clean, Visible, AtOp, Untouched, Holds, HoldsAll, RuleHoldsAll;
    var g := InstantiateFormula(f, ss);
    var P := Meaning(M, q);
    AtOpLengths(slots, args, R, strict, hidden, ss);
    if f == Placeholder() {
      InstantiatePlaceholder(ss);
    } else if SchemaFree(f) {
      PureMeaning(M, R, strict, f, slots, args, hidden, op, ss, q);
    } else {
      var w := Reduce(g, q, slots, args, op, R).value;
      match f
      case Connect(c, operands) =>
        UnderConnect(c, operands, ss);
        forall e: Env<V>
          ensures HoldsAll(M, w.operands, e) == RuleHoldsAll(M, R, strict, operands, slots, args, hidden, P, e)
        {
          RuleMeanings(M, R, strict, operands, slots, args, hidden, op, ss, q, e);
        }
        RuleMeanings(M, R, strict, operands, slots, args, hidden, op, ss, q, map[]);
        ConnectMeaning(M, R, strict, c, operands, w.operands, slots, args, hidden, P);
      case Bind(b, name, sort, body) =>
        UnderBind(b, name, sort, body, ss);
        AtOpUnder(slots, args, R, strict, hidden, ss, name);
        RuleMeaning(M, R, strict, body, slots, args, hidden + {name}, op, Visible(ss, {name}), q);
        var w' := Reduce(InstantiateFormula(body, Visible(ss, {name})), q, slots, args, op, R).value;
        BindMeaning(M, R, strict, b, sort, body, name, w', slots, args, hidden, P);
      case Substitute(target, term, x) =>
        UnderSubstitute(target, term, x, ss);
        RuleMeaning(M, R, strict, target, slots, args, hidden, op, ss, q);
        SubstituteMeaning(M, R, strict, target, term, x,
                          Reduce(InstantiateFormula(target, ss), q, slots, args, op, R).value, slots, args, hidden,
                            ss, P);
      case Apply(fn, fargs) => ApplyMeaning(M, R, strict, fn, fargs, slots, args, hidden, op, ss, q);
      case DivergenceBetween(source, dest) =>
        UnderDivergence(source, dest, ss);
        RuleMeaning(M, R, strict, source, slots, args, hidden, op, ss, q);
        RuleMeaning(M, R, strict, dest, slots, args, hidden, op, ss, q);
        DivergenceMeaning(M, R, strict, source, dest,
                          Reduce(InstantiateFormula(source, ss), q, slots, args, op, R).value,
                          Reduce(InstantiateFormula(dest, ss), q, slots, args, op, R).value, slots, args, hidden, P);
    }
  }

  lemma {:induction false} ApplyMeaning<V(!new)>(M: Model<V>, R: Resolver, strict: bool, fn: Name,
                                                 fargs: seq<IrFormula>, slots: seq<SlotInfo>, args: seq<Term>,
                                                 hidden: set<Name>, op: Name, ss: seq<Subst>, q: IrFormula)
    requires AtOp(slots, args, R, strict, hidden, ss) && CleanRule(Apply(fn, fargs), ss) && Plain(q)
    requires Reduce(InstantiateFormula(Apply(fn, fargs), ss), q, slots, args, op, R).Ok?
    ensures var w := Reduce(InstantiateFormula(Apply(fn, fargs), ss), q, slots, args, op, R).value;
            Plain(w) && Meaning(M, w) == RulePred(M, R, strict, Apply(fn, fargs), slots, args, hidden, Meaning(M, q))
    decreases Sizes(args), 1, FormulasSize(fargs), 2
  {
    hide Eval, EvalAll, InstantiateFormula, InstantiateTerm, CleanArgs, BindFormals, SlotSubsts, InOrder, Wp,
         Transformer, FreeTerm, SubstFormula, Clean, Visible, AtOp, Untouched, Holds, HoldsAll, RuleHoldsAll;
    UnderApply(fn, fargs, ss);
    AtOpLengths(slots, args, R, strict, hidden, ss);
    var slotTerm := StmtArg(slots, args, fn[|SLOT_PREFIX|..]).value;
    AtOpStmtArg(slots, args, R, strict, hidden, ss, fn[|SLOT_PREFIX|..]);
    if fargs == [] {
      WpMeaning(M, R, strict, slotTerm, q);
    } else {
      InstantiateCons(fargs, ss);
      assert FormulasSize(fargs) == FormulaSize(fargs[0]) + FormulasSize(fargs[1..]);
      RuleMeaning(M, R, strict, fargs[0], slots, args, hidden, op, ss, q);
      WpMeaning(M, R, strict, slotTerm, Reduce(InstantiateFormula(fargs[0], ss), q, slots, args, op, R).value);
    }
  }

  lemma {:induction false} AtOpLengths(slots: seq<SlotInfo>, args: seq<Term>, R: Resolver, strict: bool,
                                       hidden: set<Name>, ss: seq<Subst>)
    requires AtOp(slots, args, R, strict, hidden, ss)
    ensures |slots| == |args|
  {
  }

  lemma {:induction false} AtOpStmtArg(slots: seq<SlotInfo>, args: seq<Term>, R: Resolver, strict: bool,
                                       hidden: set<Name>, ss: seq<Subst>, slot: Name)
    requires AtOp(slots, args, R, strict, hidden, ss) && StmtArg(slots, args, slot).Some?
    ensures Clean(StmtArg(slots, args, slot).value, R)
    ensures strict ==> ValuesUnguarded(StmtArg(slots, args, slot).value, R)
  {
    StmtArgClean(slots, args, R, strict, slot);
  }

  lemma {:induction false} PureMeaning<V(!new)>(M: Model<V>, R: Resolver, strict: bool, f: IrFormula,
                                                slots: seq<SlotInfo>, args: seq<Term>, hidden: set<Name>, op: Name,
                                                ss: seq<Subst>, q: IrFormula)
    requires AtOp(slots, args, R, strict, hidden, ss) && SchemaFree(f) && Plain(f)
    ensures var r := Reduce(InstantiateFormula(f, ss), q, slots, args, op, R);
            && r.Ok? && Plain(r.value)
            && Meaning(M, r.value) == RulePred(M, R, strict, f, slots, args, hidden, Meaning(M, q))
  {
    hide Holds, InstantiateFormula, BindFormals, Reduce, SchemaFree;
    InstantiateSchemaFree(f, ss);
    ReduceSame(InstantiateFormula(f, ss), q, slots, args, op, R);
    SlotsSound(M, slots, args, R, hidden, map[]);
    InstantiateHolds(M, f, ss, map[]);
    NotPlaceholder(f);
    forall e: Env<V>
      ensures Holds(M, InstantiateFormula(f, ss), e)
                == RuleHolds(M, R, strict, f, slots, args, hidden, Meaning(M, q), e)
    {
      SlotsSound(M, slots, args, R, hidden, e);
      InstantiateHolds(M, f, ss, e);
    }
  }

  lemma {:induction false} NotPlaceholder(f: IrFormula)
    requires SchemaFree(f)
    ensures f != Placeholder()
  {
  }

  lemma {:induction false} RuleMeanings<V(!new)>(M: Model<V>, R: Resolver, strict: bool, fs: seq<IrFormula>,
                                                 slots: seq<SlotInfo>, args: seq<Term>, hidden: set<Name>, op: Name,
                                                 ss: seq<Subst>, q: IrFormula, e: Env<V>)
    requires AtOp(slots, args, R, strict, hidden, ss) && (forall f :: f in fs ==> CleanRule(f, ss)) && Plain(q)
    requires ReduceEach(InstantiateFormulas(fs, ss), q, slots, args, op, R).Ok?
    ensures var ws := ReduceEach(InstantiateFormulas(fs, ss), q, slots, args, op, R).value;
            && (forall w :: w in ws ==> Plain(w))
            && HoldsAll(M, ws, e) == RuleHoldsAll(M, R, strict, fs, slots, args, hidden, Meaning(M, q), e)
    decreases Sizes(args), 1, FormulasSize(fs), 1
  {
    hide Holds, RuleHolds, Reduce;
    if fs != [] {
      InstantiateCons(fs, ss);
      RuleMeaning(M, R, strict, fs[0], slots, args, hidden, op, ss, q);
      RuleMeanings(M, R, strict, fs[1..], slots, args, hidden, op, ss, q, e);
      var w := Reduce(InstantiateFormula(fs[0], ss), q, slots, args, op, R).value;
      assert e in Meaning(M, w) <==> e in RulePred(M, R, strict, fs[0], slots, args, hidden, Meaning(M, q));
      var ws := ReduceEach(InstantiateFormulas(fs, ss), q, slots, args, op, R).value;
      assert ws[0] == w && ws[1..] == ReduceEach(InstantiateFormulas(fs[1..], ss), q, slots, args, op, R).value;
    }
  }

  lemma {:induction false} ConnectMeaning<V(!new)>(M: Model<V>, R: Resolver, strict: bool, c: Connective,
                                                   fs: seq<IrFormula>, ws: seq<IrFormula>, slots: seq<SlotInfo>,
                                                   args: seq<Term>, hidden: set<Name>, P: Pred<V>)
    requires !SchemaFree(Connect(c, fs))
    requires forall e: Env<V> :: HoldsAll(M, ws, e) == RuleHoldsAll(M, R, strict, fs, slots, args, hidden, P, e)
    ensures Meaning(M, Connect(c, ws)) == RulePred(M, R, strict, Connect(c, fs), slots, args, hidden, P)
  {
    hide HoldsAll, RuleHoldsAll;
    forall e: Env<V>
      ensures Holds(M, Connect(c, ws), e) == RuleHolds(M, R, strict, Connect(c, fs), slots, args, hidden, P, e)
    {
      assert HoldsAll(M, ws, e) == RuleHoldsAll(M, R, strict, fs, slots, args, hidden, P, e);
    }
  }

  lemma {:induction false} BindMeaning<V(!new)>(M: Model<V>, R: Resolver, strict: bool, b: Binder, sort: Sort,
                                                body: IrFormula, name: Name, w: IrFormula, slots: seq<SlotInfo>,
                                                args: seq<Term>, hidden: set<Name>, P: Pred<V>)
    requires !SchemaFree(Bind(b, name, sort, body))
    requires Meaning(M, w) == RulePred(M, R, strict, body, slots, args, hidden + {name}, P)
    ensures Meaning(M, Bind(b, name, sort, w))
         == RulePred(M, R, strict, Bind(b, name, sort, body), slots, args, hidden, P)
  {
    hide Quantify, Extent, RuleExtent;
    forall e: Env<V>
      ensures Holds(M, Bind(b, name, sort, w), e)
           == RuleHolds(M, R, strict, Bind(b, name, sort, body), slots, args, hidden, P, e)
    {
      SameExtent(M, R, strict, body, name, w, slots, args, hidden + {name}, P, e);
    }
  }

  lemma {:induction false} SameExtent<V(!new)>(M: Model<V>, R: Resolver, strict: bool, body: IrFormula, name: Name,
                                               w: IrFormula, slots: seq<SlotInfo>, args: seq<Term>,
                                               hidden: set<Name>, P: Pred<V>, e: Env<V>)
    requires Meaning(M, w) == RulePred(M, R, strict, body, slots, args, hidden, P)
    ensures Extent(M, w, name, e) == RuleExtent(M, R, strict, body, name, slots, args, hidden, P, e)
  {
    hide Holds, RuleHolds;
    forall v: V
      ensures Holds(M, w, Assign(e, name, v))
           == RuleHolds(M, R, strict, body, slots, args, hidden, P, Assign(e, name, v))
    {
      var h := Assign(e, name, v);
      assert h in Meaning(M, w) <==> h in RulePred(M, R, strict, body, slots, args, hidden, P);
    }
  }

  lemma {:induction false} SubstituteMeaning<V(!new)>(M: Model<V>, R: Resolver, strict: bool, target: IrFormula,
                                                      term: IrTerm, x: Name, w: IrFormula, slots: seq<SlotInfo>,
                                                      args: seq<Term>, hidden: set<Name>, ss: seq<Subst>, P: Pred<V>)
    requires AtOp(slots, args, R, strict, hidden, ss) && LetFreeTerm(term)
    requires Plain(w) && Meaning(M, w) == RulePred(M, R, strict, target, slots, args, hidden, P)
    ensures var w' := SubstFormula(w, x, InstantiateTerm(term, ss));
            && Plain(w')
            && Meaning(M, w') == RulePred(M, R, strict, Substitute(target, term, x), slots, args, hidden, P)
  {
    hide Holds, SubstFormula, Eval;
    var r := InstantiateTerm(term, ss);
    SlotsSound(M, slots, args, R, hidden, map[]);
    InstantiateEval(M, term, ss, map[]);
    PlainSafe(w, x, r);
    forall e: Env<V>
      ensures Holds(M, SubstFormula(w, x, r), e)
           == RuleHolds(M, R, strict, Substitute(target, term, x), slots, args, hidden, P, e)
    {
      SubstHolds(M, w, x, r, e);
      SlotsSound(M, slots, args, R, hidden, e);
      InstantiateEval(M, term, ss, e);
      var e' := Assign(e, x, Eval(M, r, e));
      assert e' in Meaning(M, w) <==> e' in RulePred(M, R, strict, target, slots, args, hidden, P);
    }
  }

  lemma {:induction false} DivergenceMeaning<V(!new)>(M: Model<V>, R: Resolver, strict: bool, f: IrFormula,
                                                      g: IrFormula, w: IrFormula, w': IrFormula, slots: seq<SlotInfo>,
                                                        args: seq<Term>,
                                                      hidden: set<Name>, P: Pred<V>)
    requires !SchemaFree(DivergenceBetween(f, g))
    requires Meaning(M, w) == RulePred(M, R, strict, f, slots, args, hidden, P)
    requires Meaning(M, w') == RulePred(M, R, strict, g, slots, args, hidden, P)
    ensures Meaning(M, DivergenceBetween(w, w'))
         == RulePred(M, R, strict, DivergenceBetween(f, g), slots, args, hidden, P)
  {
    forall e: Env<V>
      ensures Holds(M, DivergenceBetween(w, w'), e)
           == RuleHolds(M, R, strict, DivergenceBetween(f, g), slots, args, hidden, P, e)
    {
      assert e in Meaning(M, w) <==> e in RulePred(M, R, strict, f, slots, args, hidden, P);
      assert e in Meaning(M, w') <==> e in RulePred(M, R, strict, g, slots, args, hidden, P);
    }
  }

  lemma {:induction false} StmtArgClean(slots: seq<SlotInfo>, args: seq<Term>, R: Resolver, strict: bool, slot: Name)
    requires |slots| == |args| && CleanArgs(slots, args, R) && (strict ==> SlotsUnguarded(slots, args, R))
    requires StmtArg(slots, args, slot).Some?
    ensures Clean(StmtArg(slots, args, slot).value, R)
    ensures strict ==> ValuesUnguarded(StmtArg(slots, args, slot).value, R)
  {
    if !(slots[0].kind == StmtSlot && slots[0].name == slot) {
      StmtArgClean(slots[1..], args[1..], R, strict, slot);
    }
  }

  // Postconditions that mean the same have weakest preconditions that mean the same.
  lemma {:induction false} WpExtensional<V(!new)>(M: Model<V>, R: Resolver, t: Term, q: IrFormula, q': IrFormula)
    requires Wp(t, q, R).Ok? && Wp(t, q', R).Ok? && Clean(t, R) && Plain(q) && Plain(q')
    requires Meaning(M, q) == Meaning(M, q')
    ensures Meaning(M, Wp(t, q, R).value) == Meaning(M, Wp(t, q', R).value)
  {
    WpMeaning(M, R, false, t, q);
    WpMeaning(M, R, false, t, q');
  }

  // ---------- where the code departs from that reading ----------

  function Equality(): Model<int> {
    Model(0, (value, sort) => |value|, (name, vs) => 0, (sort, graph) => 0,
          (name, vs) => |vs| == 2 && vs[0] == vs[1], (sort, v) => true, (sort, vs) => false, (p, q) => false)
  }

  /** An op with value slots a and b and the rule p(a, b). */
  function PairResolver(): Resolver {
    (name: Name) =>
      if name == "pair"
      then Some(OpContract([SlotInfo("a", ValueSlot), SlotInfo("b", ValueSlot)], None, None,
                           Some(Atomic("p", [Var("a"), Var("b")])), RESULT, None, None))
      else None
  }

  function PairTerm(): Term {
    Op("cid", "pair", [Variable("b"), Variable("z")])
  }

  // Formals are substituted one after the other: in pair(b, z) the argument b is taken for the second formal.
  lemma {:induction false} SequentialFormals()
    ensures var e := map["b" := 1, "z" := 2];
            && !Clean(PairTerm(), PairResolver())
            && Wp(PairTerm(), Atomic("q", []), PairResolver()) == Ok(Atomic("p", [Var("z"), Var("z")]))
            && Holds(Equality(), Atomic("p", [Var("z"), Var("z")]), e)
            && e !in Transformer(Equality(), PairResolver(), false, PairTerm(), Meaning(Equality(), Atomic("q", [])))
  {
    hide Wp, Clean, Transformer, SlotSubsts, SubstTerms, BindFormals;
    PairComputed();
    PairMeant(map["b" := 1, "z" := 2]);
    var zz := [Var("z"), Var("z")];
    assert zz[1..] == [Var("z")];
    assert EvalAll(Equality(), zz[1..], map["b" := 1, "z" := 2]) == [2];
    assert EvalAll(Equality(), zz, map["b" := 1, "z" := 2]) == [2, 2];
  }

  lemma {:induction false} PairComputed()
    ensures !Clean(PairTerm(), PairResolver())
    ensures Wp(PairTerm(), Atomic("q", []), PairResolver()) == Ok(Atomic("p", [Var("z"), Var("z")]))
  {
    var R := PairResolver();
    var contract := R("pair").value;
    var args := [Variable("b"), Variable("z")];
    var ss := [Subst("a", Var("b")), Subst("b", Var("z"))];
    assert args[1..] == [Variable("z")] && args[1..][1..] == [];
    assert contract.slots[1..] == [SlotInfo("b", ValueSlot)] && contract.slots[1..][1..] == [];
    assert SlotSubsts(contract.slots[1..][1..], args[1..][1..], R) == Ok([]);
    assert [Subst("b", Var("z"))] + [] == [Subst("b", Var("z"))];
    assert SlotSubsts(contract.slots[1..], args[1..], R) == Ok([Subst("b", Var("z"))]);
    assert [Subst("a", Var("b"))] + [Subst("b", Var("z"))] == ss;
    assert SlotSubsts(contract.slots, args, R) == Ok(ss);
    assert ss[1].formal in FreeTerm(ss[0].value);
    PairInstantiated(ss);
    UnderAtomic("p", [Var("a"), Var("b")], ss);
  }

  lemma {:induction false} PairInstantiated(ss: seq<Subst>)
    requires ss == [Subst("a", Var("b")), Subst("b", Var("z"))]
    ensures InstantiateTerms([Var("a"), Var("b")], ss) == [Var("z"), Var("z")]
  {
    var ab, bb, zz := [Var("a"), Var("b")], [Var("b"), Var("b")], [Var("z"), Var("z")];
    assert ab[1..] == [Var("b")] && bb[1..] == [Var("b")] && zz[1..] == [Var("z")];
    assert SubstTerms(ab[1..], "a", Var("b")) == [Var("b")];
    assert SubstTerms(ab, "a", Var("b")) == bb;
    assert SubstTerms(bb[1..], "b", Var("z")) == [Var("z")];
    assert SubstTerms(bb, "b", Var("z")) == zz;
    assert ss[1..] == [Subst("b", Var("z"))] && ss[1..][1..] == [];
    assert InstantiateTerms(bb, ss[1..]) == InstantiateTerms(zz, []) == zz;
  }

  lemma {:induction false} PairMeant(e: Env<int>)
    requires e == map["b" := 1, "z" := 2]
    ensures e !in Transformer(Equality(), PairResolver(), false, PairTerm(), Meaning(Equality(), Atomic("q", [])))
  {
    var R := PairResolver();
    var contract := R("pair").value;
    var args := [Variable("b"), Variable("z")];
    assert args[1..] == [Variable("z")] && args[1..][1..] == [];
    assert contract.slots[1..] == [SlotInfo("b", ValueSlot)] && contract.slots[1..][1..] == [];
    var ab := [Var("a"), Var("b")];
    assert ab[1..] == [Var("b")];
    var h := BindFormals(Equality(), R, contract.slots, args, {}, e);
    assert BindFormals(Equality(), R, contract.slots[1..], args[1..], {}, e) == e["b" := 2];
    assert h == e["b" := 2]["a" := 1];
    assert EvalAll(Equality(), ab[1..], h) == [2];
    assert EvalAll(Equality(), ab, h) == [1, 2];
  }

  /** `partial` has the precondition `false`; `use` reads its one value slot. */
  function PartialResolver(): Resolver {
    (name: Name) =>
      if name == "partial"
      then Some(OpContract([], Some(Atomic("false", [])), Some(Atomic("=", [Var(RESULT), Const("c", "s")])),
                           None, RESULT, None, None))
      else if name == "use"
      then Some(OpContract([SlotInfo("x", ValueSlot)], None, Some(Atomic("=", [Var(RESULT), Var("x")])),
                           None, RESULT, None, None))
      else None
  }

  // The precondition of an op is part of its own wp, but is lost once the op sits in a value slot.
  lemma {:induction false} NestedPreIsDropped()
    ensures var inner := Op("cid", "partial", []);
            && Wp(inner, Atomic("q", []), PartialResolver()) == Ok(Connect(And, [Atomic("false", []), Atomic("q", [])]))
            && Wp(Op("cid", "use", [inner]), Atomic("q", []), PartialResolver()) == Ok(Atomic("q", []))
  {
    var R := PartialResolver();
    var q := Atomic("q", []);
    var inner := Op("cid", "partial", []);
    var c := R("partial").value;
    var rule := Connect(And, [Atomic("false", []), Substitute(Placeholder(), Const("c", "s"), RESULT)]);
    assert c.Rule() == Some(rule);
    assert SlotSubsts(c.slots, [], R) == Ok([]);
    assert rule.operands[1..] == [Substitute(Placeholder(), Const("c", "s"), RESULT)] && rule.operands[1..][1..] == [];
    assert Reduce(rule.operands[1], q, [], [], "partial", R) == Ok(q);
    assert ReduceEach(rule.operands[1..][1..], q, [], [], "partial", R) == Ok([]);
    assert [q] + [] == [q] && [Atomic("false", [])] + [q] == [Atomic("false", []), q];
    assert ReduceEach(rule.operands[1..], q, [], [], "partial", R) == Ok([q]);
    assert ReduceEach(rule.operands, q, [], [], "partial", R) == Ok([Atomic("false", []), q]);
    var u := R("use").value;
    var args := [inner];
    assert u.Rule() == Some(Substitute(Placeholder(), Var("x"), RESULT));
    assert args[1..] == [] && u.slots[1..] == [];
    assert ValueExprs([], R) == Ok([]);
    assert ValueExprOfTerm(inner, R) == Ok(Const("c", "s"));
    var ss := [Subst("x", Const("c", "s"))];
    assert SlotSubsts([], [], R) == Ok([]);
    assert [Subst("x", Const("c", "s"))] + [] == ss;
    assert SlotSubsts(u.slots, args, R) == Ok(ss);
    assert ss[1..] == [];
    assert InstantiateFormula(u.Rule().value, ss) == Substitute(Placeholder(), Const("c", "s"), RESULT);
    assert Reduce(Substitute(Placeholder(), Const("c", "s"), RESULT), q, u.slots, args, "use", R) == Ok(q);
  }
}
