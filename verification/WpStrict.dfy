// When nothing is lost by leaving out the preconditions of operations in value
// position.
module WpStrict {
  import opened Wrappers
  import opened Ir
  import opened Semantics
  import opened SubstLemma
  import opened WpEvaluator
  import opened WpSound

  /** Nothing is guarded in value position inside the statement arguments. */
  predicate StmtsUnguarded(slots: seq<SlotInfo>, args: seq<Term>, R: Resolver) {
    slots == [] || args == [] ||
    ((slots[0].kind == StmtSlot ==> ValuesUnguarded(args[0], R)) && StmtsUnguarded(slots[1..], args[1..], R))
  }

  lemma {:induction false} StmtsOfSlots(slots: seq<SlotInfo>, args: seq<Term>, R: Resolver)
    requires SlotsUnguarded(slots, args, R)
    ensures StmtsUnguarded(slots, args, R)
  {
    if slots != [] && args != [] {
      StmtsOfSlots(slots[1..], args[1..], R);
    }
  }

  // Without guarded operations in value position the strict and the lenient reading are one.
  lemma {:induction false} StrictAgrees<V(!new)>(M: Model<V>, R: Resolver, t: Term, P: Pred<V>)
    requires ValuesUnguarded(t, R)
    ensures Transformer(M, R, true, t, P) == Transformer(M, R, false, t, P)
    decreases Size(t), 0, 0
  {
    hide RuleHolds, SlotsDefined, Value;
    match t
    case Op(_, name, args) =>
      if R(name).Some? && R(name).value.Rule().Some? {
        var contract := R(name).value;
        forall e: Env<V>
          ensures e in Transformer(M, R, true, t, P) <==> e in Transformer(M, R, false, t, P)
        {
          SlotsUnguardedDefined(M, R, contract.slots, args, e);
          StmtsOfSlots(contract.slots, args, R);
          OpIsRule(M, R, true, t, P, e);
          OpIsRule(M, R, false, t, P, e);
          RuleAgrees(M, R, contract.Rule().value, contract.slots, args, {}, P, e);
        }
      }
    case _ =>
  }

  lemma {:induction false} RuleAgrees<V(!new)>(M: Model<V>, R: Resolver, f: IrFormula, slots: seq<SlotInfo>,
                                               args: seq<Term>, hidden: set<Name>, P: Pred<V>, e: Env<V>)
    requires StmtsUnguarded(slots, args, R)
    ensures RuleHolds(M, R, true, f, slots, args, hidden, P, e) == RuleHolds(M, R, false, f, slots, args, hidden, P, e)
    decreases Sizes(args), 1, FormulaSize(f), 0
  {
    hide BindFormals, StmtsUnguarded, Transformer, Eval, EvalAll, Holds, SchemaFree;
    if f != Placeholder() && !SchemaFree(f) {
      match f
      case Atomic(_, _) =>
      case Connect(_, operands) => RulesAgree(M, R, operands, slots, args, hidden, P, e);
      case Bind(_, name, _, body) => ExtentAgrees(M, R, body, name, slots, args, hidden + {name}, P, e);
      case Substitute(target, term, x) =>
        var v := Eval(M, term, BindFormals(M, R, slots, args, hidden, e));
        RuleAgrees(M, R, target, slots, args, hidden, P, Assign(e, x, v));
      case Apply(fn, fargs) => ApplyAgrees(M, R, fn, fargs, slots, args, hidden, P, e);
      case DivergenceBetween(source, dest) =>
        RuleAgrees(M, R, source, slots, args, hidden, P, e);
        RuleAgrees(M, R, dest, slots, args, hidden, P, e);
    }
  }

  lemma {:induction false} ExtentAgrees<V(!new)>(M: Model<V>, R: Resolver, body: IrFormula, name: Name,
                                                 slots: seq<SlotInfo>, args: seq<Term>, hidden: set<Name>, P: Pred<V>,
                                                 e: Env<V>)
    requires StmtsUnguarded(slots, args, R)
    ensures RuleExtent(M, R, true, body, name, slots, args, hidden, P, e)
         == RuleExtent(M, R, false, body, name, slots, args, hidden, P, e)
    decreases Sizes(args), 1, FormulaSize(body), 1
  {
    hide RuleHolds, StmtsUnguarded;
    forall v: V
      ensures RuleHolds(M, R, true, body, slots, args, hidden, P, Assign(e, name, v))
           == RuleHolds(M, R, false, body, slots, args, hidden, P, Assign(e, name, v))
    {
      RuleAgrees(M, R, body, slots, args, hidden, P, Assign(e, name, v));
    }
  }

  lemma {:induction false} ApplyAgrees<V(!new)>(M: Model<V>, R: Resolver, fn: Name, fargs: seq<IrFormula>,
                                                slots: seq<SlotInfo>, args: seq<Term>, hidden: set<Name>, P: Pred<V>,
                                                e: Env<V>)
    requires StmtsUnguarded(slots, args, R)
    ensures RuleHolds(M, R, true, Apply(fn, fargs), slots, args, hidden, P, e)
         == RuleHolds(M, R, false, Apply(fn, fargs), slots, args, hidden, P, e)
    decreases Sizes(args), 1, FormulasSize(fargs), 1
  {
    hide BindFormals, Transformer, StmtsUnguarded;
    if IsSlotTransformer(fn) && |slots| == |args| && StmtArg(slots, args, fn[|SLOT_PREFIX|..]).Some? {
      var slotTerm := StmtArg(slots, args, fn[|SLOT_PREFIX|..]).value;
      StmtArgUnguarded(slots, args, R, fn[|SLOT_PREFIX|..]);
      if fargs == [] {
        StrictAgrees(M, R, slotTerm, P);
      } else {
        assert FormulasSize(fargs) == FormulaSize(fargs[0]) + FormulasSize(fargs[1..]);
        var X, Y := RulePred(M, R, true, fargs[0], slots, args, hidden, P),
                    RulePred(M, R, false, fargs[0], slots, args, hidden, P);
        forall h: Env<V>
          ensures h in X <==> h in Y
        {
          RuleAgrees(M, R, fargs[0], slots, args, hidden, P, h);
        }
        assert X == Y;
        StrictAgrees(M, R, slotTerm, X);
      }
    }
  }

  lemma {:induction false} RulesAgree<V(!new)>(M: Model<V>, R: Resolver, fs: seq<IrFormula>, slots: seq<SlotInfo>,
                                               args: seq<Term>, hidden: set<Name>, P: Pred<V>, e: Env<V>)
    requires StmtsUnguarded(slots, args, R)
    ensures RuleHoldsAll(M, R, true, fs, slots, args, hidden, P, e)
         == RuleHoldsAll(M, R, false, fs, slots, args, hidden, P, e)
    decreases Sizes(args), 1, FormulasSize(fs), 2
  {
    if fs != [] {
      RuleAgrees(M, R, fs[0], slots, args, hidden, P, e);
      RulesAgree(M, R, fs[1..], slots, args, hidden, P, e);
    }
  }

  lemma {:induction false} StmtArgUnguarded(slots: seq<SlotInfo>, args: seq<Term>, R: Resolver, slot: Name)
    requires |slots| == |args| && StmtsUnguarded(slots, args, R) && StmtArg(slots, args, slot).Some?
    ensures ValuesUnguarded(StmtArg(slots, args, slot).value, R)
  {
    if !(slots[0].kind == StmtSlot && slots[0].name == slot) {
      StmtArgUnguarded(slots[1..], args[1..], R, slot);
    }
  }

  // ---------- where something is lost ----------

  function True(): IrFormula {
    Connect(And, [])
  }

  /** wp is the strict transformer, for every postcondition. */
  ghost predicate WpIsStrict<V(!new)>(M: Model<V>, R: Resolver, t: Term) {
    forall q :: Plain(q) ==>
      Wp(t, q, R).Ok? && Meaning(M, Wp(t, q, R).value) == Transformer(M, R, true, t, Meaning(M, q))
  }

  /** An operation that only computes a value from its slots: its rule is Q[x := value]. */
  predicate AssignsOnly(t: Term, R: Resolver, value: IrTerm, x: Name) {
    t.Op? && R(t.name).Some? && R(t.name).value.Rule() == Some(Substitute(Placeholder(), value, x))
  }

  lemma {:induction false} AssignsForAnyPost(R: Resolver, t: Term, value: IrTerm, x: Name, p: IrFormula, q: IrFormula)
    requires AssignsOnly(t, R, value, x) && Wp(t, p, R).Ok?
    ensures Wp(t, q, R).Ok?
  {
    var contract := R(t.name).value;
    var ss := SlotSubsts(contract.slots, t.args, R).value;
    UnderSubstitute(Placeholder(), value, x, ss);
    InstantiatePlaceholder(ss);
    var g := Substitute(Placeholder(), InstantiateTerm(value, ss), x);
    assert InstantiateFormula(contract.Rule().value, ss) == g;
    assert Reduce(g, q, contract.slots, t.args, t.name, R).Ok?;
  }

  lemma {:induction false} AssignsInto<V(!new)>(M: Model<V>, R: Resolver, strict: bool, t: Term, value: IrTerm, x: Name,
                                                P: Pred<V>, e: Env<V>)
    requires AssignsOnly(t, R, value, x)
    ensures e in Transformer(M, R, strict, t, P) <==>
              && (strict ==> SlotsDefined(M, R, R(t.name).value.slots, t.args, e))
              && Assign(e, x, Eval(M, value, BindFormals(M, R, R(t.name).value.slots, t.args, {}, e))) in P
  {
    hide SlotsDefined, Eval, BindFormals;
    var f := Substitute(Placeholder(), value, x);
    assert R(t.name).value.Rule() == Some(f);
    var slots := R(t.name).value.slots;
    var e' := Assign(e, x, Eval(M, value, BindFormals(M, R, slots, t.args, {}, e)));
    assert RuleHolds(M, R, strict, Placeholder(), slots, t.args, {}, P, e') <==> e' in P;
    assert RuleHolds(M, R, strict, f, slots, t.args, {}, P, e)
        == RuleHolds(M, R, strict, Placeholder(), slots, t.args, {}, P, e');
  }

  ghost predicate AlwaysDefined<V(!new)>(M: Model<V>, R: Resolver, slots: seq<SlotInfo>, args: seq<Term>) {
    forall e: Env<V> :: SlotsDefined(M, R, slots, args, e)
  }

  // For such an operation wp is strict exactly if the preconditions inside its arguments hold in every state.
  lemma {:induction false} StrictExactly<V(!new)>(M: Model<V>, R: Resolver, t: Term, value: IrTerm, x: Name)
    requires AssignsOnly(t, R, value, x) && Wp(t, True(), R).Ok? && Clean(t, R)
    ensures WpIsStrict(M, R, t) <==> AlwaysDefined(M, R, R(t.name).value.slots, t.args)
  {
    hide Wp, Clean, SlotsDefined, BindFormals, Eval, Transformer;
    if WpIsStrict(M, R, t) {
      forall e: Env<V>
        ensures SlotsDefined(M, R, R(t.name).value.slots, t.args, e)
      {
        StrictIsDefined(M, R, t, value, x, e);
      }
    }
    if AlwaysDefined(M, R, R(t.name).value.slots, t.args) {
      forall q | Plain(q)
        ensures Wp(t, q, R).Ok? && Meaning(M, Wp(t, q, R).value) == Transformer(M, R, true, t, Meaning(M, q))
      {
        AssignsForAnyPost(R, t, value, x, True(), q);
        WpMeaning(M, R, false, t, q);
        forall e: Env<V>
          ensures e in Transformer(M, R, true, t, Meaning(M, q)) <==> e in Transformer(M, R, false, t, Meaning(M, q))
        {
          AssignsInto(M, R, false, t, value, x, Meaning(M, q), e);
          AssignsInto(M, R, true, t, value, x, Meaning(M, q), e);
        }
        assert Transformer(M, R, true, t, Meaning(M, q)) == Transformer(M, R, false, t, Meaning(M, q));
      }
    }
  }

  lemma {:induction false} StrictIsDefined<V(!new)>(M: Model<V>, R: Resolver, t: Term, value: IrTerm, x: Name,
                                                    e: Env<V>)
    requires AssignsOnly(t, R, value, x) && Clean(t, R) && WpIsStrict(M, R, t)
    ensures SlotsDefined(M, R, R(t.name).value.slots, t.args, e)
  {
    hide Wp, Clean, SlotsDefined, BindFormals, Eval, Transformer;
    assert Plain(True());
    WpMeaning(M, R, false, t, True());
    var all := Meaning(M, True());
    AssignsInto(M, R, false, t, value, x, all, e);
    AssignsInto(M, R, true, t, value, x, all, e);
    AllHold(M, Assign(e, x, Eval(M, value, BindFormals(M, R, R(t.name).value.slots, t.args, {}, e))));
  }

  lemma {:induction false} AllHold<V(!new)>(M: Model<V>, e: Env<V>)
    ensures e in Meaning(M, True())
  {
    assert HoldsAll(M, [], e) == [];
  }

  // ---------- any operation ----------

  /** Wherever wp holds, the value arguments are defined. */
  ghost predicate WpDemands<V(!new)>(M: Model<V>, R: Resolver, t: Term)
    requires t.Op? && R(t.name).Some?
  {
    forall q, e: Env<V> :: Plain(q) && Wp(t, q, R).Ok? && Holds(M, Wp(t, q, R).value, e) ==>
      SlotsDefined(M, R, R(t.name).value.slots, t.args, e)
  }

  // wp of any operation is strict exactly if its rule demands what its value arguments need.
  lemma {:induction false} StrictIfDemanded<V(!new)>(M: Model<V>, R: Resolver, t: Term)
    requires t.Op? && R(t.name).Some? && Clean(t, R) && forall q :: Plain(q) ==> Wp(t, q, R).Ok?
    requires StmtsUnguarded(R(t.name).value.slots, t.args, R)
    ensures WpIsStrict(M, R, t) <==> WpDemands(M, R, t)
  {
    hide Clean, SlotsDefined, RuleHolds, Holds, Wp, Transformer;
    if WpIsStrict(M, R, t) {
      forall q, e: Env<V> | Plain(q) && Wp(t, q, R).Ok? && Holds(M, Wp(t, q, R).value, e)
        ensures SlotsDefined(M, R, R(t.name).value.slots, t.args, e)
      {
        assert e in Meaning(M, Wp(t, q, R).value);
        StrictAt(M, R, t, q, e);
      }
    }
    if WpDemands(M, R, t) {
      forall q | Plain(q)
        ensures Meaning(M, Wp(t, q, R).value) == Transformer(M, R, true, t, Meaning(M, q))
      {
        WpMeaning(M, R, false, t, q);
        forall e: Env<V>
          ensures e in Meaning(M, Wp(t, q, R).value) <==> e in Transformer(M, R, true, t, Meaning(M, q))
        {
          StrictAt(M, R, t, q, e);
        }
      }
    }
  }

  lemma {:induction false} StrictAt<V(!new)>(M: Model<V>, R: Resolver, t: Term, q: IrFormula, e: Env<V>)
    requires t.Op? && R(t.name).Some? && Wp(t, q, R).Ok? && StmtsUnguarded(R(t.name).value.slots, t.args, R)
    ensures e in Transformer(M, R, true, t, Meaning(M, q)) <==>
              && SlotsDefined(M, R, R(t.name).value.slots, t.args, e)
              && e in Transformer(M, R, false, t, Meaning(M, q))
  {
    hide SlotsDefined, RuleHolds, Holds;
    var contract := R(t.name).value;
    OpIsRule(M, R, true, t, Meaning(M, q), e);
    OpIsRule(M, R, false, t, Meaning(M, q), e);
    RuleAgrees(M, R, contract.Rule().value, contract.slots, t.args, {}, Meaning(M, q), e);
  }
}
