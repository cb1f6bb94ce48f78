// Where wp fails (wp.rs): each error names an operation of the term that is at fault, and a term without a faulty
// operation has a weakest precondition.
module WpErrors {
  import opened Wrappers
  import opened Ir
  import opened Substitution
  import opened WpEvaluator
  import opened WpValueOp

  /** s is t or one of its sub-terms. */
  predicate Within(s: Term, t: Term)
    decreases Size(t), 0
  {
    s == t || (t.Op? && WithinAny(s, t.args))
  }

  predicate WithinAny(s: Term, ts: seq<Term>)
    decreases Sizes(ts), 1
  {
    ts != [] && (Within(s, ts[0]) || WithinAny(s, ts[1..]))
  }

  // ---------- what a rule applies ----------

  /** The slot transformers a formula applies. */
  function Applied(f: IrFormula): set<Name>
    decreases FormulaSize(f), 0
  {
    match f
    case Atomic(_, _) => {}
    case Connect(_, operands) => AllApplied(operands)
    case Bind(_, _, _, body) => Applied(body)
    case Substitute(target, _, _) => Applied(target)
    case Apply(fn, fargs) => {fn} + AllApplied(fargs)
    case DivergenceBetween(source, dest) => Applied(source) + Applied(dest)
  }

  function AllApplied(fs: seq<IrFormula>): set<Name>
    decreases FormulasSize(fs), 1
  {
    if fs == [] then {} else Applied(fs[0]) + AllApplied(fs[1..])
  }

  lemma {:induction false} SubstApplied(f: IrFormula, x: Name, r: IrTerm)
    ensures Applied(SubstFormula(f, x, r)) == Applied(f)
    decreases FormulaSize(f), 0
  {
    match f
    case Atomic(_, _) =>
    case Connect(_, operands) => SubstAllApplied(operands, x, r);
    case Bind(_, name, _, body) =>
      if name != x {
        if name in FreeTerm(r) {
          var name' := FreshName(FreeTerm(r) + FreeFormula(body) + {x, name}, name);
          SubstApplied(body, name, Var(name'));
          SubstApplied(SubstFormula(body, name, Var(name')), x, r);
        } else {
          SubstApplied(body, x, r);
        }
      }
    case Substitute(target, _, _) => SubstApplied(target, x, r);
    case Apply(_, fargs) => SubstAllApplied(fargs, x, r);
    case DivergenceBetween(source, dest) =>
      SubstApplied(source, x, r);
      SubstApplied(dest, x, r);
  }

  lemma {:induction false} SubstAllApplied(fs: seq<IrFormula>, x: Name, r: IrTerm)
    ensures AllApplied(SubstFormulas(fs, x, r)) == AllApplied(fs)
    decreases FormulasSize(fs), 1
  {
    if fs != [] {
      SubstApplied(fs[0], x, r);
      SubstAllApplied(fs[1..], x, r);
    }
  }

  lemma {:induction false} InstantiateApplied(f: IrFormula, ss: seq<Subst>)
    ensures Applied(InstantiateFormula(f, ss)) == Applied(f)
    decreases ss
  {
    if ss != [] {
      SubstApplied(f, ss[0].formal, ss[0].value);
      InstantiateApplied(SubstFormula(f, ss[0].formal, ss[0].value), ss[1..]);
    }
  }

  // ---------- who is at fault ----------

  /** What an error says about the operation it blames. */
  ghost predicate AtFault(s: Term, R: Resolver, error: WpError) {
    s.Op? &&
    match error
    case OpaqueCall(callee) =>
      (R(s.name).None? && callee == s.name) || (R(s.name).Some? && R(s.name).value.unresolvedCall == Some(callee))
    case OpaqueLoop(loopCid) => R(s.name).Some? && R(s.name).value.opaqueLoop == Some(loopCid)
    case ArityMismatch(op, expected, actual) =>
      op == s.name && R(op).Some? && expected == |R(op).value.slots| && actual == |s.args| && expected != actual
    case NoRule(op) =>
      && op == s.name && R(op).Some? && R(op).value.wpRule.None?
      && (R(op).value.post.Some? ==> NoneEquates(Conjuncts(R(op).value.post.value), R(op).value.resultVar))
    case MalformedRule(op, fn) =>
      && op == s.name && R(op).Some? && Misapplies(R(op).value, fn)
  }

  /** The rule, or the precondition in place of one, applies something that is no transformer of a statement slot. */
  ghost predicate Misapplies(c: OpContract, fn: Name) {
    && ((c.wpRule.Some? && fn in Applied(c.wpRule.value))
        || (c.wpRule.None? && c.pre.Some? && fn in Applied(c.pre.value)))
    && forall slot: Name :: slot != "" && fn == "wp_" + slot ==> SlotInfo(slot, StmtSlot) !in c.slots
  }

  ghost predicate SomeAtFault(t: Term, R: Resolver, error: WpError) {
    exists s :: Within(s, t) && AtFault(s, R, error)
  }

  ghost predicate AnyAtFault(ts: seq<Term>, R: Resolver, error: WpError) {
    exists s :: WithinAny(s, ts) && AtFault(s, R, error)
  }

  lemma {:induction false} RootAtFault(t: Term, R: Resolver, error: WpError)
    requires AtFault(t, R, error) || (t.Op? && AnyAtFault(t.args, R, error))
    ensures SomeAtFault(t, R, error)
  {
    hide AtFault;
    if AtFault(t, R, error) {
      assert Within(t, t);
    } else {
      var s :| WithinAny(s, t.args) && AtFault(s, R, error);
      assert Within(s, t);
    }
  }

  lemma {:induction false} ValueBlames(t: Term, R: Resolver)
    requires ValueExprOfTerm(t, R).Err?
    ensures SomeAtFault(t, R, ValueExprOfTerm(t, R).error)
    decreases Size(t), 0
  {
    hide SomeAtFault, AnyAtFault;
    if t.Op? {
      var error := ValueExprOfTerm(t, R).error;
      if !AtFault(t, R, error) {
        ValuesBlame(t.args, R);
      }
      RootAtFault(t, R, error);
    }
  }

  lemma {:induction false} ValuesBlame(ts: seq<Term>, R: Resolver)
    requires ValueExprs(ts, R).Err?
    ensures AnyAtFault(ts, R, ValueExprs(ts, R).error)
    decreases Sizes(ts), 1
  {
    hide AtFault;
    if ValueExprOfTerm(ts[0], R).Err? {
      ValueBlames(ts[0], R);
      FirstAtFault(ts, R, ValueExprOfTerm(ts[0], R).error);
    } else {
      ValuesBlame(ts[1..], R);
      LaterAtFault(ts, R, ValueExprs(ts[1..], R).error);
    }
  }

  lemma {:induction false} FirstAtFault(ts: seq<Term>, R: Resolver, error: WpError)
    requires ts != [] && SomeAtFault(ts[0], R, error)
    ensures AnyAtFault(ts, R, error)
  {
    hide AtFault;
    var s :| Within(s, ts[0]) && AtFault(s, R, error);
    assert WithinAny(s, ts);
  }

  lemma {:induction false} LaterAtFault(ts: seq<Term>, R: Resolver, error: WpError)
    requires ts != [] && AnyAtFault(ts[1..], R, error)
    ensures AnyAtFault(ts, R, error)
  {
    hide AtFault;
    var s :| WithinAny(s, ts[1..]) && AtFault(s, R, error);
    assert WithinAny(s, ts);
  }

  lemma {:induction false} SlotsBlame(slots: seq<SlotInfo>, args: seq<Term>, R: Resolver)
    requires |slots| == |args| && SlotSubsts(slots, args, R).Err?
    ensures AnyAtFault(args, R, SlotSubsts(slots, args, R).error)
  {
    hide AnyAtFault, SomeAtFault;
    if slots[0].kind == ValueSlot && ValueExprOfTerm(args[0], R).Err? {
      ValueBlames(args[0], R);
      FirstAtFault(args, R, ValueExprOfTerm(args[0], R).error);
    } else {
      SlotsBlame(slots[1..], args[1..], R);
      LaterAtFault(args, R, SlotSubsts(slots[1..], args[1..], R).error);
    }
  }

  lemma {:induction false} ArgAtFault(t: Term, ts: seq<Term>, R: Resolver, error: WpError)
    requires t in ts && SomeAtFault(t, R, error)
    ensures AnyAtFault(ts, R, error)
  {
    hide SomeAtFault, AnyAtFault;
    if t == ts[0] {
      FirstAtFault(ts, R, error);
    } else {
      ArgAtFault(t, ts[1..], R, error);
      LaterAtFault(ts, R, error);
    }
  }

  // Every error is about an operation of the term that is as the error says; so a term none of whose operations is at
  // fault has a weakest precondition for every postcondition.
  lemma {:induction false} WpBlames(t: Term, q: IrFormula, R: Resolver)
    ensures Wp(t, q, R).Err? ==> SomeAtFault(t, R, Wp(t, q, R).error)
    decreases Size(t), 0, 0
  {
    hide SomeAtFault, AnyAtFault, Reduce, SlotSubsts, InstantiateFormula, NoneEquates, Conjuncts, Misapplies;
    if Wp(t, q, R).Err? {
      var error := Wp(t, q, R).error;
      if !AtFault(t, R, error) {
        var c := R(t.name).value;
        if c.Rule().None? {
          NoEquation(c);
        } else if SlotSubsts(c.slots, t.args, R).Err? {
          SlotsBlame(c.slots, t.args, R);
        } else {
          var ss := SlotSubsts(c.slots, t.args, R).value;
          InstantiateApplied(c.Rule().value, ss);
          RuleApplies(c);
          ReduceBlames(InstantiateFormula(c.Rule().value, ss), q, t, c, R);
        }
      }
      RootAtFault(t, R, error);
    }
  }

  lemma {:induction false} NoEquation(c: OpContract)
    requires c.Rule().None?
    ensures c.wpRule.None? && (c.post.Some? ==> NoneEquates(Conjuncts(c.post.value), c.resultVar))
  {
    hide NoneEquates, Conjuncts;
    if c.post.Some? {
      NoneExactly(c.post.value, c.resultVar);
    }
  }

  /** What the rule of the contract applies. */
  ghost function RuleApplied(c: OpContract): set<Name> {
    if c.wpRule.Some? then Applied(c.wpRule.value) else if c.pre.Some? then Applied(c.pre.value) else {}
  }

  lemma {:induction false} RuleApplies(c: OpContract)
    requires c.Rule().Some?
    ensures Applied(c.Rule().value) <= RuleApplied(c)
  {
    assert Applied(Placeholder()) == {};
    if c.wpRule.None? && c.Guarded() {
      var assigns := Substitute(Placeholder(), c.ValueExpr().value, c.resultVar);
      var fs := [c.pre.value, assigns];
      assert fs[1..] == [assigns] && fs[1..][1..] == [];
      assert AllApplied(fs[1..]) == Applied(assigns) + AllApplied([]);
      assert AllApplied(fs) == Applied(c.pre.value) + AllApplied(fs[1..]);
    }
  }

  lemma {:induction false} ReduceBlames(f: IrFormula, q: IrFormula, t: Term, c: OpContract, R: Resolver)
    requires t.Op? && R(t.name) == Some(c) && |c.slots| == |t.args| && Applied(f) <= RuleApplied(c)
    ensures var r := Reduce(f, q, c.slots, t.args, t.name, R);
            r.Err? ==> AtFault(t, R, r.error) || AnyAtFault(t.args, R, r.error)
    decreases Sizes(t.args), 1, FormulaSize(f), 0
  {
    hide AtFault, AnyAtFault, SomeAtFault, Wp, RuleApplied;
    if f != Placeholder() {
      match f
      case Atomic(_, _) =>
      case Connect(_, operands) => ReduceEachBlames(operands, q, t, c, R);
      case Bind(_, _, _, body) => ReduceBlames(body, q, t, c, R);
      case Substitute(target, _, _) => ReduceBlames(target, q, t, c, R);
      case Apply(fn, fargs) =>
        if !IsSlotTransformer(fn) || StmtArg(c.slots, t.args, fn[|SLOT_PREFIX|..]).None? {
          MisappliedAtFault(t, c, R, fn);
        } else {
          var slotTerm := StmtArg(c.slots, t.args, fn[|SLOT_PREFIX|..]).value;
          var arg := q;
          if fargs != [] {
            assert FormulasSize(fargs) == FormulaSize(fargs[0]) + FormulasSize(fargs[1..]);
            ReduceBlames(fargs[0], q, t, c, R);
            arg := AppliedArg(f, q, t, c, R);
          }
          WpBlames(slotTerm, arg, R);
          if Wp(slotTerm, arg, R).Err? {
            ArgAtFault(slotTerm, t.args, R, Wp(slotTerm, arg, R).error);
          }
        }
      case DivergenceBetween(source, dest) =>
        ReduceBlames(source, q, t, c, R);
        ReduceBlames(dest, q, t, c, R);
    }
  }

  /** What the first argument of an applied transformer reduces to, if it does. */
  function AppliedArg(f: IrFormula, q: IrFormula, t: Term, c: OpContract, R: Resolver): IrFormula
    requires f.Apply? && f.fargs != [] && t.Op? && |c.slots| == |t.args|
  {
    match Reduce(f.fargs[0], q, c.slots, t.args, t.name, R)
    case Ok(g) => g
    case Err(_) => q
  }

  lemma {:induction false} MisappliedAtFault(t: Term, c: OpContract, R: Resolver, fn: Name)
    requires t.Op? && R(t.name) == Some(c) && |c.slots| == |t.args| && fn in RuleApplied(c)
    requires !IsSlotTransformer(fn) || StmtArg(c.slots, t.args, fn[|SLOT_PREFIX|..]).None?
    ensures AtFault(t, R, MalformedRule(t.name, fn))
  {
    forall slot: Name | slot != "" && fn == "wp_" + slot
      ensures SlotInfo(slot, StmtSlot) !in c.slots
    {
      TransformerNamed(fn, slot);
      StmtArgExactly(c.slots, t.args, slot);
    }
  }

  lemma {:induction false} ReduceEachBlames(fs: seq<IrFormula>, q: IrFormula, t: Term, c: OpContract, R: Resolver)
    requires t.Op? && R(t.name) == Some(c) && |c.slots| == |t.args| && AllApplied(fs) <= RuleApplied(c)
    ensures var r := ReduceEach(fs, q, c.slots, t.args, t.name, R);
            r.Err? ==> AtFault(t, R, r.error) || AnyAtFault(t.args, R, r.error)
    decreases Sizes(t.args), 1, FormulasSize(fs), 1
  {
    hide AtFault, AnyAtFault, Reduce, RuleApplied;
    if fs != [] {
      ReduceBlames(fs[0], q, t, c, R);
      ReduceEachBlames(fs[1..], q, t, c, R);
    }
  }

  // An operation that is unresolved, opaque, of the wrong arity or without a rule is never given a precondition.
  lemma {:induction false} FaultyFails(t: Term, q: IrFormula, R: Resolver, error: WpError)
    requires AtFault(t, R, error) && !error.MalformedRule?
    ensures Wp(t, q, R).Err?
  {
    hide Conjuncts, NoneEquates, FindResultEquation;
    if error.NoRule? && R(t.name).value.post.Some? {
      NoneExactly(R(t.name).value.post.value, R(t.name).value.resultVar);
    }
  }
}
