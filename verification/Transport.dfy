// Term transport between languages (transport.rs): each op is renamed through a
// discharged row. A transport whose rows preserve contracts preserves wp.
module Transport {
  import opened Wrappers
  import opened Ir
  import opened Substitution
  import opened WpEvaluator

  datatype OperationTransport = OperationTransport(sourceCid: string, targetName: Name, targetCid: string)

  /** Rows by source name. */
  type TermTransport = map<Name, OperationTransport>

  datatype TransportError =
    | MissingOperationMorphism(sourceName: Name)
    | OperationCidMismatch(sourceName: Name, expected: string, actual: string)

  datatype Transported<+T> = Done(value: T) | Refused(error: TransportError)

  function TransportTerm(tr: TermTransport, t: Term): Transported<Term>
    decreases Size(t), 0
  {
    match t
    case Op(cid, name, args) =>
      if name !in tr then Refused(MissingOperationMorphism(name))
      else if tr[name].sourceCid != cid then Refused(OperationCidMismatch(name, tr[name].sourceCid, cid))
      else
        (match TransportTerms(tr, args)
         case Refused(e) => Refused(e)
         case Done(args') => Done(Op(tr[name].targetCid, tr[name].targetName, args')))
    case _ => Done(t)
  }

  function TransportTerms(tr: TermTransport, ts: seq<Term>): (r: Transported<seq<Term>>)
    ensures r.Done? ==> |r.value| == |ts|
    decreases Sizes(ts), 1
  {
    if ts == [] then Done([]) else
    match TransportTerm(tr, ts[0])
    case Refused(e) => Refused(e)
    case Done(t) =>
      match TransportTerms(tr, ts[1..])
      case Refused(e) => Refused(e)
      case Done(us) => Done([t] + us)
  }

  /** Every row leads to an op with the same contract. */
  ghost predicate Faithful(tr: TermTransport, source: Resolver, target: Resolver) {
    forall name :: name in tr ==> target(tr[name].targetName) == source(name)
  }

  predicate HasValue(R: Resolver, name: Name) {
    R(name).Some? && R(name).value.ValueExpr().Some?
  }

  predicate KeepsName(tr: TermTransport, name: Name) {
    name in tr && tr[name].targetName == name
  }

  /** Every op of a term in value position has a value expression of its own, or is not renamed. */
  predicate Interpreted(tr: TermTransport, t: Term, R: Resolver)
    decreases Size(t), 0
  {
    match t
    case Op(_, name, args) => (HasValue(R, name) || KeepsName(tr, name)) && AllInterpreted(tr, args, R)
    case _ => true
  }

  predicate AllInterpreted(tr: TermTransport, ts: seq<Term>, R: Resolver)
    decreases Sizes(ts), 1
  {
    ts == [] || (Interpreted(tr, ts[0], R) && AllInterpreted(tr, ts[1..], R))
  }

  /** The same, for the value positions of a statement. */
  predicate ValuesInterpreted(tr: TermTransport, t: Term, R: Resolver)
    decreases Size(t), 0
  {
    match t
    case Op(_, name, args) =>
      R(name).Some? && |R(name).value.slots| == |args| ==> SlotsInterpreted(tr, R(name).value.slots, args, R)
    case _ => true
  }

  predicate SlotsInterpreted(tr: TermTransport, slots: seq<SlotInfo>, args: seq<Term>, R: Resolver)
    requires |slots| == |args|
    decreases Sizes(args), 1
  {
    slots == [] ||
    ((if slots[0].kind == ValueSlot then Interpreted(tr, args[0], R) else ValuesInterpreted(tr, args[0], R))
     && SlotsInterpreted(tr, slots[1..], args[1..], R))
  }

  /** Both fail, or both succeed with the same result. */
  predicate Same<T(==)>(a: WpResult<T>, b: WpResult<T>) {
    a.Ok? == b.Ok? && (a.Ok? ==> a.value == b.value)
  }

  lemma {:induction false} ValuePreserved(tr: TermTransport, t: Term, source: Resolver, target: Resolver)
    requires TransportTerm(tr, t).Done? && Faithful(tr, source, target) && Interpreted(tr, t, source)
    ensures Same(ValueExprOfTerm(TransportTerm(tr, t).value, target), ValueExprOfTerm(t, source))
    decreases Size(t), 0
  {
    match t
    case Op(_, name, args) => ValuesPreserved(tr, args, source, target);
    case _ =>
  }

  lemma {:induction false} ValuesPreserved(tr: TermTransport, ts: seq<Term>, source: Resolver, target: Resolver)
    requires TransportTerms(tr, ts).Done? && Faithful(tr, source, target) && AllInterpreted(tr, ts, source)
    ensures Same(ValueExprs(TransportTerms(tr, ts).value, target), ValueExprs(ts, source))
    decreases Sizes(ts), 1
  {
    if ts != [] {
      ValuePreserved(tr, ts[0], source, target);
      ValuesPreserved(tr, ts[1..], source, target);
      assert TransportTerms(tr, ts).value[1..] == TransportTerms(tr, ts[1..]).value;
    }
  }

  lemma {:induction false} SlotsPreserved(tr: TermTransport, slots: seq<SlotInfo>, args: seq<Term>, source: Resolver,
                                          target: Resolver)
    requires |slots| == |args| && TransportTerms(tr, args).Done?
    requires Faithful(tr, source, target) && SlotsInterpreted(tr, slots, args, source)
    ensures Same(SlotSubsts(slots, TransportTerms(tr, args).value, target), SlotSubsts(slots, args, source))
  {
    if slots != [] {
      SlotsPreserved(tr, slots[1..], args[1..], source, target);
      assert TransportTerms(tr, args).value[1..] == TransportTerms(tr, args[1..]).value;
      if slots[0].kind == ValueSlot {
        ValuePreserved(tr, args[0], source, target);
      }
    }
  }

  lemma {:induction false} StmtArgPreserved(tr: TermTransport, slots: seq<SlotInfo>, args: seq<Term>, slot: Name,
                                            source: Resolver)
    requires |slots| == |args| && TransportTerms(tr, args).Done? && SlotsInterpreted(tr, slots, args, source)
    ensures var a, b := StmtArg(slots, args, slot), StmtArg(slots, TransportTerms(tr, args).value, slot);
            && a.Some? == b.Some?
            && (a.Some? ==> TransportTerm(tr, a.value) == Done(b.value) && ValuesInterpreted(tr, a.value, source))
  {
    if slots != [] {
      assert TransportTerms(tr, args).value[1..] == TransportTerms(tr, args[1..]).value;
      StmtArgPreserved(tr, slots[1..], args[1..], slot, source);
    }
  }

  // wp commutes with transport: the transported term has the very same weakest preconditions.
  lemma {:induction false} WpPreserved(tr: TermTransport, t: Term, q: IrFormula, source: Resolver, target: Resolver)
    requires TransportTerm(tr, t).Done? && Faithful(tr, source, target) && ValuesInterpreted(tr, t, source)
    ensures Same(Wp(TransportTerm(tr, t).value, q, target), Wp(t, q, source))
    decreases Size(t), 0, 0
  {
    match t
    case Op(_, name, args) =>
      var args' := TransportTerms(tr, args).value;
      if source(name).Some? && |source(name).value.slots| == |args| && source(name).value.Rule().Some? {
        var contract := source(name).value;
        SlotsPreserved(tr, contract.slots, args, source, target);
        var ss := SlotSubsts(contract.slots, args, source);
        if ss.Ok? {
          var f := InstantiateFormula(contract.Rule().value, ss.value);
          ReducePreserved(tr, f, q, contract.slots, args, name, tr[name].targetName, source, target);
        }
      }
    case _ =>
  }

  lemma {:induction false} ReducePreserved(tr: TermTransport, f: IrFormula, q: IrFormula, slots: seq<SlotInfo>,
                                           args: seq<Term>, op: Name, op': Name, source: Resolver, target: Resolver)
    requires |slots| == |args| && TransportTerms(tr, args).Done?
    requires Faithful(tr, source, target) && SlotsInterpreted(tr, slots, args, source)
    ensures Same(Reduce(f, q, slots, TransportTerms(tr, args).value, op', target), Reduce(f, q, slots, args, op,
              source))
    decreases Sizes(args), 1, FormulaSize(f), 0
  {
    if f != Placeholder() {
      match f
      case Atomic(_, _) =>
      case Connect(_, operands) => ReduceEachPreserved(tr, operands, q, slots, args, op, op', source, target);
      case Bind(_, _, _, body) => ReducePreserved(tr, body, q, slots, args, op, op', source, target);
      case Substitute(body, _, _) => ReducePreserved(tr, body, q, slots, args, op, op', source, target);
      case Apply(fn, fargs) => ApplyPreserved(tr, fn, fargs, q, slots, args, op, op', source, target);
      case DivergenceBetween(left, right) =>
        ReducePreserved(tr, left, q, slots, args, op, op', source, target);
        ReducePreserved(tr, right, q, slots, args, op, op', source, target);
    }
  }

  lemma {:induction false} ApplyPreserved(tr: TermTransport, fn: Name, fargs: seq<IrFormula>, q: IrFormula,
                                          slots: seq<SlotInfo>,
                                          args: seq<Term>, op: Name, op': Name, source: Resolver, target: Resolver)
    requires |slots| == |args| && TransportTerms(tr, args).Done?
    requires Faithful(tr, source, target) && SlotsInterpreted(tr, slots, args, source)
    ensures Same(Reduce(Apply(fn, fargs), q, slots, TransportTerms(tr, args).value, op', target),
                 Reduce(Apply(fn, fargs), q, slots, args, op, source))
    decreases Sizes(args), 1, FormulasSize(fargs), 2
  {
    if IsSlotTransformer(fn) {
      var slot := fn[|SLOT_PREFIX|..];
      StmtArgPreserved(tr, slots, args, slot, source);
      if StmtArg(slots, args, slot).Some? {
        var slotTerm := StmtArg(slots, args, slot).value;
        if fargs == [] {
          WpPreserved(tr, slotTerm, q, source, target);
        } else {
          assert FormulasSize(fargs) == FormulaSize(fargs[0]) + FormulasSize(fargs[1..]);
          ReducePreserved(tr, fargs[0], q, slots, args, op, op', source, target);
          var arg := Reduce(fargs[0], q, slots, args, op, source);
          if arg.Ok? {
            WpPreserved(tr, slotTerm, arg.value, source, target);
          }
        }
      }
    }
  }

  lemma {:induction false} ReduceEachPreserved(tr: TermTransport, fs: seq<IrFormula>, q: IrFormula,
                                               slots: seq<SlotInfo>,
                                               args: seq<Term>, op: Name, op': Name, source: Resolver, target: Resolver)
    requires |slots| == |args| && TransportTerms(tr, args).Done?
    requires Faithful(tr, source, target) && SlotsInterpreted(tr, slots, args, source)
    ensures Same(ReduceEach(fs, q, slots, TransportTerms(tr, args).value, op', target),
                 ReduceEach(fs, q, slots, args, op, source))
    decreases Sizes(args), 1, FormulasSize(fs), 1
  {
    if fs != [] {
      ReducePreserved(tr, fs[0], q, slots, args, op, op', source, target);
      ReduceEachPreserved(tr, fs[1..], q, slots, args, op, op', source, target);
    }
  }

  // ---------- what renaming does to an uninterpreted constructor ----------

  // An op without a value expression keeps its value exactly if it keeps its name and its arguments their values.
  lemma {:induction false} UninterpretedExactly(tr: TermTransport, t: Term, source: Resolver, target: Resolver)
    requires t.Op? && TransportTerm(tr, t).Done? && Faithful(tr, source, target)
    requires !HasValue(source, t.name) && ValueExprOfTerm(t, source).Ok?
    ensures Same(ValueExprOfTerm(TransportTerm(tr, t).value, target), ValueExprOfTerm(t, source)) <==>
              && KeepsName(tr, t.name)
              && Same(ValueExprs(TransportTerms(tr, t.args).value, target), ValueExprs(t.args, source))
  {
  }

  /** `put` reads its one value slot; nothing else has a contract. */
  function PutResolver(): Resolver {
    (name: Name) =>
      if name == "put"
      then Some(OpContract([SlotInfo("x", ValueSlot)], None, None, Some(Atomic("p", [Var("x")])), RESULT, None, None))
      else None
  }

  lemma {:induction false} PutOf(name: Name, q: IrFormula)
    requires name != "put"
    ensures Wp(Op("cid", "put", [Op("cid", name, [])]), q, PutResolver()) == Ok(Atomic("p", [Ctor(name, [])]))
  {
    var R := PutResolver();
    var u := R("put").value;
    var args := [Op("cid", name, [])];
    assert args[1..] == [] && u.slots[1..] == [];
    assert ValueExprs([], R) == Ok([]);
    assert ValueExprOfTerm(args[0], R) == Ok(Ctor(name, []));
    assert SlotSubsts([], [], R) == Ok([]);
    var ss := [Subst("x", Ctor(name, []))];
    assert ss + [] == ss && ss[1..] == [];
    assert SlotSubsts(u.slots, args, R) == Ok(ss);
    assert [Var("x")][1..] == [];
    assert SubstTerms([Var("x")], "x", Ctor(name, [])) == [Ctor(name, [])];
    assert InstantiateFormula(u.wpRule.value, ss) == Atomic("p", [Ctor(name, [])]);
  }

  // A faithful row that renames an uninterpreted constructor changes wp.
  lemma {:induction false} RenamedConstructor(q: IrFormula)
    ensures var tr: TermTransport :=
              map["put" := OperationTransport("cid", "put", "cid"), "u" := OperationTransport("cid", "v", "cid")];
            var t := Op("cid", "put", [Op("cid", "u", [])]);
            && Faithful(tr, PutResolver(), PutResolver())
            && TransportTerm(tr, t) == Done(Op("cid", "put", [Op("cid", "v", [])]))
            && Wp(t, q, PutResolver()) == Ok(Atomic("p", [Ctor("u", [])]))
            && Wp(TransportTerm(tr, t).value, q, PutResolver()) == Ok(Atomic("p", [Ctor("v", [])]))
  {
    var tr: TermTransport :=
      map["put" := OperationTransport("cid", "put", "cid"), "u" := OperationTransport("cid", "v", "cid")];
    var inner := Op("cid", "u", []);
    assert [inner][1..] == [];
    assert TransportTerms(tr, []) == Done([]);
    assert [Op("cid", "v", [])] + [] == [Op("cid", "v", [])];
    assert TransportTerms(tr, [inner]) == Done([Op("cid", "v", [])]);
    PutOf("u", q);
    PutOf("v", q);
  }
}
