// The weakest-precondition evaluator of wp.rs: per-op rules are formulas over
// the op's formals, the placeholder Q and the slot transformers wp_<slot>.
module WpEvaluator {
  import opened Sequences
  import opened Wrappers
  import opened Ir
  import opened Substitution

  datatype WpError =
    | ArityMismatch(op: Name, expected: nat, actual: nat)
    | NoRule(op: Name)
    | MalformedRule(op: Name, fn: Name)
    | OpaqueLoop(loopCid: string)
    | OpaqueCall(callee: Name)

  type WpResult<T> = Result<T, WpError>

  /** A program term. */
  datatype Term =
    | Op(cid: string, name: Name, args: seq<Term>)
    | Variable(name: Name)
    | Constant(value: Json, sort: Sort)
    | Unit

  datatype SlotKind = ValueSlot | StmtSlot
  datatype SlotInfo = SlotInfo(name: Name, kind: SlotKind)

  datatype OpContract = OpContract(
    slots: seq<SlotInfo>,
    pre: Option<IrFormula>,
    post: Option<IrFormula>,
    wpRule: Option<IrFormula>,
    resultVar: Name,
    unresolvedCall: Option<Name>,
    opaqueLoop: Option<string>)
  {
    /** The right-hand side of `result = value` in the postcondition. */
    function ValueExpr(): Option<IrTerm> {
      match post
      case None => None
      case Some(p) => FindResultEquation(p, resultVar)
    }

    /** There is a precondition, and it is not literally true. */
    predicate Guarded() {
      pre.Some? && !IsAtomicTrue(pre.value)
    }

    /** pre and Q[result := value]; a pre that is literally true is dropped. */
    function SynthesizeValueRule(): Option<IrFormula> {
      match ValueExpr()
      case None => None
      case Some(v) =>
        var subst := Substitute(Placeholder(), v, resultVar);
        if Guarded() then Some(Connect(And, [pre.value, subst])) else Some(subst)
    }

    function Rule(): Option<IrFormula> {
      if wpRule.Some? then wpRule else SynthesizeValueRule()
    }
  }

  type Resolver = Name -> Option<OpContract>

  const RESULT: Name := "result"
  const SLOT_PREFIX: string := "wp_"

  function Placeholder(): IrFormula {
    Atomic("Q", [])
  }

  predicate IsAtomicTrue(f: IrFormula) {
    f == Atomic("true", [])
  }

  predicate IsSlotTransformer(fn: Name) {
    SLOT_PREFIX <= fn && |fn| > |SLOT_PREFIX|
  }

  function FindResultEquation(f: IrFormula, x: Name): Option<IrTerm>
    decreases FormulaSize(f), 0
  {
    match f
    case Atomic(name, args) =>
      if name != "=" || |args| != 2 then None
      else if args[0] == Var(x) then Some(args[1])
      else if args[1] == Var(x) then Some(args[0])
      else None
    case Connect(And, operands) => FindFirstEquation(operands, x)
    case _ => None
  }

  function FindFirstEquation(fs: seq<IrFormula>, x: Name): Option<IrTerm>
    decreases FormulasSize(fs), 1
  {
    if fs == [] then None
    else
      var first := FindResultEquation(fs[0], x);
      if first.Some? then first else FindFirstEquation(fs[1..], x)
  }

  // ---------- sizes ----------

  function Size(t: Term): (n: nat)
    ensures n > 0
  {
    match t
    case Op(_, _, args) => 1 + Sizes(args)
    case _ => 1
  }

  function Sizes(ts: seq<Term>): nat {
    if ts == [] then 0 else Size(ts[0]) + Sizes(ts[1..])
  }

  // ---------- values ----------

  datatype Subst = Subst(formal: Name, value: IrTerm)

  function InstantiateTerm(t: IrTerm, ss: seq<Subst>): IrTerm
    decreases ss
  {
    if ss == [] then t else InstantiateTerm(SubstTerm(t, ss[0].formal, ss[0].value), ss[1..])
  }

  function InstantiateFormula(f: IrFormula, ss: seq<Subst>): (g: IrFormula)
    ensures FormulaSize(g) == FormulaSize(f)
    decreases ss
  {
    if ss == [] then f else InstantiateFormula(SubstFormula(f, ss[0].formal, ss[0].value), ss[1..])
  }

  /** The value slots with the values plugged into them. */
  function ValueSubsts(slots: seq<SlotInfo>, vs: seq<IrTerm>): (ss: seq<Subst>)
    requires |slots| == |vs|
    ensures |ss| <= |slots|
  {
    if slots == [] then [] else
    var rest := ValueSubsts(slots[1..], vs[1..]);
    if slots[0].kind == ValueSlot then [Subst(slots[0].name, vs[0])] + rest else rest
  }

  /** The value expression a sub-term evaluates to. */
  function ValueExprOfTerm(t: Term, R: Resolver): WpResult<IrTerm>
    decreases Size(t), 0
  {
    match t
    case Variable(name) => Ok(Var(name))
    case Constant(value, sort) => Ok(Const(value, sort))
    case Unit => Ok(Ctor("unit", []))
    case Op(_, name, args) =>
      match R(name)
      case None =>
        (match ValueExprs(args, R)
         case Err(e) => Err(e)
         case Ok(vs) => Ok(Ctor(name, vs)))
      case Some(contract) =>
        if contract.unresolvedCall.Some? then Err(OpaqueCall(contract.unresolvedCall.value))
        else if |contract.slots| != |args| then Err(ArityMismatch(name, |contract.slots|, |args|))
        else
          match ValueExprs(args, R)
          case Err(e) => Err(e)
          case Ok(vs) =>
            match contract.ValueExpr()
            case Some(expr) => Ok(InstantiateTerm(expr, ValueSubsts(contract.slots, vs)))
            case None => Ok(Ctor(name, vs))
  }

  function ValueExprs(ts: seq<Term>, R: Resolver): (r: WpResult<seq<IrTerm>>)
    ensures r.Ok? ==> |r.value| == |ts|
    decreases Sizes(ts), 1
  {
    if ts == [] then Ok([]) else
    match ValueExprOfTerm(ts[0], R)
    case Err(e) => Err(e)
    case Ok(v) =>
      match ValueExprs(ts[1..], R)
      case Err(e) => Err(e)
      case Ok(vs) => Ok([v] + vs)
  }

  /** The substitutions of an op's value slots; statement slots are not evaluated. */
  function SlotSubsts(slots: seq<SlotInfo>, args: seq<Term>, R: Resolver): WpResult<seq<Subst>>
    requires |slots| == |args|
  {
    if slots == [] then Ok([])
    else if slots[0].kind == StmtSlot then SlotSubsts(slots[1..], args[1..], R)
    else
      match ValueExprOfTerm(args[0], R)
      case Err(e) => Err(e)
      case Ok(v) =>
        match SlotSubsts(slots[1..], args[1..], R)
        case Err(e) => Err(e)
        case Ok(ss) => Ok([Subst(slots[0].name, v)] + ss)
  }

  /** The sub-term in the first statement slot of that name. */
  function StmtArg(slots: seq<SlotInfo>, args: seq<Term>, slot: Name): (t: Option<Term>)
    requires |slots| == |args|
    ensures t.Some? ==> t.value in args && Size(t.value) <= Sizes(args)
  {
    if slots == [] then None
    else if slots[0].kind == StmtSlot && slots[0].name == slot then Some(args[0])
    else StmtArg(slots[1..], args[1..], slot)
  }

  // ---------- the evaluator ----------

  /** wp(t, q). Total: every term yields a formula or an error. */
  function Wp(t: Term, q: IrFormula, R: Resolver): WpResult<IrFormula>
    decreases Size(t), 0, 0
  {
    match t
    case Variable(name) => Ok(SubstFormula(q, RESULT, Var(name)))
    case Constant(value, sort) => Ok(SubstFormula(q, RESULT, Const(value, sort)))
    case Unit => Ok(q)
    case Op(_, name, args) =>
      match R(name)
      case None => Err(OpaqueCall(name))
      case Some(contract) =>
        if contract.unresolvedCall.Some? then Err(OpaqueCall(contract.unresolvedCall.value))
        else if contract.opaqueLoop.Some? then Err(OpaqueLoop(contract.opaqueLoop.value))
        else if |contract.slots| != |args| then Err(ArityMismatch(name, |contract.slots|, |args|))
        else
          match contract.Rule()
          case None => Err(NoRule(name))
          case Some(rule) =>
            match SlotSubsts(contract.slots, args, R)
            case Err(e) => Err(e)
            case Ok(ss) => Reduce(InstantiateFormula(rule, ss), q, contract.slots, args, name, R)
  }

  /** Eliminates the schema nodes of an instantiated rule. */
  function Reduce(f: IrFormula, q: IrFormula, slots: seq<SlotInfo>, args: seq<Term>, op: Name,
                  R: Resolver): WpResult<IrFormula>
    requires |slots| == |args|
    decreases Sizes(args), 1, FormulaSize(f), 0
  {
    if f == Placeholder() then Ok(q) else
    match f
    case Atomic(_, _) => Ok(f)
    case Connect(c, operands) =>
      (match ReduceEach(operands, q, slots, args, op, R)
       case Err(e) => Err(e)
       case Ok(fs) => Ok(Connect(c, fs)))
    case Bind(b, name, sort, body) =>
      (match Reduce(body, q, slots, args, op, R)
       case Err(e) => Err(e)
       case Ok(g) => Ok(Bind(b, name, sort, g)))
    case Substitute(target, term, x) =>
      (match Reduce(target, q, slots, args, op, R)
       case Err(e) => Err(e)
       case Ok(g) => Ok(SubstFormula(g, x, term)))
    case Apply(fn, fargs) =>
      if !IsSlotTransformer(fn) then Err(MalformedRule(op, fn)) else
      (match StmtArg(slots, args, fn[|SLOT_PREFIX|..])
       case None => Err(MalformedRule(op, fn))
       case Some(slotTerm) =>
         if fargs == [] then Wp(slotTerm, q, R) else
         assert FormulasSize(fargs) == FormulaSize(fargs[0]) + FormulasSize(fargs[1..]);
         match Reduce(fargs[0], q, slots, args, op, R)
         case Err(e) => Err(e)
         case Ok(arg) => Wp(slotTerm, arg, R))
    case DivergenceBetween(source, dest) =>
      match Reduce(source, q, slots, args, op, R)
      case Err(e) => Err(e)
      case Ok(g) =>
        match Reduce(dest, q, slots, args, op, R)
        case Err(e) => Err(e)
        case Ok(h) => Ok(DivergenceBetween(g, h))
  }

  function ReduceEach(fs: seq<IrFormula>, q: IrFormula, slots: seq<SlotInfo>, args: seq<Term>, op: Name, R: Resolver)
    : (r: WpResult<seq<IrFormula>>)
    requires |slots| == |args|
    ensures r.Ok? ==> |r.value| == |fs|
    decreases Sizes(args), 1, FormulasSize(fs), 1
  {
    if fs == [] then Ok([]) else
    match Reduce(fs[0], q, slots, args, op, R)
    case Err(e) => Err(e)
    case Ok(g) =>
      match ReduceEach(fs[1..], q, slots, args, op, R)
      case Err(e) => Err(e)
      case Ok(gs) => Ok([g] + gs)
  }

  /** The slot loop of wp_op. */
  method BindSlots(slots: seq<SlotInfo>, args: seq<Term>, R: Resolver) returns (bound: WpResult<seq<Subst>>)
    requires |slots| == |args|
    ensures bound == SlotSubsts(slots, args, R)
  {
    var substs: seq<Subst> := [];
    assert slots[0..] == slots && args[0..] == args;
    ghost var all := SlotSubsts(slots, args, R);
    assert all.Ok? ==> [] + all.value == all.value;
    for i := 0 to |slots|
      invariant SlotSubsts(slots, args, R) == Prepend(substs, SlotSubsts(slots[i..], args[i..], R))
    {
      assert slots[i..][0] == slots[i] && slots[i..][1..] == slots[i + 1..];
      assert args[i..][0] == args[i] && args[i..][1..] == args[i + 1..];
      if slots[i].kind == ValueSlot {
        match ValueExprOfTerm(args[i], R)
        case Err(e) => return Err(e);
        case Ok(v) =>
          ghost var rest := SlotSubsts(slots[i + 1..], args[i + 1..], R);
          if rest.Ok? {
            ConcatAssoc(substs, [Subst(slots[i].name, v)], rest.value);
          }
          substs := substs + [Subst(slots[i].name, v)];
      }
    }
    assert substs + [] == substs;
    return Ok(substs);
  }

  ghost function Prepend(ss: seq<Subst>, r: WpResult<seq<Subst>>): WpResult<seq<Subst>> {
    match r
    case Err(e) => Err(e)
    case Ok(rest) => Ok(ss + rest)
  }

  // ---------- no schema node survives ----------

  /** No Substitute, no Apply, no placeholder. */
  predicate SchemaFree(f: IrFormula) {
    f != Placeholder() &&
    match f
    case Atomic(_, _) => true
    case Connect(_, operands) => forall o :: o in operands ==> SchemaFree(o)
    case Bind(_, _, _, body) => SchemaFree(body)
    case Substitute(_, _, _) => false
    case Apply(_, _) => false
    case DivergenceBetween(source, dest) => SchemaFree(source) && SchemaFree(dest)
  }

  lemma {:induction false} SubstSchemaFree(f: IrFormula, x: Name, r: IrTerm)
    requires SchemaFree(f)
    ensures SchemaFree(SubstFormula(f, x, r))
    decreases FormulaSize(f), 0
  {
    match f
    case Atomic(_, args) =>
    case Connect(_, operands) => SubstAllSchemaFree(operands, x, r);
    case Bind(_, name, _, body) =>
      if name != x {
        if name in FreeTerm(r) {
          var name' := FreshName(FreeTerm(r) + FreeFormula(body) + {x, name}, name);
          SubstSchemaFree(body, name, Var(name'));
          SubstSchemaFree(SubstFormula(body, name, Var(name')), x, r);
        } else {
          SubstSchemaFree(body, x, r);
        }
      }
    case DivergenceBetween(source, dest) =>
      SubstSchemaFree(source, x, r);
      SubstSchemaFree(dest, x, r);
  }

  lemma {:induction false} SubstAllSchemaFree(fs: seq<IrFormula>, x: Name, r: IrTerm)
    requires forall f :: f in fs ==> SchemaFree(f)
    ensures forall g :: g in SubstFormulas(fs, x, r) ==> SchemaFree(g)
    decreases FormulasSize(fs), 1
  {
    if fs != [] {
      SubstSchemaFree(fs[0], x, r);
      SubstAllSchemaFree(fs[1..], x, r);
    }
  }

  // For a schema-free postcondition every success is schema-free, whatever the rules are.
  lemma {:induction false} WpSchemaFree(t: Term, q: IrFormula, R: Resolver)
    requires SchemaFree(q) && Wp(t, q, R).Ok?
    ensures SchemaFree(Wp(t, q, R).value)
    decreases Size(t), 0, 0
  {
    match t
    case Variable(name) => SubstSchemaFree(q, RESULT, Var(name));
    case Constant(value, sort) => SubstSchemaFree(q, RESULT, Const(value, sort));
    case Unit =>
    case Op(_, name, args) =>
      var contract := R(name).value;
      var ss := SlotSubsts(contract.slots, args, R).value;
      ReduceSchemaFree(InstantiateFormula(contract.Rule().value, ss), q, contract.slots, args, name, R);
  }

  lemma {:induction false} ReduceSchemaFree(f: IrFormula, q: IrFormula, slots: seq<SlotInfo>, args: seq<Term>,
                                            op: Name, R: Resolver)
    requires |slots| == |args|
    requires SchemaFree(q) && Reduce(f, q, slots, args, op, R).Ok?
    ensures SchemaFree(Reduce(f, q, slots, args, op, R).value)
    decreases Sizes(args), 1, FormulaSize(f), 0
  {
    if f != Placeholder() {
      match f
      case Atomic(_, _) =>
      case Connect(_, operands) => ReduceEachSchemaFree(operands, q, slots, args, op, R);
      case Bind(_, _, _, body) => ReduceSchemaFree(body, q, slots, args, op, R);
      case Substitute(target, term, x) =>
        ReduceSchemaFree(target, q, slots, args, op, R);
        SubstSchemaFree(Reduce(target, q, slots, args, op, R).value, x, term);
      case Apply(fn, fargs) =>
        var slotTerm := StmtArg(slots, args, fn[|SLOT_PREFIX|..]).value;
        if fargs == [] {
          WpSchemaFree(slotTerm, q, R);
        } else {
          assert FormulasSize(fargs) == FormulaSize(fargs[0]) + FormulasSize(fargs[1..]);
          ReduceSchemaFree(fargs[0], q, slots, args, op, R);
          WpSchemaFree(slotTerm, Reduce(fargs[0], q, slots, args, op, R).value, R);
        }
      case DivergenceBetween(source, dest) =>
        ReduceSchemaFree(source, q, slots, args, op, R);
        ReduceSchemaFree(dest, q, slots, args, op, R);
    }
  }

  lemma {:induction false} ReduceEachSchemaFree(fs: seq<IrFormula>, q: IrFormula, slots: seq<SlotInfo>,
                                                args: seq<Term>, op: Name, R: Resolver)
    requires |slots| == |args|
    requires SchemaFree(q) && ReduceEach(fs, q, slots, args, op, R).Ok?
    ensures forall g :: g in ReduceEach(fs, q, slots, args, op, R).value ==> SchemaFree(g)
    decreases Sizes(args), 1, FormulasSize(fs), 1
  {
    if fs != [] {
      ReduceSchemaFree(fs[0], q, slots, args, op, R);
      ReduceEachSchemaFree(fs[1..], q, slots, args, op, R);
    }
  }
}
