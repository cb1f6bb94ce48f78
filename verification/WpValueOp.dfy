// Operations without an authored rule (wp.rs): what wp makes of their precondition and result equation, and which
// equation that is.
module WpValueOp {
  import opened Wrappers
  import opened Ir
  import opened Substitution
  import opened Semantics
  import opened SubstLemma
  import opened WpEvaluator
  import opened WpSound

  // ---------- the result equation ----------

  /** The parts of a formula that hold where it does: the operands of its conjunctions, in reading order. */
  function Conjuncts(f: IrFormula): seq<IrFormula>
    decreases FormulaSize(f), 0
  {
    if f.Connect? && f.conn == And then AllConjuncts(f.operands) else [f]
  }

  function AllConjuncts(fs: seq<IrFormula>): seq<IrFormula>
    decreases FormulasSize(fs), 1
  {
    if fs == [] then [] else Conjuncts(fs[0]) + AllConjuncts(fs[1..])
  }

  /** The formula says that x equals v, either way round. */
  predicate Equates(f: IrFormula, x: Name, v: IrTerm) {
    f == Atomic("=", [Var(x), v]) || f == Atomic("=", [v, Var(x)])
  }

  /** The first conjunct that equates x with anything equates it with v. */
  ghost predicate FirstEquates(fs: seq<IrFormula>, x: Name, v: IrTerm) {
    exists i: nat :: i < |fs| && Equates(fs[i], x, v) && NoneEquates(fs[..i], x)
  }

  ghost predicate NoneEquates(fs: seq<IrFormula>, x: Name) {
    forall f, w :: f in fs ==> !Equates(f, x, w)
  }

  // The value found is the other side of the first equation on the name, if there is one.
  lemma {:induction false} EquationExactly(f: IrFormula, x: Name)
    ensures FindResultEquation(f, x).None? ==> NoneEquates(Conjuncts(f), x)
    ensures FindResultEquation(f, x).Some? ==> FirstEquates(Conjuncts(f), x, FindResultEquation(f, x).value)
    decreases FormulaSize(f), 0
  {
    match f
    case Atomic(name, args) => AtomEquates(name, args, x);
    case Connect(c, operands) =>
      if c == And {
        FirstEquationExactly(operands, x);
      }
    case _ =>
  }

  lemma {:induction false} NoneExactly(f: IrFormula, x: Name)
    ensures FindResultEquation(f, x).None? <==> NoneEquates(Conjuncts(f), x)
  {
    hide Conjuncts, Equates, FindResultEquation;
    EquationExactly(f, x);
    if FindResultEquation(f, x).Some? {
      var fs := Conjuncts(f);
      var i: nat :| i < |fs| && Equates(fs[i], x, FindResultEquation(f, x).value);
      assert fs[i] in fs;
    }
  }

  lemma {:induction false} AtomEquates(name: Name, args: seq<IrTerm>, x: Name)
    ensures var f := Atomic(name, args);
            && (FindResultEquation(f, x).None? ==> NoneEquates([f], x))
            && (FindResultEquation(f, x).Some? ==> FirstEquates([f], x, FindResultEquation(f, x).value))
  {
    var f := Atomic(name, args);
    if FindResultEquation(f, x).Some? {
      var v := FindResultEquation(f, x).value;
      assert args == [args[0], args[1]];
      assert Equates([f][0], x, v) && [f][..0] == [];
    }
  }

  lemma {:induction false} FirstEquationExactly(fs: seq<IrFormula>, x: Name)
    ensures FindFirstEquation(fs, x).None? ==> NoneEquates(AllConjuncts(fs), x)
    ensures FindFirstEquation(fs, x).Some? ==> FirstEquates(AllConjuncts(fs), x, FindFirstEquation(fs, x).value)
    decreases FormulasSize(fs), 1
  {
    hide Equates;
    if fs != [] {
      EquationExactly(fs[0], x);
      FirstEquationExactly(fs[1..], x);
      var front, back := Conjuncts(fs[0]), AllConjuncts(fs[1..]);
      if FindResultEquation(fs[0], x).Some? {
        var i: nat :| i < |front| && Equates(front[i], x, FindResultEquation(fs[0], x).value)
          && NoneEquates(front[..i], x);
        assert (front + back)[i] == front[i] && (front + back)[..i] == front[..i];
      } else if FindFirstEquation(fs, x).Some? {
        var i: nat :| i < |back| && Equates(back[i], x, FindFirstEquation(fs, x).value) && NoneEquates(back[..i], x);
        assert (front + back)[|front| + i] == back[i] && (front + back)[..|front| + i] == front + back[..i];
      }
    }
  }

  // ---------- the slots ----------

  predicate FirstStmt(slots: seq<SlotInfo>, slot: Name, i: nat) {
    i < |slots| && slots[i] == SlotInfo(slot, StmtSlot) && SlotInfo(slot, StmtSlot) !in slots[..i]
  }

  // The sub-term a slot name stands for is that of the first statement slot of the name.
  lemma {:induction false} StmtArgExactly(slots: seq<SlotInfo>, args: seq<Term>, slot: Name)
    requires |slots| == |args|
    ensures StmtArg(slots, args, slot).None? ==> SlotInfo(slot, StmtSlot) !in slots
    ensures StmtArg(slots, args, slot).Some? ==>
              exists i: nat :: FirstStmt(slots, slot, i) && args[i] == StmtArg(slots, args, slot).value
  {
    if slots != [] {
      if slots[0].kind == StmtSlot && slots[0].name == slot {
        assert FirstStmt(slots, slot, 0);
      } else {
        StmtArgExactly(slots[1..], args[1..], slot);
        if StmtArg(slots, args, slot).Some? {
          var i: nat :| FirstStmt(slots[1..], slot, i) && args[1..][i] == StmtArg(slots, args, slot).value;
          FirstBehind(slots, slot, i);
        }
      }
    }
  }

  lemma {:induction false} FirstBehind(slots: seq<SlotInfo>, slot: Name, i: nat)
    requires slots != [] && slots[0] != SlotInfo(slot, StmtSlot) && FirstStmt(slots[1..], slot, i)
    ensures FirstStmt(slots, slot, i + 1)
  {
    assert slots[..i + 1] == [slots[0]] + slots[1..][..i];
  }

  // A slot transformer is named by the prefix and the name of the slot.
  lemma {:induction false} TransformerNamed(fn: Name, slot: Name)
    ensures fn == "wp_" + slot && slot != "" <==> IsSlotTransformer(fn) && fn[|SLOT_PREFIX|..] == slot
  {
    if IsSlotTransformer(fn) {
      assert fn == fn[..|SLOT_PREFIX|] + fn[|SLOT_PREFIX|..];
    }
  }

  // ---------- the synthesized rule ----------

  /** No authored rule, and a postcondition that gives the result this value. */
  ghost predicate ComputesValue(c: OpContract, value: IrTerm) {
    c.wpRule.None? && c.post.Some? && FirstEquates(Conjuncts(c.post.value), c.resultVar, value)
  }

  lemma {:induction false} OneValue(fs: seq<IrFormula>, x: Name, v: IrTerm, w: IrTerm)
    requires FirstEquates(fs, x, v) && FirstEquates(fs, x, w)
    ensures v == w
  {
    var i: nat :| i < |fs| && Equates(fs[i], x, v) && NoneEquates(fs[..i], x);
    var j: nat :| j < |fs| && Equates(fs[j], x, w) && NoneEquates(fs[..j], x);
    if i < j {
      assert fs[i] in fs[..j];
    } else if j < i {
      assert fs[j] in fs[..i];
    }
  }

  lemma {:induction false} ValueFound(c: OpContract, value: IrTerm)
    requires ComputesValue(c, value)
    ensures FindResultEquation(c.post.value, c.resultVar) == Some(value)
  {
    hide Equates;
    var post := c.post.value;
    EquationExactly(post, c.resultVar);
    var i: nat :| i < |Conjuncts(post)| && Equates(Conjuncts(post)[i], c.resultVar, value);
    assert Conjuncts(post)[i] in Conjuncts(post);
    OneValue(Conjuncts(post), c.resultVar, value, FindResultEquation(post, c.resultVar).value);
  }

  // wp of such an operation holds exactly where its precondition does, of the values of its arguments, and the
  // postcondition does with the result variable assigned the value. A precondition that is literally true is dropped.
  lemma {:induction false} ValueOpWp<V(!new)>(M: Model<V>, R: Resolver, t: Term, c: OpContract, value: IrTerm,
                                              q: IrFormula, e: Env<V>)
    requires t.Op? && R(t.name) == Some(c) && ComputesValue(c, value)
    requires Wp(t, q, R).Ok? && Clean(t, R) && Plain(q)
    ensures var formals := BindFormals(M, R, c.slots, t.args, {}, e);
            Holds(M, Wp(t, q, R).value, e) <==>
              && (c.pre.Some? && c.pre.value != Atomic("true", []) ==>
                    if SchemaFree(c.pre.value) then Holds(M, c.pre.value, formals)
                    else RuleHolds(M, R, false, c.pre.value, c.slots, t.args, {}, Meaning(M, q), e))
              && Holds(M, q, Assign(e, c.resultVar, Eval(M, value, formals)))
  {
    hide Wp, Clean, Holds, Eval, BindFormals, FirstEquates, Conjuncts;
    ValueFound(c, value);
    WpMeaning(M, R, false, t, q);
    var w := Wp(t, q, R).value;
    assert Holds(M, w, e) <==> e in Meaning(M, w);
    if c.pre.Some? && SchemaFree(c.pre.value) {
      NotPlaceholder(c.pre.value);
    }
  }

  // In so many words: the precondition and the postcondition, with the arguments' values put in. Nothing else is asked
  // of the operation than that its arguments have values.
  lemma {:induction false} ValueOpText(R: Resolver, t: Term, c: OpContract, value: IrTerm, q: IrFormula)
    requires t.Op? && R(t.name) == Some(c) && ComputesValue(c, value) && |c.slots| == |t.args|
    requires c.unresolvedCall.None? && c.opaqueLoop.None? && (c.pre.Some? ==> SchemaFree(c.pre.value))
    ensures match SlotSubsts(c.slots, t.args, R)
            case Err(error) => Wp(t, q, R) == Err(error)
            case Ok(ss) =>
              var post := SubstFormula(q, c.resultVar, InstantiateTerm(value, ss));
              Wp(t, q, R) == Ok(if c.pre.Some? && c.pre.value != Atomic("true", [])
                                then Connect(And, [InstantiateFormula(c.pre.value, ss), post])
                                else post)
  {
    hide SlotSubsts, FindResultEquation, SubstFormula, FirstEquates, Conjuncts, InstantiateFormula;
    ValueFound(c, value);
    if SlotSubsts(c.slots, t.args, R).Ok? {
      var ss := SlotSubsts(c.slots, t.args, R).value;
      var assigns := Substitute(Placeholder(), value, c.resultVar);
      var post := SubstFormula(q, c.resultVar, InstantiateTerm(value, ss));
      UnderSubstitute(Placeholder(), value, c.resultVar, ss);
      InstantiatePlaceholder(ss);
      var g := InstantiateFormula(assigns, ss);
      assert Reduce(Placeholder(), q, c.slots, t.args, t.name, R) == Ok(q);
      assert Reduce(g, q, c.slots, t.args, t.name, R) == Ok(post);
      if c.pre.Some? && c.pre.value != Atomic("true", []) {
        BothReduce(R, t, c, ss, c.pre.value, assigns, post, q);
      }
    }
  }

  lemma {:induction false} BothReduce(R: Resolver, t: Term, c: OpContract, ss: seq<Subst>, pre: IrFormula, f: IrFormula,
                                      g: IrFormula, q: IrFormula)
    requires t.Op? && |c.slots| == |t.args| && SchemaFree(pre)
    requires Reduce(InstantiateFormula(f, ss), q, c.slots, t.args, t.name, R) == Ok(g)
    ensures Reduce(InstantiateFormula(Connect(And, [pre, f]), ss), q, c.slots, t.args, t.name, R)
         == Ok(Connect(And, [InstantiateFormula(pre, ss), g]))
  {
    hide InstantiateFormula, Reduce;
    var pre' := InstantiateFormula(pre, ss);
    UnderConnect(And, [pre, f], ss);
    InstantiateCons([pre, f], ss);
    InstantiateCons([f], ss);
    InstantiateFormulasNil(ss);
    assert [pre, f][1..] == [f] && [f][1..] == [];
    var fs := InstantiateFormulas([pre, f], ss);
    assert fs == [pre', InstantiateFormula(f, ss)] && fs[1..][1..] == [];
    InstantiateSchemaFree(pre, ss);
    ReduceSame(pre', q, c.slots, t.args, t.name, R);
    assert ReduceEach(fs[1..][1..], q, c.slots, t.args, t.name, R) == Ok([]);
    assert [g] + [] == [g] && [pre'] + [g] == [pre', g];
    assert ReduceEach(fs[1..], q, c.slots, t.args, t.name, R) == Ok([g]);
    assert ReduceEach(fs, q, c.slots, t.args, t.name, R) == Ok([pre', g]);
    ReduceAnd(fs, [pre', g], q, c.slots, t.args, t.name, R);
  }

  lemma {:induction false} ReduceAnd(fs: seq<IrFormula>, gs: seq<IrFormula>, q: IrFormula, slots: seq<SlotInfo>,
                                     args: seq<Term>, op: Name, R: Resolver)
    requires |slots| == |args| && ReduceEach(fs, q, slots, args, op, R) == Ok(gs)
    ensures Reduce(Connect(And, fs), q, slots, args, op, R) == Ok(Connect(And, gs))
  {
  }

  lemma {:induction false} InstantiateFormulasNil(ss: seq<Subst>)
    ensures InstantiateFormulas([], ss) == []
    decreases ss
  {
    if ss != [] {
      InstantiateFormulasNil(ss[1..]);
    }
  }
}
