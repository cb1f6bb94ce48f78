// The substitution lemma: substituting r for x is evaluating with x rebound to
// the value of r. It needs no side condition except at let groups, where the
// code may pick a fresh name that a later part of the group already uses.
module SubstLemma {
  import opened Ir
  import opened Substitution
  import opened Semantics

  // ---------- when the let arm is capture-free ----------

  /** Every let renaming that substituting r for x in t performs is capture-free. */
  predicate SafeTerm(t: IrTerm, x: Name, r: IrTerm)
    decreases TermSize(t), 0
  {
    match t
    case Var(_) => true
    case Const(_, _) => true
    case Ctor(_, args) => SafeTerms(args, x, r)
    case Lambda(param, _, body) =>
      if param == x then true
      else if param in FreeTerm(r) then
        var name' := FreshName(FreeTerm(r) + FreeTerm(body) + {x, param}, param);
        SafeTerm(body, param, Var(name')) && SafeTerm(SubstTerm(body, param, Var(name')), x, r)
      else SafeTerm(body, x, r)
    case Let(bindings, body) => SafeLet(bindings, body, x, r, false, {}, [])
  }

  predicate SafeTerms(ts: seq<IrTerm>, x: Name, r: IrTerm)
    decreases TermsSize(ts), 1
  {
    ts == [] || (SafeTerm(ts[0], x, r) && SafeTerms(ts[1..], x, r))
  }

  predicate SafeUnder(t: IrTerm, renames: seq<Rename>, x: Name, r: IrTerm, shadowed: bool)
    decreases TermSize(t), 1, |renames|
  {
    if renames == [] then shadowed || SafeTerm(t, x, r)
    else
      && SafeTerm(t, renames[0].before, Var(renames[0].after))
      && SafeUnder(SubstTerm(t, renames[0].before, Var(renames[0].after)), renames[1..], x, r, shadowed)
  }

  /** Where a later binding of the group binds either name again, the old one is not used any more. */
  predicate Quiet(a: Rename, bs: seq<LetBinding>, body: IrTerm) {
    bs == [] ||
    ((bs[0].name == a.before || bs[0].name == a.after ==> a.before !in FreeLet(bs[1..], body))
     && Quiet(a, bs[1..], body))
  }

  /** The old name of a renamed binder is not used past a later binding of it or of its fresh name, and the fresh name
      is not free in the rest of the group. */
  predicate SafeLet(bs: seq<LetBinding>, body: IrTerm, x: Name, r: IrTerm, shadowed: bool, names: set<Name>,
                    renames: seq<Rename>)
    decreases BindingsSize(bs) + TermSize(body), 2
  {
    if bs == [] then SafeUnder(body, renames, x, r, shadowed) else
    var b := bs[0].name;
    var name := NewName(b, x, r, shadowed, names);
    && SafeUnder(bs[0].bound, renames, x, r, shadowed)
    && (Renames(b, x, r, shadowed) ==>
          && Quiet(Rename(b, name), bs[1..], body)
          && name !in FreeLet(bs[1..], body))
    && SafeLet(bs[1..], body, x, r, shadowed || b == x, names + {name}, NewRenames(b, x, r, shadowed, names, renames))
  }

  predicate SafeFormula(f: IrFormula, x: Name, r: IrTerm)
    decreases FormulaSize(f), 0
  {
    match f
    case Atomic(_, args) => SafeTerms(args, x, r)
    case Connect(_, operands) => SafeFormulas(operands, x, r)
    case Bind(_, name, _, body) =>
      if name == x then true
      else if name in FreeTerm(r) then
        var name' := FreshName(FreeTerm(r) + FreeFormula(body) + {x, name}, name);
        SafeFormula(body, name, Var(name')) && SafeFormula(SubstFormula(body, name, Var(name')), x, r)
      else SafeFormula(body, x, r)
    case Substitute(_, _, _) => false
    case Apply(_, _) => false
    case DivergenceBetween(source, dest) => SafeFormula(source, x, r) && SafeFormula(dest, x, r)
  }

  predicate SafeFormulas(fs: seq<IrFormula>, x: Name, r: IrTerm)
    decreases FormulasSize(fs), 1
  {
    fs == [] || (SafeFormula(fs[0], x, r) && SafeFormulas(fs[1..], x, r))
  }

  // ---------- meaning ----------

  lemma {:induction false} SubstEval<V(!new)>(M: Model<V>, t: IrTerm, x: Name, r: IrTerm, e: Env<V>)
    requires SafeTerm(t, x, r)
    ensures Eval(M, SubstTerm(t, x, r), e) == Eval(M, t, Assign(e, x, Eval(M, r, e)))
    decreases TermSize(t), 0
  {
    var e' := Assign(e, x, Eval(M, r, e));
    match t
    case Var(_) =>
    case Const(_, _) =>
    case Ctor(_, args) => SubstEvalAll(M, args, x, r, e);
    case Lambda(param, sort, body) => SubstEvalLambda(M, param, sort, body, x, r, e);
    case Let(bindings, body) =>
      SubstEvalLet(M, bindings, body, x, r, false, {}, [], e', e);
  }

  lemma {:induction false} SubstEvalAll<V(!new)>(M: Model<V>, ts: seq<IrTerm>, x: Name, r: IrTerm, e: Env<V>)
    requires SafeTerms(ts, x, r)
    ensures EvalAll(M, SubstTerms(ts, x, r), e) == EvalAll(M, ts, Assign(e, x, Eval(M, r, e)))
    decreases TermsSize(ts), 1
  {
    if ts != [] {
      SubstEval(M, ts[0], x, r, e);
      SubstEvalAll(M, ts[1..], x, r, e);
    }
  }

  lemma {:induction false} SubstEvalLambda<V(!new)>(M: Model<V>, param: Name, sort: Sort, body: IrTerm, x: Name,
                                                    r: IrTerm, e: Env<V>)
    requires SafeTerm(Lambda(param, sort, body), x, r)
    ensures var t := Lambda(param, sort, body);
            Eval(M, SubstTerm(t, x, r), e) == Eval(M, t, Assign(e, x, Eval(M, r, e)))
    decreases TermSize(body), 2
  {
    var e' := Assign(e, x, Eval(M, r, e));
    if param == x {
      forall v: V
        ensures Assign(Assign(e, x, Eval(M, r, e)), param, v) == Assign(e, param, v)
      {
      }
      assert Graph(M, body, param, e) == Graph(M, body, param, e');
    } else if param in FreeTerm(r) {
      var name' := FreshName(FreeTerm(r) + FreeTerm(body) + {x, param}, param);
      var final := SubstTerm(SubstTerm(body, param, Var(name')), x, r);
      forall v: V
        ensures Eval(M, final, Assign(e, name', v)) == Eval(M, body, Assign(e', param, v))
      {
        RenamedBody(M, body, param, name', x, r, e, v);
      }
      assert Graph(M, final, name', e) == Graph(M, body, param, e');
    } else {
      forall v: V
        ensures Eval(M, SubstTerm(body, x, r), Assign(e, param, v)) == Eval(M, body, Assign(e', param, v))
      {
        PlainBody(M, body, param, x, r, e, v);
      }
      assert Graph(M, SubstTerm(body, x, r), param, e) == Graph(M, body, param, e');
    }
  }

  lemma {:induction false} RenamedBody<V(!new)>(M: Model<V>, body: IrTerm, param: Name, name': Name, x: Name, r: IrTerm,
                                                e: Env<V>, v: V)
    requires param != x && name' !in FreeTerm(r) + FreeTerm(body) + {x, param}
    requires SafeTerm(body, param, Var(name')) && SafeTerm(SubstTerm(body, param, Var(name')), x, r)
    ensures Eval(M, SubstTerm(SubstTerm(body, param, Var(name')), x, r), Assign(e, name', v))
         == Eval(M, body, Assign(Assign(e, x, Eval(M, r, e)), param, v))
    decreases TermSize(body), 1
  {
    hide SubstTerm, SafeTerm, FreeTerm;
    var h := Assign(e, name', v);
    SubstEval(M, SubstTerm(body, param, Var(name')), x, r, h);
    EvalAgree(M, r, h, e);
    var k := Assign(h, x, Eval(M, r, h));
    SubstEval(M, body, param, Var(name'), k);
    EvalAgree(M, body, Assign(k, param, Lookup(M, k, name')), Assign(Assign(e, x, Eval(M, r, e)), param, v));
  }

  lemma {:induction false} PlainBody<V(!new)>(M: Model<V>, body: IrTerm, param: Name, x: Name, r: IrTerm, e: Env<V>,
                                              v: V)
    requires param != x && param !in FreeTerm(r) && SafeTerm(body, x, r)
    ensures Eval(M, SubstTerm(body, x, r), Assign(e, param, v))
         == Eval(M, body, Assign(Assign(e, x, Eval(M, r, e)), param, v))
    decreases TermSize(body), 1
  {
    hide SubstTerm, SafeTerm, FreeTerm, Eval;
    var h := Assign(e, param, v);
    SubstEval(M, body, x, r, h);
    EvalAgree(M, r, h, e);
    assert Assign(h, x, Eval(M, r, e)) == Assign(Assign(e, x, Eval(M, r, e)), param, v);
  }

  /** The environment in which the original of a SubstUnder term has its value. */
  ghost function Pull<V(!new)>(M: Model<V>, renames: seq<Rename>, x: Name, r: IrTerm, shadowed: bool,
                               e: Env<V>): Env<V> {
    if renames == [] then (if shadowed then e else Assign(e, x, Eval(M, r, e))) else
    var k := Pull(M, renames[1..], x, r, shadowed, e);
    Assign(k, renames[0].before, Lookup(M, k, renames[0].after))
  }

  lemma {:induction false} SubstEvalUnder<V(!new)>(M: Model<V>, t: IrTerm, renames: seq<Rename>, x: Name, r: IrTerm,
                                                   shadowed: bool, e: Env<V>)
    requires SafeUnder(t, renames, x, r, shadowed)
    ensures Eval(M, SubstUnder(t, renames, x, r, shadowed), e) == Eval(M, t, Pull(M, renames, x, r, shadowed, e))
    decreases TermSize(t), 1, |renames|
  {
    if renames == [] {
      if !shadowed {
        SubstEval(M, t, x, r, e);
      }
    } else {
      var a := renames[0];
      SubstEvalUnder(M, SubstTerm(t, a.before, Var(a.after)), renames[1..], x, r, shadowed, e);
      SubstEval(M, t, a.before, Var(a.after), Pull(M, renames[1..], x, r, shadowed, e));
    }
  }

  predicate Touches(renames: seq<Rename>, y: Name) {
    renames != [] && (renames[0].before == y || Touches(renames[1..], y))
  }

  /** What the first rename of y makes of it. */
  function Target(renames: seq<Rename>, y: Name): Name {
    if renames == [] then y
    else if renames[0].before == y then renames[0].after
    else Target(renames[1..], y)
  }

  /** What holds of the renames collected so far in a let group. */
  ghost predicate Settled(bs: seq<LetBinding>, body: IrTerm, x: Name, r: IrTerm, names: set<Name>,
                          renames: seq<Rename>) {
    forall a :: a in renames ==>
      && a.before in FreeTerm(r) && a.before != x
      && a.after in names && a.after !in FreeTerm(r) && a.after != x
      && Quiet(a, bs, body)
  }

  lemma {:induction false} SettledNext(bs: seq<LetBinding>, body: IrTerm, x: Name, r: IrTerm, shadowed: bool,
                                       names: set<Name>, renames: seq<Rename>)
    requires bs != [] && Settled(bs, body, x, r, names, renames)
    requires SafeLet(bs, body, x, r, shadowed, names, renames)
    ensures var b := bs[0].name;
            Settled(bs[1..], body, x, r, names + {NewName(b, x, r, shadowed, names)},
                    NewRenames(b, x, r, shadowed, names, renames))
  {
  }

  lemma {:induction false} TouchedBy(renames: seq<Rename>, y: Name)
    ensures Touches(renames, y) ==> Rename(y, Target(renames, y)) in renames
    ensures !Touches(renames, y) ==> Target(renames, y) == y && forall a :: a in renames ==> a.before != y
  {
    if renames != [] {
      TouchedBy(renames[1..], y);
      assert renames == [renames[0]] + renames[1..];
    }
  }

  lemma {:induction false} TouchesLast(renames: seq<Rename>, a: Rename, y: Name)
    ensures Touches(renames + [a], y) <==> Touches(renames, y) || y == a.before
    ensures Target(renames + [a], y) == if !Touches(renames, y) && y == a.before then a.after else Target(renames, y)
  {
    var all := renames + [a];
    if renames == [] {
      assert all[1..] == [];
    } else {
      assert all[1..] == renames[1..] + [a];
      TouchesLast(renames[1..], a, y);
    }
  }

  /** No rename makes a name that another one, or the substitution of x, would change again. */
  ghost predicate OneStep(renames: seq<Rename>, x: Name) {
    forall a, b :: a in renames && b in renames ==> a.after != b.before && a.after != x && a.before != x
  }

  lemma {:induction false} OneStepTail(renames: seq<Rename>, x: Name)
    requires renames != [] && OneStep(renames, x)
    ensures OneStep(renames[1..], x)
    ensures renames[0].before != x && renames[0].after != x && !Touches(renames[1..], renames[0].after)
  {
    TouchedBy(renames[1..], renames[0].after);
    assert renames[0] in renames && forall b :: b in renames[1..] ==> b in renames;
  }

  // The first rename of a name decides; the variable itself has the value of its replacement.
  lemma {:induction false} PullAt<V(!new)>(M: Model<V>, renames: seq<Rename>, x: Name, r: IrTerm, shadowed: bool,
                                           e: Env<V>, y: Name)
    requires OneStep(renames, x)
    ensures Lookup(M, Pull(M, renames, x, r, shadowed, e), y)
         == if Touches(renames, y) then Lookup(M, e, Target(renames, y))
            else if y == x && !shadowed then Eval(M, r, e) else Lookup(M, e, y)
  {
    hide Eval, OneStep;
    if renames != [] {
      var a := renames[0];
      OneStepTail(renames, x);
      PullAt(M, renames[1..], x, r, shadowed, e, y);
      PullAt(M, renames[1..], x, r, shadowed, e, a.after);
    }
  }

  lemma {:induction false} SubstEvalLet<V(!new)>(M: Model<V>, bs: seq<LetBinding>, body: IrTerm, x: Name, r: IrTerm,
                                                 shadowed: bool, names: set<Name>, renames: seq<Rename>,
                                                 e: Env<V>, e': Env<V>)
    requires SafeLet(bs, body, x, r, shadowed, names, renames)
    requires Settled(bs, body, x, r, names, renames)
    requires Agree(M, FreeLet(bs, body), e, Pull(M, renames, x, r, shadowed, e'))
    ensures var u := SubstLet(bs, body, x, r, shadowed, names, renames);
            EvalLet(M, u.bindings, u.letBody, e') == EvalLet(M, bs, body, e)
    decreases BindingsSize(bs) + TermSize(body), 2
  {
    hide Pull, FreeTerm, SafeTerm, SafeUnder, SubstTerm, SubstUnder, Settled, Eval, NewName, NewRenames;
    var h := Pull(M, renames, x, r, shadowed, e');
    if bs == [] {
      SubstEvalUnder(M, body, renames, x, r, shadowed, e');
      EvalAgree(M, body, e, h);
    } else {
      var b := bs[0].name;
      var name := NewName(b, x, r, shadowed, names);
      var renames' := NewRenames(b, x, r, shadowed, names, renames);
      SubstEvalUnder(M, bs[0].bound, renames, x, r, shadowed, e');
      EvalAgree(M, bs[0].bound, e, h);
      var v := Eval(M, bs[0].bound, e);
      SettledNext(bs, body, x, r, shadowed, names, renames);
      NextAgree(M, bs, body, x, r, shadowed, names, renames, e, e', v);
      SubstEvalLet(M, bs[1..], body, x, r, shadowed || b == x, names + {name}, renames',
                   Assign(e, b, v), Assign(e', name, v));
      var rest := SubstLet(bs[1..], body, x, r, shadowed || b == x, names + {name}, renames');
      EvalLetCons(M, LetBinding(name, SubstUnder(bs[0].bound, renames, x, r, shadowed)), rest, e');
    }
  }

  lemma {:induction false} EvalLetCons<V(!new)>(M: Model<V>, b: LetBinding, rest: IrTerm, e: Env<V>)
    requires rest.Let?
    ensures EvalLet(M, [b] + rest.bindings, rest.letBody, e)
         == EvalLet(M, rest.bindings, rest.letBody, Assign(e, b.name, Eval(M, b.bound, e)))
  {
    assert ([b] + rest.bindings)[1..] == rest.bindings;
  }

  // One binding further, the two environments still agree.
  lemma {:induction false} NextAgree<V(!new)>(M: Model<V>, bs: seq<LetBinding>, body: IrTerm, x: Name, r: IrTerm,
                                              shadowed: bool, names: set<Name>, renames: seq<Rename>,
                                              e: Env<V>, e': Env<V>, v: V)
    requires bs != [] && SafeLet(bs, body, x, r, shadowed, names, renames)
    requires Settled(bs, body, x, r, names, renames)
    requires Agree(M, FreeLet(bs, body), e, Pull(M, renames, x, r, shadowed, e'))
    ensures var b := bs[0].name;
            Agree(M, FreeLet(bs[1..], body), Assign(e, b, v),
                  Pull(M, NewRenames(b, x, r, shadowed, names, renames), x, r, shadowed || b == x,
                       Assign(e', NewName(b, x, r, shadowed, names), v)))
  {
    hide Pull, SafeUnder, FreeTerm, SubstUnder, Eval, Quiet;
    SettledNext(bs, body, x, r, shadowed, names, renames);
    var b := bs[0].name;
    forall y | y in FreeLet(bs[1..], body)
      ensures Lookup(M, Assign(e, b, v), y)
           == Lookup(M, Pull(M, NewRenames(b, x, r, shadowed, names, renames), x, r, shadowed || b == x,
                             Assign(e', NewName(b, x, r, shadowed, names), v)), y)
    {
      NextAt(M, bs, body, x, r, shadowed, names, renames, e', v, y);
      assert y != b ==> y in FreeLet(bs, body);
    }
  }

  lemma {:induction false} QuietHead(a: Rename, bs: seq<LetBinding>, body: IrTerm)
    requires bs != [] && Quiet(a, bs, body) && a.before in FreeLet(bs[1..], body)
    ensures bs[0].name != a.before && bs[0].name != a.after
  {
  }

  // Binding the new name binds the old one, and nothing else that is still used.
  lemma {:induction false} NextAt<V(!new)>(M: Model<V>, bs: seq<LetBinding>, body: IrTerm, x: Name, r: IrTerm,
                                           shadowed: bool, names: set<Name>, renames: seq<Rename>, e': Env<V>, v: V,
                                             y: Name)
    requires bs != [] && SafeLet(bs, body, x, r, shadowed, names, renames)
    requires Settled(bs, body, x, r, names, renames) && y in FreeLet(bs[1..], body)
    ensures var b := bs[0].name;
            Lookup(M, Pull(M, NewRenames(b, x, r, shadowed, names, renames), x, r, shadowed || b == x,
                           Assign(e', NewName(b, x, r, shadowed, names), v)), y) ==
            if y == b then v else Lookup(M, Pull(M, renames, x, r, shadowed, e'), y)
  {
    hide Pull, SafeUnder, FreeTerm, SubstUnder, Eval, Quiet, FreeLet, Touches, Target;
    SettledNext(bs, body, x, r, shadowed, names, renames);
    var b := bs[0].name;
    var name := NewName(b, x, r, shadowed, names);
    var renames' := NewRenames(b, x, r, shadowed, names, renames);
    var h := Assign(e', name, v);
    TouchedBy(renames, y);
    if Touches(renames, y) {
      QuietHead(Rename(y, Target(renames, y)), bs, body);
    }
    PullAt(M, renames, x, r, shadowed, e', y);
    PullAt(M, renames', x, r, shadowed || b == x, h, y);
    if Renames(b, x, r, shadowed) {
      TouchesLast(renames, Rename(b, name), y);
    }
    if !(name in FreeTerm(r)) {
      EvalAgree(M, r, h, e');
    }
  }

  // The substitution lemma for formulas.
  lemma {:induction false} SubstHolds<V(!new)>(M: Model<V>, f: IrFormula, x: Name, r: IrTerm, e: Env<V>)
    requires SafeFormula(f, x, r)
    ensures Holds(M, SubstFormula(f, x, r), e) == Holds(M, f, Assign(e, x, Eval(M, r, e)))
    decreases FormulaSize(f), 0
  {
    match f
    case Atomic(_, args) => SubstEvalAll(M, args, x, r, e);
    case Connect(_, operands) => SubstHoldsAll(M, operands, x, r, e);
    case Bind(b, name, sort, body) => SubstHoldsBind(M, b, name, sort, body, x, r, e);
    case Substitute(_, _, _) =>
    case Apply(_, _) =>
    case DivergenceBetween(source, dest) =>
      SubstHolds(M, source, x, r, e);
      SubstHolds(M, dest, x, r, e);
  }

  lemma {:induction false} SubstHoldsAll<V(!new)>(M: Model<V>, fs: seq<IrFormula>, x: Name, r: IrTerm, e: Env<V>)
    requires SafeFormulas(fs, x, r)
    ensures HoldsAll(M, SubstFormulas(fs, x, r), e) == HoldsAll(M, fs, Assign(e, x, Eval(M, r, e)))
    decreases FormulasSize(fs), 1
  {
    if fs != [] {
      SubstHolds(M, fs[0], x, r, e);
      SubstHoldsAll(M, fs[1..], x, r, e);
    }
  }

  lemma {:induction false} SubstHoldsBind<V(!new)>(M: Model<V>, b: Binder, name: Name, sort: Sort, body: IrFormula,
                                                   x: Name, r: IrTerm, e: Env<V>)
    requires SafeFormula(Bind(b, name, sort, body), x, r)
    ensures var f := Bind(b, name, sort, body);
            Holds(M, SubstFormula(f, x, r), e) == Holds(M, f, Assign(e, x, Eval(M, r, e)))
    decreases FormulaSize(body), 2
  {
    var e' := Assign(e, x, Eval(M, r, e));
    if name == x {
      forall v: V
        ensures Assign(Assign(e, x, Eval(M, r, e)), name, v) == Assign(e, name, v)
      {
      }
      assert Extent(M, body, name, e) == Extent(M, body, name, e');
    } else if name in FreeTerm(r) {
      var name' := FreshName(FreeTerm(r) + FreeFormula(body) + {x, name}, name);
      var final := SubstFormula(SubstFormula(body, name, Var(name')), x, r);
      forall v: V
        ensures Holds(M, final, Assign(e, name', v)) == Holds(M, body, Assign(e', name, v))
      {
        RenamedFormula(M, body, name, name', x, r, e, v);
      }
      assert Extent(M, final, name', e) == Extent(M, body, name, e');
    } else {
      forall v: V
        ensures Holds(M, SubstFormula(body, x, r), Assign(e, name, v)) == Holds(M, body, Assign(e', name, v))
      {
        PlainFormula(M, body, name, x, r, e, v);
      }
      assert Extent(M, SubstFormula(body, x, r), name, e) == Extent(M, body, name, e');
    }
  }

  lemma {:induction false} RenamedFormula<V(!new)>(M: Model<V>, body: IrFormula, name: Name, name': Name, x: Name,
                                                   r: IrTerm, e: Env<V>, v: V)
    requires name != x && name' !in FreeTerm(r) + FreeFormula(body) + {x, name}
    requires SafeFormula(body, name, Var(name')) && SafeFormula(SubstFormula(body, name, Var(name')), x, r)
    ensures Holds(M, SubstFormula(SubstFormula(body, name, Var(name')), x, r), Assign(e, name', v))
         == Holds(M, body, Assign(Assign(e, x, Eval(M, r, e)), name, v))
    decreases FormulaSize(body), 1
  {
    hide SubstFormula, SafeFormula, FreeFormula, FreeTerm, Holds;
    var h := Assign(e, name', v);
    SubstHolds(M, SubstFormula(body, name, Var(name')), x, r, h);
    EvalAgree(M, r, h, e);
    var k := Assign(h, x, Eval(M, r, h));
    SubstHolds(M, body, name, Var(name'), k);
    HoldsAgree(M, body, Assign(k, name, Lookup(M, k, name')), Assign(Assign(e, x, Eval(M, r, e)), name, v));
  }

  lemma {:induction false} PlainFormula<V(!new)>(M: Model<V>, body: IrFormula, name: Name, x: Name, r: IrTerm,
                                                 e: Env<V>, v: V)
    requires name != x && name !in FreeTerm(r) && SafeFormula(body, x, r)
    ensures Holds(M, SubstFormula(body, x, r), Assign(e, name, v))
         == Holds(M, body, Assign(Assign(e, x, Eval(M, r, e)), name, v))
    decreases FormulaSize(body), 1
  {
    hide SubstFormula, SafeFormula, FreeTerm, Holds, Eval;
    var h := Assign(e, name, v);
    SubstHolds(M, body, x, r, h);
    EvalAgree(M, r, h, e);
    assert Assign(h, x, Eval(M, r, e)) == Assign(Assign(e, x, Eval(M, r, e)), name, v);
  }

  // ---------- without let, every substitution is safe ----------

  predicate LetFreeTerm(t: IrTerm) {
    match t
    case Var(_) => true
    case Const(_, _) => true
    case Ctor(_, args) => forall a :: a in args ==> LetFreeTerm(a)
    case Lambda(_, _, body) => LetFreeTerm(body)
    case Let(_, _) => false
  }

  /** No let, and none of the schema nodes of a wp rule. */
  predicate Plain(f: IrFormula) {
    match f
    case Atomic(_, args) => forall a :: a in args ==> LetFreeTerm(a)
    case Connect(_, operands) => forall o :: o in operands ==> Plain(o)
    case Bind(_, _, _, body) => Plain(body)
    case Substitute(_, _, _) => false
    case Apply(_, _) => false
    case DivergenceBetween(source, dest) => Plain(source) && Plain(dest)
  }

  lemma {:induction false} LetFreeSafe(t: IrTerm, x: Name, r: IrTerm)
    requires LetFreeTerm(t) && LetFreeTerm(r)
    ensures SafeTerm(t, x, r) && LetFreeTerm(SubstTerm(t, x, r))
    decreases TermSize(t), 0
  {
    match t
    case Var(_) =>
    case Const(_, _) =>
    case Ctor(_, args) => LetFreeAllSafe(args, x, r);
    case Lambda(param, sort, body) =>
      if param != x {
        if param in FreeTerm(r) {
          var name' := FreshName(FreeTerm(r) + FreeTerm(body) + {x, param}, param);
          LetFreeSafe(body, param, Var(name'));
          LetFreeSafe(SubstTerm(body, param, Var(name')), x, r);
        } else {
          LetFreeSafe(body, x, r);
        }
      }
  }

  lemma {:induction false} LetFreeAllSafe(ts: seq<IrTerm>, x: Name, r: IrTerm)
    requires (forall t :: t in ts ==> LetFreeTerm(t)) && LetFreeTerm(r)
    ensures SafeTerms(ts, x, r) && forall u :: u in SubstTerms(ts, x, r) ==> LetFreeTerm(u)
    decreases TermsSize(ts), 1
  {
    if ts != [] {
      LetFreeSafe(ts[0], x, r);
      LetFreeAllSafe(ts[1..], x, r);
    }
  }

  lemma {:induction false} PlainSafe(f: IrFormula, x: Name, r: IrTerm)
    requires Plain(f) && LetFreeTerm(r)
    ensures SafeFormula(f, x, r) && Plain(SubstFormula(f, x, r))
    decreases FormulaSize(f), 0
  {
    match f
    case Atomic(_, args) => LetFreeAllSafe(args, x, r);
    case Connect(_, operands) => PlainAllSafe(operands, x, r);
    case Bind(_, name, _, body) =>
      if name != x {
        if name in FreeTerm(r) {
          var name' := FreshName(FreeTerm(r) + FreeFormula(body) + {x, name}, name);
          PlainSafe(body, name, Var(name'));
          PlainSafe(SubstFormula(body, name, Var(name')), x, r);
        } else {
          PlainSafe(body, x, r);
        }
      }
    case DivergenceBetween(source, dest) =>
      PlainSafe(source, x, r);
      PlainSafe(dest, x, r);
  }

  lemma {:induction false} PlainAllSafe(fs: seq<IrFormula>, x: Name, r: IrTerm)
    requires (forall f :: f in fs ==> Plain(f)) && LetFreeTerm(r)
    ensures SafeFormulas(fs, x, r) && forall g :: g in SubstFormulas(fs, x, r) ==> Plain(g)
    decreases FormulasSize(fs), 1
  {
    if fs != [] {
      PlainSafe(fs[0], x, r);
      PlainAllSafe(fs[1..], x, r);
    }
  }

  // ---------- where the let arm does capture ----------

  /** Constants denote the length of their text; nothing else matters here. */
  function TextLengths(): Model<int> {
    Model(0, (value, sort) => |value|, (name, vs) => 0, (sort, graph) => 0, (name, vs) => false,
          (sort, v) => true, (sort, vs) => false, (p, q) => false)
  }

  // let a = "1"; a_1 = "22" in a: renaming a picks a_1, which the next binder then captures.
  lemma {:induction false} LetCapturesLaterBinder()
    ensures var t := Let([LetBinding("a", Const("1", "s")), LetBinding("a_1", Const("22", "s"))], Var("a"));
            && !SafeTerm(t, "x", Var("a"))
            && Eval(TextLengths(), t, map[]) == 1
            && Eval(TextLengths(), SubstTerm(t, "x", Var("a")), map[]) == 2
  {
    var bs := [LetBinding("a", Const("1", "s")), LetBinding("a_1", Const("22", "s"))];
    FirstCandidate();
    assert bs[1..] == [LetBinding("a_1", Const("22", "s"))];
    assert bs[1..][1..] == [];
    var renames := [Rename("a", "a_1")];
    assert [] + renames == renames && renames[1..] == [];
    assert bs[1] in bs[1..];
    assert SubstUnder(Var("a"), renames, "x", Var("a"), false) == Var("a_1");
    var inner := SubstLet(bs[1..], Var("a"), "x", Var("a"), false, {} + {"a_1"}, renames);
    assert inner == Let([LetBinding("a_1", Const("22", "s"))], Var("a_1"));
    var u := SubstLet(bs, Var("a"), "x", Var("a"), false, {}, []);
    assert u == Let([LetBinding("a_1", Const("1", "s")), LetBinding("a_1", Const("22", "s"))], Var("a_1"));
  }

  // let a = "1"; a = "22" in a: both binders are renamed, and the body follows the first rename only.
  lemma {:induction false} LetRepeatedBinder()
    ensures var t := Let([LetBinding("a", Const("1", "s")), LetBinding("a", Const("22", "s"))], Var("a"));
            && !SafeTerm(t, "x", Var("a"))
            && Eval(TextLengths(), t, map[]) == 2
            && Eval(TextLengths(), SubstTerm(t, "x", Var("a")), map[]) == 1
  {
    var bs := [LetBinding("a", Const("1", "s")), LetBinding("a", Const("22", "s"))];
    FirstCandidate();
    assert bs[1..] == [LetBinding("a", Const("22", "s"))];
    assert bs[1..][1..] == [];
    var one, two := [Rename("a", "a_1")], [Rename("a", "a_1"), Rename("a", "a_2")];
    assert [] + one == one && one[1..] == [] && one + [Rename("a", "a_2")] == two && two[1..] == [Rename("a", "a_2")];
    assert bs[1] in bs[1..];
    assert two[1..][0] == Rename("a", "a_2") && two[1..][1..] == [];
    assert SubstUnder(Var("a_1"), [], "x", Var("a"), false) == Var("a_1");
    assert SubstUnder(Var("a_1"), two[1..], "x", Var("a"), false) == Var("a_1");
    assert SubstUnder(Var("a"), two, "x", Var("a"), false) == Var("a_1");
    var inner := SubstLet(bs[1..], Var("a"), "x", Var("a"), false, {} + {"a_1"}, one);
    assert SubstLet([], Var("a"), "x", Var("a"), false, {} + {"a_1"} + {"a_2"}, two) == Let([], Var("a_1"));
    assert SubstUnder(Const("22", "s"), one, "x", Var("a"), false) == Const("22", "s");
    assert NewRenames("a", "x", Var("a"), false, {} + {"a_1"}, one) == two;
    assert inner == Let([LetBinding("a_2", Const("22", "s"))], Var("a_1"));
    var u := SubstLet(bs, Var("a"), "x", Var("a"), false, {}, []);
    assert u == Let([LetBinding("a_1", Const("1", "s")), LetBinding("a_2", Const("22", "s"))], Var("a_1"));
  }

  lemma {:induction false} FirstCandidate()
    ensures LetFresh("a", "x", Var("a"), {}) == "a_1"
    ensures LetFresh("a", "x", Var("a"), {} + {"a_1"}) == "a_2"
  {
    assert Candidate("a", 1) == "a_1";
    assert Candidate("a", 2) == "a_2";
    assert FreeTerm(Var("a")) == {"a"};
    var taken := {"a"} + {"x", "a"} + ({} + {"a_1"});
    assert FreshFrom(taken, "a", 1) == FreshFrom(taken, "a", 2) == "a_2";
  }
}
