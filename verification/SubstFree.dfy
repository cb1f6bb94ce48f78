// The free variables of a substitution: those of the target without x, plus
// those of the replacement if x was free.
module SubstFree {
  import opened Ir
  import opened Substitution
  import opened SubstLemma

  function After(xs: set<Name>, x: Name, rs: set<Name>): set<Name> {
    if x in xs then xs - {x} + rs else xs
  }

  lemma {:induction false} SubstTermFree(t: IrTerm, x: Name, r: IrTerm)
    requires SafeTerm(t, x, r)
    ensures FreeTerm(SubstTerm(t, x, r)) == After(FreeTerm(t), x, FreeTerm(r))
    decreases TermSize(t), 0
  {
    match t
    case Var(_) =>
    case Const(_, _) =>
    case Ctor(_, args) => SubstTermsFree(args, x, r);
    case Lambda(param, sort, body) =>
      if param != x {
        SubstLambdaFree(param, sort, body, x, r);
      }
    case Let(bindings, body) => SubstLetFree(bindings, body, x, r, false, {}, []);
  }

  lemma {:induction false} SubstLambdaFree(param: Name, sort: Sort, body: IrTerm, x: Name, r: IrTerm)
    requires param != x && SafeTerm(Lambda(param, sort, body), x, r)
    ensures FreeTerm(SubstTerm(Lambda(param, sort, body), x, r)) == After(FreeTerm(body) - {param}, x, FreeTerm(r))
    decreases TermSize(body), 1
  {
    if param in FreeTerm(r) {
      var name' := FreshName(FreeTerm(r) + FreeTerm(body) + {x, param}, param);
      SubstTermFree(body, param, Var(name'));
      SubstTermFree(SubstTerm(body, param, Var(name')), x, r);
    } else {
      SubstTermFree(body, x, r);
    }
  }

  lemma {:induction false} SubstTermsFree(ts: seq<IrTerm>, x: Name, r: IrTerm)
    requires SafeTerms(ts, x, r)
    ensures FreeTerms(SubstTerms(ts, x, r)) == After(FreeTerms(ts), x, FreeTerm(r))
    decreases TermsSize(ts), 1
  {
    if ts != [] {
      SubstTermFree(ts[0], x, r);
      SubstTermsFree(ts[1..], x, r);
    }
  }

  /** The free variables after the renames and the substitution of a let arm. */
  function FreeUnder(xs: set<Name>, renames: seq<Rename>, x: Name, rs: set<Name>, shadowed: bool): set<Name>
    decreases renames
  {
    if renames == [] then (if shadowed then xs else After(xs, x, rs))
    else FreeUnder(After(xs, renames[0].before, {renames[0].after}), renames[1..], x, rs, shadowed)
  }

  lemma {:induction false} SubstUnderFree(t: IrTerm, renames: seq<Rename>, x: Name, r: IrTerm, shadowed: bool)
    requires SafeUnder(t, renames, x, r, shadowed)
    ensures FreeTerm(SubstUnder(t, renames, x, r, shadowed))
              == FreeUnder(FreeTerm(t), renames, x, FreeTerm(r), shadowed)
    decreases TermSize(t), 1, |renames|
  {
    if renames == [] {
      if !shadowed {
        SubstTermFree(t, x, r);
      }
    } else {
      var a := renames[0];
      SubstTermFree(t, a.before, Var(a.after));
      SubstUnderFree(SubstTerm(t, a.before, Var(a.after)), renames[1..], x, r, shadowed);
    }
  }

  lemma {:induction false} UnderUnion(a: set<Name>, b: set<Name>, renames: seq<Rename>, x: Name, rs: set<Name>,
                                      shadowed: bool)
    ensures FreeUnder(a + b, renames, x, rs, shadowed)
         == FreeUnder(a, renames, x, rs, shadowed) + FreeUnder(b, renames, x, rs, shadowed)
    decreases renames
  {
    if renames != [] {
      var o, n := renames[0].before, {renames[0].after};
      UnderUnion(After(a, o, n), After(b, o, n), renames[1..], x, rs, shadowed);
      assert After(a + b, o, n) == After(a, o, n) + After(b, o, n);
    }
  }

  /** What the renames and the substitution make of one free variable. */
  function FreeOf(y: Name, renames: seq<Rename>, x: Name, rs: set<Name>, shadowed: bool): set<Name> {
    if Touches(renames, y) then {Target(renames, y)} else if y == x && !shadowed then rs else {y}
  }

  lemma {:induction false} UnderAt(xs: set<Name>, renames: seq<Rename>, x: Name, rs: set<Name>, shadowed: bool, z: Name)
    requires OneStep(renames, x)
    ensures z in FreeUnder(xs, renames, x, rs, shadowed) <==>
              exists y :: y in xs && z in FreeOf(y, renames, x, rs, shadowed)
    decreases renames
  {
    if renames == [] {
      if !shadowed && z in rs && x in xs {
        assert z in FreeOf(x, renames, x, rs, shadowed);
      }
      assert z in FreeOf(z, renames, x, rs, shadowed) || (z == x && !shadowed);
    } else {
      var a := renames[0];
      var ys := After(xs, a.before, {a.after});
      OneStepTail(renames, x);
      UnderAt(ys, renames[1..], x, rs, shadowed, z);
      TouchedBy(renames[1..], a.after);
      assert FreeOf(a.after, renames[1..], x, rs, shadowed) == {a.after} == FreeOf(a.before, renames, x, rs, shadowed);
      assert forall y :: y != a.before ==>
               FreeOf(y, renames, x, rs, shadowed) == FreeOf(y, renames[1..], x, rs, shadowed);
    }
  }

  lemma {:induction false} SubstLetFree(bs: seq<LetBinding>, body: IrTerm, x: Name, r: IrTerm, shadowed: bool,
                                        names: set<Name>, renames: seq<Rename>)
    requires SafeLet(bs, body, x, r, shadowed, names, renames)
    requires Settled(bs, body, x, r, names, renames)
    ensures var u := SubstLet(bs, body, x, r, shadowed, names, renames);
            FreeLet(u.bindings, u.letBody) == FreeUnder(FreeLet(bs, body), renames, x, FreeTerm(r), shadowed)
    decreases BindingsSize(bs) + TermSize(body), 2
  {
    hide FreeUnder, FreeTerm, SafeTerm, SafeUnder, SubstTerm, SubstUnder, Settled;
    if bs == [] {
      SubstUnderFree(body, renames, x, r, shadowed);
    } else {
      var b := bs[0].name;
      var name := NewName(b, x, r, shadowed, names);
      var renames' := NewRenames(b, x, r, shadowed, names, renames);
      SubstUnderFree(bs[0].bound, renames, x, r, shadowed);
      SettledNext(bs, body, x, r, shadowed, names, renames);
      SubstLetFree(bs[1..], body, x, r, shadowed || b == x, names + {name}, renames');
      UnderBinder(bs, body, x, r, shadowed, names, renames);
      UnderUnion(FreeTerm(bs[0].bound), FreeLet(bs[1..], body) - {b}, renames, x, FreeTerm(r), shadowed);
      var rest := SubstLet(bs[1..], body, x, r, shadowed || b == x, names + {name}, renames');
      FreeLetCons(LetBinding(name, SubstUnder(bs[0].bound, renames, x, r, shadowed)), rest);
    }
  }

  lemma {:induction false} FreeLetCons(b: LetBinding, rest: IrTerm)
    requires rest.Let?
    ensures FreeLet([b] + rest.bindings, rest.letBody)
         == FreeTerm(b.bound) + (FreeLet(rest.bindings, rest.letBody) - {b.name})
  {
    assert ([b] + rest.bindings)[1..] == rest.bindings;
  }

  lemma {:induction false} UnderBinder(bs: seq<LetBinding>, body: IrTerm, x: Name, r: IrTerm, shadowed: bool,
                                       names: set<Name>, renames: seq<Rename>)
    requires bs != [] && SafeLet(bs, body, x, r, shadowed, names, renames)
    requires Settled(bs, body, x, r, names, renames)
    ensures var b, xs := bs[0].name, FreeLet(bs[1..], body);
            FreeUnder(xs, NewRenames(b, x, r, shadowed, names, renames), x, FreeTerm(r), shadowed || b == x)
            - {NewName(b, x, r, shadowed, names)} ==
            FreeUnder(xs - {b}, renames, x, FreeTerm(r), shadowed)
  {
    hide FreeUnder, SafeUnder, FreeTerm, FreeLet, FreeOf, Quiet;
    SettledNext(bs, body, x, r, shadowed, names, renames);
    var b, xs := bs[0].name, FreeLet(bs[1..], body);
    var name := NewName(b, x, r, shadowed, names);
    var renames' := NewRenames(b, x, r, shadowed, names, renames);
    forall z
      ensures z in FreeUnder(xs, renames', x, FreeTerm(r), shadowed || b == x) && z != name
         <==> z in FreeUnder(xs - {b}, renames, x, FreeTerm(r), shadowed)
    {
      UnderAt(xs, renames', x, FreeTerm(r), shadowed || b == x, z);
      UnderAt(xs - {b}, renames, x, FreeTerm(r), shadowed, z);
      forall y | y in xs
        ensures var after := FreeOf(y, renames', x, FreeTerm(r), shadowed || b == x);
                if y == b then after == {name}
                else after == FreeOf(y, renames, x, FreeTerm(r), shadowed) && name !in after
      {
        BinderAt(bs, body, x, r, shadowed, names, renames, y);
      }
    }
  }

  lemma {:induction false} BinderAt(bs: seq<LetBinding>, body: IrTerm, x: Name, r: IrTerm, shadowed: bool,
                                    names: set<Name>, renames: seq<Rename>, y: Name)
    requires bs != [] && SafeLet(bs, body, x, r, shadowed, names, renames)
    requires Settled(bs, body, x, r, names, renames) && y in FreeLet(bs[1..], body)
    ensures var b := bs[0].name;
            var name := NewName(b, x, r, shadowed, names);
            var after := FreeOf(y, NewRenames(b, x, r, shadowed, names, renames), x, FreeTerm(r), shadowed || b == x);
            if y == b then after == {name}
            else after == FreeOf(y, renames, x, FreeTerm(r), shadowed) && name !in after
  {
    hide SafeUnder, FreeTerm, FreeLet, Quiet, Touches, Target;
    var b := bs[0].name;
    TouchedBy(renames, y);
    if Touches(renames, y) {
      QuietHead(Rename(y, Target(renames, y)), bs, body);
    }
    if Renames(b, x, r, shadowed) {
      TouchesLast(renames, Rename(b, NewName(b, x, r, shadowed, names)), y);
    }
  }

  lemma {:induction false} SubstFormulaFree(f: IrFormula, x: Name, r: IrTerm)
    requires SafeFormula(f, x, r)
    ensures FreeFormula(SubstFormula(f, x, r)) == After(FreeFormula(f), x, FreeTerm(r))
    decreases FormulaSize(f), 0
  {
    match f
    case Atomic(_, args) => SubstTermsFree(args, x, r);
    case Connect(_, operands) => SubstFormulasFree(operands, x, r);
    case Bind(_, name, _, body) =>
      if name != x {
        if name in FreeTerm(r) {
          var name' := FreshName(FreeTerm(r) + FreeFormula(body) + {x, name}, name);
          SubstFormulaFree(body, name, Var(name'));
          SubstFormulaFree(SubstFormula(body, name, Var(name')), x, r);
        } else {
          SubstFormulaFree(body, x, r);
        }
      }
    case DivergenceBetween(source, dest) =>
      SubstFormulaFree(source, x, r);
      SubstFormulaFree(dest, x, r);
  }

  lemma {:induction false} SubstFormulasFree(fs: seq<IrFormula>, x: Name, r: IrTerm)
    requires SafeFormulas(fs, x, r)
    ensures FreeFormulas(SubstFormulas(fs, x, r)) == After(FreeFormulas(fs), x, FreeTerm(r))
    decreases FormulasSize(fs), 1
  {
    if fs != [] {
      SubstFormulaFree(fs[0], x, r);
      SubstFormulasFree(fs[1..], x, r);
    }
  }
}
