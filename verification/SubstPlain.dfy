// Where no binder is free in the replacement (wp.rs), substitution renames nothing: it puts the replacement in for the
// free occurrences and leaves everything else as it stands.
module SubstPlain {
  import opened Ir
  import opened Substitution

  // ---------- replacing free occurrences ----------

  function Plug(t: IrTerm, x: Name, r: IrTerm): IrTerm
    decreases TermSize(t), 0
  {
    match t
    case Var(name) => if name == x then r else t
    case Const(_, _) => t
    case Ctor(name, args) => Ctor(name, PlugAll(args, x, r))
    case Lambda(param, sort, body) => if param == x then t else Lambda(param, sort, Plug(body, x, r))
    case Let(bs, body) =>
      Let(PlugBindings(bs, x, r), if exists b :: b in bs && b.name == x then body else Plug(body, x, r))
  }

  function PlugAll(ts: seq<IrTerm>, x: Name, r: IrTerm): seq<IrTerm>
    decreases TermsSize(ts), 1
  {
    if ts == [] then [] else [Plug(ts[0], x, r)] + PlugAll(ts[1..], x, r)
  }

  /** Up to and including the bound term of the first binding of x. */
  function PlugBindings(bs: seq<LetBinding>, x: Name, r: IrTerm): seq<LetBinding>
    decreases BindingsSize(bs), 1
  {
    if bs == [] then []
    else
      [LetBinding(bs[0].name, Plug(bs[0].bound, x, r))]
      + if bs[0].name == x then bs[1..] else PlugBindings(bs[1..], x, r)
  }

  function PlugFormula(f: IrFormula, x: Name, r: IrTerm): IrFormula
    decreases FormulaSize(f), 0
  {
    match f
    case Atomic(name, args) => Atomic(name, PlugAll(args, x, r))
    case Connect(c, operands) => Connect(c, PlugFormulas(operands, x, r))
    case Bind(b, name, sort, body) => if name == x then f else Bind(b, name, sort, PlugFormula(body, x, r))
    case Substitute(target, term, v) => Substitute(PlugFormula(target, x, r), Plug(term, x, r), v)
    case Apply(fn, args) => Apply(fn, PlugFormulas(args, x, r))
    case DivergenceBetween(source, dest) => DivergenceBetween(PlugFormula(source, x, r), PlugFormula(dest, x, r))
  }

  function PlugFormulas(fs: seq<IrFormula>, x: Name, r: IrTerm): seq<IrFormula>
    decreases FormulasSize(fs), 1
  {
    if fs == [] then [] else [PlugFormula(fs[0], x, r)] + PlugFormulas(fs[1..], x, r)
  }

  // ---------- binders ----------

  function Binders(t: IrTerm): set<Name>
    decreases TermSize(t), 0
  {
    match t
    case Ctor(_, args) => AllBinders(args)
    case Lambda(param, _, body) => {param} + Binders(body)
    case Let(bs, body) => BindingBinders(bs) + Binders(body)
    case _ => {}
  }

  function AllBinders(ts: seq<IrTerm>): set<Name>
    decreases TermsSize(ts), 1
  {
    if ts == [] then {} else Binders(ts[0]) + AllBinders(ts[1..])
  }

  function BindingBinders(bs: seq<LetBinding>): set<Name>
    decreases BindingsSize(bs), 1
  {
    if bs == [] then {} else {bs[0].name} + Binders(bs[0].bound) + BindingBinders(bs[1..])
  }

  function FormulaBinders(f: IrFormula): set<Name>
    decreases FormulaSize(f), 0
  {
    match f
    case Atomic(_, args) => AllBinders(args)
    case Connect(_, operands) => FormulasBinders(operands)
    case Bind(_, name, _, body) => {name} + FormulaBinders(body)
    case Substitute(target, term, _) => FormulaBinders(target) + Binders(term)
    case Apply(_, args) => FormulasBinders(args)
    case DivergenceBetween(source, dest) => FormulaBinders(source) + FormulaBinders(dest)
  }

  function FormulasBinders(fs: seq<IrFormula>): set<Name>
    decreases FormulasSize(fs), 1
  {
    if fs == [] then {} else FormulaBinders(fs[0]) + FormulasBinders(fs[1..])
  }

  // ---------- nothing is renamed ----------

  lemma {:induction false} SubstPlainly(t: IrTerm, x: Name, r: IrTerm)
    requires Binders(t) !! FreeTerm(r)
    ensures SubstTerm(t, x, r) == Plug(t, x, r)
    decreases TermSize(t), 0
  {
    hide FreeTerm, FreshName;
    match t
    case Ctor(_, args) => SubstAllPlainly(args, x, r);
    case Lambda(param, _, body) =>
      assert param in Binders(t);
      SubstPlainly(body, x, r);
    case Let(bs, body) => LetPlainly(bs, body, x, r, {});
    case _ =>
  }

  lemma {:induction false} SubstAllPlainly(ts: seq<IrTerm>, x: Name, r: IrTerm)
    requires AllBinders(ts) !! FreeTerm(r)
    ensures SubstTerms(ts, x, r) == PlugAll(ts, x, r)
    decreases TermsSize(ts), 1
  {
    hide FreeTerm;
    if ts != [] {
      SubstPlainly(ts[0], x, r);
      SubstAllPlainly(ts[1..], x, r);
    }
  }

  lemma {:induction false} PlugLet(bs: seq<LetBinding>, body: IrTerm, x: Name, r: IrTerm)
    requires bs != []
    ensures var first := LetBinding(bs[0].name, Plug(bs[0].bound, x, r));
            Plug(Let(bs, body), x, r) ==
            if bs[0].name == x then Let([first] + bs[1..], body)
            else var rest := Plug(Let(bs[1..], body), x, r); Let([first] + rest.bindings, rest.letBody)
  {
    assert bs == [bs[0]] + bs[1..];
    assert bs[0].name != x ==> ((exists c :: c in bs && c.name == x) <==> (exists c :: c in bs[1..] && c.name == x));
  }

  lemma {:induction false} LetPlainly(bs: seq<LetBinding>, body: IrTerm, x: Name, r: IrTerm, names: set<Name>)
    requires BindingBinders(bs) !! FreeTerm(r) && Binders(body) !! FreeTerm(r)
    ensures SubstLet(bs, body, x, r, false, names, []) == Plug(Let(bs, body), x, r)
    decreases BindingsSize(bs) + TermSize(body), 2
  {
    hide FreeTerm, LetFresh, SubstTerm, SubstLet, Plug;
    if bs == [] {
      SubstPlainly(body, x, r);
      LetEnd(body, x, r, false, names, []);
      PlugLetEnd(body, x, r);
    } else {
      var b := bs[0];
      assert b.name in BindingBinders(bs);
      SubstPlainly(b.bound, x, r);
      LetStep(bs, body, x, r, false, names, []);
      PlugLet(bs, body, x, r);
      if b.name == x {
        ShadowedPlainly(bs[1..], body, x, r, names + {x});
      } else {
        LetPlainly(bs[1..], body, x, r, names + {b.name});
      }
    }
  }

  lemma {:induction false} PlugLetEnd(body: IrTerm, x: Name, r: IrTerm)
    ensures Plug(Let([], body), x, r) == Let([], Plug(body, x, r))
  {
  }

  // Behind a binder of the variable, bindings and body stay as they are.
  lemma {:induction false} ShadowedPlainly(bs: seq<LetBinding>, body: IrTerm, x: Name, r: IrTerm, names: set<Name>)
    ensures SubstLet(bs, body, x, r, true, names, []) == Let(bs, body)
    decreases bs
  {
    hide FreeTerm, LetFresh;
    if bs != [] {
      ShadowedPlainly(bs[1..], body, x, r, names + {bs[0].name});
      assert [LetBinding(bs[0].name, bs[0].bound)] + bs[1..] == bs;
    }
  }

  lemma {:induction false} SubstFormulaPlainly(f: IrFormula, x: Name, r: IrTerm)
    requires FormulaBinders(f) !! FreeTerm(r)
    ensures SubstFormula(f, x, r) == PlugFormula(f, x, r)
    decreases FormulaSize(f), 0
  {
    hide FreeTerm, FreshName;
    match f
    case Atomic(_, args) => SubstAllPlainly(args, x, r);
    case Connect(_, operands) => SubstFormulasPlainly(operands, x, r);
    case Bind(_, name, _, body) =>
      assert name in FormulaBinders(f);
      SubstFormulaPlainly(body, x, r);
    case Substitute(target, term, _) =>
      SubstFormulaPlainly(target, x, r);
      SubstPlainly(term, x, r);
    case Apply(_, args) => SubstFormulasPlainly(args, x, r);
    case DivergenceBetween(source, dest) =>
      SubstFormulaPlainly(source, x, r);
      SubstFormulaPlainly(dest, x, r);
  }

  lemma {:induction false} SubstFormulasPlainly(fs: seq<IrFormula>, x: Name, r: IrTerm)
    requires FormulasBinders(fs) !! FreeTerm(r)
    ensures SubstFormulas(fs, x, r) == PlugFormulas(fs, x, r)
    decreases FormulasSize(fs), 1
  {
    hide FreeTerm;
    if fs != [] {
      SubstFormulaPlainly(fs[0], x, r);
      SubstFormulasPlainly(fs[1..], x, r);
    }
  }
}
