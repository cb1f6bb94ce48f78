// The IR of sugar-ir-types and its free variables. The four connectives share one
// constructor, and so do the three binders: every function modelled here treats them alike.
module Ir {
  type Name = string
  type Json = string
  type Sort = string

  datatype IrTerm =
    | Var(name: Name)
    | Const(value: Json, sort: Sort)
    | Ctor(ctor: Name, args: seq<IrTerm>)
    | Lambda(param: Name, paramSort: Sort, body: IrTerm)
    | Let(bindings: seq<LetBinding>, letBody: IrTerm)

  datatype LetBinding = LetBinding(name: Name, bound: IrTerm)

  datatype Connective = And | Or | Not | Implies
  datatype Binder = Forall | Exists | Choice

  datatype IrFormula =
    | Atomic(predicate_: Name, terms: seq<IrTerm>)
    | Connect(conn: Connective, operands: seq<IrFormula>)
    | Bind(binder: Binder, name: Name, sort: Sort, body: IrFormula)
    | Substitute(target: IrFormula, term: IrTerm, variable: Name)
    | Apply(fn: Name, fargs: seq<IrFormula>)
    | DivergenceBetween(source: IrFormula, dest: IrFormula)

  // ---------- sizes ----------

  function TermSize(t: IrTerm): (n: nat)
    ensures n > 0
  {
    match t
    case Var(_) => 1
    case Const(_, _) => 1
    case Ctor(_, args) => 1 + TermsSize(args)
    case Lambda(_, _, body) => 1 + TermSize(body)
    case Let(bindings, body) => 1 + BindingsSize(bindings) + TermSize(body)
  }

  function TermsSize(ts: seq<IrTerm>): nat {
    if ts == [] then 0 else TermSize(ts[0]) + TermsSize(ts[1..])
  }

  function BindingsSize(bs: seq<LetBinding>): nat {
    if bs == [] then 0 else TermSize(bs[0].bound) + BindingsSize(bs[1..])
  }

  lemma {:induction false} TermPartSize(ts: seq<IrTerm>, i: nat)
    requires i < |ts|
    ensures TermSize(ts[i]) <= TermsSize(ts)
  {
    if i > 0 {
      TermPartSize(ts[1..], i - 1);
    }
  }

  lemma {:induction false} BindingPartSize(bs: seq<LetBinding>, i: nat)
    requires i < |bs|
    ensures TermSize(bs[i].bound) <= BindingsSize(bs)
  {
    if i > 0 {
      BindingPartSize(bs[1..], i - 1);
    }
  }

  function FormulaSize(f: IrFormula): (n: nat)
    ensures n > 0
  {
    match f
    case Atomic(_, _) => 1
    case Connect(_, operands) => 1 + FormulasSize(operands)
    case Bind(_, _, _, body) => 1 + FormulaSize(body)
    case Substitute(target, _, _) => 1 + FormulaSize(target)
    case Apply(_, args) => 1 + FormulasSize(args)
    case DivergenceBetween(source, dest) => 1 + FormulaSize(source) + FormulaSize(dest)
  }

  function FormulasSize(fs: seq<IrFormula>): nat {
    if fs == [] then 0 else FormulaSize(fs[0]) + FormulasSize(fs[1..])
  }

  // ---------- free variables ----------

  function FreeTerm(t: IrTerm): set<Name>
    decreases TermSize(t), 0
  {
    match t
    case Var(name) => {name}
    case Const(_, _) => {}
    case Ctor(_, args) => FreeTerms(args)
    case Lambda(param, _, body) => FreeTerm(body) - {param}
    case Let(bindings, body) => FreeLet(bindings, body)
  }

  function FreeTerms(ts: seq<IrTerm>): set<Name>
    decreases TermsSize(ts), 1
  {
    if ts == [] then {} else FreeTerm(ts[0]) + FreeTerms(ts[1..])
  }

  /** Sequential let: each bound term sees the binders before it. */
  function FreeLet(bs: seq<LetBinding>, body: IrTerm): set<Name>
    decreases BindingsSize(bs) + TermSize(body), 1
  {
    if bs == [] then FreeTerm(body)
    else FreeTerm(bs[0].bound) + (FreeLet(bs[1..], body) - {bs[0].name})
  }

  function FreeFormula(f: IrFormula): set<Name> {
    match f
    case Atomic(_, args) => FreeTerms(args)
    case Connect(_, operands) => FreeFormulas(operands)
    case Bind(_, name, _, body) => FreeFormula(body) - {name}
    case Substitute(target, term, _) => FreeFormula(target) + FreeTerm(term)
    case Apply(_, args) => FreeFormulas(args)
    case DivergenceBetween(source, dest) => FreeFormula(source) + FreeFormula(dest)
  }

  function FreeFormulas(fs: seq<IrFormula>): set<Name> {
    if fs == [] then {} else FreeFormula(fs[0]) + FreeFormulas(fs[1..])
  }
}
