// The substitution algebra of wp.rs.
module Substitution {
  import opened Sequences
  import opened Text
  import opened Ir

  // ---------- fresh names ----------

  function Candidate(base: Name, n: nat): Name {
    base + "_" + Decimal(n)
  }

  lemma {:induction false} CandidateInjective(base: Name, m: nat, n: nat)
    requires Candidate(base, m) == Candidate(base, n)
    ensures m == n
  {
    assert Decimal(m) == Candidate(base, m)[|base| + 1..];
    assert Decimal(n) == Candidate(base, n)[|base| + 1..];
    DecimalInjective(m, n);
  }

  /** The taken names that candidates from n on could still run into. */
  ghost function Ahead(taken: set<Name>, base: Name, n: nat): set<Name> {
    set c | c in taken && exists k: nat :: n <= k && c == Candidate(base, k)
  }

  lemma {:induction false} AheadShrinks(taken: set<Name>, base: Name, n: nat)
    requires Candidate(base, n) in taken
    ensures Ahead(taken, base, n + 1) < Ahead(taken, base, n)
  {
    assert Candidate(base, n) in Ahead(taken, base, n);
    if Candidate(base, n) in Ahead(taken, base, n + 1) {
      var k: nat :| n + 1 <= k && Candidate(base, n) == Candidate(base, k);
      CandidateInjective(base, n, k);
    }
  }

  function FreshFrom(taken: set<Name>, base: Name, n: nat): (name: Name)
    ensures name !in taken
    decreases Ahead(taken, base, n)
  {
    if Candidate(base, n) !in taken then Candidate(base, n)
    else
      AheadShrinks(taken, base, n);
      FreshFrom(taken, base, n + 1)
  }

  /** A name not taken: the base itself if it can, else the first free `base_n`. */
  function FreshName(taken: set<Name>, base: Name): (name: Name)
    ensures name !in taken
  {
    if base !in taken then base else FreshFrom(taken, base, 1)
  }

  /** The candidate of number m is the first of those from n on that is free. */
  ghost predicate FirstFree(taken: set<Name>, base: Name, n: nat, m: nat) {
    n <= m && Candidate(base, m) !in taken && forall k: nat :: n <= k < m ==> Candidate(base, k) in taken
  }

  lemma {:induction false} FreshFromExactly(taken: set<Name>, base: Name, n: nat) returns (m: nat)
    ensures FirstFree(taken, base, n, m) && FreshFrom(taken, base, n) == Candidate(base, m)
    decreases Ahead(taken, base, n)
  {
    hide Candidate;
    m := n;
    if Candidate(base, n) in taken {
      AheadShrinks(taken, base, n);
      m := FreshFromExactly(taken, base, n + 1);
    }
  }

  // The base itself where it is free, else the free name `base_m` of the least m from 1 on.
  lemma {:induction false} FreshNameExactly(taken: set<Name>, base: Name) returns (m: nat)
    ensures base !in taken ==> FreshName(taken, base) == base
    ensures base in taken ==> FirstFree(taken, base, 1, m) && FreshName(taken, base) == base + "_" + Decimal(m)
  {
    m := FreshFromExactly(taken, base, 1);
  }

  method FreshNameLoop(taken: set<Name>, base: Name) returns (name: Name)
    ensures name == FreshName(taken, base)
  {
    if base !in taken {
      return base;
    }
    var n := 1;
    name := Candidate(base, n);
    while name in taken
      invariant name == Candidate(base, n)
      invariant FreshFrom(taken, base, n) == FreshFrom(taken, base, 1)
      decreases Ahead(taken, base, n)
    {
      AheadShrinks(taken, base, n);
      n := n + 1;
      name := Candidate(base, n);
    }
  }

  // ---------- substitution ----------

  datatype Rename = Rename(before: Name, after: Name)

  /** Replaces every free occurrence of x by r. A rename (r a variable) keeps the size. */
  function SubstTerm(t: IrTerm, x: Name, r: IrTerm): (u: IrTerm)
    ensures r.Var? ==> TermSize(u) == TermSize(t)
    decreases TermSize(t), 0
  {
    match t
    case Var(name) => if name == x then r else t
    case Const(_, _) => t
    case Ctor(name, args) => Ctor(name, SubstTerms(args, x, r))
    case Lambda(param, sort, body) =>
      if param == x then t
      else if param in FreeTerm(r) then
        var name' := FreshName(FreeTerm(r) + FreeTerm(body) + {x, param}, param);
        var renamed := SubstTerm(body, param, Var(name'));
        Lambda(name', sort, SubstTerm(renamed, x, r))
      else Lambda(param, sort, SubstTerm(body, x, r))
    case Let(bindings, body) =>
      SubstLet(bindings, body, x, r, false, {}, [])
  }

  function SubstTerms(ts: seq<IrTerm>, x: Name, r: IrTerm): (us: seq<IrTerm>)
    ensures r.Var? ==> TermsSize(us) == TermsSize(ts)
    ensures |us| == |ts|
    decreases TermsSize(ts), 1
  {
    if ts == [] then [] else [SubstTerm(ts[0], x, r)] + SubstTerms(ts[1..], x, r)
  }

  /** The renames in order, then the substitution itself unless a binder has shadowed x. */
  function SubstUnder(t: IrTerm, renames: seq<Rename>, x: Name, r: IrTerm, shadowed: bool): (u: IrTerm)
    ensures r.Var? ==> TermSize(u) == TermSize(t)
    decreases TermSize(t), 1, |renames|
  {
    if renames == [] then (if shadowed then t else SubstTerm(t, x, r))
    else SubstUnder(SubstTerm(t, renames[0].before, Var(renames[0].after)), renames[1..], x, r, shadowed)
  }

  /** Whether the let arm alpha-renames a binder of this name. */
  predicate Renames(b: Name, x: Name, r: IrTerm, shadowed: bool) {
    b != x && !shadowed && b in FreeTerm(r)
  }

  function LetFresh(b: Name, x: Name, r: IrTerm, names: set<Name>): Name {
    FreshName(FreeTerm(r) + {x, b} + names, b)
  }

  /** The name a let binder keeps or gets. */
  function NewName(b: Name, x: Name, r: IrTerm, shadowed: bool, names: set<Name>): Name {
    if Renames(b, x, r, shadowed) then LetFresh(b, x, r, names) else b
  }

  function NewRenames(b: Name, x: Name, r: IrTerm, shadowed: bool, names: set<Name>,
                      renames: seq<Rename>): seq<Rename> {
    if Renames(b, x, r, shadowed) then renames + [Rename(b, LetFresh(b, x, r, names))] else renames
  }

  /** The let arm from some binding on: `names` are the new names of the bindings before it. */
  function SubstLet(bs: seq<LetBinding>, body: IrTerm, x: Name, r: IrTerm, shadowed: bool, names: set<Name>,
                    renames: seq<Rename>): (u: IrTerm)
    ensures u.Let?
    ensures r.Var? ==> BindingsSize(u.bindings) + TermSize(u.letBody) == BindingsSize(bs) + TermSize(body)
    decreases BindingsSize(bs) + TermSize(body), 2
  {
    if bs == [] then Let([], SubstUnder(body, renames, x, r, shadowed)) else
    var b := bs[0].name;
    var bound := SubstUnder(bs[0].bound, renames, x, r, shadowed);
    var name := NewName(b, x, r, shadowed, names);
    var rest := SubstLet(bs[1..], body, x, r, shadowed || b == x, names + {name},
                         NewRenames(b, x, r, shadowed, names, renames));
    Let([LetBinding(name, bound)] + rest.bindings, rest.letBody)
  }

  function SubstFormula(f: IrFormula, x: Name, r: IrTerm): (g: IrFormula)
    ensures FormulaSize(g) == FormulaSize(f)
    decreases FormulaSize(f), 0
  {
    match f
    case Atomic(name, args) => Atomic(name, SubstTerms(args, x, r))
    case Connect(c, operands) => Connect(c, SubstFormulas(operands, x, r))
    case Bind(b, name, sort, body) =>
      var (name', body') := SubstBinder(name, body, x, r);
      Bind(b, name', sort, body')
    case Substitute(target, term, v) => Substitute(SubstFormula(target, x, r), SubstTerm(term, x, r), v)
    case Apply(fn, args) => Apply(fn, SubstFormulas(args, x, r))
    case DivergenceBetween(source, dest) => DivergenceBetween(SubstFormula(source, x, r), SubstFormula(dest, x, r))
  }

  function SubstFormulas(fs: seq<IrFormula>, x: Name, r: IrTerm): (gs: seq<IrFormula>)
    ensures FormulasSize(gs) == FormulasSize(fs)
    ensures |gs| == |fs|
    decreases FormulasSize(fs), 1
  {
    if fs == [] then [] else [SubstFormula(fs[0], x, r)] + SubstFormulas(fs[1..], x, r)
  }

  /** The shared binder rule: shadow, rename first, or pass through. */
  function SubstBinder(bound: Name, body: IrFormula, x: Name, r: IrTerm): (res: (Name, IrFormula))
    ensures FormulaSize(res.1) == FormulaSize(body)
    decreases FormulaSize(body), 1
  {
    if bound == x then (bound, body)
    else if bound in FreeTerm(r) then
      var name' := FreshName(FreeTerm(r) + FreeFormula(body) + {x, bound}, bound);
      var renamed := SubstFormula(body, bound, Var(name'));
      (name', SubstFormula(renamed, x, r))
    else (bound, SubstFormula(body, x, r))
  }

  // ---------- the loops ----------

  method ApplyRenames(t: IrTerm, renames: seq<Rename>, x: Name, r: IrTerm, shadowed: bool) returns (u: IrTerm)
    ensures u == SubstUnder(t, renames, x, r, shadowed)
  {
    u := t;
    for i := 0 to |renames|
      invariant SubstUnder(u, renames[i..], x, r, shadowed) == SubstUnder(t, renames, x, r, shadowed)
    {
      assert renames[i..][0] == renames[i] && renames[i..][1..] == renames[i + 1..];
      u := SubstTerm(u, renames[i].before, Var(renames[i].after));
    }
    if !shadowed {
      u := SubstTerm(u, x, r);
    }
  }

  /** The let arm as the code runs it: one pass over the bindings, collecting renames. */
  lemma {:induction false} LetStep(bs: seq<LetBinding>, body: IrTerm, x: Name, r: IrTerm, shadowed: bool,
                                   names: set<Name>, renames: seq<Rename>)
    requires bs != []
    ensures var b := bs[0];
            var name := NewName(b.name, x, r, shadowed, names);
            var rest := SubstLet(bs[1..], body, x, r, shadowed || b.name == x, names + {name},
                                 NewRenames(b.name, x, r, shadowed, names, renames));
            SubstLet(bs, body, x, r, shadowed, names, renames)
            == Let([LetBinding(name, SubstUnder(b.bound, renames, x, r, shadowed))] + rest.bindings, rest.letBody)
  {
  }

  lemma {:induction false} LetEnd(body: IrTerm, x: Name, r: IrTerm, shadowed: bool, names: set<Name>,
                                  renames: seq<Rename>)
    ensures SubstLet([], body, x, r, shadowed, names, renames) == Let([], SubstUnder(body, renames, x, r, shadowed))
  {
  }

  method SubstituteLet(bindings: seq<LetBinding>, body: IrTerm, x: Name, r: IrTerm) returns (u: IrTerm)
    ensures u == SubstTerm(Let(bindings, body), x, r)
  {
    hide SubstUnder, FreeTerm, FreshName, SubstLet;
    var replacementFree := FreeTerm(r);
    var newBindings: seq<LetBinding> := [];
    var names: set<Name> := {};
    var shadowed := false;
    var renames: seq<Rename> := [];
    ghost var goal := SubstTerm(Let(bindings, body), x, r);
    for i := 0 to |bindings|
      invariant var rest := SubstLet(bindings[i..], body, x, r, shadowed, names, renames);
                goal == Let(newBindings + rest.bindings, rest.letBody)
    {
      var b := bindings[i];
      assert bindings[i..][0] == b && bindings[i..][1..] == bindings[i + 1..];
      LetStep(bindings[i..], body, x, r, shadowed, names, renames);
      var bound := ApplyRenames(b.bound, renames, x, r, shadowed);
      var name := b.name;
      if b.name == x {
        shadowed := true;
      } else if !shadowed && b.name in replacementFree {
        name := FreshNameLoop(replacementFree + {x, b.name} + names, b.name);
        renames := renames + [Rename(b.name, name)];
      }
      names := names + {name};
      ghost var rest := SubstLet(bindings[i + 1..], body, x, r, shadowed, names, renames);
      ConcatAssoc(newBindings, [LetBinding(name, bound)], rest.bindings);
      newBindings := newBindings + [LetBinding(name, bound)];
    }
    assert bindings[|bindings|..] == [];
    LetEnd(body, x, r, shadowed, names, renames);
    assert newBindings + [] == newBindings;
    var body' := ApplyRenames(body, renames, x, r, shadowed);
    u := Let(newBindings, body');
  }

  /** Adds the free variables of a term to the accumulator. */
  method FreeVarsInto(t: IrTerm, acc: set<Name>) returns (acc': set<Name>)
    ensures acc' == acc + FreeTerm(t)
    decreases TermSize(t), 0
  {
    match t
    case Var(name) => acc' := acc + {name};
    case Const(_, _) => acc' := acc;
    case Ctor(_, args) =>
      acc' := acc;
      for i := 0 to |args|
        invariant acc' + FreeTerms(args[i..]) == acc + FreeTerms(args)
      {
        assert args[i..][0] == args[i] && args[i..][1..] == args[i + 1..];
        TermPartSize(args, i);
        acc' := FreeVarsInto(args[i], acc');
      }
    case Lambda(param, _, body) =>
      var inner := FreeVarsInto(body, {});
      acc' := acc + (inner - {param});
    case Let(bindings, body) =>
      acc' := acc;
      var boundSoFar: set<Name> := {};
      for i := 0 to |bindings|
        invariant acc' + (FreeLet(bindings[i..], body) - boundSoFar) == acc + FreeLet(bindings, body)
      {
        assert bindings[i..][0] == bindings[i] && bindings[i..][1..] == bindings[i + 1..];
        BindingPartSize(bindings, i);
        var bf := FreeVarsInto(bindings[i].bound, {});
        acc' := acc' + (bf - boundSoFar);
        boundSoFar := boundSoFar + {bindings[i].name};
      }
      var bf := FreeVarsInto(body, {});
      acc' := acc' + (bf - boundSoFar);
  }
}
