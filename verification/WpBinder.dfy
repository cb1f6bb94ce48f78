// A rule that binds a name around the postcondition or a slot's transformer:
// exactly when instantiating the rule leaves the binder what it is.
module WpBinder {
  import opened Wrappers
  import opened Text
  import opened Ir
  import opened Semantics
  import opened Substitution
  import opened SubstLemma
  import opened WpEvaluator
  import opened WpSound

  /** Integers, with a predicate that holds of zero alone. */
  function Zeros(): Model<int> {
    Model(0, (value, sort) => |value|, (name, vs) => 0, (sort, graph) => 0, (name, vs) => vs == [0],
          (sort, v) => true, (sort, vs) => false, (p, q) => false)
  }

  function Zero(x: Name): IrFormula {
    Atomic("zero", [Var(x)])
  }

  lemma {:induction false} ZeroHolds(x: Name, e: Env<int>)
    ensures Holds(Zeros(), Zero(x), e) <==> Lookup(Zeros(), e, x) == 0
  {
    assert [Var(x)][1..] == [] && EvalAll(Zeros(), [], e) == [];
    var v := Lookup(Zeros(), e, x);
    assert EvalAll(Zeros(), [Var(x)], e) == [v];
    assert [v] == [0] <==> [v][0] == 0;
  }

  // ---------- the binder after instantiation ----------

  lemma {:induction false} FreshIsLonger(taken: set<Name>, base: Name, n: nat)
    ensures |FreshFrom(taken, base, n)| > |base|
    decreases Ahead(taken, base, n)
  {
    if Candidate(base, n) in taken {
      AheadShrinks(taken, base, n);
      FreshIsLonger(taken, base, n + 1);
    }
  }

  /** The name a binder around Q has once the formals are substituted. */
  function Rebound(name: Name, ss: seq<Subst>): Name
    decreases ss
  {
    if ss == [] then name
    else if name != ss[0].formal && name in FreeTerm(ss[0].value) then
      Rebound(FreshName(FreeTerm(ss[0].value) + {ss[0].formal, name}, name), ss[1..])
    else Rebound(name, ss[1..])
  }

  lemma {:induction false} BinderBecomes(b: Binder, name: Name, sort: Sort, ss: seq<Subst>)
    ensures InstantiateFormula(Bind(b, name, sort, Placeholder()), ss)
              == Bind(b, Rebound(name, ss), sort, Placeholder())
    decreases ss
  {
    if ss != [] {
      var f, v := ss[0].formal, ss[0].value;
      if name != f && name in FreeTerm(v) {
        assert FreeTerm(v) + FreeFormula(Placeholder()) + {f, name} == FreeTerm(v) + {f, name};
        var name' := FreshName(FreeTerm(v) + {f, name}, name);
        assert SubstFormula(Bind(b, name, sort, Placeholder()), f, v) == Bind(b, name', sort, Placeholder());
        BinderBecomes(b, name', sort, ss[1..]);
      } else {
        assert SubstFormula(Bind(b, name, sort, Placeholder()), f, v) == Bind(b, name, sort, Placeholder());
        BinderBecomes(b, name, sort, ss[1..]);
      }
    }
  }

  // A renamed binder never gets its name back.
  lemma {:induction false} ReboundGrows(name: Name, ss: seq<Subst>)
    ensures Untouched(name, ss) ==> Rebound(name, ss) == name
    ensures |Rebound(name, ss)| >= |name| && (!Untouched(name, ss) ==> |Rebound(name, ss)| > |name|)
    decreases ss
  {
    if ss != [] {
      assert ss == [ss[0]] + ss[1..];
      if name != ss[0].formal && name in FreeTerm(ss[0].value) {
        var taken := FreeTerm(ss[0].value) + {ss[0].formal, name};
        FreshIsLonger(taken, name, 1);
        ReboundGrows(FreshName(taken, name), ss[1..]);
      } else {
        ReboundGrows(name, ss[1..]);
      }
    }
  }

  // ---------- the exact condition ----------

  /** An operation whose rule is: for all values of the program variable, Q. */
  predicate BindsPost(t: Term, R: Resolver, name: Name, sort: Sort) {
    && t.Op? && R(t.name).Some?
    && var contract := R(t.name).value;
       && contract.unresolvedCall.None? && contract.opaqueLoop.None?
       && contract.Rule() == Some(Bind(Forall, name, sort, Placeholder()))
       && |contract.slots| == |t.args| && CleanArgs(contract.slots, t.args, R)
       && SlotSubsts(contract.slots, t.args, R).Ok?
  }

  lemma {:induction false} BinderWp(t: Term, R: Resolver, name: Name, sort: Sort, q: IrFormula)
    requires BindsPost(t, R, name, sort)
    ensures Wp(t, q, R)
         == Ok(Bind(Forall, Rebound(name, SlotSubsts(R(t.name).value.slots, t.args, R).value), sort, q))
  {
    hide SlotSubsts, CleanArgs;
    var contract := R(t.name).value;
    var ss := SlotSubsts(contract.slots, t.args, R).value;
    BinderBecomes(Forall, name, sort, ss);
    assert Reduce(Placeholder(), q, contract.slots, t.args, t.name, R) == Ok(q);
  }

  // For the postcondition zero(name), wp is the reading of the rule exactly if the binder stays as it is; and then
  // (WpMeaning) it is for every postcondition and interpretation.
  lemma {:induction false} BinderExactly(t: Term, R: Resolver, name: Name, sort: Sort)
    requires BindsPost(t, R, name, sort) && InOrder(SlotSubsts(R(t.name).value.slots, t.args, R).value)
    ensures Wp(t, Zero(name), R).Ok?
    ensures Meaning(Zeros(), Wp(t, Zero(name), R).value)
         == Transformer(Zeros(), R, false, t, Meaning(Zeros(), Zero(name)))
       <==> Untouched(name, SlotSubsts(R(t.name).value.slots, t.args, R).value)
  {
    var ss := SlotSubsts(R(t.name).value.slots, t.args, R).value;
    BinderWp(t, R, name, sort, Zero(name));
    if Untouched(name, ss) {
      assert CleanRule(Bind(Forall, name, sort, Placeholder()), ss);
      WpMeaning(Zeros(), R, false, t, Zero(name));
    } else {
      ReboundGrows(name, ss);
      var e := map[name := 0];
      RenamedHolds(name, Rebound(name, ss), sort, e);
      ReadingFails(t, R, name, sort, e);
    }
  }

  lemma {:induction false} RenamedHolds(name: Name, name': Name, sort: Sort, e: Env<int>)
    requires name != name' && Lookup(Zeros(), e, name) == 0
    ensures e in Meaning(Zeros(), Bind(Forall, name', sort, Zero(name)))
  {
    var vs := Extent(Zeros(), Zero(name), name', e);
    forall v: int
      ensures v in vs
    {
      ZeroHolds(name, Assign(e, name', v));
    }
    assert Quantify(Zeros(), Forall, sort, vs);
  }

  lemma {:induction false} ReadingFails(t: Term, R: Resolver, name: Name, sort: Sort, e: Env<int>)
    requires BindsPost(t, R, name, sort)
    ensures e !in Transformer(Zeros(), R, false, t, Meaning(Zeros(), Zero(name)))
  {
    hide SlotSubsts, CleanArgs, Holds, BindFormals;
    var slots := R(t.name).value.slots;
    var P := Meaning(Zeros(), Zero(name));
    var f := Bind(Forall, name, sort, Placeholder());
    ZeroHolds(name, Assign(e, name, 1));
    var h := Assign(e, name, 1);
    assert h !in P;
    assert !RuleHolds(Zeros(), R, false, Placeholder(), slots, t.args, {} + {name}, P, h);
    var vs := RuleExtent(Zeros(), R, false, Placeholder(), name, slots, t.args, {} + {name}, P, e);
    assert Zeros().inSort(sort, 1) && 1 !in vs;
    assert !Quantify(Zeros(), Forall, sort, vs);
    assert !SchemaFree(f) && f != Placeholder();
    assert !RuleHolds(Zeros(), R, false, f, slots, t.args, {}, P, e);
  }

  // ---------- a loop ----------

  /** A loop: for all values of i, the condition being zero, the body establishes that i is. */
  function LoopRule(): IrFormula {
    Bind(Forall, "i", "s", LoopBody("cond", "i"))
  }

  function LoopBody(cond: Name, i: Name): IrFormula {
    Connect(Implies, [Zero(cond), Apply("wp_body", [Zero(i)])])
  }

  function LoopSlots(): seq<SlotInfo> {
    [SlotInfo("cond", ValueSlot), SlotInfo("body", StmtSlot)]
  }

  function LoopArgs(): seq<Term> {
    [Variable("i"), Unit]
  }

  function LoopResolver(): Resolver {
    (name: Name) =>
      if name == "loop" then Some(OpContract(LoopSlots(), None, None, Some(LoopRule()), RESULT, None, None)) else None
  }

  function LoopTerm(): Term {
    Op("cid", "loop", LoopArgs())
  }

  lemma {:induction false} LoopSubsts()
    ensures SlotSubsts(LoopSlots(), LoopArgs(), LoopResolver()) == Ok([Subst("cond", Var("i"))])
    ensures StmtArg(LoopSlots(), LoopArgs(), "body") == Some(Unit)
  {
    var slots, args, R := LoopSlots(), LoopArgs(), LoopResolver();
    assert slots[1..] == [SlotInfo("body", StmtSlot)] && slots[1..][1..] == [];
    assert args[1..] == [Unit] && args[1..][1..] == [];
    assert SlotSubsts([], [], R) == Ok([]);
    assert SlotSubsts(slots[1..], args[1..], R) == Ok([]);
    assert [Subst("cond", Var("i"))] + [] == [Subst("cond", Var("i"))];
  }

  lemma {:induction false} SubstZero(x: Name, y: Name, z: Name)
    ensures SubstFormula(Zero(x), y, Var(z)) == Zero(if x == y then z else x)
  {
    assert [Var(x)][1..] == [];
    assert SubstTerms([Var(x)][1..], y, Var(z)) == [];
    assert SubstTerms([Var(x)], y, Var(z)) == [Var(if x == y then z else x)];
  }

  lemma {:induction false} SubstLoopBody(cond: Name, i: Name, y: Name, z: Name)
    ensures SubstFormula(LoopBody(cond, i), y, Var(z))
         == LoopBody(if cond == y then z else cond, if i == y then z else i)
  {
    var fs := LoopBody(cond, i).operands;
    SubstZero(cond, y, z);
    SubstZero(i, y, z);
    assert [Zero(i)][1..] == [] && fs[1..] == [fs[1]] && fs[1..][1..] == [];
    var c, j := if cond == y then z else cond, if i == y then z else i;
    assert SubstFormulas([], y, Var(z)) == [];
    assert SubstFormulas([Zero(i)], y, Var(z)) == [Zero(j)];
    assert SubstFormula(fs[1], y, Var(z)) == Apply("wp_body", [Zero(j)]);
    assert SubstFormulas(fs[1..], y, Var(z)) == [Apply("wp_body", [Zero(j)])];
    assert SubstFormulas(fs, y, Var(z)) == [Zero(c)] + [Apply("wp_body", [Zero(j)])];
  }

  function Kept(i: Name): IrFormula {
    Connect(Implies, [Zero("i"), Zero(i)])
  }

  /** The name the loop's binder is changed to. */
  function LoopName(): Name {
    FreshName({"i"} + FreeFormula(LoopBody("cond", "i")) + {"cond", "i"}, "i")
  }

  lemma {:induction false} LoopInstantiated()
    ensures LoopName() != "i" && LoopName() != "cond"
    ensures InstantiateFormula(LoopRule(), [Subst("cond", Var("i"))])
              == Bind(Forall, LoopName(), "s", LoopBody("i", LoopName()))
  {
    hide LoopBody;
    var i := LoopName();
    var ss := [Subst("cond", Var("i"))];
    SubstLoopBody("cond", "i", "i", i);
    SubstLoopBody("cond", i, "cond", "i");
    assert SubstFormula(LoopRule(), "cond", Var("i")) == Bind(Forall, i, "s", LoopBody("i", i));
    assert ss[1..] == [];
  }

  lemma {:induction false} LoopWp(q: IrFormula)
    ensures LoopName() != "i" && LoopName() != "cond"
    ensures Wp(LoopTerm(), q, LoopResolver()) == Ok(Bind(Forall, LoopName(), "s", Kept(LoopName())))
  {
    hide LoopBody, LoopName, Kept, SlotSubsts, InstantiateFormula;
    LoopSubsts();
    LoopInstantiated();
    LoopReduced(q, LoopName());
  }

  lemma {:induction false} LoopReduced(q: IrFormula, i: Name)
    ensures Reduce(LoopBody("i", i), q, LoopSlots(), LoopArgs(), "loop", LoopResolver()) == Ok(Kept(i))
  {
    var slots, args, R := LoopSlots(), LoopArgs(), LoopResolver();
    var fs := LoopBody("i", i).operands;
    LoopSubsts();
    assert fs[1..] == [fs[1]] && fs[1..][1..] == [];
    assert "wp_body"[|SLOT_PREFIX|..] == "body";
    assert Reduce(Zero(i), q, slots, args, "loop", R) == Ok(Zero(i));
    assert Reduce(Zero("i"), q, slots, args, "loop", R) == Ok(Zero("i"));
    assert Reduce(fs[1], q, slots, args, "loop", R) == Ok(Zero(i));
    assert ReduceEach([], q, slots, args, "loop", R) == Ok([]);
    assert [Zero(i)] + [] == [Zero(i)];
    assert ReduceEach(fs[1..], q, slots, args, "loop", R) == Ok([Zero(i)]);
    assert [Zero("i")] + [Zero(i)] == [Zero("i"), Zero(i)];
  }

  // The condition of the loop reads i, so the binder is renamed away from it: the invariant is asked of every i though
  // the condition was tested for the old one. From i = 0 the loop is correct, and its wp does not hold.
  lemma {:induction false} LoopBinderRenamed(q: IrFormula)
    ensures Wp(LoopTerm(), q, LoopResolver()).Ok?
    ensures map["i" := 0] !in Meaning(Zeros(), Wp(LoopTerm(), q, LoopResolver()).value)
    ensures map["i" := 0] in Transformer(Zeros(), LoopResolver(), false, LoopTerm(), Meaning(Zeros(), q))
  {
    hide Wp, Transformer, LoopResolver, LoopTerm, Holds, LoopName;
    var e, i := map["i" := 0], LoopName();
    LoopWp(q);
    KeptFails(i, e);
    LoopReading(Meaning(Zeros(), q), e);
  }

  lemma {:induction false} KeptHolds(i: Name, e: Env<int>)
    ensures Holds(Zeros(), Kept(i), e) <==> (Lookup(Zeros(), e, "i") == 0 ==> Lookup(Zeros(), e, i) == 0)
  {
    ZeroHolds("i", e);
    ZeroHolds(i, e);
    var fs := Kept(i).operands;
    assert fs[1..] == [Zero(i)] && fs[1..][1..] == [];
    assert HoldsAll(Zeros(), [], e) == [];
    assert HoldsAll(Zeros(), fs[1..], e) == [Holds(Zeros(), Zero(i), e)];
    ImpliesOf(Holds(Zeros(), Zero("i"), e), Holds(Zeros(), Zero(i), e));
    assert HoldsAll(Zeros(), fs, e) == [Holds(Zeros(), Zero("i"), e)] + [Holds(Zeros(), Zero(i), e)];
  }

  lemma {:induction false} ImpliesOf(a: bool, b: bool)
    ensures Truth(Implies, [a] + [b]) <==> (a ==> b)
  {
    var bs := [a] + [b];
    assert bs[..1] == [a] && bs[1] == b;
  }

  lemma {:induction false} KeptFails(i: Name, e: Env<int>)
    requires i != "i" && Lookup(Zeros(), e, "i") == 0
    ensures e !in Meaning(Zeros(), Bind(Forall, i, "s", Kept(i)))
  {
    hide Kept;
    KeptHolds(i, Assign(e, i, 1));
    var vs := Extent(Zeros(), Kept(i), i, e);
    assert Zeros().inSort("s", 1) && 1 !in vs;
    assert !Quantify(Zeros(), Forall, "s", vs);
  }

  lemma {:induction false} LoopReading(P: Pred<int>, e: Env<int>)
    ensures e in Transformer(Zeros(), LoopResolver(), false, LoopTerm(), P)
  {
    var slots, args, R := LoopSlots(), LoopArgs(), LoopResolver();
    forall v: int
      ensures RuleHolds(Zeros(), R, false, LoopBody("cond", "i"), slots, args, {} + {"i"}, P, Assign(e, "i", v))
    {
      LoopBodyReads(P, Assign(e, "i", v));
    }
    assert !SchemaFree(LoopBody("cond", "i")) by {
      assert LoopBody("cond", "i").operands[1] in LoopBody("cond", "i").operands;
    }
    assert RuleHolds(Zeros(), R, false, LoopRule(), slots, args, {}, P, e);
  }

  lemma {:induction false} LoopBodyReads(P: Pred<int>, e: Env<int>)
    requires "i" in e
    ensures RuleHolds(Zeros(), LoopResolver(), false, LoopBody("cond", "i"), LoopSlots(), LoopArgs(), {} + {"i"}, P, e)
  {
    hide BindFormals, Holds, Transformer, LoopResolver, LoopSlots, LoopArgs;
    var slots, args, R := LoopSlots(), LoopArgs(), LoopResolver();
    var hidden: set<Name> := {} + {"i"};
    var f := LoopBody("cond", "i");
    var fs := f.operands;
    assert fs[1] in fs && fs[1..] == [fs[1]] && fs[1..][1..] == [];
    CondReads(P, e);
    BodyReads(P, e);
    var a := RuleHolds(Zeros(), R, false, fs[0], slots, args, hidden, P, e);
    var b := RuleHolds(Zeros(), R, false, fs[1], slots, args, hidden, P, e);
    assert RuleHoldsAll(Zeros(), R, false, [], slots, args, hidden, P, e) == [];
    assert RuleHoldsAll(Zeros(), R, false, fs[1..], slots, args, hidden, P, e) == [b];
    assert RuleHoldsAll(Zeros(), R, false, fs, slots, args, hidden, P, e) == [a] + [b];
    ImpliesOf(a, b);
    assert !SchemaFree(f) && f != Placeholder();
  }

  lemma {:induction false} LoopFormals(e: Env<int>)
    requires "i" in e
    ensures BindFormals(Zeros(), LoopResolver(), LoopSlots(), LoopArgs(), {} + {"i"}, e) == Assign(e, "cond", e["i"])
  {
    var slots, args, R := LoopSlots(), LoopArgs(), LoopResolver();
    assert slots[1..] == [SlotInfo("body", StmtSlot)] && slots[1..][1..] == [];
    assert args[1..] == [Unit] && args[1..][1..] == [];
    assert BindFormals(Zeros(), R, slots[1..], args[1..], {} + {"i"}, e) == e;
  }

  lemma {:induction false} CondReads(P: Pred<int>, e: Env<int>)
    requires "i" in e
    ensures RuleHolds(Zeros(), LoopResolver(), false, Zero("cond"), LoopSlots(), LoopArgs(), {} + {"i"}, P, e)
       <==> e["i"] == 0
  {
    hide BindFormals, Holds, LoopResolver, LoopSlots, LoopArgs;
    LoopFormals(e);
    ZeroHolds("cond", Assign(e, "cond", e["i"]));
  }

  lemma {:induction false} BodyReads(P: Pred<int>, e: Env<int>)
    requires "i" in e
    ensures RuleHolds(Zeros(), LoopResolver(), false, Apply("wp_body", [Zero("i")]), LoopSlots(), LoopArgs(),
                      {} + {"i"}, P, e)
       <==> e["i"] == 0
  {
    hide BindFormals, Holds;
    var slots, args, R := LoopSlots(), LoopArgs(), LoopResolver();
    var hidden: set<Name> := {} + {"i"};
    LoopSubsts();
    LoopFormals(e);
    ZeroHolds("i", Assign(e, "cond", e["i"]));
    assert "wp_body"[|SLOT_PREFIX|..] == "body";
    assert |slots| == |args|;
    var X := RulePred(Zeros(), R, false, Zero("i"), slots, args, hidden, P);
    assert Transformer(Zeros(), R, false, Unit, X) == X;
  }
}
