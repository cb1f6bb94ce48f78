// Effect propagation (effect_propagation.rs): a worklist from changed callsites
// to the functions that contain them, and on to the callers of widened ones.
module Effects {
  import opened Wrappers

  type Cid = string
  type Effect = string

  datatype FunctionInfo = FunctionInfo(name: string, functionCid: Cid, signatureCid: Cid,
                                       forbiddingContract: Option<Cid>, admitted: set<Effect>, forbidden: set<Effect>)

  datatype Callsite = Callsite(cid: Cid, callee: Option<string>, containingFn: string)

  datatype Pending = Pending(cid: Cid, dimension: Option<string>, effect: Effect)

  /** `keys` is the order in which the callsites are listed. */
  datatype Input = Input(callsites: map<Cid, Callsite>, keys: seq<Cid>, functions: map<string, FunctionInfo>) {
    ghost predicate Listed() {
      forall k :: k in callsites <==> k in keys
    }
  }

  datatype Decision =
    | Widen(dimension: Option<string>, effect: Effect, functionCid: Cid, callsite: Cid)
    | Halt(signature: Cid, functionCid: Cid)
    | Refuse(contract: Cid, functionCid: Cid, callsite: Cid)

  datatype Error = UnknownCallsite(cid: Cid) | UnknownFunction(key: string)

  type Decisions = map<string, Decision>

  // ---------- one function, one effect ----------

  datatype Class = Widens | Halts | Refuses

  function ClassOf(f: FunctionInfo, e: Effect): Class {
    if e in f.admitted then Halts else if e in f.forbidden then Refuses else Widens
  }

  function DecisionClass(d: Decision): Class {
    match d
    case Widen(_, _, _, _) => Widens
    case Halt(_, _) => Halts
    case Refuse(_, _, _) => Refuses
  }

  /** The decision for a function that an effect comes to, with everything it reports. */
  predicate Fits(f: FunctionInfo, p: Pending, d: Decision) {
    match d
    case Halt(signature, functionCid) =>
      && p.effect in f.admitted
      && signature == f.signatureCid && functionCid == f.functionCid
    case Refuse(contract, functionCid, callsite) =>
      && p.effect in f.forbidden && p.effect !in f.admitted
      && (f.forbiddingContract == Some(contract) || (f.forbiddingContract == None && contract == f.signatureCid))
      && functionCid == f.functionCid && callsite == p.cid
    case Widen(dimension, effect, functionCid, callsite) =>
      && p.effect !in f.admitted && p.effect !in f.forbidden
      && p == Pending(callsite, dimension, effect) && functionCid == f.functionCid
  }

  function Decide(f: FunctionInfo, p: Pending): (d: Decision)
    ensures Fits(f, p, d)
    ensures DecisionClass(d) == ClassOf(f, p.effect)
  {
    match ClassOf(f, p.effect)
    case Halts => Halt(f.signatureCid, f.functionCid)
    case Refuses =>
      Refuse(if f.forbiddingContract.Some? then f.forbiddingContract.value else f.signatureCid, f.functionCid, p.cid)
    case Widens => Widen(p.dimension, p.effect, f.functionCid, p.cid)
  }

  // Only one decision fits.
  lemma {:induction false} FitsOne(f: FunctionInfo, p: Pending, d: Decision)
    requires Fits(f, p, d)
    ensures d == Decide(f, p)
  {
  }

  // ---------- one run ----------

  predicate Calls(cs: Callsite, name: string) {
    cs.callee == Some(name)
  }

  /** The callsites of a function, in listed order, as pending for what made it widen. */
  function Callers(input: Input, keys: seq<Cid>, name: string, p: Pending): seq<Pending>
    requires forall k :: k in keys ==> k in input.callsites
  {
    if keys == [] then []
    else (if Calls(input.callsites[keys[0]], name) then [p.(cid := input.callsites[keys[0]].cid)] else [])
         + Callers(input, keys[1..], name, p)
  }

  function FunctionAt(input: Input, cid: Cid): Result<FunctionInfo, Error> {
    if cid !in input.callsites then Err(UnknownCallsite(cid))
    else
      var key := input.callsites[cid].containingFn;
      if key in input.functions then Ok(input.functions[key]) else Err(UnknownFunction(key))
  }

  /** The worklist once its first entry has decided the function. */
  ghost function Next(input: Input, work: seq<Pending>, f: FunctionInfo): seq<Pending>
    requires input.Listed() && work != []
  {
    if ClassOf(f, work[0].effect) == Widens then work[1..] + Callers(input, input.keys, f.name, work[0]) else work[1..]
  }

  ghost function AllNames(input: Input): set<string> {
    set k | k in input.functions :: input.functions[k].name
  }

  /** The decisions a worklist leads to. */
  ghost function Run(input: Input, work: seq<Pending>, decisions: Decisions): Result<Decisions, Error>
    requires input.Listed()
    decreases |AllNames(input) - decisions.Keys|, |work|
  {
    if work == [] then Ok(decisions) else
    var p := work[0];
    match FunctionAt(input, p.cid)
    case Err(error) => Err(error)
    case Ok(f) =>
      if f.name in decisions then Run(input, work[1..], decisions)
      else
        Shrinks(input, decisions, f.name, Decide(f, p));
        Run(input, Next(input, work, f), decisions[f.name := Decide(f, p)])
  }

  lemma {:induction false} Shrinks(input: Input, decisions: Decisions, name: string, d: Decision)
    requires name in AllNames(input) && name !in decisions
    ensures |AllNames(input) - decisions[name := d].Keys| < |AllNames(input) - decisions.Keys|
  {
    assert AllNames(input) - decisions[name := d].Keys == AllNames(input) - decisions.Keys - {name};
  }

  // ---------- the loop ----------

  method CallersByCallee(input: Input) returns (callers: map<string, seq<Callsite>>)
    requires input.Listed()
    ensures forall name, p :: CallersIn(callers, name, p) == Callers(input, input.keys, name, p)
  {
    hide Callers, CallersIn, Calls;
    callers := map[];
    NoCallers(input);
    for i := 0 to |input.keys|
      invariant forall name, p :: CallersIn(callers, name, p) == Callers(input, input.keys[..i], name, p)
    {
      var cs := input.callsites[input.keys[i]];
      ghost var before := callers;
      if cs.callee.Some? {
        var name := cs.callee.value;
        callers := callers[name := (if name in callers then callers[name] else []) + [cs]];
      }
      forall name, p
        ensures CallersIn(callers, name, p) == Callers(input, input.keys[..i + 1], name, p)
      {
        CallersSnoc(input, input.keys[..i], input.keys[i], name, p);
        assert input.keys[..i + 1] == input.keys[..i] + [input.keys[i]];
        assert CallersIn(before, name, p) == Callers(input, input.keys[..i], name, p);
        CallerAdded(before, callers, cs, name, p);
      }
    }
    assert input.keys[..|input.keys|] == input.keys;
  }

  lemma {:induction false} NoCallers(input: Input)
    ensures forall name, p :: CallersIn(map[], name, p) == Callers(input, input.keys[..0], name, p)
  {
  }

  lemma {:induction false} CallerAdded(before: map<string, seq<Callsite>>, after: map<string, seq<Callsite>>,
                                       cs: Callsite, name: string, p: Pending)
    requires after == if cs.callee.None? then before else
             var callee := cs.callee.value;
             before[callee := (if callee in before then before[callee] else []) + [cs]]
    ensures CallersIn(after, name, p) ==
            CallersIn(before, name, p) + if Calls(cs, name) then [p.(cid := cs.cid)] else []
  {
    if Calls(cs, name) {
      AsPendingSnoc(if name in before then before[name] else [], cs, p);
    }
  }

  function AsPending(css: seq<Callsite>, p: Pending): seq<Pending> {
    seq(|css|, i requires 0 <= i < |css| => p.(cid := css[i].cid))
  }

  function CallersIn(callers: map<string, seq<Callsite>>, name: string, p: Pending): seq<Pending> {
    AsPending(if name in callers then callers[name] else [], p)
  }

  lemma {:induction false} AsPendingSnoc(css: seq<Callsite>, cs: Callsite, p: Pending)
    ensures AsPending(css + [cs], p) == AsPending(css, p) + [p.(cid := cs.cid)]
  {
  }

  lemma {:induction false} CallersSnoc(input: Input, keys: seq<Cid>, k: Cid, name: string, p: Pending)
    requires forall k' :: k' in keys + [k] ==> k' in input.callsites
    ensures Callers(input, keys + [k], name, p) ==
            Callers(input, keys, name, p)
            + if Calls(input.callsites[k], name) then [p.(cid := input.callsites[k].cid)] else []
  {
    assert k in keys + [k];
    if keys == [] {
      assert [k][1..] == [];
    } else {
      assert keys[0] in keys + [k] && forall k' :: k' in keys[1..] + [k] ==> k' in keys + [k];
      CallersSnoc(input, keys[1..], k, name, p);
      assert (keys + [k])[1..] == keys[1..] + [k];
    }
  }

  method PropagateEffects(input: Input, changed: seq<Pending>) returns (plan: Result<Decisions, Error>)
    requires input.Listed()
    ensures plan == Run(input, changed, map[])
    ensures Explained(input, changed, plan)
  {
    hide Run, Callers, Explained;
    RunExplained(input, changed);
    var callers := CallersByCallee(input);
    var worklist, decisions: Decisions := changed, map[];
    while worklist != []
      invariant Run(input, worklist, decisions) == Run(input, changed, map[])
      decreases |AllNames(input) - decisions.Keys|, |worklist|
    {
      ghost var before := worklist;
      var p := worklist[0];
      worklist := worklist[1..];
      var found := FunctionAt(input, p.cid);
      RunTurn(input, before, decisions);
      if found.Err? {
        return Err(found.error);
      }
      var f := found.value;
      if f.name in decisions {
        continue;
      }
      Shrinks(input, decisions, f.name, Decide(f, p));
      if p.effect in f.admitted {
        decisions := decisions[f.name := Halt(f.signatureCid, f.functionCid)];
        continue;
      }
      if p.effect in f.forbidden {
        var contract := if f.forbiddingContract.Some? then f.forbiddingContract.value else f.signatureCid;
        decisions := decisions[f.name := Refuse(contract, f.functionCid, p.cid)];
        continue;
      }
      decisions := decisions[f.name := Widen(p.dimension, p.effect, f.functionCid, p.cid)];
      assert CallersIn(callers, f.name, p) == Callers(input, input.keys, f.name, p);
      if f.name in callers {
        worklist := worklist + AsPending(callers[f.name], p);
      } else {
        assert worklist + [] == worklist;
      }
    }
    RunEnds(input, decisions);
    return Ok(decisions);
  }

  lemma {:induction false} RunTurn(input: Input, work: seq<Pending>, decisions: Decisions)
    requires input.Listed() && work != []
    ensures Run(input, work, decisions) ==
            match FunctionAt(input, work[0].cid)
            case Err(error) => Err(error)
            case Ok(f) =>
              if f.name in decisions then Run(input, work[1..], decisions)
              else Run(input, Next(input, work, f), decisions[f.name := Decide(f, work[0])])
  {
  }

  lemma {:induction false} RunEnds(input: Input, decisions: Decisions)
    requires input.Listed()
    ensures Run(input, [], decisions) == Ok(decisions)
  {
  }

  // ---------- what is reached ----------

  ghost predicate Listing(input: Input, cid: Cid, name: string) {
    exists k :: k in input.callsites && Calls(input.callsites[k], name) && input.callsites[k].cid == cid
  }

  /** The function that contains the callsite. */
  predicate Contains(input: Input, cid: Cid, f: FunctionInfo) {
    && cid in input.callsites && input.callsites[cid].containingFn in input.functions
    && f == input.functions[input.callsites[cid].containingFn]
  }

  predicate Missing(input: Input, cid: Cid, error: Error) {
    match error
    case UnknownCallsite(c) => c == cid && cid !in input.callsites
    case UnknownFunction(key) =>
      cid in input.callsites && input.callsites[cid].containingFn == key && key !in input.functions
  }

  /** The function that contains one callsite neither admits nor forbids the effect, and the other calls it. */
  ghost predicate Leads(input: Input, from: Cid, e: Effect, to: Cid) {
    exists f :: Contains(input, from, f) && e !in f.admitted && e !in f.forbidden && Listing(input, to, f.name)
  }

  /** The effect comes to the callsite from a changed one in n steps, its dimension unchanged. */
  ghost predicate Reached(input: Input, changed: seq<Pending>, p: Pending, n: nat)
    decreases n
  {
    if n == 0 then p in changed
    else exists from :: Reached(input, changed, p.(cid := from), n - 1) && Leads(input, from, p.effect, p.cid)
  }

  ghost predicate EverReached(input: Input, changed: seq<Pending>, p: Pending) {
    exists n: nat :: Reached(input, changed, p, n)
  }

  /** The decision is the one for an effect that comes to the function. */
  ghost predicate Justified(input: Input, changed: seq<Pending>, name: string, d: Decision) {
    exists p: Pending, f: FunctionInfo ::
      EverReached(input, changed, p) && Contains(input, p.cid, f) && f.name == name && Fits(f, p, d)
  }

  ghost predicate Decided(input: Input, decisions: Decisions, cid: Cid) {
    exists f :: Contains(input, cid, f) && f.name in decisions
  }

  /** Every changed callsite is in a function decided, and so is every caller of a function that widens. */
  ghost predicate Complete(input: Input, changed: seq<Pending>, decisions: Decisions) {
    && (forall p :: p in changed ==> Decided(input, decisions, p.cid))
    && (forall name, cid ::
          name in decisions && decisions[name].Widen? && Listing(input, cid, name) ==> Decided(input, decisions, cid))
  }

  ghost predicate Sound(input: Input, changed: seq<Pending>, work: seq<Pending>, decisions: Decisions) {
    && (forall p :: p in work ==> EverReached(input, changed, p))
    && (forall name :: name in decisions ==> Justified(input, changed, name, decisions[name]))
  }

  lemma {:induction false} CallersAre(input: Input, keys: seq<Cid>, name: string, p: Pending)
    requires forall k :: k in keys ==> k in input.callsites
    ensures forall q :: q in Callers(input, keys, name, p) <==>
              && q == p.(cid := q.cid)
              && exists k :: k in keys && Calls(input.callsites[k], name) && input.callsites[k].cid == q.cid
  {
    if keys != [] {
      CallersAre(input, keys[1..], name, p);
      assert forall k :: k in keys <==> k == keys[0] || k in keys[1..];
    }
  }

  lemma {:induction false} AllCallers(input: Input, name: string, p: Pending)
    requires input.Listed()
    ensures forall q :: q in Callers(input, input.keys, name, p)
              <==> q == p.(cid := q.cid) && Listing(input, q.cid, name)
  {
    CallersAre(input, input.keys, name, p);
  }

  lemma {:induction false} SoundStep(input: Input, changed: seq<Pending>, work: seq<Pending>, decisions: Decisions,
                                     f: FunctionInfo)
    requires input.Listed() && Sound(input, changed, work, decisions)
    requires work != [] && FunctionAt(input, work[0].cid) == Ok(f)
    ensures Sound(input, changed, work[1..], decisions)
    ensures Sound(input, changed, Next(input, work, f), decisions[f.name := Decide(f, work[0])])
  {
    hide Decide, Callers, EverReached;
    var p := work[0];
    assert p in work && forall q :: q in work[1..] ==> q in work;
    assert Contains(input, p.cid, f);
    if ClassOf(f, p.effect) == Widens {
      CallersReached(input, changed, p, f);
    }
  }

  lemma {:induction false} CallersReached(input: Input, changed: seq<Pending>, p: Pending, f: FunctionInfo)
    requires input.Listed() && EverReached(input, changed, p)
    requires Contains(input, p.cid, f) && p.effect !in f.admitted && p.effect !in f.forbidden
    ensures forall q :: q in Callers(input, input.keys, f.name, p) ==> EverReached(input, changed, q)
  {
    hide Callers;
    AllCallers(input, f.name, p);
    var n: nat :| Reached(input, changed, p, n);
    forall q | q in Callers(input, input.keys, f.name, p)
      ensures EverReached(input, changed, q)
    {
      CallerReached(input, changed, p, f, q, n);
    }
  }

  lemma {:induction false} CallerReached(input: Input, changed: seq<Pending>, p: Pending, f: FunctionInfo, q: Pending,
                                         n: nat)
    requires Reached(input, changed, p, n)
    requires Contains(input, p.cid, f) && p.effect !in f.admitted && p.effect !in f.forbidden
    requires q == p.(cid := q.cid) && Listing(input, q.cid, f.name)
    ensures Reached(input, changed, q, n + 1)
  {
    assert Leads(input, p.cid, p.effect, q.cid);
    assert q.(cid := p.cid) == p;
  }

  // Whatever the effects: each decision is for an effect that reaches the function, each error is about a callsite
  // one reaches.
  lemma {:induction false} RunSound(input: Input, changed: seq<Pending>, work: seq<Pending>, decisions: Decisions)
    requires input.Listed() && Sound(input, changed, work, decisions)
    ensures var r := Run(input, work, decisions);
            && (r.Ok? ==> Sound(input, changed, [], r.value))
            && (r.Err? ==>
                  exists p: Pending :: EverReached(input, changed, p) && Missing(input, p.cid, r.error))
    decreases |AllNames(input) - decisions.Keys|, |work|
  {
    hide Sound, Callers, ClassOf, Decide;
    if work != [] {
      var p := work[0];
      var found := FunctionAt(input, p.cid);
      if found.Err? {
        FirstReached(input, changed, work, decisions);
      } else {
        var f := found.value;
        SoundStep(input, changed, work, decisions, f);
        if f.name in decisions {
          RunSound(input, changed, work[1..], decisions);
        } else {
          Shrinks(input, decisions, f.name, Decide(f, p));
          RunSound(input, changed, Next(input, work, f), decisions[f.name := Decide(f, p)]);
        }
      }
    } else {
      NoWork(input, changed, decisions);
    }
  }

  lemma {:induction false} FirstReached(input: Input, changed: seq<Pending>, work: seq<Pending>, decisions: Decisions)
    requires Sound(input, changed, work, decisions) && work != []
    ensures EverReached(input, changed, work[0])
  {
    assert work[0] in work;
  }

  lemma {:induction false} NoWork(input: Input, changed: seq<Pending>, decisions: Decisions)
    requires Sound(input, changed, [], decisions)
    ensures forall name :: name in decisions ==> Justified(input, changed, name, decisions[name])
  {
  }

  // ---------- nothing is missed ----------

  /** The callsites taken from the worklist are decided, and what a widened function leads to is taken or waiting. */
  ghost predicate Progress(input: Input, changed: seq<Pending>, work: seq<Pending>, decisions: Decisions,
                           done: set<Cid>) {
    && (forall p :: p in changed ==> p.cid in done || Waiting(work, p.cid))
    && (forall cid :: cid in done ==> FunctionAt(input, cid).Ok? && FunctionAt(input, cid).value.name in decisions)
    && (forall name, cid ::
          name in decisions && decisions[name].Widen? && Listing(input, cid, name) ==>
            cid in done || Waiting(work, cid))
  }

  ghost predicate Waiting(work: seq<Pending>, cid: Cid) {
    exists p :: p in work && p.cid == cid
  }

  lemma {:induction false} ProgressSkips(input: Input, changed: seq<Pending>, work: seq<Pending>, decisions: Decisions,
                                         done: set<Cid>, f: FunctionInfo)
    requires Progress(input, changed, work, decisions, done) && work != []
    requires FunctionAt(input, work[0].cid) == Ok(f) && f.name in decisions
    ensures Progress(input, changed, work[1..], decisions, done + {work[0].cid})
  {
    forall cid | Waiting(work, cid)
      ensures cid == work[0].cid || Waiting(work[1..], cid)
    {
      var p :| p in work && p.cid == cid;
      assert p == work[0] || p in work[1..];
    }
  }

  lemma {:induction false} ProgressDecides(input: Input, changed: seq<Pending>, work: seq<Pending>,
                                           decisions: Decisions, done: set<Cid>, f: FunctionInfo)
    requires input.Listed() && Progress(input, changed, work, decisions, done) && work != []
    requires FunctionAt(input, work[0].cid) == Ok(f) && f.name !in decisions
    ensures var p := work[0];
            Progress(input, changed, Next(input, work, f), decisions[f.name := Decide(f, p)], done + {p.cid})
  {
    var p := work[0];
    var callers := Callers(input, input.keys, f.name, p);
    var after := Next(input, work, f);
    AllCallers(input, f.name, p);
    forall cid | Waiting(work, cid)
      ensures cid == p.cid || Waiting(after, cid)
    {
      var q :| q in work && q.cid == cid;
      assert q == p || q in work[1..];
    }
    if ClassOf(f, p.effect) == Widens {
      forall cid | Listing(input, cid, f.name)
        ensures Waiting(after, cid)
      {
        assert p.(cid := cid) in callers;
        assert p.(cid := cid) in after;
      }
    }
  }

  lemma {:induction false} RunComplete(input: Input, changed: seq<Pending>, work: seq<Pending>, decisions: Decisions,
                                       done: set<Cid>)
    requires input.Listed() && Progress(input, changed, work, decisions, done) && Run(input, work, decisions).Ok?
    ensures exists all :: Progress(input, changed, [], Run(input, work, decisions).value, all)
    decreases |AllNames(input) - decisions.Keys|, |work|
  {
    hide Progress, Callers, ClassOf, Decide;
    if work != [] {
      var p := work[0];
      var f := FunctionAt(input, p.cid).value;
      if f.name in decisions {
        ProgressSkips(input, changed, work, decisions, done, f);
        RunComplete(input, changed, work[1..], decisions, done + {p.cid});
      } else {
        Shrinks(input, decisions, f.name, Decide(f, p));
        ProgressDecides(input, changed, work, decisions, done, f);
        RunComplete(input, changed, Next(input, work, f), decisions[f.name := Decide(f, p)], done + {p.cid});
      }
    }
  }

  // ---------- the least fixpoint ----------

  ghost predicate AllKnown(input: Input, changed: seq<Pending>) {
    forall p :: EverReached(input, changed, p) ==> FunctionAt(input, p.cid).Ok?
  }

  /** No two effects that come to one function put it in different classes. */
  ghost predicate Consistent(input: Input, changed: seq<Pending>) {
    forall p, q :: EverReached(input, changed, p) && EverReached(input, changed, q) ==> SameClass(input, p, q)
  }

  predicate SameClass(input: Input, p: Pending, q: Pending) {
    var f, g := FunctionAt(input, p.cid), FunctionAt(input, q.cid);
    f.Ok? && g.Ok? && f.value.name == g.value.name ==> ClassOf(f.value, p.effect) == ClassOf(g.value, q.effect)
  }

  predicate Settled(input: Input, decisions: Decisions, p: Pending) {
    var f := FunctionAt(input, p.cid);
    f.Ok? && f.value.name in decisions && DecisionClass(decisions[f.value.name]) == ClassOf(f.value, p.effect)
  }

  lemma {:induction false} ReachedSettled(input: Input, changed: seq<Pending>, decisions: Decisions, done: set<Cid>,
                                          p: Pending, n: nat)
    requires Consistent(input, changed) && Sound(input, changed, [], decisions)
    requires Progress(input, changed, [], decisions, done) && Reached(input, changed, p, n)
    ensures p.cid in done && Settled(input, decisions, p)
    decreases n
  {
    hide Consistent, Justified;
    if n > 0 {
      var from :| Reached(input, changed, p.(cid := from), n - 1) && Leads(input, from, p.effect, p.cid);
      ReachedSettled(input, changed, decisions, done, p.(cid := from), n - 1);
    }
    assert p.cid in done;
    ClassAgrees(input, changed, decisions, p);
  }

  lemma {:induction false} ClassAgrees(input: Input, changed: seq<Pending>, decisions: Decisions, p: Pending)
    requires Consistent(input, changed) && EverReached(input, changed, p)
    requires forall name :: name in decisions ==> Justified(input, changed, name, decisions[name])
    requires FunctionAt(input, p.cid).Ok? && FunctionAt(input, p.cid).value.name in decisions
    ensures Settled(input, decisions, p)
  {
    var name := FunctionAt(input, p.cid).value.name;
    assert Justified(input, changed, name, decisions[name]);
    var q: Pending, f: FunctionInfo :| EverReached(input, changed, q) && Contains(input, q.cid, f) && f.name == name
      && Fits(f, q, decisions[name]);
    assert SameClass(input, q, p);
    FitsOne(f, q, decisions[name]);
  }

  lemma {:induction false} Start(input: Input, changed: seq<Pending>)
    ensures Sound(input, changed, changed, map[]) && Progress(input, changed, changed, map[], {})
  {
    forall p | p in changed
      ensures EverReached(input, changed, p)
    {
      assert Reached(input, changed, p, 0);
    }
    assert forall p :: p in changed ==> Waiting(changed, p.cid);
  }

  /** Each decision is justified, and nothing is left out; or the error names what is missing at a callsite reached. */
  ghost predicate Explained(input: Input, changed: seq<Pending>, plan: Result<Decisions, Error>) {
    match plan
    case Ok(decisions) =>
      && (forall name :: name in decisions ==> Justified(input, changed, name, decisions[name]))
      && Complete(input, changed, decisions)
    case Err(error) => exists p: Pending :: EverReached(input, changed, p) && Missing(input, p.cid, error)
  }

  lemma {:induction false} RunExplained(input: Input, changed: seq<Pending>)
    requires input.Listed()
    ensures Explained(input, changed, Run(input, changed, map[]))
  {
    hide Run, Justified;
    var plan := Run(input, changed, map[]);
    Start(input, changed);
    RunSound(input, changed, changed, map[]);
    if plan.Ok? {
      NoWork(input, changed, plan.value);
      RunComplete(input, changed, changed, map[], {});
      var done :| Progress(input, changed, [], plan.value, done);
      AllDecided(input, changed, plan.value, done);
    }
  }

  lemma {:induction false} AllDecided(input: Input, changed: seq<Pending>, decisions: Decisions, done: set<Cid>)
    requires Progress(input, changed, [], decisions, done)
    ensures Complete(input, changed, decisions)
  {
    forall cid | cid in done
      ensures Decided(input, decisions, cid)
    {
      assert Contains(input, cid, FunctionAt(input, cid).value);
    }
  }

  // A plan settles everything reached exactly when the effects are consistent, and then it fails exactly when
  // something unknown is reached.
  lemma {:induction false} PropagationExact(input: Input, changed: seq<Pending>)
    requires input.Listed()
    ensures var plan := Run(input, changed, map[]);
            && (plan.Ok? ==> forall name :: name in plan.value ==> Justified(input, changed, name, plan.value[name]))
            && (plan.Ok? ==> (Consistent(input, changed) <==>
                  forall p :: EverReached(input, changed, p) ==> Settled(input, plan.value, p)))
            && (Consistent(input, changed) ==> (plan.Ok? <==> AllKnown(input, changed)))
  {
    hide Run, Justified;
    var plan := Run(input, changed, map[]);
    Start(input, changed);
    RunSound(input, changed, changed, map[]);
    if plan.Ok? {
      NoWork(input, changed, plan.value);
      RunComplete(input, changed, changed, map[], {});
      var done :| Progress(input, changed, [], plan.value, done);
      if Consistent(input, changed) {
        forall p | EverReached(input, changed, p)
          ensures Settled(input, plan.value, p)
        {
          var n: nat :| Reached(input, changed, p, n);
          ReachedSettled(input, changed, plan.value, done, p, n);
        }
      }
      SettledConsistent(input, changed, plan.value);
    }
  }

  lemma {:induction false} SettledConsistent(input: Input, changed: seq<Pending>, decisions: Decisions)
    ensures (forall p :: EverReached(input, changed, p) ==> Settled(input, decisions, p)) ==>
              Consistent(input, changed)
  {
    if forall p :: EverReached(input, changed, p) ==> Settled(input, decisions, p) {
      forall p, q | EverReached(input, changed, p) && EverReached(input, changed, q)
        ensures SameClass(input, p, q)
      {
        assert Settled(input, decisions, p) && Settled(input, decisions, q);
      }
    }
  }

  /** One effect changed, and no two functions of one name. */
  predicate OneEffect(input: Input, changed: seq<Pending>) {
    && (forall k, l ::
          k in input.functions && l in input.functions && input.functions[k].name == input.functions[l].name ==>
            k == l)
    && (forall p, q :: p in changed && q in changed ==> p.effect == q.effect)
  }

  lemma {:induction false} ReachedEffect(input: Input, changed: seq<Pending>, p: Pending, n: nat)
    requires Reached(input, changed, p, n)
    ensures exists q :: q in changed && q.effect == p.effect
    decreases n
  {
    if n > 0 {
      var from :| Reached(input, changed, p.(cid := from), n - 1) && Leads(input, from, p.effect, p.cid);
      ReachedEffect(input, changed, p.(cid := from), n - 1);
    }
  }

  // A single effect is consistent.
  lemma {:induction false} OneEffectConsistent(input: Input, changed: seq<Pending>)
    requires OneEffect(input, changed)
    ensures Consistent(input, changed)
  {
    forall p, q | EverReached(input, changed, p) && EverReached(input, changed, q)
      ensures SameClass(input, p, q)
    {
      var m: nat :| Reached(input, changed, p, m);
      var n: nat :| Reached(input, changed, q, n);
      ReachedEffect(input, changed, p, m);
      ReachedEffect(input, changed, q, n);
    }
  }

  // ---------- order ----------

  /** The same callsites, functions and changes, listed in any order and any number of times. */
  ghost predicate Reordered(input: Input, changed: seq<Pending>, input': Input, changed': seq<Pending>) {
    && input.callsites == input'.callsites && input.functions == input'.functions
    && forall p :: p in changed <==> p in changed'
  }

  lemma {:induction false} ReachedAnyOrder(input: Input, changed: seq<Pending>, input': Input, changed': seq<Pending>,
                                           p: Pending, n: nat)
    requires Reordered(input, changed, input', changed') && Reached(input, changed, p, n)
    ensures Reached(input', changed', p, n)
    decreases n
  {
    if n > 0 {
      var from :| Reached(input, changed, p.(cid := from), n - 1) && Leads(input, from, p.effect, p.cid);
      ReachedAnyOrder(input, changed, input', changed', p.(cid := from), n - 1);
      var f :| Contains(input, from, f) && p.effect !in f.admitted && p.effect !in f.forbidden
        && Listing(input, p.cid, f.name);
      assert Contains(input', from, f);
      assert Leads(input', from, p.effect, p.cid);
    }
  }

  lemma {:induction false} EverReachedAnyOrder(input: Input, changed: seq<Pending>, input': Input,
                                               changed': seq<Pending>, p: Pending)
    requires Reordered(input, changed, input', changed') && EverReached(input, changed, p)
    ensures EverReached(input', changed', p)
  {
    var n: nat :| Reached(input, changed, p, n);
    ReachedAnyOrder(input, changed, input', changed', p, n);
  }

  ghost predicate SameClasses(a: Decisions, b: Decisions) {
    a.Keys == b.Keys && forall name :: name in a ==> DecisionClass(a[name]) == DecisionClass(b[name])
  }

  // For consistent effects, the functions decided and the class of each do not depend on any order.
  lemma {:induction false} OrderIrrelevant(input: Input, changed: seq<Pending>, input': Input, changed': seq<Pending>)
    requires input.Listed() && input'.Listed() && Reordered(input, changed, input', changed')
    requires Consistent(input, changed)
    ensures var plan, plan' := Run(input, changed, map[]), Run(input', changed', map[]);
            (plan.Ok? <==> plan'.Ok?) && (plan.Ok? ==> SameClasses(plan.value, plan'.value))
  {
    var plan, plan' := Run(input, changed, map[]), Run(input', changed', map[]);
    ConsistentAnyOrder(input, changed, input', changed');
    PropagationExact(input, changed);
    PropagationExact(input', changed');
    if AllKnown(input, changed) {
      KnownAnyOrder(input', changed', input, changed);
    } else if AllKnown(input', changed') {
      KnownAnyOrder(input, changed, input', changed');
    }
    if plan.Ok? {
      DecidedAnyOrder(input, changed, input', changed', plan.value, plan'.value);
      DecidedAnyOrder(input', changed', input, changed, plan'.value, plan.value);
    }
  }

  lemma {:induction false} KnownAnyOrder(input: Input, changed: seq<Pending>, input': Input, changed': seq<Pending>)
    requires Reordered(input, changed, input', changed') && AllKnown(input', changed')
    ensures AllKnown(input, changed)
  {
    forall p | EverReached(input, changed, p)
      ensures FunctionAt(input, p.cid).Ok?
    {
      EverReachedAnyOrder(input, changed, input', changed', p);
    }
  }

  lemma {:induction false} ConsistentAnyOrder(input: Input, changed: seq<Pending>, input': Input,
                                              changed': seq<Pending>)
    requires Reordered(input, changed, input', changed') && Consistent(input, changed)
    ensures Consistent(input', changed')
  {
    forall p, q | EverReached(input', changed', p) && EverReached(input', changed', q)
      ensures SameClass(input', p, q)
    {
      EverReachedAnyOrder(input', changed', input, changed, p);
      EverReachedAnyOrder(input', changed', input, changed, q);
      assert SameClass(input, p, q);
    }
  }

  lemma {:induction false} DecidedAnyOrder(input: Input, changed: seq<Pending>, input': Input, changed': seq<Pending>,
                        decisions: Decisions, decisions': Decisions)
    requires Reordered(input, changed, input', changed')
    requires forall name :: name in decisions ==> Justified(input, changed, name, decisions[name])
    requires forall p :: EverReached(input', changed', p) ==> Settled(input', decisions', p)
    ensures forall name :: name in decisions ==>
              name in decisions' && DecisionClass(decisions'[name]) == DecisionClass(decisions[name])
  {
    forall name | name in decisions
      ensures name in decisions' && DecisionClass(decisions'[name]) == DecisionClass(decisions[name])
    {
      assert Justified(input, changed, name, decisions[name]);
      var p: Pending, f: FunctionInfo :| EverReached(input, changed, p) && Contains(input, p.cid, f) && f.name == name
        && Fits(f, p, decisions[name]);
      EverReachedAnyOrder(input, changed, input', changed', p);
      assert Settled(input', decisions', p);
      FitsOne(f, p, decisions[name]);
    }
  }

  // With two effects, a function that admits the first never passes the second on to its callers.
  lemma {:induction false} FirstEffectDecides(a: Effect, b: Effect, dim: Option<string>)
    requires a != b
    ensures var f := FunctionInfo("f", "F", "S", None, {a}, {});
            var g := FunctionInfo("g", "G", "T", None, {}, {});
            var input := Input(map["c" := Callsite("c", None, "f"), "d" := Callsite("d", Some("f"), "g")], ["c", "d"],
                               map["f" := f, "g" := g]);
            var pa, pb := Pending("c", dim, a), Pending("c", dim, b);
            && Run(input, [pa, pb], map[]) == Ok(map["f" := Halt("S", "F")])
            && Run(input, [pb, pa], map[]) == Ok(map["f" := Widen(dim, b, "F", "c"), "g" := Widen(dim, b, "G", "d")])
  {
    var f := FunctionInfo("f", "F", "S", None, {a}, {});
    var g := FunctionInfo("g", "G", "T", None, {}, {});
    var input := Input(map["c" := Callsite("c", None, "f"), "d" := Callsite("d", Some("f"), "g")], ["c", "d"],
                       map["f" := f, "g" := g]);
    var pa, pb := Pending("c", dim, a), Pending("c", dim, b);
    var halted := map["f" := Halt("S", "F")];
    var widened := map["f" := Widen(dim, b, "F", "c")];
    var both := widened["g" := Widen(dim, b, "G", "d")];
    assert [pa, pb][1..] == [pb] && [pb][1..] == [];
    assert Run(input, [pb], halted) == Run(input, [], halted) == Ok(halted);
    TwoCallers(input, f, g, pb);
    var pd := pb.(cid := "d");
    TwoCallers(input, f, g, pd);
    assert [pb, pa][1..] == [pa] && [pa, pd][1..] == [pd] && [pd][1..] + [] == [];
    assert [pa] + [pd] == [pa, pd];
    assert Run(input, [], both) == Ok(both);
    assert Decide(g, pd) == Widen(dim, b, "G", "d") && FunctionAt(input, "d") == Ok(g);
    assert Callers(input, input.keys, "g", pd) == [];
    assert Run(input, [pd], widened) == Run(input, [pd][1..] + [], both) == Run(input, [], both);
    assert Run(input, [pa, pd], widened) == Run(input, [pd], widened);
  }

  lemma {:induction false} TwoCallers(input: Input, f: FunctionInfo, g: FunctionInfo, p: Pending)
    requires f.name == "f" && g.name == "g" && input.keys == ["c", "d"]
    requires input.callsites == map["c" := Callsite("c", None, "f"), "d" := Callsite("d", Some("f"), "g")]
    ensures Callers(input, input.keys, "f", p) == [p.(cid := "d")]
    ensures Callers(input, input.keys, "g", p) == []
  {
    assert ["c", "d"][1..] == ["d"] && ["d"][1..] == [];
    assert Callers(input, [], "f", p) == [] == Callers(input, [], "g", p);
    assert Callers(input, ["d"], "f", p) == [p.(cid := "d")] && Callers(input, ["d"], "g", p) == [];
  }
}
