// The worklist is first in, first out (effect_propagation.rs): each function is decided from a callsite that the
// change comes to in the fewest steps.
module EffectsNearest {
  import opened Effects
  import opened Wrappers

  ghost predicate ComesTo(input: Input, changed: seq<Pending>, name: string, n: nat) {
    exists p: Pending, f: FunctionInfo ::
      Reached(input, changed, p, n) && Contains(input, p.cid, f) && f.name == name
  }

  /** The decision is for an effect that comes to the function in n steps, and none comes in fewer. */
  ghost predicate DecidedAt(input: Input, changed: seq<Pending>, name: string, d: Decision, n: nat) {
    && (exists p: Pending, f: FunctionInfo ::
          Reached(input, changed, p, n) && Contains(input, p.cid, f) && f.name == name && Fits(f, p, d))
    && forall m: nat :: m < n ==> !ComesTo(input, changed, name, m)
  }

  ghost predicate Nearest(input: Input, changed: seq<Pending>, name: string, d: Decision) {
    exists n: nat :: DecidedAt(input, changed, name, d, n)
  }

  // ---------- the worklist in levels ----------

  /** How many steps each waiting callsite is away: no more for an earlier one, and two levels at most. */
  ghost predicate Levels(input: Input, changed: seq<Pending>, work: seq<Pending>, levels: seq<nat>) {
    && |levels| == |work|
    && (forall i :: 0 <= i < |work| ==> Reached(input, changed, work[i], levels[i]))
    && (forall i, j :: 0 <= i < j < |work| ==> levels[i] <= levels[j] <= levels[i] + 1)
  }

  ghost predicate WaitingAt(work: seq<Pending>, levels: seq<nat>, cid: Cid, m: nat)
    requires |levels| == |work|
  {
    exists i :: 0 <= i < |work| && work[i].cid == cid && levels[i] <= m
  }

  /** What is done or waiting, and at which level: each changed callsite, and what each widened function leads to. */
  ghost predicate Ledger(input: Input, changed: seq<Pending>, work: seq<Pending>, levels: seq<nat>,
                         decisions: Decisions, at: map<string, nat>, done: set<Cid>)
    requires |levels| == |work|
  {
    && at.Keys == decisions.Keys
    && (forall name :: name in decisions ==> DecidedAt(input, changed, name, decisions[name], at[name]))
    && (forall cid :: cid in done ==> FunctionAt(input, cid).Ok? && FunctionAt(input, cid).value.name in decisions)
    && (forall p :: p in changed ==> p.cid in done || WaitingAt(work, levels, p.cid, 0))
    && (forall name, cid ::
          name in decisions && decisions[name].Widen? && Listing(input, cid, name) ==>
            cid in done || WaitingAt(work, levels, cid, at[name] + 1))
  }

  lemma {:induction false} LedgerJustifies(input: Input, changed: seq<Pending>, work: seq<Pending>, levels: seq<nat>,
                                           decisions: Decisions, at: map<string, nat>, done: set<Cid>)
    requires |levels| == |work| && Ledger(input, changed, work, levels, decisions, at, done)
    ensures forall name :: name in decisions ==> Justified(input, changed, name, decisions[name])
  {
    hide Reached, Contains, Fits, ComesTo;
    forall name | name in decisions
      ensures Justified(input, changed, name, decisions[name])
    {
      var p: Pending, f: FunctionInfo :| Reached(input, changed, p, at[name]) && Contains(input, p.cid, f)
        && f.name == name && Fits(f, p, decisions[name]);
      assert EverReached(input, changed, p);
    }
  }

  // Up to the level being worked on, nothing is missing.
  lemma {:induction false} Behind(input: Input, changed: seq<Pending>, work: seq<Pending>, levels: seq<nat>,
                                  decisions: Decisions, at: map<string, nat>, done: set<Cid>, q: Pending, m: nat)
    requires Consistent(input, changed) && Levels(input, changed, work, levels)
    requires Ledger(input, changed, work, levels, decisions, at, done)
    requires Reached(input, changed, q, m) && (work == [] || m <= levels[0])
    ensures q.cid in done || WaitingAt(work, levels, q.cid, m)
    decreases m
  {
    hide Consistent, DecidedAt, Leads;
    if m > 0 {
      var from :| Reached(input, changed, q.(cid := from), m - 1) && Leads(input, from, q.effect, q.cid);
      Behind(input, changed, work, levels, decisions, at, done, q.(cid := from), m - 1);
      assert from in done;
      Followed(input, changed, work, levels, decisions, at, done, q, from, m);
    }
  }

  lemma {:induction false} Followed(input: Input, changed: seq<Pending>, work: seq<Pending>, levels: seq<nat>,
                                    decisions: Decisions, at: map<string, nat>, done: set<Cid>, q: Pending, from: Cid,
                                    m: nat)
    requires Consistent(input, changed) && |levels| == |work|
    requires Ledger(input, changed, work, levels, decisions, at, done) && from in done && m > 0
    requires Reached(input, changed, q.(cid := from), m - 1) && Leads(input, from, q.effect, q.cid)
    ensures q.cid in done || WaitingAt(work, levels, q.cid, m)
  {
    hide Consistent, DecidedAt, Reached;
    var p, f := q.(cid := from), FunctionAt(input, from).value;
    assert EverReached(input, changed, p) && Contains(input, from, f);
    LedgerJustifies(input, changed, work, levels, decisions, at, done);
    ClassAgrees(input, changed, decisions, p);
    NotBefore(input, changed, f.name, decisions[f.name], at[f.name], p, f, m - 1);
  }

  lemma {:induction false} NotBefore(input: Input, changed: seq<Pending>, name: string, d: Decision, n: nat, p: Pending,
                                     f: FunctionInfo, m: nat)
    requires DecidedAt(input, changed, name, d, n)
    requires Reached(input, changed, p, m) && Contains(input, p.cid, f) && f.name == name
    ensures n <= m
  {
    assert ComesTo(input, changed, name, m);
  }

  // ---------- one turn ----------

  lemma {:induction false} LedgerSkips(input: Input, changed: seq<Pending>, work: seq<Pending>, levels: seq<nat>,
                                       decisions: Decisions, at: map<string, nat>, done: set<Cid>, f: FunctionInfo)
    requires Levels(input, changed, work, levels) && Ledger(input, changed, work, levels, decisions, at, done)
    requires work != [] && FunctionAt(input, work[0].cid) == Ok(f) && f.name in decisions
    ensures Levels(input, changed, work[1..], levels[1..])
    ensures Ledger(input, changed, work[1..], levels[1..], decisions, at, done + {work[0].cid})
  {
    hide DecidedAt, Reached;
    StillWaiting(work, levels, work[1..], levels[1..]);
  }

  lemma {:induction false} StillWaiting(work: seq<Pending>, levels: seq<nat>, work': seq<Pending>, levels': seq<nat>)
    requires |levels| == |work| && |levels'| == |work'| && work != [] && work[1..] <= work' && levels[1..] <= levels'
    ensures forall cid, m: nat ::
              WaitingAt(work, levels, cid, m) ==> cid == work[0].cid || WaitingAt(work', levels', cid, m)
  {
    forall cid, m: nat | WaitingAt(work, levels, cid, m)
      ensures cid == work[0].cid || WaitingAt(work', levels', cid, m)
    {
      var i :| 0 <= i < |work| && work[i].cid == cid && levels[i] <= m;
      if i > 0 {
        assert work'[i - 1] == work[1..][i - 1] == work[i] && levels'[i - 1] == levels[1..][i - 1] == levels[i];
      }
    }
  }

  lemma {:induction false} DoneBefore(input: Input, changed: seq<Pending>, work: seq<Pending>, levels: seq<nat>,
                                      decisions: Decisions, at: map<string, nat>, done: set<Cid>, q: Pending,
                                      g: FunctionInfo, m: nat)
    requires Consistent(input, changed) && Levels(input, changed, work, levels)
    requires Ledger(input, changed, work, levels, decisions, at, done) && work != [] && m < levels[0]
    requires Reached(input, changed, q, m) && Contains(input, q.cid, g)
    ensures g.name in decisions
  {
    hide Consistent, Reached, DecidedAt;
    Behind(input, changed, work, levels, decisions, at, done, q, m);
    assert FunctionAt(input, q.cid) == Ok(g);
  }

  lemma {:induction false} FirstIsNearest(input: Input, changed: seq<Pending>, work: seq<Pending>, levels: seq<nat>,
                                          decisions: Decisions, at: map<string, nat>, done: set<Cid>, f: FunctionInfo)
    requires Consistent(input, changed) && Levels(input, changed, work, levels)
    requires Ledger(input, changed, work, levels, decisions, at, done)
    requires work != [] && FunctionAt(input, work[0].cid) == Ok(f) && f.name !in decisions
    ensures DecidedAt(input, changed, f.name, Decide(f, work[0]), levels[0])
  {
    hide Consistent, Reached;
    var p := work[0];
    assert Reached(input, changed, p, levels[0]) && Contains(input, p.cid, f);
    assert Fits(f, p, Decide(f, p));
    forall m: nat | m < levels[0]
      ensures !ComesTo(input, changed, f.name, m)
    {
      if ComesTo(input, changed, f.name, m) {
        var q: Pending, g: FunctionInfo :| Reached(input, changed, q, m) && Contains(input, q.cid, g)
          && g.name == f.name;
        DoneBefore(input, changed, work, levels, decisions, at, done, q, g, m);
      }
    }
  }

  /** The levels after a turn: what a widened function leads to is one step further. */
  ghost function NextLevels(input: Input, work: seq<Pending>, levels: seq<nat>, f: FunctionInfo): (r: seq<nat>)
    requires input.Listed() && work != [] && |levels| == |work|
    ensures |r| == |Next(input, work, f)|
  {
    levels[1..] + seq(|Next(input, work, f)| - (|work| - 1), i requires 0 <= i => levels[0] + 1)
  }

  lemma {:induction false} LevelsGrow(input: Input, changed: seq<Pending>, work: seq<Pending>, levels: seq<nat>,
                                      f: FunctionInfo)
    requires input.Listed() && Levels(input, changed, work, levels)
    requires work != [] && FunctionAt(input, work[0].cid) == Ok(f)
    ensures Levels(input, changed, Next(input, work, f), NextLevels(input, work, levels, f))
  {
    hide Callers, Reached;
    var p, n := work[0], levels[0];
    assert Contains(input, p.cid, f);
    if ClassOf(f, p.effect) == Widens {
      var more := Callers(input, input.keys, f.name, p);
      AllCallers(input, f.name, p);
      forall i | 0 <= i < |more|
        ensures Reached(input, changed, more[i], n + 1)
      {
        assert more[i] in more;
        CallerReached(input, changed, p, f, more[i], n);
      }
    }
  }

  lemma {:induction false} LedgerDecides(input: Input, changed: seq<Pending>, work: seq<Pending>, levels: seq<nat>,
                                         decisions: Decisions, at: map<string, nat>, done: set<Cid>, f: FunctionInfo)
    requires input.Listed() && Levels(input, changed, work, levels)
    requires Ledger(input, changed, work, levels, decisions, at, done)
    requires work != [] && FunctionAt(input, work[0].cid) == Ok(f) && f.name !in decisions
    requires DecidedAt(input, changed, f.name, Decide(f, work[0]), levels[0])
    ensures Ledger(input, changed, Next(input, work, f), NextLevels(input, work, levels, f),
                   decisions[f.name := Decide(f, work[0])], at[f.name := levels[0]], done + {work[0].cid})
  {
    hide DecidedAt, Reached, Callers, Decide;
    StillWaiting(work, levels, Next(input, work, f), NextLevels(input, work, levels, f));
    if ClassOf(f, work[0].effect) == Widens {
      CallersWait(input, work, levels, f);
    }
  }

  lemma {:induction false} CallersWait(input: Input, work: seq<Pending>, levels: seq<nat>, f: FunctionInfo)
    requires input.Listed() && work != [] && |levels| == |work| && ClassOf(f, work[0].effect) == Widens
    ensures forall cid :: Listing(input, cid, f.name) ==>
              WaitingAt(Next(input, work, f), NextLevels(input, work, levels, f), cid, levels[0] + 1)
  {
    hide Callers;
    var p, more := work[0], Callers(input, input.keys, f.name, work[0]);
    var work', levels' := Next(input, work, f), NextLevels(input, work, levels, f);
    AllCallers(input, f.name, p);
    forall cid | Listing(input, cid, f.name)
      ensures WaitingAt(work', levels', cid, levels[0] + 1)
    {
      var q := p.(cid := cid);
      assert q in more;
      var i :| 0 <= i < |more| && more[i] == q;
      assert work'[|work| - 1 + i] == q && levels'[|work| - 1 + i] == levels[0] + 1;
    }
  }

  lemma {:induction false} RunNearest(input: Input, changed: seq<Pending>, work: seq<Pending>, levels: seq<nat>,
                                      decisions: Decisions, at: map<string, nat>, done: set<Cid>)
    requires input.Listed() && Consistent(input, changed) && Run(input, work, decisions).Ok?
    requires Levels(input, changed, work, levels) && Ledger(input, changed, work, levels, decisions, at, done)
    ensures var plan := Run(input, work, decisions).value;
            forall name :: name in plan ==> Nearest(input, changed, name, plan[name])
    decreases |AllNames(input) - decisions.Keys|, |work|
  {
    hide Ledger, Reached, Next, NextLevels, ClassOf, Decide, Consistent, Nearest;
    if work == [] {
      LedgerNearest(input, changed, levels, decisions, at, done);
    } else {
      var p := work[0];
      var f := FunctionAt(input, p.cid).value;
      if f.name in decisions {
        LedgerSkips(input, changed, work, levels, decisions, at, done, f);
        RunNearest(input, changed, work[1..], levels[1..], decisions, at, done + {p.cid});
      } else {
        Shrinks(input, decisions, f.name, Decide(f, p));
        FirstIsNearest(input, changed, work, levels, decisions, at, done, f);
        LedgerDecides(input, changed, work, levels, decisions, at, done, f);
        LevelsGrow(input, changed, work, levels, f);
        RunNearest(input, changed, Next(input, work, f), NextLevels(input, work, levels, f),
                   decisions[f.name := Decide(f, p)], at[f.name := levels[0]], done + {p.cid});
      }
    }
  }

  lemma {:induction false} LedgerNearest(input: Input, changed: seq<Pending>, levels: seq<nat>, decisions: Decisions,
                                         at: map<string, nat>, done: set<Cid>)
    requires levels == [] && Ledger(input, changed, [], levels, decisions, at, done)
    ensures forall name :: name in decisions ==> Nearest(input, changed, name, decisions[name])
  {
  }

  // For consistent effects, every function is decided from a callsite the change comes to in the fewest steps.
  lemma {:induction false} DecidedNearest(input: Input, changed: seq<Pending>)
    requires input.Listed() && Consistent(input, changed) && Run(input, changed, map[]).Ok?
    ensures var plan := Run(input, changed, map[]).value;
            forall name :: name in plan ==> Nearest(input, changed, name, plan[name])
  {
    hide Run, Consistent;
    var levels := seq(|changed|, i requires 0 <= i < |changed| => 0 as nat);
    forall p | p in changed
      ensures WaitingAt(changed, levels, p.cid, 0)
    {
      var i :| 0 <= i < |changed| && changed[i] == p;
      assert levels[i] <= 0;
    }
    RunNearest(input, changed, changed, levels, map[], map[], {});
  }
}
