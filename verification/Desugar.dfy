// The desugaring rewriter (desugar.rs): innermost rewriting of IR terms by
// pattern rules, with names matched up to qualification.
module Desugar {
  import opened Wrappers
  import opened Ir

  datatype EquationTerm =
    | PVar(name: Name)
    | POp(op: Name, args: seq<EquationTerm>)
    | PConst(value: Json, sort: Sort)
    | PUnit

  datatype Rule = Rule(fnName: string, lhs: EquationTerm, rhs: EquationTerm, obligation: string)

  const MAX_REWRITE_STEPS: nat := 10_000

  // ---------- names ----------

  /** What follows the last colon. */
  function Unqualified(name: Name): (s: Name)
    ensures ':' !in s
    ensures ':' !in name ==> s == name
  {
    if name == "" then ""
    else if ':' in name[1..] then Unqualified(name[1..])
    else if name[0] == ':' then name[1..]
    else name
  }

  predicate NamesAlias(left: Name, right: Name) {
    || left == right
    || (':' !in left && left == Unqualified(right))
    || (':' !in right && right == Unqualified(left))
  }

  predicate EndsWith(s: string, suffix: string) {
    |s| >= |suffix| && s[|s| - |suffix|..] == suffix
  }

  predicate IsUnitName(name: Name) {
    name == "unit" || EndsWith(name, ":unit")
  }

  lemma {:induction false} UnitAliases(name: Name)
    requires IsUnitName(name)
    ensures NamesAlias("unit", name)
  {
    if name != "unit" {
      SuffixUnqualified(name);
    }
  }

  lemma {:induction false} SuffixUnqualified(name: Name)
    requires EndsWith(name, ":unit")
    ensures Unqualified(name) == "unit"
  {
    if |name| == 5 {
      assert name == name[0..] == ":unit";
      assert name[1..] == "unit";
    } else {
      var tail := name[1..];
      assert tail[|tail| - 5..] == name[|name| - 5..];
      assert tail[|tail| - 5] == ':';
      SuffixUnqualified(tail);
    }
  }

  // ---------- sizes ----------

  function PatternSize(p: EquationTerm): (n: nat)
    ensures n > 0
  {
    match p
    case POp(_, args) => 1 + PatternsSize(args)
    case _ => 1
  }

  function PatternsSize(ps: seq<EquationTerm>): nat {
    if ps == [] then 0 else PatternSize(ps[0]) + PatternsSize(ps[1..])
  }

  // ---------- matching ----------

  type Bindings = map<Name, IrTerm>

  /** The bindings extended by matching, or None. A repeated variable must meet equal terms. */
  function Match(p: EquationTerm, t: IrTerm, b: Bindings): Option<Bindings>
    decreases PatternSize(p), 0
  {
    match p
    case PVar(name) =>
      if name in b then (if b[name] == t then Some(b) else None) else Some(b[name := t])
    case PConst(value, sort) => if t == Const(value, sort) then Some(b) else None
    case PUnit => if t.Ctor? && IsUnitName(t.ctor) && t.args == [] then Some(b) else None
    case POp(name, ps) =>
      if t.Ctor? && NamesAlias(name, t.ctor) && |ps| == |t.args| then MatchAll(ps, t.args, b) else None
  }

  function MatchAll(ps: seq<EquationTerm>, ts: seq<IrTerm>, b: Bindings): Option<Bindings>
    requires |ps| == |ts|
    decreases PatternsSize(ps), 1
  {
    if ps == [] then Some(b) else
    match Match(ps[0], ts[0], b)
    case None => None
    case Some(b') => MatchAll(ps[1..], ts[1..], b')
  }

  /** The matcher as it runs: one mutable map, given up at the first mismatch. */
  method MatchPattern(p: EquationTerm, t: IrTerm, bindings: Bindings) returns (ok: bool, b: Bindings)
    ensures ok <==> Match(p, t, bindings).Some?
    ensures ok ==> b == Match(p, t, bindings).value
    decreases PatternSize(p)
  {
    b := bindings;
    match p
    case PVar(name) =>
      if name in b {
        ok := b[name] == t;
      } else {
        b := b[name := t];
        ok := true;
      }
    case PConst(value, sort) => ok := t == Const(value, sort);
    case PUnit => ok := t.Ctor? && IsUnitName(t.ctor) && t.args == [];
    case POp(name, ps) =>
      if !(t.Ctor? && NamesAlias(name, t.ctor) && |ps| == |t.args|) {
        return false, b;
      }
      ok := true;
      var i := 0;
      while ok && i < |ps|
        invariant i <= |ps|
        invariant ok ==> MatchAll(ps[i..], t.args[i..], b) == MatchAll(ps, t.args, bindings)
        invariant !ok ==> MatchAll(ps, t.args, bindings).None?
      {
        assert ps[i..][0] == ps[i] && ps[i..][1..] == ps[i + 1..];
        assert t.args[i..][0] == t.args[i] && t.args[i..][1..] == t.args[i + 1..];
        PartSize(ps, i);
        ok, b := MatchPattern(ps[i], t.args[i], b);
        i := i + 1;
      }
  }

  lemma {:induction false} PartSize(ps: seq<EquationTerm>, i: nat)
    requires i < |ps|
    ensures PatternSize(ps[i]) <= PatternsSize(ps)
  {
    if i > 0 {
      PartSize(ps[1..], i - 1);
    }
  }

  /** The pattern with its variables replaced; None if one is unbound. */
  function Instantiate(p: EquationTerm, b: Bindings): Option<IrTerm>
    decreases PatternSize(p), 0
  {
    match p
    case PVar(name) => if name in b then Some(b[name]) else None
    case POp(name, ps) =>
      (match InstantiateAll(ps, b)
       case None => None
       case Some(ts) => Some(Ctor(name, ts)))
    case PConst(value, sort) => Some(Const(value, sort))
    case PUnit => Some(Ctor("unit", []))
  }

  function InstantiateAll(ps: seq<EquationTerm>, b: Bindings): Option<seq<IrTerm>>
    decreases PatternsSize(ps), 1
  {
    if ps == [] then Some([]) else
    match Instantiate(ps[0], b)
    case None => None
    case Some(t) =>
      match InstantiateAll(ps[1..], b)
      case None => None
      case Some(ts) => Some([t] + ts)
  }

  // ---------- one innermost step ----------

  /** Refused: a rule matched whose right side has a variable its left side does not bind. */
  datatype Rewrite<+T> = Unchanged | Rewritten(term: T, rule: Rule) | Refused(unbound: Rule)

  /** The first rule that matches decides. */
  function ApplyFirst(rules: seq<Rule>, t: IrTerm): Rewrite<IrTerm> {
    if rules == [] then Unchanged else
    match Match(rules[0].lhs, t, map[])
    case None => ApplyFirst(rules[1..], t)
    case Some(b) =>
      match Instantiate(rules[0].rhs, b)
      case None => Refused(rules[0])
      case Some(u) => Rewritten(u, rules[0])
  }

  function RewriteOnce(rules: seq<Rule>, t: IrTerm): Rewrite<IrTerm>
    decreases TermSize(t), 0
  {
    match t
    case Ctor(name, args) =>
      (match RewriteArgs(rules, args)
       case Refused(r) => Refused(r)
       case Rewritten(args', r) => Rewritten(Ctor(name, args'), r)
       case Unchanged => ApplyFirst(rules, t))
    case Lambda(param, sort, body) =>
      (match RewriteOnce(rules, body)
       case Refused(r) => Refused(r)
       case Rewritten(body', r) => Rewritten(Lambda(param, sort, body'), r)
       case Unchanged => Unchanged)
    case Let(bs, body) =>
      (match RewriteBindings(rules, bs)
       case Refused(r) => Refused(r)
       case Rewritten(bs', r) => Rewritten(Let(bs', body), r)
       case Unchanged =>
         match RewriteOnce(rules, body)
         case Refused(r) => Refused(r)
         case Rewritten(body', r) => Rewritten(Let(bs, body'), r)
         case Unchanged => Unchanged)
    case _ => Unchanged
  }

  function RewriteArgs(rules: seq<Rule>, ts: seq<IrTerm>): Rewrite<seq<IrTerm>>
    decreases TermsSize(ts), 1
  {
    if ts == [] then Unchanged else
    match RewriteOnce(rules, ts[0])
    case Refused(r) => Refused(r)
    case Rewritten(t', r) => Rewritten([t'] + ts[1..], r)
    case Unchanged =>
      match RewriteArgs(rules, ts[1..])
      case Refused(r) => Refused(r)
      case Rewritten(us, r) => Rewritten([ts[0]] + us, r)
      case Unchanged => Unchanged
  }

  function RewriteBindings(rules: seq<Rule>, bs: seq<LetBinding>): Rewrite<seq<LetBinding>>
    decreases BindingsSize(bs), 1
  {
    if bs == [] then Unchanged else
    match RewriteOnce(rules, bs[0].bound)
    case Refused(r) => Refused(r)
    case Rewritten(t', r) => Rewritten([LetBinding(bs[0].name, t')] + bs[1..], r)
    case Unchanged =>
      match RewriteBindings(rules, bs[1..])
      case Refused(r) => Refused(r)
      case Rewritten(cs, r) => Rewritten([bs[0]] + cs, r)
      case Unchanged => Unchanged
  }

  /** The rewriter as it runs: arguments and bindings left to right, rules in order. */
  method RewriteOnceInnermost(rules: seq<Rule>, t: IrTerm) returns (r: Rewrite<IrTerm>)
    ensures r == RewriteOnce(rules, t)
    decreases TermSize(t)
  {
    match t
    case Ctor(name, args) =>
      BehindNothing(args, RewriteArgs(rules, args));
      for i := 0 to |args|
        invariant RewriteArgs(rules, args) == Behind(args[..i], RewriteArgs(rules, args[i..]))
      {
        assert args[i..][0] == args[i] && args[i..][1..] == args[i + 1..];
        TermPartSize(args, i);
        var next := RewriteOnceInnermost(rules, args[i]);
        match next {
          case Refused(rule) => return Refused(rule);
          case Rewritten(arg, rule) =>
            return Rewritten(Ctor(name, args[..i] + ([arg] + args[i + 1..])), rule);
          case Unchanged => BehindStep(args, i, RewriteArgs(rules, args[i + 1..]));
        }
      }
      for i := 0 to |rules|
        invariant ApplyFirst(rules, t) == ApplyFirst(rules[i..], t)
      {
        assert rules[i..][0] == rules[i] && rules[i..][1..] == rules[i + 1..];
        var ok, b := MatchPattern(rules[i].lhs, t, map[]);
        if ok {
          var u := Instantiate(rules[i].rhs, b);
          return if u.None? then Refused(rules[i]) else Rewritten(u.value, rules[i]);
        }
      }
      return Unchanged;
    case Lambda(param, sort, body) =>
      r := RewriteOnceInnermost(rules, body);
      if r.Rewritten? {
        r := Rewritten(Lambda(param, sort, r.term), r.rule);
      }
    case Let(bs, body) =>
      BehindNothing(bs, RewriteBindings(rules, bs));
      for i := 0 to |bs|
        invariant RewriteBindings(rules, bs) == Behind(bs[..i], RewriteBindings(rules, bs[i..]))
      {
        assert bs[i..][0] == bs[i] && bs[i..][1..] == bs[i + 1..];
        BindingPartSize(bs, i);
        var next := RewriteOnceInnermost(rules, bs[i].bound);
        match next {
          case Refused(rule) => return Refused(rule);
          case Rewritten(bound, rule) =>
            return Rewritten(Let(bs[..i] + ([LetBinding(bs[i].name, bound)] + bs[i + 1..]), body), rule);
          case Unchanged => BehindStep(bs, i, RewriteBindings(rules, bs[i + 1..]));
        }
      }
      r := RewriteOnceInnermost(rules, body);
      if r.Rewritten? {
        r := Rewritten(Let(bs, r.term), r.rule);
      }
    case _ => return Unchanged;
  }

  ghost function Behind<T>(done: seq<T>, r: Rewrite<seq<T>>): Rewrite<seq<T>> {
    match r
    case Rewritten(rest, rule) => Rewritten(done + rest, rule)
    case _ => r
  }

  lemma {:induction false} BehindNothing<T>(ts: seq<T>, r: Rewrite<seq<T>>)
    ensures Behind(ts[..0], r) == r && ts[0..] == ts
  {
    if r.Rewritten? {
      assert [] + r.term == r.term;
    }
  }

  lemma {:induction false} BehindStep<T>(ts: seq<T>, i: nat, r: Rewrite<seq<T>>)
    requires i < |ts|
    ensures Behind(ts[..i], Behind([ts[i]], r)) == Behind(ts[..i + 1], r)
  {
    if r.Rewritten? {
      assert ts[..i] + ([ts[i]] + r.term) == ts[..i + 1] + r.term;
    }
  }
}
