/** Projection of a formula to a procedure's interface, src/analysis/interproc/query.rs: locals are
    eliminated through the equalities that define them. */
module Projection {
  import opened Formulas
  import opened Semantics
  import opened Substitution
  import opened KeyOrders
  import opened Summaries

  datatype Interface = Interface(procedure: string, formals: set<string>)
  {
    /** `is_interface_scalar`: formals, the return value, and every name that does not look like a
        register of the procedure. */
    predicate Keeps(name: string) {
      name in formals || name == procedure + "$__retval" || !(procedure + "$%" <= name)
    }
  }

  /** Of the names that look like registers of the procedure only its formals belong to the
      interface; every other name does. */
  lemma KeptNames(iface: Interface, name: string)
    ensures iface.Keeps(name) <==>
            name in iface.formals || forall register :: name != iface.procedure + "$%" + register
  {
    var prefix := iface.procedure + "$%";
    if prefix <= name {
      assert name == prefix + name[|prefix|..];
    }
    if name == iface.procedure + "$__retval" {
      assert name[|iface.procedure| + 1] == '_';
      forall register ensures name != prefix + register {
        assert (prefix + register)[|iface.procedure| + 1] == '%';
      }
    }
  }

  type Definitions = map<string, Term>

  function IntVar(name: string): Var {
    Var(name, IntSort)
  }

  // ---- The pieces of the algorithm ------------------------------------------------------------

  /** `local_equality_pair`: the local on the left, if there is one. */
  function LocalOf(iface: Interface, t: Term): Option<string> {
    if t.TVar? && !iface.Keeps(t.v.name) then Some(t.v.name) else None
  }

  function FirstWins(defs: Definitions, name: string, t: Term): Definitions {
    if name in defs then defs else defs[name := t]
  }

  /** `collect_local_definitions`: equalities in positive conjunctive positions, first one wins. */
  function Collected(iface: Interface, f: Formula, defs: Definitions): Definitions
    decreases f
  {
    if f.Cmp? && f.op == Eq then
      match LocalOf(iface, f.l)
      case Some(x) => FirstWins(defs, x, f.r)
      case None =>
        match LocalOf(iface, f.r)
        case Some(x) => FirstWins(defs, x, f.l)
        case None => defs
    else if f.And? then CollectedAll(iface, f.items, defs)
    else defs
  }

  function CollectedAll(iface: Interface, items: seq<Formula>, defs: Definitions): Definitions
    decreases items
  {
    if items == [] then defs
    else
      var before := CollectedAll(iface, items[..|items| - 1], defs);
      Collected(iface, items[|items| - 1], before)
  }

  /** `apply_subst_to_term` and `apply_subst_to_formula`: all definitions at once, by name, not
      entering memories. */
  function Expand(defs: Definitions, t: Term): Term
    decreases t
  {
    match t
    case TVar(v) => if v.name in defs then defs[v.name] else t
    case Int(_) => t
    case BoolToInt(f) => BoolToInt(ExpandFormula(defs, f))
    case Select(m, i) => Select(m, Expand(defs, i))
    case Bin(op, l, r) => Bin(op, Expand(defs, l), Expand(defs, r))
    case Neg(u) => Neg(Expand(defs, u))
  }

  function ExpandFormula(defs: Definitions, f: Formula): Formula
    decreases f
  {
    match f
    case Not(g) => Not(ExpandFormula(defs, g))
    case And(items) => AndMany(seq(|items|, i requires 0 <= i < |items| => ExpandFormula(defs, items[i])))
    case Or(items) => OrMany(seq(|items|, i requires 0 <= i < |items| => ExpandFormula(defs, items[i])))
    case Implies(lhs, rhs) => ImpliesOf(ExpandFormula(defs, lhs), ExpandFormula(defs, rhs))
    case Cmp(op, l, r) => Cmp(op, Expand(defs, l), Expand(defs, r))
    case _ => f
  }

  function Round(defs: Definitions): Definitions {
    map x | x in defs :: Expand(defs, defs[x])
  }

  /** The definitions substituted one name after the other. */
  function InTurn(order: seq<string>, defs: Definitions, f: Formula): Formula
    requires forall x | x in order :: x in defs
  {
    if order == [] then f
    else
      var x := order[|order| - 1];
      Apply(VarBy(IntVar(x), defs[x]), InTurn(order[..|order| - 1], defs, f))
  }

  /** `find_non_interface_scalars`, which does not look into the memory of a `select`. */
  function Remaining(iface: Interface, f: Formula): set<string> {
    match f
    case True => {}
    case False => {}
    case FVar(v) => if iface.Keeps(v.name) then {} else {v.name}
    case Not(g) => Remaining(iface, g)
    case And(items) => set i, n | 0 <= i < |items| && n in Remaining(iface, items[i]) :: n
    case Or(items) => set i, n | 0 <= i < |items| && n in Remaining(iface, items[i]) :: n
    case Implies(lhs, rhs) => Remaining(iface, lhs) + Remaining(iface, rhs)
    case Cmp(_, l, r) => RemainingT(iface, l) + RemainingT(iface, r)
    case MemoryEq(ml, mr) => RemainingM(iface, ml) + RemainingM(iface, mr)
  }

  function RemainingT(iface: Interface, t: Term): set<string> {
    match t
    case TVar(v) => if iface.Keeps(v.name) then {} else {v.name}
    case Int(_) => {}
    case BoolToInt(f) => Remaining(iface, f)
    case Select(_, i) => RemainingT(iface, i)
    case Bin(_, l, r) => RemainingT(iface, l) + RemainingT(iface, r)
    case Neg(u) => RemainingT(iface, u)
  }

  function RemainingM(iface: Interface, m: Memory): set<string> {
    match m
    case Region(_) => {}
    case Store(inner, i, x) => RemainingM(iface, inner) + RemainingT(iface, i) + RemainingT(iface, x)
  }

  // ---- Side condition -------------------------------------------------------------------------

  /** Term variables are integers and no `select` reads a `store`. */
  ghost predicate Tidy(f: Formula) {
    match f
    case Not(g) => Tidy(g)
    case And(items) => forall g | g in items :: Tidy(g)
    case Or(items) => forall g | g in items :: Tidy(g)
    case Implies(lhs, rhs) => Tidy(lhs) && Tidy(rhs)
    case Cmp(_, l, r) => TidyT(l) && TidyT(r)
    case MemoryEq(ml, mr) => TidyM(ml) && TidyM(mr)
    case _ => true
  }

  ghost predicate TidyT(t: Term) {
    match t
    case TVar(v) => v.sort == IntSort
    case Int(_) => true
    case BoolToInt(f) => Tidy(f)
    case Select(m, i) => m.Region? && TidyT(i)
    case Bin(_, l, r) => TidyT(l) && TidyT(r)
    case Neg(u) => TidyT(u)
  }

  ghost predicate TidyM(m: Memory) {
    match m
    case Region(_) => true
    case Store(inner, i, x) => TidyM(inner) && TidyT(i) && TidyT(x)
  }

  lemma {:induction false} JoinTidy(conj: bool, items: seq<Formula>)
    requires forall f :: f in items ==> Tidy(f)
    ensures Tidy(Join(conj, items))
  {
    FlattenMembers(conj, items);
    if Zero(conj) !in items {
      forall g | g in Flatten(conj, items).value ensures Tidy(g) {
        var f :| f in items && g in Parts(conj, f);
      }
    }
  }

  ghost predicate TidyDefs(iface: Interface, defs: Definitions) {
    forall x | x in defs :: TidyT(defs[x]) && !iface.Keeps(x)
  }

  /** The state satisfies every definition. */
  ghost predicate Holds(defs: Definitions, s: State) {
    forall x | x in defs :: s.ints(IntVar(x)) == EvalT(defs[x], s)
  }

  // ---- Collection -----------------------------------------------------------------------------

  /** A model of the formula satisfies the definitions collected from it. */
  lemma {:induction false} CollectedHold(iface: Interface, f: Formula, defs: Definitions)
    requires Tidy(f) && TidyDefs(iface, defs)
    ensures TidyDefs(iface, Collected(iface, f, defs))
    ensures forall s: State :: Eval(f, s) && Holds(defs, s) ==> Holds(Collected(iface, f, defs), s)
    decreases f
  {
    if f.Cmp? && f.op == Eq {
      assert forall s: State :: f.l.TVar? ==> EvalT(f.l, s) == s.ints(f.l.v);
      assert forall s: State :: f.r.TVar? ==> EvalT(f.r, s) == s.ints(f.r.v);
    } else if f.And? {
      CollectedAllHold(iface, f, |f.items|, defs);
      assert f.items[..|f.items|] == f.items;
    }
  }

  lemma {:induction false} CollectedAllHold(iface: Interface, f: Formula, k: nat, defs: Definitions)
    requires f.And? && Tidy(f) && TidyDefs(iface, defs) && k <= |f.items|
    ensures TidyDefs(iface, CollectedAll(iface, f.items[..k], defs))
    ensures forall s: State :: Eval(f, s) && Holds(defs, s) ==> Holds(CollectedAll(iface, f.items[..k], defs), s)
    decreases f, 0, k
  {
    if k > 0 {
      CollectedAllHold(iface, f, k - 1, defs);
      assert f.items[..k][..k - 1] == f.items[..k - 1];
      var before := CollectedAll(iface, f.items[..k - 1], defs);
      CollectedHold(iface, f.items[k - 1], before);
      assert f.items[k - 1] in f.items;
    }
  }

  ghost predicate IsLocal(iface: Interface, t: Term, x: string) {
    t.TVar? && t.v.name == x && !iface.Keeps(x)
  }

  /** Some equality in a positive conjunctive position equates the local `x` with `t`. When both
      sides are locals, the left one is defined. */
  ghost predicate Defines(iface: Interface, f: Formula, x: string, t: Term)
    decreases f
  {
    if f.And? then exists g :: g in f.items && Defines(iface, g, x, t)
    else
      f.Cmp? && f.op == Eq
      && ((IsLocal(iface, f.l, x) && t == f.r)
          || (IsLocal(iface, f.r, x) && t == f.l && !(f.l.TVar? && IsLocal(iface, f.l, f.l.v.name))))
  }

  /** Of the operands of a conjunction, the first that defines the local does so with this term. */
  ghost predicate DefinedFirst(iface: Interface, items: seq<Formula>, x: string, t: Term) {
    exists i :: 0 <= i < |items| && Defines(iface, items[i], x, t)
                && forall j, u | 0 <= j < i :: !Defines(iface, items[j], x, u)
  }

  /** Collection finds the locals that an equality defines, each with its first definition, and
      overwrites nothing. */
  lemma {:induction false} CollectedExact(iface: Interface, f: Formula, defs: Definitions)
    ensures var found := Collected(iface, f, defs);
            (forall x | x in defs :: x in found && found[x] == defs[x])
            && (forall x | x in found && x !in defs :: Defines(iface, f, x, found[x]))
            && (forall x, t | Defines(iface, f, x, t) :: x in found)
            && (f.And? ==> forall x | x in found && x !in defs :: DefinedFirst(iface, f.items, x, found[x]))
    decreases f
  {
    if f.And? {
      CollectedFirst(iface, f, |f.items|, defs);
      assert f.items[..|f.items|] == f.items;
    }
  }

  lemma {:induction false} CollectedFirst(iface: Interface, f: Formula, k: nat, defs: Definitions)
    requires f.And? && k <= |f.items|
    ensures var found := CollectedAll(iface, f.items[..k], defs);
            (forall x | x in defs :: x in found && found[x] == defs[x])
            && (forall x | x in found && x !in defs :: DefinedFirst(iface, f.items[..k], x, found[x]))
            && forall i, x, t | 0 <= i < k && Defines(iface, f.items[i], x, t) :: x in found
    decreases f, 0, k
  {
    if k > 0 {
      CollectedFirst(iface, f, k - 1, defs);
      var items, front := f.items[..k], f.items[..k - 1];
      assert items[..k - 1] == front && items[k - 1] == f.items[k - 1];
      var before, found := CollectedAll(iface, front, defs), CollectedAll(iface, items, defs);
      CollectedExact(iface, f.items[k - 1], before);
      forall x | x in found && x !in defs ensures DefinedFirst(iface, items, x, found[x]) {
        if x in before {
          StillFirst(iface, front, items, x, found[x]);
        } else {
          assert Defines(iface, items[k - 1], x, found[x]);
        }
      }
    }
  }

  lemma StillFirst(iface: Interface, front: seq<Formula>, items: seq<Formula>, x: string, t: Term)
    requires front <= items && DefinedFirst(iface, front, x, t)
    ensures DefinedFirst(iface, items, x, t)
  {
    var i :| 0 <= i < |front| && Defines(iface, front[i], x, t)
             && forall j, u | 0 <= j < i :: !Defines(iface, front[j], x, u);
    assert items[i] == front[i] && forall j | 0 <= j < i :: items[j] == front[j];
  }

  // ---- Resolution -----------------------------------------------------------------------------

  /** Expanding with definitions that hold changes no value. */
  lemma {:induction false} Expanded(iface: Interface, defs: Definitions, t: Term, s: State)
    requires TidyT(t) && TidyDefs(iface, defs)
    ensures TidyT(Expand(defs, t)) && (Holds(defs, s) ==> EvalT(Expand(defs, t), s) == EvalT(t, s))
    decreases t
  {
    match t
    case TVar(v) =>
      assert v == IntVar(v.name);
    case Int(_) =>
    case BoolToInt(f) => ExpandedFormula(iface, defs, f, s);
    case Select(m, i) => Expanded(iface, defs, i, s);
    case Bin(_, l, r) =>
      Expanded(iface, defs, l, s);
      Expanded(iface, defs, r, s);
    case Neg(u) => Expanded(iface, defs, u, s);
  }

  lemma {:induction false} ExpandedFormula(iface: Interface, defs: Definitions, f: Formula, s: State)
    requires Tidy(f) && TidyDefs(iface, defs)
    ensures Tidy(ExpandFormula(defs, f)) && (Holds(defs, s) ==> (Eval(ExpandFormula(defs, f), s) <==> Eval(f, s)))
    decreases f
  {
    match f
    case Not(g) => ExpandedFormula(iface, defs, g, s);
    case And(items) => ExpandedAll(iface, defs, f, items, true, s);
    case Or(items) => ExpandedAll(iface, defs, f, items, false, s);
    case Implies(lhs, rhs) =>
      ExpandedFormula(iface, defs, lhs, s);
      ExpandedFormula(iface, defs, rhs, s);
    case Cmp(_, l, r) =>
      Expanded(iface, defs, l, s);
      Expanded(iface, defs, r, s);
    case _ =>
  }

  lemma {:induction false} ExpandedAll(
      iface: Interface, defs: Definitions, f: Formula, items: seq<Formula>, conj: bool, s: State)
    requires f == (if conj then And(items) else Or(items)) && Tidy(f) && TidyDefs(iface, defs)
    ensures Tidy(ExpandFormula(defs, f)) && (Holds(defs, s) ==> (Eval(ExpandFormula(defs, f), s) <==> Eval(f, s)))
    decreases f, 0
  {
    var mapped := seq(|items|, i requires 0 <= i < |items| => ExpandFormula(defs, items[i]));
    forall i | 0 <= i < |items|
      ensures items[i] in items && mapped[i] in mapped && Tidy(mapped[i])
      ensures Holds(defs, s) ==> (Eval(mapped[i], s) <==> Eval(items[i], s))
    {
      ExpandedFormula(iface, defs, items[i], s);
    }
    JoinTidy(conj, mapped);
    JoinMeaning(conj, mapped, s);
  }

  lemma RoundHolds(iface: Interface, defs: Definitions)
    requires TidyDefs(iface, defs)
    ensures TidyDefs(iface, Round(defs)) && Round(defs).Keys == defs.Keys
    ensures forall s: State :: Holds(defs, s) ==> Holds(Round(defs), s)
  {
    forall x, s: State | x in defs
      ensures TidyT(Round(defs)[x]) && (Holds(defs, s) ==> EvalT(Round(defs)[x], s) == EvalT(defs[x], s))
    {
      Expanded(iface, defs, defs[x], s);
    }
    var any: State :| true;
    assert forall x | x in defs :: Holds(defs, any) ==> EvalT(Round(defs)[x], any) == EvalT(defs[x], any);
  }

  /** `resolve_substitution_chain`: expand the definitions in each other, at most eight times. */
  method ResolveChain(iface: Interface, defs: Definitions) returns (resolved: Definitions)
    ensures resolved == Rounds(defs, MAX_ROUNDS) && resolved.Keys == defs.Keys
    ensures TidyDefs(iface, defs) ==> TidyDefs(iface, resolved)
    ensures TidyDefs(iface, defs) ==> forall s: State :: Holds(defs, s) ==> Holds(resolved, s)
  {
    resolved := defs;
    var changed := true;
    var rounds := 0;
    while rounds < MAX_ROUNDS && changed
      invariant resolved.Keys == defs.Keys && rounds <= MAX_ROUNDS && resolved == Rounds(defs, rounds)
      invariant changed || Round(resolved) == resolved
      invariant TidyDefs(iface, defs) ==> TidyDefs(iface, resolved)
      invariant TidyDefs(iface, defs) ==> forall s: State :: Holds(defs, s) ==> Holds(resolved, s)
    {
      if TidyDefs(iface, resolved) {
        RoundHolds(iface, resolved);
      }
      var next := Round(resolved);
      changed := next != resolved;
      resolved := next;
      rounds := rounds + 1;
    }
    if !changed {
      RoundsSettled(defs, rounds, MAX_ROUNDS);
    }
  }

  // ---- Substitution in turn -------------------------------------------------------------------

  function Eliminated(locals: set<string>): set<Name> {
    set x | x in locals :: Scalar(IntVar(x))
  }

  /** Some choice of values for the locals satisfies the formula. */
  ghost predicate Extendable(f: Formula, locals: set<string>, s: State) {
    exists m: State :: SameExcept(s, m, Eliminated(locals)) && Eval(f, m)
  }

  /** Whatever the definitions are, a model of the result extends to a model of the original. */
  lemma {:induction false} InTurnExtends(order: seq<string>, defs: Definitions, f: Formula, s: State) returns (m: State)
    requires forall x | x in order :: x in defs
    ensures Eval(InTurn(order, defs, f), s) <==> Eval(f, m)
    ensures SameExcept(s, m, Eliminated(defs.Keys))
    decreases |order|
  {
    m := s;
    if order != [] {
      var x := order[|order| - 1];
      var sub := VarBy(IntVar(x), defs[x]);
      Substituted(sub, InTurn(order[..|order| - 1], defs, f), s);
      m := InTurnExtends(order[..|order| - 1], defs, f, Updated(sub, s));
      assert SameExcept(s, Updated(sub, s), {Scalar(IntVar(x))});
      forall n | n !in Eliminated(defs.Keys) ensures SameAt(s, m, n) {
        assert SameAt(Updated(sub, s), m, n) && n != Scalar(IntVar(x));
      }
    }
  }

  /** Substituting definitions that hold changes no value, in whatever order it is done. */
  lemma {:induction false} InTurnKeeps(order: seq<string>, defs: Definitions, f: Formula, s: State)
    requires (forall x | x in order :: x in defs) && Holds(defs, s)
    ensures Eval(InTurn(order, defs, f), s) <==> Eval(f, s)
  {
    if order != [] {
      var front, x := order[..|order| - 1], order[|order| - 1];
      var sub := VarBy(IntVar(x), defs[x]);
      Substituted(sub, InTurn(front, defs, f), s);
      assert SameExcept(Updated(sub, s), s, {});
      Congruence(InTurn(front, defs, f), Updated(sub, s), s);
      InTurnKeeps(front, defs, f, s);
    }
  }

  lemma {:induction false} TidyApplied(v: Var, e: Term, f: Formula)
    requires Tidy(f) && TidyT(e)
    ensures Tidy(Apply(VarBy(v, e), f))
    decreases f
  {
    match f
    case True =>
    case False =>
    case FVar(_) =>
    case Not(g) => TidyApplied(v, e, g);
    case And(items) =>
      forall i | 0 <= i < |items| ensures Tidy(Apply(VarBy(v, e), items[i])) {
        TidyApplied(v, e, items[i]);
      }
      JoinTidy(true, seq(|items|, i requires 0 <= i < |items| => Apply(VarBy(v, e), items[i])));
    case Or(items) =>
      forall i | 0 <= i < |items| ensures Tidy(Apply(VarBy(v, e), items[i])) {
        TidyApplied(v, e, items[i]);
      }
      JoinTidy(false, seq(|items|, i requires 0 <= i < |items| => Apply(VarBy(v, e), items[i])));
    case Implies(lhs, rhs) =>
      TidyApplied(v, e, lhs);
      TidyApplied(v, e, rhs);
    case Cmp(_, l, r) =>
      TidyAppliedT(v, e, l);
      TidyAppliedT(v, e, r);
    case MemoryEq(ml, mr) =>
      TidyAppliedM(v, e, ml);
      TidyAppliedM(v, e, mr);
  }

  lemma {:induction false} TidyAppliedT(v: Var, e: Term, t: Term)
    requires TidyT(t) && TidyT(e)
    ensures TidyT(ApplyT(VarBy(v, e), t))
    decreases t
  {
    match t
    case TVar(_) =>
    case Int(_) =>
    case BoolToInt(f) => TidyApplied(v, e, f);
    case Select(_, i) => TidyAppliedT(v, e, i);
    case Bin(_, l, r) =>
      TidyAppliedT(v, e, l);
      TidyAppliedT(v, e, r);
    case Neg(u) => TidyAppliedT(v, e, u);
  }

  lemma {:induction false} TidyAppliedM(v: Var, e: Term, m: Memory)
    requires TidyM(m) && TidyT(e)
    ensures TidyM(ApplyM(VarBy(v, e), m))
    decreases m
  {
    match m
    case Region(_) =>
    case Store(inner, i, x) =>
      TidyAppliedM(v, e, inner);
      TidyAppliedT(v, e, i);
      TidyAppliedT(v, e, x);
  }

  lemma {:induction false} InTurnTidy(order: seq<string>, iface: Interface, defs: Definitions, f: Formula)
    requires (forall x | x in order :: x in defs) && Tidy(f) && TidyDefs(iface, defs)
    ensures Tidy(InTurn(order, defs, f))
  {
    if order != [] {
      var x := order[|order| - 1];
      InTurnTidy(order[..|order| - 1], iface, defs, f);
      TidyApplied(IntVar(x), defs[x], InTurn(order[..|order| - 1], defs, f));
    }
  }

  // ---- The check at the end -------------------------------------------------------------------

  /** Every scalar name is an interface name. */
  ghost predicate InterfaceOnly(iface: Interface, names: set<Name>) {
    forall v: Var :: Scalar(v) in names ==> iface.Keeps(v.name)
  }

  /** Where no `select` reads a `store`, the final check finds every local. */
  lemma {:induction false} NothingRemains(iface: Interface, f: Formula)
    requires Tidy(f) && Remaining(iface, f) == {}
    ensures InterfaceOnly(iface, Names(f))
    decreases f
  {
    match f
    case True =>
    case False =>
    case FVar(_) =>
    case Not(g) => NothingRemains(iface, g);
    case And(items) =>
      forall i | 0 <= i < |items| ensures InterfaceOnly(iface, Names(items[i])) {
        assert Remaining(iface, items[i]) <= Remaining(iface, f) && items[i] in items;
        NothingRemains(iface, items[i]);
      }
    case Or(items) =>
      forall i | 0 <= i < |items| ensures InterfaceOnly(iface, Names(items[i])) {
        assert Remaining(iface, items[i]) <= Remaining(iface, f) && items[i] in items;
        NothingRemains(iface, items[i]);
      }
    case Implies(lhs, rhs) =>
      NothingRemains(iface, lhs);
      NothingRemains(iface, rhs);
    case Cmp(_, l, r) =>
      NothingRemainsT(iface, l);
      NothingRemainsT(iface, r);
    case MemoryEq(ml, mr) =>
      NothingRemainsM(iface, ml);
      NothingRemainsM(iface, mr);
  }

  lemma {:induction false} NothingRemainsT(iface: Interface, t: Term)
    requires TidyT(t) && RemainingT(iface, t) == {}
    ensures InterfaceOnly(iface, NamesT(t))
    decreases t
  {
    match t
    case TVar(_) =>
    case Int(_) =>
    case BoolToInt(f) => NothingRemains(iface, f);
    case Select(_, i) => NothingRemainsT(iface, i);
    case Bin(_, l, r) =>
      NothingRemainsT(iface, l);
      NothingRemainsT(iface, r);
    case Neg(u) => NothingRemainsT(iface, u);
  }

  lemma {:induction false} NothingRemainsM(iface: Interface, m: Memory)
    requires TidyM(m) && RemainingM(iface, m) == {}
    ensures InterfaceOnly(iface, NamesM(m))
    decreases m
  {
    match m
    case Region(_) =>
    case Store(inner, i, x) =>
      NothingRemainsM(iface, inner);
      NothingRemainsT(iface, i);
      NothingRemainsT(iface, x);
  }

  // ---- When every local can be eliminated -----------------------------------------------------

  /** The formula is tidy and its Boolean variables are interface names. */
  ghost predicate Clear(iface: Interface, f: Formula) {
    match f
    case FVar(v) => iface.Keeps(v.name)
    case Not(g) => Clear(iface, g)
    case And(items) => forall g | g in items :: Clear(iface, g)
    case Or(items) => forall g | g in items :: Clear(iface, g)
    case Implies(lhs, rhs) => Clear(iface, lhs) && Clear(iface, rhs)
    case Cmp(_, l, r) => ClearT(iface, l) && ClearT(iface, r)
    case MemoryEq(ml, mr) => ClearM(iface, ml) && ClearM(iface, mr)
    case _ => true
  }

  ghost predicate ClearT(iface: Interface, t: Term) {
    match t
    case TVar(v) => v.sort == IntSort
    case Int(_) => true
    case BoolToInt(f) => Clear(iface, f)
    case Select(m, i) => m.Region? && ClearT(iface, i)
    case Bin(_, l, r) => ClearT(iface, l) && ClearT(iface, r)
    case Neg(u) => ClearT(iface, u)
  }

  ghost predicate ClearM(iface: Interface, m: Memory) {
    match m
    case Region(_) => true
    case Store(inner, i, x) => ClearM(iface, inner) && ClearT(iface, i) && ClearT(iface, x)
  }

  /** Memory equalities, which expansion does not enter, mention no local. */
  ghost predicate Sealed(iface: Interface, f: Formula) {
    match f
    case Not(g) => Sealed(iface, g)
    case And(items) => forall g | g in items :: Sealed(iface, g)
    case Or(items) => forall g | g in items :: Sealed(iface, g)
    case Implies(lhs, rhs) => Sealed(iface, lhs) && Sealed(iface, rhs)
    case Cmp(_, l, r) => SealedT(iface, l) && SealedT(iface, r)
    case MemoryEq(_, _) => Remaining(iface, f) == {}
    case _ => true
  }

  ghost predicate SealedT(iface: Interface, t: Term) {
    match t
    case BoolToInt(f) => Sealed(iface, f)
    case Select(_, i) => SealedT(iface, i)
    case Bin(_, l, r) => SealedT(iface, l) && SealedT(iface, r)
    case Neg(u) => SealedT(iface, u)
    case _ => true
  }

  /** Joining keeps all of this and mentions no other locals. */
  lemma {:induction false} JoinClear(iface: Interface, conj: bool, items: seq<Formula>, bound: set<string>)
    requires forall f | f in items :: Clear(iface, f) && Remaining(iface, f) <= bound
    ensures Clear(iface, Join(conj, items)) && Remaining(iface, Join(conj, items)) <= bound
    ensures (forall f | f in items :: Sealed(iface, f)) ==> Sealed(iface, Join(conj, items))
  {
    FlattenMembers(conj, items);
    if Zero(conj) !in items {
      forall g | g in Flatten(conj, items).value
        ensures Clear(iface, g) && Remaining(iface, g) <= bound
        ensures (forall f | f in items :: Sealed(iface, f)) ==> Sealed(iface, g)
      {
        var f :| f in items && g in Parts(conj, f);
        assert Remaining(iface, g) <= Remaining(iface, f);
      }
    }
  }

  /** What expansion needs of the definitions. */
  ghost predicate Expandable(iface: Interface, defs: Definitions) {
    forall x | x in defs :: ClearT(iface, defs[x]) && SealedT(iface, defs[x]) && !iface.Keeps(x)
  }

  /** After expansion the locals of a term are those of the definitions it used. */
  ghost predicate Covers(iface: Interface, defs: Definitions, locals: set<string>, bound: set<string>) {
    forall x | x in locals :: if x in defs then RemainingT(iface, defs[x]) <= bound else x in bound
  }

  lemma {:induction false} ExpandClear(iface: Interface, defs: Definitions, t: Term, bound: set<string>)
    requires ClearT(iface, t) && SealedT(iface, t) && Expandable(iface, defs)
    requires Covers(iface, defs, RemainingT(iface, t), bound)
    ensures ClearT(iface, Expand(defs, t)) && SealedT(iface, Expand(defs, t))
    ensures RemainingT(iface, Expand(defs, t)) <= bound
    decreases t
  {
    match t
    case TVar(_) =>
    case Int(_) =>
    case BoolToInt(f) => ExpandClearFormula(iface, defs, f, bound);
    case Select(_, i) => ExpandClear(iface, defs, i, bound);
    case Bin(_, l, r) =>
      ExpandClear(iface, defs, l, bound);
      ExpandClear(iface, defs, r, bound);
    case Neg(u) => ExpandClear(iface, defs, u, bound);
  }

  lemma {:induction false} ExpandClearFormula(iface: Interface, defs: Definitions, f: Formula, bound: set<string>)
    requires Clear(iface, f) && Sealed(iface, f) && Expandable(iface, defs)
    requires Covers(iface, defs, Remaining(iface, f), bound)
    ensures Clear(iface, ExpandFormula(defs, f)) && Sealed(iface, ExpandFormula(defs, f))
    ensures Remaining(iface, ExpandFormula(defs, f)) <= bound
    decreases f
  {
    match f
    case Not(g) => ExpandClearFormula(iface, defs, g, bound);
    case And(items) => ExpandClearAll(iface, defs, f, items, true, bound);
    case Or(items) => ExpandClearAll(iface, defs, f, items, false, bound);
    case Implies(lhs, rhs) =>
      ExpandClearFormula(iface, defs, lhs, bound);
      ExpandClearFormula(iface, defs, rhs, bound);
    case Cmp(_, l, r) =>
      ExpandClear(iface, defs, l, bound);
      ExpandClear(iface, defs, r, bound);
    case _ =>
  }

  lemma {:induction false} ExpandClearAll(
      iface: Interface, defs: Definitions, f: Formula, items: seq<Formula>, conj: bool, bound: set<string>)
    requires f == (if conj then And(items) else Or(items)) && Clear(iface, f) && Sealed(iface, f)
    requires Expandable(iface, defs) && Covers(iface, defs, Remaining(iface, f), bound)
    ensures Clear(iface, ExpandFormula(defs, f)) && Sealed(iface, ExpandFormula(defs, f))
    ensures Remaining(iface, ExpandFormula(defs, f)) <= bound
    decreases f, 0
  {
    var mapped := seq(|items|, i requires 0 <= i < |items| => ExpandFormula(defs, items[i]));
    forall i | 0 <= i < |items|
      ensures Clear(iface, mapped[i]) && Sealed(iface, mapped[i]) && Remaining(iface, mapped[i]) <= bound
    {
      assert items[i] in items && Remaining(iface, items[i]) <= Remaining(iface, f);
      ExpandClearFormula(iface, defs, items[i], bound);
    }
    JoinClear(iface, conj, mapped, bound);
  }

  // ---- Chains of definitions ------------------------------------------------------------------

  /** Every local in a definition is defined, at least `step` ranks below. */
  ghost predicate Descends(iface: Interface, defs: Definitions, rank: string -> nat, step: nat) {
    Expandable(iface, defs)
    && forall x, y | x in defs && y in RemainingT(iface, defs[x]) :: y in defs && rank(y) + step <= rank(x)
  }

  /** One round of expansion doubles the step. */
  lemma RoundDescends(iface: Interface, defs: Definitions, rank: string -> nat, step: nat)
    requires Descends(iface, defs, rank, step)
    ensures Descends(iface, Round(defs), rank, 2 * step)
  {
    forall x | x in defs
      ensures ClearT(iface, Round(defs)[x]) && SealedT(iface, Round(defs)[x])
      ensures forall y | y in RemainingT(iface, Round(defs)[x]) :: y in defs && rank(y) + 2 * step <= rank(x)
    {
      var bound := set y | y in defs.Keys && rank(y) + 2 * step <= rank(x);
      forall z | z in RemainingT(iface, defs[x]) ensures RemainingT(iface, defs[z]) <= bound {
      }
      ExpandClear(iface, defs, defs[x], bound);
    }
  }

  const MAX_ROUNDS := 8

  function Rounds(defs: Definitions, n: nat): Definitions {
    if n == 0 then defs else Round(Rounds(defs, n - 1))
  }

  function PowerOfTwo(n: nat): nat {
    if n == 0 then 1 else 2 * PowerOfTwo(n - 1)
  }

  lemma {:induction false} RoundsDescend(iface: Interface, defs: Definitions, rank: string -> nat, n: nat)
    requires Descends(iface, defs, rank, 1)
    ensures Descends(iface, Rounds(defs, n), rank, PowerOfTwo(n)) && Rounds(defs, n).Keys == defs.Keys
  {
    if n > 0 {
      RoundsDescend(iface, defs, rank, n - 1);
      RoundDescends(iface, Rounds(defs, n - 1), rank, PowerOfTwo(n - 1));
    }
  }

  lemma {:induction false} RoundsSettled(defs: Definitions, k: nat, n: nat)
    requires k <= n && Round(Rounds(defs, k)) == Rounds(defs, k)
    ensures Rounds(defs, n) == Rounds(defs, k)
    decreases n
  {
    if k < n {
      RoundsSettled(defs, k, n - 1);
    }
  }

  /** The definitions form chains of at most 256 locals. */
  ghost predicate Chained(iface: Interface, defs: Definitions) {
    exists rank: string -> nat ::
      Descends(iface, defs, rank, 1) && forall x | x in defs :: rank(x) < 256
  }

  lemma NoLocals(iface: Interface, defs: Definitions, rank: string -> nat, step: nat, x: string)
    requires Descends(iface, defs, rank, step) && x in defs && rank(x) < step
    ensures RemainingT(iface, defs[x]) == {}
  {
    assert forall y | y in RemainingT(iface, defs[x]) :: rank(y) + step <= rank(x);
  }

  lemma RoundsResolve(iface: Interface, defs: Definitions, rank: string -> nat, n: nat)
    requires Descends(iface, defs, rank, 1) && forall x | x in defs :: rank(x) < PowerOfTwo(n)
    ensures Expandable(iface, Rounds(defs, n))
    ensures forall x | x in Rounds(defs, n) :: RemainingT(iface, Rounds(defs, n)[x]) == {}
  {
    RoundsDescend(iface, defs, rank, n);
    var resolved := Rounds(defs, n);
    forall x | x in resolved ensures RemainingT(iface, resolved[x]) == {} {
      NoLocals(iface, resolved, rank, PowerOfTwo(n), x);
    }
  }

  /** The rounds resolve chains of 256 definitions. */
  lemma ChainsResolved(iface: Interface, defs: Definitions)
    requires Chained(iface, defs)
    ensures Expandable(iface, Rounds(defs, MAX_ROUNDS))
    ensures forall x | x in Rounds(defs, MAX_ROUNDS) :: RemainingT(iface, Rounds(defs, MAX_ROUNDS)[x]) == {}
  {
    var rank: string -> nat :| Descends(iface, defs, rank, 1) && forall x | x in defs :: rank(x) < 256;
    assert PowerOfTwo(4) == 16 && PowerOfTwo(8) == 256;
    RoundsResolve(iface, defs, rank, MAX_ROUNDS);
  }

  // ---- Substituting what is resolved ----------------------------------------------------------

  /** Substituting a term without locals for a local removes that local and adds none. */
  lemma {:induction false} ApplyClear(iface: Interface, x: string, e: Term, f: Formula, bound: set<string>)
    requires Clear(iface, f) && ClearT(iface, e) && RemainingT(iface, e) == {}
    requires Remaining(iface, f) <= bound + {x}
    ensures Clear(iface, Apply(VarBy(IntVar(x), e), f)) && Remaining(iface, Apply(VarBy(IntVar(x), e), f)) <= bound
    decreases f
  {
    match f
    case True =>
    case False =>
    case FVar(_) =>
    case Not(g) => ApplyClear(iface, x, e, g, bound);
    case And(items) => ApplyClearAll(iface, x, e, f, items, true, bound);
    case Or(items) => ApplyClearAll(iface, x, e, f, items, false, bound);
    case Implies(lhs, rhs) =>
      ApplyClear(iface, x, e, lhs, bound);
      ApplyClear(iface, x, e, rhs, bound);
    case Cmp(_, l, r) =>
      ApplyClearT(iface, x, e, l, bound);
      ApplyClearT(iface, x, e, r, bound);
    case MemoryEq(ml, mr) =>
      ApplyClearM(iface, x, e, ml, bound);
      ApplyClearM(iface, x, e, mr, bound);
  }

  lemma {:induction false} ApplyClearAll(
      iface: Interface, x: string, e: Term, f: Formula, items: seq<Formula>, conj: bool, bound: set<string>)
    requires f == (if conj then And(items) else Or(items)) && Clear(iface, f)
    requires ClearT(iface, e) && RemainingT(iface, e) == {} && Remaining(iface, f) <= bound + {x}
    ensures Clear(iface, Apply(VarBy(IntVar(x), e), f)) && Remaining(iface, Apply(VarBy(IntVar(x), e), f)) <= bound
    decreases f, 0
  {
    var mapped := seq(|items|, i requires 0 <= i < |items| => Apply(VarBy(IntVar(x), e), items[i]));
    forall i | 0 <= i < |items| ensures Clear(iface, mapped[i]) && Remaining(iface, mapped[i]) <= bound {
      assert items[i] in items && Remaining(iface, items[i]) <= Remaining(iface, f);
      ApplyClear(iface, x, e, items[i], bound);
    }
    JoinClear(iface, conj, mapped, bound);
  }

  lemma {:induction false} ApplyClearT(iface: Interface, x: string, e: Term, t: Term, bound: set<string>)
    requires ClearT(iface, t) && ClearT(iface, e) && RemainingT(iface, e) == {}
    requires RemainingT(iface, t) <= bound + {x}
    ensures ClearT(iface, ApplyT(VarBy(IntVar(x), e), t)) && RemainingT(iface, ApplyT(VarBy(IntVar(x), e), t)) <= bound
    decreases t
  {
    match t
    case TVar(v) =>
      assert v == IntVar(v.name);
    case Int(_) =>
    case BoolToInt(f) => ApplyClear(iface, x, e, f, bound);
    case Select(_, i) => ApplyClearT(iface, x, e, i, bound);
    case Bin(_, l, r) =>
      ApplyClearT(iface, x, e, l, bound);
      ApplyClearT(iface, x, e, r, bound);
    case Neg(u) => ApplyClearT(iface, x, e, u, bound);
  }

  lemma {:induction false} ApplyClearM(iface: Interface, x: string, e: Term, m: Memory, bound: set<string>)
    requires ClearM(iface, m) && ClearT(iface, e) && RemainingT(iface, e) == {}
    requires RemainingM(iface, m) <= bound + {x}
    ensures ClearM(iface, ApplyM(VarBy(IntVar(x), e), m)) && RemainingM(iface, ApplyM(VarBy(IntVar(x), e), m)) <= bound
    decreases m
  {
    match m
    case Region(_) =>
    case Store(inner, i, y) =>
      ApplyClearM(iface, x, e, inner, bound);
      ApplyClearT(iface, x, e, i, bound);
      ApplyClearT(iface, x, e, y, bound);
  }

  /** With resolved definitions, substituting them one after the other leaves only the locals that
      were not in the list. */
  lemma {:induction false} InTurnClear(
      iface: Interface, order: seq<string>, defs: Definitions, f: Formula, bound: set<string>)
    requires (forall x | x in order :: x in defs) && Clear(iface, f) && Expandable(iface, defs)
    requires forall x | x in defs :: RemainingT(iface, defs[x]) == {}
    requires Remaining(iface, f) <= bound + set x | x in order
    ensures Clear(iface, InTurn(order, defs, f)) && Remaining(iface, InTurn(order, defs, f)) <= bound
  {
    if order == [] {
      assert Remaining(iface, f) <= bound;
    } else {
      var front, x := order[..|order| - 1], order[|order| - 1];
      assert order == front + [x];
      InTurnClear(iface, front, defs, f, bound + {x});
      ApplyClear(iface, x, defs[x], InTurn(front, defs, f), bound);
    }
  }

  /** The locals that a formula's equalities define. */
  function Locals(iface: Interface, f: Formula): set<string> {
    Collected(iface, f, map[]).Keys
  }

  /** What guarantees a projection: no Boolean local, every local defined by an equality, and
      definitions that form chains of at most 256 locals and hide none from expansion. */
  ghost predicate Eliminable(iface: Interface, f: Formula) {
    Clear(iface, f) && Remaining(iface, f) <= Locals(iface, f) && Chained(iface, Collected(iface, f, map[]))
  }

  lemma EliminableProjects(iface: Interface, order: seq<string>, f: Formula)
    requires Eliminable(iface, f)
    requires var resolved := Rounds(Collected(iface, f, map[]), MAX_ROUNDS); Lists(order, resolved.Keys)
    ensures Remaining(iface, InTurn(order, Rounds(Collected(iface, f, map[]), MAX_ROUNDS), f)) == {}
  {
    var defs := Collected(iface, f, map[]);
    ChainsResolved(iface, defs);
    RoundsKeys(defs, MAX_ROUNDS);
    assert Remaining(iface, f) <= {} + set x | x in order;
    InTurnClear(iface, order, Rounds(defs, MAX_ROUNDS), f, {});
  }

  lemma {:induction false} RoundsKeys(defs: Definitions, n: nat)
    ensures Rounds(defs, n).Keys == defs.Keys
  {
    if n > 0 {
      RoundsKeys(defs, n - 1);
    }
  }

  /** `z == y + 1` and `y == p * 2` and `z > 0`. */
  const CHAIN := And([Cmp(Eq, TVar(IntVar(Z)), Bin(Add, TVar(IntVar(Y)), Int(1))),
                      Cmp(Eq, TVar(IntVar(Y)), Bin(Mul, P, Int(2))), Cmp(Gt, TVar(IntVar(Z)), Int(0))])

  const CHAIN_DEFS: Definitions := map[Z := Bin(Add, TVar(IntVar(Y)), Int(1)), Y := Bin(Mul, P, Int(2))]

  lemma ChainCollected(iface: Interface)
    requires !iface.Keeps(Y) && !iface.Keeps(Z)
    ensures Collected(iface, CHAIN, map[]) == CHAIN_DEFS
  {
    var items := CHAIN.items;
    assert items[..2] == [items[0], items[1]] && items[..2][..1] == [items[0]] && [items[0]][..0] == [];
    assert CollectedAll(iface, [], map[]) == map[];
    assert CollectedAll(iface, items[..1], map[]) == Collected(iface, items[0], CollectedAll(iface, [], map[]));
    assert CollectedAll(iface, items[..2], map[]) == Collected(iface, items[1], CollectedAll(iface, items[..1], map[]));
    assert CollectedAll(iface, items, map[]) == Collected(iface, items[2], CollectedAll(iface, items[..2], map[]));
  }

  /** Definitions that use each other are no obstacle. */
  lemma ChainEliminable()
    ensures Eliminable(Interface("P", {}), CHAIN)
  {
    var iface := Interface("P", {});
    assert "P" + "$%" == "P$%" && ("P" + "$__retval")[2] == '_';
    assert !iface.Keeps(Y) && !iface.Keeps(Z) && iface.Keeps("p");
    ChainCollected(iface);
    ChainRemaining(iface);
    ChainDescends(iface);
  }

  lemma ChainRemaining(iface: Interface)
    requires !iface.Keeps(Y) && !iface.Keeps(Z) && iface.Keeps("p")
    ensures Remaining(iface, CHAIN) <= {Y, Z} && Clear(iface, CHAIN)
  {
    var y, z := TVar(IntVar(Y)), TVar(IntVar(Z));
    assert RemainingT(iface, y) == {Y} && RemainingT(iface, z) == {Z} && RemainingT(iface, P) == {};
    assert RemainingT(iface, Int(0)) == RemainingT(iface, Int(1)) == RemainingT(iface, Int(2)) == {};
    assert RemainingT(iface, Bin(Add, y, Int(1))) == {Y} && RemainingT(iface, Bin(Mul, P, Int(2))) == {};
    assert Remaining(iface, CHAIN.items[0]) == {Y, Z} && Remaining(iface, CHAIN.items[1]) == {Y};
    assert Remaining(iface, CHAIN.items[2]) == {Z};
    assert ClearT(iface, y) && ClearT(iface, z) && ClearT(iface, P) && ClearT(iface, Int(0));
    assert ClearT(iface, Int(1)) && ClearT(iface, Int(2));
    assert ClearT(iface, Bin(Add, y, Int(1))) && ClearT(iface, Bin(Mul, P, Int(2)));
    forall g | g in CHAIN.items ensures Clear(iface, g) {
      assert g == CHAIN.items[0] || g == CHAIN.items[1] || g == CHAIN.items[2];
    }
    forall x | x in Remaining(iface, CHAIN) ensures x in {Y, Z} {
      var i :| 0 <= i < 3 && x in Remaining(iface, CHAIN.items[i]);
    }
  }

  lemma ChainDescends(iface: Interface)
    requires !iface.Keeps(Y) && !iface.Keeps(Z) && iface.Keeps("p")
    ensures Chained(iface, CHAIN_DEFS)
  {
    var rank: string -> nat := x => if x == Z then 1 else 0;
    var y := TVar(IntVar(Y));
    assert RemainingT(iface, y) == {Y} && RemainingT(iface, P) == {};
    assert RemainingT(iface, Int(1)) == RemainingT(iface, Int(2)) == {};
    assert |Y| == 4 && Y[3] == '1' && Z[3] == '2' && rank(Y) == 0 && rank(Z) == 1;
    assert RemainingT(iface, CHAIN_DEFS[Y]) == {} && RemainingT(iface, CHAIN_DEFS[Z]) == {Y};
    assert SealedT(iface, y) && SealedT(iface, P) && ClearT(iface, y) && ClearT(iface, P);
    assert ClearT(iface, CHAIN_DEFS[Z]) && SealedT(iface, CHAIN_DEFS[Z]);
    assert ClearT(iface, CHAIN_DEFS[Y]) && SealedT(iface, CHAIN_DEFS[Y]);
    assert Expandable(iface, CHAIN_DEFS);
    assert Descends(iface, CHAIN_DEFS, rank, 1);
  }

  // ---- Projection -----------------------------------------------------------------------------

  /** The summary's formula is the projection of the query's. */
  ghost predicate Projects(summary: Formula, query: Formula, locals: set<string>) {
    forall s: State :: Eval(summary, s) <==> Extendable(query, locals, s)
  }

  /** The two formulas agree in the states that satisfy the definitions. */
  ghost predicate AgreesWhereDefined(summary: Formula, query: Formula, defs: Definitions) {
    forall s: State | Holds(defs, s) :: Eval(summary, s) <==> Eval(query, s)
  }

  /** `project_to_interface`. A model of the result always extends, on the defined locals, to a
      model of the formula. When no `select` reads a `store` the projection is exact quantifier
      elimination, whatever the order of substitution, and leaves interface scalars only; and in
      states that satisfy the collected definitions it changes nothing. */
  method ProjectToInterface(f: Formula, iface: Interface) returns (projected: Option<Formula>)
    ensures Eliminable(iface, f) ==> projected.Some?
    ensures projected.Some? ==>
              forall s: State :: Eval(projected.value, s) ==> Extendable(f, Locals(iface, f), s)
    ensures projected.Some? && Tidy(f) ==>
              InterfaceOnly(iface, Names(projected.value)) && Projects(projected.value, f, Locals(iface, f))
    ensures projected.Some? && Tidy(f) ==> AgreesWhereDefined(projected.value, f, Collected(iface, f, map[]))
  {
    var defs := Collected(iface, f, map[]);
    var resolved := ResolveChain(iface, defs);
    var order := AnyOrder(resolved.Keys);
    var result := f;
    for i := 0 to |order|
      invariant result == InTurn(order[..i], resolved, f)
    {
      assert order[..i + 1][..i] == order[..i];
      result := Apply(VarBy(IntVar(order[i]), resolved[order[i]]), result);
    }
    assert order[..|order|] == order;
    if Eliminable(iface, f) {
      EliminableProjects(iface, order, f);
    }
    if Remaining(iface, result) != {} {
      return None;
    }
    projected := Some(result);
    ProjectionSound(iface, f, order, resolved);
    if Tidy(f) {
      CollectedHold(iface, f, map[]);
      ProjectionExact(iface, f, order, resolved);
      ProjectionAgrees(f, order, defs, resolved);
    }
  }

  lemma ProjectionAgrees(f: Formula, order: seq<string>, defs: Definitions, resolved: Definitions)
    requires forall x | x in order :: x in resolved
    requires forall s: State :: Holds(defs, s) ==> Holds(resolved, s)
    ensures AgreesWhereDefined(InTurn(order, resolved, f), f, defs)
  {
    forall s: State | Holds(defs, s) ensures Eval(InTurn(order, resolved, f), s) <==> Eval(f, s) {
      InTurnKeeps(order, resolved, f, s);
    }
  }

  lemma ProjectionSound(iface: Interface, f: Formula, order: seq<string>, defs: Definitions)
    requires (forall x | x in order :: x in defs) && defs.Keys == Locals(iface, f)
    ensures forall s: State :: Eval(InTurn(order, defs, f), s) ==> Extendable(f, Locals(iface, f), s)
  {
    forall s: State | Eval(InTurn(order, defs, f), s) ensures Extendable(f, Locals(iface, f), s) {
      var m := InTurnExtends(order, defs, f, s);
    }
  }

  lemma ProjectionExact(iface: Interface, f: Formula, order: seq<string>, defs: Definitions)
    requires (forall x | x in order :: x in defs) && defs.Keys == Locals(iface, f)
    requires Tidy(f) && TidyDefs(iface, defs) && Remaining(iface, InTurn(order, defs, f)) == {}
    requires forall s: State :: Eval(f, s) ==> Holds(defs, s)
    ensures InterfaceOnly(iface, Names(InTurn(order, defs, f)))
    ensures forall s: State :: Extendable(f, Locals(iface, f), s) ==> Eval(InTurn(order, defs, f), s)
  {
    var g := InTurn(order, defs, f);
    InTurnTidy(order, iface, defs, f);
    NothingRemains(iface, g);
    forall s: State | Extendable(f, Locals(iface, f), s) ensures Eval(g, s) {
      var m: State :| SameExcept(s, m, Eliminated(Locals(iface, f))) && Eval(f, m);
      InTurnKeeps(order, defs, f, m);
      forall n | n in Names(g) ensures SameAt(s, m, n) {
        assert n.Scalar? ==> iface.Keeps(n.v.name);
        assert n !in Eliminated(Locals(iface, f));
      }
      Congruence(g, s, m);
    }
  }

  // ---- What happens otherwise -----------------------------------------------------------------

  const P := TVar(IntVar("p"))
  const Y := "P$%1"
  const Z := "P$%2"

  function Stored(t: Term): Term {
    Select(Store(Region("m"), Int(0), t), Int(0))
  }

  /** `y == p` and `z == select(store(m, 0, y), 0)`: both locals are defined. */
  const HIDDEN_LOCAL :=
    And([Cmp(Eq, TVar(IntVar(Y)), P), Cmp(Eq, TVar(IntVar(Z)), Stored(TVar(IntVar(Y))))])

  const HIDDEN_DEFS: Definitions := map[Y := P, Z := Stored(TVar(IntVar(Y)))]

  lemma {:induction false} JoinRemaining(iface: Interface, conj: bool, items: seq<Formula>)
    requires forall f | f in items :: Remaining(iface, f) == {}
    ensures Remaining(iface, Join(conj, items)) == {}
  {
    FlattenMembers(conj, items);
    if Zero(conj) !in items {
      forall g | g in Flatten(conj, items).value ensures Remaining(iface, g) == {} {
        var f :| f in items && g in Parts(conj, f);
        assert Remaining(iface, g) <= Remaining(iface, f);
      }
    }
  }

  lemma StoredValue(t: Term, s: State)
    ensures EvalT(Stored(t), s) == EvalT(t, s)
  {
    assert EvalT(Int(0), s) == 0;
    assert Read(Store(Region("m"), Int(0), t), s, 0) == EvalT(t, s);
  }

  lemma HiddenDefinitions()
    ensures Collected(Interface("P", {}), HIDDEN_LOCAL, map[]) == HIDDEN_DEFS && Round(HIDDEN_DEFS) == HIDDEN_DEFS
  {
    var iface, items := Interface("P", {}), HIDDEN_LOCAL.items;
    assert "P" + "$%" == "P$%" && ("P" + "$__retval")[2] == '_';
    assert !iface.Keeps(Y) && !iface.Keeps(Z) && iface.Keeps("p");
    assert items[..1] == [items[0]] && [items[0]][..0] == [];
    assert CollectedAll(iface, [], map[]) == map[];
    assert Collected(iface, items[0], map[]) == map[Y := P];
    assert CollectedAll(iface, items[..1], map[]) == Collected(iface, items[0], CollectedAll(iface, [], map[]));
    assert Collected(iface, items[1], map[Y := P]) == HIDDEN_DEFS;
    assert CollectedAll(iface, items, map[]) == Collected(iface, items[1], CollectedAll(iface, items[..1], map[]));
    assert Expand(HIDDEN_DEFS, P) == P;
  }

  /** Collection finds both definitions and resolution leaves them as they are, because it does not
      enter the memory of a `select`. So `z` keeps its definition by `y`, which comes back after
      `y` was eliminated and which the final check does not see: the result rejects states that
      extend to a model. The order is that of the source's sorted map. */
  lemma HiddenLocalSurvives(s: State)
    requires s.ints(IntVar("p")) == 0 && s.ints(IntVar(Y)) == 1
    ensures Collected(Interface("P", {}), HIDDEN_LOCAL, map[]) == HIDDEN_DEFS && Round(HIDDEN_DEFS) == HIDDEN_DEFS
    ensures var g := InTurn([Y, Z], HIDDEN_DEFS, HIDDEN_LOCAL);
            Remaining(Interface("P", {}), g) == {} && Extendable(HIDDEN_LOCAL, {Y, Z}, s) && !Eval(g, s)
  {
    HiddenDefinitions();
    var y, z := TVar(IntVar(Y)), TVar(IntVar(Z));
    var first := Apply(VarBy(IntVar(Y), P), HIDDEN_LOCAL);
    HiddenInTurn();
    HiddenResult();
    // The result is false in `s`, where `y` differs from `p`.
    var t := s.SetInt(IntVar(Z), 1);
    var u := t.SetInt(IntVar(Y), 0);
    StoredValue(y, s);
    Substituted(VarBy(IntVar(Z), Stored(y)), first, s);
    Substituted(VarBy(IntVar(Y), P), HIDDEN_LOCAL, t);
    HiddenMeaning(u);
    // Setting both locals to zero gives a model.
    var m := s.SetInt(IntVar(Y), 0).SetInt(IntVar(Z), 0);
    HiddenMeaning(m);
    assert SameExcept(s, m, Eliminated({Y, Z}));
  }

  lemma HiddenInTurn()
    ensures InTurn([Y, Z], HIDDEN_DEFS, HIDDEN_LOCAL) ==
            Apply(VarBy(IntVar(Z), Stored(TVar(IntVar(Y)))), Apply(VarBy(IntVar(Y), P), HIDDEN_LOCAL))
  {
    assert [Y, Z][..1] == [Y] && [Y][..0] == [];
    assert InTurn([], HIDDEN_DEFS, HIDDEN_LOCAL) == HIDDEN_LOCAL;
    assert InTurn([Y], HIDDEN_DEFS, HIDDEN_LOCAL) == Apply(VarBy(IntVar(Y), HIDDEN_DEFS[Y]), HIDDEN_LOCAL);
    assert HIDDEN_DEFS[Y] == P && HIDDEN_DEFS[Z] == Stored(TVar(IntVar(Y)));
  }

  lemma HiddenMeaning(s: State)
    ensures Eval(HIDDEN_LOCAL, s) <==>
            s.ints(IntVar(Y)) == s.ints(IntVar("p")) && s.ints(IntVar(Z)) == s.ints(IntVar(Y))
  {
    var y, z := TVar(IntVar(Y)), TVar(IntVar(Z));
    StoredValue(y, s);
    assert EvalT(y, s) == s.ints(IntVar(Y)) && EvalT(z, s) == s.ints(IntVar(Z)) && EvalT(P, s) == s.ints(IntVar("p"));
    var items := HIDDEN_LOCAL.items;
    assert items[0] in items && items[1] in items;
    assert Eval(items[0], s) <==> s.ints(IntVar(Y)) == s.ints(IntVar("p"));
    assert Eval(items[1], s) <==> s.ints(IntVar(Z)) == s.ints(IntVar(Y));
  }

  lemma HiddenFirst()
    ensures Apply(VarBy(IntVar(Y), P), HIDDEN_LOCAL) == And([Cmp(Eq, P, P), Cmp(Eq, TVar(IntVar(Z)), Stored(P))])
  {
    var z, sub := TVar(IntVar(Z)), VarBy(IntVar(Y), P);
    var a, b := Cmp(Eq, P, P), Cmp(Eq, z, Stored(P));
    StoredApplied(sub, TVar(IntVar(Y)));
    assert Apply(sub, HIDDEN_LOCAL.items[0]) == a && Apply(sub, HIDDEN_LOCAL.items[1]) == b;
    assert seq(2, i requires 0 <= i < 2 => Apply(sub, HIDDEN_LOCAL.items[i])) == [a, b];
    TwoOperands(a, b);
  }

  lemma HiddenResult()
    ensures var first := Apply(VarBy(IntVar(Y), P), HIDDEN_LOCAL);
            Remaining(Interface("P", {}), Apply(VarBy(IntVar(Z), Stored(TVar(IntVar(Y)))), first)) == {}
  {
    var y, z, iface := TVar(IntVar(Y)), TVar(IntVar(Z)), Interface("P", {});
    var sub := VarBy(IntVar(Z), Stored(y));
    var a, b, c := Cmp(Eq, P, P), Cmp(Eq, z, Stored(P)), Cmp(Eq, Stored(y), Stored(P));
    HiddenFirst();
    StoredApplied(sub, P);
    assert Apply(sub, a) == a && Apply(sub, b) == c;
    assert seq(2, i requires 0 <= i < 2 => Apply(sub, [a, b][i])) == [a, c];
    assert RemainingT(iface, Int(0)) == {} && RemainingT(iface, P) == {};
    JoinRemaining(iface, true, [a, c]);
  }

  lemma StoredApplied(sub: Subst, t: Term)
    requires sub.VarBy?
    ensures ApplyT(sub, Stored(t)) == Stored(ApplyT(sub, t))
  {
    assert ApplyT(sub, Int(0)) == Int(0) && ApplyM(sub, Region("m")) == Region("m");
    assert ApplyM(sub, Store(Region("m"), Int(0), t)) == Store(Region("m"), Int(0), ApplyT(sub, t));
  }

  lemma TwoOperands(a: Formula, b: Formula)
    requires a.Cmp? && b.Cmp? && a != b
    ensures AndMany([a, b]) == And([a, b])
  {
    assert [a, b][..1] == [a] && [a][..0] == [] && [b][..0] == [];
    assert AddAll([], [a]) == [a] && AddAll([a], [b]) == [a] + [b];
    assert Flatten(true, [a]) == Some([a]);
    assert Flatten(true, [a, b]) == Some([a] + [b]);
  }

  // ---- Summaries from projected formulas ------------------------------------------------------

  /** The procedure as seen by one who does not know the locals before and after a run. */
  ghost function Blurred(runs: Relation, preLocals: set<string>, postLocals: set<string>): Relation {
    (m: State, n: State) =>
      exists s: State, t: State ::
        runs(s, t) && SameExcept(s, m, Eliminated(preLocals)) && SameExcept(t, n, Eliminated(postLocals))
  }

  lemma ItselfProjects(summary: Formula, query: Formula, locals: set<string>, s: State)
    requires Projects(summary, query, locals) && Eval(query, s)
    ensures Eval(summary, s)
  {
    assert SameExcept(s, s, Eliminated(locals));
  }

  /** Projection keeps a Must summary valid, for every procedure. */
  lemma ProjectedMustValid(
      runs: Relation, query: Contract, summary: Contract, preLocals: set<string>, postLocals: set<string>)
    requires Projects(summary.pre, query.pre, preLocals) && Projects(summary.post, query.post, postLocals)
    requires Valid(Must, runs, query)
    ensures Valid(Must, runs, summary)
  {
    var s, t :| runs(s, t) && Eval(query.pre, s) && Eval(query.post, t);
    ItselfProjects(summary.pre, query.pre, preLocals, s);
    ItselfProjects(summary.post, query.post, postLocals, t);
  }

  lemma BlurredRun(runs: Relation, pre: set<string>, post: set<string>, s: State, t: State, m: State, n: State)
    requires runs(s, t) && SameExcept(s, m, Eliminated(pre)) && SameExcept(t, n, Eliminated(post))
    ensures Blurred(runs, pre, post)(m, n)
  {
  }

  lemma SharpRun(runs: Relation, pre: set<string>, post: set<string>, m: State, n: State)
    returns (s: State, t: State)
    requires Blurred(runs, pre, post)(m, n)
    ensures runs(s, t) && SameExcept(s, m, Eliminated(pre)) && SameExcept(t, n, Eliminated(post))
  {
    s, t :| runs(s, t) && SameExcept(s, m, Eliminated(pre)) && SameExcept(t, n, Eliminated(post));
  }

  /** A projected NotMay summary is valid exactly when the query is valid of the procedure with the
      eliminated locals forgotten at both ends. */
  lemma ProjectedNotMayExact(
      runs: Relation, query: Contract, summary: Contract, preLocals: set<string>, postLocals: set<string>)
    requires Projects(summary.pre, query.pre, preLocals) && Projects(summary.post, query.post, postLocals)
    ensures Valid(NotMay, runs, summary) <==> Valid(NotMay, Blurred(runs, preLocals, postLocals), query)
  {
    var blurred := Blurred(runs, preLocals, postLocals);
    if Valid(NotMay, blurred, query) {
      forall s, t | runs(s, t) && Eval(summary.pre, s) ensures !Eval(summary.post, t) {
        if Eval(summary.post, t) {
          var m, n := Extended(query.pre, preLocals, s), Extended(query.post, postLocals, t);
          BlurredRun(runs, preLocals, postLocals, s, t, m, n);
        }
      }
    }
    if Valid(NotMay, runs, summary) {
      forall m, n | blurred(m, n) && Eval(query.pre, m) ensures !Eval(query.post, n) {
        if Eval(query.post, n) {
          var s, t := SharpRun(runs, preLocals, postLocals, m, n);
          assert Extendable(query.pre, preLocals, s) && Extendable(query.post, postLocals, t);
        }
      }
    }
  }

  ghost function Extended(f: Formula, locals: set<string>, s: State): (m: State)
    requires Extendable(f, locals, s)
    ensures SameExcept(s, m, Eliminated(locals)) && Eval(f, m)
  {
    var m: State :| SameExcept(s, m, Eliminated(locals)) && Eval(f, m);
    m
  }

  /** Every run starts and ends in states that satisfy the definitions, as they do when the
      equalities in the query are those of the procedure's own single assignments. */
  ghost predicate RunsDefined(runs: Relation, pre: Definitions, post: Definitions) {
    forall s, t | runs(s, t) :: Holds(pre, s) && Holds(post, t)
  }

  lemma ProjectedNotMayDefined(
      runs: Relation, query: Contract, summary: Contract, pre: Definitions, post: Definitions)
    requires AgreesWhereDefined(summary.pre, query.pre, pre) && AgreesWhereDefined(summary.post, query.post, post)
    requires RunsDefined(runs, pre, post)
    ensures Valid(NotMay, runs, summary) <==> Valid(NotMay, runs, query)
  {
    forall s, t | runs(s, t)
      ensures Eval(summary.pre, s) <==> Eval(query.pre, s)
      ensures Eval(summary.post, t) <==> Eval(query.post, t)
    {
      assert Holds(pre, s) && Holds(post, t);
    }
  }

  /** `create_notmay_summary` and `create_must_summary`: both project the two formulas of the query.
      Must summaries stay valid. NotMay summaries are valid exactly when the query holds of the
      procedure seen without its locals, which follows from the query when the definitions used in
      the projection are true of the procedure's runs. */
  method CreateSummary(query: Contract, iface: Interface) returns (summary: Option<Contract>)
    ensures Eliminable(iface, query.pre) && Eliminable(iface, query.post) ==> summary.Some?
    ensures summary.Some? && Tidy(query.pre) && Tidy(query.post) ==>
              forall runs: Relation ::
                (Valid(Must, runs, query) ==> Valid(Must, runs, summary.value))
                && (Valid(NotMay, runs, summary.value) <==>
                    Valid(NotMay, Blurred(runs, Locals(iface, query.pre), Locals(iface, query.post)), query))
                && (RunsDefined(runs, Collected(iface, query.pre, map[]), Collected(iface, query.post, map[])) ==>
                      (Valid(NotMay, runs, summary.value) <==> Valid(NotMay, runs, query)))
  {
    var pre := ProjectToInterface(query.pre, iface);
    if pre.None? {
      return None;
    }
    var post := ProjectToInterface(query.post, iface);
    if post.None? {
      return None;
    }
    var projected := Contract(pre.value, post.value);
    summary := Some(projected);
    if Tidy(query.pre) && Tidy(query.post) {
      ghost var defs, defs' := Collected(iface, query.pre, map[]), Collected(iface, query.post, map[]);
      forall runs: Relation
        ensures Valid(Must, runs, query) ==> Valid(Must, runs, projected)
        ensures Valid(NotMay, runs, projected) <==> Valid(NotMay, Blurred(runs, defs.Keys, defs'.Keys), query)
        ensures RunsDefined(runs, defs, defs') ==> (Valid(NotMay, runs, projected) <==> Valid(NotMay, runs, query))
      {
        if Valid(Must, runs, query) {
          ProjectedMustValid(runs, query, projected, defs.Keys, defs'.Keys);
        }
        ProjectedNotMayExact(runs, query, projected, defs.Keys, defs'.Keys);
        if RunsDefined(runs, defs, defs') {
          ProjectedNotMayDefined(runs, query, projected, defs, defs');
        }
      }
    }
  }

  /** The procedure that sets its local to `p + 1`. */
  ghost function Increment(): Relation {
    (s: State, t: State) => t == s.SetInt(IntVar(Y), s.ints(IntVar("p")) + 1)
  }

  const Y_IS_P := Cmp(Eq, TVar(IntVar(Y)), P)
  const P_IS_FIVE := Cmp(Eq, P, Int(5))

  /** The local is `p`, and `p` is 5. */
  const WRONG_LOCAL := And([Y_IS_P, P_IS_FIVE])

  lemma WrongDefinitions()
    ensures Collected(Interface("P", {}), WRONG_LOCAL, map[]) == map[Y := P] && Round(map[Y := P]) == map[Y := P]
    ensures Remaining(Interface("P", {}), Apply(VarBy(IntVar(Y), P), WRONG_LOCAL)) == {}
  {
    var iface, items, sub := Interface("P", {}), WRONG_LOCAL.items, VarBy(IntVar(Y), P);
    assert "P" + "$%" == "P$%" && ("P" + "$__retval")[2] == '_';
    assert !iface.Keeps(Y) && iface.Keeps("p");
    assert items[..1] == [items[0]] && [items[0]][..0] == [];
    assert CollectedAll(iface, items[..1], map[]) == Collected(iface, items[0], CollectedAll(iface, [], map[]));
    assert CollectedAll(iface, items, map[]) == Collected(iface, items[1], CollectedAll(iface, items[..1], map[]));
    assert Expand(map[Y := P], P) == P;
    assert ApplyT(sub, TVar(IntVar(Y))) == P && ApplyT(sub, P) == P && ApplyT(sub, Int(5)) == Int(5);
    assert Apply(sub, items[0]) == Cmp(Eq, P, P) && Apply(sub, items[1]) == P_IS_FIVE;
    assert seq(2, i requires 0 <= i < 2 => Apply(sub, items[i])) == [Cmp(Eq, P, P), P_IS_FIVE];
    assert RemainingT(iface, P) == {} && RemainingT(iface, Int(5)) == {};
    JoinRemaining(iface, true, [Cmp(Eq, P, P), P_IS_FIVE]);
  }

  lemma WrongMeaning(s: State)
    ensures Eval(WRONG_LOCAL, s) <==> s.ints(IntVar(Y)) == s.ints(IntVar("p")) == 5
  {
    var items := WRONG_LOCAL.items;
    assert items[0] in items && items[1] in items;
    assert EvalT(TVar(IntVar(Y)), s) == s.ints(IntVar(Y)) && EvalT(P, s) == s.ints(IntVar("p"))
           && EvalT(Int(5), s) == 5;
    assert Eval(items[0], s) <==> s.ints(IntVar(Y)) == s.ints(IntVar("p"));
    assert Eval(items[1], s) <==> s.ints(IntVar("p")) == 5;
  }

  /** In general a valid NotMay query does not give a valid summary: no run of `Increment` ends with
      the local equal to `p`, but the projection takes that equality for the local's definition
      and promises that no run ends with `p` equal to 5. */
  lemma ProjectedNotMayFails(s: State)
    requires s.ints(IntVar("p")) == 5
    ensures var g := Apply(VarBy(IntVar(Y), P), WRONG_LOCAL);
            Collected(Interface("P", {}), WRONG_LOCAL, map[]) == map[Y := P]
            && InTurn([Y], map[Y := P], WRONG_LOCAL) == g
            && Remaining(Interface("P", {}), g) == {}
            && Valid(NotMay, Increment(), Contract(True, WRONG_LOCAL))
            && !Valid(NotMay, Increment(), Contract(True, g))
  {
    var g := Apply(VarBy(IntVar(Y), P), WRONG_LOCAL);
    WrongDefinitions();
    assert [Y][..0] == [] && InTurn([], map[Y := P], WRONG_LOCAL) == WRONG_LOCAL;
    assert |"p"| == 1 && |Y| == 4 && IntVar("p") != IntVar(Y);
    forall m, n: State | Increment()(m, n) ensures !Eval(WRONG_LOCAL, n) {
      var after := m.SetInt(IntVar(Y), m.ints(IntVar("p")) + 1);
      assert n == after;
      assert after.ints(IntVar("p")) == m.ints(IntVar("p")) && after.ints(IntVar(Y)) == m.ints(IntVar("p")) + 1;
      WrongMeaning(n);
    }
    var t := s.SetInt(IntVar(Y), 6);
    Substituted(VarBy(IntVar(Y), P), WRONG_LOCAL, t);
    assert EvalT(P, t) == 5;
    WrongMeaning(t.SetInt(IntVar(Y), 5));
    assert Increment()(s, t) && Eval(True, s) && Eval(g, t);
  }
}
