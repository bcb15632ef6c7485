/** The three substitution families of src/cfg/abstract_cfg.rs. One datatype says which family a
    substitution belongs to; like the source, a Boolean substitution does not descend into terms. */
module Substitution {
  import opened Formulas
  import opened Semantics

  datatype Subst =
    | VarBy(v: Var, e: Term)
    | BoolBy(v: Var, g: Formula)
    | RegionBy(region: string, m: Memory)

  function Apply(sub: Subst, f: Formula): Formula
    decreases f
  {
    match f
    case True => True
    case False => False
    case FVar(w) => if sub.BoolBy? && w == sub.v then sub.g else f
    case Not(g) => Not(Apply(sub, g))
    case And(items) =>
      AndMany(seq(|items|, i requires 0 <= i < |items| => Apply(sub, items[i])))
    case Or(items) =>
      OrMany(seq(|items|, i requires 0 <= i < |items| => Apply(sub, items[i])))
    case Implies(lhs, rhs) => ImpliesOf(Apply(sub, lhs), Apply(sub, rhs))
    case Cmp(op, l, r) => Cmp(op, ApplyT(sub, l), ApplyT(sub, r))
    case MemoryEq(ml, mr) => MemoryEq(ApplyM(sub, ml), ApplyM(sub, mr))
  }

  function ApplyT(sub: Subst, t: Term): Term
    decreases t
  {
    if sub.BoolBy? then t else
    match t
    case TVar(w) => if sub.VarBy? && w == sub.v then sub.e else t
    case Int(_) => t
    case BoolToInt(f) => BoolToInt(Apply(sub, f))
    case Select(m, i) => Select(ApplyM(sub, m), ApplyT(sub, i))
    case Bin(op, l, r) => Bin(op, ApplyT(sub, l), ApplyT(sub, r))
    case Neg(u) => Neg(ApplyT(sub, u))
  }

  function ApplyM(sub: Subst, m: Memory): Memory
    decreases m
  {
    if sub.BoolBy? then m else
    match m
    case Region(r) => if sub.RegionBy? && r == sub.region then sub.m else m
    case Store(inner, i, x) => Store(ApplyM(sub, inner), ApplyT(sub, i), ApplyT(sub, x))
  }

  /** The state in which the original is read when the substituted formula is read in `s`. */
  ghost function Updated(sub: Subst, s: State): State {
    match sub
    case VarBy(v, e) => s.SetInt(v, EvalT(e, s))
    case BoolBy(v, g) => s.SetBool(v, Eval(g, s))
    case RegionBy(region, m) => s.SetRegion(region, m)
  }

  /** Names under a `BoolToInt`, where a Boolean substitution does not look. */
  function Hidden(f: Formula): set<Name> {
    match f
    case True => {}
    case False => {}
    case FVar(_) => {}
    case Not(g) => Hidden(g)
    case And(items) => set i, n | 0 <= i < |items| && n in Hidden(items[i]) :: n
    case Or(items) => set i, n | 0 <= i < |items| && n in Hidden(items[i]) :: n
    case Implies(lhs, rhs) => Hidden(lhs) + Hidden(rhs)
    case Cmp(_, l, r) => HiddenT(l) + HiddenT(r)
    case MemoryEq(ml, mr) => HiddenM(ml) + HiddenM(mr)
  }

  function HiddenT(t: Term): set<Name> {
    match t
    case TVar(_) => {}
    case Int(_) => {}
    case BoolToInt(f) => BoolNames(f) + Hidden(f)
    case Select(m, i) => HiddenM(m) + HiddenT(i)
    case Bin(_, l, r) => HiddenT(l) + HiddenT(r)
    case Neg(u) => HiddenT(u)
  }

  function HiddenM(m: Memory): set<Name> {
    match m
    case Region(_) => {}
    case Store(inner, i, x) => HiddenM(inner) + HiddenT(i) + HiddenT(x)
  }

  /** The variables a formula reads as Booleans outside its terms. */
  function BoolNames(f: Formula): set<Name> {
    match f
    case FVar(v) => {Scalar(v)}
    case Not(g) => BoolNames(g)
    case And(items) => set i, n | 0 <= i < |items| && n in BoolNames(items[i]) :: n
    case Or(items) => set i, n | 0 <= i < |items| && n in BoolNames(items[i]) :: n
    case Implies(lhs, rhs) => BoolNames(lhs) + BoolNames(rhs)
    case _ => {}
  }

  ghost predicate Reaches(sub: Subst, hidden: set<Name>) {
    sub.BoolBy? ==> Scalar(sub.v) !in hidden
  }

  /** Substitution lemma: evaluating the result is evaluating the original in the updated state,
      through the simplifying constructors, nested stores and memory equalities. A Boolean target
      must not occur under `BoolToInt`. */
  lemma {:induction false} Substituted(sub: Subst, f: Formula, s: State)
    requires Reaches(sub, Hidden(f))
    ensures Eval(Apply(sub, f), s) <==> Eval(f, Updated(sub, s))
    decreases f
  {
    match f
    case True =>
    case False =>
    case FVar(_) =>
    case Not(g) => Substituted(sub, g, s);
    case And(items) => SubstitutedAll(sub, f, items, true, s);
    case Or(items) => SubstitutedAll(sub, f, items, false, s);
    case Implies(lhs, rhs) =>
      Substituted(sub, lhs, s);
      Substituted(sub, rhs, s);
    case Cmp(_, l, r) =>
      SubstitutedT(sub, l, s);
      SubstitutedT(sub, r, s);
    case MemoryEq(ml, mr) =>
      forall at
        ensures Read(ApplyM(sub, ml), s, at) == Read(ml, Updated(sub, s), at)
        ensures Read(ApplyM(sub, mr), s, at) == Read(mr, Updated(sub, s), at)
      {
        SubstitutedM(sub, ml, s, at);
        SubstitutedM(sub, mr, s, at);
      }
  }

  lemma {:induction false} SubstitutedAll(sub: Subst, f: Formula, items: seq<Formula>, conj: bool, s: State)
    requires f == (if conj then And(items) else Or(items)) && Reaches(sub, Hidden(f))
    ensures Eval(Apply(sub, f), s) <==> Eval(f, Updated(sub, s))
    decreases f, 0
  {
    var mapped := seq(|items|, i requires 0 <= i < |items| => Apply(sub, items[i]));
    JoinMeaning(conj, mapped, s);
    forall i | 0 <= i < |items|
      ensures items[i] in items && mapped[i] in mapped
      ensures Eval(mapped[i], s) <==> Eval(items[i], Updated(sub, s))
    {
      assert Hidden(items[i]) <= Hidden(f);
      Substituted(sub, items[i], s);
    }
  }

  lemma {:induction false} SubstitutedT(sub: Subst, t: Term, s: State)
    requires Reaches(sub, HiddenT(t))
    ensures EvalT(ApplyT(sub, t), s) == EvalT(t, Updated(sub, s))
    decreases t
  {
    match t
    case TVar(_) =>
    case Int(_) =>
    case BoolToInt(f) =>
      if sub.BoolBy? {
        UnreadBool(sub.v, f, s, Eval(sub.g, s));
      } else {
        Substituted(sub, f, s);
      }
    case Select(m, i) =>
      SubstitutedT(sub, i, s);
      SubstitutedM(sub, m, s, EvalT(ApplyT(sub, i), s));
    case Bin(_, l, r) =>
      SubstitutedT(sub, l, s);
      SubstitutedT(sub, r, s);
    case Neg(u) => SubstitutedT(sub, u, s);
  }

  lemma {:induction false} SubstitutedM(sub: Subst, m: Memory, s: State, at: int)
    requires Reaches(sub, HiddenM(m))
    ensures Read(ApplyM(sub, m), s, at) == Read(m, Updated(sub, s), at)
    decreases m
  {
    match m
    case Region(_) =>
    case Store(inner, i, x) =>
      SubstitutedM(sub, inner, s, at);
      SubstitutedT(sub, i, s);
      SubstitutedT(sub, x, s);
  }

  /** A formula that reads `v` as a Boolean nowhere does not see a change of that Boolean. */
  lemma {:induction false} UnreadBool(v: Var, f: Formula, s: State, b: bool)
    requires Scalar(v) !in BoolNames(f) + Hidden(f)
    ensures Eval(f, s.SetBool(v, b)) <==> Eval(f, s)
    decreases f
  {
    match f
    case True =>
    case False =>
    case FVar(_) =>
    case Not(g) => UnreadBool(v, g, s, b);
    case And(items) =>
      forall i | 0 <= i < |items| ensures Eval(items[i], s.SetBool(v, b)) <==> Eval(items[i], s) {
        assert BoolNames(items[i]) <= BoolNames(f) && Hidden(items[i]) <= Hidden(f);
        UnreadBool(v, items[i], s, b);
      }
    case Or(items) =>
      forall i | 0 <= i < |items| ensures Eval(items[i], s.SetBool(v, b)) <==> Eval(items[i], s) {
        assert BoolNames(items[i]) <= BoolNames(f) && Hidden(items[i]) <= Hidden(f);
        UnreadBool(v, items[i], s, b);
      }
    case Implies(lhs, rhs) =>
      UnreadBool(v, lhs, s, b);
      UnreadBool(v, rhs, s, b);
    case Cmp(_, l, r) =>
      SubstitutedT(BoolBy(v, if b then True else False), l, s);
      SubstitutedT(BoolBy(v, if b then True else False), r, s);
    case MemoryEq(ml, mr) =>
      forall at
        ensures Read(ml, s.SetBool(v, b), at) == Read(ml, s, at)
        ensures Read(mr, s.SetBool(v, b), at) == Read(mr, s, at)
      {
        SubstitutedM(BoolBy(v, if b then True else False), ml, s, at);
        SubstitutedM(BoolBy(v, if b then True else False), mr, s, at);
      }
  }

  /** Without that condition the substitution lemma fails: substituting True for `b` in
      `BoolToInt(b) == 1` changes nothing, yet the original holds once `b` is true. */
  lemma HiddenTargetMissed(s: State)
    ensures var b := Var("b", BoolSort);
            var f := Cmp(Eq, BoolToInt(FVar(b)), Int(1));
            !s.bools(b) ==>
              Eval(f, Updated(BoolBy(b, True), s)) && !Eval(Apply(BoolBy(b, True), f), s)
  {
    var b := Var("b", BoolSort);
    var t := BoolToInt(FVar(b));
    assert Apply(BoolBy(b, True), Cmp(Eq, t, Int(1))) == Cmp(Eq, t, Int(1));
    assert Eval(FVar(b), s) == s.bools(b);
    assert EvalT(t, s) == if s.bools(b) then 1 else 0;
    assert EvalT(t, s.SetBool(b, true)) == 1;
  }

  // ---- Normal form and names ----------------------------------------------------------------

  ghost predicate NormalSubst(sub: Subst) {
    match sub
    case VarBy(_, e) => NormalTerm(e)
    case BoolBy(_, g) => Normal(g)
    case RegionBy(_, m) => NormalMemory(m)
  }

  /** All three families return normal formulas; a Boolean substitution copies terms, so it needs
      a normal formula to begin with. */
  lemma {:induction false} AppliedNormal(sub: Subst, f: Formula)
    requires NormalSubst(sub) && (sub.BoolBy? ==> Normal(f))
    ensures Normal(Apply(sub, f))
    decreases f
  {
    match f
    case True =>
    case False =>
    case FVar(_) =>
    case Not(g) => AppliedNormal(sub, g);
    case And(items) =>
      forall i | 0 <= i < |items| ensures Normal(Apply(sub, items[i])) {
        AppliedNormal(sub, items[i]);
      }
      JoinNormal(true, seq(|items|, i requires 0 <= i < |items| => Apply(sub, items[i])));
    case Or(items) =>
      forall i | 0 <= i < |items| ensures Normal(Apply(sub, items[i])) {
        AppliedNormal(sub, items[i]);
      }
      JoinNormal(false, seq(|items|, i requires 0 <= i < |items| => Apply(sub, items[i])));
    case Implies(lhs, rhs) =>
      AppliedNormal(sub, lhs);
      AppliedNormal(sub, rhs);
    case Cmp(_, l, r) =>
      AppliedNormalT(sub, l);
      AppliedNormalT(sub, r);
    case MemoryEq(ml, mr) =>
      AppliedNormalM(sub, ml);
      AppliedNormalM(sub, mr);
  }

  lemma {:induction false} AppliedNormalT(sub: Subst, t: Term)
    requires NormalSubst(sub) && (sub.BoolBy? ==> NormalTerm(t))
    ensures NormalTerm(ApplyT(sub, t))
    decreases t
  {
    if !sub.BoolBy? {
      match t
      case TVar(_) =>
      case Int(_) =>
      case BoolToInt(f) => AppliedNormal(sub, f);
      case Select(m, i) =>
        AppliedNormalM(sub, m);
        AppliedNormalT(sub, i);
      case Bin(_, l, r) =>
        AppliedNormalT(sub, l);
        AppliedNormalT(sub, r);
      case Neg(u) => AppliedNormalT(sub, u);
    }
  }

  lemma {:induction false} AppliedNormalM(sub: Subst, m: Memory)
    requires NormalSubst(sub) && (sub.BoolBy? ==> NormalMemory(m))
    ensures NormalMemory(ApplyM(sub, m))
    decreases m
  {
    if !sub.BoolBy? {
      match m
      case Region(_) =>
      case Store(inner, i, x) =>
        AppliedNormalM(sub, inner);
        AppliedNormalT(sub, i);
        AppliedNormalT(sub, x);
    }
  }

  function Inserted(sub: Subst): set<Name> {
    match sub
    case VarBy(_, e) => NamesT(e)
    case BoolBy(_, g) => Names(g)
    case RegionBy(_, m) => NamesM(m)
  }
}
