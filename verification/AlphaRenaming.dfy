/** Alpha-renaming, src/formula/alpha_rename.rs: one function for scalar names, one for regions. */
module AlphaRenaming {
  import opened Formulas
  import opened Semantics
  import opened Substitution
  import opened Transfer

  datatype Renamer = Renamer(scalar: string -> string, region: string -> string)
  {
    function OfVar(v: Var): Var {
      Var(scalar(v.name), v.sort)
    }
  }

  function Rename(rn: Renamer, f: Formula): Formula
    decreases f
  {
    match f
    case True => True
    case False => False
    case FVar(v) => FVar(rn.OfVar(v))
    case Not(g) => Not(Rename(rn, g))
    case And(items) => And(RenameAll(rn, items))
    case Or(items) => Or(RenameAll(rn, items))
    case Implies(lhs, rhs) => Implies(Rename(rn, lhs), Rename(rn, rhs))
    case Cmp(op, l, r) => Cmp(op, RenameT(rn, l), RenameT(rn, r))
    case MemoryEq(ml, mr) => MemoryEq(RenameM(rn, ml), RenameM(rn, mr))
  }

  function RenameAll(rn: Renamer, items: seq<Formula>): (renamed: seq<Formula>)
    ensures |renamed| == |items|
    decreases items
  {
    seq(|items|, i requires 0 <= i < |items| => Rename(rn, items[i]))
  }

  function RenameT(rn: Renamer, t: Term): Term
    decreases t
  {
    match t
    case TVar(v) => TVar(rn.OfVar(v))
    case Int(_) => t
    case BoolToInt(f) => BoolToInt(Rename(rn, f))
    case Select(m, i) => Select(RenameM(rn, m), RenameT(rn, i))
    case Bin(op, l, r) => Bin(op, RenameT(rn, l), RenameT(rn, r))
    case Neg(u) => Neg(RenameT(rn, u))
  }

  function RenameM(rn: Renamer, m: Memory): Memory
    decreases m
  {
    match m
    case Region(r) => Region(rn.region(r))
    case Store(inner, i, x) => Store(RenameM(rn, inner), RenameT(rn, i), RenameT(rn, x))
  }

  // ---- Meaning --------------------------------------------------------------------------------

  /** The state that reads every name through the renaming. */
  ghost function Composed(rn: Renamer, s: State): State {
    s.(ints := (v: Var) => s.ints(rn.OfVar(v)),
       bools := (v: Var) => s.bools(rn.OfVar(v)),
       mem := (r: string, at: int) => s.mem(rn.region(r), at))
  }

  /** A renamed formula evaluates as the original in the composed state. */
  lemma {:induction false} Renamed(rn: Renamer, f: Formula, s: State)
    ensures Eval(Rename(rn, f), s) <==> Eval(f, Composed(rn, s))
    decreases f
  {
    match f
    case True =>
    case False =>
    case FVar(_) =>
    case Not(g) => Renamed(rn, g, s);
    case And(items) =>
      forall i | 0 <= i < |items|
        ensures items[i] in items && RenameAll(rn, items)[i] in RenameAll(rn, items)
        ensures Eval(RenameAll(rn, items)[i], s) <==> Eval(items[i], Composed(rn, s))
      {
        Renamed(rn, items[i], s);
      }
    case Or(items) =>
      forall i | 0 <= i < |items|
        ensures items[i] in items && RenameAll(rn, items)[i] in RenameAll(rn, items)
        ensures Eval(RenameAll(rn, items)[i], s) <==> Eval(items[i], Composed(rn, s))
      {
        Renamed(rn, items[i], s);
      }
    case Implies(lhs, rhs) =>
      Renamed(rn, lhs, s);
      Renamed(rn, rhs, s);
    case Cmp(_, l, r) =>
      RenamedT(rn, l, s);
      RenamedT(rn, r, s);
    case MemoryEq(ml, mr) =>
      forall at
        ensures Read(RenameM(rn, ml), s, at) == Read(ml, Composed(rn, s), at)
        ensures Read(RenameM(rn, mr), s, at) == Read(mr, Composed(rn, s), at)
      {
        RenamedM(rn, ml, s, at);
        RenamedM(rn, mr, s, at);
      }
  }

  lemma {:induction false} RenamedT(rn: Renamer, t: Term, s: State)
    ensures EvalT(RenameT(rn, t), s) == EvalT(t, Composed(rn, s))
    decreases t
  {
    match t
    case TVar(_) =>
    case Int(_) =>
    case BoolToInt(f) => Renamed(rn, f, s);
    case Select(m, i) =>
      RenamedT(rn, i, s);
      RenamedM(rn, m, s, EvalT(RenameT(rn, i), s));
    case Bin(_, l, r) =>
      RenamedT(rn, l, s);
      RenamedT(rn, r, s);
    case Neg(u) => RenamedT(rn, u, s);
  }

  lemma {:induction false} RenamedM(rn: Renamer, m: Memory, s: State, at: int)
    ensures Read(RenameM(rn, m), s, at) == Read(m, Composed(rn, s), at)
    decreases m
  {
    match m
    case Region(_) =>
    case Store(inner, i, x) =>
      RenamedM(rn, inner, s, at);
      RenamedT(rn, i, s);
      RenamedT(rn, x, s);
  }

  // ---- Injective renamings --------------------------------------------------------------------

  ghost predicate Injective(rn: Renamer) {
    (forall a, b :: rn.scalar(a) == rn.scalar(b) ==> a == b)
    && forall a, b :: rn.region(a) == rn.region(b) ==> a == b
  }

  lemma {:induction false} RenameInjective(rn: Renamer, f: Formula, g: Formula)
    requires Injective(rn) && Rename(rn, f) == Rename(rn, g)
    ensures f == g
    decreases f
  {
    match f
    case True =>
    case False =>
    case FVar(_) =>
    case Not(f1) => RenameInjective(rn, f1, g.f);
    case And(items) => RenameAllInjective(rn, f, items, g.items);
    case Or(items) => RenameAllInjective(rn, f, items, g.items);
    case Implies(lhs, rhs) =>
      RenameInjective(rn, lhs, g.lhs);
      RenameInjective(rn, rhs, g.rhs);
    case Cmp(_, l, r) =>
      RenameTInjective(rn, l, g.l);
      RenameTInjective(rn, r, g.r);
    case MemoryEq(ml, mr) =>
      RenameMInjective(rn, ml, g.ml);
      RenameMInjective(rn, mr, g.mr);
  }

  lemma {:induction false} RenameAllInjective(rn: Renamer, f: Formula, a: seq<Formula>, b: seq<Formula>)
    requires Injective(rn) && RenameAll(rn, a) == RenameAll(rn, b)
    requires (f.And? || f.Or?) && f.items == a
    ensures a == b
    decreases f, 0
  {
    assert |a| == |RenameAll(rn, a)| == |RenameAll(rn, b)| == |b|;
    forall i | 0 <= i < |a| ensures a[i] == b[i] {
      assert RenameAll(rn, a)[i] == Rename(rn, a[i]) && RenameAll(rn, b)[i] == Rename(rn, b[i]);
      RenameInjective(rn, a[i], b[i]);
    }
  }

  lemma {:induction false} RenameTInjective(rn: Renamer, t: Term, u: Term)
    requires Injective(rn) && RenameT(rn, t) == RenameT(rn, u)
    ensures t == u
    decreases t
  {
    match t
    case TVar(_) =>
    case Int(_) =>
    case BoolToInt(f) => RenameInjective(rn, f, u.f);
    case Select(m, i) =>
      RenameMInjective(rn, m, u.mem);
      RenameTInjective(rn, i, u.idx);
    case Bin(_, l, r) =>
      RenameTInjective(rn, l, u.l);
      RenameTInjective(rn, r, u.r);
    case Neg(t1) => RenameTInjective(rn, t1, u.t);
  }

  lemma {:induction false} RenameMInjective(rn: Renamer, m: Memory, n: Memory)
    requires Injective(rn) && RenameM(rn, m) == RenameM(rn, n)
    ensures m == n
    decreases m
  {
    match m
    case Region(_) =>
    case Store(inner, i, x) =>
      RenameMInjective(rn, inner, n.inner);
      RenameTInjective(rn, i, n.idx);
      RenameTInjective(rn, x, n.val);
  }

  // ---- Renaming commutes with the smart constructors ------------------------------------------

  lemma RenamedMember(rn: Renamer, flat: seq<Formula>, g: Formula)
    requires Injective(rn)
    ensures Rename(rn, g) in RenameAll(rn, flat) <==> g in flat
  {
    if Rename(rn, g) in RenameAll(rn, flat) {
      var i :| 0 <= i < |flat| && RenameAll(rn, flat)[i] == Rename(rn, g);
      RenameInjective(rn, flat[i], g);
    }
    if g in flat {
      var i :| 0 <= i < |flat| && flat[i] == g;
      assert RenameAll(rn, flat)[i] == Rename(rn, g);
    }
  }

  lemma {:induction false} AddAllRenamed(rn: Renamer, flat: seq<Formula>, gs: seq<Formula>)
    requires Injective(rn)
    ensures RenameAll(rn, AddAll(flat, gs)) == AddAll(RenameAll(rn, flat), RenameAll(rn, gs))
    decreases |gs|
  {
    if gs != [] {
      var front, last := gs[..|gs| - 1], gs[|gs| - 1];
      AddAllRenamed(rn, flat, front);
      assert RenameAll(rn, gs)[..|gs| - 1] == RenameAll(rn, front);
      RenamedMember(rn, AddAll(flat, front), last);
      assert RenameAll(rn, AddAll(flat, front) + [last]) == RenameAll(rn, AddAll(flat, front)) + [Rename(rn, last)];
    }
  }

  lemma PartsRenamed(rn: Renamer, conj: bool, f: Formula)
    ensures RenameAll(rn, Parts(conj, f)) == Parts(conj, Rename(rn, f))
    ensures Rename(rn, f) == Zero(conj) <==> f == Zero(conj)
  {
  }

  lemma {:induction false} FlattenRenamed(rn: Renamer, conj: bool, items: seq<Formula>)
    requires Injective(rn)
    ensures Flatten(conj, RenameAll(rn, items)).None? <==> Flatten(conj, items).None?
    ensures Flatten(conj, items).Some? ==>
              Flatten(conj, RenameAll(rn, items)) == Some(RenameAll(rn, Flatten(conj, items).value))
    decreases |items|
  {
    if items != [] {
      var front, last := items[..|items| - 1], items[|items| - 1];
      FlattenRenamed(rn, conj, front);
      assert RenameAll(rn, items)[..|items| - 1] == RenameAll(rn, front);
      PartsRenamed(rn, conj, last);
      if Flatten(conj, front).Some? {
        AddAllRenamed(rn, Flatten(conj, front).value, Parts(conj, last));
      }
    }
  }

  lemma JoinRenamed(rn: Renamer, conj: bool, items: seq<Formula>)
    requires Injective(rn)
    ensures Rename(rn, Join(conj, items)) == Join(conj, RenameAll(rn, items))
  {
    FlattenRenamed(rn, conj, items);
  }

  lemma ImpliesRenamed(rn: Renamer, lhs: Formula, rhs: Formula)
    ensures Rename(rn, ImpliesOf(lhs, rhs)) == ImpliesOf(Rename(rn, lhs), Rename(rn, rhs))
  {
  }

  // ---- Renaming commutes with substitution and wp ---------------------------------------------

  function RenameSubst(rn: Renamer, sub: Subst): Subst {
    match sub
    case VarBy(v, e) => VarBy(rn.OfVar(v), RenameT(rn, e))
    case BoolBy(v, g) => BoolBy(rn.OfVar(v), Rename(rn, g))
    case RegionBy(r, m) => RegionBy(rn.region(r), RenameM(rn, m))
  }

  lemma {:induction false} ApplyRenamed(rn: Renamer, sub: Subst, f: Formula)
    requires Injective(rn)
    ensures Rename(rn, Apply(sub, f)) == Apply(RenameSubst(rn, sub), Rename(rn, f))
    decreases f
  {
    match f
    case True =>
    case False =>
    case FVar(_) =>
    case Not(g) => ApplyRenamed(rn, sub, g);
    case And(items) => ApplyAllRenamed(rn, sub, f, items, true);
    case Or(items) => ApplyAllRenamed(rn, sub, f, items, false);
    case Implies(lhs, rhs) =>
      ApplyRenamed(rn, sub, lhs);
      ApplyRenamed(rn, sub, rhs);
      ImpliesRenamed(rn, Apply(sub, lhs), Apply(sub, rhs));
    case Cmp(_, l, r) =>
      ApplyTRenamed(rn, sub, l);
      ApplyTRenamed(rn, sub, r);
    case MemoryEq(ml, mr) =>
      ApplyMRenamed(rn, sub, ml);
      ApplyMRenamed(rn, sub, mr);
  }

  lemma {:induction false} ApplyAllRenamed(rn: Renamer, sub: Subst, f: Formula, items: seq<Formula>, conj: bool)
    requires Injective(rn) && f == (if conj then And(items) else Or(items))
    ensures Rename(rn, Apply(sub, f)) == Apply(RenameSubst(rn, sub), Rename(rn, f))
    decreases f, 0
  {
    var mapped := seq(|items|, i requires 0 <= i < |items| => Apply(sub, items[i]));
    var renamed := RenameAll(rn, items);
    var sub' := RenameSubst(rn, sub);
    JoinRenamed(rn, conj, mapped);
    forall i | 0 <= i < |items| ensures RenameAll(rn, mapped)[i] == Apply(sub', renamed[i]) {
      ApplyRenamed(rn, sub, items[i]);
    }
    assert RenameAll(rn, mapped) == seq(|renamed|, i requires 0 <= i < |renamed| => Apply(sub', renamed[i]));
  }

  lemma {:induction false} ApplyTRenamed(rn: Renamer, sub: Subst, t: Term)
    requires Injective(rn)
    ensures RenameT(rn, ApplyT(sub, t)) == ApplyT(RenameSubst(rn, sub), RenameT(rn, t))
    decreases t
  {
    match t
    case TVar(_) =>
    case Int(_) =>
    case BoolToInt(f) => ApplyRenamed(rn, sub, f);
    case Select(m, i) =>
      ApplyMRenamed(rn, sub, m);
      ApplyTRenamed(rn, sub, i);
    case Bin(_, l, r) =>
      ApplyTRenamed(rn, sub, l);
      ApplyTRenamed(rn, sub, r);
    case Neg(u) => ApplyTRenamed(rn, sub, u);
  }

  lemma {:induction false} ApplyMRenamed(rn: Renamer, sub: Subst, m: Memory)
    requires Injective(rn)
    ensures RenameM(rn, ApplyM(sub, m)) == ApplyM(RenameSubst(rn, sub), RenameM(rn, m))
    decreases m
  {
    match m
    case Region(_) =>
    case Store(inner, i, x) =>
      ApplyMRenamed(rn, sub, inner);
      ApplyTRenamed(rn, sub, i);
      ApplyTRenamed(rn, sub, x);
  }

  /** `rename_effect`: what is not listed in the source - havocs among it - is copied verbatim. */
  function RenameEffect(rn: Renamer, e: Effect): Effect {
    match e
    case Assign(v, ValueTerm(x)) => Assign(rn.OfVar(v), ValueTerm(RenameT(rn, x)))
    case Assign(v, ValueFormula(p)) => Assign(rn.OfVar(v), ValueFormula(Rename(rn, p)))
    case MemoryStore(r, o, x) => MemoryStore(rn.region(r), RenameT(rn, o), RenameT(rn, x))
    case Assume(c) => Assume(Rename(rn, c))
    case TypeBound(c) => TypeBound(Rename(rn, c))
    case Obligation(c) => Obligation(Rename(rn, c))
    case _ => e
  }

  function RenameEffects(rn: Renamer, effects: seq<Effect>): seq<Effect> {
    seq(|effects|, i requires 0 <= i < |effects| => RenameEffect(rn, effects[i]))
  }

  // ---- Havocs ---------------------------------------------------------------------------------

  lemma {:induction false} RegionRenamed(rn: Renamer, f: Formula, r: string)
    requires Injective(rn)
    ensures Mem(rn.region(r)) in Names(Rename(rn, f)) <==> Mem(r) in Names(f)
    decreases f
  {
    match f
    case True =>
    case False =>
    case FVar(_) =>
    case Not(g) => RegionRenamed(rn, g, r);
    case And(items) => RegionRenamedAll(rn, f, items, r);
    case Or(items) => RegionRenamedAll(rn, f, items, r);
    case Implies(lhs, rhs) =>
      RegionRenamed(rn, lhs, r);
      RegionRenamed(rn, rhs, r);
    case Cmp(_, l, x) =>
      RegionRenamedT(rn, l, r);
      RegionRenamedT(rn, x, r);
    case MemoryEq(ml, mr) =>
      RegionRenamedM(rn, ml, r);
      RegionRenamedM(rn, mr, r);
  }

  lemma {:induction false} RegionRenamedAll(rn: Renamer, f: Formula, items: seq<Formula>, r: string)
    requires Injective(rn) && (f == And(items) || f == Or(items))
    ensures Mem(rn.region(r)) in Names(Rename(rn, f)) <==> Mem(r) in Names(f)
    decreases f, 0
  {
    var renamed := RenameAll(rn, items);
    forall i | 0 <= i < |items| ensures Mem(rn.region(r)) in Names(renamed[i]) <==> Mem(r) in Names(items[i]) {
      RegionRenamed(rn, items[i], r);
    }
  }

  lemma {:induction false} RegionRenamedT(rn: Renamer, t: Term, r: string)
    requires Injective(rn)
    ensures Mem(rn.region(r)) in NamesT(RenameT(rn, t)) <==> Mem(r) in NamesT(t)
    decreases t
  {
    match t
    case TVar(_) =>
    case Int(_) =>
    case BoolToInt(f) => RegionRenamed(rn, f, r);
    case Select(m, i) =>
      RegionRenamedM(rn, m, r);
      RegionRenamedT(rn, i, r);
    case Bin(_, l, x) =>
      RegionRenamedT(rn, l, r);
      RegionRenamedT(rn, x, r);
    case Neg(u) => RegionRenamedT(rn, u, r);
  }

  lemma {:induction false} RegionRenamedM(rn: Renamer, m: Memory, r: string)
    requires Injective(rn)
    ensures Mem(rn.region(r)) in NamesM(RenameM(rn, m)) <==> Mem(r) in NamesM(m)
    decreases m
  {
    match m
    case Region(_) =>
    case Store(inner, i, x) =>
      RegionRenamedM(rn, inner, r);
      RegionRenamedT(rn, i, r);
      RegionRenamedT(rn, x, r);
  }

  lemma {:induction false} WithoutRenamed(rn: Renamer, r: string, items: seq<Formula>)
    requires Injective(rn)
    ensures Without(rn.region(r), RenameAll(rn, items)) == RenameAll(rn, Without(r, items))
    decreases |items|
  {
    if items != [] {
      WithoutRenamed(rn, r, items[1..]);
      RegionRenamed(rn, items[0], r);
      assert RenameAll(rn, items)[1..] == RenameAll(rn, items[1..]);
      assert RenameAll(rn, [items[0]] + Without(r, items[1..]))
             == [Rename(rn, items[0])] + RenameAll(rn, Without(r, items[1..]));
    }
  }

  /** Havoc of the renamed region commutes, whatever the renaming does to the region. */
  lemma HavocRegionRenamed(rn: Renamer, r: string, f: Formula)
    requires Injective(rn)
    ensures HavocRegion(rn.region(r), Rename(rn, f)) == Rename(rn, HavocRegion(r, f))
  {
    RegionRenamed(rn, f, r);
    if f.And? {
      WithoutRenamed(rn, r, f.items);
      JoinRenamed(rn, true, Without(r, f.items));
    }
  }

  ghost predicate Fixes(rn: Renamer, regions: seq<string>) {
    forall r | r in regions :: rn.region(r) == r
  }

  lemma {:induction false} HavocAllRenamed(rn: Renamer, regions: seq<string>, f: Formula)
    requires Injective(rn) && Fixes(rn, regions)
    ensures HavocAll(regions, Rename(rn, f)) == Rename(rn, HavocAll(regions, f))
    decreases |regions|
  {
    if regions != [] {
      HavocRegionRenamed(rn, regions[0], f);
      HavocAllRenamed(rn, regions[1..], HavocRegion(regions[0], f));
    }
  }

  function WpStep(liberal: bool, e: Effect, post: Formula): Formula {
    if liberal then WpOneInductive(e, post) else WpOne(e, post)
  }

  /** Renaming the effect and the postcondition gives the renamed precondition. */
  ghost predicate Commutes(rn: Renamer, liberal: bool, e: Effect, post: Formula) {
    WpStep(liberal, RenameEffect(rn, e), Rename(rn, post)) == Rename(rn, WpStep(liberal, e, post))
  }

  lemma WpOneRenamed(rn: Renamer, liberal: bool, e: Effect, post: Formula)
    requires Injective(rn) && (e.HavocRegions? ==> Fixes(rn, e.regions))
    ensures Commutes(rn, liberal, e, post)
  {
    match e
    case Assign(v, ValueTerm(x)) => ApplyRenamed(rn, VarBy(v, x), post);
    case Assign(v, ValueFormula(p)) => ApplyRenamed(rn, BoolBy(v, p), post);
    case MemoryStore(r, o, x) =>
      var chain := Store(Region(r), o, x);
      assert RenameM(rn, Region(r)) == Region(rn.region(r));
      assert RenameM(rn, chain) == Store(Region(rn.region(r)), RenameT(rn, o), RenameT(rn, x));
      ApplyRenamed(rn, RegionBy(r, chain), post);
    case Assume(c) =>
      JoinRenamed(rn, true, [c, post]);
      assert RenameAll(rn, [c, post]) == [Rename(rn, c), Rename(rn, post)];
      ImpliesRenamed(rn, c, post);
    case Obligation(c) =>
      JoinRenamed(rn, true, [c, post]);
      assert RenameAll(rn, [c, post]) == [Rename(rn, c), Rename(rn, post)];
    case HavocRegions(rs) => HavocAllRenamed(rn, rs, post);
    case _ =>
  }

  /** Injective renaming commutes with both transformers, formula for formula, when it leaves the
      regions alone that the effects havoc. */
  lemma {:induction false} WpRenamed(rn: Renamer, liberal: bool, effects: seq<Effect>, post: Formula)
    requires Injective(rn) && forall e | e in effects && e.HavocRegions? :: Fixes(rn, e.regions)
    ensures WpWith(liberal, RenameEffects(rn, effects), Rename(rn, post)) == Rename(rn, WpWith(liberal, effects, post))
    decreases |effects|
  {
    if effects != [] {
      WpRenamed(rn, liberal, effects[1..], post);
      assert RenameEffects(rn, effects)[1..] == RenameEffects(rn, effects[1..]);
      WpOneRenamed(rn, liberal, effects[0], WpWith(liberal, effects[1..], post));
    }
  }

  /** Copying the region of a havoc verbatim is right exactly when the renaming leaves it alone. */
  lemma HavocCommutesExactly(rn: Renamer, liberal: bool, r: string)
    requires Injective(rn)
    ensures (forall post :: Commutes(rn, liberal, HavocRegions([r]), post)) <==> rn.region(r) == r
  {
    if rn.region(r) == r {
      forall post ensures Commutes(rn, liberal, HavocRegions([r]), post) {
        WpOneRenamed(rn, liberal, HavocRegions([r]), post);
      }
    } else {
      var post := Cmp(Eq, Select(Region(r), Int(0)), Int(0));
      var q := rn.region(r);
      var renamed := Cmp(Eq, Select(Region(q), Int(0)), Int(0));
      OnlyMention(r);
      OnlyMention(q);
      assert RenameT(rn, Int(0)) == Int(0) && RenameM(rn, Region(r)) == Region(q);
      assert RenameT(rn, Select(Region(r), Int(0))) == Select(Region(q), Int(0)) && Rename(rn, post) == renamed;
      assert [r][1..] == [] && HavocAll([r], post) == HavocRegion(r, post) == True;
      assert HavocAll([r], renamed) == HavocRegion(r, renamed) == renamed;
      assert !Commutes(rn, liberal, HavocRegions([r]), post);
    }
  }

  lemma OnlyMention(r: string)
    ensures Names(Cmp(Eq, Select(Region(r), Int(0)), Int(0))) == {Mem(r)}
  {
    assert NamesT(Int(0)) == {} && NamesT(Select(Region(r), Int(0))) == {Mem(r)};
  }

  /** Havocs do not commute: their region list is copied verbatim, so the renamed effects forget
      the old region and keep what is known of the new one. */
  lemma HavocNotRenamed(s: State)
    requires s.mem("n", 0) != 0
    ensures var rn := Renamer(x => x, r => if r == "m" then "n" else if r == "n" then "m" else r);
            var effects, post := [HavocRegions(["m"])], Cmp(Eq, Select(Region("m"), Int(0)), Int(0));
            Injective(rn) && Eval(Rename(rn, Wp(effects, post)), s)
            && !Eval(Wp(RenameEffects(rn, effects), Rename(rn, post)), s)
  {
    var rn := Renamer(x => x, r => if r == "m" then "n" else if r == "n" then "m" else r);
    var effects, post := [HavocRegions(["m"])], Cmp(Eq, Select(Region("m"), Int(0)), Int(0));
    assert Mem("m") in NamesM(Region("m")) && Mem("m") in NamesT(Select(Region("m"), Int(0)))
           && Mem("m") in Names(post);
    assert HavocAll(["m"], post) == HavocAll([], HavocRegion("m", post)) == True;
    assert Wp(effects, post) == WpOne(effects[0], Wp(effects[1..], post)) == True;
    var renamed := Rename(rn, post);
    assert renamed == Cmp(Eq, Select(Region("n"), Int(0)), Int(0));
    assert Names(renamed) == {Mem("n")};
    assert RenameEffects(rn, effects) == effects;
    assert HavocAll(["m"], renamed) == HavocAll([], HavocRegion("m", renamed)) == renamed;
    assert Wp(effects, renamed) == WpOne(effects[0], Wp(effects[1..], renamed)) == renamed;
    assert EvalT(Int(0), s) == 0 && Read(Region("n"), s, 0) == s.mem("n", 0);
    assert EvalT(Select(Region("n"), Int(0)), s) == s.mem("n", 0);
  }
}
