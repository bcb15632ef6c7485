/** Transfer effects and the weakest-precondition transformers of src/cfg/abstract_cfg.rs, against
    a step semantics. `Nop` also stands for the pointer bookkeeping effects, which every
    transformer of the source skips. */
module Transfer {
  import opened Formulas
  import opened Semantics
  import opened Substitution

  datatype AssignValue = ValueTerm(e: Term) | ValueFormula(p: Formula)

  datatype Effect =
    | Assign(target: Var, value: AssignValue)
    | MemoryStore(region: string, offset: Term, stored: Term)
    | Assume(c: Formula)
    | TypeBound(c: Formula)
    | Obligation(c: Formula)
    | HavocRegions(regions: seq<string>)
    | Call(havocsMemory: bool)
    | Nop

  // ---- Step semantics -----------------------------------------------------------------------

  function Regions(rs: seq<string>): set<Name> {
    set r | r in rs :: Mem(r)
  }

  ghost predicate SameScalars(s: State, t: State) {
    SameOps(s, t) && forall v :: s.ints(v) == t.ints(v) && s.bools(v) == t.bools(v)
  }

  /** One effect takes `s` to `t`. Assumptions and obligations block when false. */
  ghost predicate Step(e: Effect, s: State, t: State) {
    match e
    case Assign(v, ValueTerm(x)) => t == s.SetInt(v, EvalT(x, s))
    case Assign(v, ValueFormula(p)) => t == s.SetBool(v, Eval(p, s))
    case MemoryStore(r, o, x) => t == s.Write(r, EvalT(o, s), EvalT(x, s))
    case Assume(c) => Eval(c, s) && t == s
    case Obligation(c) => Eval(c, s) && t == s
    case TypeBound(_) => t == s
    case Nop => t == s
    case HavocRegions(rs) => SameExcept(s, t, Regions(rs))
    case Call(havocs) => if havocs then SameScalars(s, t) else t == s
  }

  ghost predicate Run(effects: seq<Effect>, s: State, t: State)
    decreases |effects|
  {
    if effects == [] then s == t
    else exists u: State :: Step(effects[0], s, u) && Run(effects[1..], u, t)
  }

  // ---- Weakest preconditions ----------------------------------------------------------------

  function Without(region: string, items: seq<Formula>): seq<Formula> {
    if items == [] then []
    else (if Mem(region) in Names(items[0]) then [] else [items[0]]) + Without(region, items[1..])
  }

  /** Forget a region: drop the conjuncts that mention it, or give up on the whole formula. */
  function HavocRegion(region: string, f: Formula): Formula {
    if Mem(region) !in Names(f) then f
    else if f.And? then AndMany(Without(region, f.items))
    else True
  }

  function HavocAll(regions: seq<string>, f: Formula): Formula
    decreases |regions|
  {
    if regions == [] then f else HavocAll(regions[1..], HavocRegion(regions[0], f))
  }

  function WpOne(e: Effect, post: Formula): Formula {
    match e
    case Nop => post
    case Call(_) => post
    case TypeBound(_) => post
    case HavocRegions(rs) => HavocAll(rs, post)
    case Assign(v, ValueTerm(x)) => Apply(VarBy(v, x), post)
    case Assign(v, ValueFormula(p)) => Apply(BoolBy(v, p), post)
    case Assume(c) => AndOf(c, post)
    case Obligation(c) => AndOf(c, post)
    case MemoryStore(r, o, x) => Apply(RegionBy(r, Store(Region(r), o, x)), post)
  }

  /** The liberal variant used by the inductiveness check: an assumption becomes an implication. */
  function WpOneInductive(e: Effect, post: Formula): Formula {
    if e.Assume? then ImpliesOf(e.c, post) else WpOne(e, post)
  }

  function WpWith(liberal: bool, effects: seq<Effect>, post: Formula): Formula
    decreases |effects|
  {
    if effects == [] then post
    else
      var rest := WpWith(liberal, effects[1..], post);
      if liberal then WpOneInductive(effects[0], rest) else WpOne(effects[0], rest)
  }

  function Wp(effects: seq<Effect>, post: Formula): Formula {
    WpWith(false, effects, post)
  }

  /** The fold of the source: the last effect first. */
  method ComputeWp(liberal: bool, effects: seq<Effect>, post: Formula) returns (r: Formula)
    ensures r == WpWith(liberal, effects, post)
  {
    r := post;
    for i := |effects| downto 0
      invariant r == WpWith(liberal, effects[i..], post)
    {
      assert effects[i..][1..] == effects[i + 1..];
      r := if liberal then WpOneInductive(effects[i], r) else WpOne(effects[i], r);
    }
  }

  // ---- Side conditions ----------------------------------------------------------------------

  /** Effects with one outcome per state, which `wp` follows exactly: no havoc of memory. */
  predicate Exact(effects: seq<Effect>) {
    forall e | e in effects :: !e.HavocRegions? && !(e.Call? && e.havocsMemory)
  }

  /** Effects that `wp` over-approximates: everything but calls that havoc memory. */
  predicate Modelled(effects: seq<Effect>) {
    forall e | e in effects :: !(e.Call? && e.havocsMemory)
  }

  function EffectHidden(e: Effect): set<Name> {
    match e
    case Assign(_, ValueTerm(x)) => HiddenT(x)
    case Assign(_, ValueFormula(p)) => Hidden(p)
    case MemoryStore(_, o, x) => HiddenT(o) + HiddenT(x)
    case Assume(c) => Hidden(c)
    case Obligation(c) => Hidden(c)
    case TypeBound(c) => Hidden(c)
    case _ => {}
  }

  /** No Boolean assigned here is in `hidden`, and no other name becomes hidden: with `hidden`
      covering the postcondition too, no Boolean substitution misses an occurrence. */
  ghost predicate Visible(effects: seq<Effect>, hidden: set<Name>) {
    forall e | e in effects ::
      EffectHidden(e) <= hidden
      && (e.Assign? && e.value.ValueFormula? ==> Scalar(e.target) !in hidden)
  }

  lemma {:induction false} JoinHidden(conj: bool, items: seq<Formula>, hidden: set<Name>)
    requires forall f :: f in items ==> Hidden(f) <= hidden
    ensures Hidden(Join(conj, items)) <= hidden
  {
    FlattenMembers(conj, items);
    if Zero(conj) !in items {
      forall g | g in Flatten(conj, items).value ensures Hidden(g) <= hidden {
        var f :| f in items && g in Parts(conj, f);
        assert Hidden(g) <= Hidden(f);
      }
    }
  }

  lemma {:induction false} JoinBoolNames(conj: bool, items: seq<Formula>, names: set<Name>)
    requires forall f :: f in items ==> BoolNames(f) <= names
    ensures BoolNames(Join(conj, items)) <= names
  {
    FlattenMembers(conj, items);
    if Zero(conj) !in items {
      forall g | g in Flatten(conj, items).value ensures BoolNames(g) <= names {
        var f :| f in items && g in Parts(conj, f);
        assert BoolNames(g) <= BoolNames(f);
      }
    }
  }

  function SubstHidden(sub: Subst): set<Name> {
    match sub
    case VarBy(_, e) => HiddenT(e)
    case BoolBy(_, g) => Hidden(g)
    case RegionBy(_, m) => HiddenM(m)
  }

  /** A substitution hides no name that was not hidden in one of its two operands. */
  lemma {:induction false} AppliedHidden(sub: Subst, f: Formula)
    ensures Hidden(Apply(sub, f)) <= Hidden(f) + SubstHidden(sub)
    ensures !sub.BoolBy? ==> BoolNames(Apply(sub, f)) <= BoolNames(f)
    decreases f
  {
    match f
    case True =>
    case False =>
    case FVar(_) =>
    case Not(g) => AppliedHidden(sub, g);
    case And(items) => AppliedHiddenAll(sub, f, items, true);
    case Or(items) => AppliedHiddenAll(sub, f, items, false);
    case Implies(lhs, rhs) =>
      AppliedHidden(sub, lhs);
      AppliedHidden(sub, rhs);
    case Cmp(_, l, r) =>
      AppliedHiddenT(sub, l);
      AppliedHiddenT(sub, r);
    case MemoryEq(ml, mr) =>
      AppliedHiddenM(sub, ml);
      AppliedHiddenM(sub, mr);
  }

  lemma {:induction false} AppliedHiddenAll(sub: Subst, f: Formula, items: seq<Formula>, conj: bool)
    requires f == (if conj then And(items) else Or(items))
    ensures Hidden(Apply(sub, f)) <= Hidden(f) + SubstHidden(sub)
    ensures !sub.BoolBy? ==> BoolNames(Apply(sub, f)) <= BoolNames(f)
    decreases f, 0
  {
    var mapped := seq(|items|, i requires 0 <= i < |items| => Apply(sub, items[i]));
    forall i | 0 <= i < |items|
      ensures Hidden(mapped[i]) <= Hidden(f) + SubstHidden(sub)
      ensures !sub.BoolBy? ==> BoolNames(mapped[i]) <= BoolNames(f)
    {
      AppliedHidden(sub, items[i]);
      assert Hidden(items[i]) <= Hidden(f) && BoolNames(items[i]) <= BoolNames(f);
    }
    JoinHidden(conj, mapped, Hidden(f) + SubstHidden(sub));
    if !sub.BoolBy? {
      JoinBoolNames(conj, mapped, BoolNames(f));
    }
  }

  lemma {:induction false} AppliedHiddenT(sub: Subst, t: Term)
    ensures HiddenT(ApplyT(sub, t)) <= HiddenT(t) + SubstHidden(sub)
    decreases t
  {
    match t
    case TVar(_) =>
    case Int(_) =>
    case BoolToInt(f) => AppliedHidden(sub, f);
    case Select(m, i) =>
      AppliedHiddenM(sub, m);
      AppliedHiddenT(sub, i);
    case Bin(_, l, r) =>
      AppliedHiddenT(sub, l);
      AppliedHiddenT(sub, r);
    case Neg(u) => AppliedHiddenT(sub, u);
  }

  lemma {:induction false} AppliedHiddenM(sub: Subst, m: Memory)
    ensures HiddenM(ApplyM(sub, m)) <= HiddenM(m) + SubstHidden(sub)
    decreases m
  {
    match m
    case Region(_) =>
    case Store(inner, i, x) =>
      AppliedHiddenM(sub, inner);
      AppliedHiddenT(sub, i);
      AppliedHiddenT(sub, x);
  }

  /** A substitution brings in no name but those of its two operands. */
  lemma {:induction false} AppliedNames(sub: Subst, f: Formula)
    ensures Names(Apply(sub, f)) <= Names(f) + Inserted(sub)
    decreases f
  {
    match f
    case True =>
    case False =>
    case FVar(_) =>
    case Not(g) => AppliedNames(sub, g);
    case And(items) => AppliedNamesAll(sub, f, items, true);
    case Or(items) => AppliedNamesAll(sub, f, items, false);
    case Implies(lhs, rhs) =>
      AppliedNames(sub, lhs);
      AppliedNames(sub, rhs);
    case Cmp(_, l, r) =>
      AppliedNamesT(sub, l);
      AppliedNamesT(sub, r);
    case MemoryEq(ml, mr) =>
      AppliedNamesM(sub, ml);
      AppliedNamesM(sub, mr);
  }

  lemma {:induction false} AppliedNamesAll(sub: Subst, f: Formula, items: seq<Formula>, conj: bool)
    requires f == (if conj then And(items) else Or(items))
    ensures Names(Apply(sub, f)) <= Names(f) + Inserted(sub)
    decreases f, 0
  {
    var mapped := seq(|items|, i requires 0 <= i < |items| => Apply(sub, items[i]));
    JoinNames(conj, mapped);
    forall i | 0 <= i < |items| ensures Names(mapped[i]) <= Names(f) + Inserted(sub) {
      AppliedNames(sub, items[i]);
      assert Names(items[i]) <= Names(f);
    }
  }

  lemma {:induction false} AppliedNamesT(sub: Subst, t: Term)
    ensures NamesT(ApplyT(sub, t)) <= NamesT(t) + Inserted(sub)
    decreases t
  {
    match t
    case TVar(_) =>
    case Int(_) =>
    case BoolToInt(f) => AppliedNames(sub, f);
    case Select(m, i) =>
      AppliedNamesM(sub, m);
      AppliedNamesT(sub, i);
    case Bin(_, l, r) =>
      AppliedNamesT(sub, l);
      AppliedNamesT(sub, r);
    case Neg(u) => AppliedNamesT(sub, u);
  }

  lemma {:induction false} AppliedNamesM(sub: Subst, m: Memory)
    ensures NamesM(ApplyM(sub, m)) <= NamesM(m) + Inserted(sub)
    decreases m
  {
    match m
    case Region(_) =>
    case Store(inner, i, x) =>
      AppliedNamesM(sub, inner);
      AppliedNamesT(sub, i);
      AppliedNamesT(sub, x);
  }

  // ---- Havoc --------------------------------------------------------------------------------

  lemma {:induction false} WithoutMembers(region: string, items: seq<Formula>)
    ensures forall g :: g in Without(region, items) <==> g in items && Mem(region) !in Names(g)
  {
    if items != [] {
      WithoutMembers(region, items[1..]);
      assert items == [items[0]] + items[1..];
    }
  }

  /** Havoc over-approximates the existential quantification of the region and removes it. */
  lemma HavocRegionOver(region: string, f: Formula, s: State, t: State)
    requires SameExcept(s, t, {Mem(region)}) && Eval(f, t)
    ensures Eval(HavocRegion(region, f), s)
  {
    if Mem(region) !in Names(f) {
      Congruence(f, s, t);
    } else if f.And? {
      var kept := Without(region, f.items);
      WithoutMembers(region, f.items);
      JoinMeaning(true, kept, s);
      forall g | g in kept ensures Eval(g, s) {
        Congruence(g, s, t);
      }
    }
  }

  lemma HavocRegionRemoves(region: string, f: Formula)
    ensures Mem(region) !in Names(HavocRegion(region, f))
  {
    if Mem(region) in Names(f) && f.And? {
      var kept := Without(region, f.items);
      WithoutMembers(region, f.items);
      JoinNames(true, kept);
    }
  }

  lemma {:induction false} HavocAllOver(regions: seq<string>, f: Formula, s: State, t: State)
    requires SameExcept(s, t, Regions(regions)) && Eval(f, t)
    ensures Eval(HavocAll(regions, f), s)
    decreases |regions|
  {
    if regions == [] {
      Congruence(f, s, t);
    } else {
      var r := regions[0];
      var u := s.(mem := (q: string, j: int) => if q == r then s.mem(q, j) else t.mem(q, j));
      assert SameExcept(u, t, {Mem(r)}) by {
        forall n | n != Mem(r) ensures SameAt(u, t, n) {
          if n.Scalar? {
            assert SameAt(s, t, n);
          }
        }
      }
      HavocRegionOver(r, f, u, t);
      assert SameExcept(s, u, Regions(regions[1..])) by {
        forall n | n !in Regions(regions[1..]) ensures SameAt(s, u, n) {
          if n != Mem(r) {
            assert n !in Regions(regions);
            assert SameAt(s, t, n);
          }
        }
      }
      HavocAllOver(regions[1..], HavocRegion(r, f), s, u);
    }
  }

  /** What a formula asserts side by side. */
  function Conjuncts(f: Formula): seq<Formula> {
    if f.And? then f.items else [f]
  }

  /** Every conjunct that mentions none of the regions holds. */
  ghost predicate UntouchedHold(gs: seq<Formula>, regions: set<Name>, s: State) {
    forall g | g in gs && Names(g) !! regions :: Eval(g, s)
  }

  /** No conjunction is directly inside a conjunction, as in normal form. */
  ghost predicate Flat(f: Formula) {
    f.And? ==> forall g | g in f.items :: !g.And?
  }

  /** Forgetting a region keeps exactly the conjuncts that do not mention it, and a formula that is
      no conjunction as a whole or not at all. */
  lemma HavocRegionExact(region: string, f: Formula, s: State)
    ensures Mem(region) !in Names(f) ==> HavocRegion(region, f) == f
    ensures f.And? ==> (Eval(HavocRegion(region, f), s) <==> UntouchedHold(f.items, {Mem(region)}, s))
    ensures !f.And? && Mem(region) in Names(f) ==> HavocRegion(region, f) == True
  {
    if f.And? {
      forall g | g in f.items ensures Names(g) !! {Mem(region)} <==> Mem(region) !in Names(g) {
      }
      if Mem(region) in Names(f) {
        WithoutMembers(region, f.items);
        JoinMeaning(true, Without(region, f.items), s);
      } else {
        forall g | g in f.items ensures Mem(region) !in Names(g) {
          var i :| 0 <= i < |f.items| && f.items[i] == g;
        }
      }
    }
  }

  lemma JoinConjuncts(items: seq<Formula>, regions: set<Name>, s: State)
    requires forall g | g in items :: !g.And?
    ensures Flat(Join(true, items))
    ensures UntouchedHold(Conjuncts(Join(true, items)), regions, s) <==> UntouchedHold(items, regions, s)
  {
    FlattenMembers(true, items);
    if False in items {
      assert Conjuncts(Join(true, items)) == [False] && False in [False];
    } else {
      var flat := Flatten(true, items).value;
      forall g ensures g in flat <==> g in items && g != True {
        if g in flat {
          var f :| f in items && g in Parts(true, f);
        }
        if g in items && g != True {
          assert g in Parts(true, g);
        }
      }
      assert |flat| == 1 ==> flat == [flat[0]] && flat[0] in flat;
      assert Conjuncts(Join(true, items)) == if flat == [] then [True] else flat;
    }
  }

  lemma FewerRegions(f: Formula, regions: seq<string>)
    requires regions != [] && Mem(regions[0]) !in Names(f)
    ensures Names(f) !! Regions(regions) <==> Names(f) !! Regions(regions[1..])
  {
    assert regions == [regions[0]] + regions[1..];
  }

  lemma {:induction false} WithoutFirst(items: seq<Formula>, regions: seq<string>, s: State)
    requires regions != []
    ensures UntouchedHold(Without(regions[0], items), Regions(regions[1..]), s)
       <==> UntouchedHold(items, Regions(regions), s)
  {
    WithoutMembers(regions[0], items);
    assert regions == [regions[0]] + regions[1..];
    forall g | g in items
      ensures Names(g) !! Regions(regions) <==>
              g in Without(regions[0], items) && Names(g) !! Regions(regions[1..])
    {
      if Mem(regions[0]) in Names(g) {
        assert Mem(regions[0]) in Regions(regions);
      } else {
        FewerRegions(g, regions);
      }
    }
  }

  /** Forgetting several regions keeps exactly the conjuncts that mention none of them. */
  lemma {:induction false} HavocAllExact(regions: seq<string>, f: Formula, s: State)
    requires Flat(f)
    ensures Eval(HavocAll(regions, f), s) <==> UntouchedHold(Conjuncts(f), Regions(regions), s)
    decreases |regions|
  {
    if regions == [] {
      assert Regions(regions) == {};
      assert f in [f];
    } else {
      var next := HavocRegion(regions[0], f);
      if Mem(regions[0]) in Names(f) && f.And? {
        WithoutMembers(regions[0], f.items);
        JoinConjuncts(Without(regions[0], f.items), Regions(regions[1..]), s);
        WithoutFirst(f.items, regions, s);
      } else {
        NothingDropped(regions, f, s);
      }
      HavocAllExact(regions[1..], next, s);
    }
  }

  lemma NothingDropped(regions: seq<string>, f: Formula, s: State)
    requires regions != [] && !(f.And? && Mem(regions[0]) in Names(f))
    ensures var next := HavocRegion(regions[0], f);
            Flat(f) ==> Flat(next)
    ensures UntouchedHold(Conjuncts(HavocRegion(regions[0], f)), Regions(regions[1..]), s)
       <==> UntouchedHold(Conjuncts(f), Regions(regions), s)
  {
    assert regions == [regions[0]] + regions[1..];
    if Mem(regions[0]) in Names(f) {
      assert Mem(regions[0]) in Regions(regions) && Conjuncts(f) == [f];
    } else {
      forall g | g in Conjuncts(f) ensures Names(g) !! Regions(regions) <==> Names(g) !! Regions(regions[1..]) {
        if f.And? {
          var i :| 0 <= i < |f.items| && f.items[i] == g;
        }
        FewerRegions(g, regions);
      }
    }
  }

  lemma HavocRegionHidden(region: string, f: Formula)
    ensures Hidden(HavocRegion(region, f)) <= Hidden(f)
  {
    if Mem(region) in Names(f) && f.And? {
      WithoutMembers(region, f.items);
      forall g | g in Without(region, f.items) ensures Hidden(g) <= Hidden(f) {
      }
      JoinHidden(true, Without(region, f.items), Hidden(f));
    }
  }

  lemma {:induction false} HavocAllHidden(regions: seq<string>, f: Formula)
    ensures Hidden(HavocAll(regions, f)) <= Hidden(f)
    decreases |regions|
  {
    if regions != [] {
      HavocRegionHidden(regions[0], f);
      HavocAllHidden(regions[1..], HavocRegion(regions[0], f));
    }
  }

  // ---- The transformers against the semantics -----------------------------------------------

  lemma WpOneHidden(liberal: bool, e: Effect, post: Formula, hidden: set<Name>)
    requires Visible([e], hidden) && Hidden(post) <= hidden
    ensures Hidden(if liberal then WpOneInductive(e, post) else WpOne(e, post)) <= hidden
  {
    assert e in [e];
    match e
    case Assign(v, ValueTerm(x)) => AppliedHidden(VarBy(v, x), post);
    case Assign(v, ValueFormula(p)) => AppliedHidden(BoolBy(v, p), post);
    case MemoryStore(r, o, x) =>
      assert HiddenM(Region(r)) == {};
      AppliedHidden(RegionBy(r, Store(Region(r), o, x)), post);
    case Assume(c) => JoinHidden(true, [c, post], hidden);
    case Obligation(c) => JoinHidden(true, [c, post], hidden);
    case HavocRegions(rs) => HavocAllHidden(rs, post);
    case _ =>
  }

  lemma {:induction false} WpHidden(liberal: bool, effects: seq<Effect>, post: Formula, hidden: set<Name>)
    requires Visible(effects, hidden) && Hidden(post) <= hidden
    ensures Hidden(WpWith(liberal, effects, post)) <= hidden
    decreases |effects|
  {
    if effects != [] {
      WpHidden(liberal, effects[1..], post, hidden);
      WpOneHidden(liberal, effects[0], WpWith(liberal, effects[1..], post), hidden);
    }
  }

  lemma StoreIsWrite(region: string, o: Term, x: Term, s: State, f: Formula)
    ensures Eval(Apply(RegionBy(region, Store(Region(region), o, x)), f), s)
       <==> Eval(f, s.Write(region, EvalT(o, s), EvalT(x, s)))
  {
    var sub := RegionBy(region, Store(Region(region), o, x));
    Substituted(sub, f, s);
    assert Same(Updated(sub, s), s.Write(region, EvalT(o, s), EvalT(x, s))) by {
      forall at
        ensures Updated(sub, s).mem(region, at) == s.Write(region, EvalT(o, s), EvalT(x, s)).mem(region, at)
      {
        assert Read(Region(region), s, at) == s.mem(region, at);
      }
    }
    Congruence(f, Updated(sub, s), s.Write(region, EvalT(o, s), EvalT(x, s)));
  }

  lemma WpOneExact(e: Effect, post: Formula, s: State, hidden: set<Name>)
    requires Exact([e]) && Visible([e], hidden) && Hidden(post) <= hidden
    ensures Eval(WpOne(e, post), s) <==> exists t: State :: Step(e, s, t) && Eval(post, t)
  {
    assert e in [e];
    match e
    case Assign(v, ValueTerm(x)) =>
      Substituted(VarBy(v, x), post, s);
      assert Step(e, s, s.SetInt(v, EvalT(x, s)));
    case Assign(v, ValueFormula(p)) =>
      Substituted(BoolBy(v, p), post, s);
      assert Step(e, s, s.SetBool(v, Eval(p, s)));
    case MemoryStore(r, o, x) =>
      StoreIsWrite(r, o, x, s, post);
      assert Step(e, s, s.Write(r, EvalT(o, s), EvalT(x, s)));
    case Assume(c) => AndMeaning(c, post, s); assert Eval(c, s) ==> Step(e, s, s);
    case Obligation(c) => AndMeaning(c, post, s); assert Eval(c, s) ==> Step(e, s, s);
    case TypeBound(_) => assert Step(e, s, s);
    case Call(_) => assert Step(e, s, s);
    case Nop => assert Step(e, s, s);
  }

  /** `wp` is exact: a state satisfies it exactly when the effects run to completion from there
      and end in the postcondition. */
  lemma {:induction false} WpExact(effects: seq<Effect>, post: Formula, s: State, hidden: set<Name>)
    requires Exact(effects) && Visible(effects, hidden) && Hidden(post) <= hidden
    ensures Eval(Wp(effects, post), s) <==> exists t: State :: Run(effects, s, t) && Eval(post, t)
    decreases |effects|
  {
    if effects == [] {
      assert Run(effects, s, s);
    } else {
      var rest := Wp(effects[1..], post);
      WpHidden(false, effects[1..], post, hidden);
      WpOneExact(effects[0], rest, s, hidden);
      if Eval(Wp(effects, post), s) {
        var u :| Step(effects[0], s, u) && Eval(rest, u);
        WpExact(effects[1..], post, u, hidden);
        var t :| Run(effects[1..], u, t) && Eval(post, t);
        assert Run(effects, s, t);
      }
      if t: State :| Run(effects, s, t) && Eval(post, t) {
        var u :| Step(effects[0], s, u) && Run(effects[1..], u, t);
        WpExact(effects[1..], post, u, hidden);
      }
    }
  }

  lemma WpOneOver(e: Effect, post: Formula, s: State, t: State, hidden: set<Name>)
    requires Modelled([e]) && Visible([e], hidden) && Hidden(post) <= hidden
    requires Step(e, s, t) && Eval(post, t)
    ensures Eval(WpOne(e, post), s)
  {
    assert e in [e];
    if e.HavocRegions? {
      HavocAllOver(e.regions, post, s, t);
    } else {
      WpOneExact(e, post, s, hidden);
    }
  }

  /** With havocs, `wp` still covers every run into the postcondition. */
  lemma {:induction false} WpOver(effects: seq<Effect>, post: Formula, s: State, t: State, hidden: set<Name>)
    requires Modelled(effects) && Visible(effects, hidden) && Hidden(post) <= hidden
    requires Run(effects, s, t) && Eval(post, t)
    ensures Eval(Wp(effects, post), s)
    decreases |effects|
  {
    if effects != [] {
      var u :| Step(effects[0], s, u) && Run(effects[1..], u, t);
      WpOver(effects[1..], post, u, t, hidden);
      WpHidden(false, effects[1..], post, hidden);
      WpOneOver(effects[0], Wp(effects[1..], post), s, u, hidden);
    }
  }

  /** The run stops at an assumption that is false. */
  ghost predicate BlocksAtAssume(effects: seq<Effect>, s: State)
    decreases |effects|
  {
    effects != []
    && ((effects[0].Assume? && !Eval(effects[0].c, s))
        || exists u: State :: Step(effects[0], s, u) && BlocksAtAssume(effects[1..], u))
  }

  /** `wp_inductive` is the liberal version: it also holds where the run stops at an assumption. */
  lemma {:induction false} WpInductiveLiberal(effects: seq<Effect>, post: Formula, s: State, hidden: set<Name>)
    requires Exact(effects) && Visible(effects, hidden) && Hidden(post) <= hidden
    ensures Eval(WpWith(true, effects, post), s)
       <==> BlocksAtAssume(effects, s) || exists t: State :: Run(effects, s, t) && Eval(post, t)
    decreases |effects|
  {
    if effects == [] {
      assert Run(effects, s, s);
    } else {
      var e, rest := effects[0], WpWith(true, effects[1..], post);
      WpHidden(true, effects[1..], post, hidden);
      if e.Assume? {
        if Eval(e.c, s) {
          WpInductiveLiberal(effects[1..], post, s, hidden);
          assert Step(e, s, s);
        }
        ImpliesMeaning(e.c, rest, s);
      } else {
        WpOneExact(e, rest, s, hidden);
      }
      if u: State :| Step(e, s, u) {
        WpInductiveLiberal(effects[1..], post, u, hidden);
        StepUnique(e, s, u);
      }
    }
  }

  lemma StepUnique(e: Effect, s: State, t: State)
    requires Exact([e]) && Step(e, s, t)
    ensures forall u: State :: Step(e, s, u) ==> u == t
  {
    assert e in [e];
  }

  /** Exact effects have at most one outcome, and none where they stop at an assumption. */
  lemma {:induction false} RunUnique(effects: seq<Effect>, s: State, t: State)
    requires Exact(effects) && Run(effects, s, t)
    ensures forall u: State :: Run(effects, s, u) ==> u == t
    ensures !BlocksAtAssume(effects, s)
    decreases |effects|
  {
    if effects != [] {
      var u :| Step(effects[0], s, u) && Run(effects[1..], u, t);
      StepUnique(effects[0], s, u);
      RunUnique(effects[1..], u, t);
    }
  }

  /** A call that havocs memory is skipped by `wp`, so `wp` does not cover its runs. */
  lemma WpSkipsHavocCall(s: State)
    requires s.mem("m", 0) == 0
    ensures var post := Cmp(Eq, Select(Region("m"), Int(0)), Int(1));
            !Eval(Wp([Call(true)], post), s) && exists t: State :: Run([Call(true)], s, t) && Eval(post, t)
  {
    var post := Cmp(Eq, Select(Region("m"), Int(0)), Int(1));
    var t := s.Write("m", 0, 1);
    assert Wp([Call(true)], post) == post;
    assert Read(Region("m"), s, 0) == 0 && Read(Region("m"), t, 0) == 1;
    assert EvalT(Int(0), s) == 0 && EvalT(Int(0), t) == 0 && EvalT(Int(1), s) == 1 && EvalT(Int(1), t) == 1;
    assert EvalT(Select(Region("m"), Int(0)), s) == 0 && EvalT(Select(Region("m"), Int(0)), t) == 1;
    assert Step(Call(true), s, t) && Run([], t, t);
    assert Run([Call(true)], s, t) && Eval(post, t);
  }
  // ---- Havocs inside the transformers ---------------------------------------------------------

  ghost predicate NormalEffect(e: Effect) {
    match e
    case Assign(_, ValueTerm(x)) => NormalTerm(x)
    case Assign(_, ValueFormula(p)) => Normal(p)
    case MemoryStore(_, o, x) => NormalTerm(o) && NormalTerm(x)
    case Assume(c) => Normal(c)
    case Obligation(c) => Normal(c)
    case _ => true
  }

  lemma HavocRegionNormal(region: string, f: Formula)
    requires Normal(f)
    ensures Normal(HavocRegion(region, f))
  {
    if f.And? {
      WithoutMembers(region, f.items);
      JoinNormal(true, Without(region, f.items));
    }
  }

  lemma {:induction false} HavocAllNormal(regions: seq<string>, f: Formula)
    requires Normal(f)
    ensures Normal(HavocAll(regions, f))
    decreases |regions|
  {
    if regions != [] {
      HavocRegionNormal(regions[0], f);
      HavocAllNormal(regions[1..], HavocRegion(regions[0], f));
    }
  }

  lemma WpOneNormal(liberal: bool, e: Effect, post: Formula)
    requires NormalEffect(e) && Normal(post)
    ensures Normal(if liberal then WpOneInductive(e, post) else WpOne(e, post))
  {
    match e
    case Assign(v, ValueTerm(x)) => AppliedNormal(VarBy(v, x), post);
    case Assign(v, ValueFormula(p)) => AppliedNormal(BoolBy(v, p), post);
    case MemoryStore(r, o, x) => AppliedNormal(RegionBy(r, Store(Region(r), o, x)), post);
    case Assume(c) => ConstructorsNormal(c, post);
    case Obligation(c) => ConstructorsNormal(c, post);
    case HavocRegions(rs) => HavocAllNormal(rs, post);
    case _ =>
  }

  /** Both transformers return normal formulas. */
  lemma {:induction false} WpNormal(liberal: bool, effects: seq<Effect>, post: Formula)
    requires Normal(post) && forall e | e in effects :: NormalEffect(e)
    ensures Normal(WpWith(liberal, effects, post))
    decreases |effects|
  {
    if effects != [] {
      WpNormal(liberal, effects[1..], post);
      WpOneNormal(liberal, effects[0], WpWith(liberal, effects[1..], post));
    }
  }

  /** Before a havoc both transformers require exactly what they require after it without the
      havoced regions. */
  lemma WpHavocExact(liberal: bool, regions: seq<string>, effects: seq<Effect>, post: Formula, s: State)
    requires Normal(post) && forall e | e in effects :: NormalEffect(e)
    ensures Eval(WpWith(liberal, [HavocRegions(regions)] + effects, post), s)
       <==> UntouchedHold(Conjuncts(WpWith(liberal, effects, post)), Regions(regions), s)
  {
    WpNormal(liberal, effects, post);
    assert ([HavocRegions(regions)] + effects)[1..] == effects;
    HavocAllExact(regions, WpWith(liberal, effects, post), s);
  }

  /** A conjunct about a variable survives the havoc of a region. */
  lemma HavocKeepsConjunct(s: State)
    ensures var x := Var("x", IntSort);
            var post := And([Cmp(Gt, TVar(x), Int(0)), Cmp(Eq, Select(Region("m"), Int(0)), Int(0))]);
            Eval(Wp([HavocRegions(["m"])], post), s) <==> s.ints(x) > 0
  {
    var x := Var("x", IntSort);
    var kept, lost := Cmp(Gt, TVar(x), Int(0)), Cmp(Eq, Select(Region("m"), Int(0)), Int(0));
    var post := And([kept, lost]);
    assert Names(kept) == {Scalar(x)} && Mem("m") in NamesM(Region("m")) && Mem("m") in NamesT(lost.l);
    assert [HavocRegions(["m"])] == [HavocRegions(["m"])] + [];
    assert kept in post.items && lost in post.items && Mem("m") in Regions(["m"]);
    assert Operand(true, kept) && Operand(true, lost) && NormalTerm(lost.l) && Normal(post);
    WpHavocExact(false, ["m"], [], post, s);
    assert EvalT(TVar(x), s) == s.ints(x) && EvalT(Int(0), s) == 0;
  }

  // ---- Runs from states that agree ------------------------------------------------------------

  lemma StepSame(e: Effect, s: State, t: State, u: State) returns (v: State)
    requires Step(e, s, t) && Same(s, u)
    ensures Step(e, u, v) && Same(t, v)
  {
    forall n ensures SameAt(s, u, n) {
    }
    match e
    case Assign(w, ValueTerm(x)) =>
      CongruenceT(x, s, u);
      v := u.SetInt(w, EvalT(x, u));
      forall n ensures SameAt(t, v, n) {
        assert SameAt(s, u, n);
      }
    case Assign(w, ValueFormula(p)) =>
      Congruence(p, s, u);
      v := u.SetBool(w, Eval(p, u));
      forall n ensures SameAt(t, v, n) {
        assert SameAt(s, u, n);
      }
    case MemoryStore(r, o, x) =>
      CongruenceT(o, s, u);
      CongruenceT(x, s, u);
      v := u.Write(r, EvalT(o, u), EvalT(x, u));
      forall n ensures SameAt(t, v, n) {
        assert SameAt(s, u, n);
      }
    case HavocRegions(rs) =>
      v := t;
      forall n | n !in Regions(rs) ensures SameAt(u, v, n) {
        assert SameAt(s, t, n) && SameAt(s, u, n);
      }
    case Call(havocs) =>
      v := if havocs then t else u;
      forall w: Var ensures s.ints(w) == u.ints(w) && s.bools(w) == u.bools(w) {
        assert SameAt(s, u, Scalar(w));
      }
    case Assume(c) =>
      Congruence(c, s, u);
      v := u;
    case Obligation(c) =>
      Congruence(c, s, u);
      v := u;
    case TypeBound(_) => v := u;
    case Nop => v := u;
  }

  lemma {:induction false} RunSame(effects: seq<Effect>, s: State, t: State, u: State) returns (v: State)
    requires Run(effects, s, t) && Same(s, u)
    ensures Run(effects, u, v) && Same(t, v)
    decreases |effects|
  {
    if effects == [] {
      v := u;
    } else {
      var m :| Step(effects[0], s, m) && Run(effects[1..], m, t);
      var w := StepSame(effects[0], s, m, u);
      v := RunSame(effects[1..], m, t, w);
    }
  }

  lemma SameTrans(s: State, t: State, u: State)
    requires Same(s, t) && Same(t, u)
    ensures Same(s, u) && Same(u, s)
  {
    forall n ensures SameAt(s, u, n) && SameAt(u, s, n) {
      assert SameAt(s, t, n) && SameAt(t, u, n);
    }
  }
}
