/** What alpha-renaming, src/formula/alpha_rename.rs, does to runs: the renamed effects do to the renamed
    names what the effects do to the names. */
module RenamedRuns {
  import opened Formulas
  import opened Semantics
  import opened Transfer
  import opened Reach
  import opened AlphaRenaming

  /** Havoced regions keep their names, because renaming copies a havoc verbatim. */
  ghost predicate Renames(rn: Renamer, e: Effect) {
    Injective(rn) && (e.HavocRegions? ==> Fixes(rn, e.regions))
  }

  lemma ComposedAt(rn: Renamer, v: Var)
    requires Injective(rn)
    ensures forall w: Var :: rn.OfVar(w) == rn.OfVar(v) <==> w == v
  {
  }

  /** A step of the renamed effect, seen through the renaming, is a step of the effect. */
  lemma StepRenamed(rn: Renamer, e: Effect, s: State, t: State) returns (u: State)
    requires Renames(rn, e) && Step(StrictOne(RenameEffect(rn, e)), s, t)
    ensures Step(StrictOne(e), Composed(rn, s), u) && Same(u, Composed(rn, t))
  {
    var c := Composed(rn, s);
    u := Composed(rn, t);
    match e
    case Assign(v, ValueTerm(x)) =>
      RenamedT(rn, x, s);
      ComposedAt(rn, v);
      u := c.SetInt(v, EvalT(x, c));
      assert Same(u, Composed(rn, t));
    case Assign(v, ValueFormula(p)) =>
      Renamed(rn, p, s);
      ComposedAt(rn, v);
      u := c.SetBool(v, Eval(p, c));
      assert Same(u, Composed(rn, t));
    case MemoryStore(r, o, x) =>
      RenamedT(rn, o, s);
      RenamedT(rn, x, s);
      u := c.Write(r, EvalT(o, c), EvalT(x, c));
      assert Same(u, Composed(rn, t));
    case HavocRegions(rs) =>
      forall n | n !in Regions(rs) ensures SameAt(c, u, n) {
        if n.Mem? {
          FixedOutside(rn, rs, n.region);
          assert SameAt(s, t, Mem(rn.region(n.region)));
        } else {
          assert SameAt(s, t, Scalar(rn.OfVar(n.v)));
        }
      }
    case Assume(p) => Renamed(rn, p, s);
    case Obligation(p) => Renamed(rn, p, s);
    case TypeBound(p) => Renamed(rn, p, s);
    case Call(_) =>
      forall v: Var ensures c.ints(v) == u.ints(v) && c.bools(v) == u.bools(v) {
        assert s.ints(rn.OfVar(v)) == t.ints(rn.OfVar(v)) && s.bools(rn.OfVar(v)) == t.bools(rn.OfVar(v));
      }
    case Nop =>
  }

  lemma FixedOutside(rn: Renamer, rs: seq<string>, r: string)
    requires Injective(rn) && Fixes(rn, rs) && Mem(r) !in Regions(rs)
    ensures Mem(rn.region(r)) !in Regions(rs)
  {
    assert rn.region(r) in rs ==> rn.region(rn.region(r)) == rn.region(r);
  }

  ghost function OldName(rn: Renamer, q: string): (r: string)
    requires exists r :: rn.region(r) == q
    ensures rn.region(r) == q
  {
    var r :| rn.region(r) == q;
    r
  }

  /** The state with the regions of `u` under their new names. */
  ghost function WithRegions(rn: Renamer, s: State, u: State): State {
    s.(mem := (q: string, at: int) =>
         if exists r :: rn.region(r) == q then u.mem(OldName(rn, q), at) else s.mem(q, at))
  }

  lemma WithRegionsComposed(rn: Renamer, s: State, u: State)
    requires Injective(rn) && SameScalars(Composed(rn, s), u)
    ensures Same(Composed(rn, WithRegions(rn, s, u)), u) && SameScalars(s, WithRegions(rn, s, u))
  {
    var t := WithRegions(rn, s, u);
    forall r, at ensures t.mem(rn.region(r), at) == u.mem(r, at) {
      assert rn.region(OldName(rn, rn.region(r))) == rn.region(r);
    }
    forall n ensures SameAt(Composed(rn, t), u, n) {
    }
  }

  /** Every step of the effect, seen through the renaming, is a step of the renamed effect. */
  lemma StepLifted(rn: Renamer, e: Effect, s: State, u: State) returns (t: State)
    requires Renames(rn, e) && Step(StrictOne(e), Composed(rn, s), u)
    ensures Step(StrictOne(RenameEffect(rn, e)), s, t) && Same(Composed(rn, t), u)
  {
    t := s;
    match e
    case Assign(v, ValueTerm(x)) =>
      RenamedT(rn, x, s);
      ComposedAt(rn, v);
      t := s.SetInt(rn.OfVar(v), EvalT(RenameT(rn, x), s));
    case Assign(v, ValueFormula(p)) =>
      Renamed(rn, p, s);
      ComposedAt(rn, v);
      t := s.SetBool(rn.OfVar(v), Eval(Rename(rn, p), s));
    case MemoryStore(r, o, x) =>
      RenamedT(rn, o, s);
      RenamedT(rn, x, s);
      t := s.Write(rn.region(r), EvalT(RenameT(rn, o), s), EvalT(RenameT(rn, x), s));
    case HavocRegions(rs) => t := HavocLifted(rn, rs, s, u);
    case Call(havocs) =>
      if havocs {
        t := WithRegions(rn, s, u);
        WithRegionsComposed(rn, s, u);
      }
    case Assume(p) => Renamed(rn, p, s);
    case Obligation(p) => Renamed(rn, p, s);
    case TypeBound(p) => Renamed(rn, p, s);
    case Nop =>
  }

  lemma HavocLifted(rn: Renamer, rs: seq<string>, s: State, u: State) returns (t: State)
    requires Injective(rn) && Fixes(rn, rs) && SameExcept(Composed(rn, s), u, Regions(rs))
    ensures SameExcept(s, t, Regions(rs)) && Same(Composed(rn, t), u)
  {
    t := s.(mem := (q: string, at: int) => if q in rs then u.mem(q, at) else s.mem(q, at));
    forall n | n !in Regions(rs) ensures SameAt(s, t, n) {
    }
    forall n ensures SameAt(Composed(rn, t), u, n) {
      if n in Regions(rs) {
        assert rn.region(n.region) == n.region;
      } else {
        assert SameAt(Composed(rn, s), u, n);
        if n.Mem? {
          FixedOutside(rn, rs, n.region);
        }
      }
    }
  }

  ghost predicate RenamesAll(rn: Renamer, effects: seq<Effect>) {
    Injective(rn) && forall e | e in effects :: Renames(rn, e)
  }

  /** Every run of the renamed effects, seen through the renaming, is a run of the effects. */
  lemma {:induction false} RunRenamed(rn: Renamer, effects: seq<Effect>, s: State, t: State) returns (u: State)
    requires RenamesAll(rn, effects) && Run(StrictEffects(RenameEffects(rn, effects)), s, t)
    ensures Run(StrictEffects(effects), Composed(rn, s), u) && Same(u, Composed(rn, t))
    decreases |effects|
  {
    if effects == [] {
      u := Composed(rn, s);
    } else {
      var e, rest := effects[0], effects[1..];
      assert StrictEffects(RenameEffects(rn, effects))[1..] == StrictEffects(RenameEffects(rn, rest));
      assert StrictEffects(effects)[1..] == StrictEffects(rest);
      var m :| Step(StrictOne(RenameEffect(rn, e)), s, m) && Run(StrictEffects(RenameEffects(rn, rest)), m, t);
      var v := StepRenamed(rn, e, s, m);
      var w := RunRenamed(rn, rest, m, t);
      SameTrans(v, Composed(rn, m), Composed(rn, m));
      u := RunSame(StrictEffects(rest), Composed(rn, m), w, v);
      SameTrans(w, u, u);
      SameTrans(u, w, Composed(rn, t));
    }
  }

  /** Every run of the effects from a state seen through the renaming comes from a run of the renamed
      effects. */
  lemma {:induction false} RunLifted(rn: Renamer, effects: seq<Effect>, s: State, u: State) returns (t: State)
    requires RenamesAll(rn, effects) && Run(StrictEffects(effects), Composed(rn, s), u)
    ensures Run(StrictEffects(RenameEffects(rn, effects)), s, t) && Same(Composed(rn, t), u)
    decreases |effects|
  {
    if effects == [] {
      t := s;
    } else {
      var e, rest := effects[0], effects[1..];
      assert StrictEffects(RenameEffects(rn, effects))[1..] == StrictEffects(RenameEffects(rn, rest));
      assert StrictEffects(effects)[1..] == StrictEffects(rest);
      var m :| Step(StrictOne(e), Composed(rn, s), m) && Run(StrictEffects(rest), m, u);
      var v := StepLifted(rn, e, s, m);
      SameTrans(Composed(rn, v), m, m);
      var w := RunSame(StrictEffects(rest), m, u, Composed(rn, v));
      t := RunLifted(rn, rest, v, w);
      SameTrans(u, w, w);
      SameTrans(Composed(rn, t), w, u);
    }
  }
}
