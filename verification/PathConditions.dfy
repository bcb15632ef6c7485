/** The path condition that the walk of src/analysis/dart/mod.rs builds is sound - a model of it
    executes the path - and, where every definition gets a name not used before, complete. */
module PathConditions {
  import opened Formulas
  import opened Semantics
  import opened Transfer
  import opened Versions
  import opened SymbolicWalk

  /** What the walk has built: the appended formula, the versions and the store chains. */
  datatype Walk = Walk(formula: Formula, naming: Naming, memory: map<string, Memory>)

  ghost function Seen(w: Walk, m: State): State {
    View(m, w.naming.version, w.memory)
  }

  // ---- Side conditions ----------------------------------------------------------------------

  /** The names an effect reads. */
  function Reads(e: Effect): set<Name> {
    match e
    case Assign(_, ValueTerm(x)) => NamesT(x)
    case Assign(_, ValueFormula(p)) => Names(p)
    case MemoryStore(_, o, x) => NamesT(o) + NamesT(x)
    case Assume(c) => Names(c)
    case Obligation(c) => Names(c)
    case TypeBound(c) => Names(c)
    case _ => {}
  }

  predicate ScalarsOnly(names: set<Name>) {
    forall n | n in names :: n.Scalar?
  }

  /** `names` holds the program's names: one sort per name, no version name among them, and
      `hidden` (the names under `BoolToInt`) part of them. */
  ghost predicate SafeNames(names: set<Name>, hidden: set<Name>) {
    (forall v: Var, w: Var :: Scalar(v) in names && Scalar(w) in names && v.name == w.name ==> v == w)
    && (forall v: Var, orig, node, visit :: v.name == VersionName(orig, node, visit) ==> Scalar(v) !in names)
    && hidden <= names
  }

  /** A well-sorted effect over `names` that assigns no hidden Boolean and stores no memory read. */
  ghost predicate SafeEffect(e: Effect, names: set<Name>, hidden: set<Name>) {
    Reads(e) <= names && EffectHidden(e) <= hidden
    && (e.Assign? ==> Scalar(e.target) in names && (e.value.ValueTerm? <==> e.target.sort == IntSort))
    && (e.Assign? && e.value.ValueFormula? ==> Scalar(e.target) !in hidden)
    && (e.MemoryStore? ==> Mem(e.region) in names && ScalarsOnly(Reads(e)))
  }

  /** Every key is a program variable, mapped to a version name; every chain keeps to its region. */
  ghost predicate Bounded(w: Walk, names: set<Name>, hidden: set<Name>) {
    (forall k | k in w.naming.version ::
       (exists orig, node, visit :: w.naming.version[k] == VersionName(orig, node, visit))
       && (Scalar(Var(k, IntSort)) in names || Scalar(Var(k, BoolSort)) in names)
       && Scalar(Var(k, BoolSort)) !in hidden)
    && forall r | r in w.memory :: OwnRegion(r, w.memory[r])
  }

  lemma BoundedSubstitutable(w: Walk, names: set<Name>, hidden: set<Name>, some: set<Name>)
    requires SafeNames(names, hidden) && Bounded(w, names, hidden) && some <= hidden
    ensures Substitutable(w.naming.version, w.memory, some)
  {
    forall k | k in w.naming.version ensures w.naming.version[k] !in w.naming.version {
      var q := w.naming.version[k];
      assert Var(q, IntSort).name == q && Var(q, BoolSort).name == q;
      var orig, node, visit :| q == VersionName(orig, node, visit);
    }
  }

  // ---- Soundness ----------------------------------------------------------------------------

  /** From every model of the formula the events run without blocking, and end in the program
      state that the model stands for. */
  ghost predicate Sound(phi1: Formula, events: seq<Event>, w: Walk, names: set<Name>) {
    forall m: State :: Eval(w.formula, m) ==> Eval(phi1, m) && Executes(events, w, names, m, m)
  }

  ghost predicate Executes(events: seq<Event>, w: Walk, names: set<Name>, s: State, m: State) {
    Outcome(events, s).Some? && SameOn(Outcome(events, s).value, Seen(w, m), names)
  }

  lemma OutcomeSnoc(events: seq<Event>, ev: Event, s: State)
    ensures Outcome(events, s).None? ==> Outcome(events + [ev], s).None?
    ensures Outcome(events, s).Some? ==>
              Outcome(events + [ev], s) ==
              if Passes(ev.effect, Outcome(events, s).value) then Some(Next(ev.effect, Outcome(events, s).value))
              else None
  {
    assert (events + [ev])[..|events|] == events;
  }

  predicate IsCondition(e: Effect, c: Formula) {
    e == Assume(c) || e == Obligation(c) || e == TypeBound(c)
  }

  ghost predicate Means(r: Formula, c: Formula, w: Walk) {
    forall m: State :: Eval(r, m) <==> Eval(c, Seen(w, m))
  }

  ghost predicate MeansT(r: Term, t: Term, w: Walk) {
    forall m: State :: EvalT(r, m) == EvalT(t, Seen(w, m))
  }

  function Conjoin(w: Walk, r: Formula): Walk {
    w.(formula := AndOf(w.formula, r))
  }

  /** A condition on the path: a run passes it exactly when the model satisfies its reading. */
  lemma ConditionStep(events: seq<Event>, w: Walk, names: set<Name>, ev: Event, c: Formula, s: State, m: State)
    requires IsCondition(ev.effect, c) && Names(c) <= names && Executes(events, w, names, s, m)
    ensures Outcome(events + [ev], s) == if Eval(c, Seen(w, m)) then Outcome(events, s) else None
  {
    OutcomeSnoc(events, ev, s);
    Congruence(c, Outcome(events, s).value, Seen(w, m));
  }

  lemma ConditionSound(phi1: Formula, events: seq<Event>, w: Walk, names: set<Name>, ev: Event, c: Formula, r: Formula)
    requires Sound(phi1, events, w, names)
    requires IsCondition(ev.effect, c) && Names(c) <= names && Means(r, c, w)
    ensures Sound(phi1, events + [ev], Conjoin(w, r), names)
  {
    forall m: State | Eval(Conjoin(w, r).formula, m)
      ensures Eval(phi1, m) && Executes(events + [ev], Conjoin(w, r), names, m, m)
    {
      AndMeaning(w.formula, r, m);
      ConditionStep(events, w, names, ev, c, m, m);
    }
  }

  // ---- Assignments --------------------------------------------------------------------------

  /** The value of the variable's own sort is replaced. */
  ghost function Give(s: State, v: Var, k: int, b: bool): State {
    if v.sort == IntSort then s.SetInt(v, k) else s.SetBool(v, b)
  }

  ghost function IntOf(value: AssignValue, s: State): int {
    if value.ValueTerm? then EvalT(value.e, s) else 0
  }

  ghost function BoolOf(value: AssignValue, s: State): bool {
    value.ValueFormula? && Eval(value.p, s)
  }

  ghost predicate Has(m: State, v: Var, k: int, b: bool) {
    if v.sort == IntSort then m.ints(v) == k else m.bools(v) == b
  }

  function GivenVar(naming: Naming, ev: Event): Var
    requires ev.effect.Assign?
  {
    Var(NameGiven(naming, ev.effect.target.name, ev.node, ev.visit), ev.effect.target.sort)
  }

  /** The equation says that the given name has the value assigned. */
  ghost predicate Equates(r: Formula, w: Walk, ev: Event)
    requires ev.effect.Assign?
  {
    forall m: State :: Eval(r, m) <==>
      Has(m, GivenVar(w.naming, ev), IntOf(ev.effect.value, Seen(w, m)), BoolOf(ev.effect.value, Seen(w, m)))
  }

  function Assigned(w: Walk, ev: Event, r: Formula): Walk
    requires ev.effect.Assign?
  {
    Walk(AndOf(w.formula, r), Renamed(w.naming, ev.effect.target.name, ev.node, ev.visit), w.memory)
  }

  lemma ValueAgrees(e: Effect, names: set<Name>, s: State, t: State)
    requires e.Assign? && SameOn(s, t, names) && Reads(e) <= names
    ensures IntOf(e.value, s) == IntOf(e.value, t) && BoolOf(e.value, s) == BoolOf(e.value, t)
  {
    match e.value
    case ValueTerm(x) => CongruenceT(x, s, t);
    case ValueFormula(p) => Congruence(p, s, t);
  }

  /** The run and the model agree, up to the value that variable `x` is about to lose. */
  ghost predicate AgreeBut(x: Var, names: set<Name>, t: State, seen: State) {
    SameOn(Give(t, x, 0, false), Give(seen, x, 0, false), names)
  }

  /** After the assignment the given name stands for the target, and every other name still
      stands for what it stood for. */
  lemma AssignStep(
      events: seq<Event>, w: Walk, names: set<Name>, hidden: set<Name>, ev: Event, r: Formula, s: State, m: State)
    requires SafeNames(names, hidden) && ev.effect.Assign? && SafeEffect(ev.effect, names, hidden)
    requires Outcome(events, s).Some? && AgreeBut(ev.effect.target, names, Outcome(events, s).value, Seen(w, m))
    requires var t := Outcome(events, s).value;
             Has(m, GivenVar(w.naming, ev), IntOf(ev.effect.value, t), BoolOf(ev.effect.value, t))
    ensures Executes(events + [ev], Assigned(w, ev, r), names, s, m)
  {
    OutcomeSnoc(events, ev, s);
    var t, x, w' := Outcome(events, s).value, ev.effect.target, Assigned(w, ev, r);
    var t' := Next(ev.effect, t);
    forall n | n in names ensures SameAt(t', Seen(w', m), n) {
      assert SameAt(Give(t, x, 0, false), Give(Seen(w, m), x, 0, false), n);
      if n.Mem? {
        assert forall at :: Give(t, x, 0, false).mem(n.region, at) == Give(Seen(w, m), x, 0, false).mem(n.region, at);
      } else if n.v != x {
        assert n.v.name != x.name;
      }
    }
  }

  lemma AssignSound(
      phi1: Formula, events: seq<Event>, w: Walk, names: set<Name>, hidden: set<Name>, ev: Event, r: Formula)
    requires Sound(phi1, events, w, names)
    requires SafeNames(names, hidden) && ev.effect.Assign? && SafeEffect(ev.effect, names, hidden) && Equates(r, w, ev)
    ensures Sound(phi1, events + [ev], Assigned(w, ev, r), names)
  {
    forall m: State | Eval(AndOf(w.formula, r), m)
      ensures Eval(phi1, m) && Executes(events + [ev], Assigned(w, ev, r), names, m, m)
    {
      AndMeaning(w.formula, r, m);
      var t := Outcome(events, m).value;
      ValueAgrees(ev.effect, names, t, Seen(w, m));
      GiveSame(ev.effect.target, names, t, Seen(w, m));
      AssignStep(events, w, names, hidden, ev, r, m, m);
    }
  }

  lemma GiveSame(x: Var, names: set<Name>, s: State, t: State)
    requires SameOn(s, t, names)
    ensures AgreeBut(x, names, s, t)
  {
    forall n | n in names ensures SameAt(Give(s, x, 0, false), Give(t, x, 0, false), n) {
      assert SameAt(s, t, n);
      if n.Mem? {
        assert forall at :: s.mem(n.region, at) == t.mem(n.region, at);
      }
    }
  }

  lemma AssignBounded(w: Walk, names: set<Name>, hidden: set<Name>, ev: Event, r: Formula)
    requires SafeNames(names, hidden) && ev.effect.Assign? && SafeEffect(ev.effect, names, hidden)
    requires Bounded(w, names, hidden)
    ensures Bounded(Assigned(w, ev, r), names, hidden)
  {
    var x := ev.effect.target;
    assert x == Var(x.name, x.sort);
    assert x.sort == IntSort ==> Scalar(Var(x.name, BoolSort)) !in names;
    assert VersionName(x.name, ev.node, ev.visit) == VersionName(x.name, ev.node, ev.visit);
  }

  // ---- Stores -------------------------------------------------------------------------------

  function ChainOf(memory: map<string, Memory>, region: string): Memory {
    if region in memory then memory[region] else Region(region)
  }

  function Stored(w: Walk, region: string, o: Term, x: Term): Walk {
    w.(memory := w.memory[region := Store(ChainOf(w.memory, region), o, x)])
  }

  lemma StoreStep(
      events: seq<Event>, w: Walk, names: set<Name>, ev: Event, o: Term, x: Term, s: State, m: State)
    requires ev.effect.MemoryStore? && Reads(ev.effect) <= names
    requires MeansT(o, ev.effect.offset, w) && MeansT(x, ev.effect.stored, w)
    requires Executes(events, w, names, s, m)
    ensures Executes(events + [ev], Stored(w, ev.effect.region, o, x), names, s, m)
  {
    OutcomeSnoc(events, ev, s);
    StoreSeen(w, names, ev.effect, o, x, Outcome(events, s).value, m);
  }

  lemma StoreSeen(w: Walk, names: set<Name>, e: Effect, o: Term, x: Term, t: State, m: State)
    requires e.MemoryStore? && Reads(e) <= names && MeansT(o, e.offset, w) && MeansT(x, e.stored, w)
    requires SameOn(t, Seen(w, m), names)
    ensures SameOn(Next(e, t), Seen(Stored(w, e.region, o, x), m), names)
  {
    var w' := Stored(w, e.region, o, x);
    CongruenceT(e.offset, t, Seen(w, m));
    CongruenceT(e.stored, t, Seen(w, m));
    forall n | n in names ensures SameAt(Next(e, t), Seen(w', m), n) {
      assert SameAt(t, Seen(w, m), n);
      if n.Mem? {
        forall at ensures Next(e, t).mem(n.region, at) == Seen(w', m).mem(n.region, at) {
          assert Read(Region(e.region), m, at) == m.mem(e.region, at);
        }
      }
    }
  }

  lemma StoreBounded(w: Walk, names: set<Name>, hidden: set<Name>, e: Effect, o: Term, x: Term)
    requires SafeNames(names, hidden) && e.MemoryStore? && SafeEffect(e, names, hidden) && Bounded(w, names, hidden)
    requires MeansT(o, e.offset, w) && MeansT(x, e.stored, w)
    ensures Bounded(Stored(w, e.region, o, x), names, hidden)
  {
    var chain := ChainOf(w.memory, e.region);
    forall s: State, t: State, at: int | SameScalars(s, t) && SameAt(s, t, Mem(e.region))
      ensures Read(Store(chain, o, x), s, at) == Read(Store(chain, o, x), t, at)
    {
      assert forall n | n in Reads(e) :: SameAt(Seen(w, s), Seen(w, t), n);
      CongruenceT(e.offset, Seen(w, s), Seen(w, t));
      CongruenceT(e.stored, Seen(w, s), Seen(w, t));
      assert Read(Region(e.region), s, at) == s.mem(e.region, at)
             && Read(Region(e.region), t, at) == t.mem(e.region, at);
    }
    assert OwnRegion(e.region, Store(chain, o, x));
  }

  // ---- Completeness -------------------------------------------------------------------------

  function NamingAfter(events: seq<Event>): Naming {
    if events == [] then Naming(map[], {})
    else
      var naming, last := NamingAfter(events[..|events| - 1]), events[|events| - 1];
      if last.effect.Assign? then Renamed(naming, last.effect.target.name, last.node, last.visit) else naming
  }

  /** The given name, in both sorts. */
  function GivenNames(naming: Naming, ev: Event): set<Name> {
    if ev.effect.Assign?
    then {Scalar(GivenVar(naming, ev).(sort := IntSort)), Scalar(GivenVar(naming, ev).(sort := BoolSort))}
    else {}
  }

  function Given(events: seq<Event>): set<Name> {
    if events == [] then {}
    else Given(events[..|events| - 1]) + GivenNames(NamingAfter(events[..|events| - 1]), events[|events| - 1])
  }

  /** What has been read so far under its own name, and every name given. */
  function Mentioned(start: set<Name>, events: seq<Event>): set<Name> {
    if events == [] then start
    else
      var front, last := events[..|events| - 1], events[|events| - 1];
      Mentioned(start, front) + Reads(last.effect) + GivenNames(NamingAfter(front), last)
  }

  /** Every definition gets a name not mentioned before: versions do not collide, and a variable
      that keeps its name was not read before it. */
  predicate FreshlyNamed(start: set<Name>, events: seq<Event>) {
    events == []
    || (var front, last := events[..|events| - 1], events[|events| - 1];
        FreshlyNamed(start, front)
        && (last.effect.Assign? ==>
              Scalar(GivenVar(NamingAfter(front), last)) !in Mentioned(start, front) + Reads(last.effect)))
  }

  /** Neither the formula nor a chain depends on `v`. */
  ghost predicate Ignores(w: Walk, v: Var) {
    forall m: State, k: int, b: bool ::
      (Eval(w.formula, Give(m, v, k, b)) <==> Eval(w.formula, m))
      && forall r, at | r in w.memory :: Read(w.memory[r], Give(m, v, k, b), at) == Read(w.memory[r], m, at)
  }

  ghost predicate Confined(w: Walk, used: set<Name>) {
    (forall k, sort | k in w.naming.version :: Scalar(Var(w.naming.version[k], sort)) in used)
    && forall v :: Scalar(v) !in used ==> Ignores(w, v)
  }

  lemma SeenGive(w: Walk, used: set<Name>, v: Var, m: State, k: int, b: bool)
    requires Confined(w, used) && Scalar(v) !in used
    ensures SameExcept(Seen(w, m), Seen(w, Give(m, v, k, b)), {Scalar(v)})
  {
    assert Ignores(w, v);
    forall n | n != Scalar(v) ensures SameAt(Seen(w, m), Seen(w, Give(m, v, k, b)), n) {
      if n.Scalar? && n.v.name in w.naming.version {
        assert Scalar(Var(w.naming.version[n.v.name], n.v.sort)) in used;
      }
    }
  }

  lemma ConditionConfined(w: Walk, used: set<Name>, c: Formula, r: Formula)
    requires Confined(w, used) && Means(r, c, w)
    ensures Confined(Conjoin(w, r), used + Names(c))
  {
    forall v, m: State, k, b | Scalar(v) !in used + Names(c)
      ensures Eval(AndOf(w.formula, r), Give(m, v, k, b)) <==> Eval(AndOf(w.formula, r), m)
      ensures forall q, at | q in w.memory :: Read(w.memory[q], Give(m, v, k, b), at) == Read(w.memory[q], m, at)
    {
      assert Ignores(w, v);
      AndMeaning(w.formula, r, m);
      AndMeaning(w.formula, r, Give(m, v, k, b));
      SeenGive(w, used, v, m, k, b);
      Congruence(c, Seen(w, m), Seen(w, Give(m, v, k, b)));
    }
  }

  lemma AssignConfined(w: Walk, used: set<Name>, ev: Event, r: Formula)
    requires Confined(w, used) && ev.effect.Assign? && Equates(r, w, ev)
    ensures Confined(Assigned(w, ev, r), used + Reads(ev.effect) + GivenNames(w.naming, ev))
  {
    var all := used + Reads(ev.effect) + GivenNames(w.naming, ev);
    forall v, m: State, k, b | Scalar(v) !in all
      ensures Eval(AndOf(w.formula, r), Give(m, v, k, b)) <==> Eval(AndOf(w.formula, r), m)
      ensures forall q, at | q in w.memory :: Read(w.memory[q], Give(m, v, k, b), at) == Read(w.memory[q], m, at)
    {
      assert Ignores(w, v);
      AndMeaning(w.formula, r, m);
      AndMeaning(w.formula, r, Give(m, v, k, b));
      SeenGive(w, used, v, m, k, b);
      ValueAgrees(ev.effect, Reads(ev.effect), Seen(w, m), Seen(w, Give(m, v, k, b)));
      assert v != GivenVar(w.naming, ev);
    }
    forall q, sort: Sort | q in Assigned(w, ev, r).naming.version
      ensures Scalar(Var(Assigned(w, ev, r).naming.version[q], sort)) in all
    {
      if q in w.naming.version && Assigned(w, ev, r).naming.version[q] == w.naming.version[q] {
        assert Scalar(Var(w.naming.version[q], sort)) in used;
      } else {
        assert Var(Assigned(w, ev, r).naming.version[q], sort) == GivenVar(w.naming, ev).(sort := sort);
        assert sort == IntSort || sort == BoolSort;
      }
    }
  }

  lemma StoreConfined(w: Walk, used: set<Name>, e: Effect, o: Term, x: Term)
    requires Confined(w, used) && e.MemoryStore? && MeansT(o, e.offset, w) && MeansT(x, e.stored, w)
    ensures Confined(Stored(w, e.region, o, x), used + Reads(e))
  {
    var w' := Stored(w, e.region, o, x);
    forall v, m: State, k, b | Scalar(v) !in used + Reads(e)
      ensures Eval(w.formula, Give(m, v, k, b)) <==> Eval(w.formula, m)
      ensures forall q, at | q in w'.memory :: Read(w'.memory[q], Give(m, v, k, b), at) == Read(w'.memory[q], m, at)
    {
      assert Ignores(w, v);
      SeenGive(w, used, v, m, k, b);
      CongruenceT(e.offset, Seen(w, m), Seen(w, Give(m, v, k, b)));
      CongruenceT(e.stored, Seen(w, m), Seen(w, Give(m, v, k, b)));
      forall at
        ensures Read(ChainOf(w.memory, e.region), Give(m, v, k, b), at) == Read(ChainOf(w.memory, e.region), m, at)
      {
        assert Read(Region(e.region), m, at) == m.mem(e.region, at);
      }
    }
  }

  /** Every run of the events extends to a model: the state it starts in, changed only at the
      names given on the way. */
  ghost predicate Complete(phi1: Formula, events: seq<Event>, w: Walk, names: set<Name>) {
    forall s: State :: Eval(phi1, s) && Outcome(events, s).Some? ==>
      exists m: State :: Extends(events, w, names, s, m)
  }

  ghost predicate Extends(events: seq<Event>, w: Walk, names: set<Name>, s: State, m: State) {
    Eval(w.formula, m) && Executes(events, w, names, s, m) && SameExcept(s, m, Given(events))
  }

  lemma ConditionComplete(
      phi1: Formula, events: seq<Event>, w: Walk, names: set<Name>, ev: Event, c: Formula, r: Formula)
    requires Complete(phi1, events, w, names)
    requires IsCondition(ev.effect, c) && Names(c) <= names && Means(r, c, w)
    ensures Complete(phi1, events + [ev], Conjoin(w, r), names)
  {
    forall s: State | Eval(phi1, s) && Outcome(events + [ev], s).Some?
      ensures exists m: State :: Extends(events + [ev], Conjoin(w, r), names, s, m)
    {
      OutcomeSnoc(events, ev, s);
      var m: State :| Extends(events, w, names, s, m);
      ConditionStep(events, w, names, ev, c, s, m);
      AndMeaning(w.formula, r, m);
      GivenSnoc(events, ev);
      assert Extends(events + [ev], Conjoin(w, r), names, s, m);
    }
  }

  lemma GivenSnoc(events: seq<Event>, ev: Event)
    ensures Given(events + [ev]) == Given(events) + GivenNames(NamingAfter(events), ev)
    ensures NamingAfter(events + [ev]) ==
            if ev.effect.Assign? then Renamed(NamingAfter(events), ev.effect.target.name, ev.node, ev.visit)
            else NamingAfter(events)
  {
    assert (events + [ev])[..|events|] == events;
  }

  lemma MentionedSnoc(start: set<Name>, events: seq<Event>, ev: Event)
    ensures Mentioned(start, events + [ev]) ==
            Mentioned(start, events) + Reads(ev.effect) + GivenNames(NamingAfter(events), ev)
    ensures FreshlyNamed(start, events + [ev]) <==>
            FreshlyNamed(start, events)
            && (ev.effect.Assign? ==>
                  Scalar(GivenVar(NamingAfter(events), ev)) !in Mentioned(start, events) + Reads(ev.effect))
  {
    assert (events + [ev])[..|events|] == events;
  }

  /** Giving the new name the assigned value satisfies the equation and keeps what was there. */
  lemma GivenSatisfies(w: Walk, names: set<Name>, used: set<Name>, ev: Event, r: Formula, t: State, m: State)
    requires ev.effect.Assign? && Reads(ev.effect) <= names && Equates(r, w, ev) && Confined(w, used)
    requires Scalar(GivenVar(w.naming, ev)) !in used + Reads(ev.effect)
    requires Eval(w.formula, m) && SameOn(t, Seen(w, m), names)
    ensures var n := Give(m, GivenVar(w.naming, ev), IntOf(ev.effect.value, t), BoolOf(ev.effect.value, t));
            Eval(AndOf(w.formula, r), n)
  {
    var v := GivenVar(w.naming, ev);
    var k, b := IntOf(ev.effect.value, t), BoolOf(ev.effect.value, t);
    var n := Give(m, v, k, b);
    assert Ignores(w, v);
    SeenGive(w, used, v, m, k, b);
    ValueAgrees(ev.effect, names, t, Seen(w, m));
    ValueAgrees(ev.effect, Reads(ev.effect), Seen(w, m), Seen(w, n));
    AndMeaning(w.formula, r, n);
  }

  /** Giving the new name its value extends the model. */
  lemma AssignExtends(
      events: seq<Event>, w: Walk, names: set<Name>, hidden: set<Name>, used: set<Name>, ev: Event, r: Formula,
      s: State, m: State) returns (n: State)
    requires SafeNames(names, hidden) && ev.effect.Assign? && SafeEffect(ev.effect, names, hidden) && Equates(r, w, ev)
    requires Confined(w, used) && Scalar(GivenVar(w.naming, ev)) !in used + Reads(ev.effect)
    requires Extends(events, w, names, s, m) && w.naming == NamingAfter(events)
    ensures Extends(events + [ev], Assigned(w, ev, r), names, s, n)
  {
    var v, t := GivenVar(w.naming, ev), Outcome(events, s).value;
    var k, b := IntOf(ev.effect.value, t), BoolOf(ev.effect.value, t);
    n := Give(m, v, k, b);
    GivenSatisfies(w, names, used, ev, r, t, m);
    SeenGive(w, used, v, m, k, b);
    AgreeAfterGive(names, hidden, w, ev, t, Seen(w, m), Seen(w, n));
    AssignStep(events, w, names, hidden, ev, r, s, n);
    GivenSnoc(events, ev);
    forall q | q !in Given(events + [ev]) ensures SameAt(s, n, q) {
      assert SameAt(s, m, q) && q != Scalar(v);
    }
  }

  lemma AgreeAfterGive(names: set<Name>, hidden: set<Name>, w: Walk, ev: Event, t: State, seen: State, after: State)
    requires SafeNames(names, hidden) && ev.effect.Assign? && SafeEffect(ev.effect, names, hidden)
    requires SameOn(t, seen, names) && SameExcept(seen, after, {Scalar(GivenVar(w.naming, ev))})
    requires ev.effect.target.sort == IntSort ==> seen.bools(ev.effect.target) == after.bools(ev.effect.target)
    requires ev.effect.target.sort == BoolSort ==> seen.ints(ev.effect.target) == after.ints(ev.effect.target)
    ensures AgreeBut(ev.effect.target, names, t, after)
  {
    var v, x := GivenVar(w.naming, ev), ev.effect.target;
    forall n | n in names ensures SameAt(Give(t, x, 0, false), Give(after, x, 0, false), n) {
      assert SameAt(t, seen, n);
      if n != Scalar(v) {
        assert SameAt(seen, after, n);
      }
      if n.Mem? {
        assert forall at :: t.mem(n.region, at) == after.mem(n.region, at);
      }
    }
  }

  lemma AssignComplete(
      phi1: Formula, events: seq<Event>, w: Walk, names: set<Name>, hidden: set<Name>, used: set<Name>, ev: Event,
      r: Formula)
    requires Complete(phi1, events, w, names)
    requires SafeNames(names, hidden) && ev.effect.Assign? && SafeEffect(ev.effect, names, hidden) && Equates(r, w, ev)
    requires Confined(w, used) && Scalar(GivenVar(w.naming, ev)) !in used + Reads(ev.effect)
    requires w.naming == NamingAfter(events)
    ensures Complete(phi1, events + [ev], Assigned(w, ev, r), names)
  {
    forall s: State | Eval(phi1, s) && Outcome(events + [ev], s).Some?
      ensures exists m: State :: Extends(events + [ev], Assigned(w, ev, r), names, s, m)
    {
      OutcomeSnoc(events, ev, s);
      var m: State :| Extends(events, w, names, s, m);
      var n := AssignExtends(events, w, names, hidden, used, ev, r, s, m);
    }
  }

  lemma StoreComplete(phi1: Formula, events: seq<Event>, w: Walk, names: set<Name>, ev: Event, o: Term, x: Term)
    requires Complete(phi1, events, w, names)
    requires ev.effect.MemoryStore? && Reads(ev.effect) <= names
    requires MeansT(o, ev.effect.offset, w) && MeansT(x, ev.effect.stored, w)
    ensures Complete(phi1, events + [ev], Stored(w, ev.effect.region, o, x), names)
  {
    forall s: State | Eval(phi1, s) && Outcome(events + [ev], s).Some?
      ensures exists m: State :: Extends(events + [ev], Stored(w, ev.effect.region, o, x), names, s, m)
    {
      OutcomeSnoc(events, ev, s);
      var m: State :| Extends(events, w, names, s, m);
      StoreStep(events, w, names, ev, o, x, s, m);
      GivenSnoc(events, ev);
      assert Extends(events + [ev], Stored(w, ev.effect.region, o, x), names, s, m);
    }
  }
}
