/** Instantiating a callee's relation at a call site, src/cfg/adapter.rs: its names are renamed to
    the caller's, and its external regions become the regions of the actual pointers. */
module CallSites {
  import opened Formulas
  import opened Semantics
  import opened AlphaRenaming

  // ---- Renaming the callee's names ------------------------------------------------------------

  function StripPrefix(prefix: string, name: string): Option<string> {
    if prefix <= name then Some(name[|prefix|..]) else None
  }

  /** The name a callee's name gets: its mapping, or a call-local name, or itself. */
  function CalleeName(mapping: map<string, string>, callee: string, localPrefix: string, name: string): string {
    if name in mapping then mapping[name]
    else
      match StripPrefix(callee + "$", name)
      case Some(suffix) => localPrefix + "$" + suffix
      case None => name
  }

  function CalleeRenamer(mapping: map<string, string>, callee: string, localPrefix: string): Renamer {
    Renamer(name => CalleeName(mapping, callee, localPrefix, name),
            name => CalleeName(mapping, callee, localPrefix, name))
  }

  /** `rename_callee_vars`. */
  function RenameCalleeVars(f: Formula, mapping: map<string, string>, callee: string, localPrefix: string): Formula {
    Rename(CalleeRenamer(mapping, callee, localPrefix), f)
  }

  // ---- External regions -----------------------------------------------------------------------

  /** An external region of the callee, the region it stands for and where in it it starts. */
  datatype Binding = Binding(key: string, region: string, base: Term)

  /** The binding of exactly this region, in a map listed in key order. */
  function Exact(bindings: seq<Binding>, name: string): Option<Binding> {
    if bindings == [] then None
    else if bindings[0].key == name then Some(bindings[0])
    else Exact(bindings[1..], name)
  }

  /** The first binding whose key starts the name with a field suffix after it. */
  function FieldOf(bindings: seq<Binding>, name: string): Option<string> {
    if bindings == [] then None
    else
      match StripPrefix(bindings[0].key, name)
      case Some(suffix) =>
        if "$" <= suffix then Some(bindings[0].region + suffix) else FieldOf(bindings[1..], name)
      case None => FieldOf(bindings[1..], name)
  }

  function ActualRegion(bindings: seq<Binding>, name: string): string {
    match Exact(bindings, name)
    case Some(b) => b.region
    case None =>
      match FieldOf(bindings, name)
      case Some(region) => region
      case None => name
  }

  /** `substitute_ext_regions`: a plain read of a bound region is shifted by its base; a field
      region keeps its own indices. */
  function SubstituteRegions(bindings: seq<Binding>, f: Formula): Formula
    decreases f
  {
    match f
    case True => True
    case False => False
    case FVar(_) => f
    case Not(g) => Not(SubstituteRegions(bindings, g))
    case And(items) => AndMany(seq(|items|, i requires 0 <= i < |items| => SubstituteRegions(bindings, items[i])))
    case Or(items) => OrMany(seq(|items|, i requires 0 <= i < |items| => SubstituteRegions(bindings, items[i])))
    case Implies(lhs, rhs) => ImpliesOf(SubstituteRegions(bindings, lhs), SubstituteRegions(bindings, rhs))
    case Cmp(op, l, r) => Cmp(op, SubstituteRegionsT(bindings, l), SubstituteRegionsT(bindings, r))
    case MemoryEq(ml, mr) => MemoryEq(SubstituteRegionsM(bindings, ml), SubstituteRegionsM(bindings, mr))
  }

  function SubstituteRegionsT(bindings: seq<Binding>, t: Term): Term
    decreases t
  {
    match t
    case TVar(_) => t
    case Int(_) => t
    case BoolToInt(f) => BoolToInt(SubstituteRegions(bindings, f))
    case Select(m, i) =>
      var index := SubstituteRegionsT(bindings, i);
      if m.Region? && Exact(bindings, m.name).Some? then
        var b := Exact(bindings, m.name).value;
        Select(Region(b.region), Bin(Add, b.base, index))
      else Select(SubstituteRegionsM(bindings, m), index)
    case Bin(op, l, r) => Bin(op, SubstituteRegionsT(bindings, l), SubstituteRegionsT(bindings, r))
    case Neg(u) => Neg(SubstituteRegionsT(bindings, u))
  }

  function SubstituteRegionsM(bindings: seq<Binding>, m: Memory): Memory
    decreases m
  {
    match m
    case Region(r) => Region(ActualRegion(bindings, r))
    case Store(inner, i, x) =>
      Store(SubstituteRegionsM(bindings, inner), SubstituteRegionsT(bindings, i), SubstituteRegionsT(bindings, x))
  }

  // ---- Meaning --------------------------------------------------------------------------------

  /** The callee's view of the caller's memory: bound regions are windows into actual ones. */
  ghost function CalleeView(bindings: seq<Binding>, s: State): State {
    s.(mem := (r: string, at: int) =>
         match Exact(bindings, r)
         case Some(b) => s.mem(b.region, EvalT(b.base, s) + at)
         case None => s.mem(ActualRegion(bindings, r), at))
  }

  /** Bound regions occur only under a plain `select`. */
  ghost predicate PlainReads(bindings: seq<Binding>, f: Formula) {
    match f
    case Not(g) => PlainReads(bindings, g)
    case And(items) => forall g | g in items :: PlainReads(bindings, g)
    case Or(items) => forall g | g in items :: PlainReads(bindings, g)
    case Implies(lhs, rhs) => PlainReads(bindings, lhs) && PlainReads(bindings, rhs)
    case Cmp(_, l, r) => PlainReadsT(bindings, l) && PlainReadsT(bindings, r)
    case MemoryEq(ml, mr) => Unbound(bindings, ml) && Unbound(bindings, mr)
    case _ => true
  }

  ghost predicate PlainReadsT(bindings: seq<Binding>, t: Term) {
    match t
    case BoolToInt(f) => PlainReads(bindings, f)
    case Select(m, i) => (m.Region? || Unbound(bindings, m)) && PlainReadsT(bindings, i)
    case Bin(_, l, r) => PlainReadsT(bindings, l) && PlainReadsT(bindings, r)
    case Neg(u) => PlainReadsT(bindings, u)
    case _ => true
  }

  ghost predicate Unbound(bindings: seq<Binding>, m: Memory) {
    match m
    case Region(r) => Exact(bindings, r).None?
    case Store(inner, i, x) => Unbound(bindings, inner) && PlainReadsT(bindings, i) && PlainReadsT(bindings, x)
  }

  /** The substituted formula evaluates in the caller as the original in the callee's view. */
  lemma {:induction false} RegionsSubstituted(bindings: seq<Binding>, f: Formula, s: State)
    requires PlainReads(bindings, f)
    ensures Eval(SubstituteRegions(bindings, f), s) <==> Eval(f, CalleeView(bindings, s))
    decreases f
  {
    match f
    case True =>
    case False =>
    case FVar(_) =>
    case Not(g) => RegionsSubstituted(bindings, g, s);
    case And(items) => AllSubstituted(bindings, f, items, true, s);
    case Or(items) => AllSubstituted(bindings, f, items, false, s);
    case Implies(lhs, rhs) =>
      RegionsSubstituted(bindings, lhs, s);
      RegionsSubstituted(bindings, rhs, s);
    case Cmp(_, l, r) =>
      RegionsSubstitutedT(bindings, l, s);
      RegionsSubstitutedT(bindings, r, s);
    case MemoryEq(ml, mr) => MemoriesSubstituted(bindings, ml, mr, s);
  }

  lemma {:induction false} MemoriesSubstituted(bindings: seq<Binding>, ml: Memory, mr: Memory, s: State)
    requires Unbound(bindings, ml) && Unbound(bindings, mr)
    ensures Eval(MemoryEq(SubstituteRegionsM(bindings, ml), SubstituteRegionsM(bindings, mr)), s)
       <==> Eval(MemoryEq(ml, mr), CalleeView(bindings, s))
    decreases MemoryEq(ml, mr), 0
  {
    var v := CalleeView(bindings, s);
    forall at
      ensures Read(SubstituteRegionsM(bindings, ml), s, at) == Read(ml, v, at)
      ensures Read(SubstituteRegionsM(bindings, mr), s, at) == Read(mr, v, at)
    {
      RegionsSubstitutedM(bindings, ml, s, at);
      RegionsSubstitutedM(bindings, mr, s, at);
    }
  }

  lemma {:induction false} AllSubstituted(bindings: seq<Binding>, f: Formula, items: seq<Formula>, conj: bool, s: State)
    requires f == (if conj then And(items) else Or(items)) && PlainReads(bindings, f)
    ensures Eval(SubstituteRegions(bindings, f), s) <==> Eval(f, CalleeView(bindings, s))
    decreases f, 0
  {
    var mapped := seq(|items|, i requires 0 <= i < |items| => SubstituteRegions(bindings, items[i]));
    JoinMeaning(conj, mapped, s);
    forall i | 0 <= i < |items|
      ensures items[i] in items && mapped[i] in mapped
      ensures Eval(mapped[i], s) <==> Eval(items[i], CalleeView(bindings, s))
    {
      RegionsSubstituted(bindings, items[i], s);
    }
  }

  lemma {:induction false} RegionsSubstitutedT(bindings: seq<Binding>, t: Term, s: State)
    requires PlainReadsT(bindings, t)
    ensures EvalT(SubstituteRegionsT(bindings, t), s) == EvalT(t, CalleeView(bindings, s))
    decreases t
  {
    match t
    case TVar(_) =>
    case Int(_) =>
    case BoolToInt(f) => RegionsSubstituted(bindings, f, s);
    case Select(m, i) =>
      RegionsSubstitutedT(bindings, i, s);
      var at := EvalT(SubstituteRegionsT(bindings, i), s);
      if m.Region? && Exact(bindings, m.name).Some? {
        var b := Exact(bindings, m.name).value;
        assert EvalT(Bin(Add, b.base, SubstituteRegionsT(bindings, i)), s) == EvalT(b.base, s) + at;
        assert Read(Region(b.region), s, EvalT(b.base, s) + at) == s.mem(b.region, EvalT(b.base, s) + at);
      } else {
        RegionsSubstitutedM(bindings, m, s, at);
      }
    case Bin(_, l, r) =>
      RegionsSubstitutedT(bindings, l, s);
      RegionsSubstitutedT(bindings, r, s);
    case Neg(u) => RegionsSubstitutedT(bindings, u, s);
  }

  lemma {:induction false} RegionsSubstitutedM(bindings: seq<Binding>, m: Memory, s: State, at: int)
    requires Unbound(bindings, m)
    ensures Read(SubstituteRegionsM(bindings, m), s, at) == Read(m, CalleeView(bindings, s), at)
    decreases m
  {
    match m
    case Region(_) =>
    case Store(inner, i, x) =>
      RegionsSubstitutedM(bindings, inner, s, at);
      RegionsSubstitutedT(bindings, i, s);
      RegionsSubstitutedT(bindings, x, s);
  }

  // ---- The call as a whole --------------------------------------------------------------------

  /** The caller's name for a callee's name: a mapped name gets its mapping, another name of the
      callee moves under the prefix of the call, and any other name stays. */
  ghost predicate Becomes(mapping: map<string, string>, callee: string, localPrefix: string, name: string, n: string) {
    if name in mapping then n == mapping[name]
    else if callee + "$" <= name then exists suffix :: name == callee + "$" + suffix && n == localPrefix + "$" + suffix
    else n == name
  }

  lemma CalleeNameBecomes(mapping: map<string, string>, callee: string, localPrefix: string, name: string)
    ensures forall n :: Becomes(mapping, callee, localPrefix, name, n)
                        <==> n == CalleeName(mapping, callee, localPrefix, name)
  {
    if name !in mapping && callee + "$" <= name {
      var rest := name[|callee + "$"|..];
      assert name == callee + "$" + rest;
      forall suffix | name == callee + "$" + suffix ensures suffix == rest {
        assert (callee + "$" + suffix)[|callee + "$"|..] == suffix;
      }
    }
  }

  /** The binding is the first for exactly this region. */
  ghost predicate BoundBy(bindings: seq<Binding>, i: nat, region: string) {
    i < |bindings| && bindings[i].key == region && forall j | 0 <= j < i :: bindings[j].key != region
  }

  /** The region is a field under this key and under none before it. */
  ghost predicate FirstField(bindings: seq<Binding>, i: nat, region: string) {
    i < |bindings| && bindings[i].key + "$" <= region && forall j | 0 <= j < i :: !(bindings[j].key + "$" <= region)
  }

  /** No binding is for exactly this region, and this is the first whose fields it belongs to. */
  ghost predicate FieldBoundBy(bindings: seq<Binding>, i: nat, region: string) {
    FirstField(bindings, i, region) && forall j | 0 <= j < |bindings| :: bindings[j].key != region
  }

  /** The field of the actual region that a field region stands for. */
  function FieldRegion(b: Binding, region: string): string
    requires |b.key| <= |region|
  {
    b.region + region[|b.key|..]
  }

  /** What the callee reads at an index of one of its regions: a bound region is a window into the
      actual region, starting at the base; a field region is the same field of the actual region;
      any other region is itself. */
  ghost predicate SeenAs(bindings: seq<Binding>, s: State, region: string, at: int, k: int) {
    (forall i: nat | BoundBy(bindings, i, region) :: k == s.mem(bindings[i].region, EvalT(bindings[i].base, s) + at))
    && (forall i: nat | FieldBoundBy(bindings, i, region) :: k == s.mem(FieldRegion(bindings[i], region), at))
    && ((forall j | 0 <= j < |bindings| :: bindings[j].key != region && !(bindings[j].key + "$" <= region)) ==>
          k == s.mem(region, at))
  }

  /** The callee's state at the call: every name reads the caller's name for it, every region its
      window. */
  ghost predicate CalleeState(
      mapping: map<string, string>, callee: string, localPrefix: string, bindings: seq<Binding>, s: State, v: State)
  {
    && SameOps(s, v)
    && (forall x: Var, n | Becomes(mapping, callee, localPrefix, x.name, n) ::
          v.ints(x) == s.ints(Var(n, x.sort)) && v.bools(x) == s.bools(Var(n, x.sort)))
    && forall r, n, at | Becomes(mapping, callee, localPrefix, r, n) :: SeenAs(bindings, s, n, at, v.mem(r, at))
  }

  lemma {:induction false} ExactBound(bindings: seq<Binding>, region: string) returns (i: nat)
    ensures Exact(bindings, region).None? ==> forall j | 0 <= j < |bindings| :: bindings[j].key != region
    ensures Exact(bindings, region).Some? ==>
              BoundBy(bindings, i, region) && Exact(bindings, region).value == bindings[i]
  {
    i := 0;
    if bindings != [] && bindings[0].key != region {
      var rest := bindings[1..];
      var k := ExactBound(rest, region);
      i := k + 1;
      assert forall j | 0 < j < |bindings| :: bindings[j] == rest[j - 1];
    }
  }

  lemma SuffixDollar(key: string, region: string)
    ensures key + "$" <= region <==> key <= region && "$" <= region[|key|..]
  {
    if key <= region && "$" <= region[|key|..] {
      assert region == key + region[|key|..] && region[|key|..] == "$" + region[|key|..][1..];
      assert region == (key + "$") + region[|key|..][1..];
    }
    if key + "$" <= region {
      assert region[..|key|] == (key + "$")[..|key|] == key;
      assert region[|key|] == (key + "$")[|key|] == '$' && region[|key|..][0] == '$';
    }
  }

  lemma {:induction false} FieldFirst(bindings: seq<Binding>, region: string) returns (i: nat)
    ensures FieldOf(bindings, region).None? ==> forall j | 0 <= j < |bindings| :: !(bindings[j].key + "$" <= region)
    ensures FieldOf(bindings, region).Some? ==>
              FirstField(bindings, i, region) && FieldOf(bindings, region).value == FieldRegion(bindings[i], region)
  {
    i := 0;
    if bindings != [] {
      var first, rest := bindings[0], bindings[1..];
      SuffixDollar(first.key, region);
      if !(first.key + "$" <= region) {
        var k := FieldFirst(rest, region);
        i := k + 1;
        assert FieldOf(bindings, region) == FieldOf(rest, region);
        assert forall j | 0 < j < |bindings| :: bindings[j] == rest[j - 1];
      }
    }
  }

  lemma BoundSeen(bindings: seq<Binding>, s: State, region: string, at: int, k: int, i: nat)
    requires BoundBy(bindings, i, region)
    ensures SeenAs(bindings, s, region, at, k) <==> k == s.mem(bindings[i].region, EvalT(bindings[i].base, s) + at)
  {
    assert forall j: nat | BoundBy(bindings, j, region) :: j == i;
    assert forall j: nat :: !FieldBoundBy(bindings, j, region);
  }

  lemma FieldSeen(bindings: seq<Binding>, s: State, region: string, at: int, k: int, i: nat)
    requires FieldBoundBy(bindings, i, region)
    ensures SeenAs(bindings, s, region, at, k) <==> k == s.mem(FieldRegion(bindings[i], region), at)
  {
    assert forall j: nat :: !BoundBy(bindings, j, region);
    assert forall j: nat | FieldBoundBy(bindings, j, region) :: j == i;
  }

  lemma PlainSeen(bindings: seq<Binding>, s: State, region: string, at: int, k: int)
    requires forall j | 0 <= j < |bindings| :: bindings[j].key != region && !(bindings[j].key + "$" <= region)
    ensures SeenAs(bindings, s, region, at, k) <==> k == s.mem(region, at)
  {
    assert forall j: nat :: !BoundBy(bindings, j, region) && !FieldBoundBy(bindings, j, region);
  }

  lemma UnboundSeen(bindings: seq<Binding>, s: State, region: string, at: int, k: int)
    requires Exact(bindings, region).None? && forall j | 0 <= j < |bindings| :: bindings[j].key != region
    ensures SeenAs(bindings, s, region, at, k) <==> k == s.mem(ActualRegion(bindings, region), at)
  {
    var i := FieldFirst(bindings, region);
    if FieldOf(bindings, region).Some? {
      FieldSeen(bindings, s, region, at, k, i);
    } else {
      PlainSeen(bindings, s, region, at, k);
    }
  }

  /** The view is the only reading of the windows. */
  lemma ViewSeen(bindings: seq<Binding>, s: State, region: string, at: int, k: int)
    ensures SeenAs(bindings, s, region, at, k) <==> k == CalleeView(bindings, s).mem(region, at)
  {
    var i := ExactBound(bindings, region);
    if Exact(bindings, region).Some? {
      BoundSeen(bindings, s, region, at, k, i);
    } else {
      UnboundSeen(bindings, s, region, at, k);
    }
  }

  lemma ComposedReads(
      mapping: map<string, string>, callee: string, localPrefix: string, bindings: seq<Binding>, s: State)
    ensures var v := Composed(CalleeRenamer(mapping, callee, localPrefix), CalleeView(bindings, s));
            (forall x: Var ::
               var y := Var(CalleeName(mapping, callee, localPrefix, x.name), x.sort);
               v.ints(x) == s.ints(y) && v.bools(x) == s.bools(y))
            && forall r, at ::
                 v.mem(r, at) == CalleeView(bindings, s).mem(CalleeName(mapping, callee, localPrefix, r), at)
  {
    var rn := CalleeRenamer(mapping, callee, localPrefix);
    var v := Composed(rn, CalleeView(bindings, s));
    forall x: Var
      ensures var y := Var(CalleeName(mapping, callee, localPrefix, x.name), x.sort);
              v.ints(x) == s.ints(y) && v.bools(x) == s.bools(y)
    {
      assert rn.OfVar(x) == Var(CalleeName(mapping, callee, localPrefix, x.name), x.sort);
    }
  }

  /** Every caller state has a callee state. */
  lemma CalleeStateExists(
      mapping: map<string, string>, callee: string, localPrefix: string, bindings: seq<Binding>, s: State)
    returns (v: State)
    ensures CalleeState(mapping, callee, localPrefix, bindings, s, v)
  {
    v := Composed(CalleeRenamer(mapping, callee, localPrefix), CalleeView(bindings, s));
    ComposedReads(mapping, callee, localPrefix, bindings, s);
    forall x: Var, n | Becomes(mapping, callee, localPrefix, x.name, n)
      ensures v.ints(x) == s.ints(Var(n, x.sort)) && v.bools(x) == s.bools(Var(n, x.sort))
    {
      CalleeNameBecomes(mapping, callee, localPrefix, x.name);
    }
    forall r, n, at | Becomes(mapping, callee, localPrefix, r, n) ensures SeenAs(bindings, s, n, at, v.mem(r, at)) {
      CalleeNameBecomes(mapping, callee, localPrefix, r);
      ViewSeen(bindings, s, n, at, v.mem(r, at));
    }
  }

  lemma CalleeStateUnique(
      mapping: map<string, string>, callee: string, localPrefix: string, bindings: seq<Binding>, s: State, v: State)
    requires CalleeState(mapping, callee, localPrefix, bindings, s, v)
    ensures Same(v, Composed(CalleeRenamer(mapping, callee, localPrefix), CalleeView(bindings, s)))
  {
    var w := Composed(CalleeRenamer(mapping, callee, localPrefix), CalleeView(bindings, s));
    ComposedReads(mapping, callee, localPrefix, bindings, s);
    forall x: Var ensures v.ints(x) == w.ints(x) && v.bools(x) == w.bools(x) {
      CalleeNameBecomes(mapping, callee, localPrefix, x.name);
      assert Becomes(mapping, callee, localPrefix, x.name, CalleeName(mapping, callee, localPrefix, x.name));
    }
    forall r: string, at: int ensures v.mem(r, at) == w.mem(r, at) {
      var n := CalleeName(mapping, callee, localPrefix, r);
      CalleeNameBecomes(mapping, callee, localPrefix, r);
      assert Becomes(mapping, callee, localPrefix, r, n);
      assert SeenAs(bindings, s, n, at, v.mem(r, at));
      ViewSeen(bindings, s, n, at, v.mem(r, at));
    }
  }

  /** The whole instantiation: the caller's state satisfies the instantiated relation exactly when
      the callee's state at the call satisfies the relation. */
  lemma CallInstantiated(
      relation: Formula, mapping: map<string, string>, callee: string, localPrefix: string, bindings: seq<Binding>,
      s: State, v: State)
    requires PlainReads(bindings, RenameCalleeVars(relation, mapping, callee, localPrefix))
    requires CalleeState(mapping, callee, localPrefix, bindings, s, v)
    ensures Eval(SubstituteRegions(bindings, RenameCalleeVars(relation, mapping, callee, localPrefix)), s)
       <==> Eval(relation, v)
  {
    var rn := CalleeRenamer(mapping, callee, localPrefix);
    RegionsSubstituted(bindings, Rename(rn, relation), s);
    Renamed(rn, relation, CalleeView(bindings, s));
    CalleeStateUnique(mapping, callee, localPrefix, bindings, s, v);
    Congruence(relation, v, Composed(rn, CalleeView(bindings, s)));
  }

  /** Elsewhere the base is lost: under a `store`, a bound region is replaced without its shift. */
  lemma ShiftLostUnderStore(s: State)
    requires s.mem("a", 1) == 0 && s.mem("a", 4) == 7
    ensures var bindings := [Binding("ext", "a", Int(3))];
            var f := Cmp(Eq, Select(Store(Region("ext"), Int(0), Int(5)), Int(1)), Int(7));
            Eval(f, CalleeView(bindings, s)) && !Eval(SubstituteRegions(bindings, f), s)
  {
    var bindings := [Binding("ext", "a", Int(3))];
    var m := Store(Region("ext"), Int(0), Int(5));
    var v := CalleeView(bindings, s);
    assert EvalT(Int(0), v) == 0 && EvalT(Int(1), v) == 1 && EvalT(Int(7), v) == 7;
    assert EvalT(Int(0), s) == 0 && EvalT(Int(1), s) == 1 && EvalT(Int(3), s) == 3 && EvalT(Int(7), s) == 7;
    assert Exact(bindings, "ext") == Some(bindings[0]);
    assert Read(Region("ext"), v, 1) == v.mem("ext", 1) == s.mem("a", 4);
    assert Read(m, v, 1) == 7;
    assert EvalT(Select(m, Int(1)), v) == 7;
    var n := Store(Region("a"), Int(0), Int(5));
    assert SubstituteRegionsM(bindings, m) == n;
    assert SubstituteRegionsT(bindings, Select(m, Int(1))) == Select(n, Int(1));
    assert Read(Region("a"), s, 1) == 0 && Read(n, s, 1) == 0;
    assert EvalT(Select(n, Int(1)), s) == 0;
  }
}
