/** The meaning of formulas. A state gives every variable an integer and a Boolean value - which
    one is read is decided by the position - and every region an integer array. Division and
    remainder are arbitrary total functions that a state carries and no step changes. */
module Semantics {
  import opened Formulas

  datatype State = State(
    ints: Var -> int,
    bools: Var -> bool,
    mem: (string, int) -> int,
    div: (int, int) -> int,
    rem: (int, int) -> int)
  {
    function SetInt(v: Var, k: int): State {
      this.(ints := (w: Var) => if w == v then k else ints(w))
    }

    function SetBool(v: Var, b: bool): State {
      this.(bools := (w: Var) => if w == v then b else bools(w))
    }

    function Write(region: string, at: int, k: int): State {
      this.(mem := (q: string, j: int) => if q == region && j == at then k else mem(q, j))
    }

    /** The state after storing the value of memory expression `m` as region `region`. */
    ghost function SetRegion(region: string, m: Memory): State {
      this.(mem := (q: string, j: int) => if q == region then Read(m, this, j) else mem(q, j))
    }
  }

  function Arith(op: BinOp, a: int, b: int, s: State): int {
    match op
    case Add => a + b
    case Sub => a - b
    case Mul => a * b
    case Div => s.div(a, b)
    case Rem => s.rem(a, b)
  }

  function Compare(op: CmpOp, a: int, b: int): bool {
    match op
    case Eq => a == b
    case Lt => a < b
    case Le => a <= b
    case Gt => a > b
    case Ge => a >= b
  }

  ghost function EvalT(t: Term, s: State): int {
    match t
    case TVar(v) => s.ints(v)
    case Int(n) => n
    case BoolToInt(f) => if Eval(f, s) then 1 else 0
    case Select(m, i) => Read(m, s, EvalT(i, s))
    case Bin(op, l, r) => Arith(op, EvalT(l, s), EvalT(r, s), s)
    case Neg(u) => -EvalT(u, s)
  }

  /** The cell `at` of the array that `m` denotes. */
  ghost function Read(m: Memory, s: State, at: int): int {
    match m
    case Region(r) => s.mem(r, at)
    case Store(inner, i, x) => if EvalT(i, s) == at then EvalT(x, s) else Read(inner, s, at)
  }

  ghost predicate Eval(f: Formula, s: State) {
    match f
    case True => true
    case False => false
    case FVar(v) => s.bools(v)
    case Not(g) => !Eval(g, s)
    case And(items) => forall g | g in items :: Eval(g, s)
    case Or(items) => exists g | g in items :: Eval(g, s)
    case Implies(lhs, rhs) => Eval(lhs, s) ==> Eval(rhs, s)
    case Cmp(op, l, r) => Compare(op, EvalT(l, s), EvalT(r, s))
    case MemoryEq(ml, mr) => forall at :: Read(ml, s, at) == Read(mr, s, at)
  }

  ghost predicate Satisfiable(f: Formula) {
    exists s: State :: Eval(f, s)
  }

  ghost predicate Entails(f: Formula, g: Formula) {
    forall s: State :: Eval(f, s) ==> Eval(g, s)
  }

  // ---- The smart constructors keep the meaning ----------------------------------------------

  ghost predicate Joined(conj: bool, items: seq<Formula>, s: State) {
    if conj then forall f | f in items :: Eval(f, s) else exists f | f in items :: Eval(f, s)
  }

  lemma {:induction false} JoinMeaning(conj: bool, items: seq<Formula>, s: State)
    ensures Eval(Join(conj, items), s) <==> Joined(conj, items, s)
  {
    FlattenMembers(conj, items);
    if Zero(conj) !in items {
      var flat := Flatten(conj, items).value;
      assert Joined(conj, flat, s) <==> Joined(conj, items, s) by {
        forall f | f in items
          ensures Eval(f, s) <==> Joined(conj, Parts(conj, f), s)
        {
          if Parts(conj, f) == [f] {
            assert f in [f];
          }
        }
        if conj {
          if Joined(conj, items, s) {
            forall g | g in flat ensures Eval(g, s) {
              var f :| f in items && g in Parts(conj, f);
            }
          }
          if Joined(conj, flat, s) {
            forall f | f in items ensures Eval(f, s) {
              forall g | g in Parts(conj, f) ensures Eval(g, s) {
                assert g in flat;
              }
            }
          }
        } else {
          if Joined(conj, items, s) {
            var f :| f in items && Eval(f, s);
            var g :| g in Parts(conj, f) && Eval(g, s);
            assert g in flat;
          }
          if Joined(conj, flat, s) {
            var g :| g in flat && Eval(g, s);
            var f :| f in items && g in Parts(conj, f);
          }
        }
      }
      assert |flat| == 1 ==> flat == [flat[0]] && flat[0] in flat;
    }
  }

  /** `simplify` preserves the meaning of every formula. */
  lemma SimplifyMeaning(f: Formula, s: State)
    ensures Eval(Simplified(f), s) <==> Eval(f, s)
  {
    match f
    case And(items) => JoinMeaning(true, items, s);
    case Or(items) => JoinMeaning(false, items, s);
    case _ =>
  }

  lemma AndMeaning(f: Formula, g: Formula, s: State)
    ensures Eval(AndOf(f, g), s) <==> Eval(f, s) && Eval(g, s)
  {
    JoinMeaning(true, [f, g], s);
    assert f in [f, g] && g in [f, g];
  }

  lemma OrMeaning(f: Formula, g: Formula, s: State)
    ensures Eval(OrOf(f, g), s) <==> Eval(f, s) || Eval(g, s)
  {
    JoinMeaning(false, [f, g], s);
    assert f in [f, g] && g in [f, g];
  }

  lemma ImpliesMeaning(f: Formula, g: Formula, s: State)
    ensures Eval(ImpliesOf(f, g), s) <==> (Eval(f, s) ==> Eval(g, s))
  {
  }

  lemma IffMeaning(f: Formula, g: Formula, s: State)
    ensures Eval(IffOf(f, g), s) <==> (Eval(f, s) <==> Eval(g, s))
  {
    AndMeaning(ImpliesOf(f, g), ImpliesOf(g, f), s);
  }

  // ---- States that agree --------------------------------------------------------------------

  ghost predicate SameOps(s: State, t: State) {
    s.div == t.div && s.rem == t.rem
  }

  ghost predicate SameAt(s: State, t: State, n: Name) {
    match n
    case Scalar(v) => s.ints(v) == t.ints(v) && s.bools(v) == t.bools(v)
    case Mem(r) => forall at :: s.mem(r, at) == t.mem(r, at)
  }

  ghost predicate SameOn(s: State, t: State, names: set<Name>) {
    SameOps(s, t) && forall n | n in names :: SameAt(s, t, n)
  }

  ghost predicate SameExcept(s: State, t: State, names: set<Name>) {
    SameOps(s, t) && forall n | n !in names :: SameAt(s, t, n)
  }

  ghost predicate Same(s: State, t: State) {
    SameExcept(s, t, {})
  }

  /** A formula's value depends only on the names it mentions. */
  lemma {:induction false} Congruence(f: Formula, s: State, t: State)
    requires SameOn(s, t, Names(f))
    ensures Eval(f, s) <==> Eval(f, t)
  {
    match f
    case True =>
    case False =>
    case FVar(_) => assert SameAt(s, t, Scalar(f.v));
    case Not(g) => Congruence(g, s, t);
    case And(items) =>
      forall i | 0 <= i < |items| ensures Eval(items[i], s) <==> Eval(items[i], t) {
        assert forall n | n in Names(items[i]) :: n in Names(f);
        Congruence(items[i], s, t);
      }
    case Or(items) =>
      forall i | 0 <= i < |items| ensures Eval(items[i], s) <==> Eval(items[i], t) {
        assert forall n | n in Names(items[i]) :: n in Names(f);
        Congruence(items[i], s, t);
      }
    case Implies(lhs, rhs) =>
      Congruence(lhs, s, t);
      Congruence(rhs, s, t);
    case Cmp(_, l, r) =>
      CongruenceT(l, s, t);
      CongruenceT(r, s, t);
    case MemoryEq(ml, mr) =>
      forall at ensures Read(ml, s, at) == Read(ml, t, at) && Read(mr, s, at) == Read(mr, t, at) {
        CongruenceM(ml, s, t, at);
        CongruenceM(mr, s, t, at);
      }
  }

  lemma {:induction false} CongruenceT(e: Term, s: State, t: State)
    requires SameOn(s, t, NamesT(e))
    ensures EvalT(e, s) == EvalT(e, t)
  {
    match e
    case TVar(_) => assert SameAt(s, t, Scalar(e.v));
    case Int(_) =>
    case BoolToInt(f) => Congruence(f, s, t);
    case Select(m, i) =>
      CongruenceT(i, s, t);
      CongruenceM(m, s, t, EvalT(i, s));
    case Bin(_, l, r) =>
      CongruenceT(l, s, t);
      CongruenceT(r, s, t);
    case Neg(u) => CongruenceT(u, s, t);
  }

  lemma {:induction false} CongruenceM(m: Memory, s: State, t: State, at: int)
    requires SameOn(s, t, NamesM(m))
    ensures Read(m, s, at) == Read(m, t, at)
  {
    match m
    case Region(_) => assert SameAt(s, t, Mem(m.name));
    case Store(inner, i, x) =>
      CongruenceM(inner, s, t, at);
      CongruenceT(i, s, t);
      CongruenceT(x, s, t);
  }
}
