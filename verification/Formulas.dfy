/** The formula language of src/formula/mod.rs: terms, memories and formulas, and the smart
    constructors that simplify while they build.

    The five arithmetic constructors of the source are one constructor `Bin` with an operator, and
    its five comparisons are one constructor `Cmp`. The Real sort is not part of this model. */
module Formulas {

  datatype Option<+T> = None | Some(value: T)

  datatype Sort = BoolSort | IntSort

  /** A named, sorted variable; two variables of one name and different sorts are distinct. */
  datatype Var = Var(name: string, sort: Sort)

  datatype BinOp = Add | Sub | Mul | Div | Rem

  datatype CmpOp = Eq | Lt | Le | Gt | Ge

  datatype Term =
    | TVar(v: Var)
    | Int(n: int)
    | BoolToInt(f: Formula)
    | Select(mem: Memory, idx: Term)
    | Bin(op: BinOp, l: Term, r: Term)
    | Neg(t: Term)

  datatype Memory =
    | Region(name: string)
    | Store(inner: Memory, idx: Term, val: Term)

  datatype Formula =
    | True
    | False
    | FVar(v: Var)
    | Not(f: Formula)
    | And(items: seq<Formula>)
    | Or(items: seq<Formula>)
    | Implies(lhs: Formula, rhs: Formula)
    | Cmp(op: CmpOp, l: Term, r: Term)
    | MemoryEq(ml: Memory, mr: Memory)

  // ---- Simplification ---------------------------------------------------------------------

  /** The neutral operand of a conjunction (`conj`) or of a disjunction. */
  function Unit(conj: bool): Formula {
    if conj then True else False
  }

  /** The absorbing operand. */
  function Zero(conj: bool): Formula {
    if conj then False else True
  }

  /** What one operand contributes to the flattened list. */
  function Parts(conj: bool, f: Formula): seq<Formula> {
    if f == Unit(conj) then []
    else if conj && f.And? then f.items
    else if !conj && f.Or? then f.items
    else [f]
  }

  function AddNew(flat: seq<Formula>, g: Formula): seq<Formula> {
    if g in flat then flat else flat + [g]
  }

  function AddAll(flat: seq<Formula>, gs: seq<Formula>): seq<Formula> {
    if gs == [] then flat else AddNew(AddAll(flat, gs[..|gs| - 1]), gs[|gs| - 1])
  }

  /** The operands left after flattening and removing duplicates; None when one is absorbing. */
  function Flatten(conj: bool, items: seq<Formula>): Option<seq<Formula>> {
    if items == [] then Some([])
    else
      match Flatten(conj, items[..|items| - 1])
      case None => None
      case Some(flat) =>
        var last := items[|items| - 1];
        if last == Zero(conj) then None else Some(AddAll(flat, Parts(conj, last)))
  }

  function Rebuild(conj: bool, flat: seq<Formula>): Formula {
    if flat == [] then Unit(conj)
    else if |flat| == 1 then flat[0]
    else if conj then And(flat)
    else Or(flat)
  }

  function Join(conj: bool, items: seq<Formula>): Formula {
    match Flatten(conj, items)
    case None => Zero(conj)
    case Some(flat) => Rebuild(conj, flat)
  }

  function Simplified(f: Formula): Formula {
    match f
    case And(items) => Join(true, items)
    case Or(items) => Join(false, items)
    case Implies(lhs, rhs) =>
      if lhs == False || rhs == True then True
      else if lhs == True then rhs
      else f
    case _ => f
  }

  function AndMany(items: seq<Formula>): Formula {
    Simplified(And(items))
  }

  function OrMany(items: seq<Formula>): Formula {
    Simplified(Or(items))
  }

  function AndOf(lhs: Formula, rhs: Formula): Formula {
    AndMany([lhs, rhs])
  }

  function OrOf(lhs: Formula, rhs: Formula): Formula {
    OrMany([lhs, rhs])
  }

  function ImpliesOf(lhs: Formula, rhs: Formula): Formula {
    Simplified(Implies(lhs, rhs))
  }

  function IffOf(lhs: Formula, rhs: Formula): Formula {
    AndOf(ImpliesOf(lhs, rhs), ImpliesOf(rhs, lhs))
  }

  lemma {:induction false} AddAllSnoc(flat: seq<Formula>, gs: seq<Formula>, k: nat)
    requires k < |gs|
    ensures AddAll(flat, gs[..k + 1]) == AddNew(AddAll(flat, gs[..k]), gs[k])
  {
    assert gs[..k + 1][..k] == gs[..k];
  }

  lemma {:induction false} FlattenSnoc(conj: bool, items: seq<Formula>, k: nat)
    requires k < |items|
    ensures Flatten(conj, items[..k]).None? ==> Flatten(conj, items[..k + 1]).None?
    ensures Flatten(conj, items[..k]).Some? ==>
              Flatten(conj, items[..k + 1]) ==
              if items[k] == Zero(conj) then None
              else Some(AddAll(Flatten(conj, items[..k]).value, Parts(conj, items[k])))
  {
    assert items[..k + 1][..k] == items[..k];
  }

  lemma {:induction false} FlattenStaysNone(conj: bool, items: seq<Formula>, k: nat)
    requires k <= |items| && Flatten(conj, items[..k]).None?
    ensures Flatten(conj, items).None?
    decreases |items| - k
  {
    if k == |items| {
      assert items[..k] == items;
    } else {
      FlattenSnoc(conj, items, k);
      FlattenStaysNone(conj, items, k + 1);
    }
  }

  /** The loops of `simplify`: push each new operand of one n-ary connective into `flat`, stop at
      an absorbing operand. */
  method SimplifyOperands(conj: bool, items: seq<Formula>) returns (r: Formula)
    ensures r == Join(conj, items)
  {
    var flat: seq<Formula> := [];
    for i := 0 to |items|
      invariant Flatten(conj, items[..i]) == Some(flat)
    {
      FlattenSnoc(conj, items, i);
      var item := items[i];
      if item == Zero(conj) {
        FlattenStaysNone(conj, items, i + 1);
        return Zero(conj);
      }
      var inner := Parts(conj, item);
      ghost var before := flat;
      for j := 0 to |inner|
        invariant flat == AddAll(before, inner[..j])
      {
        AddAllSnoc(before, inner, j);
        if inner[j] !in flat {
          flat := flat + [inner[j]];
        }
      }
      assert inner[..|inner|] == inner;
    }
    assert items[..|items|] == items;
    r := Rebuild(conj, flat);
  }

  method Simplify(f: Formula) returns (r: Formula)
    ensures r == Simplified(f)
  {
    match f {
      case And(items) => r := SimplifyOperands(true, items);
      case Or(items) => r := SimplifyOperands(false, items);
      case Implies(lhs, rhs) =>
        if lhs == False || rhs == True {
          r := True;
        } else if lhs == True {
          r := rhs;
        } else {
          r := f;
        }
      case _ => r := f;
    }
  }

  // ---- What flattening keeps --------------------------------------------------------------

  ghost predicate NoDuplicates(fs: seq<Formula>) {
    forall i, j :: 0 <= i < j < |fs| ==> fs[i] != fs[j]
  }

  lemma {:induction false} AddAllMembers(flat: seq<Formula>, gs: seq<Formula>)
    requires NoDuplicates(flat)
    ensures NoDuplicates(AddAll(flat, gs))
    ensures forall g :: g in AddAll(flat, gs) <==> g in flat || g in gs
  {
    if gs != [] {
      AddAllMembers(flat, gs[..|gs| - 1]);
      assert gs == gs[..|gs| - 1] + [gs[|gs| - 1]];
    }
  }

  /** Flattening fails exactly when an operand is absorbing; otherwise it keeps, without
      duplicates, exactly the parts of the operands. */
  lemma {:induction false} FlattenMembers(conj: bool, items: seq<Formula>)
    ensures Flatten(conj, items).None? <==> Zero(conj) in items
    ensures Flatten(conj, items).Some? ==>
              NoDuplicates(Flatten(conj, items).value)
              && forall g :: g in Flatten(conj, items).value <==>
                             exists f :: f in items && g in Parts(conj, f)
  {
    if items != [] {
      var front, last := items[..|items| - 1], items[|items| - 1];
      FlattenMembers(conj, front);
      assert items == front + [last];
      if Flatten(conj, front).Some? && last != Zero(conj) {
        AddAllMembers(Flatten(conj, front).value, Parts(conj, last));
      }
    }
  }

  // ---- Normal form ------------------------------------------------------------------------

  /** An operand that a simplified conjunction (disjunction) may have. */
  predicate Operand(conj: bool, g: Formula) {
    g != True && g != False && (if conj then !g.And? else !g.Or?)
  }

  ghost predicate NormalOperands(conj: bool, items: seq<Formula>) {
    |items| >= 2 && NoDuplicates(items) && forall g :: g in items ==> Operand(conj, g)
  }

  /** No constant operand, no And directly in an And, no Or directly in an Or, no duplicate
      operand, at least two operands - everywhere in the formula, also below terms. */
  ghost predicate Normal(f: Formula) {
    match f
    case True => true
    case False => true
    case FVar(_) => true
    case Not(g) => Normal(g)
    case And(items) => NormalOperands(true, items) && forall g | g in items :: Normal(g)
    case Or(items) => NormalOperands(false, items) && forall g | g in items :: Normal(g)
    case Implies(lhs, rhs) =>
      Normal(lhs) && Normal(rhs) && lhs != False && lhs != True && rhs != True
    case Cmp(_, l, r) => NormalTerm(l) && NormalTerm(r)
    case MemoryEq(ml, mr) => NormalMemory(ml) && NormalMemory(mr)
  }

  ghost predicate NormalTerm(t: Term) {
    match t
    case TVar(_) => true
    case Int(_) => true
    case BoolToInt(f) => Normal(f)
    case Select(m, i) => NormalMemory(m) && NormalTerm(i)
    case Bin(_, l, r) => NormalTerm(l) && NormalTerm(r)
    case Neg(u) => NormalTerm(u)
  }

  ghost predicate NormalMemory(m: Memory) {
    match m
    case Region(_) => true
    case Store(inner, i, x) => NormalMemory(inner) && NormalTerm(i) && NormalTerm(x)
  }

  /** The n-ary smart constructors return normal formulas whenever their operands are normal. */
  lemma {:induction false} JoinNormal(conj: bool, items: seq<Formula>)
    requires forall f :: f in items ==> Normal(f)
    ensures Normal(Join(conj, items))
  {
    FlattenMembers(conj, items);
    if Zero(conj) !in items {
      var flat := Flatten(conj, items).value;
      forall g | g in flat
        ensures Normal(g) && Operand(conj, g)
      {
        var f :| f in items && g in Parts(conj, f);
      }
    }
  }

  lemma {:induction false} ConstructorsNormal(lhs: Formula, rhs: Formula)
    requires Normal(lhs) && Normal(rhs)
    ensures Normal(AndOf(lhs, rhs)) && Normal(OrOf(lhs, rhs)) && Normal(ImpliesOf(lhs, rhs))
    ensures Normal(IffOf(lhs, rhs))
  {
    JoinNormal(true, [lhs, rhs]);
    JoinNormal(false, [lhs, rhs]);
    JoinNormal(true, [ImpliesOf(lhs, rhs), ImpliesOf(rhs, lhs)]);
  }

  // ---- Names ------------------------------------------------------------------------------

  datatype Name = Scalar(v: Var) | Mem(region: string)

  /** Every variable and region that a formula mentions. */
  function Names(f: Formula): set<Name> {
    match f
    case True => {}
    case False => {}
    case FVar(v) => {Scalar(v)}
    case Not(g) => Names(g)
    case And(items) => set i, n | 0 <= i < |items| && n in Names(items[i]) :: n
    case Or(items) => set i, n | 0 <= i < |items| && n in Names(items[i]) :: n
    case Implies(lhs, rhs) => Names(lhs) + Names(rhs)
    case Cmp(_, l, r) => NamesT(l) + NamesT(r)
    case MemoryEq(ml, mr) => NamesM(ml) + NamesM(mr)
  }

  function NamesT(t: Term): set<Name> {
    match t
    case TVar(v) => {Scalar(v)}
    case Int(_) => {}
    case BoolToInt(f) => Names(f)
    case Select(m, i) => NamesM(m) + NamesT(i)
    case Bin(_, l, r) => NamesT(l) + NamesT(r)
    case Neg(u) => NamesT(u)
  }

  function NamesM(m: Memory): set<Name> {
    match m
    case Region(r) => {Mem(r)}
    case Store(inner, i, x) => NamesM(inner) + NamesT(i) + NamesT(x)
  }

  /** Simplification invents no name. */
  lemma {:induction false} JoinNames(conj: bool, items: seq<Formula>)
    ensures forall n :: n in Names(Join(conj, items)) ==> exists f :: f in items && n in Names(f)
  {
    FlattenMembers(conj, items);
    if Zero(conj) !in items {
      var flat := Flatten(conj, items).value;
      forall g, n | g in flat && n in Names(g)
        ensures exists f :: f in items && n in Names(f)
      {
        var f :| f in items && g in Parts(conj, f);
        assert n in Names(f);
      }
    }
  }
}
