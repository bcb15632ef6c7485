/** The contract of the SMT query boundary, src/smt/oracle.rs. An oracle is a function of the
    number of queries asked before and the formula, so it may answer the same formula differently
    later and may answer Unknown, or fail, at any time. */
module Oracles {
  import opened Formulas
  import opened Semantics

  datatype Feasibility = Feasible | Infeasible | Unknown

  datatype Answer = Answered(feasibility: Feasibility) | Failed

  type Oracle = (nat, Formula) -> Answer

  ghost predicate Truthful(oracle: Oracle) {
    (forall k, f :: oracle(k, f) == Answered(Infeasible) ==> !Satisfiable(f))
    && forall k, f :: oracle(k, f) == Answered(Feasible) ==> Satisfiable(f)
  }

  ghost predicate Decisive(oracle: Oracle) {
    forall k, f :: oracle(k, f) == Answered(Infeasible) || oracle(k, f) == Answered(Feasible)
  }

  /** The refutation query behind `implies`. */
  function Refutation(assumptions: Formula, conclusion: Formula): Formula {
    AndOf(assumptions, Not(conclusion))
  }

  lemma RefutationMeaning(oracle: Oracle, k: nat, a: Formula, c: Formula)
    requires Truthful(oracle)
    ensures oracle(k, Refutation(a, c)) == Answered(Infeasible) ==> Entails(a, c)
    ensures oracle(k, Refutation(a, c)) == Answered(Feasible) ==> !Entails(a, c)
  {
    forall s: State ensures Eval(Refutation(a, c), s) <==> Eval(a, s) && !Eval(c, s) {
      AndMeaning(a, Not(c), s);
    }
  }
}
