/** The solver's vocabulary (src/types.rs): literals are non-zero signed
    32-bit integers, variables are their absolute values, a clause is a
    sequence of literals. */
module Types {

  type Lit = int
  type Var = nat
  type Clause = seq<Lit>

  const I32Min: int := -0x8000_0000
  const I32Max: int := 0x7fff_ffff

  /** A value of Rust's `i32` that can stand for a literal. */
  predicate IsLit(l: int)
  {
    l != 0 && I32Min <= l <= I32Max
  }

  datatype Problem = Problem(varCount: nat, clauses: seq<Clause>)

  /** Exactly one of the three outcomes; only `Sat` carries a model. */
  datatype Solution = Sat(model: seq<Lit>) | Unsat | Unknown

  datatype ProofStep = Add | Delete

  /** A proof is an ordered list of clause additions and deletions. */
  type Proof = seq<(ProofStep, Clause)>

  /** `to_var`: the variable of a non-zero literal (`unsigned_abs`). */
  function ToVar(lit: Lit): (v: Var)
    requires lit != 0
    ensures v >= 1
    ensures v == lit || v == -lit
  {
    if lit < 0 then -lit else lit
  }

  lemma ToVarNegation(lit: Lit)
    requires lit != 0
    ensures ToVar(-lit) == ToVar(lit)
  {
  }

  /** A literal is the positive occurrence of its variable exactly when it
      is positive. */
  lemma ToVarPolarity(lit: Lit)
    requires lit != 0
    ensures lit > 0 <==> lit == ToVar(lit)
    ensures lit < 0 <==> lit + ToVar(lit) == 0
  {
  }

  /** Every literal of the problem names a variable in 1..varCount. */
  predicate WellFormed(p: Problem)
  {
    forall c, l :: 0 <= c < |p.clauses| && l in p.clauses[c] ==>
      l != 0 && ToVar(l) <= p.varCount
  }

  // ---------------------------------------------------------------------
  // Semantics, used to state what the structural operations preserve.

  /** A total valuation: `val[v]` is the value of variable `v` (slot 0 unused). */
  predicate IsValuation(val: seq<bool>, varCount: nat)
  {
    |val| == varCount + 1
  }

  predicate LitTrue(val: seq<bool>, l: Lit)
  {
    l != 0 && ToVar(l) < |val| && val[ToVar(l)] == (l > 0)
  }

  predicate ClauseTrue(val: seq<bool>, c: Clause)
  {
    exists l :: l in c && LitTrue(val, l)
  }

  predicate AllClausesTrue(val: seq<bool>, clauses: seq<Clause>)
  {
    forall i :: 0 <= i < |clauses| ==> ClauseTrue(val, clauses[i])
  }

  ghost predicate Satisfiable(p: Problem)
  {
    exists val: seq<bool> :: IsValuation(val, p.varCount) && AllClausesTrue(val, p.clauses)
  }
}
