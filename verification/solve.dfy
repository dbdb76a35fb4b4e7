/** The parts of `Solver::solve` (src/solver/mod.rs) around conflict
    analysis: the scan for empty and unit clauses before the first decision,
    the first propagation, the step that records a learnt clause, and the
    restart backtrack. Conflict analysis itself (`analyze`, `simplify`) is
    not modelled; its guarantees are the preconditions of `LearnStep`. */
module Solving {
  import opened Results
  import opened Types
  import opened LitMaps
  import opened Assignments
  import Activity
  import opened Cdcl
  import opened Propagation

  /** No valuation that makes every literal of `lits` true satisfies
      `clauses`. With `lits` empty: the clauses are unsatisfiable. */
  ghost predicate Refuted(clauses: seq<Clause>, lits: seq<Lit>)
  {
    forall val: seq<bool> :: AgreesWith(val, lits) ==> !AllClausesTrue(val, clauses)
  }

  /** A clause with every literal false, reached from `a0` by explained
      steps only, refutes every valuation agreeing with `a0`'s trail. */
  lemma FalseClauseRefutes(clauses: seq<Clause>, clauses': seq<Clause>, a0: Assignment, a: Assignment, c: nat)
    requires Assignments.Valid(a) && Extends(a0, a) && Explained(clauses, a, |a0.trail|)
    requires SameLits(clauses, clauses') && c < |clauses'| && AllFalse(a, clauses'[c])
    ensures Refuted(clauses, a0.trail)
  {
    forall val: seq<bool> | AgreesWith(val, a0.trail) ensures !AllClausesTrue(val, clauses) {
      if AllClausesTrue(val, clauses) {
        assert a.trail[..|a0.trail|] == a0.trail;
        ExplainedImplied(val, clauses, a, |a0.trail|, |a.trail|);
        assert a.trail[..|a.trail|] == a.trail;
        FalseRefutes(val, a, clauses'[c]);
        SameLitsMeaning(val, clauses, clauses');
      }
    }
  }

  /** An empty clause refutes everything. */
  lemma EmptyRefutes(clauses: seq<Clause>, lits: seq<Lit>, c: nat)
    requires c < |clauses| && clauses[c] == []
    ensures Refuted(clauses, lits)
  {
    forall val: seq<bool> | AgreesWith(val, lits) ensures !AllClausesTrue(val, clauses) {
      assert !ClauseTrue(val, clauses[c]);
    }
  }

  /** Every unit clause before `i` holds under `a`. */
  predicate UnitsTrue(clauses: seq<Clause>, a: Assignment, i: nat)
  {
    forall c :: 0 <= c < i && c < |clauses| && |clauses[c]| == 1 ==>
      HasVar(a, clauses[c][0]) && Eval(a, clauses[c][0]) == Some(true)
  }

  /** Extending an assignment keeps the unit clauses it makes true. */
  lemma UnitsTrueExtends(clauses: seq<Clause>, a: Assignment, a': Assignment, i: nat)
    requires UnitsTrue(clauses, a, i) && Extends(a, a')
    ensures UnitsTrue(clauses, a', i)
  {
    forall c | 0 <= c < i && c < |clauses| && |clauses[c]| == 1
      ensures HasVar(a', clauses[c][0]) && Eval(a', clauses[c][0]) == Some(true)
    {
      ExtendsEval(a, a', clauses[c][0]);
    }
  }

  /** The facts `InitialUnits` keeps about the state it has built from `s`. */
  predicate UnitScan(s: Solver, cur: Solver)
  {
    && Inv(s) && Inv(cur)
    && cur.clauses == s.clauses && cur.watched == s.watched && cur.tracker == s.tracker
    && cur.proof == s.proof && cur.minClauseCount == s.minClauseCount && cur.propHead == s.propHead
    && Extends(s.assignment, cur.assignment)
    && Explained(s.clauses, cur.assignment, |s.assignment.trail|)
  }

  /** One clause of the scan: an empty clause or a false unit clause ends it
      with Unsat; an unassigned unit clause's literal is set with the clause
      as its reason; anything else changes nothing. */
  method UnitStep(s: Solver, cur: Solver, i: nat) returns (next: Solver, unsat: bool)
    requires UnitScan(s, cur) && i < |cur.clauses| && UnitsTrue(cur.clauses, cur.assignment, i)
    ensures UnitScan(s, next)
    ensures unsat ==> Refuted(s.clauses, s.assignment.trail)
    ensures |s.clauses[i]| == 0 ==> unsat
    ensures !unsat ==> UnitsTrue(next.clauses, next.assignment, i + 1)
  {
    var cl := cur.clauses[i];
    next, unsat := cur, false;
    if |cl| == 0 {
      EmptyRefutes(s.clauses, s.assignment.trail, i);
      unsat := true;
    } else if |cl| == 1 {
      ClauseFits(cur, i);
      var lit := cl[0];
      match Eval(cur.assignment, lit)
      case None =>
        UnitKeepsInv(cur, i);
        SetExtends(cur.assignment, lit, Propagation(i));
        ExplainedSet(s.clauses, cur.assignment, lit, i, |s.assignment.trail|);
        next := cur.(assignment := Set(cur.assignment, lit, Propagation(i)));
        ExtendsTrans(s.assignment, cur.assignment, next.assignment);
        UnitsTrueExtends(cur.clauses, cur.assignment, next.assignment, i);
      case Some(false) =>
        assert AllFalse(cur.assignment, cl);
        SameLitsRefl(s.clauses);
        FalseClauseRefutes(s.clauses, s.clauses, s.assignment, cur.assignment, i);
        unsat := true;
      case Some(true) =>
    }
  }

  /** The scan of `solve` before propagation: every clause in order; an
      empty clause, or a unit clause whose literal is already false, is
      Unsat; an unassigned unit clause's literal is set, with the clause as
      reason. Unsat is reported only when no valuation agreeing with the
      starting trail satisfies the clauses, and always when a clause is
      empty; otherwise every unit clause holds afterwards. */
  method InitialUnits(s: Solver) returns (s': Solver, unsat: bool)
    requires Inv(s)
    ensures UnitScan(s, s')
    ensures unsat ==> Refuted(s.clauses, s.assignment.trail)
    ensures (exists c :: 0 <= c < |s.clauses| && |s.clauses[c]| == 0) ==> unsat
    ensures !unsat ==> UnitsTrue(s'.clauses, s'.assignment, |s'.clauses|)
  {
    s', unsat := s, false;
    assert s.assignment.trail[..|s.assignment.trail|] == s.assignment.trail;
    var i: nat := 0;
    while i < |s.clauses|
      invariant i <= |s.clauses| && UnitScan(s, s')
      invariant UnitsTrue(s'.clauses, s'.assignment, i)
      invariant forall c :: 0 <= c < i ==> |s.clauses[c]| != 0
    {
      var next, u := UnitStep(s, s', i);
      if u {
        return next, true;
      }
      s', i := next, i + 1;
    }
  }

  /** The start of `solve`: the unit scan, then `propagate`; a conflict
      from either is Unsat. Unsat is sound: no valuation agreeing with the
      starting trail satisfies the clauses. Otherwise propagation has
      reached the end of the trail, every unit clause holds, and every
      literal gained is explained by a clause. */
  method SolvePrelude(s: Solver) returns (s': Solver, unsat: bool)
    requires Inv(s)
    ensures unsat ==> Refuted(s.clauses, s.assignment.trail)
    ensures (exists c :: 0 <= c < |s.clauses| && |s.clauses[c]| == 0) ==> unsat
    ensures !unsat ==> Inv(s') && s'.propHead == |s'.assignment.trail|
    ensures !unsat ==> SameLits(s.clauses, s'.clauses) && Extends(s.assignment, s'.assignment)
    ensures !unsat ==> Explained(s.clauses, s'.assignment, |s.assignment.trail|)
    ensures !unsat ==> s'.minClauseCount == s.minClauseCount && s'.proof == s.proof
    ensures !unsat ==> UnitsTrue(s.clauses, s'.assignment, |s.clauses|)
  {
    var s1, u := InitialUnits(s);
    if u {
      return s1, true;
    }
    var c;
    s', c := Propagate(s1);
    ExtendsTrans(s.assignment, s1.assignment, s'.assignment);
    PreludeExplained(s, s1, s');
    UnitsTrueExtends(s.clauses, s1.assignment, s'.assignment, |s.clauses|);
    if c.Some? {
      FalseClauseRefutes(s.clauses, s'.clauses, s.assignment, s'.assignment, c.value);
      return s', true;
    }
    unsat := false;
  }

  /** Explanations from the scan and from propagation chain up. */
  lemma PreludeExplained(s: Solver, s1: Solver, s2: Solver)
    requires UnitScan(s, s1) && Extends(s1.assignment, s2.assignment)
    requires SameLits(s1.clauses, s2.clauses)
    requires Explained(s1.clauses, s2.assignment, |s1.assignment.trail|)
    ensures Explained(s.clauses, s2.assignment, |s.assignment.trail|)
    ensures SameLits(s.clauses, s2.clauses)
  {
    ExplainedExtends(s.clauses, s1.assignment, s2.assignment, |s.assignment.trail|);
  }

  // ---------------------------------------------------------------------
  // After a conflict

  /** `proof.push((ProofStep::Add, learnt))` when proofs are on. */
  function LogAdd(proof: Option<Proof>, c: Clause): (r: Option<Proof>)
    ensures r.None? <==> proof.None?
    ensures r.Some? ==> |r.value| == |proof.value| + 1 && r.value[..|proof.value|] == proof.value
    ensures r.Some? ==> r.value[|proof.value|] == (ProofStep.Add, c)
  {
    match proof
    case None => None
    case Some(p) =>
      assert (p + [(ProofStep.Add, c)])[..|p|] == p;
      Some(p + [(ProofStep.Add, c)])
  }

  /** `backtrack(k)` followed by `prop_head = min(prop_head, trail.len())`. */
  function BacktrackSolver(s: Solver, k: nat): (s': Solver)
    requires Inv(s) && k <= LastLevel(s.assignment)
  {
    var a := Backtrack(s.assignment, k);
    s.(assignment := a, propHead := if s.propHead < |a.trail| then s.propHead else |a.trail|)
  }

  /** Backtracking keeps the invariant and the clause database, and leaves
      the propagation head at or before the end of the shortened trail. */
  lemma BacktrackKeepsInv(s: Solver, k: nat)
    requires Inv(s) && k <= LastLevel(s.assignment)
    ensures Inv(BacktrackSolver(s, k))
    ensures BacktrackSolver(s, k).clauses == s.clauses && BacktrackSolver(s, k).watched == s.watched
    ensures BacktrackSolver(s, k).propHead <= s.propHead
    ensures LastLevel(BacktrackSolver(s, k).assignment) == if k == 0 then 0 else k - 1
  {
    var a := s.assignment;
    var a' := Backtrack(a, k);
    BacktrackValid(a, k);
    forall v | 0 <= v < |a'.data| && a'.data[v].Some? && a'.data[v].value.reason.Propagation?
      ensures a'.data[v].value.reason.clause < |s.clauses|
    {
      assert a'.data[v] == a.data[v];
    }
  }

  /** The end of a conflict round in `solve`, after `analyze` has produced
      the learnt clause and the level to go back to: the clause is logged
      as an `Add` step first; level 0 is Unsat; otherwise the solver
      backtracks, adds the clause, and sets its first literal with the new
      clause as reason. `analyze` guarantees that the clause has distinct
      literals of the problem's variables and that its first literal is
      unassigned after the backtrack; those are the preconditions here. */
  method LearnStep(s: Solver, learnt: Clause, level: nat) returns (s': Solver, unsat: bool)
    requires Inv(s) && |learnt| >= 1 && DistinctLits(learnt)
    requires forall k :: 0 <= k < |learnt| ==> learnt[k] != 0 && ToVar(learnt[k]) <= VarCount(s)
    requires level <= LastLevel(s.assignment)
    requires level > 0 ==> Eval(Backtrack(s.assignment, level), learnt[0]).None?
    ensures s'.proof == LogAdd(s.proof, learnt)
    ensures unsat <==> level == 0
    ensures !unsat ==> Inv(s') && s'.clauses == s.clauses + [learnt]
    ensures !unsat ==> s'.minClauseCount == s.minClauseCount && s'.tracker == Activity.AddClause(s.tracker)
    ensures !unsat ==> s'.assignment.trail == Backtrack(s.assignment, level).trail + [learnt[0]]
    ensures !unsat ==> HasVar(s'.assignment, learnt[0]) && Eval(s'.assignment, learnt[0]) == Some(true)
    ensures !unsat ==> ReasonOf(s'.assignment, learnt[0]) == Some(Propagation(|s.clauses|))
    ensures !unsat ==> LastLevel(s'.assignment) == level - 1
    ensures !unsat ==> s'.propHead <= s.propHead && s'.propHead < |s'.assignment.trail|
  {
    var logged := s.(proof := LogAdd(s.proof, learnt));
    if level == 0 {
      return logged, true;
    }
    BacktrackKeepsInv(logged, level);
    var s1 := BacktrackSolver(logged, level);
    AddKeepsInv(s1, learnt);
    var (s2, c) := Cdcl.Add(s1, learnt);
    UnitKeepsInv(s2, c);
    s' := s2.(assignment := Set(s2.assignment, learnt[0], Propagation(c)));
    unsat := false;
  }

  /** The restart in `solve`: back to level 1 (keeping the level-0
      literals) when anything was decided, then the propagation head is
      clamped to the trail. */
  method RestartBacktrack(s: Solver) returns (s': Solver)
    requires Inv(s)
    ensures Inv(s') && s'.clauses == s.clauses && s'.watched == s.watched
    ensures s'.proof == s.proof && s'.tracker == s.tracker && s'.minClauseCount == s.minClauseCount
    ensures LastLevel(s'.assignment) == 0
    ensures s'.assignment.trail <= s.assignment.trail && s'.propHead <= s.propHead
    ensures LastLevel(s.assignment) == 0 ==> s' == s
  {
    if LastLevel(s.assignment) >= 1 {
      BacktrackKeepsInv(s, 1);
      s' := BacktrackSolver(s, 1);
    } else {
      s' := s;
    }
  }

  lemma SameLitsRefl(cs: seq<Clause>)
    ensures SameLits(cs, cs)
  {
  }
}
