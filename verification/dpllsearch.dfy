/** Propagation and search of the older DPLL solver (src/solver.rs):
    `propagate` over the two implicit watches, and `solve`, which first
    assigns the unit clauses, then alternates decisions on the smallest
    unassigned variable with propagation, flipping the last decision on a
    conflict. There are no learnt clauses and no reasons. */
module DpllSearch {
  import opened Results
  import opened Types
  import opened SeqUtil
  import opened LitMaps
  import opened Dpll
  import Assignments
  import Cdcl
  import Propagation

  datatype DSolver = DSolver(clauses: seq<Clause>, assignment: DAssignment, watched: seq<seq<nat>>, propHead: nat)

  /** What every operation keeps: a valid assignment, clause literals over
      its variables, one watch list per literal slot holding clauses of at
      least two literals, and a propagation head inside the trail. */
  predicate DInv(s: DSolver)
  {
    && DValid(s.assignment)
    && Cdcl.ClausesInRange(s.clauses, |s.assignment.values| - 1)
    && |s.watched| == 2 * (|s.assignment.values| - 1) + 1
    && EntriesWatchable(s.clauses, s.watched)
    && s.propHead <= |s.assignment.trail|
  }

  /** `Solver::new`: the clauses as given, nothing assigned, and the
      initial watch lists. */
  method NewSolver(p: Problem) returns (s: DSolver)
    requires Cdcl.ClausesInRange(p.clauses, p.varCount)
    ensures DInv(s)
    ensures s.clauses == p.clauses && s.assignment == DNew(p.varCount) && s.propHead == 0
    ensures CountsUpTo(p.clauses, s.watched, |p.clauses|)
  {
    var w := NewWatches(p.varCount, p.clauses);
    s := DSolver(p.clauses, DNew(p.varCount), w, 0);
  }

  // ---------------------------------------------------------------------
  // Assignments only grow during propagation

  /** `a'` keeps every value of `a`, its trail as a prefix, and its
      decisions. */
  predicate DExtends(a: DAssignment, a': DAssignment)
  {
    && |a'.values| == |a.values|
    && |a.trail| <= |a'.trail| && a'.trail[..|a.trail|] == a.trail
    && a'.decisions == a.decisions
    && (forall v :: 0 <= v < |a.values| && a.values[v].Some? ==> a'.values[v] == a.values[v])
  }

  lemma DExtendsTrans(a: DAssignment, b: DAssignment, c: DAssignment)
    requires DExtends(a, b) && DExtends(b, c)
    ensures DExtends(a, c)
  {
    assert c.trail[..|a.trail|] == c.trail[..|b.trail|][..|a.trail|];
  }

  /** A literal assigned before keeps its value. */
  lemma DExtendsEval(a: DAssignment, a': DAssignment, lit: Lit)
    requires DExtends(a, a') && Fits(a, lit) && DEval(a, lit).Some?
    ensures Fits(a', lit) && DEval(a', lit) == DEval(a, lit)
  {
  }

  lemma DAssignExtends(a: DAssignment, lit: Lit)
    requires Fits(a, lit) && DEval(a, lit).None?
    ensures DExtends(a, DAssign(a, lit))
  {
  }

  /** The trail never holds more literals than there are variables. */
  lemma DTrailBound(a: DAssignment)
    requires DValid(a)
    ensures |a.trail| <= |a.values| - 1
  {
    Assignments.VarsOfSize(a.trail);
    var vars, range := Assignments.VarsOf(a.trail), Assignments.VarRange(|a.values|);
    forall v | v in vars ensures v in range {
      var i :| 0 <= i < |a.trail| && ToVar(a.trail[i]) == v;
      assert Fits(a, a.trail[i]) && DEval(a, a.trail[i]) == Some(true);
    }
    assert vars <= range;
    assert vars * range == vars;
    assert |range| == |range - vars| + |vars|;
  }

  /** A false literal's negation is on the trail. */
  lemma DFalseOnTrail(a: DAssignment, lit: Lit)
    requires DValid(a) && Fits(a, lit) && DEval(a, lit) == Some(false)
    ensures -lit in a.trail
  {
    var v := ToVar(lit);
    assert Assignments.Mentions(a.trail, v);
    forall i | 0 <= i < |a.trail| ensures a.trail[i] != lit {
      assert DEval(a, a.trail[i]) == Some(true);
    }
    ToVarPolarity(lit);
  }

  // ---------------------------------------------------------------------
  // Scanning one clause

  datatype DVisit = Satisfied | NewWatch(j: nat) | Unit | Conflict

  /** Every literal of `cl` names a variable of `a`. */
  predicate Assignable(a: DAssignment, cl: Clause)
  {
    forall k :: 0 <= k < |cl| ==> Fits(a, cl[k])
  }

  /** Every literal of `cl` is false under `a`. */
  predicate DAllFalse(a: DAssignment, cl: Clause)
  {
    forall k :: 0 <= k < |cl| ==> Fits(a, cl[k]) && DEval(a, cl[k]) == Some(false)
  }

  /** The scan `for j in 0..clause.len()` from position `j` on, as in
      src/solver/mod.rs: a true literal ends it, so does an unassigned
      literal other than the first; past the end the first literal decides
      between a unit and a conflict. */
  function DScanFrom(a: DAssignment, cl: Clause, j: nat): (r: DVisit)
    requires Assignable(a, cl) && |cl| >= 1 && j <= |cl|
    ensures r.Satisfied? ==> exists k :: j <= k < |cl| && DEval(a, cl[k]) == Some(true)
    ensures r.NewWatch? ==> 1 <= r.j && j <= r.j < |cl| && DEval(a, cl[r.j]).None?
    ensures r.Unit? || r.Conflict? ==> forall k :: j <= k < |cl| ==> DEval(a, cl[k]) != Some(true)
    ensures r.Unit? || r.Conflict? ==> forall k :: j <= k < |cl| && k != 0 ==> DEval(a, cl[k]).Some?
    ensures r.Unit? <==> (r.Unit? || r.Conflict?) && DEval(a, cl[0]).None?
    decreases |cl| - j
  {
    if j == |cl| then (if DEval(a, cl[0]).None? then Unit else Conflict)
    else match DEval(a, cl[j])
      case Some(true) => Satisfied
      case None => if j != 0 then NewWatch(j) else DScanFrom(a, cl, j + 1)
      case Some(false) => DScanFrom(a, cl, j + 1)
  }

  function DScan(a: DAssignment, cl: Clause): DVisit
    requires Assignable(a, cl) && |cl| >= 1
  {
    DScanFrom(a, cl, 0)
  }

  /** The verdicts in terms of the assignment alone: a conflict exactly
      when every literal is false, a unit exactly when the first literal is
      unassigned and every other literal is false. */
  lemma DScanVerdicts(a: DAssignment, cl: Clause)
    requires Assignable(a, cl) && |cl| >= 1
    ensures DScan(a, cl).Conflict? <==> DAllFalse(a, cl)
    ensures DScan(a, cl).Unit? <==>
      DEval(a, cl[0]).None? && forall k :: 1 <= k < |cl| ==> DEval(a, cl[k]) == Some(false)
  {
    var r := DScan(a, cl);
    if DAllFalse(a, cl) {
      assert !r.Satisfied? by {
        forall k | 0 <= k < |cl| ensures DEval(a, cl[k]) != Some(true) {
        }
      }
      assert DEval(a, cl[0]) == Some(false);
    }
    if DEval(a, cl[0]).None? && forall k :: 1 <= k < |cl| ==> DEval(a, cl[k]) == Some(false) {
      assert !r.Satisfied? by {
        forall k | 0 <= k < |cl| ensures DEval(a, cl[k]) != Some(true) {
        }
      }
    }
    if r.Conflict? {
      forall k | 0 <= k < |cl| ensures Fits(a, cl[k]) && DEval(a, cl[k]) == Some(false) {
      }
    }
  }

  // ---------------------------------------------------------------------
  // Visiting one watched clause

  /** Replacing a clause by one with the same literals at possibly other
      positions keeps the literals in range and the watch lists sound. */
  lemma ReplaceClauseKeeps(s: DSolver, c: nat, cl: Clause)
    requires DInv(s) && c < |s.clauses| && |cl| == |s.clauses[c]|
    requires forall k :: 0 <= k < |cl| ==> cl[k] in s.clauses[c]
    ensures Cdcl.ClausesInRange(s.clauses[c := cl], |s.assignment.values| - 1)
    ensures EntriesWatchable(s.clauses[c := cl], s.watched)
  {
    var cs := s.clauses[c := cl];
    forall d, k | 0 <= d < |cs| && 0 <= k < |cs[d]|
      ensures cs[d][k] != 0 && ToVar(cs[d][k]) <= |s.assignment.values| - 1
    {
      if d == c {
        var k' :| 0 <= k' < |s.clauses[c]| && s.clauses[c][k'] == cl[k];
      }
    }
  }

  /** A swap keeps a clause's literals. */
  lemma SwapFrom(cl: Clause, x: nat, y: nat)
    requires x < |cl| && y < |cl|
    ensures forall k :: 0 <= k < |cl| ==> Propagation.Swap(cl, x, y)[k] in cl
    ensures multiset(Propagation.Swap(cl, x, y)) == multiset(cl)
  {
    Propagation.SwapSameLits(cl, x, y);
  }

  /** Moving clause `c` from the list of `lit` (at index `i`) to the list
      of `m` keeps every entry watchable. */
  lemma MoveEntries(clauses: seq<Clause>, w: seq<seq<nat>>, lit: Lit, i: nat, m: Lit, c: nat)
    requires EntriesWatchable(clauses, w) && InMap(w, lit) && InMap(w, m)
    requires i < |Get(w, lit)| && c < |clauses| && |clauses[c]| >= 2
    ensures var w1 := Put(w, lit, SwapRemove(Get(w, lit), i).0);
      InMap(w1, m) && EntriesWatchable(clauses, Push(w1, m, c))
  {
    var list := Get(w, lit);
    var w1 := Put(w, lit, SwapRemove(list, i).0);
    var w2 := Push(w1, m, c);
    forall p, k | 0 <= p < |w2| && 0 <= k < |w2[p]| ensures w2[p][k] < |clauses| && |clauses[w2[p][k]]| >= 2 {
      if p == Position(m) && k == |w1[p]| {
      } else if p == Position(lit) {
        var r := SwapRemove(list, i).0;
        assert w1[p] == r;
        assert r[k] == list[k] || r[k] == list[|list| - 1];
      } else {
        assert w1[p] == w[p];
      }
    }
  }

  /** The `None if j != 0` arm: swap the unassigned literal into index 1,
      and move the clause from the list of the false literal to its list. */
  method DMoveWatch(s: DSolver, lit: Lit, i: nat, c: nat, j: nat) returns (s': DSolver)
    requires DInv(s) && Fits(s.assignment, lit) && DEval(s.assignment, lit) == Some(false)
    requires InMap(s.watched, lit) && i < |Get(s.watched, lit)| && Get(s.watched, lit)[i] == c
    requires c < |s.clauses| && 1 <= j < |s.clauses[c]|
    requires Fits(s.assignment, s.clauses[c][j]) && DEval(s.assignment, s.clauses[c][j]).None?
    ensures DInv(s') && s'.propHead == s.propHead && s'.assignment == s.assignment
    ensures Propagation.SameLits(s.clauses, s'.clauses)
    ensures InMap(s'.watched, lit) && |Get(s'.watched, lit)| == |Get(s.watched, lit)| - 1
  {
    var cl := s.clauses[c];
    assert s.watched[Position(lit)][i] == c;
    var cl2 := Propagation.Swap(cl, 1, j);
    var m := cl2[1];
    var cs := s.clauses[c := cl2];
    var w := s.watched;
    assert m != lit && Cdcl.ClausesInRange(cs, |s.assignment.values| - 1)
      && EntriesWatchable(cs, w) && Propagation.SameLits(s.clauses, cs) by {
      SwapFrom(cl, 1, j);
      ReplaceClauseKeeps(s, c, cl2);
    }
    var w1 := Put(w, lit, SwapRemove(Get(w, lit), i).0);
    var w2 := Push(w1, m, c);
    assert InMap(w1, m) && EntriesWatchable(cs, w2) by {
      MoveEntries(cs, w, lit, i, m, c);
    }
    assert Get(w2, lit) == Get(w1, lit) by {
      assert Position(lit) != Position(m) by {
        PositionRoundTrip(lit);
        PositionRoundTrip(m);
      }
    }
    s' := DSolver(cs, s.assignment, w2, s.propHead);
  }

  /** One visit of `self.watched[lit][i]`. The clause is first oriented so
      that `lit` sits at index 1, then scanned: a satisfied clause is
      skipped, a new watch moves the clause to another list (so index `i`
      now holds the next clause), a unit assigns its first literal, and a
      conflict stops propagation. */
  method DVisitClause(s: DSolver, lit: Lit, i: nat) returns (s': DSolver, i': nat, conflict: bool)
    requires DInv(s) && Fits(s.assignment, lit) && DEval(s.assignment, lit) == Some(false)
    requires InMap(s.watched, lit) && i < |Get(s.watched, lit)|
    ensures DInv(s') && s'.propHead == s.propHead
    ensures Propagation.SameLits(s.clauses, s'.clauses)
    ensures DExtends(s.assignment, s'.assignment)
    ensures InMap(s'.watched, lit)
    ensures !conflict ==> i' <= |Get(s'.watched, lit)| && |Get(s'.watched, lit)| - i' < |Get(s.watched, lit)| - i
    ensures conflict ==> exists c :: 0 <= c < |s'.clauses| && DAllFalse(s'.assignment, s'.clauses[c])
  {
    var a := s.assignment;
    var c := Get(s.watched, lit)[i];
    assert s.watched[Position(lit)][i] == c;
    var cl := s.clauses[c];
    cl := if cl[1] != lit then Propagation.Swap(cl, 0, 1) else cl;
    SwapFrom(s.clauses[c], 0, 1);
    ReplaceClauseKeeps(s, c, cl);
    var s1 := s.(clauses := s.clauses[c := cl]);
    assert Assignable(a, cl) by {
      forall k | 0 <= k < |cl| ensures Fits(a, cl[k]) {
        assert cl[k] != 0 && ToVar(cl[k]) <= |a.values| - 1;
      }
    }
    conflict := false;
    match DScan(a, cl)
    case Satisfied =>
      s', i' := s1, i + 1;
    case NewWatch(j) =>
      s' := DMoveWatch(s1, lit, i, c, j);
      i' := i;
    case Unit =>
      DAssignValid(a, cl[0]);
      DAssignExtends(a, cl[0]);
      s' := s1.(assignment := DAssign(a, cl[0]));
      i' := i + 1;
    case Conflict =>
      DScanVerdicts(a, cl);
      s', i' := s1, i;
      conflict := true;
  }

  // ---------------------------------------------------------------------
  // propagate

  /** The inner loop of `propagate`: every clause on the list of the false
      literal `lit` is visited, until a conflict. */
  method DVisitWatchers(s: DSolver, lit: Lit) returns (s': DSolver, ok: bool)
    requires DInv(s) && Fits(s.assignment, lit) && DEval(s.assignment, lit) == Some(false)
    ensures DInv(s') && s'.propHead == s.propHead
    ensures Propagation.SameLits(s.clauses, s'.clauses)
    ensures DExtends(s.assignment, s'.assignment)
    ensures !ok ==> exists c :: 0 <= c < |s'.clauses| && DAllFalse(s'.assignment, s'.clauses[c])
  {
    s' := s;
    var i: nat := 0;
    while i < |Get(s'.watched, lit)|
      invariant DInv(s') && s'.propHead == s.propHead && InMap(s'.watched, lit)
      invariant Propagation.SameLits(s.clauses, s'.clauses)
      invariant DExtends(s.assignment, s'.assignment)
      invariant Fits(s'.assignment, lit) && DEval(s'.assignment, lit) == Some(false)
      decreases |Get(s'.watched, lit)| - i
    {
      var next, i', conflict := DVisitClause(s', lit, i);
      DExtendsTrans(s.assignment, s'.assignment, next.assignment);
      DExtendsEval(s'.assignment, next.assignment, lit);
      s' := next;
      if conflict {
        return s', false;
      }
      i := i';
    }
    ok := true;
  }

  /** The measure of the outer loop: each round either advances the head
      or grows the trail, and neither can pass the number of variables. */
  function Remaining(s: DSolver): nat
    requires DInv(s)
  {
    DTrailBound(s.assignment);
    2 * |s.assignment.values| - |s.assignment.trail| - s.propHead
  }

  /** `propagate`: visit the watchers of the negation of every trail literal
      from the head on. `false` means some clause has every literal false;
      `true` means every trail literal was processed. Clauses only have
      their literals reordered and the assignment only grows. */
  method DPropagate(s: DSolver) returns (s': DSolver, ok: bool)
    requires DInv(s)
    ensures DInv(s') && s'.propHead >= s.propHead
    ensures Propagation.SameLits(s.clauses, s'.clauses)
    ensures DExtends(s.assignment, s'.assignment)
    ensures ok ==> s'.propHead == |s'.assignment.trail|
    ensures !ok ==> exists c :: 0 <= c < |s'.clauses| && DAllFalse(s'.assignment, s'.clauses[c])
  {
    s' := s;
    while s'.propHead < |s'.assignment.trail|
      invariant DInv(s') && s'.propHead >= s.propHead
      invariant Propagation.SameLits(s.clauses, s'.clauses)
      invariant DExtends(s.assignment, s'.assignment)
      decreases Remaining(s')
    {
      var a := s'.assignment;
      var t := a.trail[s'.propHead];
      assert Fits(a, t) && DEval(a, t) == Some(true);
      DEvalNegation(a, t);
      var next, fine := DVisitWatchers(s', -t);
      DExtendsTrans(s.assignment, s'.assignment, next.assignment);
      if !fine {
        return next, false;
      }
      assert |next.assignment.trail| >= |a.trail|;
      s' := next.(propHead := next.propHead + 1);
    }
    ok := true;
  }

  // ---------------------------------------------------------------------
  // solve

  /** Some clause is empty. */
  predicate HasEmptyClause(clauses: seq<Clause>)
  {
    exists c :: 0 <= c < |clauses| && clauses[c] == []
  }

  /** Clause `c`, below `k`, is the unit clause `[lit]`. */
  predicate UnitBefore(clauses: seq<Clause>, k: nat, lit: Lit)
  {
    exists c :: 0 <= c < k && c < |clauses| && clauses[c] == [lit]
  }

  /** Two unit clauses hold opposite literals. */
  predicate ContradictoryUnits(clauses: seq<Clause>)
  {
    exists c, d :: 0 <= c < |clauses| && 0 <= d < |clauses| && |clauses[c]| == 1 && |clauses[d]| == 1
      && clauses[c][0] == -clauses[d][0]
  }

  /** The first loop of `solve`: an empty clause, or a unit clause whose
      literal is already false, answers Unsat; an unassigned unit literal
      is assigned; longer clauses wait for propagation. Only unit literals
      reach the trail. */
  method AssignUnits(s: DSolver) returns (s': DSolver, unsat: bool)
    requires DInv(s) && s.assignment.trail == [] && s.assignment.decisions == [] && s.propHead == 0
    ensures DInv(s') && s'.clauses == s.clauses && s'.propHead == 0 && s'.assignment.decisions == []
    ensures |s'.assignment.values| == |s.assignment.values|
    ensures unsat ==> HasEmptyClause(s.clauses) || ContradictoryUnits(s.clauses)
    ensures forall t :: 0 <= t < |s'.assignment.trail| ==> UnitBefore(s.clauses, |s.clauses|, s'.assignment.trail[t])
  {
    s' := s;
    var k := 0;
    while k < |s.clauses|
      invariant k <= |s.clauses|
      invariant DInv(s') && s'.clauses == s.clauses && s'.propHead == 0 && s'.assignment.decisions == []
      invariant |s'.assignment.values| == |s.assignment.values|
      invariant forall t :: 0 <= t < |s'.assignment.trail| ==> UnitBefore(s.clauses, k, s'.assignment.trail[t])
    {
      var clause := s.clauses[k];
      if |clause| == 0 {
        return s', true;
      } else if |clause| == 1 {
        var lit := clause[0];
        var a := s'.assignment;
        assert Fits(a, lit) by {
          assert s.clauses[k][0] != 0 && ToVar(s.clauses[k][0]) <= |a.values| - 1;
        }
        match DEval(a, lit)
        case None =>
          DAssignValid(a, lit);
          s' := s'.(assignment := DAssign(a, lit));
        case Some(false) =>
          DFalseOnTrail(a, lit);
          var t :| 0 <= t < |a.trail| && a.trail[t] == -lit;
          assert UnitBefore(s.clauses, k, a.trail[t]);
          return s', true;
        case Some(true) =>
      }
      k := k + 1;
    }
    unsat := false;
  }

  /** The backtracking step of the search loop: flip the last decision and
      move the head back onto the flipped literal. */
  function Flip(s: DSolver): (s': DSolver)
    requires DInv(s) && |s.assignment.decisions| > 0
    ensures DInv(s')
    ensures s'.clauses == s.clauses && |s'.assignment.decisions| == |s.assignment.decisions| - 1
    ensures s'.propHead == |s'.assignment.trail| - 1 || s'.propHead == s.propHead
  {
    DBacktrackValid(s.assignment);
    var a := DBacktrack(s.assignment);
    s.(assignment := a, propHead := if s.propHead < |a.trail| - 1 then s.propHead else |a.trail| - 1)
  }

  /** `Solver::new(problem).solve()`, with the search loop allowed `fuel`
      rounds; `Unknown` reports that the fuel ran out, which src/solver.rs
      never does. Unsat comes from an empty clause, from two opposite unit
      clauses, or from a clause made false with no decision left to flip.
      A Sat model is the trail: one literal for every variable, none twice. */
  method DSolve(p: Problem, fuel: nat) returns (sol: Solution, s': DSolver)
    requires Cdcl.ClausesInRange(p.clauses, p.varCount)
    ensures DInv(s') && Propagation.SameLits(p.clauses, s'.clauses)
    ensures sol.Unsat? ==>
      || HasEmptyClause(p.clauses)
      || ContradictoryUnits(p.clauses)
      || (s'.assignment.decisions == []
          && exists c :: 0 <= c < |s'.clauses| && DAllFalse(s'.assignment, s'.clauses[c]))
    ensures sol.Sat? ==> sol.model == s'.assignment.trail
    ensures sol.Sat? ==> forall v: Var :: 1 <= v <= p.varCount ==> Assignments.Mentions(sol.model, v)
    ensures sol.Sat? ==> Assignments.DistinctVars(sol.model)
  {
    var s0 := NewSolver(p);
    var unsat;
    s', unsat := AssignUnits(s0);
    if unsat {
      return Unsat, s';
    }
    var ok;
    s', ok := DPropagate(s');
    if !ok {
      return Unsat, s';
    }
    var n := fuel;
    while true
      invariant DInv(s') && Propagation.SameLits(p.clauses, s'.clauses)
      invariant |s'.assignment.values| == p.varCount + 1
      decreases n
    {
      var v := ChooseVar(s'.assignment);
      if v.None? {
        forall w: Var | 1 <= w <= p.varCount ensures Assignments.Mentions(s'.assignment.trail, w) {
          assert s'.assignment.values[w].Some?;
        }
        return Sat(s'.assignment.trail), s';
      }
      if n == 0 {
        return Unknown, s';
      }
      n := n - 1;
      var a := s'.assignment;
      assert Fits(a, v.value as int) && DEval(a, v.value as int).None?;
      DDecideValid(a, v.value as int);
      s' := s'.(assignment := DDecide(a, v.value as int));
      s', ok := DPropagate(s');
      while !ok
        invariant DInv(s') && Propagation.SameLits(p.clauses, s'.clauses)
        invariant |s'.assignment.values| == p.varCount + 1
        invariant !ok ==> exists c :: 0 <= c < |s'.clauses| && DAllFalse(s'.assignment, s'.clauses[c])
        decreases n
      {
        if |s'.assignment.decisions| == 0 {
          return Unsat, s';
        }
        if n == 0 {
          return Unknown, s';
        }
        n := n - 1;
        s' := Flip(s');
        s', ok := DPropagate(s');
      }
    }
  }
}
