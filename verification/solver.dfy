/** The CDCL solver's structural operations (src/solver/mod.rs): the clause
    database with its two implicit watches per clause, clause addition and
    removal, pruning of learnt clauses, propagation, the trivial Unsat checks
    of `solve`, the handling of a learnt clause, and the model checker
    `verify`. Conflict analysis, branching and restarts are not modelled. */
module Cdcl {
  import opened Results
  import opened Types
  import opened SeqUtil
  import opened LitMaps
  import opened Assignments
  import opened Activity
  import opened WatchLists

  /** The solver state that the structural operations touch. `watched[lit]`
      lists the clauses watching `lit`; the watched literals of a clause are
      always its first two. */
  datatype Solver = Solver(
    clauses: seq<Clause>,
    minClauseCount: nat,
    assignment: Assignment,
    watched: seq<seq<nat>>,
    propHead: nat,
    tracker: ClauseTracker,
    proof: Option<Proof>)

  /** Clause `cl` watches `lit`: it has two literals or more and `lit` is one
      of the first two. */
  predicate Watches(cl: Clause, lit: Lit)
  {
    |cl| >= 2 && (cl[0] == lit || cl[1] == lit)
  }

  predicate DistinctLits(cl: Clause)
  {
    forall i, j :: 0 <= i < j < |cl| ==> cl[i] != cl[j]
  }

  /** Every literal of every clause names a variable of the assignment. */
  predicate ClausesInRange(clauses: seq<Clause>, varCount: nat)
  {
    forall c, k :: 0 <= c < |clauses| && 0 <= k < |clauses[c]| ==>
      clauses[c][k] != 0 && ToVar(clauses[c][k]) <= varCount
  }

  /** Each watch list holds distinct indices of clauses that watch its
      literal; slot 0, which no literal maps to, stays empty. */
  predicate WatchesSound(clauses: seq<Clause>, watched: seq<seq<nat>>)
  {
    && |watched| >= 1 && watched[0] == []
    && (forall p, k :: 1 <= p < |watched| && 0 <= k < |watched[p]| ==>
          watched[p][k] < |clauses| && Watches(clauses[watched[p][k]], LitAt(p)))
    && (forall p :: 0 <= p < |watched| ==> Distinct(watched[p]))
  }

  /** Clause number `c`, when it has two literals or more, is in the lists
      of both of its first two. */
  predicate Registered(watched: seq<seq<nat>>, c: nat, cl: Clause)
  {
    |cl| >= 2 && cl[0] != 0 && cl[1] != 0 ==>
      && Position(cl[0]) < |watched| && c in watched[Position(cl[0])]
      && Position(cl[1]) < |watched| && c in watched[Position(cl[1])]
  }

  /** Every clause is registered. The trigger keeps this quantifier from
      firing on every clause the watch lists mention. */
  predicate WatchesComplete(clauses: seq<Clause>, watched: seq<seq<nat>>)
  {
    forall c {:trigger Registered(watched, c, clauses[c])} :: 0 <= c < |clauses| ==>
      Registered(watched, c, clauses[c])
  }

  function VarCount(s: Solver): nat
  {
    if |s.assignment.data| == 0 then 0 else |s.assignment.data| - 1
  }

  /** Every clause index recorded as a reason is a clause of the database. */
  predicate ReasonsInRange(a: Assignment, clauseCount: nat)
  {
    forall v :: 0 <= v < |a.data| && a.data[v].Some? && a.data[v].value.reason.Propagation? ==>
      a.data[v].value.reason.clause < clauseCount
  }

  /** The invariant the solver keeps between operations. */
  predicate Inv(s: Solver)
  {
    && Assignments.Valid(s.assignment)
    && |s.watched| == 2 * VarCount(s) + 1
    && ClausesInRange(s.clauses, VarCount(s))
    && (forall c :: 0 <= c < |s.clauses| ==> DistinctLits(s.clauses[c]))
    && WatchesSound(s.clauses, s.watched)
    && WatchesComplete(s.clauses, s.watched)
    && |s.tracker.activity| == |s.clauses|
    && ReasonsInRange(s.assignment, |s.clauses|)
    && s.propHead <= |s.assignment.trail|
  }

  // ---------------------------------------------------------------------
  // Adding clauses

  /** Appends `i` to the watch list of `lit`. */
  function Watch(watched: seq<seq<nat>>, lit: Lit, i: nat): (w: seq<seq<nat>>)
    requires InMap(watched, lit)
    ensures |w| == |watched| && Get(w, lit) == Get(watched, lit) + [i]
    ensures forall p :: 0 <= p < |watched| && p != Position(lit) ==> w[p] == watched[p]
  {
    Put(watched, lit, Get(watched, lit) + [i])
  }

  /** `add`: the new clause gets the next index, is watched by its first two
      literals when it has two or more, and gets a clause activity. */
  function Add(s: Solver, clause: Clause): (r: (Solver, nat))
    requires |clause| >= 2 ==> InMap(s.watched, clause[0]) && InMap(s.watched, clause[1])
    ensures r.1 == |s.clauses| && r.0.clauses == s.clauses + [clause]
    ensures r.0.tracker == AddClause(s.tracker)
    ensures r.0.assignment == s.assignment && r.0.propHead == s.propHead
    ensures r.0.proof == s.proof && r.0.minClauseCount == s.minClauseCount
    ensures r.0.watched == AddedWatches(s.watched, clause, r.1)
  {
    var i := |s.clauses|;
    (s.(clauses := s.clauses + [clause], watched := AddedWatches(s.watched, clause, i),
        tracker := AddClause(s.tracker)), i)
  }

  /** Adding a clause with distinct in-range literals keeps the invariant. */
  lemma AddKeepsInv(s: Solver, clause: Clause)
    requires Inv(s)
    requires forall k :: 0 <= k < |clause| ==> clause[k] != 0 && ToVar(clause[k]) <= VarCount(s)
    requires DistinctLits(clause)
    ensures |clause| >= 2 ==> InMap(s.watched, clause[0]) && InMap(s.watched, clause[1])
    ensures Inv(Add(s, clause).0)
  {
    AddKeepsSound(s.clauses, s.watched, clause);
    AddKeepsComplete(s.clauses, s.watched, clause);
    AddKeepsShape(s.clauses, clause, VarCount(s));
  }

  /** The watch lists after adding clause number `i`: the lists of its first
      two literals get `i` appended, when it has two literals or more. */
  function AddedWatches(watched: seq<seq<nat>>, clause: Clause, i: nat): (w: seq<seq<nat>>)
    requires |clause| >= 2 ==> InMap(watched, clause[0]) && InMap(watched, clause[1])
    ensures |w| == |watched|
    ensures forall p :: 0 <= p < |watched| ==>
      w[p] == watched[p]
        + (if |clause| >= 2 && p == Position(clause[0]) then [i] else [])
        + (if |clause| >= 2 && p == Position(clause[1]) then [i] else [])
  {
    if |clause| >= 2 then Watch(Watch(watched, clause[0], i), clause[1], i) else watched
  }

  lemma AddKeepsShape(clauses: seq<Clause>, clause: Clause, varCount: nat)
    requires ClausesInRange(clauses, varCount)
    requires forall c :: 0 <= c < |clauses| ==> DistinctLits(clauses[c])
    requires forall k :: 0 <= k < |clause| ==> clause[k] != 0 && ToVar(clause[k]) <= varCount
    requires DistinctLits(clause)
    ensures ClausesInRange(clauses + [clause], varCount)
    ensures forall c :: 0 <= c < |clauses| + 1 ==> DistinctLits((clauses + [clause])[c])
  {
  }

  lemma AddKeepsSound(clauses: seq<Clause>, watched: seq<seq<nat>>, clause: Clause)
    requires WatchesSound(clauses, watched)
    requires |clause| >= 2 ==> InMap(watched, clause[0]) && InMap(watched, clause[1]) && clause[0] != clause[1]
    ensures WatchesSound(clauses + [clause], AddedWatches(watched, clause, |clauses|))
  {
    var i := |clauses|;
    var cs := clauses + [clause];
    var w := AddedWatches(watched, clause, i);
    if |clause| >= 2 {
      PositionInjective(clause[0], clause[1]);
      LitAtRoundTrip(Position(clause[0]));
      LitAtRoundTrip(Position(clause[1]));
      forall p, k | 1 <= p < |w| && 0 <= k < |w[p]|
        ensures w[p][k] < |cs| && Watches(cs[w[p][k]], LitAt(p))
      {
        if k < |watched[p]| {
          assert w[p][k] == watched[p][k];
        } else {
          assert w[p][k] == i;
          assert p == Position(clause[0]) || p == Position(clause[1]);
        }
      }
      forall p | 0 <= p < |w| ensures Distinct(w[p]) {
        forall k1, k2 | 0 <= k1 < k2 < |w[p]| ensures w[p][k1] != w[p][k2] {
          if k2 >= |watched[p]| {
            assert w[p][k2] == i && k1 < |watched[p]|;
          }
        }
      }
    }
  }

  lemma AddKeepsComplete(clauses: seq<Clause>, watched: seq<seq<nat>>, clause: Clause)
    requires WatchesComplete(clauses, watched)
    requires |clause| >= 2 ==> InMap(watched, clause[0]) && InMap(watched, clause[1])
    ensures WatchesComplete(clauses + [clause], AddedWatches(watched, clause, |clauses|))
  {
    var i := |clauses|;
    var cs := clauses + [clause];
    var w := AddedWatches(watched, clause, i);
    forall c | 0 <= c < |cs| ensures Registered(w, c, cs[c]) {
      if c < i {
        assert cs[c] == clauses[c];
        assert Registered(watched, c, clauses[c]);
        assert forall p :: 0 <= p < |watched| ==> watched[p] <= w[p];
      }
    }
  }

  // ---------------------------------------------------------------------
  // Creating the solver

  /** `clause.sort(); clause.dedup();` */
  function Normalize(c: Clause): Clause
  {
    Dedup(Sort(c))
  }

  /** A normalized clause is strictly increasing, so its literals are
      distinct, and it has the same literals as before. */
  lemma NormalizeShape(c: Clause)
    ensures StrictlySorted(Normalize(c)) && DistinctLits(Normalize(c))
    ensures forall l :: l in Normalize(c) <==> l in c
  {
    SortDedupShape(c);
  }

  /** Normalizing a clause does not change which valuations satisfy it. */
  lemma NormalizeKeepsMeaning(val: seq<bool>, c: Clause)
    ensures ClauseTrue(val, Normalize(c)) <==> ClauseTrue(val, c)
  {
    NormalizeShape(c);
    if ClauseTrue(val, c) {
      var l :| l in c && LitTrue(val, l);
      assert l in Normalize(c);
    }
  }

  /** The solver before any clause is added. */
  function Empty(varCount: nat, clauseCount: nat, proof: Option<Proof>): (s: Solver)
    ensures Inv(s) && VarCount(s) == varCount && s.clauses == []
  {
    var s := Solver([], clauseCount, New(varCount), NewLitMap(varCount, []), 0, NewTracker(), proof);
    assert forall p :: 0 <= p < |s.watched| ==> s.watched[p] == [];
    s
  }

  /** A normalized input clause has distinct literals, all naming
      variables of the problem. */
  lemma NormalizeInRange(p: Problem, i: nat)
    requires WellFormed(p) && i < |p.clauses|
    ensures DistinctLits(Normalize(p.clauses[i]))
    ensures forall k :: 0 <= k < |Normalize(p.clauses[i])| ==>
      Normalize(p.clauses[i])[k] != 0 && ToVar(Normalize(p.clauses[i])[k]) <= p.varCount
  {
    var c := Normalize(p.clauses[i]);
    NormalizeShape(p.clauses[i]);
    forall k | 0 <= k < |c| ensures c[k] != 0 && ToVar(c[k]) <= p.varCount {
      var l := c[k];
      assert l in c;
      assert l in p.clauses[i];
      assert l != 0;
      assert ToVar(l) <= p.varCount;
    }
  }

  lemma NormalizedSnoc(cs: seq<Clause>, p: Problem, i: nat)
    requires i < |p.clauses| && |cs| == i
    requires forall k :: 0 <= k < i ==> cs[k] == Normalize(p.clauses[k])
    ensures forall k :: 0 <= k < i + 1 ==> (cs + [Normalize(p.clauses[i])])[k] == Normalize(p.clauses[k])
  {
  }

  /** One round of `create`'s loop: the `i`-th input clause, normalized,
      is added, and the invariant still holds. */
  method AddNormalized(s: Solver, p: Problem, i: nat) returns (s': Solver)
    requires WellFormed(p) && i < |p.clauses| && Inv(s) && VarCount(s) == p.varCount
    ensures Inv(s') && VarCount(s') == p.varCount
    ensures s'.clauses == s.clauses + [Normalize(p.clauses[i])]
    ensures s'.tracker == AddClause(s.tracker) && s'.minClauseCount == s.minClauseCount
    ensures s'.assignment == s.assignment && s'.propHead == s.propHead && s'.proof == s.proof
  {
    var c := Normalize(p.clauses[i]);
    NormalizeInRange(p, i);
    AddKeepsInv(s, c);
    s' := Add(s, c).0;
  }

  /** `create`: every input clause is sorted, deduplicated and added, in
      order; the input clauses are the ones `prune` may never remove. */
  method Create(p: Problem, proof: Option<Proof>) returns (s: Solver)
    requires WellFormed(p)
    ensures Inv(s) && VarCount(s) == p.varCount
    ensures |s.clauses| == |p.clauses| == s.minClauseCount
    ensures forall i :: 0 <= i < |p.clauses| ==> s.clauses[i] == Normalize(p.clauses[i])
    ensures s.assignment == New(p.varCount) && s.propHead == 0 && s.proof == proof
    ensures |s.tracker.activity| == |p.clauses|
    ensures forall i :: 0 <= i < |p.clauses| ==> s.tracker.activity[i] == 0
  {
    s := Empty(p.varCount, |p.clauses|, proof);
    var i := 0;
    while i < |p.clauses|
      invariant 0 <= i <= |p.clauses|
      invariant Inv(s) && VarCount(s) == p.varCount
      invariant s.minClauseCount == |p.clauses|
      invariant |s.clauses| == i
      invariant forall k :: 0 <= k < i ==> s.clauses[k] == Normalize(p.clauses[k])
      invariant s.assignment == New(p.varCount) && s.propHead == 0 && s.proof == proof
      invariant |s.tracker.activity| == i
      invariant forall k :: 0 <= k < i ==> s.tracker.activity[k] == 0
    {
      NormalizedSnoc(s.clauses, p, i);
      s := AddNormalized(s, p, i);
      i := i + 1;
    }
  }

  /** The database `create` builds is satisfied by exactly the valuations
      that satisfy the problem. */
  lemma CreateKeepsMeaning(val: seq<bool>, p: Problem, clauses: seq<Clause>)
    requires |clauses| == |p.clauses|
    requires forall i :: 0 <= i < |p.clauses| ==> clauses[i] == Normalize(p.clauses[i])
    ensures AllClausesTrue(val, clauses) <==> AllClausesTrue(val, p.clauses)
  {
    forall i | 0 <= i < |p.clauses| ensures ClauseTrue(val, clauses[i]) <==> ClauseTrue(val, p.clauses[i]) {
      NormalizeKeepsMeaning(val, p.clauses[i]);
    }
  }
}
