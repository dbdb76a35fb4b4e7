/** The model checker `verify` (src/solver/mod.rs, and the older one in
    src/solver.rs): the model is sorted, then every clause must contain a
    literal that binary search finds in it. A `Sat` answer passes only when
    satisfiability was expected, an `Unsat` answer only when it was not,
    an `Unknown` answer never. Also the formulas of the solvers' unit tests. */
module Verification {
  import opened Results
  import opened Types
  import opened SeqUtil

  /** The clause contains a literal of `model`. */
  predicate Covered(clause: Clause, model: seq<Lit>)
  {
    exists l :: l in clause && l in model
  }

  /** Every clause contains a literal of `model`. */
  predicate Covers(clauses: seq<Clause>, model: seq<Lit>)
  {
    forall i :: 0 <= i < |clauses| ==> Covered(clauses[i], model)
  }

  /** The acceptance rule of `verify`, answer by answer. */
  predicate Accepts(p: Problem, sat: bool, solution: Solution)
  {
    match solution
    case Sat(model) => sat && Covers(p.clauses, model)
    case Unsat => !sat
    case Unknown => false
  }

  /** `clause.iter().any(|lit| sorted.binary_search(lit).is_ok())`. */
  method AnyFound(clause: Clause, sorted: seq<int>) returns (found: bool)
    requires Sorted(sorted)
    ensures found <==> Covered(clause, sorted)
  {
    var k := 0;
    while k < |clause|
      invariant 0 <= k <= |clause|
      invariant forall j :: 0 <= j < k ==> clause[j] !in sorted
    {
      found := BinarySearch(sorted, clause[k]);
      if found {
        return;
      }
      k := k + 1;
    }
    found := false;
  }

  /** `verify` of src/solver.rs: the model covers every clause. Sorting
      does not change which literals the model holds. */
  method ModelCovers(clauses: seq<Clause>, model: seq<Lit>) returns (ok: bool)
    ensures ok <==> Covers(clauses, model)
  {
    var sorted := Sort(model);
    SortMembers(model);
    var i := 0;
    while i < |clauses|
      invariant 0 <= i <= |clauses|
      invariant forall j :: 0 <= j < i ==> Covered(clauses[j], model)
    {
      ok := AnyFound(clauses[i], sorted);
      if !ok {
        assert !Covered(clauses[i], model);
        return;
      }
      i := i + 1;
    }
    ok := true;
  }

  lemma SortMembers(s: seq<int>)
    ensures forall x :: x in Sort(s) <==> x in s
  {
    forall x ensures x in Sort(s) <==> x in s {
      assert x in Sort(s) <==> x in multiset(Sort(s));
      assert x in s <==> x in multiset(s);
    }
  }

  /** `verify` of src/solver/mod.rs. */
  method Verify(p: Problem, sat: bool, solution: Solution) returns (ok: bool)
    ensures ok <==> Accepts(p, sat, solution)
  {
    match solution
    case Sat(model) =>
      if sat {
        ok := ModelCovers(p.clauses, model);
      } else {
        ok := false;
      }
    case Unsat => ok := !sat;
    case Unknown => ok := false;
  }

  // ---------------------------------------------------------------------
  // What acceptance means

  /** No literal occurs in `model` together with its negation. */
  predicate Consistent(model: seq<Lit>)
  {
    forall l :: l in model ==> -l !in model
  }

  /** The valuation over variables 1..n that makes a variable true exactly
      when it occurs positively in `model`. */
  function ModelValuation(model: seq<Lit>, n: nat): (val: seq<bool>)
    ensures IsValuation(val, n)
    ensures forall v :: 0 <= v <= n ==> val[v] == (v as int in model)
  {
    seq(n + 1, v => v as int in model)
  }

  /** Every literal of `lits` is non-zero and names a variable in 1..n. */
  predicate InRange(lits: seq<Lit>, n: nat)
  {
    forall l :: l in lits ==> l != 0 && ToVar(l) <= n
  }

  /** A consistent model of in-range literals that `verify` accepts makes
      every clause true. */
  lemma CoveredSatisfies(clauses: seq<Clause>, model: seq<Lit>, n: nat)
    requires Consistent(model) && InRange(model, n) && Covers(clauses, model)
    ensures AllClausesTrue(ModelValuation(model, n), clauses)
  {
    var val := ModelValuation(model, n);
    forall i | 0 <= i < |clauses| ensures ClauseTrue(val, clauses[i]) {
      assert Covered(clauses[i], model);
      var l :| l in clauses[i] && l in model;
      ModelLitTrue(model, n, l);
    }
  }

  lemma ModelLitTrue(model: seq<Lit>, n: nat, l: Lit)
    requires Consistent(model) && InRange(model, n) && l in model
    ensures LitTrue(ModelValuation(model, n), l)
  {
    ToVarPolarity(l);
    if l < 0 {
      assert -l !in model;
    }
  }

  /** The literals made true by `val`, one per variable 1..n. */
  function TrueLits(val: seq<bool>, n: nat): (lits: seq<Lit>)
    requires IsValuation(val, n)
    ensures |lits| == n
    ensures forall v :: 1 <= v <= n ==> lits[v - 1] == (if val[v] then v as int else -(v as int))
  {
    seq(n, i requires 0 <= i < n => if val[i + 1] then i + 1 else -(i + 1))
  }

  /** Conversely, the literals a satisfying valuation makes true form a
      consistent in-range model that `verify` accepts. */
  lemma SatisfyingCovered(clauses: seq<Clause>, val: seq<bool>, n: nat)
    requires IsValuation(val, n) && AllClausesTrue(val, clauses)
    ensures var m := TrueLits(val, n); Consistent(m) && InRange(m, n) && Covers(clauses, m)
  {
    var m := TrueLits(val, n);
    forall l | l in m ensures l != 0 && ToVar(l) <= n && -l !in m {
      var i :| 0 <= i < n && m[i] == l;
      assert m[i] == (if val[i + 1] then i + 1 else -(i + 1));
      forall j | 0 <= j < n ensures m[j] != -l {
        assert m[j] == (if val[j + 1] then j + 1 else -(j + 1));
      }
    }
    forall i | 0 <= i < |clauses| ensures Covered(clauses[i], m) {
      assert ClauseTrue(val, clauses[i]);
      var l :| l in clauses[i] && LitTrue(val, l);
      var v := ToVar(l);
      ToVarPolarity(l);
      assert m[v - 1] == l;
    }
  }

  // ---------------------------------------------------------------------
  // The formulas of the unit tests

  /** The first formula of `basic_sat`, from the lecture. */
  const LectureSat: seq<Clause> := [[1, 2], [-1, 2], [-1, -2, 3], [-1, -2, -3]]

  /** The second formula of `basic_sat`. */
  const LectureSat2: seq<Clause> :=
    [[-1, -2, 3], [2, -1, 3], [1, -2, 3], [-3, 4, 5], [-3, 4, -5], [-3, -4, 5], [-3, -4, -5]]

  const BasicUnsat: seq<Clause> := [[1, 2], [-2, 3], [-2, -3], [-1, -2, -4], [-1, 2, -4], [-1, 2, 4]]

  /** The formula of `kickstart`: propagation alone refutes it. */
  const Kickstart: seq<Clause> := [[1], [-1, 2], [-1, -2]]

  /** The first `basic_sat` formula has a model that `verify` accepts; it
      is consistent, so the formula really is satisfiable. */
  lemma LectureModel()
    ensures Accepts(Problem(3, LectureSat), true, Sat([-1, 2, 3]))
    ensures AllClausesTrue(ModelValuation([-1, 2, 3], 3), LectureSat)
  {
    var m1 := [-1, 2, 3];
    forall i | 0 <= i < |LectureSat| ensures Covered(LectureSat[i], m1) {
      var l := if i < 2 then 2 else -1;
      assert l in LectureSat[i] && l in m1;
    }
    assert forall l :: l in m1 <==> l == -1 || l == 2 || l == 3;
    CoveredSatisfies(LectureSat, m1, 3);
  }

  /** Likewise for the second `basic_sat` formula. */
  lemma LectureModel2()
    ensures Accepts(Problem(5, LectureSat2), true, Sat([-1, -2, -3, 4, 5]))
    ensures AllClausesTrue(ModelValuation([-1, -2, -3, 4, 5], 5), LectureSat2)
  {
    var m2 := [-1, -2, -3, 4, 5];
    forall i | 0 <= i < |LectureSat2| ensures Covered(LectureSat2[i], m2) {
      var l := if i < 2 then -1 else if i == 2 then -2 else -3;
      assert l in LectureSat2[i] && l in m2;
    }
    assert forall l :: l in m2 <==> l == -1 || l == -2 || l == -3 || l == 4 || l == 5;
    CoveredSatisfies(LectureSat2, m2, 5);
  }

  /** `basic_unsat` has no model: clauses 2 and 3 force variable 2 false,
      clause 1 then forces 1 true, and the last two clauses clash on 4. */
  lemma BasicUnsatRefuted(val: seq<bool>)
    requires IsValuation(val, 4)
    ensures !AllClausesTrue(val, BasicUnsat)
  {
    if val[2] {
      if val[3] {
        assert !ClauseTrue(val, BasicUnsat[2]);
      } else {
        assert !ClauseTrue(val, BasicUnsat[1]);
      }
    } else if !val[1] {
      assert !ClauseTrue(val, BasicUnsat[0]);
    } else if val[4] {
      assert !ClauseTrue(val, BasicUnsat[4]);
    } else {
      assert !ClauseTrue(val, BasicUnsat[5]);
    }
  }

  /** `kickstart` has no model: the unit 1 makes both 2 and -2 necessary. */
  lemma KickstartRefuted(val: seq<bool>)
    requires IsValuation(val, 2)
    ensures !AllClausesTrue(val, Kickstart)
  {
    if !val[1] {
      assert !ClauseTrue(val, Kickstart[0]);
    } else if val[2] {
      assert !ClauseTrue(val, Kickstart[2]);
    } else {
      assert !ClauseTrue(val, Kickstart[1]);
    }
  }

  /** For an unsatisfiable formula `verify` with `sat == false` accepts
      `Unsat` only, and no consistent in-range model can cover it, so a
      `Sat` answer is rejected whatever `sat` says. */
  lemma UnsatTestsAccept(model: seq<Lit>)
    requires Consistent(model)
    ensures InRange(model, 4) ==> !Accepts(Problem(4, BasicUnsat), true, Sat(model))
    ensures InRange(model, 2) ==> !Accepts(Problem(2, Kickstart), true, Sat(model))
    ensures Accepts(Problem(4, BasicUnsat), false, Unsat)
    ensures Accepts(Problem(2, Kickstart), false, Unsat)
  {
    if InRange(model, 4) && Covers(BasicUnsat, model) {
      CoveredSatisfies(BasicUnsat, model, 4);
      BasicUnsatRefuted(ModelValuation(model, 4));
    }
    if InRange(model, 2) && Covers(Kickstart, model) {
      CoveredSatisfies(Kickstart, model, 2);
      KickstartRefuted(ModelValuation(model, 2));
    }
  }

  // ---------------------------------------------------------------------
  // The variable count of the test helper `check`

  function Concat(clauses: seq<Clause>): seq<Lit>
  {
    if |clauses| == 0 then [] else clauses[0] + Concat(clauses[1..])
  }

  function MaxOf(s: seq<int>): (m: int)
    requires |s| > 0
    ensures m in s
    ensures forall x :: x in s ==> x <= m
  {
    if |s| == 1 then s[0]
    else
      var t := MaxOf(s[1..]);
      assert forall x :: x in s ==> x == s[0] || x in s[1..];
      if s[0] < t then t else s[0]
  }

  /** `check` as written: the absolute value of the largest literal, and a
      panic (`None`) when the formula has no literal at all. */
  function CheckVarCount(clauses: seq<Clause>): Option<int>
  {
    var lits := Concat(clauses);
    if |lits| == 0 then None else Some(if MaxOf(lits) < 0 then -MaxOf(lits) else MaxOf(lits))
  }

  /** When the largest variable occurs only negated, `check` builds a
      problem whose variable count misses it. */
  lemma CheckVarCountUndercounts()
    ensures CheckVarCount([[-2], [1]]) == Some(1)
    ensures !WellFormed(Problem(1, [[-2], [1]]))
    ensures MaxVar([[-2], [1]]) == 2
  {
    var cs: seq<Clause> := [[-2], [1]];
    assert Concat(cs) == [-2, 1] by {
      assert cs[1..] == [[1]] && Concat(cs[1..][1..]) == [];
    }
    assert MaxOf([-2, 1]) == 1 by {
      assert [-2, 1][1..] == [1];
    }
    assert -2 in cs[0] && ToVar(-2) == 2;
    MaxVarExample();
  }

  lemma MaxVarExample()
    ensures MaxVar([[-2], [1]]) == 2
  {
    var cs: seq<Clause> := [[-2], [1]];
    assert cs[1..] == [[1]] && cs[1..][1..] == [];
    assert ClauseMaxVar(cs[0]) == 2;
    assert ClauseMaxVar(cs[1]) == 1;
  }

  /** Every literal is non-zero. */
  predicate NonZero(clauses: seq<Clause>)
  {
    forall c, l :: 0 <= c < |clauses| && l in clauses[c] ==> l != 0
  }

  /** The largest variable of a clause, 0 for the empty clause. */
  function ClauseMaxVar(c: Clause): (n: nat)
    requires forall l :: l in c ==> l != 0
    ensures forall l :: l in c ==> ToVar(l) <= n
    ensures n == 0 || exists l :: l in c && ToVar(l) == n
  {
    if |c| == 0 then 0
    else
      assert c[0] in c && forall l :: l in c[1..] ==> l in c;
      assert forall l :: l in c ==> l == c[0] || l in c[1..];
      var t := ClauseMaxVar(c[1..]);
      if ToVar(c[0]) < t then t else ToVar(c[0])
  }

  /** The variable count `check` evidently intends: the largest variable
      of the formula. */
  function MaxVar(clauses: seq<Clause>): (n: nat)
    requires NonZero(clauses)
    ensures WellFormed(Problem(n, clauses))
    ensures n == 0 || exists c, l :: 0 <= c < |clauses| && l in clauses[c] && ToVar(l) == n
  {
    if |clauses| == 0 then 0
    else
      var rest := clauses[1..];
      assert NonZero(rest) by {
        forall c, l | 0 <= c < |rest| && l in rest[c] ensures l != 0 {
          assert rest[c] == clauses[c + 1];
        }
      }
      var t := MaxVar(rest);
      var h := ClauseMaxVar(clauses[0]);
      assert forall c :: 0 <= c < |rest| ==> rest[c] == clauses[c + 1];
      if h < t then t else h
  }

  /** No smaller count makes the formula well formed, so `MaxVar` is the
      least variable count that covers every literal. */
  lemma MaxVarLeast(clauses: seq<Clause>, m: nat)
    requires NonZero(clauses) && m < MaxVar(clauses)
    ensures !WellFormed(Problem(m, clauses))
  {
    var c, l :| 0 <= c < |clauses| && l in clauses[c] && ToVar(l) == MaxVar(clauses);
  }
}
