/** The older DPLL snapshot of the solver (src/solver.rs): its assignment
    with a decision stack instead of levels and reasons, `choose_var`, and
    the initial watch lists of `Solver::new`. */
module Dpll {
  import opened Results
  import opened Types
  import opened LitMaps
  import Assignments
  import Cdcl

  // ---------------------------------------------------------------------
  // to_var

  /** `to_var` of this snapshot as written: `lit.abs() as usize`. `abs`
      overflows on `i32::MIN`, which panics in a debug build; `None` stands
      for that panic. */
  function AbsToVar(lit: int): Option<Var>
    requires IsLit(lit)
  {
    if lit == I32Min then None else Some(if lit < 0 then -lit else lit)
  }

  /** The literal `i32::MIN` passes the `i32` literal type but not `abs`. */
  lemma AbsToVarOverflows()
    ensures IsLit(I32Min) && AbsToVar(I32Min).None?
    ensures ToVar(I32Min) == 0x8000_0000
  {
  }

  /** The corrected `to_var` (`unsigned_abs`, as in src/types.rs) is
      defined on every `i32` literal and agrees with `abs` wherever `abs`
      does not overflow. */
  lemma UnsignedAbsTotal(lit: int)
    requires IsLit(lit)
    ensures 1 <= ToVar(lit) <= 0x8000_0000
    ensures AbsToVar(lit).Some? ==> AbsToVar(lit).value == ToVar(lit)
    ensures AbsToVar(lit).None? <==> lit == I32Min
  {
  }

  // ---------------------------------------------------------------------
  // The assignment

  /** `values` by variable (slot 0 unused), the trail, and the trail
      positions of the decisions. */
  datatype DAssignment = DAssignment(values: seq<Option<bool>>, trail: seq<Lit>, decisions: seq<nat>)

  /** The literal names a variable of `a`. */
  predicate Fits(a: DAssignment, lit: Lit)
  {
    lit != 0 && ToVar(lit) < |a.values|
  }

  /** `eval`: whether the literal is true, false or unassigned. */
  function DEval(a: DAssignment, lit: Lit): (r: Option<bool>)
    requires Fits(a, lit)
    ensures r.None? <==> a.values[ToVar(lit)].None?
    ensures r == Some(true) <==> a.values[ToVar(lit)] == Some(lit > 0)
  {
    match a.values[ToVar(lit)]
    case None => None
    case Some(b) => Some(b == (lit > 0))
  }

  /** A literal and its negation evaluate to opposite values. */
  lemma DEvalNegation(a: DAssignment, lit: Lit)
    requires Fits(a, lit)
    ensures Fits(a, -lit)
    ensures DEval(a, -lit) == match DEval(a, lit) case None => None case Some(b) => Some(!b)
  {
    ToVarNegation(lit);
  }

  /** The trail's literals are true, on distinct variables; only trail
      variables are assigned; the decisions are increasing trail positions. */
  predicate DValid(a: DAssignment)
  {
    && |a.values| >= 1
    && a.values[0].None?
    && (forall i :: 0 <= i < |a.trail| ==> Fits(a, a.trail[i]) && DEval(a, a.trail[i]) == Some(true))
    && Assignments.DistinctVars(a.trail)
    && (forall v {:trigger Assignments.Mentions(a.trail, v)} ::
          0 <= v < |a.values| && a.values[v].Some? ==> Assignments.Mentions(a.trail, v))
    && Assignments.StrictlyIncreasing(a.decisions)
    && (forall k :: 0 <= k < |a.decisions| ==> a.decisions[k] < |a.trail|)
  }

  /** `Assignment::new`. */
  function DNew(varCount: nat): (a: DAssignment)
    ensures DValid(a)
    ensures |a.values| == varCount + 1 && a.trail == [] && a.decisions == []
    ensures forall v :: 0 <= v <= varCount ==> a.values[v].None?
  {
    DAssignment(seq(varCount + 1, _ => None), [], [])
  }

  /** `assign`: record the literal's polarity and push it on the trail. */
  function DAssign(a: DAssignment, lit: Lit): (a': DAssignment)
    requires Fits(a, lit)
    ensures |a'.values| == |a.values| && Fits(a', lit) && Fits(a', -lit)
    ensures DEval(a', lit) == Some(true) && DEval(a', -lit) == Some(false)
    ensures a'.trail == a.trail + [lit] && a'.decisions == a.decisions
    ensures forall v :: 0 <= v < |a.values| && v != ToVar(lit) ==> a'.values[v] == a.values[v]
  {
    ToVarNegation(lit);
    DAssignment(a.values[ToVar(lit) := Some(lit > 0)], a.trail + [lit], a.decisions)
  }

  lemma DAssignMentions(a: DAssignment, lit: Lit)
    requires Fits(a, lit)
    ensures forall v: Var :: Assignments.Mentions(a.trail + [lit], v) <==>
      Assignments.Mentions(a.trail, v) || v == ToVar(lit)
  {
    Assignments.MentionsSnoc(a.trail, lit);
  }

  /** Assigning an unassigned variable keeps the assignment valid. */
  lemma DAssignValid(a: DAssignment, lit: Lit)
    requires DValid(a) && Fits(a, lit) && DEval(a, lit).None?
    ensures DValid(DAssign(a, lit))
  {
    var a' := DAssign(a, lit);
    forall i | 0 <= i < |a'.trail| ensures Fits(a', a'.trail[i]) && DEval(a', a'.trail[i]) == Some(true) {
      if i < |a.trail| {
        assert Fits(a, a.trail[i]) && DEval(a, a.trail[i]) == Some(true);
        assert ToVar(a.trail[i]) != ToVar(lit);
      }
    }
    forall i, j | 0 <= i < j < |a'.trail| && a'.trail[i] != 0 && a'.trail[j] != 0
      ensures ToVar(a'.trail[i]) != ToVar(a'.trail[j])
    {
      if j == |a.trail| {
        assert Fits(a, a.trail[i]) && DEval(a, a.trail[i]) == Some(true);
      }
    }
    DAssignMentions(a, lit);
    forall v | 0 <= v < |a'.values| && a'.values[v].Some?
      ensures Assignments.Mentions(a'.trail, v)
    {
      if v != ToVar(lit) {
        assert Assignments.Mentions(a.trail, v);
      }
    }
  }

  /** `decide`: assign, and remember the trail position as a decision. */
  function DDecide(a: DAssignment, lit: Lit): (a': DAssignment)
    requires Fits(a, lit)
    ensures a'.trail == a.trail + [lit] && a'.decisions == a.decisions + [|a.trail|]
    ensures a'.values == DAssign(a, lit).values
    ensures DEval(a', lit) == Some(true)
  {
    var b := DAssign(a, lit);
    DAssignment(b.values, b.trail, b.decisions + [|b.trail| - 1])
  }

  /** A decision on an unassigned variable keeps the assignment valid. */
  lemma DDecideValid(a: DAssignment, lit: Lit)
    requires DValid(a) && Fits(a, lit) && DEval(a, lit).None?
    ensures DValid(DDecide(a, lit))
  {
    DAssignValid(a, lit);
  }

  /** Every variable mentioned by `lits` unassigned, the others untouched. */
  function ClearVars(values: seq<Option<bool>>, lits: seq<Lit>): (r: seq<Option<bool>>)
    requires forall i :: 0 <= i < |lits| ==> lits[i] != 0 && ToVar(lits[i]) < |values|
    ensures |r| == |values|
    ensures forall v :: 0 <= v < |values| ==>
      r[v] == if Assignments.Mentions(lits, v) then None else values[v]
  {
    if |lits| == 0 then values
    else
      var init := lits[..|lits| - 1];
      var x := lits[|lits| - 1];
      assert lits == init + [x];
      Assignments.MentionsSnoc(init, x);
      ClearVars(values, init)[ToVar(x) := None]
  }

  /** Every trail literal names a variable of `a`. */
  predicate TrailFits(a: DAssignment)
  {
    forall i :: 0 <= i < |a.trail| ==> Fits(a, a.trail[i])
  }

  lemma ValidTrailFits(a: DAssignment)
    requires DValid(a)
    ensures TrailFits(a)
  {
  }

  /** The trail from position `k` on, with what `ClearVars` needs of it. */
  function TrailFrom(a: DAssignment, k: nat): (lits: seq<Lit>)
    requires TrailFits(a) && k <= |a.trail|
    ensures lits == a.trail[k..]
    ensures forall i :: 0 <= i < |lits| ==> lits[i] != 0 && ToVar(lits[i]) < |a.values|
  {
    assert forall i :: 0 <= i < |a.trail[k..]| ==> a.trail[k..][i] == a.trail[k + i];
    a.trail[k..]
  }

  /** The assignment with the trail cut back to its first `k` literals and
      the last decision dropped; the cut variables become unassigned. */
  function Truncate(a: DAssignment, k: nat): (b: DAssignment)
    requires TrailFits(a) && k <= |a.trail| && |a.decisions| > 0
    ensures b.trail == a.trail[..k] && b.decisions == a.decisions[..|a.decisions| - 1]
    ensures |b.values| == |a.values|
    ensures forall v :: 0 <= v < |a.values| ==>
      b.values[v] == if Assignments.Mentions(a.trail[k..], v) then None else a.values[v]
  {
    DAssignment(ClearVars(a.values, TrailFrom(a, k)), a.trail[..k], a.decisions[..|a.decisions| - 1])
  }

  /** `backtrack`: pop the last decision, unassign everything after it, and
      replace the decision literal by its negation, which is no longer a
      decision. The caller checks that a decision exists. */
  function DBacktrack(a: DAssignment): (a': DAssignment)
    requires TrailFits(a) && |a.decisions| > 0 && a.decisions[|a.decisions| - 1] < |a.trail|
    ensures var dec := a.decisions[|a.decisions| - 1];
      && a'.trail == a.trail[..dec] + [-a.trail[dec]]
      && a'.decisions == a.decisions[..|a.decisions| - 1]
      && |a'.values| == |a.values|
  {
    var dec := a.decisions[|a.decisions| - 1];
    assert Fits(a, a.trail[dec]);
    DAssign(Truncate(a, dec), -a.trail[dec])
  }

  /** Backtracking unassigns exactly the variables from the last decision
      on, except the decision variable, which takes the opposite value. */
  lemma DBacktrackValues(a: DAssignment)
    requires TrailFits(a) && |a.decisions| > 0 && a.decisions[|a.decisions| - 1] < |a.trail|
    ensures var dec := a.decisions[|a.decisions| - 1];
      forall v :: 0 <= v < |a.values| ==>
        DBacktrack(a).values[v] ==
          if v == ToVar(a.trail[dec]) then Some(a.trail[dec] < 0)
          else if Assignments.Mentions(a.trail[dec..], v) then None
          else a.values[v]
  {
    var dec := a.decisions[|a.decisions| - 1];
    assert Fits(a, a.trail[dec]);
    ToVarNegation(a.trail[dec]);
  }

  /** Cutting a valid trail before its last decision leaves a valid
      assignment in which the decision variable is unassigned. */
  lemma TruncateValid(a: DAssignment)
    requires DValid(a) && |a.decisions| > 0
    ensures var dec := a.decisions[|a.decisions| - 1];
      && dec < |a.trail| && Fits(a, a.trail[dec])
      && DValid(Truncate(a, dec))
      && Fits(Truncate(a, dec), -a.trail[dec])
      && DEval(Truncate(a, dec), -a.trail[dec]).None?
  {
    var dec := a.decisions[|a.decisions| - 1];
    var lit := a.trail[dec];
    assert Fits(a, lit);
    var b := Truncate(a, dec);
    assert DValid(b) by {
      forall i | 0 <= i < |b.trail| ensures Fits(b, b.trail[i]) && DEval(b, b.trail[i]) == Some(true) {
        assert Fits(a, a.trail[i]) && DEval(a, a.trail[i]) == Some(true);
        NotMentionedAfter(a, dec, i);
      }
      forall v | 0 <= v < |b.values| && b.values[v].Some?
        ensures Assignments.Mentions(b.trail, v)
      {
        assert Assignments.Mentions(a.trail, v);
        SplitMentions(a.trail, dec, v);
      }
      forall k | 0 <= k < |b.decisions| ensures b.decisions[k] < |b.trail| {
        assert b.decisions[k] < a.decisions[|a.decisions| - 1];
      }
      forall i, j | 0 <= i < j < |b.trail| && b.trail[i] != 0 && b.trail[j] != 0
        ensures ToVar(b.trail[i]) != ToVar(b.trail[j])
      {
        assert b.trail[i] == a.trail[i] && b.trail[j] == a.trail[j];
      }
    }
    assert Assignments.Mentions(a.trail[dec..], ToVar(lit)) by {
      assert a.trail[dec..][0] == lit;
      ToVarPolarity(lit);
    }
    ToVarNegation(lit);
  }

  /** Backtracking keeps the assignment valid. */
  lemma DBacktrackValid(a: DAssignment)
    requires DValid(a) && |a.decisions| > 0
    ensures DValid(DBacktrack(a))
  {
    var dec := a.decisions[|a.decisions| - 1];
    TruncateValid(a);
    var b := Truncate(a, dec);
    DAssignValid(b, -a.trail[dec]);
    assert DBacktrack(a) == DAssign(b, -a.trail[dec]);
  }

  /** A variable that no literal of `lits` names is not mentioned there. */
  lemma NotMentioned(lits: seq<Lit>, v: Var)
    requires forall i :: 0 <= i < |lits| ==> lits[i] != 0 && ToVar(lits[i]) != v
    ensures !Assignments.Mentions(lits, v)
  {
  }

  /** A variable mentioned by a trail is mentioned by its prefix or by the
      rest. */
  lemma SplitMentions(lits: seq<Lit>, k: nat, v: Var)
    requires k <= |lits| && Assignments.Mentions(lits, v)
    ensures Assignments.Mentions(lits[..k], v) || Assignments.Mentions(lits[k..], v)
  {
    assert lits == lits[..k] + lits[k..];
  }

  /** The variable of a trail literal before position `dec` is not
      mentioned from `dec` on. */
  lemma NotMentionedAfter(a: DAssignment, dec: nat, i: nat)
    requires DValid(a) && i < dec <= |a.trail|
    ensures !Assignments.Mentions(a.trail[dec..], ToVar(a.trail[i]))
  {
    assert Fits(a, a.trail[i]);
    var rest := a.trail[dec..];
    forall j | 0 <= j < |rest| ensures rest[j] != 0 && ToVar(rest[j]) != ToVar(a.trail[i]) {
      assert rest[j] == a.trail[dec + j] && Fits(a, a.trail[dec + j]);
    }
    NotMentioned(rest, ToVar(a.trail[i]));
  }

  // ---------------------------------------------------------------------
  // choose_var

  /** `choose_var`: the smallest unassigned variable, `None` when every
      variable is assigned. */
  method ChooseVar(a: DAssignment) returns (r: Option<Var>)
    ensures r.Some? ==> 1 <= r.value < |a.values| && a.values[r.value].None?
    ensures r.Some? ==> forall w :: 1 <= w < r.value ==> a.values[w].Some?
    ensures r.None? <==> forall w :: 1 <= w < |a.values| ==> a.values[w].Some?
  {
    var v := 1;
    while v < |a.values|
      invariant 1 <= v
      invariant forall w :: 1 <= w < v && w < |a.values| ==> a.values[w].Some?
    {
      if a.values[v].None? {
        return Some(v);
      }
      v := v + 1;
    }
    return None;
  }

  // ---------------------------------------------------------------------
  // The watch lists of Solver::new

  /** How often clause `c` is pushed onto slot `p`: once for each of its
      first two literals stored there, when it has at least two literals. */
  function SlotCount(clauses: seq<Clause>, c: nat, p: nat): nat
  {
    if c < |clauses| && |clauses[c]| >= 2 && clauses[c][0] != 0 && clauses[c][1] != 0 then
      (if Position(clauses[c][0]) == p then 1 else 0) + (if Position(clauses[c][1]) == p then 1 else 0)
    else 0
  }

  /** `watched[lit].push(i)`. */
  function Push(w: seq<seq<nat>>, lit: Lit, i: nat): (w': seq<seq<nat>>)
    requires InMap(w, lit)
    ensures |w'| == |w|
    ensures forall p :: 0 <= p < |w| ==> w'[p] == if p == Position(lit) then w[p] + [i] else w[p]
  {
    w[Position(lit) := w[Position(lit)] + [i]]
  }

  /** Every entry of every slot is a clause with at least two literals. */
  predicate EntriesWatchable(clauses: seq<Clause>, w: seq<seq<nat>>)
  {
    forall p, k :: 0 <= p < |w| && 0 <= k < |w[p]| ==> w[p][k] < |clauses| && |clauses[w[p][k]]| >= 2
  }

  /** Every entry is one of the first `i` clauses. */
  predicate EntriesBelow(w: seq<seq<nat>>, i: nat)
  {
    forall p, k :: 0 <= p < |w| && 0 <= k < |w[p]| ==> w[p][k] < i
  }

  /** Slot `p` holds clause `c` as often as `Solver::new` pushes it there,
      counting only the first `i` clauses. */
  ghost predicate CountsUpTo(clauses: seq<Clause>, w: seq<seq<nat>>, i: nat)
  {
    forall p, c: nat :: 0 <= p < |w| ==> multiset(w[p])[c] == if c < i then SlotCount(clauses, c, p) else 0
  }

  /** Pushing clause `i` onto the lists of its first two literals extends
      the counts by clause `i`. */
  lemma PushBothCounts(clauses: seq<Clause>, w: seq<seq<nat>>, i: nat)
    requires i < |clauses| && |clauses[i]| >= 2 && InMap(w, clauses[i][0]) && InMap(w, clauses[i][1])
    requires CountsUpTo(clauses, w, i)
    ensures CountsUpTo(clauses, Push(Push(w, clauses[i][0], i), clauses[i][1], i), i + 1)
  {
    var p0, p1 := Position(clauses[i][0]), Position(clauses[i][1]);
    var w1 := Push(w, clauses[i][0], i);
    var w2 := Push(w1, clauses[i][1], i);
    forall p, c: nat | 0 <= p < |w2|
      ensures multiset(w2[p])[c] == if c < i + 1 then SlotCount(clauses, c, p) else 0
    {
      assert multiset(w1[p])[c] == multiset(w[p])[c] + (if p == p0 && c == i then 1 else 0) by {
        if p == p0 {
          assert w1[p] == w[p] + [i];
        }
      }
      assert multiset(w2[p])[c] == multiset(w1[p])[c] + (if p == p1 && c == i then 1 else 0) by {
        if p == p1 {
          assert w2[p] == w1[p] + [i];
        }
      }
    }
  }

  /** The pushes keep every entry a watchable clause below `i + 1`. */
  lemma PushBothEntries(clauses: seq<Clause>, w: seq<seq<nat>>, i: nat)
    requires i < |clauses| && |clauses[i]| >= 2 && InMap(w, clauses[i][0]) && InMap(w, clauses[i][1])
    requires EntriesWatchable(clauses, w) && EntriesBelow(w, i)
    ensures var w2 := Push(Push(w, clauses[i][0], i), clauses[i][1], i);
      EntriesWatchable(clauses, w2) && EntriesBelow(w2, i + 1)
  {
    var w2 := Push(Push(w, clauses[i][0], i), clauses[i][1], i);
    forall p, k | 0 <= p < |w2| && 0 <= k < |w2[p]| ensures w2[p][k] < i + 1 && |clauses[w2[p][k]]| >= 2 {
      if k < |w[p]| && w2[p][k] != i {
        assert w2[p][k] == w[p][k];
      }
    }
  }

  /** The watch lists of `Solver::new`: clause `i` is pushed onto the lists
      of its first two literals, twice onto one list when they coincide,
      and clauses with fewer than two literals are not watched. */
  method NewWatches(varCount: nat, clauses: seq<Clause>) returns (w: seq<seq<nat>>)
    requires Cdcl.ClausesInRange(clauses, varCount)
    ensures |w| == 2 * varCount + 1
    ensures CountsUpTo(clauses, w, |clauses|)
    ensures EntriesWatchable(clauses, w)
  {
    w := NewLitMap(varCount, []);
    assert forall p :: 0 <= p < |w| ==> w[p] == [];
    var i := 0;
    while i < |clauses|
      invariant 0 <= i <= |clauses|
      invariant |w| == 2 * varCount + 1
      invariant CountsUpTo(clauses, w, i)
      invariant EntriesWatchable(clauses, w) && EntriesBelow(w, i)
    {
      var clause := clauses[i];
      if |clause| >= 2 {
        assert clause[0] != 0 && ToVar(clause[0]) <= varCount && clause[1] != 0 && ToVar(clause[1]) <= varCount;
        PushBothCounts(clauses, w, i);
        PushBothEntries(clauses, w, i);
        w := Push(Push(w, clause[0], i), clause[1], i);
      } else {
        assert forall p :: SlotCount(clauses, i, p) == 0;
      }
      i := i + 1;
    }
  }
}
