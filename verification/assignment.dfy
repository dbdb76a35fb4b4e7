/** The solver's partial assignment (src/solver/assignment.rs): per-variable
    value, decision level and reason, the saved phase of every variable, the
    trail of assigned literals in assignment order, and `levels`, the trail
    position of every decision. */
module Assignments {
  import opened Results
  import opened Types
  import opened LitMaps

  datatype Reason = Decision | Propagation(clause: nat)

  datatype VarData = VarData(value: bool, level: nat, reason: Reason)

  datatype Assignment = Assignment(
    data: seq<Option<VarData>>,
    saved: seq<bool>,
    trail: seq<Lit>,
    levels: seq<nat>)

  /** `lit` names a variable that has a slot in the assignment. */
  predicate HasVar(a: Assignment, lit: Lit)
  {
    lit != 0 && ToVar(lit) < |a.data| && ToVar(lit) < |a.saved|
  }

  /** Trail position `i` belongs to decision level `l`: at or after the
      `l`-th decision and before the next one. */
  predicate AtLevel(levels: seq<nat>, i: nat, l: nat)
  {
    && l <= |levels|
    && (l == 0 || levels[l - 1] <= i)
    && (l == |levels| || i < levels[l])
  }

  predicate StrictlyIncreasing(s: seq<nat>)
  {
    forall p, q :: 0 <= p < q < |s| ==> s[p] < s[q]
  }

  /** Variable `v` occurs, in either polarity, in `lits`. */
  predicate Mentions(lits: seq<Lit>, v: Var)
  {
    v as int in lits || -(v as int) in lits
  }

  lemma MentionsSnoc(lits: seq<Lit>, x: Lit)
    requires x != 0
    ensures forall v: Var :: Mentions(lits + [x], v) <==> Mentions(lits, v) || v == ToVar(x)
  {
    assert forall y :: y in lits + [x] <==> y in lits || y == x;
  }

  /** Sizes and index ranges: what the operations need in order not to panic. */
  predicate Shape(a: Assignment)
  {
    && |a.data| >= 1
    && |a.saved| == |a.data|
    && a.data[0].None?
    && (forall i :: 0 <= i < |a.trail| ==> HasVar(a, a.trail[i]))
    && StrictlyIncreasing(a.levels)
    && (forall l :: 0 <= l < |a.levels| ==> a.levels[l] < |a.trail|)
  }

  /** No variable occurs twice on the trail. */
  predicate DistinctVars(trail: seq<Lit>)
  {
    forall i, j :: 0 <= i < j < |trail| && trail[i] != 0 && trail[j] != 0 ==>
      ToVar(trail[i]) != ToVar(trail[j])
  }

  /** Every trail literal is true, at the level its trail position belongs to. */
  predicate TrailAssigned(a: Assignment)
    requires Shape(a)
  {
    forall i :: 0 <= i < |a.trail| ==>
      var d := a.data[ToVar(a.trail[i])];
      && d.Some?
      && d.value.value == (a.trail[i] > 0)
      && AtLevel(a.levels, i, d.value.level)
  }

  /** Only the trail's variables are assigned. The fact is produced on demand,
      for a `Mentions` term the proof names, so that it does not feed itself. */
  predicate OnlyTrailAssigned(a: Assignment)
  {
    forall v {:trigger Mentions(a.trail, v)} :: 0 <= v < |a.data| && a.data[v].Some? ==> Mentions(a.trail, v)
  }

  /** The literal at every decision position carries the `Decision` reason. */
  predicate DecisionsMarked(a: Assignment)
    requires Shape(a)
  {
    forall l :: 0 <= l < |a.levels| ==>
      var d := a.data[ToVar(a.trail[a.levels[l]])];
      d.Some? && d.value.reason == Decision
  }

  /** The bookkeeping invariant every operation keeps. */
  predicate Valid(a: Assignment)
  {
    && Shape(a)
    && DistinctVars(a.trail)
    && TrailAssigned(a)
    && OnlyTrailAssigned(a)
    && DecisionsMarked(a)
  }

  /** `Assignment::new`: nothing assigned, every saved phase negative. */
  function New(varCount: nat): (a: Assignment)
    ensures Valid(a)
    ensures |a.data| == varCount + 1
    ensures a.trail == [] && LastLevel(a) == 0
    ensures forall v :: 1 <= v <= varCount ==> Eval(a, v) == None && !a.saved[v]
  {
    Assignment(NewVarMap(varCount, None), NewVarMap(varCount, false), [], [])
  }

  /** `eval`: `Some(true)` if the literal is true, `Some(false)` if it is
      false, `None` if its variable is unassigned. */
  function Eval(a: Assignment, lit: Lit): (r: Option<bool>)
    requires HasVar(a, lit)
    ensures r.None? <==> a.data[ToVar(lit)].None?
    ensures r == Some(true) <==> a.data[ToVar(lit)].Some? && a.data[ToVar(lit)].value.value == (lit > 0)
  {
    match a.data[ToVar(lit)]
    case None => None
    case Some(d) => Some(d.value == (lit > 0))
  }

  lemma EvalNegation(a: Assignment, lit: Lit)
    requires HasVar(a, lit)
    ensures HasVar(a, -lit)
    ensures Eval(a, -lit) == (match Eval(a, lit) case None => None case Some(b) => Some(!b))
  {
  }

  function Level(a: Assignment, lit: Lit): (r: Option<nat>)
    requires HasVar(a, lit)
    ensures r.Some? <==> Eval(a, lit).Some?
  {
    match a.data[ToVar(lit)]
    case None => None
    case Some(d) => Some(d.level)
  }

  function ReasonOf(a: Assignment, lit: Lit): (r: Option<Reason>)
    requires HasVar(a, lit)
    ensures r.Some? <==> Eval(a, lit).Some?
  {
    match a.data[ToVar(lit)]
    case None => None
    case Some(d) => Some(d.reason)
  }

  /** The current decision level: the number of decisions on the trail. */
  function LastLevel(a: Assignment): nat
  {
    |a.levels|
  }

  /** `set`: assigns `lit` true, pushes it on the trail, opens a new level
      for a decision, and saves the phase. */
  function Set(a: Assignment, lit: Lit, reason: Reason): (a': Assignment)
    requires HasVar(a, lit)
    ensures HasVar(a', lit) && HasVar(a', -lit)
    ensures Eval(a', lit) == Some(true) && Eval(a', -lit) == Some(false)
    ensures a'.trail == a.trail + [lit]
    ensures LastLevel(a') == LastLevel(a) + (if reason.Decision? then 1 else 0)
    ensures Level(a', lit) == Some(LastLevel(a'))
    ensures ReasonOf(a', lit) == Some(reason)
    ensures a'.saved[ToVar(lit)] == (lit > 0)
    ensures |a'.data| == |a.data| && |a'.saved| == |a.saved|
    ensures forall v :: 0 <= v < |a.data| && v < |a.saved| && v != ToVar(lit) ==>
      a'.data[v] == a.data[v] && a'.saved[v] == a.saved[v]
  {
    var trail := a.trail + [lit];
    var levels := if reason.Decision? then a.levels + [|trail| - 1] else a.levels;
    var d := VarData(lit > 0, |levels|, reason);
    Assignment(a.data[ToVar(lit) := Some(d)], a.saved[ToVar(lit) := lit > 0], trail, levels)
  }

  /** Setting an unassigned variable keeps the invariant. */
  lemma SetValid(a: Assignment, lit: Lit, reason: Reason)
    requires Valid(a) && HasVar(a, lit) && Eval(a, lit).None?
    ensures Valid(Set(a, lit, reason))
  {
    SetFresh(a, lit);
    var a' := Set(a, lit, reason);
    assert DistinctVars(a'.trail) by {
      assert forall i :: 0 <= i < |a.trail| ==> a'.trail[i] == a.trail[i];
    }
    SetShape(a, lit, reason);
    SetTrailAssigned(a, lit, reason);
    SetDecisionsMarked(a, lit, reason);
    SetOnlyTrailAssigned(a, lit, reason);
  }

  /** An unassigned variable is not on the trail. */
  lemma SetFresh(a: Assignment, lit: Lit)
    requires Shape(a) && TrailAssigned(a) && HasVar(a, lit) && Eval(a, lit).None?
    ensures forall i :: 0 <= i < |a.trail| ==> ToVar(a.trail[i]) != ToVar(lit)
  {
  }

  lemma SetShape(a: Assignment, lit: Lit, reason: Reason)
    requires Shape(a) && HasVar(a, lit)
    ensures Shape(Set(a, lit, reason))
  {
    var a' := Set(a, lit, reason);
    forall p, q | 0 <= p < q < |a'.levels| ensures a'.levels[p] < a'.levels[q] {
      if q == |a.levels| {
        assert a.levels[p] < |a.trail|;
      }
    }
  }

  lemma SetTrailAssigned(a: Assignment, lit: Lit, reason: Reason)
    requires Shape(a) && TrailAssigned(a) && HasVar(a, lit)
    requires forall i :: 0 <= i < |a.trail| ==> ToVar(a.trail[i]) != ToVar(lit)
    ensures Shape(Set(a, lit, reason))
    ensures TrailAssigned(Set(a, lit, reason))
  {
    var a' := Set(a, lit, reason);
    SetShape(a, lit, reason);
    forall i | 0 <= i < |a'.trail|
      ensures var d := a'.data[ToVar(a'.trail[i])];
        d.Some? && d.value.value == (a'.trail[i] > 0) && AtLevel(a'.levels, i, d.value.level)
    {
      if i < |a.trail| {
        assert a'.trail[i] == a.trail[i];
        var l := a.data[ToVar(a.trail[i])].value.level;
        assert AtLevel(a.levels, i, l);
        if reason.Decision? && l == |a.levels| {
          assert a'.levels[l] == |a.trail|;
        }
      }
    }
  }

  lemma SetDecisionsMarked(a: Assignment, lit: Lit, reason: Reason)
    requires Shape(a) && DecisionsMarked(a) && HasVar(a, lit)
    requires forall i :: 0 <= i < |a.trail| ==> ToVar(a.trail[i]) != ToVar(lit)
    ensures Shape(Set(a, lit, reason))
    ensures DecisionsMarked(Set(a, lit, reason))
  {
    var a' := Set(a, lit, reason);
    SetShape(a, lit, reason);
    forall l | 0 <= l < |a'.levels|
      ensures a'.data[ToVar(a'.trail[a'.levels[l]])].Some? &&
              a'.data[ToVar(a'.trail[a'.levels[l]])].value.reason == Decision
    {
      if l < |a.levels| {
        assert a'.levels[l] == a.levels[l];
        assert a'.trail[a.levels[l]] == a.trail[a.levels[l]];
      }
    }
  }

  lemma SetOnlyTrailAssigned(a: Assignment, lit: Lit, reason: Reason)
    requires OnlyTrailAssigned(a) && HasVar(a, lit)
    ensures OnlyTrailAssigned(Set(a, lit, reason))
  {
    var a' := Set(a, lit, reason);
    forall w | 0 <= w < |a'.data| && a'.data[w].Some?
      ensures Mentions(a'.trail, w)
    {
      if w == ToVar(lit) {
        assert a'.trail[|a.trail|] == lit;
      } else {
        assert Mentions(a.trail, w);
      }
    }
  }

  /** `decide`: assigns the variable its saved phase as a new decision. */
  function Decide(a: Assignment, v: Var): (a': Assignment)
    requires 1 <= v < |a.data| && v < |a.saved|
    ensures a'.trail == a.trail + [if a.saved[v] then v as int else -(v as int)]
    ensures HasVar(a', v)
    ensures Eval(a', v) == Some(a.saved[v])
    ensures LastLevel(a') == LastLevel(a) + 1
    ensures ReasonOf(a', v) == Some(Decision)
  {
    var lit: Lit := if a.saved[v] then v as int else -(v as int);
    Set(a, lit, Decision)
  }

  /** Phase saving: after `lit` was set, and however far the solver then
      backtracks, deciding its variable assigns `lit` again. */
  lemma DecideRepeatsLastPhase(a: Assignment, lit: Lit, reason: Reason, k: nat)
    requires Shape(a) && HasVar(a, lit)
    requires Shape(Set(a, lit, reason)) && k <= LastLevel(Set(a, lit, reason))
    ensures var b := Backtrack(Set(a, lit, reason), k);
      Decide(b, ToVar(lit)).trail == b.trail + [lit]
  {
  }

  /** A variable that was never assigned is decided negative. */
  lemma FirstDecisionNegative(varCount: nat, v: Var)
    requires 1 <= v <= varCount
    ensures Decide(New(varCount), v).trail == [-(v as int)]
  {
  }

  /** `backtrack(k)`: drops the decisions of levels k and above and every
      trail literal from the k-th decision on (everything when k = 0). */
  function Backtrack(a: Assignment, k: nat): (a': Assignment)
    requires Shape(a)
    requires k <= LastLevel(a)
    ensures LastLevel(a') == if k == 0 then 0 else k - 1
    ensures a'.saved == a.saved && |a'.data| == |a.data|
    ensures a'.trail <= a.trail
    ensures forall v :: 0 <= v < |a.data| ==>
      a'.data[v] == if Mentions(a.trail[|a'.trail|..], v) then None else a.data[v]
  {
    var start := if k == 0 then 0 else a.levels[k - 1];
    var levels := if k == 0 then [] else a.levels[..k - 1];
    Assignment(Unassign(a.data, a.trail[start..]), a.saved, a.trail[..start], levels)
  }

  /** Clears the slot of every variable mentioned by `lits`. */
  function Unassign(data: seq<Option<VarData>>, lits: seq<Lit>): (r: seq<Option<VarData>>)
    requires forall i :: 0 <= i < |lits| ==> lits[i] != 0 && ToVar(lits[i]) < |data|
    ensures |r| == |data|
    ensures forall v :: 0 <= v < |data| ==> r[v] == if Mentions(lits, v) then None else data[v]
  {
    if |lits| == 0 then data
    else
      assert forall v :: Mentions(lits, v) <==> (v == ToVar(lits[0]) || Mentions(lits[1..], v)) by {
        assert lits == [lits[0]] + lits[1..];
      }
      Unassign(data, lits[1..])[ToVar(lits[0]) := None]
  }

  /** The levels of a sorted decision list split the trail: positions before
      the k-th decision have levels below k, the rest have levels k or more. */
  lemma LevelSplit(levels: seq<nat>, i: nat, l: nat, k: nat)
    requires StrictlyIncreasing(levels)
    requires AtLevel(levels, i, l)
    requires 1 <= k <= |levels|
    ensures i < levels[k - 1] <==> l < k
  {
    if l < k && l < |levels| {
      assert levels[l] <= levels[k - 1];
    }
  }

  /** A variable on a trail with distinct variables sits at exactly one
      position: the literals before `start` do not mention the variables of
      the literals after it. */
  lemma SplitMentions(trail: seq<Lit>, start: nat, i: nat)
    requires DistinctVars(trail) && start <= |trail|
    requires forall t :: 0 <= t < |trail| ==> trail[t] != 0
    requires i < start
    ensures !Mentions(trail[start..], ToVar(trail[i]))
  {
  }

  /** `backtrack(k)` keeps the invariant, keeps exactly the trail literals of
      levels below k, with their data, and unassigns every other one. */
  lemma BacktrackValid(a: Assignment, k: nat)
    requires Valid(a) && k <= LastLevel(a)
    ensures Valid(Backtrack(a, k))
    ensures forall i :: 0 <= i < |a.trail| ==>
      (a.data[ToVar(a.trail[i])].value.level < k <==> i < |Backtrack(a, k).trail|)
    ensures forall i :: 0 <= i < |a.trail| && a.data[ToVar(a.trail[i])].value.level < k ==>
      Backtrack(a, k).data[ToVar(a.trail[i])] == a.data[ToVar(a.trail[i])]
    ensures forall i :: 0 <= i < |a.trail| && a.data[ToVar(a.trail[i])].value.level >= k ==>
      Backtrack(a, k).data[ToVar(a.trail[i])].None?
  {
    BacktrackKeeps(a, k);
    BacktrackLevels(a, k);
    BacktrackDrops(a, k);
    BacktrackShape(a, k);
    var a' := Backtrack(a, k);
    assert DistinctVars(a'.trail) by {
      assert forall i :: 0 <= i < |a'.trail| ==> a'.trail[i] == a.trail[i];
    }
    BacktrackTrailAssigned(a, k);
    BacktrackOnlyTrailAssigned(a, k);
    BacktrackDecisionsMarked(a, k);
  }

  /** The data of every kept trail literal is untouched. */
  lemma BacktrackKeeps(a: Assignment, k: nat)
    requires Shape(a) && DistinctVars(a.trail) && k <= LastLevel(a)
    ensures forall i :: 0 <= i < |Backtrack(a, k).trail| ==>
      Backtrack(a, k).data[ToVar(a.trail[i])] == a.data[ToVar(a.trail[i])]
  {
    var a' := Backtrack(a, k);
    forall i | 0 <= i < |a'.trail|
      ensures a'.data[ToVar(a.trail[i])] == a.data[ToVar(a.trail[i])]
    {
      SplitMentions(a.trail, |a'.trail|, i);
    }
  }

  /** The cut falls exactly between the levels below k and the others. */
  lemma BacktrackLevels(a: Assignment, k: nat)
    requires Shape(a) && TrailAssigned(a) && k <= LastLevel(a)
    ensures forall i :: 0 <= i < |a.trail| ==>
      (a.data[ToVar(a.trail[i])].value.level < k <==> i < |Backtrack(a, k).trail|)
  {
    forall i | 0 <= i < |a.trail|
      ensures a.data[ToVar(a.trail[i])].value.level < k <==> i < |Backtrack(a, k).trail|
    {
      if k > 0 {
        LevelSplit(a.levels, i, a.data[ToVar(a.trail[i])].value.level, k);
      }
    }
  }

  lemma BacktrackDrops(a: Assignment, k: nat)
    requires Shape(a) && k <= LastLevel(a)
    ensures forall i :: |Backtrack(a, k).trail| <= i < |a.trail| ==>
      Backtrack(a, k).data[ToVar(a.trail[i])].None?
  {
    var a' := Backtrack(a, k);
    var start := |a'.trail|;
    forall i | start <= i < |a.trail|
      ensures a'.data[ToVar(a.trail[i])].None?
    {
      assert a.trail[start..][i - start] == a.trail[i];
    }
  }

  lemma BacktrackShape(a: Assignment, k: nat)
    requires Shape(a) && k <= LastLevel(a)
    ensures Shape(Backtrack(a, k))
  {
    var a' := Backtrack(a, k);
    forall l | 0 <= l < |a'.levels| ensures a'.levels[l] < |a'.trail| {
      assert a.levels[l] < a.levels[k - 1];
    }
  }

  lemma BacktrackTrailAssigned(a: Assignment, k: nat)
    requires Shape(a) && DistinctVars(a.trail) && TrailAssigned(a) && k <= LastLevel(a)
    ensures Shape(Backtrack(a, k))
    ensures TrailAssigned(Backtrack(a, k))
  {
    var a' := Backtrack(a, k);
    BacktrackShape(a, k);
    BacktrackKeeps(a, k);
    BacktrackLevels(a, k);
    forall i | 0 <= i < |a'.trail|
      ensures AtLevel(a'.levels, i, a'.data[ToVar(a'.trail[i])].value.level)
    {
      assert a'.trail[i] == a.trail[i];
    }
  }

  lemma BacktrackOnlyTrailAssigned(a: Assignment, k: nat)
    requires Shape(a) && OnlyTrailAssigned(a) && k <= LastLevel(a)
    ensures OnlyTrailAssigned(Backtrack(a, k))
  {
    var a' := Backtrack(a, k);
    var start := |a'.trail|;
    forall v | 0 <= v < |a'.data| && a'.data[v].Some?
      ensures Mentions(a'.trail, v)
    {
      assert Mentions(a.trail, v);
      assert a.trail == a.trail[..start] + a.trail[start..];
    }
  }

  lemma BacktrackDecisionsMarked(a: Assignment, k: nat)
    requires Shape(a) && DistinctVars(a.trail) && DecisionsMarked(a) && k <= LastLevel(a)
    ensures Shape(Backtrack(a, k))
    ensures DecisionsMarked(Backtrack(a, k))
  {
    var a' := Backtrack(a, k);
    BacktrackShape(a, k);
    BacktrackKeeps(a, k);
    forall l | 0 <= l < |a'.levels|
      ensures a'.data[ToVar(a'.trail[a'.levels[l]])] == a.data[ToVar(a.trail[a.levels[l]])]
    {
      assert a.levels[l] < a.levels[k - 1];
      assert a'.trail[a.levels[l]] == a.trail[a.levels[l]];
    }
  }

  /** Clause index `i` renamed to `j` in a propagation reason. */
  function Renamed(d: Option<VarData>, i: nat, j: nat): Option<VarData>
  {
    if d.Some? && d.value.reason == Propagation(i) then Some(d.value.(reason := Propagation(j)))
    else d
  }

  /** `rename_clause(i, j)`: every trail literal propagated by clause `i`
      is now recorded as propagated by clause `j`; nothing else changes. */
  method RenameClause(a: Assignment, i: nat, j: nat) returns (a': Assignment)
    requires Shape(a) && OnlyTrailAssigned(a)
    ensures a'.trail == a.trail && a'.levels == a.levels && a'.saved == a.saved
    ensures |a'.data| == |a.data|
    ensures forall v :: 0 <= v < |a.data| ==> a'.data[v] == Renamed(a.data[v], i, j)
  {
    var data := a.data;
    var k := 0;
    while k < |a.trail|
      invariant 0 <= k <= |a.trail|
      invariant |data| == |a.data|
      invariant forall v :: 0 <= v < |data| ==>
        data[v] == if Mentions(a.trail[..k], v) then Renamed(a.data[v], i, j) else a.data[v]
    {
      var v := ToVar(a.trail[k]);
      MentionsSnoc(a.trail[..k], a.trail[k]);
      assert a.trail[..k + 1] == a.trail[..k] + [a.trail[k]];
      data := data[v := Renamed(data[v], i, j)];
      k := k + 1;
    }
    assert a.trail[..k] == a.trail;
    a' := a.(data := data);
  }

  /** Renaming a clause keeps the invariant: it touches reasons only, and
      never a `Decision`. */
  lemma RenameValid(a: Assignment, a': Assignment, i: nat, j: nat)
    requires Valid(a)
    requires a'.trail == a.trail && a'.levels == a.levels && a'.saved == a.saved
    requires |a'.data| == |a.data|
    requires forall v :: 0 <= v < |a.data| ==> a'.data[v] == Renamed(a.data[v], i, j)
    ensures Valid(a')
  {
  }

  /** The unit test `basic`: decide 1, propagate -2, both sit at level 1,
      and backtracking to level 1 unassigns both. */
  lemma BasicScenario()
    ensures var a0 := New(2);
            var a1 := Set(a0, 1, Decision);
            var a2 := Set(a1, -2, Propagation(0));
            && Valid(a2)
            && LastLevel(a0) == 0
            && LastLevel(a2) == 1
            && Level(a2, 1) == Some(1) && Level(a2, 2) == Some(1)
            && Eval(Backtrack(a2, 1), 2) == None && Eval(Backtrack(a2, 1), 1) == None
  {
    var a0 := New(2);
    var d1, d2 := VarData(true, 1, Decision), VarData(false, 1, Propagation(0));
    assert a0 == Assignment([None, None, None], [false, false, false], [], []);
    SetValid(a0, 1, Decision);
    var a1 := Set(a0, 1, Decision);
    assert a1 == Assignment([None, Some(d1), None], [false, true, false], [1], [0]);
    SetValid(a1, -2, Propagation(0));
    var a2 := Set(a1, -2, Propagation(0));
    assert a2 == Assignment([None, Some(d1), Some(d2)], [false, true, false], [1, -2], [0]);
    BasicBacktrack(a2);
  }

  /** Backtracking to level 1 from the two-literal trail of the scenario
      above clears both variables. */
  lemma BasicBacktrack(a: Assignment)
    requires Shape(a) && |a.data| == 3 && a.trail == [1, -2] && a.levels == [0]
    ensures Eval(Backtrack(a, 1), 2) == None && Eval(Backtrack(a, 1), 1) == None
  {
    assert a.trail[0..] == [1, -2];
    assert Mentions(a.trail[0..], 1) && Mentions(a.trail[0..], 2);
  }

  // ---------------------------------------------------------------------
  // Facts about valid assignments used by propagation

  /** Every trail literal is true; its negation is false. */
  lemma TrailTrue(a: Assignment, k: nat)
    requires Shape(a) && TrailAssigned(a) && k < |a.trail|
    ensures HasVar(a, a.trail[k]) && Eval(a, a.trail[k]) == Some(true)
    ensures HasVar(a, -a.trail[k]) && Eval(a, -a.trail[k]) == Some(false)
  {
    EvalNegation(a, a.trail[k]);
  }

  /** A true literal whose variable occurs on the trail occurs there itself. */
  lemma MentionedOnTrail(a: Assignment, m: Lit)
    requires Shape(a) && TrailAssigned(a) && HasVar(a, m) && Eval(a, m) == Some(true)
    requires Mentions(a.trail, ToVar(m))
    ensures m in a.trail
  {
    var v := ToVar(m);
    var i :| 0 <= i < |a.trail| && (a.trail[i] == v as int || a.trail[i] == -(v as int));
    assert ToVar(a.trail[i]) == v;
    assert a.trail[i] == m;
  }

  /** A literal that evaluates to true is on the trail. */
  lemma TrueOnTrail(a: Assignment, m: Lit)
    requires Valid(a) && HasVar(a, m) && Eval(a, m) == Some(true)
    ensures m in a.trail
  {
    assert Mentions(a.trail, ToVar(m));
    MentionedOnTrail(a, m);
  }

  /** A false literal whose variable occurs on the trail has its negation there. */
  lemma FalseMentioned(a: Assignment, m: Lit)
    requires Shape(a) && TrailAssigned(a) && HasVar(a, m) && Eval(a, m) == Some(false)
    requires Mentions(a.trail, ToVar(m))
    ensures -m in a.trail
  {
    ToVarNegation(m);
    EvalNegation(a, m);
    MentionedOnTrail(a, -m);
  }

  /** A literal that evaluates to false has its negation on the trail. */
  lemma FalseOnTrail(a: Assignment, m: Lit)
    requires Valid(a) && HasVar(a, m) && Eval(a, m) == Some(false)
    ensures -m in a.trail
  {
    assert Mentions(a.trail, ToVar(m));
    FalseMentioned(a, m);
  }

  /** The set of variables of a list of non-zero literals. */
  function VarsOf(lits: seq<Lit>): set<Var>
    requires forall i :: 0 <= i < |lits| ==> lits[i] != 0
  {
    set i | 0 <= i < |lits| :: ToVar(lits[i])
  }

  /** Literals over distinct variables have as many variables as entries. */
  lemma {:induction false} VarsOfSize(lits: seq<Lit>)
    requires forall i :: 0 <= i < |lits| ==> lits[i] != 0
    requires DistinctVars(lits)
    ensures |VarsOf(lits)| == |lits|
  {
    if |lits| > 0 {
      var init := lits[..|lits| - 1];
      VarsOfSize(init);
      var x := ToVar(lits[|lits| - 1]);
      assert VarsOf(lits) == VarsOf(init) + {x};
      assert x !in VarsOf(init);
    }
  }

  /** The variables `1..n-1`. */
  function VarRange(n: nat): (r: set<Var>)
    ensures forall v :: v in r <==> 1 <= v < n
    ensures |r| == if n == 0 then 0 else n - 1
  {
    if n <= 1 then {} else VarRange(n - 1) + {n - 1}
  }

  /** The trail never holds more literals than there are variables. */
  lemma TrailBound(a: Assignment)
    requires Valid(a)
    ensures |a.trail| <= |a.data| - 1
  {
    VarsOfSize(a.trail);
    var vars, range := VarsOf(a.trail), VarRange(|a.data|);
    assert vars <= range;
    assert vars * range == vars;
    assert |range| == |range - vars| + |vars|;
  }
}
