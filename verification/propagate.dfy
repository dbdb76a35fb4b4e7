/** Unit propagation over the two implicit watches (`propagate` in
    src/solver/mod.rs). For every trail literal from `propHead` on, the
    clauses watching its negation are visited: a clause with a true literal
    is left alone, a clause with another unassigned literal moves its watch
    there, a clause whose only non-false literal is its first one propagates
    that literal, and a clause with every literal false is a conflict. */
module Propagation {
  import opened Results
  import opened Types
  import opened SeqUtil
  import opened LitMaps
  import opened Assignments
  import opened WatchLists
  import opened Cdcl

  // ---------------------------------------------------------------------
  // Scanning one clause

  /** What the scan over a visited clause decides. */
  datatype Visit = Satisfied(j: nat) | NewWatch(j: nat) | Unit | Conflict

  /** Every literal of `cl` names a variable of `a`. */
  predicate Assignable(a: Assignment, cl: Clause)
  {
    forall k :: 0 <= k < |cl| ==> HasVar(a, cl[k])
  }

  /** Position `k` is passed over by the scan: its literal is not true, and
      it is assigned unless it is the first literal. */
  predicate Passed(a: Assignment, cl: Clause, k: nat)
    requires Assignable(a, cl) && k < |cl|
  {
    Eval(a, cl[k]) != Some(true) && (k == 0 || Eval(a, cl[k]).Some?)
  }

  /** The scan `for j in 0..clause.len()` from position `j` on: the first
      true literal ends it, so does the first unassigned literal other than
      the first; past the end, the first literal decides between a unit and
      a conflict. */
  function ScanFrom(a: Assignment, cl: Clause, j: nat): (r: Visit)
    requires Assignable(a, cl) && |cl| >= 1 && j <= |cl|
    ensures r.Satisfied? ==> j <= r.j < |cl| && Eval(a, cl[r.j]) == Some(true)
    ensures r.NewWatch? ==> 1 <= r.j && j <= r.j < |cl| && Eval(a, cl[r.j]).None?
    ensures r.Satisfied? || r.NewWatch? ==> forall k :: j <= k < r.j ==> Passed(a, cl, k)
    ensures r.Unit? || r.Conflict? ==> forall k :: j <= k < |cl| ==> Passed(a, cl, k)
    ensures r.Unit? ==> Eval(a, cl[0]).None?
    ensures r.Conflict? ==> Eval(a, cl[0]).Some?
    decreases |cl| - j
  {
    if j == |cl| then (if Eval(a, cl[0]).None? then Unit else Conflict)
    else match Eval(a, cl[j])
      case Some(true) => Satisfied(j)
      case None => if j != 0 then NewWatch(j) else ScanFrom(a, cl, j + 1)
      case Some(false) => ScanFrom(a, cl, j + 1)
  }

  function Scan(a: Assignment, cl: Clause): (r: Visit)
    requires Assignable(a, cl) && |cl| >= 1
  {
    ScanFrom(a, cl, 0)
  }

  /** Every literal of `cl` is false under `a`. */
  predicate AllFalse(a: Assignment, cl: Clause)
  {
    forall k :: 0 <= k < |cl| ==> HasVar(a, cl[k]) && Eval(a, cl[k]) == Some(false)
  }

  /** The scan's verdicts in terms of the assignment alone: a conflict
      exactly when every literal is false, a unit exactly when the first
      literal is unassigned and every other one is false. */
  lemma ScanVerdicts(a: Assignment, cl: Clause)
    requires Assignable(a, cl) && |cl| >= 1
    ensures Scan(a, cl).Conflict? <==> AllFalse(a, cl)
    ensures Scan(a, cl).Unit? <==>
      Eval(a, cl[0]).None? && forall k :: 1 <= k < |cl| ==> Eval(a, cl[k]) == Some(false)
  {
    var r := Scan(a, cl);
    if r.Conflict? || r.Unit? {
      forall k | 1 <= k < |cl| ensures Eval(a, cl[k]) == Some(false) {
        assert Passed(a, cl, k);
      }
      assert Passed(a, cl, 0);
    }
  }

  // ---------------------------------------------------------------------
  // Semantics: valuations that agree with the trail

  /** The total valuation `val` makes every literal of `lits` true. */
  predicate AgreesWith(val: seq<bool>, lits: seq<Lit>)
  {
    forall k :: 0 <= k < |lits| ==> LitTrue(val, lits[k])
  }

  lemma NegationNotTrue(val: seq<bool>, m: Lit)
    requires LitTrue(val, -m)
    ensures !LitTrue(val, m)
  {
    ToVarNegation(-m);
  }

  /** A literal whose negation is on the trail is false under a valuation
      that agrees with the trail. */
  lemma NegatedOnTrail(val: seq<bool>, trail: seq<Lit>, m: Lit)
    requires AgreesWith(val, trail) && -m in trail
    ensures !LitTrue(val, m)
  {
    var t :| 0 <= t < |trail| && trail[t] == -m;
    NegationNotTrue(val, m);
  }

  /** The literals of a clause, from position `from` on, are negated on
      the trail. */
  predicate NegatedFrom(trail: seq<Lit>, cl: Clause, from: nat)
  {
    forall k :: from <= k < |cl| ==> -cl[k] in trail
  }

  lemma FalseNegated(a: Assignment, cl: Clause, from: nat)
    requires Shape(a) && TrailAssigned(a) && OnlyTrailAssigned(a)
    requires forall k :: from <= k < |cl| ==> HasVar(a, cl[k]) && Eval(a, cl[k]) == Some(false)
    ensures NegatedFrom(a.trail, cl, from)
  {
    forall k | from <= k < |cl| ensures -cl[k] in a.trail {
      assert Mentions(a.trail, ToVar(cl[k]));
      FalseMentioned(a, cl[k]);
    }
  }

  lemma NegatedNotTrue(val: seq<bool>, trail: seq<Lit>, cl: Clause, from: nat)
    requires AgreesWith(val, trail) && NegatedFrom(trail, cl, from)
    ensures forall k :: from <= k < |cl| ==> !LitTrue(val, cl[k])
  {
    forall k | from <= k < |cl| ensures !LitTrue(val, cl[k]) {
      NegatedOnTrail(val, trail, cl[k]);
    }
  }

  /** A clause whose literals are all false is false under every valuation
      that agrees with the trail. */
  lemma FalseRefutes(val: seq<bool>, a: Assignment, cl: Clause)
    requires Assignments.Valid(a) && AgreesWith(val, a.trail) && AllFalse(a, cl)
    ensures !ClauseTrue(val, cl)
  {
    FalseNegated(a, cl, 0);
    NegatedNotTrue(val, a.trail, cl, 0);
  }

  /** A unit clause that holds under a valuation agreeing with the trail
      holds through its first literal. */
  lemma UnitImplied(val: seq<bool>, a: Assignment, cl: Clause)
    requires Assignments.Valid(a) && Assignable(a, cl) && |cl| >= 1
    requires Scan(a, cl).Unit? && AgreesWith(val, a.trail) && ClauseTrue(val, cl)
    ensures LitTrue(val, cl[0])
  {
    ScanVerdicts(a, cl);
    FalseNegated(a, cl, 1);
    NegatedNotTrue(val, a.trail, cl, 1);
    var m :| m in cl && LitTrue(val, m);
    var k :| 0 <= k < |cl| && cl[k] == m;
    assert k == 0;
  }

  // ---------------------------------------------------------------------
  // Trail growth and explanations

  /** `a'` is `a` with more literals assigned: same variables, the old trail
      as a prefix, and every old assignment kept. */
  predicate Extends(a: Assignment, a': Assignment)
  {
    && |a'.data| == |a.data| && |a'.saved| == |a.saved|
    && |a.trail| <= |a'.trail| && a'.trail[..|a.trail|] == a.trail
    && forall v :: 0 <= v < |a.data| && a.data[v].Some? ==> a'.data[v] == a.data[v]
  }

  lemma ExtendsTrans(a: Assignment, b: Assignment, c: Assignment)
    requires Extends(a, b) && Extends(b, c)
    ensures Extends(a, c)
  {
    assert c.trail[..|a.trail|] == c.trail[..|b.trail|][..|a.trail|];
  }

  /** What is assigned under `a` evaluates the same under an extension. */
  lemma ExtendsEval(a: Assignment, a': Assignment, l: Lit)
    requires Extends(a, a') && HasVar(a, l) && Eval(a, l).Some?
    ensures HasVar(a', l) && Eval(a', l) == Eval(a, l)
  {
  }

  lemma SetExtends(a: Assignment, l: Lit, reason: Reason)
    requires HasVar(a, l) && Eval(a, l).None?
    ensures Extends(a, Set(a, l, reason))
  {
    assert Set(a, l, reason).trail[..|a.trail|] == a.trail;
  }

  /** Trail position `k` holds a literal propagated by a clause that
      contains it and whose other literals are negated earlier on the
      trail. */
  predicate ExplainedAt(clauses: seq<Clause>, a: Assignment, k: nat)
    requires k < |a.trail|
  {
    var l := a.trail[k];
    && l != 0 && ToVar(l) < |a.data| && a.data[ToVar(l)].Some?
    && a.data[ToVar(l)].value.reason.Propagation?
    && var c := a.data[ToVar(l)].value.reason.clause;
      && c < |clauses| && l in clauses[c]
      && forall m :: m in clauses[c] && m != l ==> -m in a.trail[..k]
  }

  /** Every trail literal from position `from` on is explained. */
  predicate Explained(clauses: seq<Clause>, a: Assignment, from: nat)
  {
    forall k :: from <= k < |a.trail| ==> ExplainedAt(clauses, a, k)
  }

  lemma ExplainedExtends(clauses: seq<Clause>, a: Assignment, a': Assignment, from: nat)
    requires Explained(clauses, a, from) && Extends(a, a')
    ensures forall k :: from <= k < |a.trail| ==> ExplainedAt(clauses, a', k)
  {
    forall k | from <= k < |a.trail| ensures ExplainedAt(clauses, a', k) {
      assert ExplainedAt(clauses, a, k);
      assert a'.trail[k] == a.trail[k];
      assert a'.trail[..k] == a.trail[..k];
    }
  }

  /** Propagating `l` from clause `c` when every other literal of it is
      negated on the trail explains the new trail position. */
  lemma ExplainedSet(clauses: seq<Clause>, a: Assignment, l: Lit, c: nat, from: nat)
    requires Explained(clauses, a, from) && from <= |a.trail|
    requires HasVar(a, l) && Eval(a, l).None?
    requires c < |clauses| && l in clauses[c]
    requires forall m :: m in clauses[c] && m != l ==> -m in a.trail
    ensures Explained(clauses, Set(a, l, Propagation(c)), from)
  {
    var a' := Set(a, l, Propagation(c));
    SetExtends(a, l, Propagation(c));
    ExplainedExtends(clauses, a, a', from);
    assert a'.trail[..|a.trail|] == a.trail;
  }

  /** Explanations speak of clause contents only, so reordering literals
      within clauses keeps them. */
  lemma ExplainedSameLits(clauses: seq<Clause>, clauses': seq<Clause>, a: Assignment, from: nat)
    requires Explained(clauses, a, from) && SameLits(clauses, clauses')
    ensures Explained(clauses', a, from)
  {
    forall k | from <= k < |a.trail| ensures ExplainedAt(clauses', a, k) {
      assert ExplainedAt(clauses, a, k);
      var c := a.data[ToVar(a.trail[k])].value.reason.clause;
      forall m ensures m in clauses[c] <==> m in clauses'[c] {
        assert m in clauses[c] <==> m in multiset(clauses[c]);
      }
    }
  }

  /** The literals propagated from position `from` on are implied: a
      valuation satisfying the clauses and the trail up to `from` satisfies
      the trail up to `n`. */
  lemma {:induction false} ExplainedImplied(val: seq<bool>, clauses: seq<Clause>, a: Assignment, from: nat, n: nat)
    requires Explained(clauses, a, from) && from <= n <= |a.trail|
    requires AllClausesTrue(val, clauses) && AgreesWith(val, a.trail[..from])
    ensures AgreesWith(val, a.trail[..n])
    decreases n
  {
    if n > from {
      ExplainedImplied(val, clauses, a, from, n - 1);
      var k := n - 1;
      var l := a.trail[k];
      assert ExplainedAt(clauses, a, k);
      var c := a.data[ToVar(l)].value.reason.clause;
      forall m | m in clauses[c] && m != l ensures !LitTrue(val, m) {
        var t :| 0 <= t < k && a.trail[..k][t] == -m;
        assert a.trail[..n - 1][t] == -m;
        NegationNotTrue(val, m);
      }
      assert ClauseTrue(val, clauses[c]);
      assert LitTrue(val, l);
      forall t | 0 <= t < n ensures LitTrue(val, a.trail[..n][t]) {
        if t < k {
          assert a.trail[..n][t] == a.trail[..k][t];
        }
      }
    }
  }

  // ---------------------------------------------------------------------
  // Literal order within clauses

  /** `clause.swap(x, y)`. */
  function Swap(cl: Clause, x: nat, y: nat): (r: Clause)
    requires x < |cl| && y < |cl|
    ensures |r| == |cl| && r[x] == cl[y] && r[y] == cl[x]
    ensures forall k :: 0 <= k < |cl| && k != x && k != y ==> r[k] == cl[k]
  {
    cl[x := cl[y]][y := cl[x]]
  }

  lemma SwapMultiset(cl: Clause, x: nat, y: nat)
    requires x < |cl| && y < |cl|
    ensures multiset(Swap(cl, x, y)) == multiset(cl)
  {
    if x != y {
      assert multiset(cl[x := cl[y]]) == multiset(cl) - multiset{cl[x]} + multiset{cl[y]};
    }
  }

  lemma SwapMembers(cl: Clause, x: nat, y: nat)
    requires x < |cl| && y < |cl|
    ensures forall m :: m in Swap(cl, x, y) <==> m in cl
  {
    var r := Swap(cl, x, y);
    forall m ensures m in r <==> m in cl {
      if m in r {
        var k :| 0 <= k < |r| && r[k] == m;
        assert cl[if k == x then y else if k == y then x else k] == m;
      }
      if m in cl {
        var k :| 0 <= k < |cl| && cl[k] == m;
        assert r[if k == x then y else if k == y then x else k] == m;
      }
    }
  }

  lemma SwapDistinct(cl: Clause, x: nat, y: nat)
    requires x < |cl| && y < |cl| && DistinctLits(cl)
    ensures DistinctLits(Swap(cl, x, y))
  {
    var r := Swap(cl, x, y);
    forall i, j | 0 <= i < j < |r| ensures r[i] != r[j] {
      var i' := if i == x then y else if i == y then x else i;
      var j' := if j == x then y else if j == y then x else j;
      assert r[i] == cl[i'] && r[j] == cl[j'] && i' != j';
    }
  }

  /** A swap permutes the literals, so it keeps a clause's contents and its
      literals distinct. */
  lemma SwapSameLits(cl: Clause, x: nat, y: nat)
    requires x < |cl| && y < |cl|
    ensures multiset(Swap(cl, x, y)) == multiset(cl)
    ensures forall m :: m in Swap(cl, x, y) <==> m in cl
    ensures DistinctLits(cl) ==> DistinctLits(Swap(cl, x, y))
  {
    SwapMultiset(cl, x, y);
    SwapMembers(cl, x, y);
    if DistinctLits(cl) {
      SwapDistinct(cl, x, y);
    }
  }

  /** Each clause of `cs'` holds the same literals, as many times, as the
      clause with the same index in `cs`. */
  predicate SameLits(cs: seq<Clause>, cs': seq<Clause>)
  {
    |cs| == |cs'| && forall c :: 0 <= c < |cs| ==> multiset(cs[c]) == multiset(cs'[c])
  }

  lemma SameLitsTrans(a: seq<Clause>, b: seq<Clause>, c: seq<Clause>)
    requires SameLits(a, b) && SameLits(b, c)
    ensures SameLits(a, c)
  {
  }

  /** Clause databases with the same contents are true under the same
      valuations. */
  lemma SameLitsMeaning(val: seq<bool>, cs: seq<Clause>, cs': seq<Clause>)
    requires SameLits(cs, cs')
    ensures AllClausesTrue(val, cs) <==> AllClausesTrue(val, cs')
  {
    forall c | 0 <= c < |cs| ensures ClauseTrue(val, cs[c]) <==> ClauseTrue(val, cs'[c]) {
      forall m ensures m in cs[c] <==> m in cs'[c] {
        assert m in cs[c] <==> m in multiset(cs[c]);
        assert m in cs'[c] <==> m in multiset(cs'[c]);
      }
    }
  }

  /** The first step of a visit, `if clause[1] != lit { clause.swap(0, 1) }`:
      afterwards the false literal sits at index 1 and the clause still
      watches the same two literals. */
  function Orient(cl: Clause, lit: Lit): (r: Clause)
    requires |cl| >= 2
    ensures |r| == |cl|
    ensures Watches(cl, lit) ==> r[1] == lit
    ensures forall m :: Watches(r, m) <==> Watches(cl, m)
    ensures r == cl || r == Swap(cl, 0, 1)
  {
    if cl[1] != lit then Swap(cl, 0, 1) else cl
  }

  // ---------------------------------------------------------------------
  // The steps of one visit, on the solver state

  /** Under the invariant a clause's literals name variables of the
      assignment and slots of the watch lists. */
  lemma ClauseFits(s: Solver, c: nat)
    requires Inv(s) && c < |s.clauses|
    ensures Assignable(s.assignment, s.clauses[c])
    ensures forall k :: 0 <= k < |s.clauses[c]| ==> InMap(s.watched, s.clauses[c][k])
  {
    forall k | 0 <= k < |s.clauses[c]|
      ensures HasVar(s.assignment, s.clauses[c][k]) && InMap(s.watched, s.clauses[c][k])
    {
      assert s.clauses[c][k] != 0 && ToVar(s.clauses[c][k]) <= VarCount(s);
    }
  }

  /** The clause at position `i` of the list of `lit` watches `lit`. */
  lemma WatchedClause(s: Solver, lit: Lit, i: nat)
    requires Inv(s) && lit != 0 && InMap(s.watched, lit) && i < |Get(s.watched, lit)|
    ensures Get(s.watched, lit)[i] < |s.clauses| && Watches(s.clauses[Get(s.watched, lit)[i]], lit)
  {
    PositionRoundTrip(lit);
    assert s.watched[Position(lit)][i] == Get(s.watched, lit)[i];
  }

  /** Reordering the first two literals of a watched clause keeps the
      invariant and the clause's contents. */
  lemma OrientKeepsInv(s: Solver, c: nat, lit: Lit)
    requires Inv(s) && c < |s.clauses| && Watches(s.clauses[c], lit)
    ensures Inv(s.(clauses := s.clauses[c := Orient(s.clauses[c], lit)]))
    ensures SameLits(s.clauses, s.clauses[c := Orient(s.clauses[c], lit)])
  {
    var cl := s.clauses[c];
    var cl' := Orient(cl, lit);
    var cs := s.clauses[c := cl'];
    SwapSameLits(cl, 0, 1);
    forall d, k | 0 <= d < |cs| && 0 <= k < |cs[d]|
      ensures cs[d][k] != 0 && ToVar(cs[d][k]) <= VarCount(s)
    {
      if d == c {
        assert cs[d][k] in cl;
      }
    }
    assert Registered(s.watched, c, cl);
    forall d | 0 <= d < |cs| ensures Registered(s.watched, d, cs[d]) {
      assert Registered(s.watched, d, s.clauses[d]);
    }
  }

  /** `watched[lit].swap_remove(i); watched[new].push(c)`, on the slots `p`
      of `lit` and `q` of the new watched literal. */
  function MoveWatch(watched: seq<seq<nat>>, p: nat, i: nat, q: nat, c: nat): (w: seq<seq<nat>>)
    requires p < |watched| && q < |watched| && i < |watched[p]| && p != q
    ensures |w| == |watched|
    ensures w[p] == SwapRemove(watched[p], i).0 && w[q] == watched[q] + [c]
    ensures forall r :: 0 <= r < |watched| && r != p && r != q ==> w[r] == watched[r]
  {
    watched[p := SwapRemove(watched[p], i).0][q := watched[q] + [c]]
  }

  /** Moving the watch of clause `c` from its literal at index 1 to the
      one at index `j`, which neither watched literal equals, keeps every
      list sound. */
  lemma MoveKeepsSound(clauses: seq<Clause>, watched: seq<seq<nat>>, p: nat, i: nat, c: nat, j: nat)
    requires WatchesSound(clauses, watched) && 1 <= p < |watched| && i < |watched[p]|
    requires c == watched[p][i] && 2 <= j < |clauses[c]|
    requires clauses[c][1] == LitAt(p) && DistinctLits(clauses[c])
    requires clauses[c][j] != 0 && Position(clauses[c][j]) < |watched|
    ensures Position(clauses[c][j]) != p
    ensures WatchesSound(clauses[c := Swap(clauses[c], 1, j)],
      MoveWatch(watched, p, i, Position(clauses[c][j]), c))
  {
    var cl := clauses[c];
    var lit := LitAt(p);
    var q := Position(cl[j]);
    LitAtRoundTrip(p);
    PositionInjective(cl[j], lit);
    LitAtRoundTrip(q);
    PositionRoundTrip(cl[j]);
    var cl' := Swap(cl, 1, j);
    var cs := clauses[c := cl'];
    var w := MoveWatch(watched, p, i, q, c);
    assert !Watches(cl, cl[j]);
    assert c !in watched[q] by {
      forall k | 0 <= k < |watched[q]| ensures watched[q][k] != c {
        assert Watches(clauses[watched[q][k]], cl[j]);
      }
    }
    SwapRemoveDistinct(watched[p], i);
    forall r, k | 1 <= r < |w| && 0 <= k < |w[r]|
      ensures w[r][k] < |cs| && Watches(cs[w[r][k]], LitAt(r))
    {
      if r == p {
        assert w[r][k] in w[p];
      } else if r == q {
        if k < |watched[q]| {
          assert w[r][k] == watched[q][k];
        }
      } else {
        assert w[r][k] == watched[r][k];
        LitAtRoundTrip(r);
      }
    }
    forall r | 0 <= r < |w| ensures Distinct(w[r]) {
      if r == q {
        DistinctSnoc(watched[q], c);
      }
    }
  }

  /** After the move every clause is still registered with both of its
      watched literals. */
  lemma MoveKeepsComplete(clauses: seq<Clause>, watched: seq<seq<nat>>, p: nat, i: nat, c: nat, j: nat)
    requires WatchesSound(clauses, watched) && WatchesComplete(clauses, watched)
    requires 1 <= p < |watched| && i < |watched[p]|
    requires c == watched[p][i] && 2 <= j < |clauses[c]|
    requires clauses[c][1] == LitAt(p) && DistinctLits(clauses[c])
    requires clauses[c][0] != 0 && clauses[c][j] != 0 && Position(clauses[c][j]) < |watched|
    ensures WatchesComplete(clauses[c := Swap(clauses[c], 1, j)],
      MoveWatch(watched, p, i, Position(clauses[c][j]), c))
  {
    var cl := clauses[c];
    var q := Position(cl[j]);
    LitAtRoundTrip(p);
    PositionInjective(cl[j], LitAt(p));
    var cl' := Swap(cl, 1, j);
    var cs := clauses[c := cl'];
    var w := MoveWatch(watched, p, i, q, c);
    SwapRemoveDistinct(watched[p], i);
    assert Registered(watched, c, cl);
    PositionInjective(cl[0], cl[1]);
    PositionInjective(cl[0], cl[j]);
    forall d | 0 <= d < |cs| ensures Registered(w, d, cs[d]) {
      if d != c {
        assert Registered(watched, d, clauses[d]);
        assert forall r :: 0 <= r < |watched| && d in watched[r] ==> d in w[r] by {
          forall r | 0 <= r < |watched| && d in watched[r] ensures d in w[r] {
            if r == q {
              assert w[r] == watched[r] + [c];
            }
          }
        }
      } else {
        assert w[q] == watched[q] + [c];
      }
    }
  }

  /** Moving a watch keeps the whole invariant and every clause's
      contents. */
  lemma MoveKeepsInv(s: Solver, p: nat, i: nat, c: nat, j: nat)
    requires Inv(s) && 1 <= p < |s.watched| && i < |s.watched[p]|
    requires c == s.watched[p][i] && 2 <= j < |s.clauses[c]| && s.clauses[c][1] == LitAt(p)
    ensures s.clauses[c][j] != 0 && Position(s.clauses[c][j]) < |s.watched|
    ensures Position(s.clauses[c][j]) != p
    ensures Inv(s.(clauses := s.clauses[c := Swap(s.clauses[c], 1, j)],
      watched := MoveWatch(s.watched, p, i, Position(s.clauses[c][j]), c)))
    ensures SameLits(s.clauses, s.clauses[c := Swap(s.clauses[c], 1, j)])
  {
    var cl := s.clauses[c];
    ClauseFits(s, c);
    MoveKeepsSound(s.clauses, s.watched, p, i, c, j);
    MoveKeepsComplete(s.clauses, s.watched, p, i, c, j);
    SwapSameLits(cl, 1, j);
    var cs := s.clauses[c := Swap(cl, 1, j)];
    forall d, k | 0 <= d < |cs| && 0 <= k < |cs[d]|
      ensures cs[d][k] != 0 && ToVar(cs[d][k]) <= VarCount(s)
    {
      if d == c {
        assert cs[d][k] in cl;
      }
    }
  }

  /** Propagating the first literal of clause `c` when it is unassigned
      keeps the invariant. */
  lemma UnitKeepsInv(s: Solver, c: nat)
    requires Inv(s) && c < |s.clauses| && |s.clauses[c]| >= 1
    requires HasVar(s.assignment, s.clauses[c][0]) && Eval(s.assignment, s.clauses[c][0]).None?
    ensures Inv(s.(assignment := Set(s.assignment, s.clauses[c][0], Propagation(c))))
  {
    var a := s.assignment;
    var l := s.clauses[c][0];
    SetValid(a, l, Propagation(c));
    var a' := Set(a, l, Propagation(c));
    forall v | 0 <= v < |a'.data| && a'.data[v].Some? && a'.data[v].value.reason.Propagation?
      ensures a'.data[v].value.reason.clause < |s.clauses|
    {
      if v != ToVar(l) {
        assert a'.data[v] == a.data[v];
      }
    }
  }

  /** Propagating the first literal of a unit clause explains the new
      trail position: the clause holds the literal, and every other literal
      of it is negated on the trail. */
  lemma UnitExplained(orig: seq<Clause>, cl: Clause, a: Assignment, c: nat, from: nat)
    requires c < |orig| && multiset(orig[c]) == multiset(cl) && |cl| >= 1
    requires NegatedFrom(a.trail, cl, 1)
    requires Explained(orig, a, from) && from <= |a.trail|
    requires HasVar(a, cl[0]) && Eval(a, cl[0]).None?
    ensures Explained(orig, Set(a, cl[0], Propagation(c)), from)
  {
    forall m ensures m in orig[c] <==> m in cl {
      assert m in orig[c] <==> m in multiset(orig[c]);
      assert m in cl <==> m in multiset(cl);
    }
    forall m | m in orig[c] && m != cl[0] ensures -m in a.trail {
      var k :| 0 <= k < |cl| && cl[k] == m;
    }
    ExplainedSet(orig, a, cl[0], c, from);
  }

  /** One visit, once the clause has its false literal `lit` at position 1:
      the clause is satisfied by its other watch, gets a new watch, makes its
      first literal true, or is a conflict. */
  method ScanClause(s: Solver, lit: Lit, i: nat, c: nat, ghost orig: seq<Clause>, ghost from: nat)
    returns (s': Solver, i': nat, conflict: Option<nat>)
    requires Inv(s) && lit != 0 && InMap(s.watched, lit) && i < |Get(s.watched, lit)|
    requires c == Get(s.watched, lit)[i] && c < |s.clauses| && |s.clauses[c]| >= 2
    requires s.clauses[c][1] == lit
    requires HasVar(s.assignment, lit) && Eval(s.assignment, lit) == Some(false)
    requires SameLits(orig, s.clauses) && Explained(orig, s.assignment, from)
    requires from <= |s.assignment.trail|
    ensures Inv(s') && s'.minClauseCount == s.minClauseCount && s'.proof == s.proof
    ensures s'.propHead == s.propHead && s'.tracker == s.tracker
    ensures SameLits(orig, s'.clauses) && Extends(s.assignment, s'.assignment)
    ensures Explained(orig, s'.assignment, from)
    ensures |s'.assignment.trail| <= |s.assignment.trail| + 1
    ensures conflict.Some? ==> conflict.value == c
    ensures conflict.Some? ==> c < |s'.clauses| && AllFalse(s'.assignment, s'.clauses[c])
    ensures conflict.None? ==> InMap(s'.watched, lit)
    ensures conflict.None? ==>
      || (i' == i + 1 && |Get(s'.watched, lit)| == |Get(s.watched, lit)|)
      || (i' == i && |Get(s'.watched, lit)| + 1 == |Get(s.watched, lit)|)
  {
    var p := Position(lit);
    PositionRoundTrip(lit);
    var cl := s.clauses[c];
    ClauseFits(s, c);
    match Scan(s.assignment, cl)
    case Satisfied(_) =>
      s', i', conflict := s, i + 1, None;
    case NewWatch(j) =>
      assert Eval(s.assignment, cl[1]) == Some(false);
      assert 2 <= j < |cl| && 1 <= p < |s.watched| && s.watched[p][i] == c;
      MoveKeepsInv(s, p, i, c, j);
      var q := Position(cl[j]);
      s' := s.(clauses := s.clauses[c := Swap(cl, 1, j)], watched := MoveWatch(s.watched, p, i, q, c));
      SameLitsTrans(orig, s.clauses, s'.clauses);
      i', conflict := i, None;
    case Unit =>
      ScanVerdicts(s.assignment, cl);
      FalseNegated(s.assignment, cl, 1);
      UnitKeepsInv(s, c);
      UnitExplained(orig, cl, s.assignment, c, from);
      SetExtends(s.assignment, cl[0], Propagation(c));
      s' := s.(assignment := Set(s.assignment, cl[0], Propagation(c)));
      i', conflict := i + 1, None;
    case Conflict =>
      ScanVerdicts(s.assignment, cl);
      s', i', conflict := s, i, Some(c);
  }

  /** One visit of the `i`-th clause watching the false literal `lit`: the
      clause is turned so that `lit` is its second literal, then scanned. */
  method VisitClause(s: Solver, lit: Lit, i: nat, ghost orig: seq<Clause>, ghost from: nat)
    returns (s': Solver, i': nat, conflict: Option<nat>)
    requires Inv(s) && lit != 0 && InMap(s.watched, lit) && i < |Get(s.watched, lit)|
    requires HasVar(s.assignment, lit) && Eval(s.assignment, lit) == Some(false)
    requires SameLits(orig, s.clauses) && Explained(orig, s.assignment, from)
    requires from <= |s.assignment.trail|
    ensures Inv(s') && s'.minClauseCount == s.minClauseCount && s'.proof == s.proof
    ensures s'.propHead == s.propHead && s'.tracker == s.tracker
    ensures SameLits(orig, s'.clauses) && Extends(s.assignment, s'.assignment)
    ensures Explained(orig, s'.assignment, from)
    ensures |s'.assignment.trail| <= |s.assignment.trail| + 1
    ensures conflict.Some? ==> conflict.value == Get(s.watched, lit)[i]
    ensures conflict.Some? ==> conflict.value < |s'.clauses| && AllFalse(s'.assignment, s'.clauses[conflict.value])
    ensures conflict.None? ==> InMap(s'.watched, lit)
    ensures conflict.None? ==>
      || (i' == i + 1 && |Get(s'.watched, lit)| == |Get(s.watched, lit)|)
      || (i' == i && |Get(s'.watched, lit)| + 1 == |Get(s.watched, lit)|)
  {
    WatchedClause(s, lit, i);
    var c := Get(s.watched, lit)[i];
    OrientKeepsInv(s, c, lit);
    var s1 := s.(clauses := s.clauses[c := Orient(s.clauses[c], lit)]);
    SameLitsTrans(orig, s.clauses, s1.clauses);
    s', i', conflict := ScanClause(s1, lit, i, c, orig, from);
  }

  /** The inner loop of `propagate`: visits every clause watching the
      false literal `lit`, until one of them is a conflict. */
  method VisitWatchers(s: Solver, lit: Lit, ghost orig: seq<Clause>, ghost from: nat)
    returns (s': Solver, conflict: Option<nat>)
    requires Inv(s) && lit != 0 && InMap(s.watched, lit)
    requires HasVar(s.assignment, lit) && Eval(s.assignment, lit) == Some(false)
    requires SameLits(orig, s.clauses) && Explained(orig, s.assignment, from)
    requires from <= |s.assignment.trail|
    ensures Inv(s') && s'.minClauseCount == s.minClauseCount && s'.proof == s.proof
    ensures s'.propHead == s.propHead && s'.tracker == s.tracker
    ensures SameLits(orig, s'.clauses) && Extends(s.assignment, s'.assignment)
    ensures Explained(orig, s'.assignment, from)
    ensures conflict.Some? ==>
      conflict.value < |s'.clauses| && AllFalse(s'.assignment, s'.clauses[conflict.value])
  {
    s' := s;
    conflict := None;
    assert s.assignment.trail[..|s.assignment.trail|] == s.assignment.trail;
    var i: nat := 0;
    while i < |Get(s'.watched, lit)|
      invariant Inv(s') && s'.minClauseCount == s.minClauseCount && s'.proof == s.proof
      invariant s'.propHead == s.propHead && s'.tracker == s.tracker
      invariant SameLits(orig, s'.clauses) && Extends(s.assignment, s'.assignment)
      invariant Explained(orig, s'.assignment, from) && from <= |s'.assignment.trail|
      invariant InMap(s'.watched, lit) && HasVar(s'.assignment, lit)
      invariant Eval(s'.assignment, lit) == Some(false)
      invariant i <= |Get(s'.watched, lit)|
      decreases |Get(s'.watched, lit)| - i
    {
      var next, i2, c := VisitClause(s', lit, i, orig, from);
      ExtendsTrans(s.assignment, s'.assignment, next.assignment);
      if c.Some? {
        return next, c;
      }
      ExtendsEval(s'.assignment, next.assignment, lit);
      s', i := next, i2;
    }
  }

  /** What propagation keeps, from the state `s0` it started in to the
      current state `s`. */
  predicate Progress(s0: Solver, s: Solver)
  {
    && Inv(s) && s.minClauseCount == s0.minClauseCount && s.proof == s0.proof
    && s.tracker == s0.tracker && s0.propHead <= s.propHead
    && SameLits(s0.clauses, s.clauses) && Extends(s0.assignment, s.assignment)
    && Explained(s0.clauses, s.assignment, |s0.assignment.trail|)
  }

  /** The trail literals still to be visited, plus the room left on the
      trail: it shrinks with every visited trail literal. */
  function Remaining(s: Solver): nat
    requires Inv(s)
  {
    TrailBound(s.assignment);
    2 * VarCount(s) - |s.assignment.trail| - s.propHead
  }

  /** Moving `propHead` past a visited trail literal keeps the progress
      made and shrinks what remains. */
  lemma Advance(s0: Solver, s: Solver, next: Solver)
    requires Progress(s0, s) && s.propHead < |s.assignment.trail|
    requires Progress(s0, next) && next.propHead == s.propHead
    requires Extends(s.assignment, next.assignment)
    ensures Progress(s0, next.(propHead := next.propHead + 1))
    ensures Remaining(next.(propHead := next.propHead + 1)) < Remaining(s)
  {
  }

  /** A literal of the assignment's variables has a watch list. */
  lemma LitFits(s: Solver, lit: Lit)
    requires Inv(s) && HasVar(s.assignment, lit)
    ensures InMap(s.watched, lit)
  {
  }

  /** `-trail[propHead]`: the trail literal's negation, which is false. */
  function LitToVisit(a: Assignment, k: nat): (lit: Lit)
    requires Shape(a) && TrailAssigned(a) && k < |a.trail|
    ensures lit != 0 && HasVar(a, lit) && Eval(a, lit) == Some(false)
  {
    TrailTrue(a, k);
    -a.trail[k]
  }

  /** One round of the outer loop of `propagate`: the clauses watching the
      negation of the trail literal at `propHead` are visited, then
      `propHead` moves on. */
  method PropagateLit(s0: Solver, s: Solver) returns (s': Solver, conflict: Option<nat>)
    requires Progress(s0, s) && s.propHead < |s.assignment.trail|
    ensures Progress(s0, s')
    ensures conflict.None? ==> Remaining(s') < Remaining(s)
    ensures conflict.Some? ==>
      conflict.value < |s'.clauses| && AllFalse(s'.assignment, s'.clauses[conflict.value])
  {
    var lit := LitToVisit(s.assignment, s.propHead);
    LitFits(s, lit);
    var next, c := VisitWatchers(s, lit, s0.clauses, |s0.assignment.trail|);
    ExtendsTrans(s0.assignment, s.assignment, next.assignment);
    assert Progress(s0, next);
    if c.Some? {
      return next, c;
    }
    Advance(s0, s, next);
    s' := next.(propHead := next.propHead + 1);
    conflict := None;
  }

  /** `propagate`: visits, for every trail literal from `propHead` on, the
      clauses watching its negation, until a conflict or until `propHead`
      reaches the end of the trail. The trail only grows, every literal it
      gains is explained by a clause, literals move only within clauses,
      and a conflict clause has every literal false. */
  method Propagate(s: Solver) returns (s': Solver, conflict: Option<nat>)
    requires Inv(s)
    ensures Inv(s') && s'.minClauseCount == s.minClauseCount && s'.proof == s.proof
    ensures s'.tracker == s.tracker && s.propHead <= s'.propHead
    ensures SameLits(s.clauses, s'.clauses) && Extends(s.assignment, s'.assignment)
    ensures Explained(s.clauses, s'.assignment, |s.assignment.trail|)
    ensures conflict.None? ==> s'.propHead == |s'.assignment.trail|
    ensures conflict.Some? ==>
      conflict.value < |s'.clauses| && AllFalse(s'.assignment, s'.clauses[conflict.value])
  {
    s' := s;
    conflict := None;
    assert s.assignment.trail[..|s.assignment.trail|] == s.assignment.trail;
    while s'.propHead < |s'.assignment.trail|
      invariant Progress(s, s')
      decreases Remaining(s')
    {
      var next, c := PropagateLit(s, s');
      if c.Some? {
        return next, c;
      }
      s' := next;
    }
  }
}
