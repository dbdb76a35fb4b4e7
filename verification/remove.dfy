/** Removing and pruning learnt clauses (src/solver/mod.rs, `remove` and
    `prune`). A clause is removed by swap-removal: the last clause takes its
    index, so every watch and every reason that named the last clause is
    renamed. A clause that is the reason of a trail literal is never removed. */
module Removal {
  import opened Results
  import opened Types
  import opened SeqUtil
  import opened LitMaps
  import opened Assignments
  import opened Activity
  import opened WatchLists
  import opened Cdcl

  /** Trail position `t` was propagated by clause `i`. */
  predicate ReasonAt(a: Assignment, t: nat, i: nat)
    requires Shape(a) && t < |a.trail|
  {
    var d := a.data[ToVar(a.trail[t])];
    d.Some? && d.value.reason == Propagation(i)
  }

  /** Clause `i` is the reason of some trail literal. */
  predicate Locked(a: Assignment, i: nat)
    requires Shape(a)
  {
    exists t :: 0 <= t < |a.trail| && ReasonAt(a, t, i)
  }

  /** The scan over the trail at the start of `remove`. */
  method IsLocked(a: Assignment, i: nat) returns (locked: bool)
    requires Shape(a)
    ensures locked <==> Locked(a, i)
  {
    var t := 0;
    while t < |a.trail|
      invariant 0 <= t <= |a.trail|
      invariant forall u :: 0 <= u < t ==> !ReasonAt(a, u, i)
    {
      if ReasonAt(a, t, i) {
        return true;
      }
      t := t + 1;
    }
    return false;
  }

  /** No assigned variable of an unlocked clause's assignment names it as
      its reason: only trail variables are assigned. */
  lemma UnlockedNoReason(a: Assignment, i: nat)
    requires Assignments.Valid(a) && !Locked(a, i)
    ensures forall v :: 0 <= v < |a.data| && a.data[v].Some? ==> a.data[v].value.reason != Propagation(i)
  {
    forall v | 0 <= v < |a.data| && a.data[v].Some?
      ensures a.data[v].value.reason != Propagation(i)
    {
      assert Mentions(a.trail, v);
      var t :| 0 <= t < |a.trail| && (a.trail[t] == v as int || a.trail[t] == -(v as int));
      assert ToVar(a.trail[t]) == v;
      assert !ReasonAt(a, t, i);
    }
  }

  /** Literal slot `p` belongs to one of the literals of `cl`. */
  predicate Touches(cl: Clause, p: nat)
  {
    exists k :: 0 <= k < |cl| && cl[k] != 0 && Position(cl[k]) == p
  }

  lemma TouchesSnoc(cl: Clause, k: nat, p: nat)
    requires k < |cl| && cl[k] != 0
    ensures Touches(cl[..k + 1], p) <==> Touches(cl[..k], p) || p == Position(cl[k])
  {
    if Touches(cl[..k + 1], p) && p != Position(cl[k]) {
      var j :| 0 <= j < k + 1 && cl[..k + 1][j] != 0 && Position(cl[..k + 1][j]) == p;
      assert j < k && cl[..k][j] == cl[j];
    }
    if Touches(cl[..k], p) {
      var j :| 0 <= j < k && cl[..k][j] != 0 && Position(cl[..k][j]) == p;
      assert cl[..k + 1][j] == cl[j];
    }
    if p == Position(cl[k]) {
      assert cl[..k + 1][k] == cl[k];
    }
  }

  lemma WithoutTwice(s: seq<nat>, x: nat)
    ensures Without(Without(s, x), x) == Without(s, x)
  {
    WithoutAbsent(Without(s, x), x);
  }

  /** `for &lit in &clauses[c] { watched[lit].retain(|&i| i != c) }` */
  method RetainWatches(watched: seq<seq<nat>>, cl: Clause, c: nat) returns (w: seq<seq<nat>>)
    requires forall k :: 0 <= k < |cl| ==> InMap(watched, cl[k])
    ensures |w| == |watched|
    ensures forall p :: 0 <= p < |w| ==>
      w[p] == if Touches(cl, p) then Without(watched[p], c) else watched[p]
  {
    w := watched;
    var k := 0;
    while k < |cl|
      invariant 0 <= k <= |cl| && |w| == |watched|
      invariant forall p :: 0 <= p < |w| ==>
        w[p] == if Touches(cl[..k], p) then Without(watched[p], c) else watched[p]
    {
      var q := Position(cl[k]);
      forall p | 0 <= p < |w| ensures Touches(cl[..k + 1], p) <==> Touches(cl[..k], p) || p == q {
        TouchesSnoc(cl, k, p);
      }
      WithoutTwice(watched[q], c);
      w := w[q := Without(w[q], c)];
      k := k + 1;
    }
    assert cl[..k] == cl;
  }

  /** `for &lit in &clauses[last] { for i in &mut watched[lit] { if *i == last { *i = c } } }` */
  method RenameWatches(watched: seq<seq<nat>>, cl: Clause, last: nat, c: nat) returns (w: seq<seq<nat>>)
    requires forall k :: 0 <= k < |cl| ==> InMap(watched, cl[k])
    ensures |w| == |watched|
    ensures forall p :: 0 <= p < |w| ==>
      w[p] == if Touches(cl, p) then Replace(watched[p], last, c) else watched[p]
  {
    w := watched;
    var k := 0;
    while k < |cl|
      invariant 0 <= k <= |cl| && |w| == |watched|
      invariant forall p :: 0 <= p < |w| ==>
        w[p] == if Touches(cl[..k], p) then Replace(watched[p], last, c) else watched[p]
    {
      var q := Position(cl[k]);
      forall p | 0 <= p < |w| ensures Touches(cl[..k + 1], p) <==> Touches(cl[..k], p) || p == q {
        TouchesSnoc(cl, k, p);
      }
      ReplaceTwice(watched[q], last, c);
      w := w[q := Replace(w[q], last, c)];
      k := k + 1;
    }
    assert cl[..k] == cl;
  }

  lemma ReplaceTwice(s: seq<nat>, from: nat, to: nat)
    ensures Replace(Replace(s, from, to), from, to) == Replace(s, from, to)
  {
  }

  /** Only the slots of a clause's own literals can hold it, so a slot the
      clause does not touch does not. */
  lemma WatchedTouches(clauses: seq<Clause>, watched: seq<seq<nat>>, c: nat, p: nat)
    requires WatchesSound(clauses, watched)
    requires c < |clauses| && 0 <= p < |watched|
    ensures c in watched[p] ==> Touches(clauses[c], p)
  {
    if c in watched[p] {
      var k :| 0 <= k < |watched[p]| && watched[p][k] == c;
      assert p >= 1;
      var cl := clauses[c];
      assert Watches(cl, LitAt(p));
      LitAtRoundTrip(p);
      if cl[0] == LitAt(p) {
        assert cl[0] != 0 && Position(cl[0]) == p;
      } else {
        assert cl[1] != 0 && Position(cl[1]) == p;
      }
    }
  }

  /** Clause `c` is in no list of a slot its literals do not touch. */
  predicate OnlyOwnSlots(clauses: seq<Clause>, watched: seq<seq<nat>>, c: nat)
    requires c < |clauses|
  {
    forall p :: 0 <= p < |watched| && c in watched[p] ==> Touches(clauses[c], p)
  }

  lemma SoundOwnSlots(clauses: seq<Clause>, watched: seq<seq<nat>>, c: nat)
    requires WatchesSound(clauses, watched) && c < |clauses|
    ensures OnlyOwnSlots(clauses, watched, c)
  {
    forall p | 0 <= p < |watched| && c in watched[p] ensures Touches(clauses[c], p) {
      WatchedTouches(clauses, watched, c, p);
    }
  }

  /** The two watch-list loops of `remove` amount to: drop `i` from every
      list, then rename `last` to `i` in every list. */
  lemma RemovedWatchesUniform(clauses: seq<Clause>, watched: seq<seq<nat>>, i: nat,
                              w1: seq<seq<nat>>, w2: seq<seq<nat>>)
    requires i < |clauses|
    requires OnlyOwnSlots(clauses, watched, i) && OnlyOwnSlots(clauses, watched, |clauses| - 1)
    requires |w1| == |watched| && |w2| == |watched|
    requires forall p :: 0 <= p < |w1| ==>
      w1[p] == if Touches(clauses[i], p) then Without(watched[p], i) else watched[p]
    requires forall p :: 0 <= p < |w2| ==>
      w2[p] == if Touches(clauses[|clauses| - 1], p) then Replace(w1[p], |clauses| - 1, i) else w1[p]
    ensures forall p :: 0 <= p < |w2| ==> w2[p] == Replace(Without(watched[p], i), |clauses| - 1, i)
  {
    var last := |clauses| - 1;
    forall p | 0 <= p < |w2| ensures w2[p] == Replace(Without(watched[p], i), last, i) {
      if !Touches(clauses[i], p) {
        assert i !in watched[p];
        WithoutAbsent(watched[p], i);
      }
      assert w1[p] == Without(watched[p], i);
      if !Touches(clauses[last], p) {
        assert last !in watched[p];
        ReplaceAbsent(w1[p], last, i);
      }
    }
  }

  /** Every literal of `cl` has a watch list. */
  predicate LitsInMap(watched: seq<seq<nat>>, cl: Clause)
  {
    forall k :: 0 <= k < |cl| ==> InMap(watched, cl[k])
  }

  /** The watch-list half of `remove`: clause `i` leaves the lists of its
      literals, then the last clause's lists rename it to `i`. */
  method RemoveWatches(clauses: seq<Clause>, watched: seq<seq<nat>>, i: nat) returns (w: seq<seq<nat>>)
    requires i < |clauses|
    requires OnlyOwnSlots(clauses, watched, i) && OnlyOwnSlots(clauses, watched, |clauses| - 1)
    requires LitsInMap(watched, clauses[i]) && LitsInMap(watched, clauses[|clauses| - 1])
    ensures |w| == |watched|
    ensures forall p :: 0 <= p < |watched| ==> w[p] == Replace(Without(watched[p], i), |clauses| - 1, i)
  {
    var last := |clauses| - 1;
    var w1 := RetainWatches(watched, clauses[i], i);
    w := RenameWatches(w1, clauses[last], last, i);
    RemovedWatchesUniform(clauses, watched, i, w1, w);
  }

  /** `remove(i)`: refused (None, nothing changes) exactly when clause `i`
      is the reason of a trail literal. Otherwise clause `i` is returned and
      swap-removed, the watch lists drop `i` and rename the last index to
      `i`, reasons naming the last clause are renamed to `i`, the clause
      activities are swap-removed alike, and the invariant still holds. */
  method Remove(s: Solver, i: nat) returns (s': Solver, r: Option<Clause>)
    requires Inv(s) && i < |s.clauses|
    ensures r.None? <==> Locked(s.assignment, i)
    ensures r.None? ==> s' == s
    ensures r.Some? ==> r.value == s.clauses[i] && Inv(s')
    ensures r.Some? ==> s'.clauses == SwapRemove(s.clauses, i).0
    ensures r.Some? ==> s'.tracker == RemoveClause(s.tracker, i).0
    ensures r.Some? ==> |s'.watched| == |s.watched| && forall p :: 0 <= p < |s.watched| ==>
      s'.watched[p] == Replace(Without(s.watched[p], i), |s.clauses| - 1, i)
    ensures r.Some? ==> s'.assignment.trail == s.assignment.trail && |s'.assignment.data| == |s.assignment.data|
    ensures r.Some? ==> forall v :: 0 <= v < |s.assignment.data| ==>
      s'.assignment.data[v] == Renamed(s.assignment.data[v], |s.clauses| - 1, i)
    ensures r.Some? ==> s'.propHead == s.propHead && s'.proof == s.proof
    ensures r.Some? ==> s'.minClauseCount == s.minClauseCount
  {
    var locked := IsLocked(s.assignment, i);
    if locked {
      return s, None;
    }
    var removed;
    s', removed := RemoveUnlocked(s, i);
    r := Some(removed);
  }

  /** `remove` past the lock test: the clause goes out of the watch lists,
      the last clause takes its index everywhere, and its activity entry
      goes the same way. */
  method RemoveUnlocked(s: Solver, i: nat) returns (s': Solver, removed: Clause)
    requires Inv(s) && i < |s.clauses| && !Locked(s.assignment, i)
    ensures removed == s.clauses[i] && Inv(s')
    ensures s'.clauses == SwapRemove(s.clauses, i).0
    ensures s'.tracker == RemoveClause(s.tracker, i).0
    ensures |s'.watched| == |s.watched| && forall p :: 0 <= p < |s.watched| ==>
      s'.watched[p] == Replace(Without(s.watched[p], i), |s.clauses| - 1, i)
    ensures s'.assignment.trail == s.assignment.trail && |s'.assignment.data| == |s.assignment.data|
    ensures forall v :: 0 <= v < |s.assignment.data| ==>
      s'.assignment.data[v] == Renamed(s.assignment.data[v], |s.clauses| - 1, i)
    ensures s'.propHead == s.propHead && s'.proof == s.proof
    ensures s'.minClauseCount == s.minClauseCount
  {
    var last := |s.clauses| - 1;
    SoundOwnSlots(s.clauses, s.watched, i);
    SoundOwnSlots(s.clauses, s.watched, last);
    var w := RemoveWatches(s.clauses, s.watched, i);
    var a := RenameClause(s.assignment, last, i);
    var (tracker, _) := RemoveClause(s.tracker, i);
    var (clauses, c) := SwapRemove(s.clauses, i);
    s' := s.(clauses := clauses, watched := w, assignment := a, tracker := tracker);
    removed := c;
    RemoveKeepsInv(s, s', i);
  }

  /** What `remove` leaves behind satisfies the invariant. */
  lemma RemoveKeepsInv(s: Solver, s': Solver, i: nat)
    requires Inv(s) && i < |s.clauses| && !Locked(s.assignment, i)
    requires s'.clauses == SwapRemove(s.clauses, i).0
    requires |s'.tracker.activity| == |s.tracker.activity| - 1
    requires |s'.watched| == |s.watched| && forall p :: 0 <= p < |s.watched| ==>
      s'.watched[p] == Replace(Without(s.watched[p], i), |s.clauses| - 1, i)
    requires s'.assignment.trail == s.assignment.trail && s'.assignment.levels == s.assignment.levels
    requires s'.assignment.saved == s.assignment.saved && |s'.assignment.data| == |s.assignment.data|
    requires forall v :: 0 <= v < |s.assignment.data| ==>
      s'.assignment.data[v] == Renamed(s.assignment.data[v], |s.clauses| - 1, i)
    requires s'.propHead == s.propHead
    ensures Inv(s')
  {
    RenameValid(s.assignment, s'.assignment, |s.clauses| - 1, i);
    RemoveKeepsSound(s.clauses, s.watched, i, s'.watched);
    RemoveKeepsComplete(s.clauses, s.watched, i, s'.watched);
    RemoveKeepsShape(s.clauses, i, Cdcl.VarCount(s));
    UnlockedNoReason(s.assignment, i);
    assert ReasonsInRange(s'.assignment, |s'.clauses|);
  }

  lemma RemoveKeepsShape(clauses: seq<Clause>, i: nat, varCount: nat)
    requires i < |clauses|
    requires ClausesInRange(clauses, varCount)
    requires forall c :: 0 <= c < |clauses| ==> DistinctLits(clauses[c])
    ensures ClausesInRange(SwapRemove(clauses, i).0, varCount)
    ensures forall c :: 0 <= c < |clauses| - 1 ==> DistinctLits(SwapRemove(clauses, i).0[c])
  {
  }

  lemma RemoveKeepsSound(clauses: seq<Clause>, watched: seq<seq<nat>>, i: nat, w: seq<seq<nat>>)
    requires WatchesSound(clauses, watched) && i < |clauses|
    requires |w| == |watched| && forall p :: 0 <= p < |watched| ==>
      w[p] == Replace(Without(watched[p], i), |clauses| - 1, i)
    ensures WatchesSound(SwapRemove(clauses, i).0, w)
  {
    var last := |clauses| - 1;
    var cs := SwapRemove(clauses, i).0;
    WithoutAbsent([], i);
    forall p, k | 1 <= p < |w| && 0 <= k < |w[p]|
      ensures w[p][k] < |cs| && Watches(cs[w[p][k]], LitAt(p))
    {
      var ws := Without(watched[p], i);
      assert ws[k] in ws;
      var k2 :| 0 <= k2 < |watched[p]| && watched[p][k2] == ws[k];
      if ws[k] == last {
        assert w[p][k] == i && i < last && cs[i] == clauses[last];
      } else {
        assert w[p][k] == ws[k] && cs[ws[k]] == clauses[ws[k]];
      }
    }
    forall p | 0 <= p < |w| ensures Distinct(w[p]) {
      WithoutDistinct(watched[p], i);
      ReplaceDistinct(Without(watched[p], i), last, i);
    }
  }

  lemma RemoveKeepsComplete(clauses: seq<Clause>, watched: seq<seq<nat>>, i: nat, w: seq<seq<nat>>)
    requires WatchesComplete(clauses, watched) && i < |clauses|
    requires |w| == |watched| && forall p :: 0 <= p < |watched| ==>
      w[p] == Replace(Without(watched[p], i), |clauses| - 1, i)
    ensures WatchesComplete(SwapRemove(clauses, i).0, w)
  {
    var last := |clauses| - 1;
    var cs := SwapRemove(clauses, i).0;
    forall c | 0 <= c < |cs| ensures Registered(w, c, cs[c]) {
      var from := if c == i then last else c;
      assert cs[c] == clauses[from];
      assert Registered(watched, from, clauses[from]);
      var cl := cs[c];
      if |cl| >= 2 && cl[0] != 0 && cl[1] != 0 {
        ReplaceMembers(Without(watched[Position(cl[0])], i), last, i);
        ReplaceMembers(Without(watched[Position(cl[1])], i), last, i);
      }
    }
  }

  /** `prune`: walks the learnt clauses (index `minClauseCount` on) and
      removes each one whose activity is below the median `select_pivot`
      picks, unless it is locked; every removal is logged as a `Delete`
      step when proofs are on. The input clauses are untouched, and the
      database loses exactly the removed clauses. */
  method Prune(s: Solver) returns (s': Solver, removed: seq<Clause>)
    requires Inv(s) && s.minClauseCount < |s.clauses|
    ensures Inv(s') && s'.minClauseCount == s.minClauseCount
    ensures |s'.clauses| + |removed| == |s.clauses| && s.minClauseCount <= |s'.clauses|
    ensures s'.clauses[..s.minClauseCount] == s.clauses[..s.minClauseCount]
    ensures multiset(s'.clauses) + multiset(removed) == multiset(s.clauses)
    ensures s'.proof == WithDeletions(s.proof, removed)
    ensures s'.assignment.trail == s.assignment.trail && s'.propHead == s.propHead
  {
    var pivot := SelectPivot(s.tracker, s.minClauseCount);
    s' := s;
    removed := [];
    WithDeletionsNone(s.proof);
    assert multiset(removed) == multiset{};
    var i := s.minClauseCount;
    while i < |s'.clauses|
      invariant Inv(s') && s'.minClauseCount == s.minClauseCount
      invariant s.minClauseCount <= i <= |s'.clauses|
      invariant |s'.clauses| + |removed| == |s.clauses|
      invariant s'.clauses[..s.minClauseCount] == s.clauses[..s.minClauseCount]
      invariant multiset(s'.clauses) + multiset(removed) == multiset(s.clauses)
      invariant s'.proof == WithDeletions(s.proof, removed)
      invariant s'.assignment.trail == s.assignment.trail && s'.propHead == s.propHead
      decreases |s'.clauses| - i
    {
      if s'.tracker.activity[i] < pivot {
        var next, r := Remove(s', i);
        if r.Some? {
          PruneStep(s, s', next, i, removed, r.value);
          s' := next.(proof := LogDelete(next.proof, r.value));
          removed := removed + [r.value];
          continue;
        }
      }
      i := i + 1;
    }
  }

  /** The `Delete` steps for the given clauses, in order. */
  function Deletions(cs: seq<Clause>): (p: Proof)
    ensures |p| == |cs|
    ensures forall k :: 0 <= k < |cs| ==> p[k] == (Delete, cs[k])
  {
    if |cs| == 0 then [] else Deletions(cs[..|cs| - 1]) + [(Delete, cs[|cs| - 1])]
  }

  /** `if let Some(proof) = self.proof.as_mut() { proof.push((Delete, clause)) }` */
  function LogDelete(proof: Option<Proof>, c: Clause): (r: Option<Proof>)
    ensures r.None? <==> proof.None?
    ensures r.Some? ==> r.value == proof.value + [(Delete, c)]
  {
    match proof
    case None => None
    case Some(p) => Some(p + [(Delete, c)])
  }

  /** One removal inside `prune` keeps the loop's bookkeeping. */
  lemma PruneStep(s: Solver, cur: Solver, next: Solver, i: nat, removed: seq<Clause>, c: Clause)
    requires s.minClauseCount <= i < |cur.clauses| && s.minClauseCount <= |s.clauses|
    requires cur.clauses[..s.minClauseCount] == s.clauses[..s.minClauseCount]
    requires multiset(cur.clauses) + multiset(removed) == multiset(s.clauses)
    requires cur.proof == WithDeletions(s.proof, removed)
    requires next.clauses == SwapRemove(cur.clauses, i).0 && c == cur.clauses[i]
    requires next.proof == cur.proof
    ensures next.clauses[..s.minClauseCount] == s.clauses[..s.minClauseCount]
    ensures multiset(next.clauses) + multiset(removed + [c]) == multiset(s.clauses)
    ensures LogDelete(next.proof, c) == WithDeletions(s.proof, removed + [c])
  {
    SwapRemoveContents(cur.clauses, i);
    var m := s.minClauseCount;
    assert next.clauses[..m] == cur.clauses[..m] by {
      forall k | 0 <= k < m ensures next.clauses[k] == cur.clauses[k] {
      }
    }
    WithDeletionsSnoc(s.proof, removed, c);
  }

  /** The proof log after deleting `cs`, in order, when proofs are on. */
  function WithDeletions(proof: Option<Proof>, cs: seq<Clause>): (r: Option<Proof>)
    ensures r.None? <==> proof.None?
    ensures r.Some? ==> |r.value| == |proof.value| + |cs| && r.value[..|proof.value|] == proof.value
  {
    match proof
    case None => None
    case Some(p) => assert (p + Deletions(cs))[..|p|] == p; Some(p + Deletions(cs))
  }

  lemma WithDeletionsNone(proof: Option<Proof>)
    ensures WithDeletions(proof, []) == proof
  {
    if proof.Some? {
      assert proof.value + Deletions([]) == proof.value;
    }
  }

  /** Logging one more deletion extends the log by one `Delete` step. */
  lemma WithDeletionsSnoc(proof: Option<Proof>, cs: seq<Clause>, c: Clause)
    ensures LogDelete(WithDeletions(proof, cs), c) == WithDeletions(proof, cs + [c])
  {
    assert (cs + [c])[..|cs|] == cs;
    if proof.Some? {
      assert Deletions(cs + [c]) == Deletions(cs) + [(Delete, c)];
      assert proof.value + Deletions(cs) + [(Delete, c)] == proof.value + (Deletions(cs) + [(Delete, c)]);
    }
  }
}
