/** VSIDS branching and clause activity (src/solver/activity.rs; `Chooser` in
    src/solver/branching.rs is the same structure). Activities are integers
    and the bump increment `k` is an integer; how activity.rs grows `k` in
    floating point and rescales overlarge activities is not modelled. */
module Activity {
  import opened Results
  import opened Types
  import opened SeqUtil
  import opened VarHeaps
  import opened Assignments

  /** `Evsids` / `Chooser`: the increment, the variables bumped since the
      last rescale, and the heap of variable activities. */
  datatype Evsids = Evsids(k: int, seen: seq<bool>, heap: VarHeap)

  /** Between calls every variable is inside the heap. */
  predicate EvsidsValid(e: Evsids)
  {
    && VarHeaps.Valid(e.heap)
    && e.heap.size == |e.heap.heap|
    && |e.seen| == |e.heap.heap| + 1
  }

  function VarCount(e: Evsids): nat
  {
    |e.heap.heap|
  }

  /** `Evsids::new`: increment 1, nothing seen, every activity 0. */
  function NewEvsids(varCount: nat): (e: Evsids)
    ensures EvsidsValid(e) && VarCount(e) == varCount && e.k == 1
    ensures forall v :: 1 <= v <= varCount ==> !e.seen[v] && Get(e.heap, v) == 0
  {
    Evsids(1, seq(varCount + 1, _ => false), VarHeaps.New(varCount, 0))
  }

  /** `touch`: the first touch of `v` since the last rescale adds `k` to its
      activity and marks it seen; any later touch changes nothing. */
  method Touch(e: Evsids, v: Var) returns (e': Evsids)
    requires EvsidsValid(e) && 1 <= v <= VarCount(e)
    ensures EvsidsValid(e') && e'.k == e.k && VarCount(e') == VarCount(e)
    ensures e.seen[v] ==> e' == e
    ensures !e.seen[v] ==> e'.seen == e.seen[v := true]
    ensures !e.seen[v] ==> Get(e'.heap, v) == Get(e.heap, v) + e.k
    ensures forall w :: 1 <= w <= VarCount(e) && w != v ==> Get(e'.heap, w) == Get(e.heap, w)
  {
    if e.seen[v] {
      return e;
    }
    var h := SetValue(e.heap, v, Get(e.heap, v) + e.k);
    e' := Evsids(e.k, e.seen[v := true], h);
  }

  /** `rescale`, without the floating-point part: the next increment `k` is
      supplied, every variable becomes touchable again, activities stay. */
  function Rescale(e: Evsids, k: int): (e': Evsids)
    requires EvsidsValid(e)
    ensures EvsidsValid(e') && e'.heap == e.heap && e'.k == k
    ensures |e'.seen| == |e.seen| && forall v :: 0 <= v < |e'.seen| ==> !e'.seen[v]
  {
    Evsids(k, seq(|e.seen|, _ => false), e.heap)
  }

  /** `v` is unassigned and no unassigned variable has a greater activity. */
  predicate BestUnassigned(h: VarHeap, a: Assignment, v: Var)
    requires IndexValid(h) && |a.data| == |h.heap| + 1 && |a.saved| == |a.data|
  {
    && 1 <= v <= |h.heap|
    && Eval(a, v).None?
    && forall w :: 1 <= w <= |h.heap| && Eval(a, w).None? ==> VarHeaps.Get(h, w) <= VarHeaps.Get(h, v)
  }

  /** `choose`: takes assigned variables off the top of the heap until the
      root is unassigned, then puts them all back. */
  method Choose(e: Evsids, a: Assignment) returns (e': Evsids, r: Option<Var>)
    requires EvsidsValid(e)
    requires |a.data| == VarCount(e) + 1 && |a.saved| == |a.data|
    ensures EvsidsValid(e') && e'.k == e.k && e'.seen == e.seen
    ensures IndexValid(e'.heap) && SameValues(e.heap, e'.heap)
    ensures r.None? <==> forall v :: 1 <= v <= VarCount(e) ==> Eval(a, v).Some?
    ensures r.Some? ==> BestUnassigned(e.heap, a, r.value)
  {
    var h := e.heap;
    r := None;
    while true
      invariant VarHeaps.Valid(h) && SameValues(e.heap, h)
      invariant forall q :: h.size <= q < |h.heap| ==> Eval(a, h.heap[q].1).Some?
      decreases h.size
    {
      var m := Max(h);
      if m.None? {
        AllOutsideAssigned(h, a);
        break;
      }
      if Eval(a, m.value).None? {
        MaxIsBest(e.heap, h, a, m.value);
        r := m;
        break;
      }
      var h2, _ := Extract(h);
      SameValuesTransitive(e.heap, h, h2);
      h := h2;
    }
    while true
      invariant VarHeaps.Valid(h) && SameValues(e.heap, h)
      decreases |h.heap| - h.size
    {
      var h2, back := Restore(h);
      SameValuesTransitive(e.heap, h, h2);
      h := h2;
      if back.None? {
        break;
      }
    }
    e' := Evsids(e.k, e.seen, h);
  }

  /** With the heap emptied of candidates, every variable is assigned. */
  lemma AllOutsideAssigned(h: VarHeap, a: Assignment)
    requires IndexValid(h) && h.size == 0
    requires |a.data| == |h.heap| + 1 && |a.saved| == |a.data|
    requires forall q :: h.size <= q < |h.heap| ==> Eval(a, h.heap[q].1).Some?
    ensures forall v :: 1 <= v <= |h.heap| ==> Eval(a, v).Some?
  {
    forall v | 1 <= v <= |h.heap| ensures Eval(a, v).Some? {
      assert h.heap[h.index[v]].1 == v;
    }
  }

  /** An unassigned root beats every unassigned variable, since assigned
      ones are the only ones outside the heap. */
  lemma MaxIsBest(h0: VarHeap, h: VarHeap, a: Assignment, v: Var)
    requires IndexValid(h0) && VarHeaps.Valid(h) && SameValues(h0, h)
    requires |a.data| == |h.heap| + 1 && |a.saved| == |a.data|
    requires forall q :: h.size <= q < |h.heap| ==> Eval(a, h.heap[q].1).Some?
    requires Max(h) == Some(v) && Eval(a, v).None?
    ensures BestUnassigned(h0, a, v)
  {
    forall w | 1 <= w <= |h.heap| && Eval(a, w).None?
      ensures VarHeaps.Get(h0, w) <= VarHeaps.Get(h0, v)
    {
      assert h.heap[h.index[w]].1 == w;
      assert h.index[w] < h.size;
    }
  }

  // ---------------------------------------------------------------------
  // Clause activity

  /** `ClauseTracker`: one activity per clause, in clause order. */
  datatype ClauseTracker = ClauseTracker(k: int, activity: seq<int>)

  function NewTracker(): (t: ClauseTracker)
    ensures t.k == 1 && t.activity == []
  {
    ClauseTracker(1, [])
  }

  /** `add`: a new clause starts with activity 0. */
  function AddClause(t: ClauseTracker): (t': ClauseTracker)
    ensures t'.activity == t.activity + [0] && t'.k == t.k
  {
    t.(activity := t.activity + [0])
  }

  /** `swap_remove`: mirrors the clause vector's own swap-remove and returns
      the removed clause's activity. */
  function RemoveClause(t: ClauseTracker, i: nat): (r: (ClauseTracker, int))
    requires i < |t.activity|
    ensures r.1 == t.activity[i] && r.0.k == t.k
    ensures |r.0.activity| == |t.activity| - 1
    ensures multiset(r.0.activity) + multiset{r.1} == multiset(t.activity)
    ensures i < |r.0.activity| ==> r.0.activity[i] == t.activity[|t.activity| - 1]
    ensures forall j :: 0 <= j < |r.0.activity| && j != i ==> r.0.activity[j] == t.activity[j]
  {
    SwapRemoveContents(t.activity, i);
    var (rest, x) := SwapRemove(t.activity, i);
    (t.(activity := rest), x)
  }

  /** `touch`: bumps one clause by the increment. */
  function TouchClause(t: ClauseTracker, i: nat): (t': ClauseTracker)
    requires i < |t.activity|
    ensures |t'.activity| == |t.activity| && t'.k == t.k
    ensures t'.activity[i] == t.activity[i] + t.k
    ensures forall j :: 0 <= j < |t.activity| && j != i ==> t'.activity[j] == t.activity[j]
  {
    t.(activity := t.activity[i := t.activity[i] + t.k])
  }

  /** `select_pivot`: the median of the activities from `start` on (the
      upper one for an even count). activity.rs indexes an empty vector when
      `start` is past the last clause, hence the precondition. */
  function SelectPivot(t: ClauseTracker, start: nat): (pivot: int)
    requires start < |t.activity|
  {
    var v := Sort(t.activity[start..]);
    v[|v| / 2]
  }

  /** The pivot is one of the activities, with at most half of them below
      it and fewer than half above it. */
  lemma PivotIsMedian(t: ClauseTracker, start: nat)
    requires start < |t.activity|
    ensures SelectPivot(t, start) in t.activity[start..]
    ensures var s, p := t.activity[start..], SelectPivot(t, start);
      CountBelow(s, p) <= |s| / 2 && CountAbove(s, p) <= |s| - |s| / 2 - 1
  {
    var s := t.activity[start..];
    var v := Sort(s);
    assert |v| == |multiset(v)| == |multiset(s)| == |s|;
    assert v[|v| / 2] in multiset(v);
    SortedCounts(v, |v| / 2);
    CountSort(s, v[|v| / 2]);
  }
}
