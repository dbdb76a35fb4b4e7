/** The indexed binary max-heap of variables behind VSIDS branching
    (`VarHeap` in src/solver/activity.rs and src/solver/branching.rs; the two
    copies are the same algorithm). `heap` holds (activity, variable) pairs;
    `index[v]` is the heap position of variable `v`; only the first `size`
    entries form the heap, the rest are variables taken out by `extract`
    and waiting for `restore`. Activities (`f64` in the Rust code)
    are integers here. */
module VarHeaps {
  import opened Results
  import opened Types

  type Entry = (int, Var)

  datatype VarHeap = VarHeap(heap: seq<Entry>, index: seq<nat>, size: nat)

  function Parent(c: nat): nat
    requires c > 0
  {
    (c - 1) / 2
  }

  /** `heap` holds each variable 1..n exactly once and `index` finds it. */
  predicate IndexValid(h: VarHeap)
  {
    && |h.index| == |h.heap| + 1
    && h.size <= |h.heap|
    && (forall p :: 0 <= p < |h.heap| ==> 1 <= h.heap[p].1 <= |h.heap| && h.index[h.heap[p].1] == p)
    && (forall v :: 1 <= v <= |h.heap| ==> h.index[v] < |h.heap| && h.heap[h.index[v]].1 == v)
  }

  /** Max-heap order on the first `size` entries. */
  predicate HeapOrder(heap: seq<Entry>, size: nat)
    requires size <= |heap|
  {
    forall c :: 0 < c < size ==> heap[Parent(c)].0 >= heap[c].0
  }

  predicate Valid(h: VarHeap)
  {
    IndexValid(h) && HeapOrder(h.heap, h.size)
  }

  /** Heap order except, possibly, between `pos` and its parent; the parent
      of `pos` still dominates the children of `pos`. What `sift_up` repairs. */
  predicate ExceptUp(heap: seq<Entry>, size: nat, pos: nat)
    requires size <= |heap| && pos < |heap|
  {
    && (forall c :: 0 < c < size && c != pos ==> heap[Parent(c)].0 >= heap[c].0)
    && (forall c :: 0 < c < size && Parent(c) == pos && pos > 0 ==> heap[Parent(pos)].0 >= heap[c].0)
  }

  /** Heap order except, possibly, between `pos` and its children; the parent
      of `pos` still dominates them. What `sift_down` repairs. */
  predicate ExceptDown(heap: seq<Entry>, size: nat, pos: nat)
    requires size <= |heap| && pos < |heap|
  {
    && (forall c :: 0 < c < size && Parent(c) != pos ==> heap[Parent(c)].0 >= heap[c].0)
    && (forall c :: 0 < c < size && Parent(c) == pos && pos > 0 ==> heap[Parent(pos)].0 >= heap[c].0)
  }

  /** The activity of variable `v`. */
  function Get(h: VarHeap, v: Var): int
    requires IndexValid(h) && 1 <= v <= |h.heap|
  {
    h.heap[h.index[v]].0
  }

  /** Both heaps map every variable to the same activity. */
  predicate SameValues(h: VarHeap, h': VarHeap)
    requires IndexValid(h) && IndexValid(h')
  {
    |h'.heap| == |h.heap| && forall v :: 1 <= v <= |h.heap| ==> Get(h', v) == Get(h, v)
  }

  lemma SameValuesTransitive(a: VarHeap, b: VarHeap, c: VarHeap)
    requires IndexValid(a) && IndexValid(b) && IndexValid(c)
    requires SameValues(a, b) && SameValues(b, c)
    ensures SameValues(a, c)
  {
  }

  /** `VarHeap::new`: variable `v` at position `v - 1`, index slot 0 unused,
      every activity `default`, all `n` entries in the heap. */
  function New(varCount: nat, default: int): (h: VarHeap)
    ensures Valid(h)
    ensures |h.heap| == varCount && h.size == varCount
    ensures forall v :: 1 <= v <= varCount ==> h.index[v] == v - 1 && Get(h, v) == default
  {
    VarHeap(seq(varCount, p => (default, p + 1)), seq(varCount + 1, v => if v == 0 then 0 else v - 1), varCount)
  }

  /** `swap`: exchanges two positions and keeps `index` in step. */
  function Swap(h: VarHeap, i: nat, j: nat): (h': VarHeap)
    requires IndexValid(h) && i < |h.heap| && j < |h.heap|
    ensures IndexValid(h') && SameValues(h, h')
    ensures h'.size == h.size
    ensures h'.heap == h.heap[i := h.heap[j]][j := h.heap[i]]
  {
    var heap := h.heap[i := h.heap[j]][j := h.heap[i]];
    var a, b := heap[i].1, heap[j].1;
    var index := h.index[a := h.index[b]][b := h.index[a]];
    var h' := VarHeap(heap, index, h.size);
    assert forall v :: 1 <= v <= |h.heap| ==> h'.index[v] == (if v == a then i else if v == b then j else h.index[v]);
    h'
  }

  /** `sift_up`: moves the entry at `pos` up while it beats its parent. */
  method SiftUp(h: VarHeap, pos: nat) returns (h': VarHeap)
    requires IndexValid(h) && pos < |h.heap|
    ensures IndexValid(h') && SameValues(h, h') && h'.size == h.size
    ensures ExceptUp(h.heap, h.size, pos) ==> HeapOrder(h'.heap, h'.size)
    ensures (pos == 0 || h.heap[pos].0 <= h.heap[Parent(pos)].0) ==> h'.heap == h.heap
  {
    h' := h;
    var p: nat := pos;
    var repairing := ExceptUp(h.heap, h.size, pos);
    while p > 0
      invariant p < |h'.heap|
      invariant IndexValid(h') && SameValues(h, h') && h'.size == h.size
      invariant repairing ==> ExceptUp(h'.heap, h'.size, p)
      invariant p == pos ==> h'.heap == h.heap
      invariant (pos == 0 || h.heap[pos].0 <= h.heap[Parent(pos)].0) ==> p == pos
      decreases p
    {
      var parent := Parent(p);
      if h'.heap[p].0 <= h'.heap[parent].0 {
        if repairing {
          ExceptUpSettled(h'.heap, h'.size, p);
        }
        break;
      }
      var before := h'.heap;
      h' := Swap(h', p, parent);
      if repairing {
        SwapUpKeepsExceptUp(before, h'.heap, h'.size, p);
      }
      p := parent;
    }
  }

  lemma ExceptUpSettled(heap: seq<Entry>, size: nat, p: nat)
    requires size <= |heap| && 0 < p < |heap|
    requires ExceptUp(heap, size, p)
    requires heap[p].0 <= heap[Parent(p)].0
    ensures HeapOrder(heap, size)
  {
  }

  lemma SwapUpKeepsExceptUp(heap: seq<Entry>, heap': seq<Entry>, size: nat, p: nat)
    requires size <= |heap| && 0 < p < |heap|
    requires heap' == heap[p := heap[Parent(p)]][Parent(p) := heap[p]]
    requires ExceptUp(heap, size, p)
    requires heap[p].0 > heap[Parent(p)].0
    ensures ExceptUp(heap', size, Parent(p))
  {
    var q := Parent(p);
    forall c | 0 < c < size && c != q
      ensures heap'[Parent(c)].0 >= heap'[c].0
    {
      if c == p {
      } else if Parent(c) == q {
      } else if Parent(c) == p {
      }
    }
  }

  /** What `sift_down` keeps while the entry it moves sits at `p`. */
  predicate DownInvariant(h: VarHeap, h': VarHeap, p: nat, repairing: bool)
    requires IndexValid(h)
  {
    && p < |h'.heap|
    && IndexValid(h') && SameValues(h, h') && h'.size == h.size
    && (repairing ==> ExceptDown(h'.heap, h'.size, p))
    && (forall q :: h.size <= q < |h.heap| ==> h'.heap[q] == h.heap[q])
  }

  /** `sift_down`: moves the entry at `pos` down below its larger child
      while a child beats it. Entries past `size` are never touched. */
  method SiftDown(h: VarHeap, pos: nat) returns (h': VarHeap)
    requires IndexValid(h) && pos < |h.heap|
    ensures IndexValid(h') && SameValues(h, h') && h'.size == h.size
    ensures ExceptDown(h.heap, h.size, pos) ==> HeapOrder(h'.heap, h'.size)
    ensures forall q :: h.size <= q < |h.heap| ==> h'.heap[q] == h.heap[q]
  {
    h' := h;
    var p: nat := pos;
    var repairing := ExceptDown(h.heap, h.size, pos);
    while true
      invariant DownInvariant(h, h', p, repairing)
      decreases |h'.heap| - p
    {
      var max := Largest(h'.heap, h'.size, p);
      if max != p {
        SiftDownStep(h, h', p, max, repairing);
        h' := Swap(h', p, max);
        p := max;
      } else {
        if repairing {
          ExceptDownSettled(h'.heap, h'.size, p);
        }
        break;
      }
    }
  }

  /** The position among `p` and its children in the heap holding the
      greatest value, preferring `p`, then the left child, on ties. */
  function Largest(heap: seq<Entry>, size: nat, p: nat): (m: nat)
    requires size <= |heap| && p < |heap|
    ensures m == p || (p < m < size && (m == 2 * p + 1 || m == 2 * p + 2) && heap[m].0 > heap[p].0)
    ensures 2 * p + 1 < size ==> heap[m].0 >= heap[2 * p + 1].0
    ensures 2 * p + 2 < size ==> heap[m].0 >= heap[2 * p + 2].0
  {
    var left := 2 * p + 1;
    var right := left + 1;
    var m := if left < size && heap[left].0 > heap[p].0 then left else p;
    if right < size && heap[right].0 > heap[m].0 then right else m
  }

  /** One swap of `sift_down` keeps its invariant, with the entry one
      level lower. */
  lemma SiftDownStep(h: VarHeap, cur: VarHeap, p: nat, m: nat, repairing: bool)
    requires IndexValid(h) && DownInvariant(h, cur, p, repairing)
    requires p < m < cur.size && (m == 2 * p + 1 || m == 2 * p + 2)
    requires cur.heap[m].0 > cur.heap[p].0
    requires 2 * p + 1 < cur.size ==> cur.heap[m].0 >= cur.heap[2 * p + 1].0
    requires 2 * p + 2 < cur.size ==> cur.heap[m].0 >= cur.heap[2 * p + 2].0
    ensures DownInvariant(h, Swap(cur, p, m), m, repairing)
  {
    var next := Swap(cur, p, m);
    if repairing {
      SwapDownKeepsExceptDown(cur.heap, next.heap, cur.size, p, m);
    }
  }

  lemma SwapDownKeepsExceptDown(heap: seq<Entry>, heap': seq<Entry>, size: nat, p: nat, m: nat)
    requires size <= |heap| && p < m < size
    requires m == 2 * p + 1 || m == 2 * p + 2
    requires heap' == heap[p := heap[m]][m := heap[p]]
    requires ExceptDown(heap, size, p)
    requires heap[m].0 > heap[p].0
    requires 2 * p + 1 < size ==> heap[m].0 >= heap[2 * p + 1].0
    requires 2 * p + 2 < size ==> heap[m].0 >= heap[2 * p + 2].0
    ensures ExceptDown(heap', size, m)
  {
    forall c | 0 < c < size && Parent(c) != m
      ensures heap'[Parent(c)].0 >= heap'[c].0
    {
      if Parent(c) == p {
      } else if c == p {
      }
    }
  }

  lemma ExceptDownSettled(heap: seq<Entry>, size: nat, p: nat)
    requires size <= |heap| && p < |heap|
    requires ExceptDown(heap, size, p)
    requires 2 * p + 1 < size ==> heap[2 * p + 1].0 <= heap[p].0
    requires 2 * p + 2 < size ==> heap[2 * p + 2].0 <= heap[p].0
    ensures HeapOrder(heap, size)
  {
    forall c | 0 < c < size ensures heap[Parent(c)].0 >= heap[c].0 {
      if Parent(c) == p {
        assert c == 2 * p + 1 || c == 2 * p + 2;
      }
    }
  }

  /** The root dominates every entry of an ordered heap. */
  lemma {:induction false} RootDominates(heap: seq<Entry>, size: nat, p: nat)
    requires size <= |heap| && HeapOrder(heap, size)
    requires p < size
    ensures heap[p].0 <= heap[0].0
    decreases p
  {
    if p > 0 {
      RootDominates(heap, size, Parent(p));
    }
  }

  /** `max`: the variable at the root, which has the greatest activity among
      the first `size` entries; `None` exactly when the heap is empty. */
  function Max(h: VarHeap): (r: Option<Var>)
    requires Valid(h)
    ensures r.None? <==> h.size == 0
    ensures r.Some? ==> 1 <= r.value <= |h.heap| && h.index[r.value] < h.size
    ensures r.Some? ==> forall p :: 0 <= p < h.size ==> h.heap[p].0 <= Get(h, r.value)
  {
    if h.size != 0 then
      assert forall p :: 0 <= p < h.size ==> h.heap[p].0 <= h.heap[0].0 by {
        forall p | 0 <= p < h.size ensures h.heap[p].0 <= h.heap[0].0 {
          RootDominates(h.heap, h.size, p);
        }
      }
      Some(h.heap[0].1)
    else None
  }

  /** `extract`: takes the root out of the heap; it stays in the array just
      past the new `size`. */
  method Extract(h: VarHeap) returns (h': VarHeap, r: Option<Var>)
    requires Valid(h)
    ensures Valid(h') && SameValues(h, h')
    ensures r == Max(h)
    ensures r.None? ==> h' == h
    ensures r.Some? ==> h'.size == h.size - 1 && h'.heap[h'.size].1 == r.value
    ensures forall q :: h.size <= q < |h.heap| ==> h'.heap[q] == h.heap[q]
  {
    if h.size == 0 {
      return h, None;
    }
    var t := Swap(h, 0, h.size - 1);
    var s := t.(size := h.size - 1);
    assert IndexValid(s) && SameValues(t, s);
    SameValuesTransitive(h, t, s);
    ShrunkExceptDown(h.heap, h.size);
    h' := SiftDown(s, 0);
    SameValuesTransitive(h, s, h');
    r := Some(h.heap[0].1);
  }

  /** Moving the last entry of an ordered heap to the root and dropping the
      old root off the end can only break the order below the root. */
  lemma ShrunkExceptDown(heap: seq<Entry>, size: nat)
    requires 0 < size <= |heap| && HeapOrder(heap, size)
    ensures ExceptDown(heap[0 := heap[size - 1]][size - 1 := heap[0]], size - 1, 0)
  {
  }

  /** `restore`: puts the entry just past `size` back into the heap;
      `None` once every entry is back. */
  method Restore(h: VarHeap) returns (h': VarHeap, r: Option<Var>)
    requires Valid(h)
    ensures Valid(h') && SameValues(h, h')
    ensures r.None? <==> h.size == |h.heap|
    ensures r.None? ==> h' == h
    ensures r.Some? ==> h'.size == h.size + 1 && r.value == h.heap[h.size].1
  {
    if h.size == |h.heap| {
      return h, None;
    }
    var s := h.(size := h.size + 1);
    assert IndexValid(s) && SameValues(h, s);
    GrownExceptUp(h.heap, h.size);
    h' := SiftUp(s, h.size);
    SameValuesTransitive(h, s, h');
    r := Some(h.heap[h.size].1);
  }

  /** One more entry appended to an ordered prefix can only break the
      order with its parent. */
  lemma GrownExceptUp(heap: seq<Entry>, size: nat)
    requires size < |heap| && HeapOrder(heap, size)
    ensures ExceptUp(heap, size + 1, size)
  {
    forall c | 0 < c < size + 1 && Parent(c) == size && size > 0
      ensures false
    {
    }
  }

  /** `set`: gives `v` the activity `val` and re-establishes heap order by
      sifting up, then down, from its position. */
  method SetValue(h: VarHeap, v: Var, val: int) returns (h': VarHeap)
    requires Valid(h) && 1 <= v <= |h.heap|
    ensures Valid(h') && h'.size == h.size && |h'.heap| == |h.heap|
    ensures Get(h', v) == val
    ensures forall w :: 1 <= w <= |h.heap| && w != v ==> Get(h', w) == Get(h, w)
  {
    var pos := h.index[v];
    var s := Overwrite(h, v, val);
    var u := SiftUp(s, pos);
    if pos >= h.size || val >= Get(h, v) {
      OrderedExceptDown(u.heap, u.size, pos);
    }
    h' := SiftDown(u, pos);
  }

  /** The entry of `v` rewritten in place: order can break only towards
      the parent (a larger value) or towards the children (a smaller one). */
  function Overwrite(h: VarHeap, v: Var, val: int): (s: VarHeap)
    requires Valid(h) && 1 <= v <= |h.heap|
    ensures IndexValid(s) && s.size == h.size && s.index == h.index
    ensures Get(s, v) == val
    ensures forall w :: 1 <= w <= |h.heap| && w != v ==> Get(s, w) == Get(h, w)
    ensures h.index[v] >= h.size || val >= Get(h, v) ==> ExceptUp(s.heap, s.size, h.index[v])
    ensures h.index[v] < h.size && val < Get(h, v) ==>
      ExceptDown(s.heap, s.size, h.index[v]) &&
      (h.index[v] == 0 || s.heap[h.index[v]].0 <= s.heap[Parent(h.index[v])].0)
  {
    var pos := h.index[v];
    var s := h.(heap := h.heap[pos := (val, v)]);
    assert forall w :: 1 <= w <= |h.heap| && w != v ==> s.index[w] != pos;
    if pos >= h.size || val >= Get(h, v) then
      RaisedExceptUp(h.heap, h.size, pos, (val, v));
      s
    else
      LoweredExceptDown(h.heap, h.size, pos, (val, v));
      s
  }

  /** Raising one entry, or changing one outside the heap, can only break
      the order towards its parent. */
  lemma RaisedExceptUp(heap: seq<Entry>, size: nat, pos: nat, e: Entry)
    requires size <= |heap| && pos < |heap| && HeapOrder(heap, size)
    requires pos >= size || e.0 >= heap[pos].0
    ensures ExceptUp(heap[pos := e], size, pos)
  {
    var heap' := heap[pos := e];
    forall c | 0 < c < size && Parent(c) == pos && pos > 0
      ensures heap'[Parent(pos)].0 >= heap'[c].0
    {
      assert heap[Parent(pos)].0 >= heap[pos].0 >= heap[c].0;
    }
  }

  /** Lowering one heap entry can only break the order towards its
      children, and the entry still sits below its parent. */
  lemma LoweredExceptDown(heap: seq<Entry>, size: nat, pos: nat, e: Entry)
    requires size <= |heap| && pos < size && HeapOrder(heap, size)
    requires e.0 < heap[pos].0
    ensures ExceptDown(heap[pos := e], size, pos)
    ensures pos == 0 || e.0 <= heap[Parent(pos)].0
  {
    var heap' := heap[pos := e];
    forall c | 0 < c < size && Parent(c) == pos && pos > 0
      ensures heap'[Parent(pos)].0 >= heap'[c].0
    {
      assert heap[Parent(pos)].0 >= heap[pos].0 >= heap[c].0;
    }
  }

  lemma OrderedExceptDown(heap: seq<Entry>, size: nat, pos: nat)
    requires size <= |heap| && pos < |heap|
    requires HeapOrder(heap, size)
    ensures ExceptDown(heap, size, pos)
  {
    forall c | 0 < c < size && Parent(c) == pos && pos > 0
      ensures heap[Parent(pos)].0 >= heap[c].0
    {
      assert 0 < pos < size;
    }
  }
}
