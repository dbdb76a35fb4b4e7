/** Sequence helpers standing in for the Rust standard library calls the
    solver makes: `sort`, `dedup` and `binary_search` on integer vectors,
    and generic facts about concatenation and slicing. */
module SeqUtil {

  predicate Sorted(s: seq<int>)
  {
    forall i, j :: 0 <= i < j < |s| ==> s[i] <= s[j]
  }

  predicate StrictlySorted(s: seq<int>)
  {
    forall i, j :: 0 <= i < j < |s| ==> s[i] < s[j]
  }

  /** Inserts `x` into a sorted sequence, before the first larger element. */
  function Insert(s: seq<int>, x: int): (r: seq<int>)
    requires Sorted(s)
    ensures Sorted(r)
    ensures multiset(r) == multiset(s) + multiset{x}
    ensures |r| == |s| + 1 && (r[0] == x || (|s| > 0 && r[0] == s[0]))
  {
    if |s| == 0 then [x]
    else if x <= s[0] then [x] + s
    else
      var t := Insert(s[1..], x);
      var r := [s[0]] + t;
      assert multiset(s) == multiset{s[0]} + multiset(s[1..]) by {
        assert s == [s[0]] + s[1..];
      }
      assert Sorted(r) by {
        forall i, j | 0 <= i < j < |r| ensures r[i] <= r[j] {
          if i == 0 {
            assert s[0] <= t[0] <= t[j - 1];
          }
        }
      }
      r
  }

  /** `Vec::sort`: an ascending permutation of `s`. */
  function Sort(s: seq<int>): (r: seq<int>)
    ensures Sorted(r)
    ensures multiset(r) == multiset(s)
  {
    if |s| == 0 then []
    else
      assert s == s[..|s| - 1] + [s[|s| - 1]];
      Insert(Sort(s[..|s| - 1]), s[|s| - 1])
  }

  /** `Vec::dedup`: drops every element equal to its predecessor. */
  function Dedup(s: seq<int>): (r: seq<int>)
    ensures |r| <= |s|
    ensures forall x :: x in r <==> x in s
    ensures |s| > 0 ==> |r| > 0 && r[0] == s[0]
    ensures Sorted(s) ==> StrictlySorted(r)
  {
    if |s| <= 1 then s
    else if s[0] == s[1] then Dedup(s[1..])
    else
      var t := Dedup(s[1..]);
      assert s[0] !in t || s[0] in s[1..];
      [s[0]] + t
  }

  /** Sorting then deduplicating, as `Solver::create` does to every input
      clause: the result is strictly increasing and has the same elements. */
  lemma SortDedupShape(s: seq<int>)
    ensures StrictlySorted(Dedup(Sort(s)))
    ensures forall x :: x in Dedup(Sort(s)) <==> x in s
  {
    var r := Sort(s);
    forall x ensures x in r <==> x in s {
      assert x in r <==> x in multiset(r);
      assert x in s <==> x in multiset(s);
    }
  }

  /** `slice::binary_search(..).is_ok()` over a sorted sequence. */
  method BinarySearch(s: seq<int>, key: int) returns (found: bool)
    requires Sorted(s)
    ensures found <==> key in s
  {
    var lo, hi := 0, |s|;
    while lo < hi
      invariant 0 <= lo <= hi <= |s|
      invariant forall i :: 0 <= i < lo ==> s[i] < key
      invariant forall i :: hi <= i < |s| ==> key < s[i]
      decreases hi - lo
    {
      var mid := lo + (hi - lo) / 2;
      if s[mid] < key {
        lo := mid + 1;
      } else if key < s[mid] {
        hi := mid;
      } else {
        return true;
      }
    }
    return false;
  }

  /** `Vec::swap_remove(i)`: the last element takes the place of element
      `i`, which is returned; order is otherwise kept. */
  function SwapRemove<T>(s: seq<T>, i: nat): (r: (seq<T>, T))
    requires i < |s|
    ensures r.1 == s[i]
    ensures |r.0| == |s| - 1
    ensures forall k :: 0 <= k < |r.0| && k != i ==> r.0[k] == s[k]
    ensures i < |r.0| ==> r.0[i] == s[|s| - 1]
  {
    var last := |s| - 1;
    if i == last then (s[..last], s[i]) else (s[..last][i := s[last]], s[i])
  }

  /** Swap-removing loses exactly the removed element. */
  lemma SwapRemoveContents<T>(s: seq<T>, i: nat)
    requires i < |s|
    ensures multiset(SwapRemove(s, i).0) + multiset{s[i]} == multiset(s)
  {
    var last := |s| - 1;
    assert s == s[..last] + [s[last]];
    if i < last {
      var t := s[..last];
      assert t == t[..i] + [t[i]] + t[i + 1..];
      assert t[i := s[last]] == t[..i] + [s[last]] + t[i + 1..];
    }
  }

  /** The number of elements of `s` below `x`. */
  function CountBelow(s: seq<int>, x: int): (n: nat)
    ensures n <= |s|
  {
    if |s| == 0 then 0 else (if s[0] < x then 1 else 0) + CountBelow(s[1..], x)
  }

  /** The number of elements of `s` above `x`. */
  function CountAbove(s: seq<int>, x: int): (n: nat)
    ensures n <= |s|
  {
    if |s| == 0 then 0 else (if s[0] > x then 1 else 0) + CountAbove(s[1..], x)
  }

  lemma {:induction false} CountAppend(s: seq<int>, t: seq<int>, x: int)
    ensures CountBelow(s + t, x) == CountBelow(s, x) + CountBelow(t, x)
    ensures CountAbove(s + t, x) == CountAbove(s, x) + CountAbove(t, x)
    decreases |s|
  {
    if |s| > 0 {
      assert (s + t)[1..] == s[1..] + t;
      CountAppend(s[1..], t, x);
    } else {
      assert s + t == t;
    }
  }

  /** Inserting `x` adds one to a count exactly when `x` is counted. */
  lemma {:induction false} CountInsert(s: seq<int>, x: int, y: int)
    requires Sorted(s)
    ensures CountBelow(Insert(s, x), y) == CountBelow(s, y) + (if x < y then 1 else 0)
    ensures CountAbove(Insert(s, x), y) == CountAbove(s, y) + (if x > y then 1 else 0)
    decreases |s|
  {
    if |s| > 0 && x > s[0] {
      var t := Insert(s[1..], x);
      assert Insert(s, x) == [s[0]] + t;
      CountInsert(s[1..], x, y);
      ConsTail(s[0], t);
    } else if |s| > 0 {
      ConsTail(x, s);
    }
  }

  /** Sorting keeps every count. */
  lemma {:induction false} CountSort(s: seq<int>, y: int)
    ensures CountBelow(Sort(s), y) == CountBelow(s, y)
    ensures CountAbove(Sort(s), y) == CountAbove(s, y)
    decreases |s|
  {
    if |s| > 0 {
      var init, last := s[..|s| - 1], s[|s| - 1];
      assert Sort(s) == Insert(Sort(init), last);
      CountSort(init, y);
      CountInsert(Sort(init), last, y);
      CountSnoc(s, y);
    }
  }

  /** The last element adds one to a count exactly when it is counted. */
  lemma CountSnoc(s: seq<int>, y: int)
    requires |s| > 0
    ensures CountBelow(s, y) == CountBelow(s[..|s| - 1], y) + (if s[|s| - 1] < y then 1 else 0)
    ensures CountAbove(s, y) == CountAbove(s[..|s| - 1], y) + (if s[|s| - 1] > y then 1 else 0)
  {
    var init, last := s[..|s| - 1], s[|s| - 1];
    InitLast(s);
    CountAppend(init, [last], y);
    assert [last][1..] == [];
  }

  /** In a sorted sequence, fewer than `m + 1` elements lie below `s[m]` and
      fewer than `|s| - m` above it. */
  lemma {:induction false} SortedCounts(s: seq<int>, m: nat)
    requires Sorted(s) && m < |s|
    ensures CountBelow(s, s[m]) <= m
    ensures CountAbove(s, s[m]) <= |s| - m - 1
  {
    assert s == s[..m] + s[m..];
    CountAppend(s[..m], s[m..], s[m]);
    NoneBelow(s[m..], s[m]);
    assert s[m..] == s[m..m + 1] + s[m + 1..];
    CountAppend(s[..m + 1], s[m + 1..], s[m]);
    assert s == s[..m + 1] + s[m + 1..];
    NoneAbove(s[..m + 1], s[m]);
  }

  lemma {:induction false} NoneBelow(s: seq<int>, x: int)
    requires forall i :: 0 <= i < |s| ==> s[i] >= x
    ensures CountBelow(s, x) == 0
    decreases |s|
  {
    if |s| > 0 {
      NoneBelow(s[1..], x);
    }
  }

  lemma {:induction false} NoneAbove(s: seq<int>, x: int)
    requires forall i :: 0 <= i < |s| ==> s[i] <= x
    ensures CountAbove(s, x) == 0
    decreases |s|
  {
    if |s| > 0 {
      NoneAbove(s[1..], x);
    }
  }

  // ---------------------------------------------------------------------
  // Generic facts about concatenation and slicing, stated once so that
  // proofs over sequences of strings or tuples need not rely on
  // extensionality of their elements.

  lemma ConsAppend<T>(xs: seq<T>, ys: seq<T>)
    requires |xs| > 0
    ensures [xs[0]] + (xs[1..] + ys) == xs + ys
  {
  }

  lemma AppendCons<T>(ys: seq<T>, xs: seq<T>)
    requires |xs| > 0
    ensures ys + [xs[0]] + xs[1..] == ys + xs
  {
    assert [xs[0]] + xs[1..] == xs;
  }

  lemma SliceOfSlice<T>(s: seq<T>, k: nat, lo: nat, hi: nat)
    requires k <= |s| && lo <= hi <= |s| - k
    ensures s[k..][lo..hi] == s[k + lo..k + hi]
  {
  }

  lemma ConsIndex<T>(x: T, xs: seq<T>, i: nat)
    requires 0 < i <= |xs|
    ensures ([x] + xs)[i] == xs[i - 1]
  {
  }

  lemma AppendAssoc<T>(a: seq<T>, b: seq<T>, c: seq<T>)
    ensures a + b + c == a + (b + c)
  {
  }

  lemma TailOfAppend<T>(p: seq<T>, q: seq<T>)
    requires |p| > 0
    ensures (p + q)[0] == p[0] && (p + q)[1..] == p[1..] + q
  {
  }

  lemma ConsTail<T>(x: T, r: seq<T>)
    ensures ([x] + r)[0] == x && ([x] + r)[1..] == r
  {
  }

  lemma TakeSnoc<T>(s: seq<T>, i: nat)
    requires i < |s|
    ensures s[..i + 1] == s[..i] + [s[i]]
  {
  }

  lemma EmptyAppend<T>(p: seq<T>, q: seq<T>)
    requires |p| == 0
    ensures p + q == q && q + p == q
  {
  }

  lemma HeadTail<T>(s: seq<T>)
    requires |s| > 0
    ensures [s[0]] + s[1..] == s
  {
  }

  lemma SnocParts<T>(a: seq<T>, x: T)
    ensures (a + [x])[..|a|] == a && (a + [x])[|a|] == x
  {
  }

  lemma InitLast<T>(s: seq<T>)
    requires |s| > 0
    ensures s[..|s| - 1] + [s[|s| - 1]] == s
  {
  }

  /** The elements of the inner sequences, in order. */
  function Flatten<T>(xss: seq<seq<T>>): seq<T>
    decreases |xss|
  {
    if |xss| == 0 then [] else xss[0] + Flatten(xss[1..])
  }

  function Min(a: int, b: int): int
  {
    if a < b then a else b
  }
}
