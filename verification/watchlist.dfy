/** Edits the solver makes to a single watch list (a `Vec<usize>` of clause
    indices): `retain(|&i| i != c)`, renaming one index to another in place,
    and `swap_remove`. */
module WatchLists {
  import opened SeqUtil

  /** No index occurs twice. */
  predicate Distinct(s: seq<nat>)
  {
    forall k1, k2 :: 0 <= k1 < k2 < |s| ==> s[k1] != s[k2]
  }

  lemma DistinctCons(h: nat, t: seq<nat>)
    ensures Distinct([h] + t) <==> h !in t && Distinct(t)
  {
    var s := [h] + t;
    if h !in t && Distinct(t) {
      forall k1, k2 | 0 <= k1 < k2 < |s| ensures s[k1] != s[k2] {
        if k1 == 0 {
          assert s[k2] == t[k2 - 1];
        } else {
          assert s[k1] == t[k1 - 1] && s[k2] == t[k2 - 1];
        }
      }
    }
    if Distinct(s) {
      forall k1, k2 | 0 <= k1 < k2 < |t| ensures t[k1] != t[k2] {
        assert t[k1] == s[k1 + 1] && t[k2] == s[k2 + 1];
      }
      forall k | 0 <= k < |t| ensures t[k] != h {
        assert t[k] == s[k + 1] && h == s[0];
      }
    }
  }

  /** Appending an index that is not yet present keeps the list free of
      duplicates. */
  lemma DistinctSnoc(s: seq<nat>, x: nat)
    requires Distinct(s) && x !in s
    ensures Distinct(s + [x])
  {
    var r := s + [x];
    forall k1, k2 | 0 <= k1 < k2 < |r| ensures r[k1] != r[k2] {
      assert r[k1] == s[k1];
      if k2 == |s| {
        assert s[k1] in s;
      }
    }
  }

  /** `retain(|&i| i != x)`: the list without any occurrence of `x`, order kept. */
  function Without(s: seq<nat>, x: nat): (r: seq<nat>)
    ensures forall y :: y in r <==> y in s && y != x
    ensures |r| <= |s|
  {
    if |s| == 0 then []
    else if s[0] == x then Without(s[1..], x)
    else [s[0]] + Without(s[1..], x)
  }

  /** Removing an index that is not there changes nothing. */
  lemma {:induction false} WithoutAbsent(s: seq<nat>, x: nat)
    requires x !in s
    ensures Without(s, x) == s
  {
    if |s| > 0 {
      WithoutAbsent(s[1..], x);
      assert s == [s[0]] + s[1..];
    }
  }

  lemma {:induction false} WithoutDistinct(s: seq<nat>, x: nat)
    requires Distinct(s)
    ensures Distinct(Without(s, x))
  {
    if |s| > 0 {
      assert s == [s[0]] + s[1..];
      DistinctCons(s[0], s[1..]);
      WithoutDistinct(s[1..], x);
      if s[0] != x {
        DistinctCons(s[0], Without(s[1..], x));
      }
    }
  }

  /** The in-place loop `if *i == from { *i = to }` over a whole list. */
  function Replace(s: seq<nat>, from: nat, to: nat): (r: seq<nat>)
    ensures |r| == |s|
    ensures forall k :: 0 <= k < |s| ==> r[k] == if s[k] == from then to else s[k]
  {
    if |s| == 0 then [] else [if s[0] == from then to else s[0]] + Replace(s[1..], from, to)
  }

  lemma ReplaceMembers(s: seq<nat>, from: nat, to: nat)
    ensures forall y :: y in Replace(s, from, to) <==> (y in s && y != from) || (y == to && from in s)
  {
    var r := Replace(s, from, to);
    forall y ensures y in r <==> (y in s && y != from) || (y == to && from in s) {
      if y in r {
        var k :| 0 <= k < |r| && r[k] == y;
        assert s[k] in s;
      }
      if y in s && y != from {
        var k :| 0 <= k < |s| && s[k] == y;
        assert r[k] == y;
      }
      if y == to && from in s {
        var k :| 0 <= k < |s| && s[k] == from;
        assert r[k] == to;
      }
    }
  }

  /** Renaming an index that is not there changes nothing. */
  lemma ReplaceAbsent(s: seq<nat>, from: nat, to: nat)
    requires from !in s
    ensures Replace(s, from, to) == s
  {
  }

  /** Renaming into an index that is not yet present keeps the list free of
      duplicates. */
  lemma ReplaceDistinct(s: seq<nat>, from: nat, to: nat)
    requires Distinct(s) && to !in s
    ensures Distinct(Replace(s, from, to))
  {
    var r := Replace(s, from, to);
    forall k1, k2 | 0 <= k1 < k2 < |r| ensures r[k1] != r[k2] {
      assert s[k1] in s && s[k2] in s;
    }
  }

  /** `swap_remove` on a list without duplicates loses exactly the removed
      index, and keeps the rest free of duplicates. */
  lemma SwapRemoveDistinct(s: seq<nat>, i: nat)
    requires Distinct(s) && i < |s|
    ensures Distinct(SwapRemove(s, i).0)
    ensures forall y :: y in SwapRemove(s, i).0 <==> y in s && y != s[i]
  {
    var r := SwapRemove(s, i).0;
    var last := |s| - 1;
    forall k1, k2 | 0 <= k1 < k2 < |r| ensures r[k1] != r[k2] {
      if k1 == i {
        assert r[k1] == s[last];
      } else if k2 == i {
        assert r[k2] == s[last];
      }
    }
    forall y ensures y in r <==> y in s && y != s[i] {
      if y in r {
        var k :| 0 <= k < |r| && r[k] == y;
        if k == i {
          assert y == s[last];
        } else {
          assert y == s[k];
        }
      }
      if y in s && y != s[i] {
        var k :| 0 <= k < |s| && s[k] == y;
        if k == last {
          assert r[i] == y;
        } else {
          assert r[k] == y;
        }
      }
    }
  }
}
