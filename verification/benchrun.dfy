/** The driver loop of the benchmark script (tests/benchmark.py): the groups
    are sorted by `dir_key`, the ones the filter matches run in that order,
    each group yields one row per file, and the run-wide tally adds up the
    groups that were not interrupted. */
module BenchmarkRun {
  import opened Results
  import opened Benchmark
  import opened SeqUtil

  // ---------------------------------------------------------------------
  // Ordering the group directories

  /** The tuple order on `(var_count, unsat)`: by count, then `False`
      before `True`. */
  predicate KeyLe(a: Key, b: Key)
  {
    a.varCount < b.varCount || (a.varCount == b.varCount && (!a.unsat || b.unsat))
  }

  /** A directory name together with its key. */
  datatype Dir = Dir(name: Name, key: Key)

  predicate SortedByKey(s: seq<Dir>)
  {
    forall i, j :: 0 <= i < j < |s| ==> KeyLe(s[i].key, s[j].key)
  }

  /** The keys of all names, computed up front as `list.sort(key=…)` does:
      the first name whose key raises makes the whole sort raise. */
  function Keyed(dirs: seq<Name>, key: Name -> Result<Key>): (r: Result<seq<Dir>>)
    ensures r.Ok? <==> forall i :: 0 <= i < |dirs| ==> key(dirs[i]).Ok?
    ensures r.Ok? ==> |r.value| == |dirs|
    ensures r.Ok? ==> forall i :: 0 <= i < |dirs| ==>
      r.value[i] == Dir(dirs[i], key(dirs[i]).value)
    decreases |dirs|
  {
    if |dirs| == 0 then Ok([])
    else
      var k :- key(dirs[0]);
      var rest :- Keyed(dirs[1..], key);
      assert forall i :: 1 <= i < |dirs| ==> dirs[i] == dirs[1..][i - 1];
      Ok([Dir(dirs[0], k)] + rest)
  }

  /** Inserts `x` after the last entry whose key is not above its own, so
      entries with equal keys keep their order. */
  function InsertByKey(x: Dir, s: seq<Dir>): (r: seq<Dir>)
    ensures |r| == |s| + 1
    decreases |s|
  {
    if |s| == 0 then [x]
    else if KeyLe(s[|s| - 1].key, x.key) then s + [x]
    else InsertByKey(x, s[..|s| - 1]) + [s[|s| - 1]]
  }

  /** The stable sort by key (Python's sort is stable). */
  function SortByKey(s: seq<Dir>): (r: seq<Dir>)
    ensures |r| == |s|
    decreases |s|
  {
    if |s| == 0 then [] else InsertByKey(s[|s| - 1], SortByKey(s[..|s| - 1]))
  }

  /** The entries with key `k`, in order. */
  function OfKey(s: seq<Dir>, k: Key): seq<Dir>
    decreases |s|
  {
    if |s| == 0 then []
    else OfKey(s[..|s| - 1], k) + (if s[|s| - 1].key == k then [s[|s| - 1]] else [])
  }

  /** The entries whose name the filter matches, in order: the loop's
      `continue` on a failed `dir_pattern.search`. */
  function Matching(s: seq<Dir>, matches: Name -> bool): (r: seq<Dir>)
    ensures |r| <= |s|
    decreases |s|
  {
    if |s| == 0 then []
    else
      var last := s[|s| - 1];
      Matching(s[..|s| - 1], matches) + (if matches(last.name) then [last] else [])
  }

  /** The directories that pass the filter, in the order of a stable sort
      by `key`. */
  function OrderBy(dirs: seq<Name>, key: Name -> Result<Key>, matches: Name -> bool): Result<seq<Dir>>
  {
    var keyed :- Keyed(dirs, key);
    Ok(Matching(SortByKey(keyed), matches))
  }

  /** The group directories in the order the driver benchmarks them. */
  function Order(dirs: seq<Name>, matches: Name -> bool): Result<seq<Dir>>
  {
    OrderBy(dirs, DirKey, matches)
  }

  lemma KeyLeTotal(a: Key, b: Key)
    ensures KeyLe(a, b) || KeyLe(b, a)
    ensures KeyLe(a, b) && KeyLe(b, a) ==> a == b
  {
  }

  lemma SortedSnoc(s: seq<Dir>, x: Dir)
    requires SortedByKey(s) && forall y :: y in s ==> KeyLe(y.key, x.key)
    ensures SortedByKey(s + [x])
  {
    forall i, j | 0 <= i < j < |s| + 1
      ensures KeyLe((s + [x])[i].key, (s + [x])[j].key)
    {
      if j == |s| {
        assert s[i] in s;
      }
    }
  }

  lemma SortedInit(s: seq<Dir>)
    requires |s| > 0 && SortedByKey(s)
    ensures SortedByKey(s[..|s| - 1])
    ensures forall y :: y in s[..|s| - 1] ==> KeyLe(y.key, s[|s| - 1].key)
  {
    forall y | y in s[..|s| - 1]
      ensures KeyLe(y.key, s[|s| - 1].key)
    {
      var i :| 0 <= i < |s| - 1 && s[..|s| - 1][i] == y;
    }
  }

  /** Insertion adds exactly `x`. */
  lemma {:induction false} InsertElements(x: Dir, s: seq<Dir>)
    ensures multiset(InsertByKey(x, s)) == multiset(s) + multiset{x}
    decreases |s|
  {
    if |s| > 0 && !KeyLe(s[|s| - 1].key, x.key) {
      var init, last := s[..|s| - 1], s[|s| - 1];
      InsertElements(x, init);
      assert s == init + [last];
    }
  }

  /** Insertion into a sorted sequence keeps it sorted. */
  lemma {:induction false} InsertSorted(x: Dir, s: seq<Dir>)
    requires SortedByKey(s)
    ensures SortedByKey(InsertByKey(x, s))
    decreases |s|
  {
    if |s| == 0 {
    } else if KeyLe(s[|s| - 1].key, x.key) {
      forall y | y in s
        ensures KeyLe(y.key, x.key)
      {
        var i :| 0 <= i < |s| && s[i] == y;
      }
      SortedSnoc(s, x);
    } else {
      var init, last := s[..|s| - 1], s[|s| - 1];
      SortedInit(s);
      InsertSorted(x, init);
      InsertElements(x, init);
      KeyLeTotal(last.key, x.key);
      forall y | y in InsertByKey(x, init)
        ensures KeyLe(y.key, last.key)
      {
        assert y in multiset(InsertByKey(x, init));
      }
      SortedSnoc(InsertByKey(x, init), last);
    }
  }

  lemma OfKeySnoc(s: seq<Dir>, x: Dir, k: Key)
    ensures OfKey(s + [x], k) == OfKey(s, k) + (if x.key == k then [x] else [])
  {
    assert (s + [x])[..|s|] == s;
  }

  /** Insertion places `x` after every entry of its own key. */
  lemma {:induction false} InsertStable(x: Dir, s: seq<Dir>, k: Key)
    ensures OfKey(InsertByKey(x, s), k) == OfKey(s, k) + (if x.key == k then [x] else [])
    decreases |s|
  {
    if |s| == 0 {
      OfKeySnoc([], x, k);
    } else if KeyLe(s[|s| - 1].key, x.key) {
      OfKeySnoc(s, x, k);
    } else {
      var init, last := s[..|s| - 1], s[|s| - 1];
      InsertStable(x, init, k);
      OfKeySnoc(InsertByKey(x, init), last, k);
      assert !(last.key == k && x.key == k);
    }
  }

  /** The sort orders by key. */
  lemma {:induction false} SortSorted(s: seq<Dir>)
    ensures SortedByKey(SortByKey(s))
    decreases |s|
  {
    if |s| > 0 {
      SortSorted(s[..|s| - 1]);
      InsertSorted(s[|s| - 1], SortByKey(s[..|s| - 1]));
    }
  }

  /** The sort is a permutation. */
  lemma {:induction false} SortPermutes(s: seq<Dir>)
    ensures multiset(SortByKey(s)) == multiset(s)
    decreases |s|
  {
    if |s| > 0 {
      var init, last := s[..|s| - 1], s[|s| - 1];
      SortPermutes(init);
      InsertElements(last, SortByKey(init));
      assert multiset(s) == multiset(init) + multiset{last} by {
        InitLast(s);
      }
    }
  }

  /** The sort is stable: the entries of each key keep their order. */
  lemma {:induction false} SortStable(s: seq<Dir>, k: Key)
    ensures OfKey(SortByKey(s), k) == OfKey(s, k)
    decreases |s|
  {
    if |s| > 0 {
      SortStable(s[..|s| - 1], k);
      InsertStable(s[|s| - 1], SortByKey(s[..|s| - 1]), k);
    }
  }

  /** Filtering keeps the sort order. */
  lemma {:induction false} MatchingSorted(s: seq<Dir>, matches: Name -> bool)
    requires SortedByKey(s)
    ensures SortedByKey(Matching(s, matches))
    decreases |s|
  {
    if |s| > 0 {
      var init, last := s[..|s| - 1], s[|s| - 1];
      SortedInit(s);
      MatchingSorted(init, matches);
      if matches(last.name) {
        forall y | y in Matching(init, matches)
          ensures KeyLe(y.key, last.key)
        {
          MatchingMembers(init, matches, y);
        }
        SortedSnoc(Matching(init, matches), last);
      }
    }
  }

  /** Filtering keeps every matching entry as often as it occurs. */
  lemma {:induction false} MatchingCount(s: seq<Dir>, matches: Name -> bool, x: Dir)
    ensures multiset(Matching(s, matches))[x] == if matches(x.name) then multiset(s)[x] else 0
    decreases |s|
  {
    if |s| > 0 {
      var init, last := s[..|s| - 1], s[|s| - 1];
      MatchingCount(init, matches, x);
      assert s == init + [last];
    }
  }

  /** Filtering keeps exactly the entries the filter matches. */
  lemma MatchingMembers(s: seq<Dir>, matches: Name -> bool, x: Dir)
    ensures x in Matching(s, matches) <==> x in s && matches(x.name)
  {
    MatchingCount(s, matches, x);
    assert x in Matching(s, matches) <==> x in multiset(Matching(s, matches));
    assert x in s <==> x in multiset(s);
  }

  lemma MatchingSnoc(s: seq<Dir>, x: Dir, matches: Name -> bool)
    ensures Matching(s + [x], matches) == Matching(s, matches) + (if matches(x.name) then [x] else [])
  {
    assert (s + [x])[..|s|] == s;
  }

  /** Filtering and picking one key commute. */
  lemma {:induction false} MatchingOfKey(s: seq<Dir>, matches: Name -> bool, k: Key)
    ensures OfKey(Matching(s, matches), k) == Matching(OfKey(s, k), matches)
    decreases |s|
  {
    if |s| > 0 {
      var init, last := s[..|s| - 1], s[|s| - 1];
      MatchingOfKey(init, matches, k);
      var mi, oi := Matching(init, matches), OfKey(init, k);
      if matches(last.name) {
        assert Matching(s, matches) == mi + [last];
        OfKeySnoc(mi, last, k);
      } else {
        assert Matching(s, matches) == mi;
      }
      if last.key == k {
        assert OfKey(s, k) == oi + [last];
        MatchingSnoc(oi, last, matches);
      } else {
        assert OfKey(s, k) == oi;
      }
    }
  }

  /** A stable sort by any key followed by the filter: it raises iff some
      key raises, whatever the filter; otherwise it lists the matching
      directories with their keys, each as often as listed, sorted by key,
      and those of equal key in listing order. */
  lemma OrderBySpec(dirs: seq<Name>, key: Name -> Result<Key>, matches: Name -> bool)
    ensures OrderBy(dirs, key, matches).Err? <==> exists i :: 0 <= i < |dirs| && key(dirs[i]).Err?
    ensures OrderBy(dirs, key, matches).Ok? ==>
      var r, keyed := OrderBy(dirs, key, matches).value, Keyed(dirs, key).value;
      && SortedByKey(r)
      && (forall x :: multiset(r)[x] == multiset(Matching(keyed, matches))[x])
      && (forall k :: OfKey(r, k) == Matching(OfKey(keyed, k), matches))
      && (forall i :: 0 <= i < |r| ==> key(r[i].name) == Ok(r[i].key))
  {
    if Keyed(dirs, key).Ok? {
      var keyed := Keyed(dirs, key).value;
      var sorted := SortByKey(keyed);
      var r := Matching(sorted, matches);
      SortSorted(keyed);
      MatchingSorted(sorted, matches);
      SortPermutes(keyed);
      forall x
        ensures multiset(r)[x] == multiset(Matching(keyed, matches))[x]
      {
        MatchingCount(sorted, matches, x);
        MatchingCount(keyed, matches, x);
      }
      forall k
        ensures OfKey(r, k) == Matching(OfKey(keyed, k), matches)
      {
        MatchingOfKey(sorted, matches, k);
        SortStable(keyed, k);
      }
      forall i | 0 <= i < |r|
        ensures key(r[i].name) == Ok(r[i].key)
      {
        assert r[i] in r;
        MatchingMembers(sorted, matches, r[i]);
        assert r[i] in multiset(keyed);
        var j :| 0 <= j < |keyed| && keyed[j] == r[i];
      }
    }
  }

  /** The order of the groups, as `dirs.sort(key=dir_key)` and the filter
      leave it. */
  lemma OrderSpec(dirs: seq<Name>, matches: Name -> bool)
    ensures Order(dirs, matches).Err? <==> exists i :: 0 <= i < |dirs| && DirKey(dirs[i]).Err?
    ensures Order(dirs, matches).Ok? ==>
      var r, keyed := Order(dirs, matches).value, Keyed(dirs, DirKey).value;
      && SortedByKey(r)
      && (forall x :: multiset(r)[x] == multiset(Matching(keyed, matches))[x])
      && (forall k :: OfKey(r, k) == Matching(OfKey(keyed, k), matches))
      && (forall i :: 0 <= i < |r| ==> DirKey(r[i].name) == Ok(r[i].key))
  {
    OrderBySpec(dirs, DirKey, matches);
  }

  // ---------------------------------------------------------------------
  // One group: `benchmark(dir, jobs)`

  /** How one `run_solver` call ended: it returned after a measured number
      of seconds, or it ran past its timeout. */
  datatype Outcome = Returned(seconds: real) | TimedOut

  /** A CSV row: the file and its time, `None` on a timeout. */
  datatype Row = Row(file: Name, time: Option<real>)

  function RowOf(file: Name, outcome: Outcome): Row
  {
    match outcome
    case Returned(seconds) => Row(file, Some(seconds))
    case TimedOut => Row(file, None)
  }

  /** The rows of a group, one per listed file in listing order. */
  function Rows(dir: Name, files: seq<Name>, run: (Name, Name) -> Outcome): (r: seq<Row>)
    ensures |r| == |files|
    decreases |files|
  {
    if |files| == 0 then []
    else
      var last := files[|files| - 1];
      Rows(dir, files[..|files| - 1], run) + [RowOf(last, run(dir, last))]
  }

  /** The rows with a time: `sum(t is not None for _, t in results)`. */
  function SolvedCount(rows: seq<Row>): (n: nat)
    ensures n <= |rows|
    decreases |rows|
  {
    if |rows| == 0 then 0
    else SolvedCount(rows[..|rows| - 1]) + (if rows[|rows| - 1].time.Some? then 1 else 0)
  }

  lemma {:induction false} RowsAt(dir: Name, files: seq<Name>, run: (Name, Name) -> Outcome, i: nat)
    requires i < |files|
    ensures Rows(dir, files, run)[i] == RowOf(files[i], run(dir, files[i]))
    decreases |files|
  {
    if i < |files| - 1 {
      RowsAt(dir, files[..|files| - 1], run, i);
    }
  }

  lemma {:induction false} SolvedCountAppend(a: seq<Row>, b: seq<Row>)
    ensures SolvedCount(a + b) == SolvedCount(a) + SolvedCount(b)
    decreases |b|
  {
    if |b| == 0 {
      assert a + b == a;
    } else {
      var init := b[..|b| - 1];
      SolvedCountAppend(a, init);
      assert (a + b)[..|a + b| - 1] == a + init;
    }
  }

  /** `benchmark(dir, jobs)`: runs the solver on every listed file and
      returns one row per file, with its time when the solver returned and
      `None` when it timed out, and the count of solved files. */
  method RunGroup(dir: Name, files: seq<Name>, run: (Name, Name) -> Outcome)
    returns (results: seq<Row>, solved: nat)
    ensures |results| == |files|
    ensures forall i :: 0 <= i < |files| ==> results[i].file == files[i]
    ensures forall i :: 0 <= i < |files| ==>
      (results[i].time.None? <==> run(dir, files[i]).TimedOut?)
    ensures forall i :: 0 <= i < |files| ==> run(dir, files[i]).Returned? ==>
      results[i].time == Some(run(dir, files[i]).seconds)
    ensures results == Rows(dir, files, run)
    ensures solved == SolvedCount(results) && solved <= |files|
  {
    results, solved := [], 0;
    for k := 0 to |files|
      invariant results == Rows(dir, files[..k], run)
      invariant solved == SolvedCount(results)
    {
      var file := files[k];
      assert files[..k + 1][..k] == files[..k];
      match run(dir, file)
      case Returned(seconds) =>
        results := results + [Row(file, Some(seconds))];
        solved := solved + 1;
      case TimedOut =>
        results := results + [Row(file, None)];
    }
    assert files[..|files|] == files;
    forall i | 0 <= i < |files|
      ensures results[i] == RowOf(files[i], run(dir, files[i]))
    {
      RowsAt(dir, files, run, i);
    }
  }

  // ---------------------------------------------------------------------
  // The run-wide tally in `main`

  /** One group of the run: its directory, its listing, and whether a
      keyboard interrupt cut it short. */
  datatype Group = Group(dir: Name, files: seq<Name>, interrupted: bool)

  /** The rows written to the CSV file: those of each group that ran to
      the end, in group order. */
  function Recorded(groups: seq<Group>, run: (Name, Name) -> Outcome): seq<Row>
    decreases |groups|
  {
    if |groups| == 0 then []
    else
      var g := groups[|groups| - 1];
      Recorded(groups[..|groups| - 1], run) + (if g.interrupted then [] else Rows(g.dir, g.files, run))
  }

  /** The number of files in the groups that ran to the end. */
  function Attempted(groups: seq<Group>): nat
    decreases |groups|
  {
    if |groups| == 0 then 0
    else
      var g := groups[|groups| - 1];
      Attempted(groups[..|groups| - 1]) + (if g.interrupted then 0 else |g.files|)
  }

  lemma RecordedSnoc(a: seq<Group>, g: Group, run: (Name, Name) -> Outcome)
    ensures Recorded(a + [g], run) == Recorded(a, run) + (if g.interrupted then [] else Rows(g.dir, g.files, run))
  {
    assert (a + [g])[..|a|] == a;
  }

  lemma {:induction false} RecordedAppend(a: seq<Group>, b: seq<Group>, run: (Name, Name) -> Outcome)
    ensures Recorded(a + b, run) == Recorded(a, run) + Recorded(b, run)
    decreases |b|
  {
    if |b| == 0 {
      assert a + b == a;
    } else {
      var init, g := b[..|b| - 1], b[|b| - 1];
      RecordedAppend(a, init, run);
      assert a + b == (a + init) + [g] by {
        InitLast(b);
        AppendAssoc(a, init, [g]);
      }
      RecordedSnoc(a + init, g, run);
      AppendAssoc(Recorded(a, run), Recorded(init, run), if g.interrupted then [] else Rows(g.dir, g.files, run));
    }
  }

  /** The total counts one row per file of every group that ran to the
      end. */
  lemma {:induction false} RecordedCount(groups: seq<Group>, run: (Name, Name) -> Outcome)
    ensures |Recorded(groups, run)| == Attempted(groups)
    decreases |groups|
  {
    if |groups| > 0 {
      RecordedCount(groups[..|groups| - 1], run);
    }
  }

  /** An interrupted group adds neither rows nor counts. */
  lemma InterruptAddsNothing(a: seq<Group>, dir: Name, files: seq<Name>, b: seq<Group>, run: (Name, Name) -> Outcome)
    ensures Recorded(a + [Group(dir, files, true)] + b, run) == Recorded(a + b, run)
  {
    var g := Group(dir, files, true);
    RecordedAppend(a + [g], b, run);
    RecordedAppend(a, [g], run);
    RecordedAppend(a, b, run);
    assert Recorded([g], run) == [];
  }

  /** The loop of `main` over the ordered groups: the rows written, the
      solved and total counts of the summary line. */
  method Tally(groups: seq<Group>, run: (Name, Name) -> Outcome)
    returns (solved: nat, total: nat, csv: seq<Row>)
    ensures csv == Recorded(groups, run)
    ensures total == |csv| == Attempted(groups)
    ensures solved == SolvedCount(csv) && solved <= total
  {
    solved, total, csv := 0, 0, [];
    for k := 0 to |groups|
      invariant csv == Recorded(groups[..k], run)
      invariant total == |csv| && solved == SolvedCount(csv)
    {
      var g := groups[k];
      assert groups[..k + 1][..k] == groups[..k];
      if !g.interrupted {
        var results, n := RunGroup(g.dir, g.files, run);
        SolvedCountAppend(csv, results);
        csv := csv + results;
        solved := solved + n;
        total := total + |results|;
      }
    }
    assert groups[..|groups|] == groups;
    RecordedCount(groups, run);
  }
}
