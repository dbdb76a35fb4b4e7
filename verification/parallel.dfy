/** Cube-and-conquer splitting (src/parallel.rs): the variables are ranked
    by how often they occur, the `n` cubes over the leading ones partition
    the assignments, and each subproblem is the problem plus the unit
    clauses of one cube. */
module Parallel {
  import opened Results
  import opened Types
  import opened SeqUtil

  // ---------------------------------------------------------------------
  // Occurrence counts

  function Abs(l: int): nat
  {
    if l < 0 then -l else l
  }

  /** How many literals of `lits` belong to variable `v`. */
  function Count(lits: seq<int>, v: nat): nat
    decreases |lits|
  {
    if |lits| == 0 then 0
    else Count(lits[..|lits| - 1], v) + (if Abs(lits[|lits| - 1]) == v then 1 else 0)
  }

  /** Every literal is non-zero (`to_var` asserts it) and its variable
      indexes the frequency table. */
  predicate InTable(lits: seq<int>, varCount: nat)
  {
    forall i :: 0 <= i < |lits| ==> lits[i] != 0 && Abs(lits[i]) <= varCount
  }

  /** The counting loop of `frequent_vars`: one slot per variable and slot
      0, one increment per literal of the flattened clauses. A zero literal
      fails the assertion of `to_var`; a literal beyond the table is an
      index panic. */
  method Frequencies(problem: Problem) returns (r: Result<seq<nat>>)
    ensures r.Ok? <==> InTable(Flatten(problem.clauses), problem.varCount)
    ensures r.Ok? ==> |r.value| == problem.varCount + 1
    ensures r.Ok? ==>
      forall v :: 0 <= v <= problem.varCount ==> r.value[v] == Count(Flatten(problem.clauses), v)
  {
    var lits := Flatten(problem.clauses);
    var freq: seq<nat> := seq(problem.varCount + 1, _ => 0);
    var k: nat := 0;
    while k < |lits|
      invariant k <= |lits| && |freq| == problem.varCount + 1
      invariant InTable(lits[..k], problem.varCount)
      invariant forall v :: 0 <= v <= problem.varCount ==> freq[v] == Count(lits[..k], v)
    {
      assert lits[..k + 1][..k] == lits[..k];
      if lits[k] == 0 {
        return Err("to_var of literal 0");
      }
      var v := ToVar(lits[k]);
      if v > problem.varCount {
        return Err("index out of bounds");
      }
      freq := freq[v := freq[v] + 1];
      k := k + 1;
    }
    assert lits[..k] == lits;
    return Ok(freq);
  }

  // ---------------------------------------------------------------------
  // Ranking

  /** `(freq, var)` pairs compare lexicographically, and the heap pops the
      greatest first. */
  predicate Above(freq: seq<nat>, a: nat, b: nat)
    requires a < |freq| && b < |freq|
  {
    freq[a] > freq[b] || (freq[a] == freq[b] && a > b)
  }

  predicate VarsOf(freq: seq<nat>, s: seq<nat>)
  {
    forall i :: 0 <= i < |s| ==> 1 <= s[i] < |freq|
  }

  /** Strictly descending by `(freq, var)`. */
  predicate Ranked(freq: seq<nat>, s: seq<nat>)
    requires VarsOf(freq, s)
  {
    forall i, j :: 0 <= i < j < |s| ==> Above(freq, s[i], s[j])
  }

  /** Puts `v` before the first variable it ranks above. */
  function Insert(freq: seq<nat>, v: nat, s: seq<nat>): (r: seq<nat>)
    requires 1 <= v < |freq| && VarsOf(freq, s)
    ensures |r| == |s| + 1 && VarsOf(freq, r)
    ensures forall x :: x in r <==> x == v || x in s
    decreases |s|
  {
    if |s| == 0 || Above(freq, v, s[0]) then [v] + s
    else [s[0]] + Insert(freq, v, s[1..])
  }

  /** The order in which the heap of `frequent_vars` pops variables 1..n. */
  function PopOrder(freq: seq<nat>, n: nat): (r: seq<nat>)
    requires n < |freq|
    ensures |r| == n && VarsOf(freq, r)
    ensures forall x :: x in r <==> 1 <= x <= n
  {
    if n == 0 then [] else Insert(freq, n, PopOrder(freq, n - 1))
  }

  lemma {:induction false} InsertRanked(freq: seq<nat>, v: nat, s: seq<nat>)
    requires 1 <= v < |freq| && VarsOf(freq, s) && Ranked(freq, s) && v !in s
    ensures Ranked(freq, Insert(freq, v, s))
    decreases |s|
  {
    var r := Insert(freq, v, s);
    if |s| > 0 && !Above(freq, v, s[0]) {
      var t := Insert(freq, v, s[1..]);
      assert v != s[0];
      assert Ranked(freq, s[1..]) by {
        forall i, j | 0 <= i < j < |s| - 1
          ensures Above(freq, s[1..][i], s[1..][j])
        {
          assert s[1..][i] == s[i + 1] && s[1..][j] == s[j + 1];
        }
      }
      InsertRanked(freq, v, s[1..]);
      forall j | 0 <= j < |t|
        ensures Above(freq, s[0], t[j])
      {
        if t[j] != v {
          assert t[j] in s[1..];
          var k :| 0 <= k < |s| - 1 && s[1..][k] == t[j];
          assert s[k + 1] == t[j];
        }
      }
      forall i, j | 0 <= i < j < |r|
        ensures Above(freq, r[i], r[j])
      {
        if i > 0 {
          assert r[i] == t[i - 1] && r[j] == t[j - 1];
        } else {
          assert r[j] == t[j - 1];
        }
      }
    }
  }

  /** The heap yields each variable 1..n exactly once, in strictly
      descending `(freq, var)` order. */
  lemma {:induction false} PopOrderRanked(freq: seq<nat>, n: nat)
    requires n < |freq|
    ensures Ranked(freq, PopOrder(freq, n))
    ensures forall i, j :: 0 <= i < j < n ==> PopOrder(freq, n)[i] != PopOrder(freq, n)[j]
  {
    if n > 0 {
      PopOrderRanked(freq, n - 1);
      InsertRanked(freq, n, PopOrder(freq, n - 1));
    }
  }

  /** The frequency table `frequent_vars` builds: slot v counts the
      literals of variable v. */
  function FreqTable(problem: Problem): (freq: seq<nat>)
    ensures |freq| == problem.varCount + 1
  {
    seq(problem.varCount + 1, v requires 0 <= v <= problem.varCount => Count(Flatten(problem.clauses), v))
  }

  /** `frequent_vars` as the sequence its iterator yields: every variable,
      most frequent first, ties broken towards the larger variable. */
  function FrequentVars(problem: Problem): (r: Result<seq<Var>>)
    ensures r.Ok? <==> InTable(Flatten(problem.clauses), problem.varCount)
    ensures r.Ok? ==> |r.value| == problem.varCount
    ensures r.Ok? ==> VarsOf(FreqTable(problem), r.value) && Ranked(FreqTable(problem), r.value)
    ensures r.Ok? ==> forall x :: x in r.value <==> 1 <= x <= problem.varCount
  {
    if !InTable(Flatten(problem.clauses), problem.varCount) then Err("zero literal or index out of bounds")
    else
      PopOrderRanked(FreqTable(problem), problem.varCount);
      Ok(PopOrder(FreqTable(problem), problem.varCount))
  }

  /** The counting loop computes the table. */
  lemma FrequenciesTable(problem: Problem, freq: seq<nat>)
    requires |freq| == problem.varCount + 1
    requires forall v :: 0 <= v <= problem.varCount ==> freq[v] == Count(Flatten(problem.clauses), v)
    ensures freq == FreqTable(problem)
  {
  }

  // ---------------------------------------------------------------------
  // Cubes

  type Cube = seq<Lit>

  function Pow2(k: nat): (p: nat)
    ensures p >= 1
  {
    if k == 0 then 1 else 2 * Pow2(k - 1)
  }

  /** Every cube with literal `l` pushed on its end. */
  function Extend(cs: seq<Cube>, l: Lit): (r: seq<Cube>)
    ensures |r| == |cs|
    decreases |cs|
  {
    if |cs| == 0 then [] else [cs[0] + [l]] + Extend(cs[1..], l)
  }

  lemma {:induction false} ExtendIndex(cs: seq<Cube>, l: Lit, i: nat)
    requires i < |cs|
    ensures Extend(cs, l)[i] == cs[i] + [l]
    decreases |cs|
  {
    ConsTail(cs[0] + [l], Extend(cs[1..], l));
    if i > 0 {
      ExtendIndex(cs[1..], l, i - 1);
      ConsIndex(cs[0] + [l], Extend(cs[1..], l), i);
    }
  }

  /** Both halves of n fit the remaining variables. */
  lemma HalvesFit(vars: seq<Var>, n: nat)
    requires 2 <= n <= Pow2(|vars|)
    ensures |vars| > 0
    ensures 1 <= n / 2 <= Pow2(|vars| - 1) && 1 <= n - n / 2 <= Pow2(|vars| - 1)
  {
    assert |vars| > 0;
    assert Pow2(|vars|) == 2 * Pow2(|vars| - 1);
  }

  /** `cubes(vars, n)` once its assertion holds: half of the cubes (rounded
      down) over the remaining variables with `vars[0]` pushed, the other
      half with `-vars[0]`. */
  function CubesOf(vars: seq<Var>, n: nat): (cs: seq<Cube>)
    requires n <= Pow2(|vars|)
    ensures |cs| == n
    decreases |vars|
  {
    if n == 0 then []
    else if n == 1 then [[]]
    else
      HalvesFit(vars, n);
      var m := n / 2;
      Extend(CubesOf(vars[1..], m), vars[0]) + Extend(CubesOf(vars[1..], n - m), -(vars[0] as int))
  }

  /** `cubes`: the assertion `n <= 2^|vars|` is a panic. */
  function Cubes(vars: seq<Var>, n: nat): (r: Result<seq<Cube>>)
    ensures r.Ok? <==> n <= Pow2(|vars|)
    ensures r.Ok? ==> |r.value| == n
  {
    if n > Pow2(|vars|) then Err("assertion failed") else Ok(CubesOf(vars, n))
  }

  predicate EndsWith(c: Cube, l: Lit)
  {
    |c| > 0 && c[|c| - 1] == l
  }

  /** The step of `cubes`: the first part ends with `v`, the second with `w`. */
  lemma EndsStep(a: seq<Cube>, b: seq<Cube>, v: Lit, w: Lit, cs: seq<Cube>)
    requires cs == Extend(a, v) + Extend(b, w)
    ensures forall i :: 0 <= i < |a| ==> EndsWith(cs[i], v)
    ensures forall i :: |a| <= i < |cs| ==> EndsWith(cs[i], w)
  {
    forall i | 0 <= i < |a|
      ensures EndsWith(cs[i], v)
    {
      ExtendIndex(a, v, i);
    }
    forall i | |a| <= i < |cs|
      ensures EndsWith(cs[i], w)
    {
      ExtendIndex(b, w, i - |a|);
    }
  }

  /** The first n/2 cubes end with `vars[0]`, the others with `-vars[0]`. */
  lemma CubesEnds(vars: seq<Var>, n: nat)
    requires 2 <= n <= Pow2(|vars|)
    ensures |vars| > 0
    ensures forall i :: 0 <= i < n / 2 ==> EndsWith(CubesOf(vars, n)[i], vars[0])
    ensures forall i :: n / 2 <= i < n ==> EndsWith(CubesOf(vars, n)[i], -(vars[0] as int))
  {
    CubesUnfold(vars, n);
    var cs := CubesOf(vars, n);
    var a := CubesOf(vars[1..], n / 2);
    var b := CubesOf(vars[1..], n - n / 2);
    assert |a| == n / 2 && |cs| == n;
    EndsStep(a, b, vars[0], -(vars[0] as int), cs);
  }

  /** One level of the recursion of `cubes`. */
  lemma CubesUnfold(vars: seq<Var>, n: nat)
    requires 2 <= n <= Pow2(|vars|)
    ensures |vars| > 0 && n / 2 <= Pow2(|vars| - 1) && n - n / 2 <= Pow2(|vars| - 1)
    ensures CubesOf(vars, n)
      == Extend(CubesOf(vars[1..], n / 2), vars[0]) + Extend(CubesOf(vars[1..], n - n / 2), -(vars[0] as int))
  {
    HalvesFit(vars, n);
  }

  lemma CubesBase(vars: seq<Var>)
    ensures CubesOf(vars, 0) == [] && CubesOf(vars, 1) == [[]]
  {
  }

  /** Every literal of every cube is `v` or `-v` for some `v` in `vars`. */
  predicate LitsOver(cs: seq<Cube>, vars: seq<Var>)
  {
    forall i, j :: 0 <= i < |cs| && 0 <= j < |cs[i]| ==> Abs(cs[i][j]) in vars
  }

  lemma ExtendOver(cs: seq<Cube>, l: Lit, vars: seq<Var>)
    requires LitsOver(cs, vars) && Abs(l) in vars
    ensures LitsOver(Extend(cs, l), vars)
  {
    forall i, j | 0 <= i < |cs| && 0 <= j < |Extend(cs, l)[i]|
      ensures Abs(Extend(cs, l)[i][j]) in vars
    {
      ExtendIndex(cs, l, i);
    }
  }

  lemma AppendOver(a: seq<Cube>, b: seq<Cube>, vars: seq<Var>)
    requires LitsOver(a, vars) && LitsOver(b, vars)
    ensures LitsOver(a + b, vars)
  {
  }

  lemma TailOver(cs: seq<Cube>, vars: seq<Var>)
    requires |vars| > 0 && LitsOver(cs, vars[1..])
    ensures LitsOver(cs, vars)
  {
    forall i, j | 0 <= i < |cs| && 0 <= j < |cs[i]|
      ensures Abs(cs[i][j]) in vars
    {
      var k :| 0 <= k < |vars| - 1 && vars[1..][k] == Abs(cs[i][j]);
      assert vars[k + 1] == Abs(cs[i][j]);
    }
  }

  /** The step of `cubes` keeps every literal over the variables. */
  lemma OverStep(a: seq<Cube>, b: seq<Cube>, vars: seq<Var>)
    requires |vars| > 0 && LitsOver(a, vars[1..]) && LitsOver(b, vars[1..])
    ensures LitsOver(Extend(a, vars[0]) + Extend(b, -(vars[0] as int)), vars)
  {
    var v: int := vars[0];
    assert Abs(v) in vars && Abs(-v) in vars;
    TailOver(a, vars);
    TailOver(b, vars);
    ExtendOver(a, v, vars);
    ExtendOver(b, -v, vars);
    AppendOver(Extend(a, v), Extend(b, -v), vars);
  }

  /** Every literal of a cube is `v` or `-v` for a variable `v` of `vars`. */
  lemma {:induction false} CubeVars(vars: seq<Var>, n: nat)
    requires n <= Pow2(|vars|)
    ensures LitsOver(CubesOf(vars, n), vars)
    decreases |vars|
  {
    if n >= 2 {
      CubesUnfold(vars, n);
      CubeVars(vars[1..], n / 2);
      CubeVars(vars[1..], n - n / 2);
      OverStep(CubesOf(vars[1..], n / 2), CubesOf(vars[1..], n - n / 2), vars);
    }
  }

  // ---------------------------------------------------------------------
  // The cubes partition the assignments

  predicate CubeTrue(val: seq<bool>, cube: Cube)
  {
    forall j :: 0 <= j < |cube| ==> LitTrue(val, cube[j])
  }

  /** How many cubes the valuation satisfies. */
  function SatCount(val: seq<bool>, cs: seq<Cube>): nat
    decreases |cs|
  {
    if |cs| == 0 then 0 else (if CubeTrue(val, cs[0]) then 1 else 0) + SatCount(val, cs[1..])
  }

  lemma {:induction false} SatCountAppend(val: seq<bool>, a: seq<Cube>, b: seq<Cube>)
    ensures SatCount(val, a + b) == SatCount(val, a) + SatCount(val, b)
    decreases |a|
  {
    if |a| == 0 {
      EmptyAppend(a, b);
    } else {
      TailOfAppend(a, b);
      SatCountAppend(val, a[1..], b);
    }
  }

  lemma CubeTrueSnoc(val: seq<bool>, c: Cube, l: Lit)
    ensures CubeTrue(val, c + [l]) <==> CubeTrue(val, c) && LitTrue(val, l)
  {
    var e := c + [l];
    assert e[|c|] == l;
    assert forall j :: 0 <= j < |c| ==> e[j] == c[j];
  }

  lemma {:induction false} SatCountExtend(val: seq<bool>, cs: seq<Cube>, l: Lit)
    ensures SatCount(val, Extend(cs, l)) == if LitTrue(val, l) then SatCount(val, cs) else 0
    decreases |cs|
  {
    if |cs| > 0 {
      ConsTail(cs[0] + [l], Extend(cs[1..], l));
      CubeTrueSnoc(val, cs[0], l);
      SatCountExtend(val, cs[1..], l);
    }
  }

  /** Variables the valuation gives a value to. */
  predicate Valued(val: seq<bool>, vars: seq<Var>)
  {
    forall k :: 0 <= k < |vars| ==> 1 <= vars[k] < |val|
  }

  lemma ValuedTail(val: seq<bool>, vars: seq<Var>)
    requires |vars| > 0 && Valued(val, vars)
    ensures Valued(val, vars[1..])
  {
  }

  /** A valuation gives a valued variable exactly one of its two literals. */
  lemma OneOfTwo(val: seq<bool>, v: int)
    requires 1 <= v < |val|
    ensures LitTrue(val, v) <==> !LitTrue(val, -v)
  {
  }

  /** If each half has exactly one satisfied cube, pushing `v` on the
      first half and `-v` on the second leaves exactly one. */
  lemma ExactlyOneSplit(val: seq<bool>, a: seq<Cube>, b: seq<Cube>, v: int)
    requires 1 <= v < |val| && SatCount(val, a) == 1 && SatCount(val, b) == 1
    ensures SatCount(val, Extend(a, v) + Extend(b, -v)) == 1
  {
    SatCountAppend(val, Extend(a, v), Extend(b, -v));
    SatCountExtend(val, a, v);
    SatCountExtend(val, b, -v);
    OneOfTwo(val, v);
  }

  /** The single empty cube is satisfied by every valuation. */
  lemma OneCube(val: seq<bool>, vars: seq<Var>)
    ensures SatCount(val, CubesOf(vars, 1)) == 1
  {
    var none: Cube := [];
    ConsTail(none, []);
    assert CubeTrue(val, none);
  }

  /** Every valuation of the chosen variables satisfies exactly one cube. */
  lemma {:induction false} ExactlyOneCube(val: seq<bool>, vars: seq<Var>, n: nat)
    requires 1 <= n <= Pow2(|vars|) && Valued(val, vars)
    ensures SatCount(val, CubesOf(vars, n)) == 1
    decreases |vars|
  {
    if n == 1 {
      OneCube(val, vars);
    } else {
      var rest := vars[1..];
      var m := n / 2;
      HalvesFit(vars, n);
      ValuedTail(val, vars);
      ExactlyOneCube(val, rest, m);
      ExactlyOneCube(val, rest, n - m);
      CubesUnfold(vars, n);
      ExactlyOneSplit(val, CubesOf(rest, m), CubesOf(rest, n - m), vars[0]);
    }
  }

  /** A positive count names a satisfied cube. */
  lemma {:induction false} SatisfiedCube(val: seq<bool>, cs: seq<Cube>) returns (i: nat)
    requires SatCount(val, cs) > 0
    ensures i < |cs| && CubeTrue(val, cs[i])
    decreases |cs|
  {
    if CubeTrue(val, cs[0]) {
      i := 0;
    } else {
      var k := SatisfiedCube(val, cs[1..]);
      i := k + 1;
    }
  }

  /** A count of at most one leaves no room for two satisfied cubes. */
  lemma {:induction false} AtMostOneCube(val: seq<bool>, cs: seq<Cube>, i: nat, j: nat)
    requires SatCount(val, cs) <= 1 && i < |cs| && j < |cs|
    requires CubeTrue(val, cs[i]) && CubeTrue(val, cs[j])
    ensures i == j
    decreases |cs|
  {
    if i > 0 && j > 0 {
      AtMostOneCube(val, cs[1..], i - 1, j - 1);
    } else if i > 0 {
      SatisfiedAfter(val, cs, i);
    } else if j > 0 {
      SatisfiedAfter(val, cs, j);
    }
  }

  lemma {:induction false} SatisfiedAfter(val: seq<bool>, cs: seq<Cube>, i: nat)
    requires 0 < i < |cs| && CubeTrue(val, cs[i])
    ensures SatCount(val, cs[1..]) > 0
    decreases |cs|
  {
    var t := cs[1..];
    if i > 1 {
      assert t[i - 1] == cs[i];
      SatisfiedAfter(val, t, i - 1);
    } else {
      assert t[0] == cs[1];
    }
  }

  // ---------------------------------------------------------------------
  // Subproblems

  /** One unit clause per literal of the cube. */
  function Units(cube: Cube): seq<Clause>
  {
    seq(|cube|, j requires 0 <= j < |cube| => [cube[j]])
  }

  /** The problem once per cube, with that cube's unit clauses appended. */
  function Subproblems(problem: Problem, cubes: seq<Cube>): (r: seq<Problem>)
    ensures |r| == |cubes|
    ensures forall i :: 0 <= i < |r| ==> r[i].varCount == problem.varCount
  {
    seq(|cubes|, i requires 0 <= i < |cubes| => Problem(problem.varCount, problem.clauses + Units(cubes[i])))
  }

  /** A valuation satisfies a subproblem exactly when it satisfies the
      problem and the cube. */
  lemma SubproblemModels(val: seq<bool>, clauses: seq<Clause>, cube: Cube)
    ensures AllClausesTrue(val, clauses + Units(cube)) <==> AllClausesTrue(val, clauses) && CubeTrue(val, cube)
  {
    var all := clauses + Units(cube);
    if AllClausesTrue(val, all) {
      forall i | 0 <= i < |clauses|
        ensures ClauseTrue(val, clauses[i])
      {
        assert all[i] == clauses[i];
      }
      forall j | 0 <= j < |cube|
        ensures LitTrue(val, cube[j])
      {
        assert all[|clauses| + j] == [cube[j]];
        assert ClauseTrue(val, [cube[j]]);
      }
    }
    if AllClausesTrue(val, clauses) && CubeTrue(val, cube) {
      forall i | 0 <= i < |all|
        ensures ClauseTrue(val, all[i])
      {
        if i < |clauses| {
          assert all[i] == clauses[i];
        } else {
          var l := cube[i - |clauses|];
          assert all[i] == [l] && l in [l] && LitTrue(val, l);
        }
      }
    }
  }

  // ---------------------------------------------------------------------
  // Powers of two

  lemma {:induction false} Pow2Monotone(a: nat, b: nat)
    requires a <= b
    ensures Pow2(a) <= Pow2(b)
    decreases b
  {
    if a < b {
      Pow2Monotone(a, b - 1);
    }
  }

  /** There are at least n cubes over n variables. */
  lemma {:induction false} Pow2Above(n: nat)
    ensures n <= Pow2(n)
  {
    if n > 0 {
      Pow2Above(n - 1);
    }
  }

  const U32Size: nat := 0x1_0000_0000
  const USizeSize: nat := 0x1_0000_0000_0000_0000

  lemma {:induction false} Pow2Product(a: nat, b: nat)
    ensures Pow2(a + b) == Pow2(a) * Pow2(b)
    decreases b
  {
    if b > 0 {
      Pow2Product(a, b - 1);
    }
  }

  /** Squaring a power of two doubles its exponent. */
  lemma Pow2Square(k: nat, p: nat)
    requires Pow2(k) == p
    ensures Pow2(2 * k) == p * p
  {
    Pow2Product(k, k);
  }

  lemma Pow2Of64()
    ensures Pow2(64) == USizeSize
  {
    assert Pow2(8) == 0x100;
    Pow2Square(8, 0x100);
    Pow2Square(16, 0x1_0000);
    Pow2Square(32, U32Size);
  }

  /** From the 64th power on, `2usize.pow` wraps to zero. */
  lemma {:induction false} Pow2Wraps(k: nat)
    requires 64 <= k
    ensures Pow2(k) % USizeSize == 0
    decreases k
  {
    if k == 64 {
      Pow2Of64();
    } else {
      Pow2Wraps(k - 1);
      var q := Pow2(k - 1) / USizeSize;
      assert Pow2(k - 1) == USizeSize * q;
      assert Pow2(k) == USizeSize * (2 * q);
    }
  }

  /** `2usize.pow(len as u32)` in a release build: the length truncated
      to 32 bits, the power wrapped to 64 bits. */
  function WrappedPow2(len: nat): (p: nat)
    ensures p <= Pow2(len)
  {
    Pow2Monotone(len % U32Size, len);
    Pow2(len % U32Size) % USizeSize
  }

  // ---------------------------------------------------------------------
  // split

  /** The first `n` variables the frequency heap yields. */
  function Leading(order: seq<Var>, n: nat): (vars: seq<Var>)
    ensures |vars| == Min(n, |order|)
    ensures forall k :: 0 <= k < |vars| ==> vars[k] == order[k]
  {
    order[..Min(n, |order|)]
  }

  /** `split` as written: the assertion of `cubes` on the leading variables
      is a panic, and it fails whenever n exceeds 2^|vars| or the power
      wraps. Otherwise n subproblems. */
  function SplitAsWritten(problem: Problem, n: nat): (r: Result<seq<Problem>>)
    ensures r.Ok? ==> |r.value| == n
  {
    var order :- FrequentVars(problem);
    var vars := Leading(order, n);
    if n > WrappedPow2(|vars|) then Err("assertion failed: n <= 2usize.pow(vars.len() as u32)")
    else Ok(Subproblems(problem, CubesOf(vars, n)))
  }

  /** How many subproblems the corrected `split` makes: n, or every cube
      over the leading variables when there are fewer. */
  function SplitCount(varCount: nat, n: nat): nat
  {
    Min(n, Pow2(Min(n, varCount)))
  }

  /** `split` with the count capped at 2^|vars|: never panics on a
      well-indexed problem. */
  function Split(problem: Problem, n: nat): (r: Result<seq<Problem>>)
    ensures r.Ok? <==> InTable(Flatten(problem.clauses), problem.varCount)
    ensures r.Ok? ==> |r.value| == SplitCount(problem.varCount, n)
    ensures r.Ok? ==> forall i :: 0 <= i < |r.value| ==> r.value[i].varCount == problem.varCount
  {
    var order :- FrequentVars(problem);
    var vars := Leading(order, n);
    Ok(Subproblems(problem, CubesOf(vars, Min(n, Pow2(|vars|)))))
  }

  /** The leading variables are variables of the problem, so every total
      valuation gives them a value. */
  lemma LeadingValued(problem: Problem, n: nat, val: seq<bool>)
    requires FrequentVars(problem).Ok? && IsValuation(val, problem.varCount)
    ensures Valued(val, Leading(FrequentVars(problem).value, n))
  {
    var order := FrequentVars(problem).value;
    var vars := Leading(order, n);
    forall k | 0 <= k < |vars|
      ensures 1 <= vars[k] < |val|
    {
      assert vars[k] == order[k] && order[k] in order;
    }
  }

  /** The cubes the corrected `split` builds its subproblems from. */
  function SplitCubes(problem: Problem, n: nat): (cs: seq<Cube>)
    requires FrequentVars(problem).Ok?
  {
    var vars := Leading(FrequentVars(problem).value, n);
    CubesOf(vars, Min(n, Pow2(|vars|)))
  }

  /** A model of the problem is a model of some subproblem. */
  lemma SplitKeepsModel(problem: Problem, n: nat, val: seq<bool>) returns (i: nat)
    requires n >= 1 && Split(problem, n).Ok?
    requires IsValuation(val, problem.varCount) && AllClausesTrue(val, problem.clauses)
    ensures i < |Split(problem, n).value| && AllClausesTrue(val, Split(problem, n).value[i].clauses)
  {
    var vars := Leading(FrequentVars(problem).value, n);
    var cs := SplitCubes(problem, n);
    assert Split(problem, n).value == Subproblems(problem, cs);
    LeadingValued(problem, n, val);
    ExactlyOneCube(val, vars, Min(n, Pow2(|vars|)));
    i := SatisfiedCube(val, cs);
    SubproblemModels(val, problem.clauses, cs[i]);
  }

  /** A model of a subproblem is a model of the problem, and of no other
      subproblem. */
  lemma SplitModelUnique(problem: Problem, n: nat, val: seq<bool>, i: nat)
    requires Split(problem, n).Ok? && i < |Split(problem, n).value|
    requires IsValuation(val, problem.varCount)
    requires AllClausesTrue(val, Split(problem, n).value[i].clauses)
    ensures AllClausesTrue(val, problem.clauses)
    ensures forall j :: 0 <= j < |Split(problem, n).value| && AllClausesTrue(val, Split(problem, n).value[j].clauses) ==> j == i
  {
    var subs := Split(problem, n).value;
    var vars := Leading(FrequentVars(problem).value, n);
    var cs := SplitCubes(problem, n);
    assert subs == Subproblems(problem, cs);
    SubproblemModels(val, problem.clauses, cs[i]);
    LeadingValued(problem, n, val);
    ExactlyOneCube(val, vars, Min(n, Pow2(|vars|)));
    forall j | 0 <= j < |subs| && AllClausesTrue(val, subs[j].clauses)
      ensures j == i
    {
      SubproblemModels(val, problem.clauses, cs[j]);
      AtMostOneCube(val, cs, i, j);
    }
  }

  /** The promise of `split`: the problem is satisfiable exactly when some
      subproblem is (for n >= 1; n = 0 yields no subproblems at all). */
  lemma SplitSatIff(problem: Problem, n: nat)
    requires n >= 1 && Split(problem, n).Ok?
    ensures Satisfiable(problem) <==>
      exists i :: 0 <= i < |Split(problem, n).value| && Satisfiable(Split(problem, n).value[i])
  {
    var subs := Split(problem, n).value;
    if Satisfiable(problem) {
      var val :| IsValuation(val, problem.varCount) && AllClausesTrue(val, problem.clauses);
      var i := SplitKeepsModel(problem, n, val);
      assert IsValuation(val, subs[i].varCount);
      assert Satisfiable(subs[i]);
    }
    if exists i :: 0 <= i < |subs| && Satisfiable(subs[i]) {
      var i :| 0 <= i < |subs| && Satisfiable(subs[i]);
      var val :| IsValuation(val, subs[i].varCount) && AllClausesTrue(val, subs[i].clauses);
      SplitModelUnique(problem, n, val, i);
    }
  }

  /** With n = 0 there are no subproblems, so `solve` reports Unsat. */
  lemma SplitNone(problem: Problem)
    requires InTable(Flatten(problem.clauses), problem.varCount)
    ensures SplitAsWritten(problem, 0) == Split(problem, 0) == Ok([])
  {
  }

  /** Wherever `split` as written does not panic it agrees with the
      corrected one, and it panics exactly when n exceeds the wrapped power. */
  lemma SplitAgrees(problem: Problem, n: nat)
    ensures SplitAsWritten(problem, n).Ok? ==> Split(problem, n) == SplitAsWritten(problem, n)
    ensures FrequentVars(problem).Ok? ==>
      (SplitAsWritten(problem, n).Err? <==> n > WrappedPow2(Min(n, problem.varCount)))
  {
  }

  // ---------------------------------------------------------------------
  // The panics of `split` as written

  /** With fewer than 64 variables and more than 2^V requested subproblems,
      the assertion of `cubes` fails; capped, there are 2^V subproblems. */
  lemma SplitPanicsOnFewVars(problem: Problem, n: nat)
    requires InTable(Flatten(problem.clauses), problem.varCount)
    requires problem.varCount < 64 && n > Pow2(problem.varCount)
    ensures SplitAsWritten(problem, n).Err?
    ensures Split(problem, n).Ok? && |Split(problem, n).value| == Pow2(problem.varCount)
  {
    var v := problem.varCount;
    Pow2Above(v);
    Pow2Monotone(v, 63);
    Pow2Product(63, 1);
    Pow2Of64();
    assert Pow2(v) < USizeSize;
    assert WrappedPow2(v) == Pow2(v);
    SplitAgrees(problem, n);
  }

  /** One variable, four threads: a panic where two subproblems would do. */
  lemma OneVarFourThreads()
    ensures SplitAsWritten(Problem(1, [[1]]), 4).Err?
    ensures |Split(Problem(1, [[1]]), 4).value| == 2
  {
    var p := Problem(1, [[1]]);
    assert Flatten(p.clauses) == [1];
    SplitPanicsOnFewVars(p, 4);
  }

  /** With at least 64 leading variables `2usize.pow` wraps to 0 (a debug
      build panics on the overflow itself), so every n >= 64 panics. */
  lemma SplitPanicsOnManyVars(problem: Problem, n: nat)
    requires InTable(Flatten(problem.clauses), problem.varCount)
    requires 64 <= n <= problem.varCount < U32Size
    ensures SplitAsWritten(problem, n).Err?
    ensures Split(problem, n).Ok? && |Split(problem, n).value| == n
  {
    assert Min(n, problem.varCount) == n;
    assert WrappedPow2(n) == 0 by {
      Pow2Wraps(n);
      assert n % U32Size == n;
    }
    assert SplitCount(problem.varCount, n) == n by {
      Pow2Above(n);
    }
    SplitAgrees(problem, n);
  }

  // ---------------------------------------------------------------------
  // solve

  /** The receiving loop of `solve`: the first `Sat` to reach the channel
      is the answer, and `Unsat` when none does. `arrivals` is the order in
      which the threads' solutions arrive, which the scheduler decides. */
  function FirstSat(arrivals: seq<Solution>): (r: Solution)
    ensures r.Sat? <==> exists i :: 0 <= i < |arrivals| && arrivals[i].Sat?
    ensures r.Sat? ==> r in arrivals
    ensures !r.Sat? ==> r == Unsat
    decreases |arrivals|
  {
    if |arrivals| == 0 then Unsat
    else if arrivals[0].Sat? then arrivals[0]
    else FirstSat(arrivals[1..])
  }

  /** Some arrival is `Sat` exactly when some answer is, in whatever order
      the answers arrive. */
  lemma SatArrives(answers: seq<Solution>, arrivals: seq<Solution>)
    requires multiset(arrivals) == multiset(answers)
    ensures (exists i :: 0 <= i < |arrivals| && arrivals[i].Sat?)
        <==> (exists j :: 0 <= j < |answers| && answers[j].Sat?)
  {
    if i :| 0 <= i < |arrivals| && arrivals[i].Sat? {
      assert arrivals[i] in multiset(answers);
      var j :| 0 <= j < |answers| && answers[j] == arrivals[i];
    }
    if j :| 0 <= j < |answers| && answers[j].Sat? {
      assert answers[j] in multiset(arrivals);
      var i :| 0 <= i < |arrivals| && arrivals[i] == answers[j];
    }
  }

  /** `solve` answers `Sat` exactly when the problem is satisfiable,
      provided every thread answers `Sat` exactly when its subproblem is
      satisfiable, whatever the order of arrival. */
  lemma SolveSatIff(problem: Problem, n: nat, answers: seq<Solution>, arrivals: seq<Solution>)
    requires n >= 1 && Split(problem, n).Ok?
    requires |answers| == |Split(problem, n).value|
    requires forall i :: 0 <= i < |answers| ==>
      (answers[i].Sat? <==> Satisfiable(Split(problem, n).value[i]))
    requires multiset(arrivals) == multiset(answers)
    ensures FirstSat(arrivals).Sat? <==> Satisfiable(problem)
  {
    var subs := Split(problem, n).value;
    SplitSatIff(problem, n);
    SatArrives(answers, arrivals);
    if Satisfiable(problem) {
      var i :| 0 <= i < |subs| && Satisfiable(subs[i]);
      assert answers[i].Sat?;
    } else {
      forall j | 0 <= j < |answers|
        ensures !answers[j].Sat?
      {
        assert !Satisfiable(subs[j]);
      }
    }
  }
}
