/** The Luby restart sequence (src/solver/restart.rs), generated with
    Knuth's recurrence on a pair `(u, v)`: when `v` has reached the lowest
    set bit of `u` (`u & -u`), the pair becomes `(u + 1, 1)`, otherwise `v`
    doubles. Every step yields `base * v`. The `usize` counters of restart.rs are
    far from overflowing for any realistic run; the model is unbounded. */
module Restart {

  predicate IsPowerOfTwo(n: nat)
    decreases n
  {
    n == 1 || (n >= 2 && n % 2 == 0 && IsPowerOfTwo(n / 2))
  }

  /** `u & -u` for positive `u` in two's complement: the largest power of
      two dividing `u`. */
  function LowBit(u: nat): (b: nat)
    requires u >= 1
    ensures IsPowerOfTwo(b) && b <= u
  {
    if u % 2 == 1 then 1 else 2 * LowBit(u / 2)
  }

  datatype Luby = Luby(base: nat, u: nat, v: nat)

  /** `Luby::new`. */
  function NewLuby(base: nat): (l: Luby)
    ensures Valid(l) && l.base == base
  {
    Luby(base, 1, 1)
  }

  /** What every reachable state satisfies: `v` is a power of two no larger
      than `u & -u`. */
  predicate Valid(l: Luby)
  {
    l.u >= 1 && IsPowerOfTwo(l.v) && l.v <= LowBit(l.u)
  }

  /** `next`: the state after the step, and the step's output; the
      sequence never ends. */
  function Next(l: Luby): (r: (Luby, nat))
    requires l.u >= 1
    ensures r.0.u >= 1 && r.0.base == l.base
  {
    var state := if LowBit(l.u) == l.v then Luby(l.base, l.u + 1, 1) else Luby(l.base, l.u, 2 * l.v);
    (state, l.base * l.v)
  }

  /** Each step keeps the state valid, outputs `base` times the power of two
      held before the step, and either doubles `v` or starts the next `u`. */
  lemma NextValid(l: Luby)
    requires Valid(l)
    ensures Valid(Next(l).0) && Next(l).0.base == l.base
    ensures Next(l).1 == l.base * l.v && IsPowerOfTwo(l.v)
    ensures Next(l).0.u == l.u + 1 || (Next(l).0.u == l.u && Next(l).0.v == 2 * l.v)
  {
    if LowBit(l.u) != l.v {
      PowerOfTwoGap(l.v, LowBit(l.u));
    }
  }

  /** Between two different powers of two the smaller one at least doubles. */
  lemma {:induction false} PowerOfTwoGap(a: nat, b: nat)
    requires IsPowerOfTwo(a) && IsPowerOfTwo(b) && a < b
    ensures 2 * a <= b && IsPowerOfTwo(2 * a)
    decreases b
  {
    assert IsPowerOfTwo(2 * a) by {
      assert (2 * a) / 2 == a;
    }
    if a != 1 {
      PowerOfTwoGap(a / 2, b / 2);
    }
  }

  /** The state after `i` steps from `l`. */
  function State(l: Luby, i: nat): (s: Luby)
    requires l.u >= 1
    ensures s.u >= 1 && s.base == l.base
    decreases i
  {
    if i == 0 then l else Next(State(l, i - 1)).0
  }

  /** Every state reachable from a valid one is valid, so every output is
      `base` times a power of two no larger than `u & -u`. */
  lemma {:induction false} StateValid(l: Luby, i: nat)
    requires Valid(l)
    ensures Valid(State(l, i))
    ensures IsPowerOfTwo(State(l, i).v)
    decreases i
  {
    if i > 0 {
      StateValid(l, i - 1);
      NextValid(State(l, i - 1));
    }
  }

  /** The first `n` outputs, starting from state `l`. */
  function Take(l: Luby, n: nat): (out: seq<nat>)
    requires l.u >= 1
    ensures |out| == n
    decreases n
  {
    if n == 0 then [] else [Next(l).1] + Take(Next(l).0, n - 1)
  }

  lemma {:induction false} StateShift(l: Luby, i: nat)
    requires l.u >= 1
    ensures State(Next(l).0, i) == State(l, i + 1)
    decreases i
  {
    if i > 0 {
      StateShift(l, i - 1);
    }
  }

  /** The `i`-th output is `base` times the `v` of the `i`-th state. */
  lemma {:induction false} TakeState(l: Luby, n: nat, i: nat)
    requires l.u >= 1 && i < n
    ensures Take(l, n)[i] == l.base * State(l, i).v
    decreases n
  {
    if i > 0 {
      TakeState(Next(l).0, n - 1, i - 1);
      StateShift(l, i - 1);
    }
  }

  /** Running `a + b` steps is running `a` steps, then `b`. */
  lemma {:induction false} StateAdd(l: Luby, a: nat, b: nat)
    requires l.u >= 1
    ensures State(l, a + b) == State(State(l, a), b)
    decreases b
  {
    if b > 0 {
      StateAdd(l, a, b - 1);
    }
  }

  /** Taking `a + b` outputs is taking `a`, then `b` more from where the
      first `a` steps left off. */
  lemma {:induction false} TakeAdd(l: Luby, a: nat, b: nat)
    requires l.u >= 1
    ensures Take(l, a + b) == Take(l, a) + Take(State(l, a), b)
    decreases a
  {
    if a > 0 {
      TakeAdd(Next(l).0, a - 1, b);
      StateShift(l, a - 1);
    }
  }

  /** Outputs 0 to 4 of the base-1 sequence. */
  lemma LubyChunk0()
    ensures State(Luby(1, 1, 1), 5) == Luby(1, 4, 2)
    ensures Take(Luby(1, 1, 1), 5) == [1, 1, 2, 1, 1]
  {
    assert State(Luby(1, 1, 1), 1) == Luby(1, 2, 1);
    assert State(Luby(1, 1, 1), 2) == Luby(1, 2, 2);
    assert State(Luby(1, 1, 1), 3) == Luby(1, 3, 1);
    assert State(Luby(1, 1, 1), 4) == Luby(1, 4, 1);
    assert State(Luby(1, 1, 1), 5) == Luby(1, 4, 2);
  }

  /** Outputs 5 to 9 of the base-1 sequence. */
  lemma LubyChunk1()
    ensures State(Luby(1, 4, 2), 5) == Luby(1, 7, 1)
    ensures Take(Luby(1, 4, 2), 5) == [2, 4, 1, 1, 2]
  {
    assert State(Luby(1, 4, 2), 1) == Luby(1, 4, 4);
    assert State(Luby(1, 4, 2), 2) == Luby(1, 5, 1);
    assert State(Luby(1, 4, 2), 3) == Luby(1, 6, 1);
    assert State(Luby(1, 4, 2), 4) == Luby(1, 6, 2);
    assert State(Luby(1, 4, 2), 5) == Luby(1, 7, 1);
  }

  /** Outputs 10 to 14 of the base-1 sequence. */
  lemma LubyChunk2()
    ensures State(Luby(1, 7, 1), 5) == Luby(1, 9, 1)
    ensures Take(Luby(1, 7, 1), 5) == [1, 1, 2, 4, 8]
  {
    assert State(Luby(1, 7, 1), 1) == Luby(1, 8, 1);
    assert State(Luby(1, 7, 1), 2) == Luby(1, 8, 2);
    assert State(Luby(1, 7, 1), 3) == Luby(1, 8, 4);
    assert State(Luby(1, 7, 1), 4) == Luby(1, 8, 8);
    assert State(Luby(1, 7, 1), 5) == Luby(1, 9, 1);
  }

  /** Outputs 15 to 19 of the base-1 sequence. */
  lemma LubyChunk3()
    ensures State(Luby(1, 9, 1), 5) == Luby(1, 12, 2)
    ensures Take(Luby(1, 9, 1), 5) == [1, 1, 2, 1, 1]
  {
    assert State(Luby(1, 9, 1), 1) == Luby(1, 10, 1);
    assert State(Luby(1, 9, 1), 2) == Luby(1, 10, 2);
    assert State(Luby(1, 9, 1), 3) == Luby(1, 11, 1);
    assert State(Luby(1, 9, 1), 4) == Luby(1, 12, 1);
    assert State(Luby(1, 9, 1), 5) == Luby(1, 12, 2);
  }

  lemma ConcatTwenty()
    ensures [1, 1, 2, 1, 1] + ([2, 4, 1, 1, 2] + ([1, 1, 2, 4, 8] + [1, 1, 2, 1, 1])) ==
      [1, 1, 2, 1, 1, 2, 4, 1, 1, 2, 1, 1, 2, 4, 8, 1, 1, 2, 1, 1]
  {
  }

  /** The sequence's own test: with base 1 the first twenty restart
      intervals are 1,1,2,1,1,2,4,1,1,2,1,1,2,4,8,1,1,2,1,1. */
  lemma FirstTwenty(l: Luby)
    requires l == NewLuby(1)
    ensures Take(l, 20) == [1, 1, 2, 1, 1, 2, 4, 1, 1, 2, 1, 1, 2, 4, 8, 1, 1, 2, 1, 1]
  {
    LubyChunk0();
    LubyChunk1();
    LubyChunk2();
    LubyChunk3();
    var s5, s10, s15 := Luby(1, 4, 2), Luby(1, 7, 1), Luby(1, 9, 1);
    assert State(l, 5) == s5;
    StateAdd(l, 5, 5);
    assert State(l, 10) == s10;
    StateAdd(l, 10, 5);
    assert State(l, 15) == s15;
    TakeAdd(s10, 5, 5);
    var t10 := Take(s10, 10);
    assert t10 == [1, 1, 2, 4, 8] + [1, 1, 2, 1, 1];
    TakeAdd(s5, 5, 10);
    StateAdd(s5, 5, 0);
    var t5 := Take(s5, 15);
    assert t5 == [2, 4, 1, 1, 2] + t10;
    TakeAdd(l, 5, 15);
    assert Take(l, 20) == [1, 1, 2, 1, 1] + ([2, 4, 1, 1, 2] + ([1, 1, 2, 4, 8] + [1, 1, 2, 1, 1]));
    ConcatTwenty();
  }
}
