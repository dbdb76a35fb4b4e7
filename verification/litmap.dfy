/** Arrays indexed by variables and by literals (src/solver/map.rs).
    A `VarMap` has one slot per variable plus the unused slot 0; a `LitMap`
    stores literal `v` in slot `2v` and literal `-v` in slot `2v - 1`. */
module LitMaps {
  import opened Types

  /** `var_map(n)`: `n + 1` default slots, so variables 1..n index it. */
  function NewVarMap<T>(varCount: nat, default: T): (m: seq<T>)
    ensures |m| == varCount + 1
    ensures forall v :: 0 <= v <= varCount ==> m[v] == default
  {
    seq(varCount + 1, _ => default)
  }

  /** `LitMap::position`. */
  function Position(lit: Lit): (p: nat)
    requires lit != 0
    ensures 1 <= p <= 2 * ToVar(lit)
    ensures (p + 1) / 2 == ToVar(lit)
    ensures p % 2 == 1 <==> lit < 0
  {
    2 * ToVar(lit) - (if lit < 0 then 1 else 0)
  }

  /** The literal stored in slot `p`: the inverse of `Position`. */
  function LitAt(p: nat): (lit: Lit)
    requires p >= 1
    ensures lit != 0
  {
    if p % 2 == 0 then p / 2 else -((p + 1) / 2)
  }

  lemma PositionRoundTrip(lit: Lit)
    requires lit != 0
    ensures LitAt(Position(lit)) == lit
  {
  }

  lemma LitAtRoundTrip(p: nat)
    requires p >= 1
    ensures Position(LitAt(p)) == p
  {
  }

  /** Distinct literals own distinct slots; a literal and its negation own
      the two adjacent slots of their variable. */
  lemma PositionInjective(a: Lit, b: Lit)
    requires a != 0 && b != 0
    ensures Position(a) == Position(b) <==> a == b
    ensures a > 0 ==> Position(-a) + 1 == Position(a)
  {
    PositionRoundTrip(a);
    PositionRoundTrip(b);
  }

  /** `LitMap::new(n)`: `2n + 1` default slots. */
  function NewLitMap<T>(varCount: nat, default: T): (m: seq<T>)
    ensures |m| == 2 * varCount + 1
    ensures forall lit :: lit != 0 && ToVar(lit) <= varCount ==>
      Position(lit) < |m| && m[Position(lit)] == default
  {
    seq(2 * varCount + 1, _ => default)
  }

  predicate InMap<T>(m: seq<T>, lit: Lit)
  {
    lit != 0 && Position(lit) < |m|
  }

  /** `Index<Lit>`. */
  function Get<T>(m: seq<T>, lit: Lit): (x: T)
    requires InMap(m, lit)
  {
    m[Position(lit)]
  }

  /** `IndexMut<Lit>` followed by a write: only the literal's own slot changes. */
  function Put<T>(m: seq<T>, lit: Lit, x: T): (m': seq<T>)
    requires InMap(m, lit)
    ensures |m'| == |m|
    ensures Get(m', lit) == x
    ensures forall other :: InMap(m, other) && other != lit ==> Get(m', other) == Get(m, other)
  {
    PositionRoundTrip(lit);
    var m' := m[Position(lit) := x];
    assert forall other :: InMap(m, other) && other != lit ==> Position(other) != Position(lit) by {
      forall other | InMap(m, other) && other != lit
        ensures Position(other) != Position(lit)
      {
        PositionInjective(other, lit);
      }
    }
    m'
  }
}
