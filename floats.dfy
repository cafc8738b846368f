/**
 * The float values the schedule files produce: finite numbers, written as
 * reals, and the positive infinity that marks an open-ended last bracket.
 */
module Floats {

  datatype Num = Fin(v: real) | Inf

  /** Python's `<=` on these floats. */
  predicate NumLe(x: Num, y: Num) {
    match (x, y)
    case (Fin(a), Fin(b)) => a <= b
    case (_, Inf) => true
    case (Inf, Fin(_)) => false
  }

  /** Python's `<` on these floats. */
  predicate NumLt(x: Num, y: Num) {
    NumLe(x, y) && x != y
  }

  lemma NumLeTotal(x: Num, y: Num)
    ensures NumLe(x, y) || NumLe(y, x)
    ensures NumLe(x, y) && NumLe(y, x) ==> x == y
  {
  }

  lemma NumLeTransitive(x: Num, y: Num, z: Num)
    requires NumLe(x, y) && NumLe(y, z)
    ensures NumLe(x, z)
  {
  }

  lemma NumLeLt(x: Num, y: Num, z: Num)
    requires NumLe(x, y) && NumLt(y, z)
    ensures NumLt(x, z)
  {
  }

  /** `x + y`; infinity absorbs every finite value. */
  function Add(x: Num, y: Num): (r: Num)
    ensures r.Fin? <==> x.Fin? && y.Fin?
  {
    if x.Fin? && y.Fin? then Fin(x.v + y.v) else Inf
  }

  /** `k * x` for a positive constant `k`. */
  function Scale(k: real, x: Num): (r: Num)
    requires k > 0.0
    ensures r.Fin? <==> x.Fin?
  {
    if x.Fin? then Fin(k * x.v) else Inf
  }

  /** `.5 * (x + y)`. */
  function Midpoint(x: Num, y: Num): (r: Num)
    ensures x.Fin? && y.Fin? ==> r.Fin? && r.v == (x.v + y.v) / 2.0
    ensures NumLe(x, y) ==> NumLe(x, r) && NumLe(r, y)
    ensures NumLe(y, x) ==> NumLe(y, r) && NumLe(r, x)
  {
    Scale(0.5, Add(x, y))
  }
}
