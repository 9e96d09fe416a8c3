/** Definitions shared by the other modules. */
module Prelude {
  datatype Option<+T> = None | Some(value: T)

  /** The numbers below `n`. */
  ghost function Below(n: nat): (r: set<nat>)
    ensures forall i: int :: i in r <==> 0 <= i < n
    ensures |r| == n
  {
    if n == 0 then {} else Below(n - 1) + {n - 1}
  }
}
