/** Distances as the host code stores them in f32 cells: a small non-negative
    integer or +infinity. Every value the engines ever compute is of this form,
    so f32 addition and comparison are exact here and are modelled on these
    extended naturals. */
module Dist {

  datatype Dist = Fin(len: nat) | Inf

  /** f32 addition restricted to these values: anything plus +inf is +inf. */
  function Add(a: Dist, b: Dist): Dist {
    match (a, b)
    case (Fin(x), Fin(y)) => Fin(x + y)
    case _ => Inf
  }

  /** f32 `<` restricted to these values: +inf is never below anything. */
  predicate Less(a: Dist, b: Dist) {
    match (a, b)
    case (Fin(x), Fin(y)) => x < y
    case (Fin(_), Inf) => true
    case (Inf, _) => false
  }

  predicate LessEq(a: Dist, b: Dist) {
    !Less(b, a)
  }

  /** The value a relaxing update `if d < x { x = d }` leaves behind. */
  function Min(a: Dist, b: Dist): Dist {
    if Less(b, a) then b else a
  }

  /** Relaxing a distance through a detour that starts or ends with it changes nothing. */
  lemma MinAbsorbsDetour(a: Dist, b: Dist)
    ensures Min(a, Add(a, b)) == a && Min(a, Add(b, a)) == a
  {
  }

  lemma AddCommutes(a: Dist, b: Dist)
    ensures Add(a, b) == Add(b, a)
  {
  }
}
