/** The engine's value type seen as an extended real: a finite sample value or
    one of the two infinities that the store uses as sentinels (min and max start
    at +INFINITY and -INFINITY; variance and median hold +INFINITY while unknown). */
module ExtReal {

  datatype EReal = NegInf | Fin(r: real) | PosInf

  /** Strict order of the extended reals, as the C `<` orders float infinities. */
  predicate Less(a: EReal, b: EReal) {
    a != b && (a.NegInf? || b.PosInf? || (a.Fin? && b.Fin? && a.r < b.r))
  }

  predicate LessEq(a: EReal, b: EReal) {
    a == b || Less(a, b)
  }

  /** `if (b < a) a = b;` -- the smaller of the two. */
  function Min(a: EReal, b: EReal): (m: EReal)
    ensures m == a || m == b
    ensures LessEq(m, a) && LessEq(m, b)
  {
    if Less(b, a) then b else a
  }

  /** `if (b > a) a = b;` -- the larger of the two. */
  function Max(a: EReal, b: EReal): (m: EReal)
    ensures m == a || m == b
    ensures LessEq(a, m) && LessEq(b, m)
  {
    if Less(a, b) then b else a
  }

}
