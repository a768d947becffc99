/** Facts about products and quotients that the solver does not find alone. */
module Arith {

  function Abs(a: int): nat { if a < 0 then -a else a }
  function Max(a: nat, b: nat): nat { if a < b then b else a }
  function Min(a: nat, b: nat): nat { if a < b then a else b }

  lemma MulStrict(a: int, b: int, n: int)
    requires a < b && n >= 0
    ensures a * n + n <= b * n
  {
    assert (b - a - 1) * n >= 0;
  }

  lemma DivUnique(a: int, d: int, q: int, r: int)
    requires d > 0 && a == q * d + r && 0 <= r < d
    ensures a / d == q && a % d == r
  {
    var q' := a / d;
    assert a == q' * d + a % d;
    if q' < q { MulStrict(q', q, d); }
    if q < q' { MulStrict(q, q', d); }
  }

  lemma QuotientBelow(a: int, d: int, n: int)
    requires d > 0 && 0 <= a < n * d
    ensures 0 <= a / d < n
  {
    assert a == a / d * d + a % d;
    if n <= a / d { MulStrict(n - 1, a / d, d); }
  }

  /** C division and remainder by a positive number, which truncate toward zero (section
      6.5.5 of ISO/IEC 9899:2011). */
  function CDiv(a: int, b: int): int
    requires b > 0
  {
    if a >= 0 then a / b else -(-a / b)
  }

  function CRem(a: int, b: int): int
    requires b > 0
  {
    if a >= 0 then a % b else -(-a % b)
  }
}
