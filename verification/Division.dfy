/** Quotients and remainders, found by naming them. */
module Division {

  lemma Quotient(a: int, b: int, q: int, r: int)
    requires b > 0 && a == b * q + r && 0 <= r < b
    ensures a / b == q
  {
    var d := a / b - q;
    assert b * (a / b) == b * q + b * d;
    if d >= 1 {
      AtLeast(b, d);
    } else if d <= -1 {
      AtLeast(b, -d);
    }
  }

  lemma Divided(a: int, b: int, q: int, r: int)
    requires b > 0 && a == b * q + r && 0 <= r < b
    ensures a / b == q && a % b == r
  {
    Quotient(a, b, q, r);
  }

  lemma AtLeast(b: int, k: int)
    requires b > 0 && k >= 1
    ensures b * k >= b
  {
  }
}
