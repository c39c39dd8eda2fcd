/** Products, quotients and their order, for proofs that keep away from non-linear arithmetic otherwise. */
module Arithmetic {

  lemma Distribute(x: int, y: int, z: int)
    ensures (x - y) * z == x * z - y * z && (x + y) * z == x * z + y * z
  {
  }

  lemma Scale(x: int, y: int, z: nat)
    requires x <= y
    ensures x * z <= y * z
  {
  }

  lemma Below(x: nat, y: nat, z: nat)
    requires x < y && 0 < z
    ensures x * z < y * z
  {
    Scale(x + 1, y, z);
    Distribute(x, 1, z);
  }

  lemma Quotient(x: nat, d: nat)
    requires 0 < d
    ensures x == x / d * d + x % d
  {
  }

  lemma QuotientIs(x: nat, d: nat, q: nat)
    requires q * d <= x < q * d + d
    ensures x / d == q
  {
    var r := x / d;
    Quotient(x, d);
    if r < q {
      Scale(r + 1, q, d);
      Distribute(r, 1, d);
    } else if q < r {
      Scale(q + 1, r, d);
      Distribute(q, 1, d);
    }
  }

  lemma Multiple(x: nat, d: nat)
    requires 0 < d
    ensures x * d % d == 0 && x * d / d == x
  {
    QuotientIs(x * d, d, x);
    Quotient(x * d, d);
  }
}
