/** Small facts of integer arithmetic, each proved on its own so that the
    solver does not have to rediscover them inside larger proofs. */
module Arith {

  lemma MulNonNegative(a: nat, b: nat)
    ensures a * b >= 0
  {
  }

  lemma MulAtLeastLeft(a: nat, b: nat)
    requires b >= 1
    ensures a * b >= a
  {
    var c: nat := b - 1;
    assert a * b == a * c + a;
  }

  lemma MulOfDouble(x: int, r: int)
    ensures x * (2 * r) == 2 * (x * r)
  {
  }

  /** Regrouping `a` blocks of `2 * half` as `2 * a` blocks of `half`. */
  lemma MulOfHalf(a: nat, d: nat, half: nat, a0: nat, a1: nat)
    requires d == 2 * half && a0 == 2 * a && a1 == a0 + 1
    ensures a * d == a0 * half && a * d + half == a1 * half
  {
  }

  lemma MulSucc(a: int, b: int)
    ensures (a + 1) * b == a * b + b
  {
  }

  lemma MulMonotone(a: nat, b: nat, c: nat)
    requires a <= b
    ensures a * c <= b * c
  {
  }

  /** Euclidean division of `q * d + r` by `d` for `r < d`. */
  lemma DivModOf(q: nat, d: nat, r: nat)
    requires r < d
    ensures (q * d + r) / d == q && (q * d + r) % d == r
  {
    var a := q * d + r;
    var q' := a / d;
    if q' != q {
      var lo, hi := if q' < q then q' else q, if q' < q then q else q';
      MulMonotone(lo + 1, hi, d);
    }
  }

  /** The same, for a `p` already known to be `q * d + r`. */
  lemma DivModAt(p: nat, q: nat, d: nat, r: nat)
    requires p == q * d + r && r < d
    ensures p / d == q && p % d == r
  {
    DivModOf(q, d, r);
  }

  lemma DivModSmall(p: nat, d: nat)
    requires p < d
    ensures p / d == 0 && p % d == p
  {
  }

  lemma DivModDecompose(p: nat, d: nat)
    requires d > 0
    ensures p == p / d * d + p % d && 0 <= p / d && 0 <= p % d < d
  {
  }

  /** Element `r` of block `q`, for `k` blocks of `d`, is below `k * d`. */
  lemma BlockIndex(q: nat, r: nat, d: nat, k: nat)
    requires q < k && r < d
    ensures q * d + r < k * d
  {
    MulMonotone(q + 1, k, d);
  }

  /** An index below `k * d` lies in one of `k` blocks of `d`, and the rest
      of its block is in range too. */
  lemma BlockOf(p: nat, d: nat, k: nat)
    requires p < k * d
    ensures d > 0 && 0 <= p / d < k && 0 <= p % d < d && p % d <= p
    ensures p - p % d + d <= k * d
  {
    var q := p / d;
    if q >= k {
      MulMonotone(k, q, d);
    }
    MulMonotone(q + 1, k, d);
  }
}
