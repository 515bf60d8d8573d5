/** Elements of a two-adic prime field, the `FieldElement<F>` the FFTs work on.
    The modulus is fixed to the 64-bit prime 2^64 - 2^32 + 1; the proofs about
    the transforms use only the ring laws proved below, so they carry over to any
    modulus. */
module Field {

  const P: int := 0xFFFF_FFFF_0000_0001

  /** A field element in canonical form: its residue modulo P. */
  type Elem = x: int | 0 <= x < P

  function Add(a: Elem, b: Elem): Elem { (a + b) % P }

  function Sub(a: Elem, b: Elem): Elem { (a - b) % P }

  function Mul(a: Elem, b: Elem): Elem { (a * b) % P }

  function Neg(a: Elem): Elem { if a == 0 then 0 else P - a }

  /** `a` raised to the power `e`. */
  function Pow(a: Elem, e: nat): Elem
    decreases e
  {
    if e == 0 then 1 else Mul(a, Pow(a, e - 1))
  }

  // ---------------------------------------------------------------------
  // Reduction modulo P commutes with + and *

  lemma ModShift(z: int, k: int)
    ensures (z + k * P) % P == z % P
  {
  }

  lemma ModMulLeft(x: int, y: int)
    ensures ((x % P) * y) % P == (x * y) % P
  {
    var q := x / P;
    assert x == q * P + x % P;
    assert x * y == (x % P) * y + (q * y) * P;
    ModShift((x % P) * y, q * y);
  }

  lemma ModMulRight(x: int, y: int)
    ensures (y * (x % P)) % P == (y * x) % P
  {
    ModMulLeft(x, y);
    assert y * (x % P) == (x % P) * y;
    assert y * x == x * y;
  }

  lemma ModAdd(x: int, y: int)
    ensures ((x % P) + (y % P)) % P == (x + y) % P
  {
    var qx, qy := x / P, y / P;
    assert x + y == (x % P) + (y % P) + (qx + qy) * P;
    ModShift((x % P) + (y % P), qx + qy);
  }

  lemma ModAddLeft(x: int, y: Elem)
    ensures ((x % P) + y) % P == (x + y) % P
  {
    ModAdd(x, y);
  }

  // ---------------------------------------------------------------------
  // Ring laws

  lemma MulAssoc(a: Elem, b: Elem, c: Elem)
    ensures Mul(Mul(a, b), c) == Mul(a, Mul(b, c))
  {
    assert Mul(Mul(a, b), c) == ((a * b) * c) % P by {
      ModMulLeft(a * b, c);
    }
    assert Mul(a, Mul(b, c)) == (a * (b * c)) % P by {
      ModMulRight(b * c, a);
    }
    assert (a * b) * c == a * (b * c);
  }

  lemma MulLeftCommute(a: Elem, b: Elem, c: Elem)
    ensures Mul(a, Mul(b, c)) == Mul(b, Mul(a, c))
  {
    MulAssoc(a, b, c);
    MulAssoc(b, a, c);
    assert Mul(a, b) == Mul(b, a) by {
      assert a * b == b * a;
    }
  }

  lemma MulAddDistrib(a: Elem, b: Elem, c: Elem)
    ensures Mul(a, Add(b, c)) == Add(Mul(a, b), Mul(a, c))
  {
    assert Mul(a, Add(b, c)) == (a * (b + c)) % P by {
      ModMulRight(b + c, a);
    }
    assert Add(Mul(a, b), Mul(a, c)) == (a * b + a * c) % P by {
      ModAdd(a * b, a * c);
    }
    assert a * (b + c) == a * b + a * c;
  }

  /** Regrouping a sum of four terms. */
  lemma AddShuffle(a: Elem, b: Elem, c: Elem, d: Elem)
    ensures Add(Add(Add(a, b), c), d) == Add(Add(a, c), Add(b, d))
  {
    assert Add(Add(a, b), c) == (a + b + c) % P by {
      ModAddLeft(a + b, c);
    }
    assert Add(Add(Add(a, b), c), d) == (a + b + c + d) % P by {
      ModAddLeft(a + b + c, d);
    }
    assert Add(Add(a, c), Add(b, d)) == (a + c + (b + d)) % P by {
      ModAdd(a + c, b + d);
    }
  }

  lemma ModSubRight(a: int, y: int)
    ensures (a - y % P) % P == (a - y) % P
  {
    var q := y / P;
    assert a - y == (a - y % P) + (-q) * P;
    ModShift(a - y % P, -q);
  }

  lemma ModAddRight(a: int, y: int)
    ensures (a + y % P) % P == (a + y) % P
  {
    var q := y / P;
    assert a + y == (a + y % P) + q * P;
    ModShift(a + y % P, q);
  }

  lemma MulNegOneLeft(c: Elem, b: Elem)
    ensures Mul(Mul(c, Neg(1)), b) == (-(c * b)) % P
  {
    assert Neg(1) == P - 1;
    ModMulLeft(c * (P - 1), b);
    assert (c * (P - 1)) * b == -(c * b) + (c * b) * P;
    ModShift(-(c * b), c * b);
  }

  /** Subtracting `c * b` is adding `(c * -1) * b`. */
  lemma SubIsAddNegated(a: Elem, b: Elem, c: Elem)
    ensures Sub(a, Mul(c, b)) == Add(a, Mul(Mul(c, Neg(1)), b))
  {
    assert Add(a, Mul(Mul(c, Neg(1)), b)) == (a + -(c * b)) % P by {
      MulNegOneLeft(c, b);
      ModAddRight(a, -(c * b));
    }
    assert Sub(a, Mul(c, b)) == (a - c * b) % P by {
      ModSubRight(a, c * b);
    }
  }

  lemma MulOne(a: Elem)
    ensures Mul(a, 1) == a
  {
  }

  /** `(-z) * (-z) == z * z`. */
  lemma MulNegOneSquare(z: Elem)
    ensures Mul(Mul(z, Neg(1)), Mul(z, Neg(1))) == Mul(z, z)
  {
    var m := Mul(z, Neg(1));
    var minus := -(z as int);
    assert m == minus % P by {
      MulNegOneLeft(z, 1);
      MulOne(m);
    }
    assert Mul(m, m) == (minus * minus) % P by {
      ModMulLeft(minus, m);
      ModMulRight(minus, minus);
    }
    assert minus * minus == z * z;
  }

  // ---------------------------------------------------------------------
  // Powers

  lemma {:induction false} PowAdd(a: Elem, e1: nat, e2: nat)
    ensures Pow(a, e1 + e2) == Mul(Pow(a, e1), Pow(a, e2))
    decreases e1
  {
    if e1 > 0 {
      var e := e1 - 1;
      PowAdd(a, e, e2);
      assert Pow(a, e1 + e2) == Mul(a, Pow(a, e + e2));
      MulAssoc(a, Pow(a, e), Pow(a, e2));
    }
  }

  lemma {:induction false} PowOfOne(e: nat)
    ensures Pow(1, e) == 1
    decreases e
  {
    if e > 0 {
      PowOfOne(e - 1);
    }
  }

  lemma {:induction false} PowMul(a: Elem, e1: nat, e2: nat)
    ensures Pow(a, e1 * e2) == Pow(Pow(a, e1), e2)
    decreases e2
  {
    if e2 > 0 {
      PowMul(a, e1, e2 - 1);
      assert e1 * e2 == e1 + e1 * (e2 - 1);
      PowAdd(a, e1, e1 * (e2 - 1));
    }
  }

  /** If `a^n == 1`, exponents of `a` only matter modulo `n`. */
  lemma PowPeriodic(a: Elem, n: nat, e: nat, q: nat)
    requires Pow(a, n) == 1
    ensures Pow(a, e + n * q) == Pow(a, e)
  {
    var k := n * q;
    assert Pow(a, k) == 1 by {
      PowMul(a, n, q);
      PowOfOne(q);
    }
    PowAdd(a, e, k);
    MulOne(Pow(a, e));
  }

  lemma PowMod(a: Elem, n: nat, e: nat)
    requires n > 0 && Pow(a, n) == 1
    ensures Pow(a, e % n) == Pow(a, e)
  {
    assert e == e % n + n * (e / n);
    PowPeriodic(a, n, e % n, e / n);
  }
}
