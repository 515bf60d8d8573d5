/** The reference discrete Fourier transform that the in-place FFTs are tested
    against, polynomial evaluation, and the partial transforms of decimated
    subsequences that the FFT stages compute. */
module Fourier {
  import opened Field
  import opened BitReversal
  import opened Arith

  /** `w` is a primitive `n`-th root of unity: `w^n = 1` and, once the order is at
      least two, `w^(n/2) = -1`. */
  predicate IsPrimitiveRoot(w: Elem, n: nat) {
    Pow(w, n) == 1 && (n >= 2 ==> Pow(w, n / 2) == Neg(1))
  }

  // ---------------------------------------------------------------------
  // The reference transform

  /** The first `count` terms of the sum for output `row` of the reference
      transform: `x[col] * w^((row * col) mod |x|)` for `col < count`, in the
      order the reference adds them. */
  function DftSum(x: seq<Elem>, w: Elem, row: nat, count: nat): Elem
    requires count <= |x|
    decreases count
  {
    if count == 0 then 0
    else Add(DftSum(x, w, row, count - 1), Mul(x[count - 1], Pow(w, (row * (count - 1)) % |x|)))
  }

  /** The (non-unitary) transform of `x` by the DFT matrix of the root `w`. */
  function Dft(x: seq<Elem>, w: Elem): (r: seq<Elem>)
    ensures |r| == |x|
  {
    seq(|x|, row requires 0 <= row < |x| => DftSum(x, w, row, |x|))
  }

  /** The first `count` terms of the polynomial with coefficients `coeffs`
      (lowest degree first) evaluated at `z`. */
  function EvaluateUpTo(coeffs: seq<Elem>, z: Elem, count: nat): Elem
    requires count <= |coeffs|
    decreases count
  {
    if count == 0 then 0
    else Add(EvaluateUpTo(coeffs, z, count - 1), Mul(coeffs[count - 1], Pow(z, count - 1)))
  }

  function Evaluate(coeffs: seq<Elem>, z: Elem): Elem {
    EvaluateUpTo(coeffs, z, |coeffs|)
  }

  lemma {:induction false} DftSumIsEvaluation(x: seq<Elem>, w: Elem, row: nat, count: nat)
    requires count <= |x| && Pow(w, |x|) == 1
    ensures DftSum(x, w, row, count) == EvaluateUpTo(x, Pow(w, row), count)
    decreases count
  {
    if count > 0 {
      var col := count - 1;
      DftSumIsEvaluation(x, w, row, col);
      PowMod(w, |x|, row * col);
      PowMul(w, row, col);
    }
  }

  /** Output `row` of the transform is the coefficient polynomial evaluated at
      `w^row`. */
  lemma DftIsEvaluation(x: seq<Elem>, w: Elem, row: nat)
    requires row < |x| && Pow(w, |x|) == 1
    ensures Dft(x, w)[row] == Evaluate(x, Pow(w, row))
  {
    DftSumIsEvaluation(x, w, row, |x|);
  }

  /** The reference transform as the tests compute it: for every row, the sum
      over the columns of `input[col] * powers[(row * col) mod n]`, where
      `powers` holds the first `n` powers of the root. */
  method DftByMatrix(input: seq<Elem>, powers: seq<Elem>, ghost w: Elem) returns (output: seq<Elem>)
    requires |powers| >= |input| && forall e :: 0 <= e < |input| ==> powers[e] == Pow(w, e)
    ensures output == Dft(input, w)
  {
    var n := |input|;
    output := [];
    var row := 0;
    while row < n
      invariant row <= n && |output| == row
      invariant forall k :: 0 <= k < row ==> output[k] == DftSum(input, w, k, n)
    {
      var sum: Elem := 0;
      var col := 0;
      while col < n
        invariant col <= n && sum == DftSum(input, w, row, col)
      {
        var i := (row * col) % n;
        sum := Add(sum, Mul(input[col], powers[i]));
        col := col + 1;
      }
      output := output + [sum];
      row := row + 1;
    }
  }

  // ---------------------------------------------------------------------
  // Decimation: the subsequences a radix-2 step splits a transform into

  /** The elements of `y` at even positions. */
  function Evens<T>(y: seq<T>): (r: seq<T>)
    ensures |r| == |y| / 2
    ensures forall i :: 0 <= i < |r| ==> r[i] == y[2 * i]
  {
    seq(|y| / 2, i requires 0 <= i < |y| / 2 => y[2 * i])
  }

  /** The elements of `y` at odd positions. */
  function Odds<T>(y: seq<T>): (r: seq<T>)
    ensures |r| == |y| / 2
    ensures forall i :: 0 <= i < |r| ==> r[i] == y[2 * i + 1]
  {
    seq(|y| / 2, i requires 0 <= i < |y| / 2 => y[2 * i + 1])
  }

  /** The elements `x[offset], x[offset + stride], x[offset + 2 * stride], ...`:
      the low bit of `offset` picks the even or the odd elements of `x`, and the
      remaining bits pick among those. */
  function Decimate<T>(x: seq<T>, offset: nat, stride: nat): seq<T>
    requires IsPowerOfTwo(stride) && offset < stride
    decreases stride
  {
    if stride == 1 then x
    else Decimate(if offset % 2 == 0 then Evens(x) else Odds(x), offset / 2, stride / 2)
  }

  /** A decimation of `count * stride` elements has `count` elements. */
  lemma {:induction false} DecimateLength<T>(x: seq<T>, offset: nat, stride: nat, count: nat)
    requires IsPowerOfTwo(stride) && offset < stride && count * stride == |x|
    ensures |Decimate(x, offset, stride)| == count
    decreases stride
  {
    if stride == 1 {
      assert count * stride == count;
    } else {
      var half := stride / 2;
      var y := if offset % 2 == 0 then Evens(x) else Odds(x);
      assert |y| == count * half by {
        assert stride == 2 * half;
        MulOfDouble(count, half);
      }
      DecimateLength(y, offset / 2, half, count);
    }
  }

  /** Decimating all of `x` by its own length leaves the single element at
      `offset`. */
  lemma {:induction false} DecimateOfWhole<T>(x: seq<T>, offset: nat)
    requires IsPowerOfTwo(|x|) && offset < |x|
    ensures Decimate(x, offset, |x|) == [x[offset]]
    decreases |x|
  {
    if |x| > 1 {
      var k := offset / 2;
      if offset % 2 == 0 {
        var y := Evens(x);
        assert y[k] == x[offset] by {
          assert 2 * k == offset;
        }
        DecimateOfWhole(y, k);
      } else {
        var y := Odds(x);
        assert y[k] == x[offset] by {
          assert 2 * k + 1 == offset;
        }
        DecimateOfWhole(y, k);
      }
    }
  }

  /** Halving the stride again splits a decimation into its even elements (the
      decimation at the same offset) and its odd elements (the decimation at
      `offset + stride`). */
  lemma {:induction false} DecimateSplit<T>(x: seq<T>, offset: nat, stride: nat)
    requires IsPowerOfTwo(stride) && offset < stride
    ensures IsPowerOfTwo(2 * stride) && offset + stride < 2 * stride
    ensures Decimate(x, offset, 2 * stride) == Evens(Decimate(x, offset, stride))
    ensures Decimate(x, offset + stride, 2 * stride) == Odds(Decimate(x, offset, stride))
    decreases stride
  {
    assert (2 * stride) / 2 == stride;
    if stride == 1 {
      assert offset == 0;
    } else {
      var half := stride / 2;
      var y := if offset % 2 == 0 then Evens(x) else Odds(x);
      assert (offset + stride) % 2 == offset % 2 && (offset + stride) / 2 == offset / 2 + half by {
        assert stride == 2 * half;
      }
      DecimateSplit(y, offset / 2, half);
    }
  }

  /** Squaring the point halves the exponent. */
  lemma {:induction false} PowOfSquare(z: Elem, k: nat)
    ensures Pow(Mul(z, z), k) == Pow(z, 2 * k)
    decreases k
  {
    if k > 0 {
      PowOfSquare(z, k - 1);
      assert Pow(z, 2 * k) == Mul(z, Mul(z, Pow(z, 2 * (k - 1))));
      MulAssoc(z, z, Pow(z, 2 * (k - 1)));
    }
  }

  /** The sums behind one step of the even/odd split. */
  lemma CombineSplit(whole: Elem, even: Elem, odd: Elem, c: Elem, evenTerm: Elem, oddTerm: Elem,
                     whole': Elem, even': Elem, odd': Elem)
    requires whole == Add(even, Mul(c, odd))
    requires whole' == Add(Add(whole, evenTerm), Mul(c, oddTerm))
    requires even' == Add(even, evenTerm) && odd' == Add(odd, oddTerm)
    ensures whole' == Add(even', Mul(c, odd'))
  {
    MulAddDistrib(c, odd, oddTerm);
    AddShuffle(even, Mul(c, odd), evenTerm, Mul(c, oddTerm));
  }

  /** The radix-2 split of a polynomial: `p(z) = pe(z^2) + z * po(z^2)`, where `pe`
      and `po` have the even- and odd-degree coefficients of `p`. */
  lemma {:induction false} EvaluateUpToSplit(y: seq<Elem>, z: Elem, k: nat)
    requires 2 * k <= |y|
    ensures EvaluateUpTo(y, z, 2 * k)
         == Add(EvaluateUpTo(Evens(y), Mul(z, z), k), Mul(z, EvaluateUpTo(Odds(y), Mul(z, z), k)))
    decreases k
  {
    var zz := Mul(z, z);
    if k == 0 {
      assert Mul(z, 0) == 0;
    } else {
      var j := k - 1;
      EvaluateUpToSplit(y, z, j);
      var e := Pow(z, 2 * j);
      var evenTerm, oddTerm := Mul(y[2 * j], e), Mul(y[2 * j + 1], e);
      assert EvaluateUpTo(y, z, 2 * k) == Add(Add(EvaluateUpTo(y, z, 2 * j), evenTerm), Mul(z, oddTerm)) by {
        assert Pow(z, 2 * j + 1) == Mul(z, e);
        MulLeftCommute(y[2 * j + 1], z, e);
        assert EvaluateUpTo(y, z, 2 * j + 2) == Add(EvaluateUpTo(y, z, 2 * j + 1), Mul(y[2 * j + 1], Pow(z, 2 * j + 1)));
        assert EvaluateUpTo(y, z, 2 * j + 1) == Add(EvaluateUpTo(y, z, 2 * j), evenTerm);
      }
      assert Pow(zz, j) == e by {
        PowOfSquare(z, j);
      }
      CombineSplit(EvaluateUpTo(y, z, 2 * j), EvaluateUpTo(Evens(y), zz, j), EvaluateUpTo(Odds(y), zz, j),
                   z, evenTerm, oddTerm,
                   EvaluateUpTo(y, z, 2 * k), EvaluateUpTo(Evens(y), zz, k), EvaluateUpTo(Odds(y), zz, k));
    }
  }

  /** The radix-2 butterfly on polynomial values: with `u = pe(z^2)` and
      `v = po(z^2)`, `p(z) = u + z * v` and `p(-z) = u - z * v`. */
  lemma EvaluateButterfly(y: seq<Elem>, z: Elem)
    requires |y| % 2 == 0
    ensures Evaluate(y, z) == Add(Evaluate(Evens(y), Mul(z, z)), Mul(z, Evaluate(Odds(y), Mul(z, z))))
    ensures Evaluate(y, Mul(z, Neg(1))) == Sub(Evaluate(Evens(y), Mul(z, z)), Mul(z, Evaluate(Odds(y), Mul(z, z))))
  {
    var k := |y| / 2;
    var minus := Mul(z, Neg(1));
    EvaluateUpToSplit(y, z, k);
    EvaluateUpToSplit(y, minus, k);
    MulNegOneSquare(z);
    SubIsAddNegated(Evaluate(Evens(y), Mul(z, z)), Evaluate(Odds(y), Mul(z, z)), z);
  }

  /** A single coefficient evaluates to itself. */
  lemma EvaluateSingleton(v: Elem, z: Elem)
    ensures Evaluate([v], z) == v
  {
    assert EvaluateUpTo([v], z, 0) == 0;
  }
}
