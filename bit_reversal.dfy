/** Powers of two and the bit-reversal permutation that orders the input of the
    RN transform and the output of the NR transform. */
module BitReversal {
  import opened Arith

  predicate IsPowerOfTwo(n: nat)
    decreases n
  {
    if n <= 1 then n == 1 else n % 2 == 0 && IsPowerOfTwo(n / 2)
  }

  /** The base-2 logarithm of a power of two. */
  function Log2(n: nat): nat
    decreases n
  {
    if n <= 1 then 0 else 1 + Log2(n / 2)
  }

  /** `j` with its lowest log2(size) bits written in the reverse order; the bits
      of `j` above them are ignored. */
  function Reverse(size: nat, j: nat): (r: nat)
    requires IsPowerOfTwo(size)
    ensures r < size
    decreases size
  {
    if size == 1 then 0
    else (if j % 2 == 1 then size / 2 else 0) + Reverse(size / 2, j / 2)
  }

  /** The sequence whose element `i` is the element of `s` at the bit-reversed
      index of `i`. */
  function BitReversePermute<T>(s: seq<T>): (r: seq<T>)
    requires IsPowerOfTwo(|s|)
    ensures |r| == |s|
  {
    seq(|s|, i requires 0 <= i < |s| => s[Reverse(|s|, i)])
  }

  // ---------------------------------------------------------------------

  lemma ReverseOfDouble(size: nat, j: nat)
    requires IsPowerOfTwo(size) && size >= 2
    ensures Reverse(size, 2 * j) == Reverse(size / 2, j)
    ensures Reverse(size, 2 * j + 1) == size / 2 + Reverse(size / 2, j)
  {
    assert (2 * j) % 2 == 0 && (2 * j) / 2 == j;
    assert (2 * j + 1) % 2 == 1 && (2 * j + 1) / 2 == j;
  }

  lemma {:induction false} ReverseOfZero(size: nat)
    requires IsPowerOfTwo(size)
    ensures Reverse(size, 0) == 0
    decreases size
  {
    if size > 1 {
      ReverseOfZero(size / 2);
    }
  }

  /** For `j < size`, reversing over one more bit doubles the result. */
  lemma {:induction false} ReverseOfWider(size: nat, j: nat)
    requires IsPowerOfTwo(size) && j < size
    ensures Reverse(2 * size, j) == 2 * Reverse(size, j)
    decreases size
  {
    if size > 1 {
      ReverseOfWider(size / 2, j / 2);
    }
  }

  /** For `j < m`, reversing `j` over a `ratio` times wider index space moves its
      reversed bits up by the factor `ratio`. */
  lemma {:induction false} ReverseScale(m: nat, ratio: nat, j: nat)
    requires IsPowerOfTwo(m) && IsPowerOfTwo(ratio) && j < m
    ensures IsPowerOfTwo(m * ratio)
    ensures Reverse(m * ratio, j) == Reverse(m, j) * ratio
    decreases ratio
  {
    if ratio == 1 {
      assert m * ratio == m && Reverse(m, j) * ratio == Reverse(m, j);
    } else {
      var r := ratio / 2;
      ReverseScale(m, r, j);
      var x, wide := Reverse(m, j), m * r;
      assert m * ratio == 2 * wide && x * ratio == 2 * (x * r) by {
        assert ratio == 2 * r;
        MulOfDouble(m, r);
        MulOfDouble(x, r);
      }
      assert IsPowerOfTwo(2 * wide);
      assert j < wide by {
        MulAtLeastLeft(m, r);
      }
      ReverseOfWider(wide, j);
      calc {
        Reverse(m * ratio, j);
        Reverse(2 * wide, j);
        2 * Reverse(wide, j);
        2 * (x * r);
        x * ratio;
      }
    }
  }

  /** The top bit of a `2 * m`-index becomes the bottom bit of its reversal. */
  lemma {:induction false} ReverseTopBit(m: nat, j: nat, c: nat)
    requires IsPowerOfTwo(m) && j < m && c < 2
    ensures Reverse(2 * m, j + c * m) == 2 * Reverse(m, j) + c
    decreases m
  {
    if m == 1 {
      assert j == 0;
    } else {
      var half := m / 2;
      assert (j + c * m) % 2 == j % 2 && (j + c * m) / 2 == j / 2 + c * half by {
        assert m == 2 * half;
        if c == 1 {
          assert j + c * m == j + 2 * half;
        }
      }
      ReverseTopBit(half, j / 2, c);
    }
  }

  lemma {:induction false} ReverseInvolution(size: nat, j: nat)
    requires IsPowerOfTwo(size) && j < size
    ensures Reverse(size, Reverse(size, j)) == j
    decreases size
  {
    if size > 1 {
      var m, k := size / 2, j / 2;
      var low := Reverse(m, k);
      ReverseInvolution(m, k);
      assert 2 * m == size;
      if j % 2 == 0 {
        assert Reverse(size, j) == low + 0 * m;
        ReverseTopBit(m, low, 0);
      } else {
        assert Reverse(size, j) == low + 1 * m;
        ReverseTopBit(m, low, 1);
      }
    }
  }

  /** Bit-reverse permuting twice gives back the original sequence. */
  lemma BitReversePermuteInvolution<T>(s: seq<T>)
    requires IsPowerOfTwo(|s|)
    ensures BitReversePermute(BitReversePermute(s)) == s
  {
    var t := BitReversePermute(BitReversePermute(s));
    forall i | 0 <= i < |s|
      ensures t[i] == s[i]
    {
      ReverseInvolution(|s|, i);
    }
  }
}
