/** The functional correctness of the two FFTs: with the twiddles the source
    expects, NR computes the transform in bit-reversed order and RN computes it
    in natural order from a bit-reversed input. The proofs follow each stage:
    after a stage every element is the value of a decimated subsequence of the
    input at a power of the root. */
module FftCorrectness {
  import opened Arith
  import opened Field
  import opened BitReversal
  import opened Fourier
  import opened FftIterative

  // ---------------------------------------------------------------------
  // The twiddles each algorithm expects

  /** The NR twiddles: the first `n / 2` powers of `w` in bit-reversed order. */
  ghost predicate BitReversedTwiddles(twiddles: seq<Elem>, w: Elem, n: nat)
    requires IsPowerOfTwo(n)
  {
    |twiddles| >= n / 2
    && forall j :: 0 <= j < n / 2 ==> twiddles[j] == Pow(w, Reverse(n / 2, j))
  }

  /** The RN twiddles: the first `n / 2` powers of `w`, so `twiddles[e] == w^e`. */
  ghost predicate NaturalTwiddles(twiddles: seq<Elem>, w: Elem, n: nat) {
    |twiddles| >= n / 2
    && forall e :: 0 <= e < n / 2 ==> twiddles[e] == Pow(w, e)
  }

  // ---------------------------------------------------------------------
  // The butterfly on decimated subsequences

  /** `w^(k * j)`. */
  function PowOfProduct(w: Elem, k: nat, j: nat): Elem {
    MulNonNegative(k, j);
    Pow(w, k * j)
  }

  /** Doubling `k` squares `w^(k * e)`. */
  lemma PowOfDouble(w: Elem, k: nat, wide: nat, e: nat)
    requires wide == 2 * k
    ensures PowOfProduct(w, wide, e) == Mul(PowOfProduct(w, k, e), PowOfProduct(w, k, e))
  {
    MulNonNegative(k, e);
    PowAdd(w, k * e, k * e);
    assert k * e + k * e == wide * e;
  }

  /** `w^(k * (e + m)) == w^(k * e) * w^(k * m)`. */
  lemma PowOfSum(w: Elem, k: nat, e: nat, m: nat)
    ensures PowOfProduct(w, k, e + m) == Mul(PowOfProduct(w, k, e), PowOfProduct(w, k, m))
  {
    MulNonNegative(k, e);
    MulNonNegative(k, m);
    PowAdd(w, k * e, k * m);
    assert k * (e + m) == k * e + k * m;
  }

  /** Halving the stride of a decimation is one radix-2 step: the decimation
      at offset `s` evaluated at `z` and at `-z` is the butterfly of the two
      decimations at twice the stride, evaluated at `z * z`. */
  lemma DecimatedButterfly(x: seq<Elem>, s: nat, s': nat, stride: nat, wide: nat, count: nat, z: Elem, minusZ: Elem, zz: Elem)
    requires IsPowerOfTwo(stride) && s < stride && s' == s + stride && wide == 2 * stride
    requires count * stride == |x| && count % 2 == 0
    requires minusZ == Mul(z, Neg(1)) && zz == Mul(z, z)
    ensures IsPowerOfTwo(wide) && s' < wide
    ensures Evaluate(Decimate(x, s, stride), z)
         == Add(Evaluate(Decimate(x, s, wide), zz), Mul(z, Evaluate(Decimate(x, s', wide), zz)))
    ensures Evaluate(Decimate(x, s, stride), minusZ)
         == Sub(Evaluate(Decimate(x, s, wide), zz), Mul(z, Evaluate(Decimate(x, s', wide), zz)))
  {
    DecimateLength(x, s, stride, count);
    DecimateSplit(x, s, stride);
    EvaluateButterfly(Decimate(x, s, stride), z);
  }

  // ---------------------------------------------------------------------
  // NR

  /** After the NR stages that led to `groupCount` groups of `groupSize`,
      element `offset` of group `group` is the decimation of `x` by `groupSize`
      at `offset`, evaluated at `w^(groupSize * r)` where `r` is the
      bit-reversed group index. */
  ghost predicate NrInvariant(x: seq<Elem>, a: seq<Elem>, w: Elem, groupCount: nat, groupSize: nat)
    requires StageShape(|x|, groupCount, groupSize)
  {
    |a| == |x|
    && forall group: nat, offset: nat | group < groupCount && offset < groupSize
         :: NrInvariantAt(x, a, w, groupCount, groupSize, group, offset)
  }

  ghost predicate NrInvariantAt(x: seq<Elem>, a: seq<Elem>, w: Elem, groupCount: nat, groupSize: nat, group: nat, offset: nat)
    requires StageShape(|x|, groupCount, groupSize) && |a| == |x| && group < groupCount && offset < groupSize
  {
    BlockIndex(group, offset, groupSize, groupCount);
    a[group * groupSize + offset]
      == Evaluate(Decimate(x, offset, groupSize), PowOfProduct(w, groupSize, Reverse(groupCount, group)))
  }

  /** The points of one radix-2 butterfly: with `groupCount * half == n / 2`,
      `w^(2 * half * e)` is the square of `z = w^(half * e)`, and
      `w^(half * (e + groupCount))` is `-z`. */
  lemma ButterflyPoints(w: Elem, n: nat, groupCount: nat, half: nat, groupSize: nat, e: nat, e': nat)
    requires IsPrimitiveRoot(w, n) && groupSize == 2 * half && half >= 1 && groupCount * half == n / 2 && n >= 2
    requires e' == e + groupCount
    ensures PowOfProduct(w, groupSize, e) == Mul(PowOfProduct(w, half, e), PowOfProduct(w, half, e))
    ensures PowOfProduct(w, half, e') == Mul(PowOfProduct(w, half, e), Neg(1))
  {
    PowOfDouble(w, half, groupSize, e);
    PowOfSum(w, half, e, groupCount);
    assert half * groupCount == n / 2;
  }

  /** The twiddle of NR group `group` is `w^(r * groupSize / 2)`, where `r` is
      the bit-reversed group index. */
  lemma NrTwiddle(n: nat, groupCount: nat, groupSize: nat, group: nat, twiddles: seq<Elem>, w: Elem)
    requires IsPowerOfTwo(n) && StageShape(n, groupCount, groupSize) && groupSize >= 2 && group < groupCount
    requires BitReversedTwiddles(twiddles, w, n)
    ensures group < |twiddles|
    ensures twiddles[group] == PowOfProduct(w, groupSize / 2, Reverse(groupCount, group))
  {
    var half, r := groupSize / 2, Reverse(groupCount, group);
    assert group < n / 2 && groupCount * half == n / 2 by {
      assert Halvable(n, groupCount, groupSize);
      HalfShape(n, groupCount, groupSize);
    }
    assert twiddles[group] == Pow(w, Reverse(n / 2, group));
    ReverseScale(groupCount, half, group);
    assert r * half == half * r;
  }

  /** The two inputs of NR butterfly `offset` of `group`, and its twiddle. */
  lemma NrPairRead(x: seq<Elem>, a: seq<Elem>, w: Elem, twiddles: seq<Elem>, groupCount: nat, groupSize: nat,
                   group: nat, offset: nat, offset': nat, i: nat, j: nat)
    requires IsPowerOfTwo(|x|) && StageShape(|x|, groupCount, groupSize) && groupSize >= 2
    requires BitReversedTwiddles(twiddles, w, |x|) && NrInvariant(x, a, w, groupCount, groupSize)
    requires group < groupCount && offset < groupSize / 2 && offset' == offset + groupSize / 2
    requires i == group * groupSize + offset && j == group * groupSize + offset' && j < |x|
    ensures twiddles[group] == PowOfProduct(w, groupSize / 2, Reverse(groupCount, group))
    ensures a[i] == Evaluate(Decimate(x, offset, groupSize), PowOfProduct(w, groupSize, Reverse(groupCount, group)))
    ensures a[j] == Evaluate(Decimate(x, offset', groupSize), PowOfProduct(w, groupSize, Reverse(groupCount, group)))
  {
    NrTwiddle(|x|, groupCount, groupSize, group, twiddles, w);
    assert NrInvariantAt(x, a, w, groupCount, groupSize, group, offset);
    assert NrInvariantAt(x, a, w, groupCount, groupSize, group, offset');
  }

  /** The groups `2 * group` and `2 * group + 1` that the outputs of an NR
      butterfly of `group` land in have the bit-reversed indices `r` and
      `r + groupCount`. */
  lemma NrNextGroups(groupCount: nat, group: nat, g0: nat, g1: nat, r: nat, r': nat)
    requires IsPowerOfTwo(groupCount) && g0 == 2 * group && g1 == g0 + 1
    requires r == Reverse(groupCount, group) && r' == r + groupCount
    ensures IsPowerOfTwo(2 * groupCount)
    ensures Reverse(2 * groupCount, g0) == r && Reverse(2 * groupCount, g1) == r'
  {
    assert (2 * groupCount) / 2 == groupCount;
    ReverseOfDouble(2 * groupCount, group);
  }

  /** NR butterfly `offset` of `group` in terms of the whole stage. */
  lemma NrStagePair(a: seq<Elem>, twiddles: seq<Elem>, groupCount: nat, groupSize: nat, group: nat, offset: nat, i: nat, j: nat)
    requires Halvable(|a|, groupCount, groupSize) && |twiddles| >= |a| / 2
    requires group < groupCount && offset < groupSize / 2 && i == group * groupSize + offset && j == i + groupSize / 2
    ensures group < |twiddles| && j < |a|
    ensures NrStage(a, twiddles, groupCount, groupSize)[i] == Add(a[i], Mul(twiddles[group], a[j]))
    ensures NrStage(a, twiddles, groupCount, groupSize)[j] == Sub(a[i], Mul(twiddles[group], a[j]))
  {
    NrButterflyAt(a, twiddles, groupCount, groupSize, group, i);
  }

  /** The two outputs of an NR butterfly of `group`, at `z` and `-z`, satisfy the
      invariant of the next stage in groups `g0 == 2 * group` and `g0 + 1`. */
  lemma NrPairWrite(x: seq<Elem>, next: seq<Elem>, w: Elem, groupCount: nat, half: nat, group: nat, g0: nat, g1: nat,
                    offset: nat, i: nat, j: nat, r: nat, r': nat, z: Elem, minusZ: Elem)
    requires IsPowerOfTwo(groupCount) && StageShape(|x|, 2 * groupCount, half) && |next| == |x|
    requires g0 == 2 * group && g1 == g0 + 1 && g1 < 2 * groupCount && offset < half
    requires i == g0 * half + offset && j == g1 * half + offset && i < |x| && j < |x|
    requires r == Reverse(groupCount, group) && r' == r + groupCount
    requires z == PowOfProduct(w, half, r) && minusZ == PowOfProduct(w, half, r')
    requires next[i] == Evaluate(Decimate(x, offset, half), z) && next[j] == Evaluate(Decimate(x, offset, half), minusZ)
    ensures NrInvariantAt(x, next, w, 2 * groupCount, half, g0, offset)
    ensures NrInvariantAt(x, next, w, 2 * groupCount, half, g1, offset)
  {
    NrNextGroups(groupCount, group, g0, g1, r, r');
  }

  /** One NR butterfly: its two outputs satisfy the invariant of the next
      stage, at `offset` of groups `g0 == 2 * group` and `g1 == g0 + 1`. */
  lemma NrPairStep(x: seq<Elem>, a: seq<Elem>, w: Elem, twiddles: seq<Elem>, groupCount: nat, groupSize: nat,
                   group: nat, offset: nat, g0: nat, g1: nat)
    requires IsPowerOfTwo(|x|) && StageShape(|x|, groupCount, groupSize) && groupCount < |x|
    requires IsPrimitiveRoot(w, |x|) && BitReversedTwiddles(twiddles, w, |x|)
    requires NrInvariant(x, a, w, groupCount, groupSize)
    requires group < groupCount && offset < groupSize / 2 && g0 == 2 * group && g1 == g0 + 1
    ensures Halvable(|x|, groupCount, groupSize) && StageShape(|x|, 2 * groupCount, groupSize / 2)
    ensures g1 < 2 * groupCount
    ensures NrInvariantAt(x, NrStage(a, twiddles, groupCount, groupSize), w, 2 * groupCount, groupSize / 2, g0, offset)
    ensures NrInvariantAt(x, NrStage(a, twiddles, groupCount, groupSize), w, 2 * groupCount, groupSize / 2, g1, offset)
  {
    var n := |x|;
    NextStageShape(n, groupCount, groupSize);
    HalfShape(n, groupCount, groupSize);
    var half := groupSize / 2;
    MulNonNegative(group, groupSize);
    var i: nat := group * groupSize + offset;
    var j, offset' := i + half, offset + half;
    var next := NrStage(a, twiddles, groupCount, groupSize);
    NrStagePair(a, twiddles, groupCount, groupSize, group, offset, i, j);
    var r := Reverse(groupCount, group);
    var r' := r + groupCount;
    NrPairRead(x, a, w, twiddles, groupCount, groupSize, group, offset, offset', i, j);
    ButterflyPoints(w, n, groupCount, half, groupSize, r, r');
    MulOfHalf(groupCount, groupSize, half, 2 * groupCount, 2 * groupCount + 1);
    DecimatedButterfly(x, offset, offset', half, groupSize, 2 * groupCount,
                       PowOfProduct(w, half, r), PowOfProduct(w, half, r'), PowOfProduct(w, groupSize, r));
    MulOfHalf(group, groupSize, half, g0, g1);
    NrPairWrite(x, next, w, groupCount, half, group, g0, g1, offset, i, j, r, r', PowOfProduct(w, half, r), PowOfProduct(w, half, r'));
  }

  /** An NR stage keeps the invariant, with twice the groups of half the size. */
  lemma NrStagePreserves(x: seq<Elem>, a: seq<Elem>, w: Elem, twiddles: seq<Elem>, groupCount: nat, groupSize: nat)
    requires IsPowerOfTwo(|x|) && StageShape(|x|, groupCount, groupSize) && groupCount < |x|
    requires IsPrimitiveRoot(w, |x|) && BitReversedTwiddles(twiddles, w, |x|)
    requires NrInvariant(x, a, w, groupCount, groupSize)
    ensures Halvable(|x|, groupCount, groupSize) && StageShape(|x|, 2 * groupCount, groupSize / 2)
    ensures NrInvariant(x, NrStage(a, twiddles, groupCount, groupSize), w, 2 * groupCount, groupSize / 2)
  {
    NextStageShape(|x|, groupCount, groupSize);
    var groupCount', groupSize' := 2 * groupCount, groupSize / 2;
    forall group': nat, offset: nat | group' < groupCount' && offset < groupSize'
      ensures NrInvariantAt(x, NrStage(a, twiddles, groupCount, groupSize), w, groupCount', groupSize', group', offset)
    {
      if group' % 2 == 0 {
        NrPairStep(x, a, w, twiddles, groupCount, groupSize, group' / 2, offset, group', group' + 1);
      } else {
        NrPairStep(x, a, w, twiddles, groupCount, groupSize, group' / 2, offset, group' - 1, group');
      }
    }
  }

  /** The remaining NR stages end with every element a value of the whole
      input polynomial. */
  lemma {:induction false} NrFromCorrect(x: seq<Elem>, a: seq<Elem>, w: Elem, twiddles: seq<Elem>, groupCount: nat, groupSize: nat)
    requires IsPowerOfTwo(|x|) && StageShape(|x|, groupCount, groupSize)
    requires IsPrimitiveRoot(w, |x|) && BitReversedTwiddles(twiddles, w, |x|)
    requires NrInvariant(x, a, w, groupCount, groupSize)
    ensures StageShape(|x|, |x|, 1)
    ensures NrInvariant(x, NrFrom(a, twiddles, groupCount, groupSize), w, |x|, 1)
    decreases groupSize
  {
    if groupCount >= |x| {
      LastStageShape(|x|, groupCount, groupSize);
    } else {
      NrStagePreserves(x, a, w, twiddles, groupCount, groupSize);
      NrFromCorrect(x, NrStage(a, twiddles, groupCount, groupSize), w, twiddles, 2 * groupCount, groupSize / 2);
    }
  }

  lemma NrInvariantStart(x: seq<Elem>, w: Elem)
    requires IsPowerOfTwo(|x|)
    ensures StageShape(|x|, 1, |x|) && NrInvariant(x, x, w, 1, |x|)
  {
    assert 1 * |x| == |x|;
    forall group: nat, offset: nat | group < 1 && offset < |x|
      ensures NrInvariantAt(x, x, w, 1, |x|, group, offset)
    {
      assert group == 0;
      assert group * |x| + offset == offset;
      DecimateOfWhole(x, offset);
      EvaluateSingleton(x[offset], PowOfProduct(w, |x|, Reverse(1, group)));
    }
  }

  lemma NrInvariantEnd(x: seq<Elem>, a: seq<Elem>, w: Elem)
    requires StageShape(|x|, |x|, 1) && Pow(w, |x|) == 1
    requires NrInvariant(x, a, w, |x|, 1)
    ensures a == BitReversePermute(Dft(x, w))
  {
    forall p | 0 <= p < |x|
      ensures a[p] == BitReversePermute(Dft(x, w))[p]
    {
      assert NrInvariantAt(x, a, w, |x|, 1, p, 0);
      assert p * 1 + 0 == p && 1 * Reverse(|x|, p) == Reverse(|x|, p);
      DftIsEvaluation(x, w, Reverse(|x|, p));
    }
  }

  /** With bit-reversed twiddles of a primitive `|x|`-th root `w`, NR leaves the
      transform of `x` in bit-reversed order. */
  lemma NrFftIsBitReversedDft(x: seq<Elem>, w: Elem, twiddles: seq<Elem>)
    requires IsPowerOfTwo(|x|) && IsPrimitiveRoot(w, |x|) && BitReversedTwiddles(twiddles, w, |x|)
    ensures NrFft(x, twiddles) == BitReversePermute(Dft(x, w))
  {
    NrInvariantStart(x, w);
    NrFromCorrect(x, x, w, twiddles, 1, |x|);
    NrInvariantEnd(x, NrFft(x, twiddles), w);
  }

  /** NR followed by the bit-reverse permutation is the transform. */
  lemma NrThenBitReverseIsDft(x: seq<Elem>, w: Elem, twiddles: seq<Elem>)
    requires IsPowerOfTwo(|x|) && IsPrimitiveRoot(w, |x|) && BitReversedTwiddles(twiddles, w, |x|)
    ensures BitReversePermute(NrFft(x, twiddles)) == Dft(x, w)
  {
    NrFftIsBitReversedDft(x, w, twiddles);
    BitReversePermuteInvolution(Dft(x, w));
  }

  // ---------------------------------------------------------------------
  // RN

  /** After the RN stages that led to `groupCount` groups of `groupSize`, the
      array is made of `groupSize` blocks of `groupCount` elements; element
      `offset` of block `block` is the decimation of `x` by `groupSize` at the
      bit-reversed block index, evaluated at `w^(groupSize * offset)`. */
  ghost predicate RnInvariant(x: seq<Elem>, a: seq<Elem>, w: Elem, groupCount: nat, groupSize: nat)
    requires StageShape(|x|, groupCount, groupSize)
  {
    |a| == |x|
    && forall block: nat, offset: nat | block < groupSize && offset < groupCount
         :: RnInvariantAt(x, a, w, groupCount, groupSize, block, offset)
  }

  ghost predicate RnInvariantAt(x: seq<Elem>, a: seq<Elem>, w: Elem, groupCount: nat, groupSize: nat, block: nat, offset: nat)
    requires StageShape(|x|, groupCount, groupSize) && |a| == |x| && block < groupSize && offset < groupCount
  {
    BlockIndex(block, offset, groupCount, groupSize);
    a[block * groupCount + offset]
      == Evaluate(Decimate(x, Reverse(groupSize, block), groupSize), PowOfProduct(w, groupSize, offset))
  }

  /** RN butterfly `block` of group `offset` in terms of the whole stage. */
  lemma RnStagePair(a: seq<Elem>, twiddles: seq<Elem>, groupCount: nat, groupSize: nat, offset: nat, block: nat, i: nat, j: nat)
    requires Halvable(|a|, groupCount, groupSize) && |twiddles| >= |a| / 2
    requires offset < groupCount && block < groupSize / 2 && i == offset + block * (2 * groupCount) && j == i + groupCount
    ensures RnTwiddleIndex(groupSize, offset) < |twiddles| && j < |a|
    ensures RnStage(a, twiddles, groupCount, groupSize)[i] == Add(a[i], Mul(twiddles[RnTwiddleIndex(groupSize, offset)], a[j]))
    ensures RnStage(a, twiddles, groupCount, groupSize)[j] == Sub(a[i], Mul(twiddles[RnTwiddleIndex(groupSize, offset)], a[j]))
  {
    RnButterflyAt(a, twiddles, groupCount, groupSize, offset, block);
  }

  /** The twiddle of RN group `offset` is `w^(offset * groupSize / 2)`. */
  lemma RnTwiddle(n: nat, groupCount: nat, groupSize: nat, offset: nat, twiddles: seq<Elem>, w: Elem)
    requires StageShape(n, groupCount, groupSize) && groupSize >= 2 && offset < groupCount
    requires NaturalTwiddles(twiddles, w, n)
    ensures RnTwiddleIndex(groupSize, offset) < |twiddles|
    ensures twiddles[RnTwiddleIndex(groupSize, offset)] == PowOfProduct(w, groupSize / 2, offset)
  {
    assert Halvable(n, groupCount, groupSize);
    RnTwiddleIndexBound(n, groupCount, groupSize, offset);
    var k := RnTwiddleIndex(groupSize, offset);
    assert twiddles[k] == Pow(w, k);
    assert k == (groupSize / 2) * offset;
  }

  /** The blocks `b0 == 2 * block` and `b0 + 1` that an RN butterfly of `block`
      reads have the bit-reversed indices `s` and `s + groupSize / 2`. */
  lemma RnOldBlocks(groupSize: nat, block: nat, b0: nat, b1: nat, s: nat, s': nat)
    requires IsPowerOfTwo(groupSize) && groupSize >= 2 && b0 == 2 * block && b1 == b0 + 1
    requires s == Reverse(groupSize / 2, block) && s' == s + groupSize / 2
    ensures Reverse(groupSize, b0) == s && Reverse(groupSize, b1) == s'
  {
    ReverseOfDouble(groupSize, block);
  }

  /** Element `q == block * groupCount + offset` as `RnInvariant` describes it. */
  lemma RnInvariantRead(x: seq<Elem>, a: seq<Elem>, w: Elem, groupCount: nat, groupSize: nat,
                        block: nat, offset: nat, q: nat, s: nat)
    requires StageShape(|x|, groupCount, groupSize) && RnInvariant(x, a, w, groupCount, groupSize)
    requires block < groupSize && offset < groupCount && q == block * groupCount + offset
    requires s == Reverse(groupSize, block)
    ensures q < |a|
    ensures a[q] == Evaluate(Decimate(x, s, groupSize), PowOfProduct(w, groupSize, offset))
  {
    BlockIndex(block, offset, groupCount, groupSize);
    assert RnInvariantAt(x, a, w, groupCount, groupSize, block, offset);
  }

  /** The two inputs of RN butterfly `block` of group `offset`, and its twiddle. */
  lemma RnPairRead(x: seq<Elem>, a: seq<Elem>, w: Elem, twiddles: seq<Elem>, groupCount: nat, groupSize: nat,
                   offset: nat, block: nat, s: nat, s': nat, i: nat, j: nat)
    requires StageShape(|x|, groupCount, groupSize) && groupSize >= 2
    requires NaturalTwiddles(twiddles, w, |x|) && RnInvariant(x, a, w, groupCount, groupSize)
    requires offset < groupCount && block < groupSize / 2
    requires s == Reverse(groupSize / 2, block) && s' == s + groupSize / 2
    requires i == offset + block * (2 * groupCount) && j == i + groupCount && j < |x|
    ensures RnTwiddleIndex(groupSize, offset) < |twiddles|
    ensures twiddles[RnTwiddleIndex(groupSize, offset)] == PowOfProduct(w, groupSize / 2, offset)
    ensures a[i] == Evaluate(Decimate(x, s, groupSize), PowOfProduct(w, groupSize, offset))
    ensures a[j] == Evaluate(Decimate(x, s', groupSize), PowOfProduct(w, groupSize, offset))
  {
    RnTwiddle(|x|, groupCount, groupSize, offset, twiddles, w);
    var b0 := 2 * block;
    var b1 := b0 + 1;
    assert i == b0 * groupCount + offset && j == b1 * groupCount + offset by {
      MulOfHalf(block, 2 * groupCount, groupCount, b0, b1);
    }
    RnOldBlocks(groupSize, block, b0, b1, s, s');
    RnInvariantRead(x, a, w, groupCount, groupSize, b0, offset, i, s);
    RnInvariantRead(x, a, w, groupCount, groupSize, b1, offset, j, s');
  }

  /** The two outputs of RN butterfly `block` of group `offset`, at `z` and `-z`,
      satisfy the invariant of the next stage at offsets `offset` and
      `offset' == offset + groupCount` of block `block`. */
  lemma RnPairWrite(x: seq<Elem>, next: seq<Elem>, w: Elem, groupCount: nat, half: nat, block: nat, offset: nat, offset': nat,
                    i: nat, j: nat, s: nat, z: Elem, minusZ: Elem)
    requires StageShape(|x|, 2 * groupCount, half) && |next| == |x|
    requires offset < groupCount && offset' == offset + groupCount && block < half
    requires i == offset + block * (2 * groupCount) && j == i + groupCount
    requires s == Reverse(half, block) && z == PowOfProduct(w, half, offset) && minusZ == PowOfProduct(w, half, offset')
    requires i < |x| && j < |x|
    requires next[i] == Evaluate(Decimate(x, s, half), z) && next[j] == Evaluate(Decimate(x, s, half), minusZ)
    ensures RnInvariantAt(x, next, w, 2 * groupCount, half, block, offset)
    ensures RnInvariantAt(x, next, w, 2 * groupCount, half, block, offset')
  {
  }

  /** One RN butterfly: its two outputs satisfy the invariant of the next
      stage, at `offset` and `offset' == offset + groupCount` of block `block`. */
  lemma RnPairStep(x: seq<Elem>, a: seq<Elem>, w: Elem, twiddles: seq<Elem>, groupCount: nat, groupSize: nat,
                   block: nat, offset: nat, offset': nat)
    requires StageShape(|x|, groupCount, groupSize) && groupCount < |x|
    requires IsPrimitiveRoot(w, |x|) && NaturalTwiddles(twiddles, w, |x|)
    requires RnInvariant(x, a, w, groupCount, groupSize)
    requires block < groupSize / 2 && offset < groupCount && offset' == offset + groupCount
    ensures Halvable(|x|, groupCount, groupSize) && StageShape(|x|, 2 * groupCount, groupSize / 2)
    ensures RnInvariantAt(x, RnStage(a, twiddles, groupCount, groupSize), w, 2 * groupCount, groupSize / 2, block, offset)
    ensures RnInvariantAt(x, RnStage(a, twiddles, groupCount, groupSize), w, 2 * groupCount, groupSize / 2, block, offset')
  {
    var n := |x|;
    NextStageShape(n, groupCount, groupSize);
    HalfShape(n, groupCount, groupSize);
    var half := groupSize / 2;
    MulNonNegative(block, 2 * groupCount);
    var i: nat := offset + block * (2 * groupCount);
    var j := i + groupCount;
    var next := RnStage(a, twiddles, groupCount, groupSize);
    RnStagePair(a, twiddles, groupCount, groupSize, offset, block, i, j);
    var s := Reverse(half, block);
    var s' := s + half;
    var z, zz, minusZ := PowOfProduct(w, half, offset), PowOfProduct(w, groupSize, offset), PowOfProduct(w, half, offset');
    RnPairRead(x, a, w, twiddles, groupCount, groupSize, offset, block, s, s', i, j);
    ButterflyPoints(w, n, groupCount, half, groupSize, offset, offset');
    MulOfHalf(groupCount, groupSize, half, 2 * groupCount, 2 * groupCount + 1);
    DecimatedButterfly(x, s, s', half, groupSize, 2 * groupCount, z, minusZ, zz);
    RnPairWrite(x, next, w, groupCount, half, block, offset, offset', i, j, s, z, minusZ);
  }

  /** An RN stage keeps the invariant, with twice the groups of half the size. */
  lemma RnStagePreserves(x: seq<Elem>, a: seq<Elem>, w: Elem, twiddles: seq<Elem>, groupCount: nat, groupSize: nat)
    requires StageShape(|x|, groupCount, groupSize) && groupCount < |x|
    requires IsPrimitiveRoot(w, |x|) && NaturalTwiddles(twiddles, w, |x|)
    requires RnInvariant(x, a, w, groupCount, groupSize)
    ensures Halvable(|x|, groupCount, groupSize) && StageShape(|x|, 2 * groupCount, groupSize / 2)
    ensures RnInvariant(x, RnStage(a, twiddles, groupCount, groupSize), w, 2 * groupCount, groupSize / 2)
  {
    NextStageShape(|x|, groupCount, groupSize);
    var groupCount', groupSize' := 2 * groupCount, groupSize / 2;
    forall block: nat, offset: nat | block < groupSize' && offset < groupCount'
      ensures RnInvariantAt(x, RnStage(a, twiddles, groupCount, groupSize), w, groupCount', groupSize', block, offset)
    {
      if offset < groupCount {
        RnPairStep(x, a, w, twiddles, groupCount, groupSize, block, offset, offset + groupCount);
      } else {
        RnPairStep(x, a, w, twiddles, groupCount, groupSize, block, offset - groupCount, offset);
      }
    }
  }

  /** The remaining RN stages end with every element a value of the whole
      input polynomial. */
  lemma {:induction false} RnFromCorrect(x: seq<Elem>, a: seq<Elem>, w: Elem, twiddles: seq<Elem>, groupCount: nat, groupSize: nat)
    requires StageShape(|x|, groupCount, groupSize)
    requires IsPrimitiveRoot(w, |x|) && NaturalTwiddles(twiddles, w, |x|)
    requires RnInvariant(x, a, w, groupCount, groupSize)
    ensures StageShape(|x|, |x|, 1)
    ensures RnInvariant(x, RnFrom(a, twiddles, groupCount, groupSize), w, |x|, 1)
    decreases groupSize
  {
    if groupCount >= |x| {
      LastStageShape(|x|, groupCount, groupSize);
    } else {
      RnStagePreserves(x, a, w, twiddles, groupCount, groupSize);
      RnFromCorrect(x, RnStage(a, twiddles, groupCount, groupSize), w, twiddles, 2 * groupCount, groupSize / 2);
    }
  }

  lemma RnInvariantStart(x: seq<Elem>, w: Elem)
    requires IsPowerOfTwo(|x|)
    ensures StageShape(|x|, 1, |x|) && RnInvariant(x, BitReversePermute(x), w, 1, |x|)
  {
    assert 1 * |x| == |x|;
    var a := BitReversePermute(x);
    forall block: nat, offset: nat | block < |x| && offset < 1
      ensures RnInvariantAt(x, a, w, 1, |x|, block, offset)
    {
      assert offset == 0;
      assert block * 1 + offset == block;
      DecimateOfWhole(x, Reverse(|x|, block));
      EvaluateSingleton(a[block], PowOfProduct(w, |x|, offset));
    }
  }

  lemma RnInvariantEnd(x: seq<Elem>, a: seq<Elem>, w: Elem)
    requires StageShape(|x|, |x|, 1) && Pow(w, |x|) == 1
    requires RnInvariant(x, a, w, |x|, 1)
    ensures a == Dft(x, w)
  {
    forall p | 0 <= p < |x|
      ensures a[p] == Dft(x, w)[p]
    {
      assert RnInvariantAt(x, a, w, |x|, 1, 0, p);
      assert Reverse(1, 0) == 0 && 0 * |x| + p == p && 1 * p == p;
      DftIsEvaluation(x, w, p);
    }
  }

  /** The bit-reverse permutation followed by RN, with natural twiddles of a
      primitive `|x|`-th root `w`, is the transform. */
  lemma BitReverseThenRnIsDft(x: seq<Elem>, w: Elem, twiddles: seq<Elem>)
    requires IsPowerOfTwo(|x|) && IsPrimitiveRoot(w, |x|) && NaturalTwiddles(twiddles, w, |x|)
    ensures RnFft(BitReversePermute(x), twiddles) == Dft(x, w)
  {
    RnInvariantStart(x, w);
    RnFromCorrect(x, BitReversePermute(x), w, twiddles, 1, |x|);
    RnInvariantEnd(x, RnFft(BitReversePermute(x), twiddles), w);
  }
}
