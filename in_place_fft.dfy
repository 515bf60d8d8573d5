/** The in-place methods of `fft_iterative.rs`: the butterfly, one pass of each
    outer loop, and the two FFTs over an array. Each method is proved to leave
    exactly the stages of `FftIterative` in the array, and the two FFTs are
    proved to compute the transform when given the twiddles they expect. */
module InPlaceFft {
  import opened Arith
  import opened Field
  import opened BitReversal
  import opened Fourier
  import opened FftIterative
  import opened FftCorrectness

  /** The butterfly `(a, b) := (a + w * b, a - w * b)` on `input[i]` and
      `input[j]`; nothing else changes. */
  method Butterfly(input: array<Elem>, i: nat, j: nat, w: Elem)
    requires i < j < input.Length
    modifies input
    ensures input[..] == ButterflyOn(old(input[..]), i, j, w)
  {
    var y0 := Add(input[i], Mul(w, input[j]));
    var y1 := Sub(input[i], Mul(w, input[j]));
    input[i] := y0;
    input[j] := y1;
  }

  /** One pass of the outer loop of `in_place_nr_2radix_fft`: the butterflies
      of every group at the current group size. */
  method NrPass(input: array<Elem>, twiddles: seq<Elem>, groupCount: nat, groupSize: nat)
    requires Halvable(input.Length, groupCount, groupSize) && |twiddles| >= input.Length / 2
    modifies input
    ensures input[..] == NrStage(old(input[..]), twiddles, groupCount, groupSize)
  {
    ghost var before := input[..];
    NrPartialEnds(before, before, twiddles, groupCount, groupSize);
    var group: nat := 0;
    while group < groupCount
      invariant group <= groupCount
      invariant NrPartial(before, input[..], twiddles, groupCount, groupSize, group, group * groupSize)
    {
      assert group < |twiddles| && (group + 1) * groupSize <= input.Length by {
        HalfShape(input.Length, groupCount, groupSize);
        MulMonotone(group + 1, groupCount, groupSize);
      }
      MulSucc(group, groupSize);
      MulNonNegative(group, groupSize);
      var firstInGroup: nat := group * groupSize;
      var firstInNextGroup := firstInGroup + groupSize / 2;
      var w := twiddles[group];
      var i: nat := firstInGroup;
      while i < firstInNextGroup
        invariant firstInGroup <= i <= firstInNextGroup
        invariant NrPartial(before, input[..], twiddles, groupCount, groupSize, group, i)
      {
        ghost var current := input[..];
        Butterfly(input, i, i + groupSize / 2, w);
        NrPartialStep(before, current, input[..], twiddles, groupCount, groupSize, group, i);
        i := i + 1;
      }
      NrPartialGroup(before, input[..], twiddles, groupCount, groupSize, group, i);
      group := group + 1;
    }
    NrPartialEnds(before, input[..], twiddles, groupCount, groupSize);
  }

  /** `in_place_nr_2radix_fft`: runs the NR stages on `input` in place; the
      ghost result counts the stages. */
  method InPlaceNr2RadixFft(input: array<Elem>, twiddles: seq<Elem>, ghost w: Elem) returns (ghost stages: nat)
    requires IsPowerOfTwo(input.Length) && |twiddles| >= input.Length / 2
    modifies input
    ensures input[..] == NrFft(old(input[..]), twiddles)
    ensures IsPrimitiveRoot(w, input.Length) && BitReversedTwiddles(twiddles, w, input.Length)
            ==> input[..] == BitReversePermute(Dft(old(input[..]), w))
    ensures input.Length == 1 ==> input[..] == old(input[..])
    ensures stages == Log2(input.Length)
  {
    ghost var x := input[..];
    var groupCount: nat := 1;
    var groupSize: nat := input.Length;
    stages := 0;
    while groupCount < input.Length
      invariant StageShape(input.Length, groupCount, groupSize)
      invariant stages + Log2(groupSize) == Log2(input.Length)
      invariant NrFrom(input[..], twiddles, groupCount, groupSize) == NrFft(old(input[..]), twiddles)
      decreases groupSize
    {
      NextStageShape(input.Length, groupCount, groupSize);
      NrPass(input, twiddles, groupCount, groupSize);
      groupCount := groupCount * 2;
      groupSize := groupSize / 2;
      stages := stages + 1;
    }
    LastStageShape(input.Length, groupCount, groupSize);
    if IsPrimitiveRoot(w, input.Length) && BitReversedTwiddles(twiddles, w, input.Length) {
      NrFftIsBitReversedDft(x, w, twiddles);
    }
  }

  /** One pass of the outer loop of `in_place_rn_2radix_fft`: for each group
      `group < groupCount`, the butterflies `group, group + 2 * groupCount, ...`. */
  method RnPass(input: array<Elem>, twiddles: seq<Elem>, groupCount: nat, groupSize: nat)
    requires Halvable(input.Length, groupCount, groupSize) && |twiddles| >= input.Length / 2
    modifies input
    ensures input[..] == RnStage(old(input[..]), twiddles, groupCount, groupSize)
  {
    var stepToNext := 2 * groupCount;
    var stepToLast := stepToNext * (groupSize / 2 - 1);
    ghost var before := input[..];
    RnPartialEnds(before, before, twiddles, groupCount, groupSize);
    var group: nat := 0;
    while group < groupCount
      invariant group <= groupCount
      invariant RnPartial(before, input[..], twiddles, groupCount, groupSize, group, 0)
    {
      var i: nat := group;
      ghost var l: nat := 0;
      assert l * stepToNext == 0;
      while i <= group + stepToLast
        invariant i == group + l * stepToNext && l <= groupSize / 2
        invariant RnPartial(before, input[..], twiddles, groupCount, groupSize, group, l)
        decreases groupSize / 2 - l
      {
        RnButterflyCount(stepToNext, stepToLast, groupSize / 2, l, group, i);
        RnButterflyAt(before, twiddles, groupCount, groupSize, group, l);
        var w := twiddles[RnTwiddleIndex(groupSize, group)];
        ghost var current := input[..];
        Butterfly(input, i, i + groupCount, w);
        RnPartialStep(before, current, input[..], twiddles, groupCount, groupSize, group, l, i);
        MulSucc(l, stepToNext);
        i := i + stepToNext;
        l := l + 1;
      }
      RnButterflyCount(stepToNext, stepToLast, groupSize / 2, l, group, i);
      RnPartialGroup(before, input[..], twiddles, groupCount, groupSize, group);
      group := group + 1;
    }
    RnPartialEnds(before, input[..], twiddles, groupCount, groupSize);
  }

  /** `in_place_rn_2radix_fft`: runs the RN stages on `input` in place; the
      ghost result counts the stages. */
  method InPlaceRn2RadixFft(input: array<Elem>, twiddles: seq<Elem>, ghost w: Elem) returns (ghost stages: nat)
    requires IsPowerOfTwo(input.Length) && |twiddles| >= input.Length / 2
    modifies input
    ensures input[..] == RnFft(old(input[..]), twiddles)
    ensures IsPrimitiveRoot(w, input.Length) && NaturalTwiddles(twiddles, w, input.Length)
            ==> input[..] == Dft(BitReversePermute(old(input[..])), w)
    ensures input.Length == 1 ==> input[..] == old(input[..])
    ensures stages == Log2(input.Length)
  {
    ghost var x0 := input[..];
    var groupCount: nat := 1;
    var groupSize: nat := input.Length;
    stages := 0;
    while groupCount < input.Length
      invariant StageShape(input.Length, groupCount, groupSize)
      invariant stages + Log2(groupSize) == Log2(input.Length)
      invariant RnFrom(input[..], twiddles, groupCount, groupSize) == RnFft(old(input[..]), twiddles)
      decreases groupSize
    {
      NextStageShape(input.Length, groupCount, groupSize);
      RnPass(input, twiddles, groupCount, groupSize);
      groupCount := groupCount * 2;
      groupSize := groupSize / 2;
      stages := stages + 1;
    }
    LastStageShape(input.Length, groupCount, groupSize);
    if IsPrimitiveRoot(w, input.Length) && NaturalTwiddles(twiddles, w, input.Length) {
      var x := BitReversePermute(x0);
      BitReversePermuteInvolution(x0);
      BitReverseThenRnIsDft(x, w, twiddles);
    }
  }
}
