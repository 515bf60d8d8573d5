/** The two in-place radix-2 FFTs of `fft_iterative.rs`: NR (input in natural
    order, output in bit-reversed order, twiddles in bit-reversed order) and RN
    (input in bit-reversed order, output in natural order, twiddles in natural
    order). Each stage is first specified as a function of the previous
    contents; the methods are proved to compute exactly those stages. */
module FftIterative {
  import opened Arith
  import opened Field
  import opened BitReversal

  /** The shape of the outer loop: `groupCount` groups of `groupSize`
      elements, both powers of two, covering the input exactly. */
  predicate StageShape(n: nat, groupCount: nat, groupSize: nat) {
    groupCount * groupSize == n && IsPowerOfTwo(groupCount) && IsPowerOfTwo(groupSize)
  }

  /** The shape of a stage that still runs: the groups have an even number of
      at least two elements. */
  predicate Halvable(n: nat, groupCount: nat, groupSize: nat) {
    groupCount * groupSize == n && groupSize >= 2 && groupSize % 2 == 0
  }

  /** While the loop runs, each stage can halve the groups and double their
      number. */
  lemma NextStageShape(n: nat, groupCount: nat, groupSize: nat)
    requires StageShape(n, groupCount, groupSize) && groupCount < n
    ensures Halvable(n, groupCount, groupSize)
    ensures StageShape(n, 2 * groupCount, groupSize / 2)
  {
    var half := groupSize / 2;
    assert groupCount * groupSize == 2 * (groupCount * half) by {
      MulOfDouble(groupCount, half);
    }
    assert (2 * groupCount) * half == 2 * (groupCount * half);
    assert IsPowerOfTwo(2 * groupCount) by {
      assert (2 * groupCount) / 2 == groupCount;
    }
  }

  /** A running stage touches `n / 2` butterflies, one twiddle per group in NR. */
  lemma HalfShape(n: nat, groupCount: nat, groupSize: nat)
    requires Halvable(n, groupCount, groupSize)
    ensures groupCount * (groupSize / 2) == n / 2 && groupCount <= n / 2
  {
    var half := groupSize / 2;
    assert n == 2 * (groupCount * half) by {
      MulOfDouble(groupCount, half);
    }
    MulAtLeastLeft(groupCount, half);
  }

  /** The last stage leaves groups of one element. */
  lemma LastStageShape(n: nat, groupCount: nat, groupSize: nat)
    requires StageShape(n, groupCount, groupSize) && groupCount >= n
    ensures groupSize == 1 && groupCount == n
  {
    if groupSize != 1 {
      assert groupSize >= 2;
      MulMonotone(1, groupSize / 2, groupCount);
      assert groupCount * groupSize == 2 * (groupCount * (groupSize / 2)) by {
        MulOfDouble(groupCount, groupSize / 2);
      }
    }
    assert groupCount * groupSize == groupCount;
  }

  // ---------------------------------------------------------------------
  // NR: natural order in, bit-reversed order out

  /** Element `p` after one NR stage: element `i` of the first half of each group
      becomes `a[i] + w * a[i + groupSize / 2]`, and its partner in the second half
      becomes `a[i] - w * a[i + groupSize / 2]`, with one twiddle `w` per group. */
  function NrStageAt(a: seq<Elem>, twiddles: seq<Elem>, groupCount: nat, groupSize: nat, p: nat): Elem
    requires Halvable(|a|, groupCount, groupSize)
    requires |twiddles| >= |a| / 2 && p < |a|
  {
    NrStageBounds(|a|, groupCount, groupSize, p, |twiddles|);
    var group, offset, half := p / groupSize, p % groupSize, groupSize / 2;
    if offset < half then Add(a[p], Mul(twiddles[group], a[p + half]))
    else Sub(a[p - half], Mul(twiddles[group], a[p]))
  }

  /** The indices an NR stage reads are in bounds. */
  lemma NrStageBounds(n: nat, groupCount: nat, groupSize: nat, p: nat, twiddleCount: nat)
    requires Halvable(n, groupCount, groupSize) && p < n && twiddleCount >= n / 2
    ensures groupSize > 0 && p / groupSize < twiddleCount
    ensures p % groupSize < groupSize / 2 ==> p + groupSize / 2 < n
    ensures p % groupSize >= groupSize / 2 ==> p >= groupSize / 2
  {
    HalfShape(n, groupCount, groupSize);
    BlockOf(p, groupSize, groupCount);
  }

  function NrStage(a: seq<Elem>, twiddles: seq<Elem>, groupCount: nat, groupSize: nat): (r: seq<Elem>)
    requires Halvable(|a|, groupCount, groupSize)
    requires |twiddles| >= |a| / 2
    ensures |r| == |a|
  {
    seq(|a|, p requires 0 <= p < |a| => NrStageAt(a, twiddles, groupCount, groupSize, p))
  }

  /** The NR stages that remain once the loop has reached `groupCount` groups
      of `groupSize`. */
  function NrFrom(a: seq<Elem>, twiddles: seq<Elem>, groupCount: nat, groupSize: nat): (r: seq<Elem>)
    requires StageShape(|a|, groupCount, groupSize) && |twiddles| >= |a| / 2
    ensures |r| == |a|
    decreases groupSize
  {
    if groupCount >= |a| then a
    else
      NextStageShape(|a|, groupCount, groupSize);
      NrFrom(NrStage(a, twiddles, groupCount, groupSize), twiddles, 2 * groupCount, groupSize / 2)
  }

  /** What `in_place_nr_2radix_fft` leaves in `input`. */
  function NrFft(x: seq<Elem>, twiddles: seq<Elem>): (r: seq<Elem>)
    requires IsPowerOfTwo(|x|) && |twiddles| >= |x| / 2
    ensures |r| == |x|
  {
    assert 1 * |x| == |x|;
    NrFrom(x, twiddles, 1, |x|)
  }

  // ---------------------------------------------------------------------
  // RN: bit-reversed order in, natural order out

  /** Element `p` after one RN stage: the butterflies of group `f` pair the
      positions `i` with `i % (2 * groupCount) == f` and `i + groupCount`, with
      the twiddle at `f * groupSize / 2`. */
  function RnStageAt(a: seq<Elem>, twiddles: seq<Elem>, groupCount: nat, groupSize: nat, p: nat): Elem
    requires Halvable(|a|, groupCount, groupSize)
    requires |twiddles| >= |a| / 2 && p < |a|
  {
    var step := 2 * groupCount;
    RnStageBounds(|a|, groupCount, groupSize, p);
    var f := p % step;
    if f < groupCount then Add(a[p], Mul(twiddles[f * groupSize / 2], a[p + groupCount]))
    else Sub(a[p - groupCount], Mul(twiddles[(f - groupCount) * groupSize / 2], a[p]))
  }

  /** The indices an RN stage reads are in bounds. */
  lemma RnStageBounds(n: nat, groupCount: nat, groupSize: nat, p: nat)
    requires Halvable(n, groupCount, groupSize) && p < n
    ensures p % (2 * groupCount) < groupCount ==> p + groupCount < n
    ensures p % (2 * groupCount) >= groupCount ==> p >= groupCount
    ensures p % (2 * groupCount) < groupCount ==> RnTwiddleIndex(groupSize, p % (2 * groupCount)) < n / 2
    ensures p % (2 * groupCount) >= groupCount ==> RnTwiddleIndex(groupSize, p % (2 * groupCount) - groupCount) < n / 2
  {
    var step := 2 * groupCount;
    var f: nat := p % step;
    assert f < step && f <= p && p - f + step <= n by {
      HalfShape(n, groupCount, groupSize);
      var half := groupSize / 2;
      assert step * half == n by {
        MulOfDouble(groupCount, half);
      }
      BlockOf(p, step, half);
    }
    if f < groupCount {
      assert RnTwiddleIndex(groupSize, f) < n / 2 by {
        RnTwiddleIndexBound(n, groupCount, groupSize, f);
      }
    } else {
      assert RnTwiddleIndex(groupSize, f - groupCount) < n / 2 by {
        RnTwiddleIndexBound(n, groupCount, groupSize, f - groupCount);
      }
    }
  }

  /** The twiddle index `group * group_size / 2` of an RN stage. */
  function RnTwiddleIndex(groupSize: nat, group: nat): nat {
    group * groupSize / 2
  }

  /** Every RN twiddle index is below `n / 2`. */
  lemma RnTwiddleIndexBound(n: nat, groupCount: nat, groupSize: nat, group: nat)
    requires Halvable(n, groupCount, groupSize) && group < groupCount
    ensures RnTwiddleIndex(groupSize, group) == group * (groupSize / 2) < n / 2
  {
    HalfShape(n, groupCount, groupSize);
    var half := groupSize / 2;
    assert group * groupSize == 2 * (group * half) by {
      MulOfDouble(group, half);
    }
    MulMonotone(group + 1, groupCount, half);
  }

  function RnStage(a: seq<Elem>, twiddles: seq<Elem>, groupCount: nat, groupSize: nat): (r: seq<Elem>)
    requires Halvable(|a|, groupCount, groupSize)
    requires |twiddles| >= |a| / 2
    ensures |r| == |a|
  {
    seq(|a|, p requires 0 <= p < |a| => RnStageAt(a, twiddles, groupCount, groupSize, p))
  }

  /** The RN stages that remain once the loop has reached `groupCount` groups
      of `groupSize`. */
  function RnFrom(a: seq<Elem>, twiddles: seq<Elem>, groupCount: nat, groupSize: nat): (r: seq<Elem>)
    requires StageShape(|a|, groupCount, groupSize) && |twiddles| >= |a| / 2
    ensures |r| == |a|
    decreases groupSize
  {
    if groupCount >= |a| then a
    else
      NextStageShape(|a|, groupCount, groupSize);
      RnFrom(RnStage(a, twiddles, groupCount, groupSize), twiddles, 2 * groupCount, groupSize / 2)
  }

  /** What `in_place_rn_2radix_fft` leaves in `input`. */
  function RnFft(x: seq<Elem>, twiddles: seq<Elem>): (r: seq<Elem>)
    requires IsPowerOfTwo(|x|) && |twiddles| >= |x| / 2
    ensures |r| == |x|
  {
    assert 1 * |x| == |x|;
    RnFrom(x, twiddles, 1, |x|)
  }

  // ---------------------------------------------------------------------
  // Where each butterfly of a stage lands

  /** NR butterfly `i` of `group` computes the stage's values at `i` and at
      `i + groupSize / 2`. */
  lemma NrButterflyAt(a: seq<Elem>, twiddles: seq<Elem>, groupCount: nat, groupSize: nat, group: nat, i: nat)
    requires Halvable(|a|, groupCount, groupSize) && |twiddles| >= |a| / 2
    requires group < groupCount && group * groupSize <= i < group * groupSize + groupSize / 2
    ensures group < |twiddles| && i + groupSize / 2 < |a|
    ensures NrStageAt(a, twiddles, groupCount, groupSize, i)
         == Add(a[i], Mul(twiddles[group], a[i + groupSize / 2]))
    ensures NrStageAt(a, twiddles, groupCount, groupSize, i + groupSize / 2)
         == Sub(a[i], Mul(twiddles[group], a[i + groupSize / 2]))
  {
    var half := groupSize / 2;
    var offset := i - group * groupSize;
    assert group * groupSize + groupSize <= |a| by {
      MulMonotone(group + 1, groupCount, groupSize);
    }
    HalfShape(|a|, groupCount, groupSize);
    DivModOf(group, groupSize, offset);
    DivModOf(group, groupSize, offset + half);
  }

  /** RN butterfly `l` of `group` computes the stage's values at
      `group + l * 2 * groupCount` and `groupCount` further on. */
  lemma RnButterflyAt(a: seq<Elem>, twiddles: seq<Elem>, groupCount: nat, groupSize: nat, group: nat, l: nat)
    requires Halvable(|a|, groupCount, groupSize) && |twiddles| >= |a| / 2
    requires group < groupCount && l < groupSize / 2
    ensures RnTwiddleIndex(groupSize, group) < |twiddles|
    ensures group + l * (2 * groupCount) + groupCount < |a|
    ensures RnStageAt(a, twiddles, groupCount, groupSize, group + l * (2 * groupCount))
         == Add(a[group + l * (2 * groupCount)],
                Mul(twiddles[RnTwiddleIndex(groupSize, group)], a[group + l * (2 * groupCount) + groupCount]))
    ensures RnStageAt(a, twiddles, groupCount, groupSize, group + l * (2 * groupCount) + groupCount)
         == Sub(a[group + l * (2 * groupCount)],
                Mul(twiddles[RnTwiddleIndex(groupSize, group)], a[group + l * (2 * groupCount) + groupCount]))
  {
    var step := 2 * groupCount;
    var i := group + l * step;
    RnTwiddleIndexBound(|a|, groupCount, groupSize, group);
    assert i + groupCount < |a| by {
      var half := groupSize / 2;
      assert step * half == |a| by {
        MulOfDouble(groupCount, half);
      }
      MulMonotone(l + 1, half, step);
    }
    assert i % step == group && (i + groupCount) % step == group + groupCount by {
      DivModOf(l, step, group);
      DivModOf(l, step, group + groupCount);
    }
  }

  /** The RN inner loop `group..=group + step_to_last` by `step_to_next` runs
      exactly `groupSize / 2` butterflies. */
  lemma RnButterflyCount(stepToNext: nat, stepToLast: int, half: nat, l: nat, group: nat, i: int)
    requires stepToNext > 0 && half >= 1
    requires stepToLast == stepToNext * (half - 1) && i == group + l * stepToNext
    ensures i <= group + stepToLast <==> l < half
  {
    if l < half {
      MulMonotone(l, half - 1, stepToNext);
    } else {
      MulMonotone(half, l, stepToNext);
      assert half * stepToNext == stepToNext * (half - 1) + stepToNext;
    }
  }

  /** Position `p` has been rewritten by an RN stage once groups `0..group`
      are done and group `group` has run its first `l` butterflies. */
  predicate RnDone(groupCount: nat, group: nat, l: nat, p: nat)
    requires groupCount > 0
  {
    var step := 2 * groupCount;
    p % step < group || groupCount <= p % step < groupCount + group
    || ((p % step == group || p % step == groupCount + group) && p / step < l)
  }

  /** Butterfly `l` of `group` rewrites exactly its two positions. */
  lemma RnDoneStep(n: nat, groupCount: nat, groupSize: nat, group: nat, l: nat)
    requires Halvable(n, groupCount, groupSize) && group < groupCount && l < groupSize / 2
    ensures !RnDone(groupCount, group, l, group + l * (2 * groupCount))
    ensures !RnDone(groupCount, group, l, group + l * (2 * groupCount) + groupCount)
    ensures forall p: nat :: RnDone(groupCount, group, l + 1, p) <==>
              RnDone(groupCount, group, l, p) || p == group + l * (2 * groupCount) || p == group + l * (2 * groupCount) + groupCount
  {
    var step := 2 * groupCount;
    var i := group + l * step;
    assert i % step == group && i / step == l && (i + groupCount) % step == group + groupCount && (i + groupCount) / step == l by {
      DivModOf(l, step, group);
      DivModOf(l, step, group + groupCount);
    }
    forall p: nat
      ensures RnDone(groupCount, group, l + 1, p) <==> RnDone(groupCount, group, l, p) || p == i || p == i + groupCount
    {
      var q, r := p / step, p % step;
      DivModDecompose(p, step);
      if (r == group || r == group + groupCount) && q == l {
        assert p == i || p == i + groupCount;
      }
    }
  }

  /** After its last butterfly a group is done. */
  lemma RnDoneGroup(n: nat, groupCount: nat, groupSize: nat, group: nat)
    requires Halvable(n, groupCount, groupSize) && group < groupCount
    ensures forall p: nat :: p < n ==> (RnDone(groupCount, group, groupSize / 2, p) <==> RnDone(groupCount, group + 1, 0, p))
  {
    var step, half := 2 * groupCount, groupSize / 2;
    forall p: nat | p < n
      ensures RnDone(groupCount, group, half, p) <==> RnDone(groupCount, group + 1, 0, p)
    {
      assert 0 <= p / step < half by {
        assert step * half == n by {
          MulOfDouble(groupCount, half);
        }
        BlockOf(p, step, half);
      }
    }
  }

  /** Before the first group nothing is rewritten, after the last group
      everything is. */
  lemma RnDoneEnds(groupCount: nat, p: nat)
    requires groupCount > 0
    ensures !RnDone(groupCount, 0, 0, p) && RnDone(groupCount, groupCount, 0, p)
  {
    DivModDecompose(p, 2 * groupCount);
  }

  // ---------------------------------------------------------------------
  // A stage part-way through

  /** The butterfly `(a, b) := (a + w * b, a - w * b)` on positions `i` and `j`
      of `s`. */
  function ButterflyOn(s: seq<Elem>, i: nat, j: nat, w: Elem): (r: seq<Elem>)
    requires i < j < |s|
    ensures |r| == |s|
    ensures r[i] == Add(s[i], Mul(w, s[j])) && r[j] == Sub(s[i], Mul(w, s[j]))
    ensures forall p :: 0 <= p < |s| && p != i && p != j ==> r[p] == s[p]
  {
    s[i := Add(s[i], Mul(w, s[j]))][j := Sub(s[i], Mul(w, s[j]))]
  }

  /** `current` is `before` part-way through an NR stage: the groups before
      `group` are done, and so are the butterflies of `group` below position `i`;
      every other position still holds its old value. */
  ghost predicate NrPartial(before: seq<Elem>, current: seq<Elem>, twiddles: seq<Elem>,
                            groupCount: nat, groupSize: nat, group: nat, i: int)
    requires Halvable(|before|, groupCount, groupSize) && |twiddles| >= |before| / 2
  {
    |current| == |before|
    && forall p :: 0 <= p < |before| ==> NrPartialAt(before, current, twiddles, groupCount, groupSize, group, i, p)
  }

  /** Position `p` of `current` as `NrPartial` describes it. */
  ghost predicate NrPartialAt(before: seq<Elem>, current: seq<Elem>, twiddles: seq<Elem>,
                              groupCount: nat, groupSize: nat, group: nat, i: int, p: nat)
    requires Halvable(|before|, groupCount, groupSize) && |twiddles| >= |before| / 2
    requires |current| == |before| && p < |before|
  {
    current[p] == if p < i || group * groupSize + groupSize / 2 <= p < i + groupSize / 2
                  then NrStageAt(before, twiddles, groupCount, groupSize, p) else before[p]
  }

  /** NR butterfly `i` of `group` moves the stage on by one position. */
  lemma NrPartialStep(before: seq<Elem>, current: seq<Elem>, next: seq<Elem>, twiddles: seq<Elem>,
                      groupCount: nat, groupSize: nat, group: nat, i: nat)
    requires Halvable(|before|, groupCount, groupSize) && |twiddles| >= |before| / 2
    requires group < groupCount && group * groupSize <= i < group * groupSize + groupSize / 2
    requires NrPartial(before, current, twiddles, groupCount, groupSize, group, i)
    requires group < |twiddles| && i + groupSize / 2 < |current|
    requires next == ButterflyOn(current, i, i + groupSize / 2, twiddles[group])
    ensures NrPartial(before, next, twiddles, groupCount, groupSize, group, i + 1)
  {
    NrButterflyAt(before, twiddles, groupCount, groupSize, group, i);
    var j := i + groupSize / 2;
    var i' := i + 1;
    assert NrPartialAt(before, current, twiddles, groupCount, groupSize, group, i, i);
    assert NrPartialAt(before, current, twiddles, groupCount, groupSize, group, i, j);
    forall p | 0 <= p < |before|
      ensures NrPartialAt(before, next, twiddles, groupCount, groupSize, group, i', p)
    {
      if p != i && p != j {
        assert NrPartialAt(before, current, twiddles, groupCount, groupSize, group, i, p);
      }
    }
  }

  /** After its last butterfly a group is done, and the next one starts. */
  lemma NrPartialGroup(before: seq<Elem>, current: seq<Elem>, twiddles: seq<Elem>,
                       groupCount: nat, groupSize: nat, group: nat, i: int)
    requires Halvable(|before|, groupCount, groupSize) && |twiddles| >= |before| / 2
    requires i == group * groupSize + groupSize / 2
    requires NrPartial(before, current, twiddles, groupCount, groupSize, group, i)
    ensures (group + 1) * groupSize == group * groupSize + groupSize
    ensures NrPartial(before, current, twiddles, groupCount, groupSize, group + 1, (group + 1) * groupSize)
  {
    MulSucc(group, groupSize);
    var group', first' := group + 1, (group + 1) * groupSize;
    forall p | 0 <= p < |before|
      ensures NrPartialAt(before, current, twiddles, groupCount, groupSize, group', first', p)
    {
      assert NrPartialAt(before, current, twiddles, groupCount, groupSize, group, i, p);
    }
  }

  /** Before the first group nothing is rewritten, after the last group
      everything is. */
  lemma NrPartialEnds(before: seq<Elem>, current: seq<Elem>, twiddles: seq<Elem>, groupCount: nat, groupSize: nat)
    requires Halvable(|before|, groupCount, groupSize) && |twiddles| >= |before| / 2
    ensures NrPartial(before, before, twiddles, groupCount, groupSize, 0, 0)
    ensures NrPartial(before, current, twiddles, groupCount, groupSize, groupCount, groupCount * groupSize)
            ==> current == NrStage(before, twiddles, groupCount, groupSize)
  {
    forall p | 0 <= p < |before|
      ensures NrPartialAt(before, before, twiddles, groupCount, groupSize, 0, 0, p)
    {
    }
    if NrPartial(before, current, twiddles, groupCount, groupSize, groupCount, groupCount * groupSize) {
      forall p | 0 <= p < |before|
        ensures current[p] == NrStage(before, twiddles, groupCount, groupSize)[p]
      {
        assert NrPartialAt(before, current, twiddles, groupCount, groupSize, groupCount, groupCount * groupSize, p);
      }
    }
  }

  /** `current` is `before` part-way through an RN stage: groups `0..group` are
      done and group `group` has run its first `l` butterflies. */
  ghost predicate RnPartial(before: seq<Elem>, current: seq<Elem>, twiddles: seq<Elem>,
                            groupCount: nat, groupSize: nat, group: nat, l: nat)
    requires Halvable(|before|, groupCount, groupSize) && |twiddles| >= |before| / 2
  {
    |current| == |before|
    && forall p :: 0 <= p < |before| ==> RnPartialAt(before, current, twiddles, groupCount, groupSize, group, l, p)
  }

  /** Position `p` of `current` as `RnPartial` describes it. */
  ghost predicate RnPartialAt(before: seq<Elem>, current: seq<Elem>, twiddles: seq<Elem>,
                              groupCount: nat, groupSize: nat, group: nat, l: nat, p: nat)
    requires Halvable(|before|, groupCount, groupSize) && |twiddles| >= |before| / 2
    requires |current| == |before| && p < |before|
  {
    current[p] == if RnDone(groupCount, group, l, p)
                  then RnStageAt(before, twiddles, groupCount, groupSize, p) else before[p]
  }

  /** RN butterfly `l` of `group` moves the stage on by one butterfly. */
  lemma RnPartialStep(before: seq<Elem>, current: seq<Elem>, next: seq<Elem>, twiddles: seq<Elem>,
                      groupCount: nat, groupSize: nat, group: nat, l: nat, i: nat)
    requires Halvable(|before|, groupCount, groupSize) && |twiddles| >= |before| / 2
    requires group < groupCount && l < groupSize / 2 && i == group + l * (2 * groupCount)
    requires RnPartial(before, current, twiddles, groupCount, groupSize, group, l)
    requires RnTwiddleIndex(groupSize, group) < |twiddles| && i + groupCount < |current|
    requires next == ButterflyOn(current, i, i + groupCount, twiddles[RnTwiddleIndex(groupSize, group)])
    ensures RnPartial(before, next, twiddles, groupCount, groupSize, group, l + 1)
  {
    RnButterflyAt(before, twiddles, groupCount, groupSize, group, l);
    RnDoneStep(|before|, groupCount, groupSize, group, l);
    var j := i + groupCount;
    var l' := l + 1;
    assert RnPartialAt(before, current, twiddles, groupCount, groupSize, group, l, i);
    assert RnPartialAt(before, current, twiddles, groupCount, groupSize, group, l, j);
    forall p | 0 <= p < |before|
      ensures RnPartialAt(before, next, twiddles, groupCount, groupSize, group, l', p)
    {
      if p != i && p != j {
        assert RnPartialAt(before, current, twiddles, groupCount, groupSize, group, l, p);
      }
    }
  }

  /** After its last butterfly a group is done, and the next one starts. */
  lemma RnPartialGroup(before: seq<Elem>, current: seq<Elem>, twiddles: seq<Elem>,
                       groupCount: nat, groupSize: nat, group: nat)
    requires Halvable(|before|, groupCount, groupSize) && |twiddles| >= |before| / 2 && group < groupCount
    requires RnPartial(before, current, twiddles, groupCount, groupSize, group, groupSize / 2)
    ensures RnPartial(before, current, twiddles, groupCount, groupSize, group + 1, 0)
  {
    RnDoneGroup(|before|, groupCount, groupSize, group);
    var group' := group + 1;
    forall p | 0 <= p < |before|
      ensures RnPartialAt(before, current, twiddles, groupCount, groupSize, group', 0, p)
    {
      assert RnPartialAt(before, current, twiddles, groupCount, groupSize, group, groupSize / 2, p);
    }
  }

  lemma RnPartialEnds(before: seq<Elem>, current: seq<Elem>, twiddles: seq<Elem>, groupCount: nat, groupSize: nat)
    requires Halvable(|before|, groupCount, groupSize) && |twiddles| >= |before| / 2
    ensures RnPartial(before, before, twiddles, groupCount, groupSize, 0, 0)
    ensures RnPartial(before, current, twiddles, groupCount, groupSize, groupCount, 0)
            ==> current == RnStage(before, twiddles, groupCount, groupSize)
  {
    forall p | 0 <= p < |before|
      ensures RnPartialAt(before, before, twiddles, groupCount, groupSize, 0, 0, p)
    {
      RnDoneEnds(groupCount, p);
    }
    if RnPartial(before, current, twiddles, groupCount, groupSize, groupCount, 0) {
      forall p | 0 <= p < |before|
        ensures current[p] == RnStage(before, twiddles, groupCount, groupSize)[p]
      {
        RnDoneEnds(groupCount, p);
        assert RnPartialAt(before, current, twiddles, groupCount, groupSize, groupCount, 0, p);
      }
    }
  }
}
