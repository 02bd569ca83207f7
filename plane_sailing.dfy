/** The offline pulse-alignment helpers: trim an envelope around its peak, pick the
    sample phase whose fixed-width blocks differ most from block to block, and average
    the aligned envelope down to half-unit buckets. Magnitudes are `real`; a NaN
    result of the original becomes `None`. */
module PlaneSailing {
  import opened Wrappers
  import opened Slicing

  // ---------------------------------------------------------------------------
  // Averages

  function Sum(s: seq<real>): real
    decreases |s|
  {
    if |s| == 0 then 0.0 else s[0] + Sum(s[1..])
  }

  function Mean(s: seq<real>): real
    requires |s| > 0
  {
    Sum(s) / (|s| as real)
  }

  function Abs(x: real): real
  {
    if x < 0.0 then -x else x
  }

  function Min(a: int, b: int): int
  {
    if a < b then a else b
  }

  /** `c * x` as a named function, so that equal arguments give equal products by
      congruence inside sequences and options. */
  function Mul(c: real, x: real): real
  {
    c * x
  }

  /** Every value multiplied by `c`. */
  function Scale(s: seq<real>, c: real): (r: seq<real>)
    ensures |r| == |s|
    decreases |s|
  {
    if |s| == 0 then [] else [Mul(c, s[0])] + Scale(s[1..], c)
  }

  /** `ceil(a / w)` for a positive width. */
  function CeilDiv(a: nat, w: nat): nat
    requires w > 0
  {
    (a + w - 1) / w
  }

  // ---------------------------------------------------------------------------
  // trim_iq_around_peak

  /** numpy's `argmax`: the FIRST index holding the maximum value. */
  function ArgMax(s: seq<real>): (idx: nat)
    requires |s| > 0
    ensures idx < |s|
    ensures forall j :: 0 <= j < |s| ==> s[j] <= s[idx]
    ensures forall j :: 0 <= j < idx ==> s[j] < s[idx]
    decreases |s|
  {
    if |s| == 1 then 0
    else
      var i := ArgMax(s[..|s| - 1]);
      if s[|s| - 1] > s[i] then |s| - 1 else i
  }

  /** The half-width `preprocess_iq` uses. */
  const DefaultHalfWidth: int := 1000

  /** `iq_mag[idx - n : idx + n]` around the first peak. The start is not clamped:
      Python reads a negative start from the end of the sequence. `None` stands for the
      error `argmax` raises on an empty input. */
  function TrimIqAroundPeak(iqMag: seq<real>, nEitherSide: int): (r: Option<seq<real>>)
    ensures r.None? <==> |iqMag| == 0
    ensures r.Some? && nEitherSide >= 0 ==> |r.value| <= 2 * nEitherSide
    ensures r.Some? && 0 <= nEitherSide <= ArgMax(iqMag) && ArgMax(iqMag) + nEitherSide <= |iqMag| ==>
              |r.value| == 2 * nEitherSide &&
              forall k :: 0 <= k < |r.value| ==> r.value[k] == iqMag[ArgMax(iqMag) - nEitherSide + k]
  {
    if |iqMag| == 0 then None
    else
      var idx := ArgMax(iqMag);
      Some(Slice(iqMag, idx - nEitherSide, idx + nEitherSide))
  }

  /** Near the start the negative bound wraps round to the end: with the peak closer
      than `n` to the start and at least `2n` samples, the trim is empty. */
  lemma TrimNearStartIsEmpty(iqMag: seq<real>, n: int)
    requires |iqMag| > 0 && 2 * n <= |iqMag|
    requires ArgMax(iqMag) < n
    ensures TrimIqAroundPeak(iqMag, n) == Some([])
  {
    var idx := ArgMax(iqMag);
    assert SliceIndex(idx - n, |iqMag|) == |iqMag| + idx - n;
    assert SliceIndex(idx + n, |iqMag|) <= idx + n;
  }

  /** With fewer than `2n` samples the wrapped window starts after the peak, so the trim
      can leave the peak out altogether. */
  lemma TrimCanMissPeak()
    ensures var s := [0.0, 9.0, 0.0, 0.0, 0.0];
            ArgMax(s) == 1 && TrimIqAroundPeak(s, 3) == Some([0.0]) && 9.0 !in TrimIqAroundPeak(s, 3).value
  {
    var s := [0.0, 9.0, 0.0, 0.0, 0.0];
    assert ArgMax([0.0]) == 0;
    assert [0.0, 9.0][..1] == [0.0];
    assert ArgMax([0.0, 9.0]) == 1;
    assert [0.0, 9.0, 0.0][..2] == [0.0, 9.0];
    assert ArgMax([0.0, 9.0, 0.0]) == 1;
    assert [0.0, 9.0, 0.0, 0.0][..3] == [0.0, 9.0, 0.0];
    assert ArgMax([0.0, 9.0, 0.0, 0.0]) == 1;
    assert s[..4] == [0.0, 9.0, 0.0, 0.0];
    assert ArgMax(s) == 1;
    assert SliceIndex(-2, 5) == 3 && SliceIndex(4, 5) == 4;
    assert Slice(s, -2, 4) == s[3..4] == [0.0];
  }

  /** Near the end the stop is clipped: the trim is the rest of the sequence from
      `idx - n`, shorter than `2n`. */
  lemma TrimNearEndIsClipped(iqMag: seq<real>, n: int)
    requires |iqMag| > 0 && 0 <= n <= ArgMax(iqMag)
    requires ArgMax(iqMag) + n > |iqMag|
    ensures TrimIqAroundPeak(iqMag, n) == Some(iqMag[ArgMax(iqMag) - n..])
    ensures |TrimIqAroundPeak(iqMag, n).value| < 2 * n
  {
    var idx := ArgMax(iqMag);
    assert SliceIndex(idx - n, |iqMag|) == idx - n;
    assert SliceIndex(idx + n, |iqMag|) == |iqMag|;
    assert Slice(iqMag, idx - n, idx + n) == iqMag[idx - n..|iqMag|] == iqMag[idx - n..];
    assert TrimIqAroundPeak(iqMag, n) == Some(Slice(iqMag, idx - n, idx + n));
  }

  // ---------------------------------------------------------------------------
  // Block means (the `groupby(i // w).mean()` of both shift and downsample)

  /** Means of consecutive blocks of width `w`; the final block may be short. */
  function BlockMeans(d: seq<real>, w: nat): (r: seq<real>)
    requires w > 0
    ensures |r| == 0 <==> |d| == 0
    ensures |r| == 1 <==> 0 < |d| <= w
    decreases |d|
  {
    if |d| == 0 then []
    else if |d| <= w then [Mean(d)]
    else [Mean(d[..w])] + BlockMeans(d[w..], w)
  }

  /** There are `ceil(|d| / w)` blocks. */
  lemma {:induction false} BlockCount(d: seq<real>, w: nat)
    requires w > 0
    ensures |BlockMeans(d, w)| == CeilDiv(|d|, w)
    decreases |d|
  {
    if |d| == 0 {
      DivSmall(w - 1, w);
    } else if |d| <= w {
      DivSmall(|d| - 1, w);
      DivStep(|d| - 1, w);
    } else {
      BlockCount(d[w..], w);
      DivStep(|d| - 1, w);
    }
  }

  lemma MulMono(a: int, b: int, w: nat)
    requires a <= b
    ensures a * w <= b * w
  {
    assert b * w - a * w == (b - a) * w;
  }

  lemma DivSmall(x: nat, w: nat)
    requires x < w
    ensures x / w == 0
  {
  }

  lemma DivStep(x: nat, w: nat)
    requires w > 0
    ensures (x + w) / w == x / w + 1
  {
    var q, r := x / w, x % w;
    var q2, r2 := (x + w) / w, (x + w) % w;
    assert x == q * w + r && 0 <= r < w;
    assert x + w == q2 * w + r2 && 0 <= r2 < w;
    assert (q + 1) * w == q * w + w;
    assert (q + 2) * w == q * w + 2 * w;
    if q2 > q + 1 {
      MulMono(q + 2, q2, w);
    } else if q2 < q + 1 {
      MulMono(q2, q, w);
    }
  }

  /** Block `k` is exactly the samples whose integer key `i / w` is `k`. */
  lemma BlockKey(i: nat, w: nat, k: nat)
    requires w > 0
    ensures i / w == k <==> k * w <= i < (k + 1) * w
  {
    var q, r := i / w, i % w;
    assert i == q * w + r && 0 <= r < w;
    if q < k {
      assert (q + 1) * w <= k * w;
    } else if q > k {
      assert (k + 1) * w <= q * w;
    }
  }

  /** Block mean `k` is the mean of `d[lo..hi]`, where `lo == k * w` and `hi` is
      `lo + w` cut at the end of `d`. */
  lemma {:induction false} BlockMeansAtRange(d: seq<real>, w: nat, k: nat, lo: int, hi: int)
    requires w > 0 && k < |BlockMeans(d, w)|
    requires lo == k * w && hi == Min(lo + w, |d|)
    ensures 0 <= lo < hi <= |d| && BlockMeans(d, w)[k] == Mean(d[lo..hi])
    decreases |d|
  {
    if k == 0 {
      assert lo == 0 && hi == Min(w, |d|);
      BlockMeansFirst(d, w);
    } else {
      var d' := d[w..];
      BlockMeansRest(d, w);
      assert BlockMeans(d, w)[k] == BlockMeans(d', w)[k - 1];
      MulSucc(k - 1, w);
      assert lo - w == (k - 1) * w && hi - w == Min(lo - w + w, |d'|);
      BlockMeansAtRange(d', w, k - 1, lo - w, hi - w);
      DropThenSlice(d, w, lo, hi);
    }
  }

  lemma DropThenSlice(d: seq<real>, w: int, lo: int, hi: int)
    requires 0 <= w <= lo <= hi <= |d|
    ensures d[w..][lo - w..hi - w] == d[lo..hi]
  {
  }

  lemma BlockMeansFirst(d: seq<real>, w: nat)
    requires w > 0 && |d| > 0
    ensures BlockMeans(d, w)[0] == Mean(d[0..Min(w, |d|)])
  {
    assert d[0..Min(w, |d|)] == if |d| <= w then d else d[..w];
  }

  lemma BlockMeansRest(d: seq<real>, w: nat)
    requires w > 0 && |BlockMeans(d, w)| > 1
    ensures |d| > w && BlockMeans(d, w)[1..] == BlockMeans(d[w..], w)
  {
  }

  lemma MulSucc(j: int, w: int)
    ensures j * w + w == (j + 1) * w
  {
  }

  /** Block mean `k` is the mean of `d[k*w .. min((k+1)*w, |d|)]`. */
  lemma BlockMeansAt(d: seq<real>, w: nat, k: nat)
    requires w > 0 && k < |BlockMeans(d, w)|
    ensures k * w < |d|
    ensures BlockMeans(d, w)[k] == Mean(d[k * w .. Min((k + 1) * w, |d|)])
  {
    MulSucc(k, w);
    BlockMeansAtRange(d, w, k, k * w, Min(k * w + w, |d|));
  }

  /** Every block mean is the mean of its window. */
  lemma BlockMeansWindows(d: seq<real>, w: nat)
    requires w > 0
    ensures forall k :: 0 <= k < |BlockMeans(d, w)| ==>
              k * w < |d| && BlockMeans(d, w)[k] == Mean(d[k * w .. Min((k + 1) * w, |d|)])
  {
    forall k | 0 <= k < |BlockMeans(d, w)|
      ensures k * w < |d| && BlockMeans(d, w)[k] == Mean(d[k * w .. Min((k + 1) * w, |d|)])
    {
      BlockMeansAt(d, w, k);
    }
  }

  // ---------------------------------------------------------------------------
  // shift_to_optimal_phase

  /** Absolute differences between each block mean and its predecessor (pandas'
      `(b - b.shift(1)).abs()` without its leading NaN). */
  function AbsDeltas(b: seq<real>): (r: seq<real>)
    ensures |b| > 0 ==> |r| == |b| - 1
    decreases |b|
  {
    if |b| < 2 then [] else [Abs(b[1] - b[0])] + AbsDeltas(b[1..])
  }

  /** Delta `k` is the distance between block means `k + 1` and `k`. */
  lemma {:induction false} AbsDeltasAt(b: seq<real>, k: nat)
    requires k + 1 < |b|
    ensures AbsDeltas(b)[k] == Abs(b[k + 1] - b[k])
    decreases k
  {
    if k > 0 {
      AbsDeltasAt(b[1..], k - 1);
    }
  }

  lemma {:induction false} SumAbsDeltasNonNegative(b: seq<real>)
    ensures Sum(AbsDeltas(b)) >= 0.0
    decreases |b|
  {
    if |b| >= 2 {
      SumAbsDeltasNonNegative(b[1..]);
      assert AbsDeltas(b)[1..] == AbsDeltas(b[1..]);
    }
  }

  /** The mean of the block-to-block differences, defined only when there are at least
      two blocks (otherwise pandas' mean is NaN). */
  function BlockScore(b: seq<real>): (r: Option<real>)
    ensures r.Some? <==> |b| >= 2
    ensures r.Some? ==> r.value >= 0.0
  {
    if |b| < 2 then None
    else
      SumAbsDeltasNonNegative(b);
      Some(Sum(AbsDeltas(b)) / ((|b| - 1) as real))
  }

  /** The score of one phase's samples with blocks of width `w`. */
  function Score(d: seq<real>, w: nat): (r: Option<real>)
    requires w > 0
    ensures r.Some? <==> |d| > w
    ensures r.Some? ==> r.value >= 0.0
  {
    BlockScore(BlockMeans(d, w))
  }

  /** The score of phase `p`: the score of `iq_mag[p:]` with blocks of `samplesPerUs`. */
  function PhaseScore(s: seq<real>, samplesPerUs: nat, p: nat): (r: Option<real>)
    requires samplesPerUs > 0
    ensures r.Some? ==> r.value >= 0.0
  {
    Score(From(s, p), samplesPerUs)
  }

  /** A phase's score is defined exactly when its suffix spans two blocks or more. */
  lemma PhaseScoreDefined(s: seq<real>, samplesPerUs: nat, p: nat)
    requires samplesPerUs > 0
    ensures PhaseScore(s, samplesPerUs, p).Some? <==> p + samplesPerUs < |s|
  {
  }

  /** The number of phases the loop examines: `range(0, samples_per_us - 1)`. */
  function PhasesChecked(samplesPerUs: int): nat
  {
    if samplesPerUs >= 1 then samplesPerUs - 1 else 0
  }

  /** The scores of the first `n` phases, in the order the loop visits them. */
  function PhaseScoresUpTo(s: seq<real>, samplesPerUs: int, n: nat): (r: seq<Option<real>>)
    requires n == 0 || n < samplesPerUs
    ensures |r| == n
    decreases n
  {
    if n == 0 then [] else PhaseScoresUpTo(s, samplesPerUs, n - 1) + [PhaseScore(s, samplesPerUs, n - 1)]
  }

  /** The scores of all examined phases. */
  function PhaseScores(s: seq<real>, samplesPerUs: int): (r: seq<Option<real>>)
    ensures |r| == PhasesChecked(samplesPerUs)
  {
    PhaseScoresUpTo(s, samplesPerUs, PhasesChecked(samplesPerUs))
  }

  /** Entry `p` is the score of phase `p`. */
  lemma {:induction false} PhaseScoresUpToAt(s: seq<real>, samplesPerUs: int, n: nat, p: nat)
    requires (n == 0 || n < samplesPerUs) && p < n
    ensures samplesPerUs > 0 && PhaseScoresUpTo(s, samplesPerUs, n)[p] == PhaseScore(s, samplesPerUs, p)
    decreases n
  {
    if p < n - 1 {
      PhaseScoresUpToAt(s, samplesPerUs, n - 1, p);
    }
  }

  /** Entry `p` is defined exactly when phase `p` leaves two blocks, and is then
      non-negative. */
  lemma {:induction false} PhaseScoresUpToFacts(s: seq<real>, samplesPerUs: int, n: nat)
    requires n == 0 || n < samplesPerUs
    ensures forall p: nat :: p < n ==>
              (PhaseScoresUpTo(s, samplesPerUs, n)[p].Some? <==> p + samplesPerUs < |s|) &&
              (PhaseScoresUpTo(s, samplesPerUs, n)[p].Some? ==> PhaseScoresUpTo(s, samplesPerUs, n)[p].value >= 0.0)
    decreases n
  {
    if n > 0 {
      PhaseScoresUpToFacts(s, samplesPerUs, n - 1);
      PhaseScoresUpToAt(s, samplesPerUs, n, n - 1);
      PhaseScoreDefined(s, samplesPerUs, n - 1);
      var prefix := PhaseScoresUpTo(s, samplesPerUs, n - 1);
      assert forall p: nat :: p < n - 1 ==> PhaseScoresUpTo(s, samplesPerUs, n)[p] == prefix[p];
    }
  }

  /** Defined scores are never negative. */
  predicate NonNegative(scores: seq<Option<real>>)
  {
    forall i :: 0 <= i < |scores| && scores[i].Some? ==> scores[i].value >= 0.0
  }

  /** The running best of the phase loop: `max_score` and `max_score_phase`. */
  datatype Best = Best(maxScore: real, phase: Option<nat>)

  const InitialBest: Best := Best(-1.0, None)

  /** A phase replaces the running best only if its score beats the best by more than 1%;
      an undefined (NaN) score never does. */
  function Consider(b: Best, phase: nat, score: Option<real>): (r: Best)
  {
    if score.Some? && score.value > b.maxScore * 1.01 then Best(score.value, Some(phase)) else b
  }

  /** One comparison never lowers a non-negative best and never forgets a selection;
      a phase that takes over scores more than 1% above the best it replaces. */
  lemma ConsiderOnlyImproves(b: Best, phase: nat, score: Option<real>)
    ensures b.maxScore >= 0.0 ==> Consider(b, phase, score).maxScore >= b.maxScore
    ensures Consider(b, phase, score).phase.None? ==> b.phase.None?
    ensures Consider(b, phase, score) != b ==>
              Consider(b, phase, score).phase == Some(phase) &&
              Consider(b, phase, score).maxScore > b.maxScore * 1.01
  {
  }

  /** The running best after the first `n` scores have been considered. */
  function Select(scores: seq<Option<real>>, n: nat): (r: Best)
    requires n <= |scores|
    ensures r.phase.Some? ==> r.phase.value < n
    decreases n
  {
    if n == 0 then InitialBest else Consider(Select(scores, n - 1), n - 1, scores[n - 1])
  }

  /** The phase the loop ends with; `None` when no phase had a defined score. */
  function OptimalPhase(s: seq<real>, samplesPerUs: int): (r: Option<nat>)
    ensures r.Some? ==> r.value < PhasesChecked(samplesPerUs)
  {
    var scores := PhaseScores(s, samplesPerUs);
    Select(scores, |scores|).phase
  }

  /** `iq_mag[max_score_phase:]`, where `iq_mag[None:]` is the whole input. */
  function FromPhase(s: seq<real>, phase: Option<nat>): (r: seq<real>)
    ensures |r| <= |s|
  {
    match phase
    case Some(p) => From(s, p)
    case None => s
  }

  /** What the running best always satisfies: with no phase selected the bound is still
      the initial -1 and no score so far was defined; otherwise the selected phase was
      examined and the bound is its (non-negative) score. */
  lemma {:induction false} SelectInvariant(scores: seq<Option<real>>, n: nat)
    requires n <= |scores| && NonNegative(scores)
    ensures var b := Select(scores, n);
            (b.phase.None? ==> b.maxScore == -1.0 && forall i :: 0 <= i < n ==> scores[i].None?) &&
            (b.phase.Some? ==> b.phase.value < n && b.maxScore >= 0.0 && scores[b.phase.value] == Some(b.maxScore))
    decreases n
  {
    if n > 0 {
      SelectInvariant(scores, n - 1);
    }
  }

  /** Hysteresis: once a defined score has been seen, something is selected, and that
      score is within 1% of the selected one; no later phase beat the winner by more
      than 1%. */
  lemma {:induction false} WinnerWithinOnePercent(scores: seq<Option<real>>, n: nat, q: nat)
    requires n <= |scores| && NonNegative(scores)
    requires q < n && scores[q].Some?
    ensures Select(scores, n).phase.Some?
    ensures scores[q].value <= Select(scores, n).maxScore * 1.01
    decreases n
  {
    SelectInvariant(scores, n - 1);
    if q < n - 1 {
      WinnerWithinOnePercent(scores, n - 1, q);
    }
  }

  /** Phase 0 is taken as soon as its score is defined, because the bound starts at -1. */
  lemma PhaseZeroTaken(scores: seq<Option<real>>)
    requires |scores| >= 1 && NonNegative(scores) && scores[0].Some?
    ensures Select(scores, 1) == Best(scores[0].value, Some(0))
  {
  }

  /** Once a phase is selected the selection never returns to `None`. */
  lemma {:induction false} SelectionPersists(scores: seq<Option<real>>, m: nat, n: nat)
    requires m <= n <= |scores|
    requires Select(scores, m).phase.Some?
    ensures Select(scores, n).phase.Some?
    decreases n - m
  {
    if m < n {
      SelectionPersists(scores, m, n - 1);
    }
  }

  /** Every examined phase has a non-negative score or none. */
  lemma PhaseScoresNonNegative(s: seq<real>, samplesPerUs: int)
    ensures NonNegative(PhaseScores(s, samplesPerUs))
    ensures forall p: nat :: p < |PhaseScores(s, samplesPerUs)| ==>
              (PhaseScores(s, samplesPerUs)[p].Some? <==> p + samplesPerUs < |s|)
  {
    PhaseScoresUpToFacts(s, samplesPerUs, PhasesChecked(samplesPerUs));
  }

  /** The selected phase lies in `[0, samples_per_us - 2]` (the last offset
      `samples_per_us - 1` is never examined) and leaves at least two blocks. */
  lemma OptimalPhaseRange(s: seq<real>, samplesPerUs: int)
    requires OptimalPhase(s, samplesPerUs).Some?
    ensures OptimalPhase(s, samplesPerUs).value <= samplesPerUs - 2
    ensures OptimalPhase(s, samplesPerUs).value + samplesPerUs < |s|
  {
    var scores := PhaseScores(s, samplesPerUs);
    PhaseScoresNonNegative(s, samplesPerUs);
    SelectInvariant(scores, |scores|);
  }

  /** Nothing is selected, and the whole input comes back, exactly when the input is no
      longer than one block (or fewer than two phases are examined). */
  lemma NothingSelectedIffShort(s: seq<real>, samplesPerUs: int)
    ensures OptimalPhase(s, samplesPerUs).None? <==> samplesPerUs < 2 || |s| <= samplesPerUs
  {
    var scores := PhaseScores(s, samplesPerUs);
    PhaseScoresNonNegative(s, samplesPerUs);
    if samplesPerUs >= 2 {
      if |s| > samplesPerUs {
        WinnerWithinOnePercent(scores, |scores|, 0);
      } else {
        SelectInvariant(scores, |scores|);
      }
    }
  }

  // ---------------------------------------------------------------------------
  // Scale invariance

  lemma {:induction false} SumScale(s: seq<real>, c: real)
    ensures Sum(Scale(s, c)) == Mul(c, Sum(s))
    decreases |s|
  {
    if |s| > 0 {
      SumScale(s[1..], c);
      var t := Scale(s, c);
      assert t[0] == Mul(c, s[0]) && t[1..] == Scale(s[1..], c);
      assert c * s[0] + c * Sum(s[1..]) == c * (s[0] + Sum(s[1..]));
    }
  }

  lemma {:induction false} ScaleFrom(s: seq<real>, c: real, k: nat)
    requires k <= |s|
    ensures Scale(s, c)[k..] == Scale(s[k..], c)
    decreases k
  {
    if k > 0 {
      ScaleFrom(s[1..], c, k - 1);
      assert s[1..][k - 1..] == s[k..];
    }
  }

  lemma {:induction false} ScaleTake(s: seq<real>, c: real, k: nat)
    requires k <= |s|
    ensures Scale(s, c)[..k] == Scale(s[..k], c)
    decreases k
  {
    if k > 0 {
      ScaleTake(s[1..], c, k - 1);
      assert s[..k][1..] == s[1..][..k - 1];
    }
  }

  lemma MeanScale(s: seq<real>, c: real)
    requires |s| > 0
    ensures Mean(Scale(s, c)) == Mul(c, Mean(s))
  {
    SumScale(s, c);
    QuotientScale(c, Sum(s), Sum(Scale(s, c)), |s| as real, |Scale(s, c)| as real);
  }

  /** `(c * t) / k == c * (t / k)`, stated on the terms as they occur. */
  lemma QuotientScale(c: real, t: real, t': real, k: real, k': real)
    requires k > 0.0 && k' == k && t' == Mul(c, t)
    ensures t' / k' == Mul(c, t / k)
  {
  }

  lemma {:induction false} BlockMeansScale(d: seq<real>, w: nat, c: real)
    requires w > 0
    ensures BlockMeans(Scale(d, c), w) == Scale(BlockMeans(d, w), c)
    decreases |d|
  {
    if |d| == 0 {
    } else if |d| <= w {
      MeanScale(d, c);
    } else {
      var sd := Scale(d, c);
      ScaleFrom(d, c, w);
      ScaleTake(d, c, w);
      MeanScale(d[..w], c);
      BlockMeansScale(d[w..], w, c);
      var m := Mean(d[..w]);
      var rest := BlockMeans(d[w..], w);
      assert BlockMeans(sd, w) == [Mul(c, m)] + Scale(rest, c);
      assert ([m] + rest)[0] == m && ([m] + rest)[1..] == rest;
    }
  }

  lemma AbsScale(c: real, x: real)
    requires c > 0.0
    ensures Abs(c * x) == Mul(c, Abs(x))
  {
    if x < 0.0 {
      assert c * x < 0.0;
    } else {
      assert c * x >= 0.0;
    }
  }

  lemma {:induction false} AbsDeltasScale(b: seq<real>, c: real)
    requires c > 0.0
    ensures AbsDeltas(Scale(b, c)) == Scale(AbsDeltas(b), c)
    decreases |b|
  {
    if |b| >= 2 {
      var sb := Scale(b, c);
      AbsDeltasScale(b[1..], c);
      assert sb[1..] == Scale(b[1..], c);
      assert sb[0] == Mul(c, b[0]) && sb[1] == Mul(c, b[1]);
      assert Mul(c, b[1]) - Mul(c, b[0]) == c * (b[1] - b[0]);
      AbsScale(c, b[1] - b[0]);
      assert Abs(sb[1] - sb[0]) == Mul(c, Abs(b[1] - b[0]));
      var ds := AbsDeltas(b);
      assert ds[0] == Abs(b[1] - b[0]) && ds[1..] == AbsDeltas(b[1..]);
    }
  }

  lemma SumAbsDeltasScale(b: seq<real>, c: real)
    requires c > 0.0
    ensures Sum(AbsDeltas(Scale(b, c))) == Mul(c, Sum(AbsDeltas(b)))
  {
    AbsDeltasScale(b, c);
    SumScale(AbsDeltas(b), c);
  }

  lemma BlockScoreScale(b: seq<real>, c: real)
    requires c > 0.0
    ensures BlockScore(Scale(b, c)).Some? <==> BlockScore(b).Some?
    ensures BlockScore(b).Some? ==> BlockScore(Scale(b, c)).value == Mul(c, BlockScore(b).value)
  {
    if |b| >= 2 {
      SumAbsDeltasScale(b, c);
      QuotientScale(c, Sum(AbsDeltas(b)), Sum(AbsDeltas(Scale(b, c))),
                    (|b| - 1) as real, (|Scale(b, c)| - 1) as real);
    }
  }

  lemma ScoreScale(d: seq<real>, w: nat, c: real)
    requires w > 0 && c > 0.0
    ensures Score(Scale(d, c), w).Some? <==> Score(d, w).Some?
    ensures Score(d, w).Some? ==> Score(Scale(d, c), w).value == Mul(c, Score(d, w).value)
  {
    BlockMeansScale(d, w, c);
    BlockScoreScale(BlockMeans(d, w), c);
  }

  /** Scaling the input scales every phase score by the same factor. */
  lemma PhaseScoreScale(s: seq<real>, samplesPerUs: nat, p: nat, c: real)
    requires samplesPerUs > 0 && c > 0.0
    ensures PhaseScore(Scale(s, c), samplesPerUs, p).Some? <==> PhaseScore(s, samplesPerUs, p).Some?
    ensures PhaseScore(s, samplesPerUs, p).Some? ==>
              PhaseScore(Scale(s, c), samplesPerUs, p).value == Mul(c, PhaseScore(s, samplesPerUs, p).value)
  {
    ScaleFrom(s, c, SliceIndex(p, |s|));
    ScoreScale(From(s, p), samplesPerUs, c);
  }

  /** Scaled scores against scaled bounds select the same phases step by step. */
  lemma {:induction false} SelectScale(scores: seq<Option<real>>, scores': seq<Option<real>>, n: nat, c: real)
    requires c > 0.0 && n <= |scores| == |scores'|
    requires NonNegative(scores) && NonNegative(scores')
    requires forall i :: 0 <= i < |scores| ==> (scores'[i].Some? <==> scores[i].Some?)
    requires forall i :: 0 <= i < |scores| && scores[i].Some? ==> scores'[i].value == Mul(c, scores[i].value)
    ensures Select(scores', n).phase == Select(scores, n).phase
    ensures Select(scores, n).phase.Some? ==> Select(scores', n).maxScore == Mul(c, Select(scores, n).maxScore)
    decreases n
  {
    if n > 0 {
      SelectScale(scores, scores', n - 1, c);
      SelectInvariant(scores, n - 1);
      SelectInvariant(scores', n - 1);
      ConsiderScale(Select(scores, n - 1), Select(scores', n - 1), n - 1, scores[n - 1], scores'[n - 1], c);
    }
  }

  lemma ConsiderScale(b: Best, b': Best, phase: nat, sc: Option<real>, sc': Option<real>, c: real)
    requires c > 0.0
    requires b'.phase == b.phase
    requires b.phase.None? ==> b.maxScore == -1.0 && b'.maxScore == -1.0
    requires b.phase.Some? ==> b'.maxScore == Mul(c, b.maxScore)
    requires sc'.Some? <==> sc.Some?
    requires sc.Some? ==> sc.value >= 0.0 && sc'.value == Mul(c, sc.value)
    ensures Consider(b', phase, sc').phase == Consider(b, phase, sc).phase
    ensures Consider(b, phase, sc).phase.Some? ==>
              Consider(b', phase, sc').maxScore == Mul(c, Consider(b, phase, sc).maxScore)
  {
    if sc.Some? && b.phase.Some? {
      MulPositiveKeepsOrder(c, sc.value, b.maxScore * 1.01);
      assert c * (b.maxScore * 1.01) == (c * b.maxScore) * 1.01;
    } else if sc.Some? {
      assert sc'.value >= 0.0 by {
        assert c * sc.value >= 0.0;
      }
    }
  }

  lemma MulPositiveKeepsOrder(c: real, x: real, y: real)
    requires c > 0.0
    ensures c * x > c * y <==> x > y
  {
    assert c * x - c * y == c * (x - y);
  }

  /** Scaling the input scales the whole table of phase scores. */
  lemma {:induction false} PhaseScoresUpToScale(s: seq<real>, samplesPerUs: int, n: nat, c: real)
    requires (n == 0 || n < samplesPerUs) && c > 0.0
    ensures forall p: nat :: p < n ==>
              (PhaseScoresUpTo(Scale(s, c), samplesPerUs, n)[p].Some? <==> PhaseScoresUpTo(s, samplesPerUs, n)[p].Some?) &&
              (PhaseScoresUpTo(s, samplesPerUs, n)[p].Some? ==>
                 PhaseScoresUpTo(Scale(s, c), samplesPerUs, n)[p].value == Mul(c, PhaseScoresUpTo(s, samplesPerUs, n)[p].value))
    decreases n
  {
    if n > 0 {
      PhaseScoresUpToScale(s, samplesPerUs, n - 1, c);
      PhaseScoresUpToAt(s, samplesPerUs, n, n - 1);
      PhaseScoresUpToAt(Scale(s, c), samplesPerUs, n, n - 1);
      PhaseScoreScale(s, samplesPerUs, n - 1, c);
      var prefix := PhaseScoresUpTo(s, samplesPerUs, n - 1);
      var prefix' := PhaseScoresUpTo(Scale(s, c), samplesPerUs, n - 1);
      assert forall p: nat :: p < n - 1 ==> PhaseScoresUpTo(s, samplesPerUs, n)[p] == prefix[p];
      assert forall p: nat :: p < n - 1 ==> PhaseScoresUpTo(Scale(s, c), samplesPerUs, n)[p] == prefix'[p];
    }
  }

  /** Multiplying every magnitude by `c > 0` does not change the selected phase. */
  lemma OptimalPhaseScaleInvariant(s: seq<real>, samplesPerUs: int, c: real)
    requires c > 0.0
    ensures OptimalPhase(Scale(s, c), samplesPerUs) == OptimalPhase(s, samplesPerUs)
  {
    var scores := PhaseScores(s, samplesPerUs);
    var scores' := PhaseScores(Scale(s, c), samplesPerUs);
    PhaseScoresUpToScale(s, samplesPerUs, PhasesChecked(samplesPerUs), c);
    PhaseScoresNonNegative(s, samplesPerUs);
    PhaseScoresNonNegative(Scale(s, c), samplesPerUs);
    SelectScale(scores, scores', |scores|, c);
  }

  // ---------------------------------------------------------------------------
  // The phase loop

  /** The `scores` dictionary after the first `n` phases. */
  function ScoreTable(scores: seq<Option<real>>, n: nat): map<nat, Option<real>>
    requires n <= |scores|
    decreases n
  {
    if n == 0 then map[] else ScoreTable(scores, n - 1)[n - 1 := scores[n - 1]]
  }

  /** The dictionary holds exactly the examined phases, each with its score. */
  lemma {:induction false} ScoreTableContents(scores: seq<Option<real>>, n: nat)
    requires n <= |scores|
    ensures forall p: nat :: p in ScoreTable(scores, n) <==> p < n
    ensures forall p: nat :: p < n ==> ScoreTable(scores, n)[p] == scores[p]
    decreases n
  {
    if n > 0 {
      ScoreTableContents(scores, n - 1);
    }
  }

  /** The body of the phase loop up to the comparison: the score of `iq_mag[phase:]`. */
  method ScorePhase(iqMag: seq<real>, samplesPerUs: int, phase: nat, ghost all: seq<Option<real>>)
    returns (score: Option<real>)
    requires all == PhaseScores(iqMag, samplesPerUs) && phase < |all|
    ensures score == all[phase]
  {
    PhaseScoresUpToAt(iqMag, samplesPerUs, |all|, phase);
    var dataPhase := From(iqMag, phase);
    score := Score(dataPhase, samplesPerUs);
  }

  /** `shift_to_optimal_phase`: examine phases `0 .. samples_per_us - 2`, keep the running
      best with 1% hysteresis, and return the input from the winning phase on. */
  method ShiftToOptimalPhase(iqMag: seq<real>, samplesPerUs: int) returns (r: seq<real>)
    ensures r == FromPhase(iqMag, OptimalPhase(iqMag, samplesPerUs))
  {
    var maxScore: real := -1.0;
    var maxScorePhase: Option<nat> := None;
    var stepsToCheck := samplesPerUs;
    var scores: map<nat, Option<real>> := map[];
    ghost var all := PhaseScores(iqMag, stepsToCheck);
    var phase: nat := 0;
    while phase < stepsToCheck - 1
      invariant phase <= |all|
      invariant Best(maxScore, maxScorePhase) == Select(all, phase)
      invariant scores == ScoreTable(all, phase)
    {
      var score := ScorePhase(iqMag, stepsToCheck, phase, all);
      assert Select(all, phase + 1) == Consider(Select(all, phase), phase, score);
      scores := scores[phase := score];
      if score.Some? && score.value > maxScore * 1.01 {
        maxScore := score.value;
        maxScorePhase := Some(phase);
      }
      phase := phase + 1;
    }
    r := FromPhase(iqMag, maxScorePhase);
  }

  /** The shifted envelope is a suffix of the input that starts at most
      `samples_per_us - 2` samples in. */
  lemma ShiftedIsSuffix(s: seq<real>, samplesPerUs: int)
    ensures var r := FromPhase(s, OptimalPhase(s, samplesPerUs));
            |r| <= |s| && r == s[|s| - |r|..] && (r == s || |s| - |r| <= samplesPerUs - 2)
  {
    if OptimalPhase(s, samplesPerUs).Some? {
      OptimalPhaseRange(s, samplesPerUs);
    }
  }

  // ---------------------------------------------------------------------------
  // downsample_to_buckets

  /** numpy's `i // (samples_per_us / 2)` on floats agrees with integer division by
      `samples_per_us / 2` when `samples_per_us` is even. */
  lemma FloatKeyAgrees(i: nat, samplesPerUs: nat)
    requires samplesPerUs >= 2 && samplesPerUs % 2 == 0
    ensures ((i as real) / ((samplesPerUs as real) / 2.0)).Floor == i / (samplesPerUs / 2)
  {
    var w := samplesPerUs / 2;
    var q, r := i / w, i % w;
    assert (samplesPerUs as real) / 2.0 == w as real;
    assert i == q * w + r;
    assert (i as real) == (q as real) * (w as real) + (r as real);
    var x := (i as real) / (w as real);
    assert x == (q as real) + (r as real) / (w as real);
    assert 0.0 <= (r as real) / (w as real) < 1.0;
  }

  /** `downsample_to_buckets`: `ceil(len / w)` bucket means for `w = samples_per_us / 2`;
      bucket `k` averages `iq_mag[k*w .. min((k+1)*w, len))`, short or not. */
  function DownsampleToBuckets(iqMag: seq<real>, samplesPerUs: nat): (r: seq<real>)
    requires samplesPerUs >= 2 && samplesPerUs % 2 == 0
    ensures |r| == CeilDiv(|iqMag|, samplesPerUs / 2)
    ensures forall k :: 0 <= k < |r| ==>
              k * (samplesPerUs / 2) < |iqMag| &&
              r[k] == Mean(iqMag[k * (samplesPerUs / 2) .. Min((k + 1) * (samplesPerUs / 2), |iqMag|)])
  {
    var w := samplesPerUs / 2;
    BlockCount(iqMag, w);
    BlockMeansWindows(iqMag, w);
    BlockMeans(iqMag, w)
  }

  // ---------------------------------------------------------------------------
  // preprocess_iq

  /** Python's `round`: the nearest integer, ties to even. */
  function RoundHalfEven(x: real): (r: int)
    ensures -0.5 <= x - (r as real) <= 0.5
    ensures (x - (r as real) == 0.5 || x - (r as real) == -0.5) ==> r % 2 == 0
  {
    var f := x.Floor;
    var d := x - (f as real);
    if d < 0.5 then f
    else if d > 0.5 then f + 1
    else if f % 2 == 0 then f
    else f + 1
  }

  /** The preprocessed envelope: the trim at its optimal phase. */
  function Preprocessed(env: seq<real>, samplesPerUs: int): (r: Option<seq<real>>)
    ensures r.None? <==> |env| == 0
  {
    match TrimIqAroundPeak(env, DefaultHalfWidth)
    case None => None
    case Some(t) => Some(FromPhase(t, OptimalPhase(t, samplesPerUs)))
  }

  /** Shifting a window of `env` to its optimal phase leaves a shorter window of `env`
      that ends where the original one ends. */
  lemma ShiftedWindow(env: seq<real>, a: int, b: int, samplesPerUs: int)
    requires 0 <= a <= b <= |env|
    ensures exists c :: a <= c <= b &&
              FromPhase(env[a..b], OptimalPhase(env[a..b], samplesPerUs)) == env[c..b]
  {
    var t := env[a..b];
    var r := FromPhase(t, OptimalPhase(t, samplesPerUs));
    ShiftedIsSuffix(t, samplesPerUs);
    assert r == env[a + (|t| - |r|)..b];
  }

  /** The preprocessed envelope is one contiguous window of the envelope, at most
      `2 * 1000` samples long; it is missing only for an empty envelope. */
  lemma PreprocessedIsWindow(env: seq<real>, samplesPerUs: int)
    ensures Preprocessed(env, samplesPerUs).None? <==> |env| == 0
    ensures Preprocessed(env, samplesPerUs).Some? ==>
              |Preprocessed(env, samplesPerUs).value| <= 2 * DefaultHalfWidth &&
              exists a, b :: 0 <= a <= b <= |env| && Preprocessed(env, samplesPerUs).value == env[a..b]
  {
    if |env| > 0 {
      var t := TrimIqAroundPeak(env, DefaultHalfWidth).value;
      var idx := ArgMax(env);
      SliceIsWindow(env, idx - DefaultHalfWidth, idx + DefaultHalfWidth);
      var a, b :| 0 <= a <= b <= |env| && t == env[a..b];
      ShiftedWindow(env, a, b, samplesPerUs);
      var c :| a <= c <= b && FromPhase(t, OptimalPhase(t, samplesPerUs)) == env[c..b];
      assert Preprocessed(env, samplesPerUs).value == env[c..b];
    }
  }

  /** `preprocess_iq` as a composition: resample, take the envelope, trim around the
      peak, then shift to the optimal phase with `round(target_sr / 1e6)` samples per
      microsecond. The resampler and the envelope are not interpreted. `None` stands for
      the error `argmax` raises when the envelope is empty. */
  method PreprocessIq<IQ>(iq: seq<IQ>, origSr: real, targetSr: real,
                          resample: (seq<IQ>, real, real) -> (seq<IQ>, real),
                          envelope: seq<IQ> -> seq<real>)
    returns (r: Option<seq<real>>)
    ensures r == Preprocessed(envelope(resample(iq, origSr, targetSr).0), RoundHalfEven(targetSr / 1000000.0))
  {
    var resampled := resample(iq, origSr, targetSr);
    var iqMag := envelope(resampled.0);
    var trimmed := TrimIqAroundPeak(iqMag, DefaultHalfWidth);
    if trimmed.None? {
      return None;
    }
    var samplesPerUs := RoundHalfEven(targetSr / 1000000.0);
    var shifted := ShiftToOptimalPhase(trimmed.value, samplesPerUs);
    r := Some(shifted);
  }
}
