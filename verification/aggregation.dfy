/** The end of `run_integration`: the iterations of one call are combined by
    inverse-variance weighting, each iteration weighing 1/sigma^2, and the per-iteration
    copies of the histograms are averaged with the same weights. The arithmetic is over
    the reals; the square root of the combined variance is not modelled. */
module Aggregation {
  import opened Wrappers

  /** The result and error of one iteration, as returned by `_run_iteration`. */
  datatype IterationResult = IterationResult(value: real, error: real)

  /** The combined estimate and its variance (the square of the reported sigma). */
  datatype Combined = Combined(value: real, variance: real)

  /** The running sums of the aggregation loop: sum of value * weight, and sum of weights. */
  datatype Totals = Totals(weighted: real, weights: real)

  predicate NonZeroErrors(its: seq<IterationResult>)
  {
    forall i :: 0 <= i < |its| ==> its[i].error != 0.0
  }

  function Weight(error: real): (w: real)
    requires error != 0.0
    ensures w > 0.0
  {
    1.0 / (error * error)
  }

  /** What one iteration adds to the sums. */
  function Term(r: IterationResult): (t: Totals)
    requires r.error != 0.0
    ensures t.weights > 0.0 && t.weighted == r.value * t.weights
  {
    Totals(r.value * Weight(r.error), Weight(r.error))
  }

  function Join(t: Totals, u: Totals): Totals
  {
    Totals(t.weighted + u.weighted, t.weights + u.weights)
  }

  /** The sums after the iterations in `its`, taken in order. */
  function Accumulated(its: seq<IterationResult>): (t: Totals)
    requires NonZeroErrors(its)
    ensures t.weights >= 0.0
    ensures its != [] ==> t.weights > 0.0
  {
    if its == [] then Totals(0.0, 0.0)
    else Join(Accumulated(its[..|its| - 1]), Term(its[|its| - 1]))
  }

  /** Sum of r_i / sigma_i^2 divided by sum of 1 / sigma_i^2. */
  function WeightedMean(its: seq<IterationResult>): real
    requires its != [] && NonZeroErrors(its)
  {
    Accumulated(its).weighted / Accumulated(its).weights
  }

  /** 1 / (sum of 1 / sigma_i^2). */
  function CombinedVariance(its: seq<IterationResult>): real
    requires its != [] && NonZeroErrors(its)
  {
    1.0 / Accumulated(its).weights
  }

  function MinValue(its: seq<IterationResult>): (m: real)
    requires its != []
    ensures exists i :: 0 <= i < |its| && its[i].value == m
    ensures forall i :: 0 <= i < |its| ==> m <= its[i].value
  {
    if |its| == 1 then its[0].value
    else
      var m := MinValue(its[..|its| - 1]);
      if its[|its| - 1].value < m then its[|its| - 1].value else m
  }

  function MaxValue(its: seq<IterationResult>): (m: real)
    requires its != []
    ensures exists i :: 0 <= i < |its| && its[i].value == m
    ensures forall i :: 0 <= i < |its| ==> its[i].value <= m
  {
    if |its| == 1 then its[0].value
    else
      var m := MaxValue(its[..|its| - 1]);
      if its[|its| - 1].value > m then its[|its| - 1].value else m
  }

  lemma NonZeroConcat(a: seq<IterationResult>, b: seq<IterationResult>)
    requires NonZeroErrors(a) && NonZeroErrors(b)
    ensures NonZeroErrors(a + b)
  {
    forall i | 0 <= i < |a + b| ensures (a + b)[i].error != 0.0 {
      if i < |a| { assert (a + b)[i] == a[i]; } else { assert (a + b)[i] == b[i - |a|]; }
    }
  }

  lemma NonZeroPrefix(s: seq<IterationResult>, n: nat)
    requires NonZeroErrors(s) && n <= |s|
    ensures NonZeroErrors(s[..n])
  {
    assert forall i :: 0 <= i < n ==> s[..n][i] == s[i];
  }

  lemma {:induction false} AccumulatedAppend(a: seq<IterationResult>, b: seq<IterationResult>)
    requires NonZeroErrors(a) && NonZeroErrors(b)
    ensures NonZeroErrors(a + b)
    ensures Accumulated(a + b) == Join(Accumulated(a), Accumulated(b))
    decreases |b|
  {
    NonZeroConcat(a, b);
    if b == [] {
      assert a + b == a;
    } else {
      var b' := b[..|b| - 1];
      var last := b[|b| - 1];
      NonZeroPrefix(b, |b| - 1);
      var ab := a + b;
      assert ab[..|ab| - 1] == a + b';
      assert ab[|ab| - 1] == last;
      AccumulatedAppend(a, b');
      var ta, tb', tl := Accumulated(a), Accumulated(b'), Term(last);
      assert Accumulated(ab) == Join(Join(ta, tb'), tl);
      assert Accumulated(b) == Join(tb', tl);
    }
  }

  /** Taking one iteration out of the middle and adding it last gives the same sums. */
  lemma AccumulatedSingle(x: IterationResult)
    requires x.error != 0.0
    ensures NonZeroErrors([x])
    ensures Accumulated([x]) == Term(x)
  {
    assert [x][..0] == [];
  }

  lemma NonZeroSplit(b: seq<IterationResult>, k: nat)
    requires NonZeroErrors(b) && k < |b|
    ensures b == b[..k] + [b[k]] + b[k + 1..]
    ensures NonZeroErrors(b[..k]) && NonZeroErrors(b[k + 1..]) && b[k].error != 0.0
  {
    NonZeroPrefix(b, k);
    var hi := b[k + 1..];
    assert forall i :: 0 <= i < |hi| ==> hi[i] == b[k + 1 + i];
  }

  /** An iteration in the middle contributes what it would contribute last. */
  lemma AccumulatedInsert(lo: seq<IterationResult>, x: IterationResult, hi: seq<IterationResult>)
    requires NonZeroErrors(lo) && NonZeroErrors(hi) && x.error != 0.0
    ensures NonZeroErrors(lo + hi) && NonZeroErrors(lo + [x] + hi)
    ensures Accumulated(lo + [x] + hi) == Join(Accumulated(lo + hi), Term(x))
  {
    AccumulatedSingle(x);
    var mid := lo + [x];
    AccumulatedAppend(lo, [x]);
    AccumulatedAppend(mid, hi);
    AccumulatedAppend(lo, hi);
    var tl, th, tx := Accumulated(lo), Accumulated(hi), Term(x);
    assert Accumulated(mid) == Join(tl, tx);
    assert Accumulated(mid + hi) == Join(Join(tl, tx), th);
    assert Accumulated(lo + hi) == Join(tl, th);
  }

  lemma AccumulatedRemoveAt(b: seq<IterationResult>, k: nat)
    requires NonZeroErrors(b) && k < |b|
    ensures NonZeroErrors(b[..k] + b[k + 1..])
    ensures Accumulated(b) == Join(Accumulated(b[..k] + b[k + 1..]), Term(b[k]))
  {
    NonZeroSplit(b, k);
    AccumulatedInsert(b[..k], b[k], b[k + 1..]);
  }

  lemma MultisetRemoveAt(a: seq<IterationResult>, b: seq<IterationResult>, k: nat)
    requires |a| > 0 && k < |b| && multiset(a) == multiset(b) && b[k] == a[|a| - 1]
    ensures multiset(a[..|a| - 1]) == multiset(b[..k] + b[k + 1..])
  {
    var x := a[|a| - 1];
    var a', lo, hi := a[..|a| - 1], b[..k], b[k + 1..];
    assert a == a' + [x];
    assert b == lo + [x] + hi;
    assert multiset(a) == multiset(a') + multiset{x};
    assert multiset(b) == multiset(lo) + multiset{x} + multiset(hi);
    assert multiset(lo + hi) == multiset(lo) + multiset(hi);
    forall y ensures multiset(a')[y] == multiset(lo + hi)[y] {
      assert multiset(a)[y] == multiset(a')[y] + multiset{x}[y];
      assert multiset(b)[y] == multiset(lo)[y] + multiset{x}[y] + multiset(hi)[y];
    }
    assert multiset(a') == multiset(lo + hi);
  }

  /** The sums do not depend on the order of the iterations. */
  lemma {:induction false} AccumulatedPermutation(a: seq<IterationResult>, b: seq<IterationResult>)
    requires NonZeroErrors(a) && NonZeroErrors(b)
    requires multiset(a) == multiset(b)
    ensures Accumulated(a) == Accumulated(b)
    decreases |a|
  {
    if a == [] {
      assert |b| == |multiset(b)| == 0;
    } else {
      var x := a[|a| - 1];
      assert x in multiset(a);
      var k :| 0 <= k < |b| && b[k] == x;
      MultisetRemoveAt(a, b, k);
      NonZeroPrefix(a, |a| - 1);
      AccumulatedRemoveAt(b, k);
      AccumulatedPermutation(a[..|a| - 1], b[..k] + b[k + 1..]);
    }
  }

  /** The combined result and variance are the same whatever the order of the
      iterations. */
  lemma WeightedMeanPermutation(a: seq<IterationResult>, b: seq<IterationResult>)
    requires a != [] && NonZeroErrors(a) && NonZeroErrors(b)
    requires multiset(a) == multiset(b)
    ensures b != []
    ensures WeightedMean(a) == WeightedMean(b)
    ensures CombinedVariance(a) == CombinedVariance(b)
  {
    assert |b| == |multiset(b)| == |multiset(a)| == |a|;
    AccumulatedPermutation(a, b);
  }

  lemma Distribute(c: real, x: real, y: real)
    ensures c * (x + y) == c * x + c * y
  {
  }

  lemma MulMonotone(a: real, b: real, w: real)
    requires a <= b && w >= 0.0
    ensures a * w <= b * w
  {
  }

  /** The weighted sum lies between `lo` and `hi` times the sum of weights. */
  predicate Within(t: Totals, lo: real, hi: real)
  {
    lo * t.weights <= t.weighted <= hi * t.weights
  }

  lemma {:induction false} AccumulatedBounds(its: seq<IterationResult>, lo: real, hi: real)
    requires NonZeroErrors(its)
    requires forall i :: 0 <= i < |its| ==> lo <= its[i].value <= hi
    ensures Within(Accumulated(its), lo, hi)
    decreases |its|
  {
    if its == [] {
      ZeroWithin(lo, hi);
    } else {
      var init := its[..|its| - 1];
      var r := its[|its| - 1];
      NonZeroPrefix(its, |its| - 1);
      assert forall i :: 0 <= i < |init| ==> lo <= init[i].value <= hi;
      AccumulatedBounds(init, lo, hi);
      JoinBounds(Accumulated(init), Term(r), lo, hi, r.value);
    }
  }

  lemma ZeroWithin(lo: real, hi: real)
    ensures Within(Totals(0.0, 0.0), lo, hi)
  {
    assert lo * 0.0 == 0.0 && hi * 0.0 == 0.0;
  }

  lemma JoinBounds(t: Totals, u: Totals, lo: real, hi: real, v: real)
    requires Within(t, lo, hi)
    requires u.weights > 0.0 && u.weighted == v * u.weights && lo <= v <= hi
    ensures Within(Join(t, u), lo, hi)
  {
    MulMonotone(lo, v, u.weights);
    MulMonotone(v, hi, u.weights);
    Distribute(lo, t.weights, u.weights);
    Distribute(hi, t.weights, u.weights);
  }

  lemma DivBounds(x: real, y: real, lo: real, hi: real)
    requires y > 0.0 && lo * y <= x <= hi * y
    ensures lo <= x / y <= hi
  {
    assert (lo * y) / y == lo;
    assert (hi * y) / y == hi;
  }

  /** The combined result lies within any interval that holds every iteration's result. */
  lemma WeightedMeanBounds(its: seq<IterationResult>, lo: real, hi: real)
    requires its != [] && NonZeroErrors(its)
    requires forall i :: 0 <= i < |its| ==> lo <= its[i].value <= hi
    ensures lo <= WeightedMean(its) <= hi
  {
    AccumulatedBounds(its, lo, hi);
    DivBounds(Accumulated(its).weighted, Accumulated(its).weights, lo, hi);
  }

  /** The combined result lies between the smallest and the largest iteration result. */
  lemma WeightedMeanBetweenExtremes(its: seq<IterationResult>)
    requires its != [] && NonZeroErrors(its)
    ensures MinValue(its) <= WeightedMean(its) <= MaxValue(its)
  {
    WeightedMeanBounds(its, MinValue(its), MaxValue(its));
  }

  lemma {:induction false} AccumulatedWeightsCover(its: seq<IterationResult>, k: nat)
    requires NonZeroErrors(its) && k < |its|
    ensures Accumulated(its).weights >= Weight(its[k].error)
    decreases |its|
  {
    var init := its[..|its| - 1];
    if k < |init| {
      AccumulatedWeightsCover(init, k);
    }
  }

  lemma InverseBound(big: real, e2: real)
    requires e2 > 0.0 && big >= 1.0 / e2
    ensures 1.0 / big <= e2
  {
    assert (1.0 / e2) * e2 == 1.0;
    assert big * e2 >= 1.0;
    assert big > 0.0;
    assert (1.0 / big) * (big * e2) == e2;
  }

  /** The combined variance is no larger than the variance of any single iteration. */
  lemma CombinedVarianceBound(its: seq<IterationResult>)
    requires its != [] && NonZeroErrors(its)
    ensures forall i :: 0 <= i < |its| ==> CombinedVariance(its) <= its[i].error * its[i].error
  {
    forall i | 0 <= i < |its| ensures CombinedVariance(its) <= its[i].error * its[i].error {
      AccumulatedWeightsCover(its, i);
      InverseBound(Accumulated(its).weights, its[i].error * its[i].error);
    }
  }

  /** The sum of weights only depends on the errors. */
  lemma {:induction false} WeightsFromErrors(a: seq<IterationResult>, b: seq<IterationResult>)
    requires NonZeroErrors(a) && |a| == |b|
    requires forall i :: 0 <= i < |a| ==> a[i].error == b[i].error
    ensures NonZeroErrors(b)
    ensures Accumulated(a).weights == Accumulated(b).weights
    decreases |a|
  {
    if a != [] {
      WeightsFromErrors(a[..|a| - 1], b[..|b| - 1]);
    }
  }

  /** The histograms in the model: a tuple of flattened histograms; `shape[h]` is the
      number of bins of histogram `h`. Every per-iteration copy has that shape. */
  predicate Shaped(copies: seq<seq<seq<real>>>, shape: seq<nat>)
  {
    && (forall i :: 0 <= i < |copies| ==> |copies[i]| == |shape|)
    && (forall i, h :: 0 <= i < |copies| && 0 <= h < |shape| ==> |copies[i][h]| == shape[h])
  }

  /** Bin `b` of histogram `h` across the iterations, each with its iteration's error. */
  function BinSeries(its: seq<IterationResult>, copies: seq<seq<seq<real>>>, shape: seq<nat>,
                     h: nat, b: nat): (s: seq<IterationResult>)
    requires |copies| == |its| && Shaped(copies, shape) && h < |shape| && b < shape[h]
    ensures |s| == |its|
    ensures forall i :: 0 <= i < |its| ==> s[i].error == its[i].error
  {
    seq(|its|, i requires 0 <= i < |its| => IterationResult(copies[i][h][b], its[i].error))
  }

  /** The histograms at the end of the call: each bin is the weighted mean of its copies. */
  function WeightedHistograms(its: seq<IterationResult>, copies: seq<seq<seq<real>>>,
                              shape: seq<nat>): seq<seq<real>>
    requires its != [] && NonZeroErrors(its) && |copies| == |its| && Shaped(copies, shape)
  {
    seq(|shape|, h requires 0 <= h < |shape| =>
      seq(shape[h], b requires 0 <= b < shape[h] =>
        WeightsFromErrors(its, BinSeries(its, copies, shape, h, b));
        WeightedMean(BinSeries(its, copies, shape, h, b))))
  }

  /** When every iteration left the same histograms, the averaged histograms are those. */
  lemma WeightedHistogramsOfEqualCopies(its: seq<IterationResult>, copies: seq<seq<seq<real>>>,
                                        shape: seq<nat>, hist: seq<seq<real>>)
    requires its != [] && NonZeroErrors(its) && |copies| == |its| && Shaped(copies, shape)
    requires forall i :: 0 <= i < |copies| ==> copies[i] == hist
    ensures WeightedHistograms(its, copies, shape) == hist
  {
    var r := WeightedHistograms(its, copies, shape);
    assert |hist| == |copies[0]| == |shape|;
    forall h | 0 <= h < |shape| ensures r[h] == hist[h] {
      assert |hist[h]| == |copies[0][h]| == shape[h];
      forall b | 0 <= b < shape[h] ensures r[h][b] == hist[h][b] {
        var s := BinSeries(its, copies, shape, h, b);
        WeightsFromErrors(its, s);
        WeightedMeanBounds(s, hist[h][b], hist[h][b]);
      }
    }
  }

  /** Each averaged bin lies between the smallest and the largest copy of that bin. */
  lemma WeightedHistogramsBounds(its: seq<IterationResult>, copies: seq<seq<seq<real>>>,
                                 shape: seq<nat>, h: nat, b: nat)
    requires its != [] && NonZeroErrors(its) && |copies| == |its| && Shaped(copies, shape)
    requires h < |shape| && b < shape[h]
    ensures exists i :: 0 <= i < |its| && copies[i][h][b] <= WeightedHistograms(its, copies, shape)[h][b]
    ensures exists j :: 0 <= j < |its| && WeightedHistograms(its, copies, shape)[h][b] <= copies[j][h][b]
  {
    var s := BinSeries(its, copies, shape, h, b);
    WeightsFromErrors(its, s);
    WeightedMeanBetweenExtremes(s);
    var i :| 0 <= i < |s| && s[i].value == MinValue(s);
    var j :| 0 <= j < |s| && s[j].value == MaxValue(s);
    assert copies[i][h][b] == s[i].value;
    assert copies[j][h][b] == s[j].value;
  }

  /** Bin `b` of histogram `h`, summed over the first `n` iterations with their weights. */
  function BinWeighted(its: seq<IterationResult>, copies: seq<seq<seq<real>>>, shape: seq<nat>,
                       h: nat, b: nat, n: nat): real
    requires n <= |its| == |copies| && Shaped(copies, shape) && h < |shape| && b < shape[h]
    requires forall i :: 0 <= i < n ==> its[i].error != 0.0
  {
    if n == 0 then 0.0
    else BinWeighted(its, copies, shape, h, b, n - 1) + copies[n - 1][h][b] * Weight(its[n - 1].error)
  }

  lemma {:induction false} BinWeightedIsAccumulated(its: seq<IterationResult>, copies: seq<seq<seq<real>>>,
                                                    shape: seq<nat>, h: nat, b: nat, n: nat)
    requires n <= |its| == |copies| && Shaped(copies, shape) && h < |shape| && b < shape[h]
    requires forall i :: 0 <= i < n ==> its[i].error != 0.0
    ensures NonZeroErrors(BinSeries(its, copies, shape, h, b)[..n])
    ensures BinWeighted(its, copies, shape, h, b, n) == Accumulated(BinSeries(its, copies, shape, h, b)[..n]).weighted
  {
    var s := BinSeries(its, copies, shape, h, b);
    assert forall i :: 0 <= i < n ==> s[..n][i] == s[i];
    if n > 0 {
      BinWeightedIsAccumulated(its, copies, shape, h, b, n - 1);
      assert s[..n][..n - 1] == s[..n - 1];
      assert s[..n][n - 1] == IterationResult(copies[n - 1][h][b], its[n - 1].error);
    }
  }

  /** Adds `w` times the copy `copy` to the running histogram sums, bin by bin. */
  function AddWeighted(aux: seq<seq<real>>, copy: seq<seq<real>>, w: real): (r: seq<seq<real>>)
    requires |copy| == |aux| && forall h :: 0 <= h < |aux| ==> |copy[h]| == |aux[h]|
    ensures |r| == |aux| && forall h :: 0 <= h < |aux| ==> |r[h]| == |aux[h]|
    ensures forall h, b :: 0 <= h < |aux| && 0 <= b < |aux[h]| ==> r[h][b] == aux[h][b] + copy[h][b] * w
  {
    seq(|aux|, h requires 0 <= h < |aux| =>
      seq(|aux[h]|, b requires 0 <= b < |aux[h]| => aux[h][b] + copy[h][b] * w))
  }

  /** The running histogram sums after the first `n` iterations. */
  predicate BinsSoFar(aux: seq<seq<real>>, its: seq<IterationResult>, copies: seq<seq<seq<real>>>,
                      shape: seq<nat>, n: nat)
    requires n <= |its| == |copies| && Shaped(copies, shape)
    requires forall i :: 0 <= i < n ==> its[i].error != 0.0
  {
    && |aux| == |shape|
    && (forall h :: 0 <= h < |shape| ==> |aux[h]| == shape[h])
    && forall h, b :: 0 <= h < |shape| && 0 <= b < shape[h] ==>
         aux[h][b] == BinWeighted(its, copies, shape, h, b, n)
  }

  lemma BinsStep(aux: seq<seq<real>>, its: seq<IterationResult>, copies: seq<seq<seq<real>>>,
                 shape: seq<nat>, i: nat)
    requires i < |its| == |copies| && Shaped(copies, shape)
    requires forall k :: 0 <= k <= i ==> its[k].error != 0.0
    requires BinsSoFar(aux, its, copies, shape, i)
    ensures |copies[i]| == |aux| && forall h :: 0 <= h < |aux| ==> |copies[i][h]| == |aux[h]|
    ensures BinsSoFar(AddWeighted(aux, copies[i], Weight(its[i].error)), its, copies, shape, i + 1)
  {
  }

  /** One more pass of the aggregation loop adds the next iteration's term. */
  lemma AccumulatedStep(its: seq<IterationResult>, i: nat)
    requires i < |its| && NonZeroErrors(its[..i]) && its[i].error != 0.0
    ensures NonZeroErrors(its[..i + 1])
    ensures Accumulated(its[..i + 1]) == Join(Accumulated(its[..i]), Term(its[i]))
  {
    var s := its[..i + 1];
    assert s[..i] == its[..i];
    assert forall k :: 0 <= k < i + 1 ==> s[k] == its[k];
  }

  /** Dividing the weighted bin sums by the sum of weights gives the weighted histograms. */
  lemma FinalHistograms(its: seq<IterationResult>, copies: seq<seq<seq<real>>>, shape: seq<nat>,
                        aux: seq<seq<real>>, total: real)
    requires its != [] && NonZeroErrors(its) && |copies| == |its| && Shaped(copies, shape)
    requires BinsSoFar(aux, its, copies, shape, |its|)
    requires total == Accumulated(its).weights
    ensures Scaled(aux, total)
         == WeightedHistograms(its, copies, shape)
  {
    var histograms := Scaled(aux, total);
    var expected := WeightedHistograms(its, copies, shape);
    forall h | 0 <= h < |shape| ensures histograms[h] == expected[h] {
      forall b | 0 <= b < shape[h] ensures histograms[h][b] == expected[h][b] {
        var s := BinSeries(its, copies, shape, h, b);
        BinWeightedIsAccumulated(its, copies, shape, h, b, |its|);
        assert s[..|its|] == s;
        WeightsFromErrors(its, s);
      }
    }
  }

  /** Every bin divided by `total`. */
  function Scaled(aux: seq<seq<real>>, total: real): (r: seq<seq<real>>)
    requires total != 0.0
    ensures |r| == |aux| && forall h :: 0 <= h < |aux| ==> |r[h]| == |aux[h]|
  {
    seq(|aux|, h requires 0 <= h < |aux| =>
      seq(|aux[h]|, b requires 0 <= b < |aux[h]| => aux[h][b] / total))
  }

  /** Histograms of the given shape with every bin zero. */
  function ZeroBins(shape: seq<nat>): seq<seq<real>>
  {
    seq(|shape|, h requires 0 <= h < |shape| => seq(shape[h], _ => 0.0))
  }

  lemma SoFarStart(its: seq<IterationResult>, copies: seq<seq<seq<real>>>, shape: seq<nat>)
    requires |its| == |copies| && Shaped(copies, shape)
    ensures SoFar(its, copies, shape, 0, Totals(0.0, 0.0), ZeroBins(shape))
  {
    assert its[..0] == [];
  }

  /** The state of the aggregation loop after the first `n` iterations: the running
      sums and the running histogram sums. */
  predicate SoFar(its: seq<IterationResult>, copies: seq<seq<seq<real>>>, shape: seq<nat>, n: nat,
                  totals: Totals, aux: seq<seq<real>>)
    requires n <= |its| == |copies| && Shaped(copies, shape)
  {
    && (forall k :: 0 <= k < n ==> its[k].error != 0.0)
    && NonZeroErrors(its[..n])
    && totals == Accumulated(its[..n])
    && BinsSoFar(aux, its, copies, shape, n)
  }

  lemma SoFarStep(its: seq<IterationResult>, copies: seq<seq<seq<real>>>, shape: seq<nat>, i: nat,
                  totals: Totals, aux: seq<seq<real>>)
    requires i < |its| == |copies| && Shaped(copies, shape)
    requires SoFar(its, copies, shape, i, totals, aux) && its[i].error != 0.0
    ensures |copies[i]| == |aux| && forall h :: 0 <= h < |aux| ==> |copies[i][h]| == |aux[h]|
    ensures SoFar(its, copies, shape, i + 1,
                  Totals(totals.weighted + its[i].value * Weight(its[i].error), totals.weights + Weight(its[i].error)),
                  AddWeighted(aux, copies[i], Weight(its[i].error)))
  {
    BinsStep(aux, its, copies, shape, i);
    AccumulatedStep(its, i);
  }

  /** Once all iterations are in, the sums give the weighted mean, the combined variance
      and the weighted histograms. */
  lemma SoFarDone(its: seq<IterationResult>, copies: seq<seq<seq<real>>>, shape: seq<nat>,
                  totals: Totals, aux: seq<seq<real>>)
    requires its != [] && |its| == |copies| && Shaped(copies, shape)
    requires SoFar(its, copies, shape, |its|, totals, aux)
    ensures NonZeroErrors(its)
    ensures totals.weights > 0.0
    ensures totals.weighted / totals.weights == WeightedMean(its)
    ensures 1.0 / totals.weights == CombinedVariance(its)
    ensures Scaled(aux, totals.weights)
         == WeightedHistograms(its, copies, shape)
  {
    assert its[..|its|] == its;
    FinalHistograms(its, copies, shape, aux, totals.weights);
  }

/** The aggregation loop at the end of `run_integration`: every iteration adds
      r / sigma^2 and 1 / sigma^2 to the running sums, and each histogram bin adds its copy
      times 1 / sigma^2; the histograms are then divided by the sum of weights, and the
      result is the weighted sum over the sum of weights, with variance its inverse. No
      iteration at all makes the final division a ZeroDivisionError; an iteration error of
      zero gives no finite weight. */
  method CombineIterations(its: seq<IterationResult>, copies: seq<seq<seq<real>>>, shape: seq<nat>)
    returns (r: Result<Combined>, histograms: seq<seq<real>>)
    requires |copies| == |its| && Shaped(copies, shape)
    ensures r.Failure? <==> its == [] || !NonZeroErrors(its)
    ensures its == [] ==> r == Failure(ZeroDivision)
    ensures its != [] && !NonZeroErrors(its) ==> r == Failure(NonFiniteWeight)
    ensures r.Success? ==> r.value == Combined(WeightedMean(its), CombinedVariance(its))
    ensures r.Success? ==> histograms == WeightedHistograms(its, copies, shape)
  {
    var auxRes, weightSum := 0.0, 0.0;
    var aux := ZeroBins(shape);
    SoFarStart(its, copies, shape);
    for i := 0 to |its|
      invariant SoFar(its, copies, shape, i, Totals(auxRes, weightSum), aux)
    {
      if its[i].error == 0.0 {
        return Failure(NonFiniteWeight), aux;
      }
      var wgt := 1.0 / (its[i].error * its[i].error);
      SoFarStep(its, copies, shape, i, Totals(auxRes, weightSum), aux);
      auxRes := auxRes + its[i].value * wgt;
      weightSum := weightSum + wgt;
      aux := AddWeighted(aux, copies[i], wgt);
    }
    if its == [] {
      return Failure(ZeroDivision), aux;
    }
    SoFarDone(its, copies, shape, Totals(auxRes, weightSum), aux);
    histograms := Scaled(aux, weightSum);
    r := Success(Combined(auxRes / weightSum, 1.0 / weightSum));
  }
}
