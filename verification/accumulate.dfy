/** `_accumulate`: adds up, quantity by quantity, the partial results returned by the
    steps of one iteration. Each step returns a tuple of quantities; the tensors of the
    original are modelled as reals. */
module Accumulate {
  import opened Wrappers

  /** The total of quantity `i` over all the step results in `accs`. */
  function ColumnSum(accs: seq<seq<real>>, i: nat): real
    requires forall k :: 0 <= k < |accs| ==> i < |accs[k]|
  {
    if accs == [] then 0.0 else ColumnSum(accs[..|accs| - 1], i) + accs[|accs| - 1][i]
  }

  /** The step results can be accumulated: there is at least one, and none is shorter
      than the first (whose length fixes the number of quantities). */
  predicate WellShaped(accs: seq<seq<real>>)
  {
    |accs| > 0 && forall k :: 0 <= k < |accs| ==> |accs[0]| <= |accs[k]|
  }

  /** What `_accumulate` returns for `accs`. */
  function Summed(accs: seq<seq<real>>): (r: Result<seq<real>>)
  {
    if !WellShaped(accs) then Failure(IndexOutOfRange)
    else Success(seq(|accs[0]|, i requires 0 <= i < |accs[0]| => ColumnSum(accs, i)))
  }

  /** Splitting the steps into two groups and adding the two totals gives the total of
      all steps: the sum does not depend on how an iteration is cut into steps. */
  lemma {:induction false} ColumnSumSplit(a: seq<seq<real>>, b: seq<seq<real>>, i: nat)
    requires forall k :: 0 <= k < |a| ==> i < |a[k]|
    requires forall k :: 0 <= k < |b| ==> i < |b[k]|
    ensures forall k :: 0 <= k < |a + b| ==> i < |(a + b)[k]|
    ensures ColumnSum(a + b, i) == ColumnSum(a, i) + ColumnSum(b, i)
    decreases |b|
  {
    if b == [] {
      assert a + b == a;
    } else {
      var b' := b[..|b| - 1];
      assert (a + b)[..|a + b| - 1] == a + b';
      ColumnSumSplit(a, b', i);
    }
  }

  /** The accumulated quantities are those of one step when there is just one. */
  lemma ColumnSumSingle(acc: seq<real>, i: nat)
    requires i < |acc|
    ensures ColumnSum([acc], i) == acc[i]
  {
    assert [acc][..0] == [];
  }

  /** `_accumulate`: one total per quantity of the first step result; an empty list, or a
      step result shorter than the first, raises IndexError. */
  method Accumulate(accs: seq<seq<real>>) returns (r: Result<seq<real>>)
    ensures r.Failure? <==> !WellShaped(accs)
    ensures r.Failure? ==> r.error == IndexOutOfRange
    ensures r.Success? ==> |r.value| == |accs[0]|
    ensures r.Success? ==> forall i :: 0 <= i < |r.value| ==> r.value[i] == ColumnSum(accs, i)
    ensures r == Summed(accs)
  {
    if |accs| == 0 {
      return Failure(IndexOutOfRange);
    }
    var results: seq<real> := [];
    var lenAcc := |accs[0]|;
    for i := 0 to lenAcc
      invariant |results| == i
      invariant forall k :: 0 <= k < |accs| ==> i <= |accs[k]|
      invariant forall j :: 0 <= j < i ==> results[j] == ColumnSum(accs, j)
    {
      if exists k :: 0 <= k < |accs| && |accs[k]| <= i {
        return Failure(IndexOutOfRange);
      }
      results := results + [ColumnSum(accs, i)];
    }
    assert WellShaped(accs);
    assert results == seq(|accs[0]|, i requires 0 <= i < |accs[0]| => ColumnSum(accs, i));
    return Success(results);
  }
}
