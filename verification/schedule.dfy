/** How one iteration of `n_events` events is split into steps of at most
    `events_per_run` events (the memory budget of a single step), and the cumulative
    percentage of the iteration that has been sent once each step is dispatched. */
module Schedule {

  function Min(a: int, b: int): int { if a <= b then a else b }

  /** The per-step budget kept by the integrator: the requested limit clamped to the
      number of events of one iteration. */
  function StepBudget(limit: int, nEvents: int): (r: int)
    ensures r <= nEvents && r <= limit
    ensures r == limit || r == nEvents
  {
    Min(limit, nEvents)
  }

  /** The event counts of the steps still to be scheduled when `left` events remain:
      each step takes `min(left, perRun)` events and then `perRun` is subtracted. */
  function StepSizes(left: int, perRun: int): seq<int>
    requires left <= 0 || perRun >= 1
    decreases left
  {
    if left <= 0 then [] else [Min(left, perRun)] + StepSizes(left - perRun, perRun)
  }

  /** The step loop of `run_event` ends: there are no events to do, or each pass takes
      at least one. */
  predicate BudgetRuns(nEvents: int, perRun: int)
  {
    nEvents <= 0 || perRun >= 1
  }

  /** The events left after `k` passes of the step loop, starting from `left`. */
  function LeftAfter(left: int, perRun: int, k: nat): int
  {
    if k == 0 then left else LeftAfter(left, perRun, k - 1) - perRun
  }

  /** As written, nothing keeps the budget positive: the constructor takes any
      `events_limit` and the setter any value, and the budget is only clamped from above.
      With a limit of zero or less and a positive iteration, the events left never drop,
      so the step loop never ends. */
  lemma {:induction false} NoBudgetNeverEnds(nEvents: int, limit: int, k: nat)
    requires nEvents > 0 && limit <= 0
    ensures !BudgetRuns(nEvents, StepBudget(limit, nEvents))
    ensures LeftAfter(nEvents, StepBudget(limit, nEvents), k) >= nEvents
  {
    if k > 0 {
      NoBudgetNeverEnds(nEvents, limit, k - 1);
    }
  }

  /** With a budget that runs, the loop stops after exactly as many passes as there are
      steps. */
  lemma {:induction false} BudgetRunsEnds(nEvents: int, perRun: int, k: nat)
    requires nEvents >= 1 && perRun >= 1
    ensures LeftAfter(nEvents, perRun, k) == nEvents - k * perRun
    ensures LeftAfter(nEvents, perRun, k) <= 0 <==> k >= CeilDiv(nEvents, perRun)
  {
    if k > 0 {
      BudgetRunsEnds(nEvents, perRun, k - 1);
      assert k * perRun == (k - 1) * perRun + perRun;
    }
    CeilDivBound(nEvents, perRun, k);
  }

  function Sum(s: seq<int>): int
  {
    if s == [] then 0 else s[0] + Sum(s[1..])
  }

  function CeilDiv(n: nat, p: nat): nat
    requires p >= 1
  {
    (n + p - 1) / p
  }

  /** The percentage of an iteration of `n` events that `part` events make up. */
  function Percent(part: int, n: int): real
    requires n > 0
  {
    100.0 * (part as real) / (n as real)
  }

  /** The percentage recorded for each step: the share of the iteration sent so far,
      that step included. */
  function CumulativePercent(steps: seq<int>, n: int): (pcs: seq<real>)
    requires n > 0
  {
    seq(|steps|, k requires 0 <= k < |steps| => Percent(Sum(steps[..k + 1]), n))
  }

  lemma {:induction false} SumAppend(s: seq<int>, x: int)
    ensures Sum(s + [x]) == Sum(s) + x
  {
    if s == [] {
      assert [] + [x] == [x];
    } else {
      assert (s + [x])[1..] == s[1..] + [x];
      SumAppend(s[1..], x);
    }
  }

  lemma MulAtLeast(k: int, p: int)
    requires k >= 1 && p >= 1
    ensures k * p >= p
  {
    assert k * p == (k - 1) * p + p;
    assert (k - 1) * p >= 0;
  }

  /** Euclidean division is determined by quotient and remainder. */
  lemma DivUnique(a: int, p: int, q: int, r: int)
    requires p >= 1 && 0 <= r < p && a == q * p + r
    ensures a / p == q
  {
    var q', r' := a / p, a % p;
    assert a == q' * p + r';
    if q' > q {
      assert q' * p - q * p == (q' - q) * p;
      MulAtLeast(q' - q, p);
    } else if q' < q {
      assert q * p - q' * p == (q - q') * p;
      MulAtLeast(q - q', p);
    }
  }

  lemma DivPlusOne(a: int, p: int)
    requires a >= 0 && p >= 1
    ensures (a + p) / p == a / p + 1
  {
    var q, r := a / p, a % p;
    assert a == q * p + r;
    assert (q + 1) * p == q * p + p;
    DivUnique(a + p, p, q + 1, r);
  }

  /** `k` passes of `p` events use up `n` events exactly when `k` is at least ceil(n/p). */
  lemma CeilDivBound(n: int, p: int, k: nat)
    requires n >= 1 && p >= 1
    ensures n - k * p <= 0 <==> k >= CeilDiv(n, p)
  {
    var q, r := (n + p - 1) / p, (n + p - 1) % p;
    assert n + p - 1 == q * p + r;
    if k >= q {
      assert k * p == q * p + (k - q) * p;
      assert (k - q) * p >= 0;
    } else {
      assert q * p == k * p + (q - k) * p;
      MulAtLeast(q - k, p);
    }
  }

  /** Closed form of the schedule: ceil(n/p) steps, all of `p` events except the last,
      which takes what remains. */
  lemma {:induction false} StepSizesClosedForm(n: int, p: int)
    requires n >= 1 && p >= 1
    ensures |StepSizes(n, p)| == CeilDiv(n, p)
    ensures forall i :: 0 <= i < |StepSizes(n, p)| - 1 ==> StepSizes(n, p)[i] == p
    ensures StepSizes(n, p)[|StepSizes(n, p)| - 1] == n - (CeilDiv(n, p) - 1) * p
    decreases n
  {
    var s := StepSizes(n, p);
    if n <= p {
      assert StepSizes(n - p, p) == [];
      assert s == [n];
      DivUnique(n + p - 1, p, 1, n - 1);
    } else {
      StepSizesClosedForm(n - p, p);
      var t := StepSizes(n - p, p);
      assert s == [p] + t;
      DivPlusOne(n - 1, p);
    }
  }

  /** What the schedule promises for a positive iteration and budget: every step holds
      between 1 and `p` events, all but the last hold exactly `p`, the steps add up to
      `n`, and there are ceil(n/p) of them. */
  lemma {:induction false} StepSizesShape(n: int, p: int)
    requires n >= 1 && p >= 1
    ensures |StepSizes(n, p)| == CeilDiv(n, p)
    ensures forall i :: 0 <= i < |StepSizes(n, p)| ==> 1 <= StepSizes(n, p)[i] <= p
    ensures forall i :: 0 <= i < |StepSizes(n, p)| - 1 ==> StepSizes(n, p)[i] == p
    ensures Sum(StepSizes(n, p)) == n
    decreases n
  {
    StepSizesClosedForm(n, p);
    var s := StepSizes(n, p);
    if n <= p {
      assert StepSizes(n - p, p) == [];
      assert s == [n];
      assert Sum(s) == n + Sum([]);
    } else {
      StepSizesShape(n - p, p);
      var t := StepSizes(n - p, p);
      assert s == [p] + t;
      assert s[1..] == t;
    }
  }

  /** Prefix sums of positive step sizes grow by at least one per step. */
  lemma {:induction false} PrefixSumGrows(s: seq<int>, i: nat, j: nat)
    requires i <= j <= |s|
    requires forall k :: 0 <= k < |s| ==> s[k] >= 1
    ensures Sum(s[..j]) >= Sum(s[..i]) + (j - i)
    decreases j
  {
    if i < j {
      PrefixSumGrows(s, i, j - 1);
      assert s[..j] == s[..j - 1] + [s[j - 1]];
      SumAppend(s[..j - 1], s[j - 1]);
    }
  }

  /** Before the last step, the steps sent so far hold `p` events each. */
  lemma {:induction false} FullStepsPrefix(s: seq<int>, p: int, j: nat)
    requires j < |s| && forall k :: 0 <= k < |s| - 1 ==> s[k] == p
    ensures Sum(s[..j]) == j * p
  {
    if j == 0 {
      assert s[..0] == [];
    } else {
      FullStepsPrefix(s, p, j - 1);
      assert s[..j] == s[..j - 1] + [s[j - 1]];
      SumAppend(s[..j - 1], s[j - 1]);
      assert j * p == (j - 1) * p + p;
    }
  }

  /** The recorded percentages: one per step, strictly increasing, the first one
      positive and the last one exactly 100. */
  lemma PercentagesIncreaseTo100(n: int, p: int)
    requires n >= 1 && p >= 1
    ensures |CumulativePercent(StepSizes(n, p), n)| == |StepSizes(n, p)|
    ensures forall i, j :: 0 <= i < j < |StepSizes(n, p)| ==>
      CumulativePercent(StepSizes(n, p), n)[i] < CumulativePercent(StepSizes(n, p), n)[j]
    ensures 0.0 < CumulativePercent(StepSizes(n, p), n)[0]
    ensures CumulativePercent(StepSizes(n, p), n)[|StepSizes(n, p)| - 1] == 100.0
  {
    var s := StepSizes(n, p);
    var pcs := CumulativePercent(s, n);
    StepSizesShape(n, p);
    forall i, j | 0 <= i < j < |s| ensures pcs[i] < pcs[j] {
      PrefixSumGrows(s, i + 1, j + 1);
      PercentMonotone(Sum(s[..i + 1]), Sum(s[..j + 1]), n);
    }
    PrefixSumGrows(s, 0, 1);
    assert s[..0] == [];
    PercentBounds(Sum(s[..1]), n);
    assert s[..|s|] == s;
    PercentBounds(n, n);
  }

  lemma CumulativePercentAppend(s: seq<int>, c: int, n: int)
    requires n > 0
    ensures CumulativePercent(s + [c], n) == CumulativePercent(s, n) + [Percent(Sum(s) + c, n)]
  {
    var t := s + [c];
    assert t[..|t|] == t;
    SumAppend(s, c);
    forall k | 0 <= k < |s|
      ensures CumulativePercent(t, n)[k] == CumulativePercent(s, n)[k]
    {
      assert t[..k + 1] == s[..k + 1];
    }
  }

  lemma PercentBounds(part: int, n: int)
    requires n > 0
    ensures part > 0 ==> Percent(part, n) > 0.0
    ensures part == n ==> Percent(part, n) == 100.0
  {
    var pn, nn := part as real, n as real;
    if part == n {
      assert 100.0 * nn / nn == 100.0;
    }
  }

  lemma PercentMonotone(a: int, b: int, n: int)
    requires n > 0 && a < b
    ensures Percent(a, n) < Percent(b, n)
  {
    var an, bn, nn := a as real, b as real, n as real;
    assert 100.0 * an < 100.0 * bn;
    assert 100.0 * an / nn < 100.0 * bn / nn;
  }

  lemma PercentStep(sent: int, c: int, n: int)
    requires n > 0
    ensures Percent(sent, n) + (c as real) / (n as real) * 100.0 == Percent(sent + c, n)
  {
    var nn := n as real;
    calc {
      Percent(sent, n) + (c as real) / nn * 100.0;
      100.0 * (sent as real) / nn + 100.0 * (c as real) / nn;
      (100.0 * (sent as real) + 100.0 * (c as real)) / nn;
      Percent(sent + c, n);
    }
  }

  /** Recording one more step of `c` events: the running percentage grows by the step's
      share and becomes the step's entry. */
  lemma PercentRecord(s: seq<int>, c: int, n: int, pc: real)
    requires n > 0 && pc == Percent(Sum(s), n)
    ensures pc + (c as real) / (n as real) * 100.0 == Percent(Sum(s + [c]), n)
    ensures CumulativePercent(s + [c], n) == CumulativePercent(s, n) + [pc + (c as real) / (n as real) * 100.0]
  {
    PercentStep(Sum(s), c, n);
    SumAppend(s, c);
    CumulativePercentAppend(s, c, n);
  }

  /** The step loop of `run_event`: while events remain, schedule `min(left, perRun)`
      events, add their share to the running percentage and subtract `perRun`. */
  method PlanSteps(nEvents: int, perRun: int) returns (eventsToDo: seq<int>, percentages: seq<real>)
    requires nEvents <= 0 || perRun >= 1
    ensures eventsToDo == StepSizes(nEvents, perRun)
    ensures nEvents <= 0 ==> eventsToDo == [] && percentages == []
    ensures nEvents > 0 ==> percentages == CumulativePercent(eventsToDo, nEvents)
    ensures nEvents > 0 ==> Sum(eventsToDo) == nEvents && |eventsToDo| == CeilDiv(nEvents, perRun)
    ensures forall i :: 0 <= i < |eventsToDo| ==> 1 <= eventsToDo[i] <= perRun
  {
    var eventsLeft := nEvents;
    eventsToDo := [];
    percentages := [];
    var pc := 0.0;
    while eventsLeft > 0
      invariant eventsToDo + StepSizes(eventsLeft, perRun) == StepSizes(nEvents, perRun)
      invariant |percentages| == |eventsToDo|
      invariant nEvents > 0 ==> percentages == CumulativePercent(eventsToDo, nEvents)
      invariant nEvents > 0 ==> pc == Percent(Sum(eventsToDo), nEvents)
      invariant nEvents <= 0 ==> eventsToDo == []
      invariant eventsLeft <= nEvents
      decreases eventsLeft
    {
      var ncalls := Min(eventsLeft, perRun);
      assert StepSizes(eventsLeft, perRun) == [ncalls] + StepSizes(eventsLeft - perRun, perRun);
      PercentRecord(eventsToDo, ncalls, nEvents, pc);
      pc := pc + (ncalls as real) / (nEvents as real) * 100.0;
      eventsToDo := eventsToDo + [ncalls];
      percentages := percentages + [pc];
      eventsLeft := eventsLeft - perRun;
    }
    if nEvents > 0 {
      StepSizesShape(nEvents, perRun);
    }
  }
}
