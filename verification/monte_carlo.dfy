/** The integrator base class: the per-step event budget, the device table, the step
    schedule of one iteration, the preparation of the integrand and the history and
    aggregation of the iterations. The compiled event, the sampler and the iteration
    itself are supplied by subclasses and enter the model as inputs. */
module MonteCarlo {
  import opened Wrappers
  import Schedule
  import Accumulate
  import Devices
  import Signature
  import Sequences
  import Aggregation

  /** What one call of `_run_iteration` leaves behind: its result, its error, and the
      contents of the histogram variables once the integrand has filled them. */
  datatype IterationOutcome = IterationOutcome(value: real, error: real, filled: seq<seq<real>>)

  /** One entry of the history: result, error and the copy of the histograms (None when
      no histogram variables were given). */
  datatype HistoryEntry = HistoryEntry(value: real, error: real, histograms: Option<seq<seq<real>>>)

  /** The results of the compiled event for each step, in order. The event draws fresh
      random points on every call, so it is given the number of the call as well as the
      number of events: step `k` is call `k`. */
  function StepResults(event: (nat, int) -> seq<real>, steps: seq<int>): (rs: seq<seq<real>>)
    ensures |rs| == |steps|
  {
    seq(|steps|, k requires 0 <= k < |steps| => event(k, steps[k]))
  }

  function Results(outcomes: seq<IterationOutcome>): (its: seq<Aggregation.IterationResult>)
    ensures |its| == |outcomes|
  {
    seq(|outcomes|, i requires 0 <= i < |outcomes| =>
      Aggregation.IterationResult(outcomes[i].value, outcomes[i].error))
  }

  function Copies(outcomes: seq<IterationOutcome>): (cs: seq<seq<seq<real>>>)
    ensures |cs| == |outcomes|
  {
    seq(|outcomes|, i requires 0 <= i < |outcomes| => outcomes[i].filled)
  }

  /** Python's `if histograms:` on the tuple of histogram variables. */
  predicate Live(histograms: Option<seq<nat>>)
  {
    histograms.Some? && |histograms.value| > 0
  }

  /** The history entries recorded for `outcomes`, one per iteration and in order. */
  function Entries(outcomes: seq<IterationOutcome>, histograms: Option<seq<nat>>): (es: seq<HistoryEntry>)
    ensures |es| == |outcomes|
  {
    seq(|outcomes|, i requires 0 <= i < |outcomes| =>
      HistoryEntry(outcomes[i].value, outcomes[i].error,
                   if histograms.Some? then Some(outcomes[i].filled) else None))
  }

  class MonteCarloFlow {
    const nDim: nat
    const nEvents: int
    /** The jacobian of one event of an iteration: 1 / n_events. */
    const xjac: real
    var eventsPerRun: int
    var history: seq<HistoryEntry>
    /** Whether `compile` has set the event. */
    var compiled: bool
    var passWeight: bool
    var build: Signature.Build
    var eventTraced: bool
    /** The device table: names in registration order and their availability. */
    var deviceOrder: seq<string>
    var available: map<string, bool>

    ghost predicate Valid()
      reads this
    {
      && nEvents != 0
      && xjac == 1.0 / (nEvents as real)
      && eventsPerRun <= nEvents
      && Devices.TableValid(deviceOrder, available)
    }

    /** `__init__`: the budget is the limit clamped to the iteration, and every device
        found is registered once, available. An empty device list gives an empty table. */
    constructor (nDim: nat, nEvents: int, eventsLimit: int, deviceNames: seq<string>)
      requires nEvents != 0
      ensures Valid()
      ensures this.nDim == nDim && this.nEvents == nEvents
      ensures eventsPerRun == Schedule.StepBudget(eventsLimit, nEvents)
      ensures history == [] && !compiled && !passWeight
      ensures deviceOrder == Devices.Dedup(deviceNames)
      ensures forall d :: d in available ==> available[d]
    {
      var order: seq<string> := [];
      var table: map<string, bool> := map[];
      for k := 0 to |deviceNames|
        invariant order == Devices.Dedup(deviceNames[..k])
        invariant table.Keys == set d | d in order
        invariant forall d :: d in table ==> table[d]
      {
        var dev := deviceNames[k];
        assert deviceNames[..k + 1][..k] == deviceNames[..k];
        if dev !in table {
          order := order + [dev];
        }
        table := table[dev := true];
      }
      assert deviceNames[..|deviceNames|] == deviceNames;
      this.nDim := nDim;
      this.nEvents := nEvents;
      xjac := 1.0 / (nEvents as real);
      eventsPerRun := Schedule.StepBudget(eventsLimit, nEvents);
      history := [];
      compiled := false;
      passWeight := false;
      build := Signature.AsIs;
      eventTraced := false;
      deviceOrder := order;
      available := table;
    }

    /** The `events_per_run` setter: the new budget is clamped to the iteration and is
        stored before the divisibility test, which raises ZeroDivisionError for a zero
        budget; otherwise the result says whether the performance warning is logged. */
    method SetEventsPerRun(val: int) returns (r: Result<bool>)
      requires Valid()
      modifies this`eventsPerRun
      ensures Valid()
      ensures eventsPerRun == Schedule.StepBudget(val, nEvents)
      ensures eventsPerRun == 0 ==> r == Failure(ZeroDivision)
      ensures eventsPerRun != 0 ==> r == Success(nEvents % eventsPerRun != 0)
    {
      eventsPerRun := Schedule.StepBudget(val, nEvents);
      if eventsPerRun == 0 {
        return Failure(ZeroDivision);
      }
      return Success(nEvents % eventsPerRun != 0);
    }

    /** `get_device`: the first available device in registration order is marked busy
        and returned; when all are busy nothing changes. */
    method GetDevice() returns (device: Option<string>)
      requires Valid()
      modifies this`available
      ensures Valid()
      ensures device.None? <==> forall d :: d in old(available) ==> !old(available)[d]
      ensures match Devices.FirstIdle(deviceOrder, old(available), 0)
        case None => device.None? && available == old(available)
        case Some(k) => device == Some(deviceOrder[k]) && old(available)[deviceOrder[k]]
                        && available == old(available)[deviceOrder[k] := false]
    {
      var k := 0;
      while k < |deviceOrder|
        invariant 0 <= k <= |deviceOrder|
        invariant Devices.FirstIdle(deviceOrder, available, 0) == Devices.FirstIdle(deviceOrder, available, k)
      {
        var d := deviceOrder[k];
        assert d in available;
        if available[d] {
          available := available[d := false];
          return Some(d);
        }
        k := k + 1;
      }
      assert forall d :: d in available ==> exists i :: 0 <= i < |deviceOrder| && deviceOrder[i] == d;
      return None;
    }

    /** `release_device`: the device is marked available; a name not in the table is
        added to it, last. */
    method ReleaseDevice(device: string)
      requires Valid()
      modifies this`available, this`deviceOrder
      ensures Valid()
      ensures available == old(available)[device := true]
      ensures deviceOrder == if device in old(available) then old(deviceOrder) else old(deviceOrder) + [device]
    {
      if device !in available {
        assert device !in deviceOrder;
        deviceOrder := deviceOrder + [device];
      }
      available := available[device := true];
    }

    /** `device_run`: refuses to run before `compile`; otherwise makes call number `call`
        of the event, for `ncalls` events, on the first idle device, if any, and gives the
        device back, so the table is as it was. */
    method DeviceRun(event: (nat, int) -> seq<real>, call: nat, ncalls: int) returns (r: Result<seq<real>>)
      requires Valid()
      modifies this`available, this`deviceOrder
      ensures Valid()
      ensures available == old(available) && deviceOrder == old(deviceOrder)
      ensures !compiled ==> r == Failure(NotCompiled)
      ensures compiled ==> r == Success(event(call, ncalls))
    {
      if !compiled {
        return Failure(NotCompiled);
      }
      if |available| > 0 {
        var device := GetDevice();
        var result := event(call, ncalls);
        if device.Some? {
          ReleaseDevice(device.value);
          assert available == old(available);
        }
        return Success(result);
      }
      return Success(event(call, ncalls));
    }

    /** `run_event`: refuses to run before `compile`; splits the iteration into the
        steps of the schedule, runs each step in order and adds up their results. A budget
        below one event for a positive iteration is refused: the step loop would never
        end (see `Schedule.NoBudgetNeverEnds`). */
    method RunEvent(event: (nat, int) -> seq<real>) returns (r: Result<seq<real>>)
      requires Valid()
      modifies this`available, this`deviceOrder
      ensures Valid()
      ensures available == old(available) && deviceOrder == old(deviceOrder)
      ensures !compiled ==> r == Failure(NotCompiled)
      ensures compiled && !Schedule.BudgetRuns(nEvents, eventsPerRun) ==> r == Failure(InvalidBudget)
      ensures compiled && Schedule.BudgetRuns(nEvents, eventsPerRun) ==>
        r == Accumulate.Summed(StepResults(event, Schedule.StepSizes(nEvents, eventsPerRun)))
    {
      if !compiled {
        return Failure(NotCompiled);
      }
      if !Schedule.BudgetRuns(nEvents, eventsPerRun) {
        return Failure(InvalidBudget);
      }
      var eventsToDo, percentages := Schedule.PlanSteps(nEvents, eventsPerRun);
      var accumulators: seq<seq<real>> := [];
      for k := 0 to |eventsToDo|
        invariant Valid()
        invariant available == old(available) && deviceOrder == old(deviceOrder)
        invariant accumulators == StepResults(event, eventsToDo[..k])
      {
        var res := DeviceRun(event, k, eventsToDo[k]);
        assert eventsToDo[..k + 1] == eventsToDo[..k] + [eventsToDo[k]];
        accumulators := accumulators + [res.value];
      }
      assert eventsToDo[..|eventsToDo|] == eventsToDo;
      r := Accumulate.Accumulate(accumulators);
    }

    /** `compile` without introspection and tracing: the argument names decide weight
        passing, the input signature and whether the integrand is traced again; the
        event is set. The test of line 463 is the substring test the code performs. */
    method Compile(f: Signature.Integrand, compilable: bool, signature: Signature.Signature)
      modifies this`compiled, this`passWeight, this`build, this`eventTraced
      ensures var plan := Signature.PlanCompile(f, compilable, signature, nDim, old(passWeight), Signature.AsWritten);
        && compiled
        && passWeight == plan.passWeight
        && build == plan.build
        && eventTraced == plan.eventTraced
    {
      var args := f.args;
      var sig := signature;
      var alreadyCompiled := f.compiledWith.Some?;
      if f.compiledWith.Some? {
        sig := f.compiledWith.value;
      }
      if "n_dim" in args {
        args := Sequences.RemoveFirst(args, "n_dim");
        if alreadyCompiled {
          alreadyCompiled := false;
          sig := Signature.Autodiscover;
        }
      }
      if sig == Signature.Autodiscover {
        sig := Signature.Specs([Signature.PointsSpec(nDim)]);
      }
      var start := Signature.ScanState(sig, passWeight);
      var extra := Signature.Extra(args);
      for i := 0 to |extra|
        invariant Signature.ScanState(sig, passWeight) == Signature.ScanArgs(extra[..i], compilable, start, Signature.AsWritten)
      {
        var arg := extra[i];
        Signature.ScanArgsStep(extra, i, compilable, start, Signature.AsWritten);
        if !Signature.IsSubstring(arg, "weight") && compilable {
          sig := Signature.NoSignature;
        }
        if arg == "weight" {
          if Signature.Truthy(sig) {
            sig := Signature.Specs(sig.specs + [Signature.WeightSpec]);
          }
          passWeight := true;
        }
      }
      assert extra[..|extra|] == extra;
      if compilable && !alreadyCompiled {
        build := Signature.Retrace(if Signature.Truthy(sig) then Some(sig.specs) else None);
      } else {
        build := Signature.AsIs;
      }
      eventTraced := compilable;
      compiled := true;
    }

    /** `run_integration`: records one history entry per iteration, in order, then
        combines the iterations with weights 1/error^2 and, when histogram variables
        were given, leaves in them the weighted mean of the per-iteration copies. */
    method RunIntegration(outcomes: seq<IterationOutcome>, histograms: Option<seq<nat>>)
      returns (r: Result<Aggregation.Combined>, finalHistograms: seq<seq<real>>)
      requires histograms.Some? ==> Aggregation.Shaped(Copies(outcomes), histograms.value)
      modifies this`history
      ensures history == old(history) + Entries(outcomes, histograms)
      ensures r.Failure? <==> outcomes == [] || exists i :: 0 <= i < |outcomes| && outcomes[i].error == 0.0
      ensures outcomes == [] ==> r == Failure(ZeroDivision)
      ensures r.Success? ==> r.value == Aggregation.Combined(
        Aggregation.WeightedMean(Results(outcomes)), Aggregation.CombinedVariance(Results(outcomes)))
      ensures r.Success? && Live(histograms) ==>
        finalHistograms == Aggregation.WeightedHistograms(Results(outcomes), Copies(outcomes), histograms.value)
      ensures !Live(histograms) ==> finalHistograms == []
    {
      var allResults: seq<Aggregation.IterationResult> := [];
      var histoResults: seq<seq<seq<real>>> := [];
      var live := Live(histograms);
      for i := 0 to |outcomes|
        invariant allResults == Results(outcomes)[..i]
        invariant histoResults == Copies(outcomes)[..i]
        invariant history == old(history) + Entries(outcomes, histograms)[..i]
      {
        var o := outcomes[i];
        allResults := allResults + [Aggregation.IterationResult(o.value, o.error)];
        histoResults := histoResults + [o.filled];
        var copy := if histograms.Some? then Some(o.filled) else None;
        assert Entries(outcomes, histograms)[..i + 1] == Entries(outcomes, histograms)[..i] + [HistoryEntry(o.value, o.error, copy)];
        history := history + [HistoryEntry(o.value, o.error, copy)];
      }
      assert Results(outcomes)[..|outcomes|] == Results(outcomes);
      assert Copies(outcomes)[..|outcomes|] == Copies(outcomes);
      assert Entries(outcomes, histograms)[..|outcomes|] == Entries(outcomes, histograms);
      assert Aggregation.NonZeroErrors(allResults) <==>
        forall i :: 0 <= i < |outcomes| ==> outcomes[i].error != 0.0 by {
        assert forall i :: 0 <= i < |outcomes| ==> allResults[i].error == outcomes[i].error;
      }
      var shape: seq<nat> := if live then histograms.value else [];
      var copies := if live then histoResults else seq(|outcomes|, _ => []);
      r, finalHistograms := Aggregation.CombineIterations(allResults, copies, shape);
      if !live {
        finalHistograms := [];
      }
    }

    /** `generate_random_array`: the weights of points drawn for `n` events, given by the
        sampler for an iteration of `n_events`, are rescaled to `n` events. */
    function GenerateRandomWeights(raw: seq<real>, n: int): (w: seq<real>)
      reads this
      requires Valid() && n != 0
      ensures |w| == |raw|
      ensures forall i :: 0 <= i < |raw| ==> w[i] * (n as real) == raw[i] * (nEvents as real)
    {
      seq(|raw|, i requires 0 <= i < |raw| => raw[i] / xjac / (n as real))
    }
  }

  /** Quantity `i` added up over the events numbered `a` to `b - 1`, where `g(i, e)` is
      what event `e` contributes to it. */
  function RangeSum(g: (nat, int) -> real, i: nat, a: int, b: int): real
    requires a <= b
    decreases b - a
  {
    if a == b then 0.0 else RangeSum(g, i, a, b - 1) + g(i, b - 1)
  }

  lemma {:induction false} RangeSumSplit(g: (nat, int) -> real, i: nat, a: int, m: int, b: int)
    requires a <= m <= b
    ensures RangeSum(g, i, a, b) == RangeSum(g, i, a, m) + RangeSum(g, i, m, b)
    decreases b - m
  {
    if m < b {
      RangeSumSplit(g, i, a, m, b - 1);
    }
  }

  /** The result `out` of running `c` events numbered from `start`: `len` quantities,
      each the sum of what those events contribute to it. */
  ghost predicate Covers(out: seq<real>, g: (nat, int) -> real, start: int, c: int, len: nat)
    requires c >= 0
  {
    |out| == len && forall i :: 0 <= i < len ==> out[i] == RangeSum(g, i, start, start + c)
  }

  /** An event whose quantities are sums over the events it samples, where call `k` of
      up to `p` events samples fresh events numbered from `k * p`. */
  ghost predicate SamplesFresh(event: (nat, int) -> seq<real>, g: (nat, int) -> real, p: int, len: nat)
  {
    forall k: nat, c :: 1 <= c <= p ==> Covers(event(k, c), g, k * p, c, len)
  }

  lemma FreshCall(event: (nat, int) -> seq<real>, g: (nat, int) -> real, p: int, len: nat, k: nat, c: int)
    requires SamplesFresh(event, g, p, len) && 1 <= c <= p
    ensures Covers(event(k, c), g, k * p, c, len)
  {
  }

  /** The first `j` steps of the schedule cover the first events of the iteration, one
      after the other: every step before the last holds `p` events. */
  lemma {:induction false} StepPrefixCovers(event: (nat, int) -> seq<real>, g: (nat, int) -> real,
                                            s: seq<int>, p: int, len: nat, i: nat, j: nat)
    requires p >= 1 && SamplesFresh(event, g, p, len) && i < len && j <= |s|
    requires forall k :: 0 <= k < |s| ==> 1 <= s[k] <= p
    requires forall k :: 0 <= k < |s| - 1 ==> s[k] == p
    ensures forall k :: 0 <= k < j ==> i < |StepResults(event, s)[..j][k]|
    ensures Schedule.Sum(s[..j]) >= 0
    ensures Accumulate.ColumnSum(StepResults(event, s)[..j], i) == RangeSum(g, i, 0, Schedule.Sum(s[..j]))
    decreases j
  {
    var rs := StepResults(event, s);
    Schedule.PrefixSumGrows(s, 0, j);
    assert s[..0] == [];
    if j == 0 {
      assert rs[..0] == [];
    } else {
      var k := j - 1;
      StepPrefixCovers(event, g, s, p, len, i, k);
      Schedule.FullStepsPrefix(s, p, k);
      FreshCall(event, g, p, len, k, s[k]);
      assert rs[..j][..k] == rs[..k];
      assert rs[..j][k] == event(k, s[k]);
      assert s[..j] == s[..k] + [s[k]];
      Schedule.SumAppend(s[..k], s[k]);
      RangeSumSplit(g, i, 0, k * p, k * p + s[k]);
    }
  }

  /** Splitting an iteration into steps to bound memory does not change what is
      estimated: when every call of the event samples fresh events, the accumulated
      steps of the schedule add up, quantity by quantity, the contributions of exactly
      `n` distinct events, each counted once. */
  lemma StepsCoverTheIteration(event: (nat, int) -> seq<real>, g: (nat, int) -> real, n: int, p: int, len: nat)
    requires n >= 1 && p >= 1 && SamplesFresh(event, g, p, len)
    ensures Accumulate.Summed(StepResults(event, Schedule.StepSizes(n, p)))
         == Success(seq(len, i requires 0 <= i < len => RangeSum(g, i, 0, n)))
  {
    var s := Schedule.StepSizes(n, p);
    var rs := StepResults(event, s);
    Schedule.StepSizesShape(n, p);
    assert s[..|s|] == s && rs[..|s|] == rs;
    forall k | 0 <= k < |rs| ensures |rs[k]| == len {
      FreshCall(event, g, p, len, k, s[k]);
    }
    assert Accumulate.WellShaped(rs);
    forall i | 0 <= i < len ensures Accumulate.ColumnSum(rs, i) == RangeSum(g, i, 0, n) {
      StepPrefixCovers(event, g, s, p, len, i, |s|);
    }
    assert seq(|rs[0]|, i requires 0 <= i < |rs[0]| => Accumulate.ColumnSum(rs, i))
        == seq(len, i requires 0 <= i < len => RangeSum(g, i, 0, n));
  }

  /** The events sampled for the iteration size the integrator was built with keep the
      weights the sampler gave them. */
  lemma SameCountKeepsWeights(flow: MonteCarloFlow, raw: seq<real>)
    requires flow.Valid()
    ensures flow.GenerateRandomWeights(raw, flow.nEvents) == raw
  {
    var w := flow.GenerateRandomWeights(raw, flow.nEvents);
    forall i | 0 <= i < |raw| ensures w[i] == raw[i] {
      var nn := flow.nEvents as real;
      assert w[i] * nn == raw[i] * nn;
    }
  }

  /** With the plain sampler, whose weight is the jacobian 1/n_events of the trained
      iteration, `n` sampled events weigh 1/n each. */
  lemma PlainSamplerWeighsOneOverN(flow: MonteCarloFlow, n: int)
    requires flow.Valid() && n != 0
    ensures flow.GenerateRandomWeights([flow.xjac], n) == [1.0 / (n as real)]
  {
    var w := flow.GenerateRandomWeights([flow.xjac], n);
    var nn, big := n as real, flow.nEvents as real;
    assert w[0] * nn == flow.xjac * big;
    assert flow.xjac * big == 1.0;
    assert w[0] == (w[0] * nn) / nn;
  }

  /** `__init__` with its error path: an iteration of zero events raises
      ZeroDivisionError when the jacobian is computed. */
  method Create(nDim: nat, nEvents: int, eventsLimit: int, deviceNames: seq<string>)
    returns (r: Result<MonteCarloFlow>)
    ensures r.Failure? <==> nEvents == 0
    ensures r.Failure? ==> r.error == ZeroDivision
    ensures r.Success? ==>
      && fresh(r.value) && r.value.Valid()
      && r.value.nEvents == nEvents && r.value.nDim == nDim
      && r.value.eventsPerRun == Schedule.StepBudget(eventsLimit, nEvents)
      && r.value.deviceOrder == Devices.Dedup(deviceNames)
  {
    if nEvents == 0 {
      return Failure(ZeroDivision);
    }
    var flow := new MonteCarloFlow(nDim, nEvents, eventsLimit, deviceNames);
    return Success(flow);
  }
}
