# MonteCarloFlow bookkeeping, modelled in Dafny

This project models the sequential bookkeeping of `MonteCarloFlow`, the base class of
the vegasflow integrators (`src/vegasflow/monte_carlo.py`). Tensor arithmetic and the
sampling algorithms belong to the subclasses and are not modelled. The model covers:

- **Per-step budget** (`Schedule`, `MonteCarlo.MonteCarloFlow.SetEventsPerRun`). The number
  of events sent to a device in one step is the requested limit clamped to the iteration
  size. The setter stores that value, raises ZeroDivisionError when it is zero, and warns
  when it does not divide the iteration.
- **Step schedule of `run_event`** (`Schedule.PlanSteps`). The loop splits an iteration
  of `n_events` into ceil(n/p) steps. Every step holds `p` events except the last, which
  holds the remainder. The steps add up to `n`. The cumulative percentages rise strictly
  and end at exactly 100.
- **Accumulation** (`Accumulate`). `_accumulate` adds the step results up, one total per
  quantity. An empty list of steps, or a step result shorter than the first, raises
  IndexError.
- **Device table** (`Devices`, `GetDevice`, `ReleaseDevice`, `DeviceRun`). Devices are
  kept in registration order. `get_device` takes the first idle one. `device_run` hands
  it back, so a sequential run leaves the table as it found it.
- **`compile`** (`Signature`, `MonteCarlo.MonteCarloFlow.Compile`). The integrand's
  argument names decide four things:
  - whether `n_dim` is removed;
  - whether the event weight is passed;
  - whether the input signature is autodiscovered, extended with weight specs or dropped;
  - whether the integrand is traced again.
- **`run_integration`** (`Aggregation`, `MonteCarlo.MonteCarloFlow.RunIntegration`).
  - Each iteration is recorded in the history, in order.
  - The iterations are combined with weights 1/error², giving the weighted mean and the
    variance 1/Σw.
  - When histogram variables are passed, they end up holding the same weighted mean of
    the per-iteration histogram copies.
- **Reweighting in `generate_random_array`** (`GenerateRandomWeights`). Sampler weights
  computed for an iteration of `n_events` are rescaled to the number of events actually
  drawn.

Inputs that stand in for code outside the model:

- The compiled event is a function parameter `event: (nat, int) -> seq<real>`. Every call
  of the event draws fresh random points (`_generate_random_array`, lines 210-212), so the
  event is given the number of the call as well as the number of events. Step `k` of an
  iteration is call `k`. The result is the tuple of quantities of that step.
- The outcome of each `_run_iteration` is an input: its result, its error, and the
  contents of the histogram variables once the integrand has filled them.
- The list of logical devices found by TensorFlow is an input list of names. An empty
  device list (`self.devices = None`) becomes an empty table. The two behave alike in
  `device_run`.
- Python introspection of the integrand becomes `Signature.Integrand`: its argument
  names, plus the input signature it carries if it is already compiled.

Errors are values of `Wrappers.Result`:

| Error | Python error |
|---|---|
| `NotCompiled` | RuntimeError "Compile must be ran…" |
| `ZeroDivision` | ZeroDivisionError |
| `IndexOutOfRange` | IndexError from `_accumulate` |
| `NonFiniteWeight` | an iteration error of zero, whose weight 1/σ² is not finite |
| `InvalidBudget` | none: the step loop of `run_event` never ends (see Findings) |

Three facts about the code that the model keeps:

- `compile` (`src/vegasflow/monte_carlo.py:375-490`) never checks the integrand against
  `n_dim`. It only reads the argument names.
- `run_integration` appends each iteration to the history (line 544) before the
  combination loop runs (lines 556-575). A combination that fails therefore still leaves
  the history extended.
- The constructor divides by `n_events` (line 121) and checks nothing else. Any non-zero
  value is accepted, negative ones included.

## Model

| member | source | states |
|---|---|---|
| Schedule.StepBudget | src/vegasflow/monte_carlo.py:122 | the budget is at most the limit and at most `n_events`, and equals one of them |
| MonteCarlo.MonteCarloFlow.constructor | src/vegasflow/monte_carlo.py:106-140 | the budget is the clamped limit; each device found is registered once, in first-seen order, and available; the history is empty; nothing is compiled; weight passing is off |
| MonteCarlo.Create | src/vegasflow/monte_carlo.py:106-122 | construction fails with ZeroDivisionError exactly when `n_events` is 0; otherwise it yields a fresh valid integrator with the given sizes and the clamped budget |
| MonteCarlo.MonteCarloFlow.SetEventsPerRun | src/vegasflow/monte_carlo.py:150-158 | the new budget is `min(val, n_events)` and is stored even when it is 0; a zero budget fails with ZeroDivisionError; otherwise the result says whether the budget fails to divide `n_events` (the warning) |
| Schedule.PlanSteps | src/vegasflow/monte_carlo.py:323-334 | the loop produces the schedule `StepSizes`: no steps for `n_events <= 0`; otherwise ceil(n/p) steps, each of 1..p events, summing to `n`, with the cumulative percentages |
| Schedule.StepSizesShape | src/vegasflow/monte_carlo.py:323-334 | for n, p ≥ 1: ceil(n/p) steps; every step holds 1..p events; all but the last hold exactly p; the sum is n |
| Schedule.StepSizesClosedForm | src/vegasflow/monte_carlo.py:329-334 | the last step holds `n - (ceil(n/p) - 1)·p` events and all others `p` |
| Schedule.PercentagesIncreaseTo100 | src/vegasflow/monte_carlo.py:329-333 | one percentage per step; they rise strictly; the first is positive; the last is exactly 100 |
| Accumulate.Accumulate | src/vegasflow/monte_carlo.py:67-87 | fails with IndexError exactly when there are no step results or one is shorter than the first; otherwise it returns one total per quantity of the first result, the sum of that quantity over all steps |
| Accumulate.ColumnSumSplit | src/vegasflow/monte_carlo.py:84-86 | the total over a list of steps is the total over its first part plus the total over its second |
| Accumulate.ColumnSumSingle | src/vegasflow/monte_carlo.py:84-86 | with a single step the totals are that step's quantities |
| Devices.FirstIdle | src/vegasflow/monte_carlo.py:240-246 | finds no device exactly when every flag is false; otherwise finds the first available device in registration order |
| Devices.Dedup | src/vegasflow/monte_carlo.py:135-138 | the registered names are distinct, are exactly the names found, are no more than were found, and keep the order of each name's first occurrence |
| MonteCarlo.MonteCarloFlow.GetDevice | src/vegasflow/monte_carlo.py:235-249 | returns nothing, and changes nothing, exactly when no device is available; otherwise returns the first available device in registration order and marks it busy, changing no other flag |
| MonteCarlo.MonteCarloFlow.ReleaseDevice | src/vegasflow/monte_carlo.py:251-257 | the device is marked available; an unknown name is appended to the table |
| MonteCarlo.MonteCarloFlow.DeviceRun | src/vegasflow/monte_carlo.py:259-282 | fails with the RuntimeError before `compile`; otherwise returns the result of the given call of the event for `ncalls` events, and the device table is as it was |
| MonteCarlo.MonteCarloFlow.RunEvent | src/vegasflow/monte_carlo.py:305-361 | fails before `compile`; refuses a budget below one event when `n_events > 0` (the corrected behaviour, see Findings); otherwise makes one call of the event per scheduled step, in order, and returns the accumulation of the step results (IndexError when `n_events <= 0`); the device table is unchanged |
| MonteCarlo.StepPrefixCovers | src/vegasflow/monte_carlo.py:329-361 | the first `j` steps of the schedule, accumulated, add up the contributions of the first events of the iteration, in order, each once |
| MonteCarlo.StepsCoverTheIteration | src/vegasflow/monte_carlo.py:329-361 | when each call of the event samples its own events, accumulating the scheduled steps adds up, quantity by quantity, the contributions of exactly `n` events, each counted once: splitting an iteration to bound memory does not change what is estimated |
| Schedule.NoBudgetNeverEnds | src/vegasflow/monte_carlo.py:122 | as written, a limit of zero or less with a positive `n_events` gives a budget that does not run: however many passes the step loop makes, the events left never drop below `n_events` |
| Schedule.BudgetRunsEnds | src/vegasflow/monte_carlo.py:329-334 | with a positive budget, after `k` passes `n - k·p` events are left, and the loop guard fails exactly from pass ceil(n/p) on |
| Sequences.FirstIndex | src/vegasflow/monte_carlo.py:441 | the position found holds the name and no earlier position does |
| Sequences.RemoveFirstCounts | src/vegasflow/monte_carlo.py:441 | `list.remove` takes out exactly one occurrence: the multiset loses that name once, and a name that occurred once is gone |
| Sequences.RemoveFirstAt | src/vegasflow/monte_carlo.py:441 | `list.remove` takes out the first occurrence and keeps every other name, in order |
| Signature.ScanPassWeight | src/vegasflow/monte_carlo.py:461-473 | after the loop, weight passing is on exactly when it was on before or `weight` is among the scanned arguments |
| Signature.ScanDropsIff | src/vegasflow/monte_carlo.py:461-469 | the signature ends up dropped exactly when it was already dropped or some scanned argument passes the drop test while compiling; as written the test is "not a substring of `weight`", as intended "not `weight`" |
| Signature.ScanAppendsWeight | src/vegasflow/monte_carlo.py:470-472 | when nothing drops it, a non-empty signature gains one weight spec per `weight` argument, and an empty or absent one is kept |
| Signature.ScanRulesAgree | src/vegasflow/monte_carlo.py:463 | the loop as written and as intended agree on every argument list whose arguments are `weight` or not substrings of it; they disagree on dropping the signature exactly when, while compiling a signature not yet dropped, every argument is a substring of `weight` and one is not `weight` itself |
| Signature.PlanCompileArgsAndBuild | src/vegasflow/monte_carlo.py:418-490 | `n_dim` leaves the argument list once and nothing else does; the integrand is traced again exactly when compiling and it was not compiled already, or it carried `n_dim`; the event is traced exactly when compiling |
| Signature.PlanCompileWeight | src/vegasflow/monte_carlo.py:461-473 | after `compile`, weight passing is on exactly when it was on before or `weight` is an argument after the first |
| Signature.PlanCompileAutodiscovered | src/vegasflow/monte_carlo.py:453-479 | a plain integrand compiled with autodiscovery is traced again; with no signature when an extra argument passes the drop test, otherwise with the points spec plus one weight spec per `weight` argument; as written the test passes for arguments that are not substrings of `weight` |
| Signature.SubstringArgumentKeepsSignature | src/vegasflow/monte_carlo.py:463 | as written, `compile` of `f(xarr, eig)` with autodiscovery traces with the signature `[points]`, because `eig` is a substring of `weight`; with the intended test it traces with no signature |
| MonteCarlo.MonteCarloFlow.Compile | src/vegasflow/monte_carlo.py:375-490 | the event is set, and weight passing, the build of the integrand and event tracing are those of `PlanCompile` with the substring test of line 463 as written, on the arguments, the signature and the previous weight-passing flag |
| MonteCarlo.MonteCarloFlow.RunIntegration | src/vegasflow/monte_carlo.py:526-575 | the history gains one entry per iteration, in order, with a histogram copy exactly when histogram variables were given; the combination fails exactly when there is no iteration (ZeroDivisionError) or an error is zero; otherwise it is the inverse-variance weighted mean and variance, and the histograms hold their weighted mean |
| Aggregation.CombineIterations | src/vegasflow/monte_carlo.py:556-575 | fails with ZeroDivisionError on no iterations and with a non-finite weight on a zero error; otherwise it returns the weighted mean, the variance 1/Σw and the bin-by-bin weighted mean of the histogram copies |
| Aggregation.Weight | src/vegasflow/monte_carlo.py:561 | the weight of a non-zero error is positive |
| Aggregation.Accumulated | src/vegasflow/monte_carlo.py:556-563 | the accumulated weight is non-negative, and positive once there is an iteration |
| Aggregation.AccumulatedAppend | src/vegasflow/monte_carlo.py:559-563 | the running sums over two runs of iterations are the sums of each run |
| Aggregation.AccumulatedPermutation | src/vegasflow/monte_carlo.py:559-563 | the running sums do not depend on the order of the iterations |
| Aggregation.WeightedMeanPermutation | src/vegasflow/monte_carlo.py:556-575 | the final result and its variance do not depend on the order of the iterations |
| Aggregation.AccumulatedBounds | src/vegasflow/monte_carlo.py:559-563 | if every result lies in [lo, hi], the weighted sum lies between lo and hi times the total weight |
| Aggregation.WeightedMeanBounds | src/vegasflow/monte_carlo.py:574 | if every result lies in [lo, hi], so does the final result |
| Aggregation.WeightedMeanBetweenExtremes | src/vegasflow/monte_carlo.py:574 | the final result lies between the smallest and the largest iteration result |
| Aggregation.MinValue | src/vegasflow/monte_carlo.py:536 | the smallest result is one of the results and bounds all of them from below |
| Aggregation.MaxValue | src/vegasflow/monte_carlo.py:536 | the largest result is one of the results and bounds all of them from above |
| Aggregation.AccumulatedWeightsCover | src/vegasflow/monte_carlo.py:561-563 | the total weight is at least the weight of any single iteration |
| Aggregation.CombinedVarianceBound | src/vegasflow/monte_carlo.py:575 | the combined variance is no larger than the variance of any single iteration |
| Aggregation.WeightsFromErrors | src/vegasflow/monte_carlo.py:561-563 | the total weight depends only on the errors, so the histograms share the result's weights |
| Aggregation.BinWeightedIsAccumulated | src/vegasflow/monte_carlo.py:564-568 | each accumulated histogram bin is the weighted sum that the result aggregation computes for that bin's values |
| Aggregation.WeightedHistogramsOfEqualCopies | src/vegasflow/monte_carlo.py:564-572 | when every iteration produced the same histogram, the final histograms are that histogram |
| Aggregation.WeightedHistogramsBounds | src/vegasflow/monte_carlo.py:564-572 | every final bin lies between that bin's smallest and largest per-iteration values |
| MonteCarlo.MonteCarloFlow.GenerateRandomWeights | src/vegasflow/monte_carlo.py:189-193 | each rescaled weight times the events drawn equals the sampler's weight times `n_events` |
| MonteCarlo.SameCountKeepsWeights | src/vegasflow/monte_carlo.py:192 | drawing `n_events` points leaves the sampler's weights unchanged |
| MonteCarlo.PlainSamplerWeighsOneOverN | src/vegasflow/monte_carlo.py:121 | with the plain sampler, whose weight is the jacobian 1/n_events, each of `n` drawn points weighs 1/n |

## Left out

- TensorFlow itself is left out: tensors, dtypes, `tf.function` tracing, `tf.device` placement and `tf.Variable` assignment. Tensors are reals and sequences of reals. Floating point is exact real arithmetic, so rounding and inf/NaN propagation are not modelled.
- The square root in `sigma = np.sqrt(1.0 / weight_sum)` is left out. The model returns the variance `1/Σw`, because Dafny's reals have no square root.
- Concurrency is left out: the `threading.Lock`, the joblib thread pool, and the dask path of `run_event` together with `set_distribute`. Steps run one after another. Joblib also returns results in step order, so the accumulated result is the same.
- MonteCarlo.MonteCarloFlow.DeviceRun: when no device is idle, the source releases `None`, which adds a `None` key to the table. The model releases nothing then. This happens only when steps run concurrently or `get_device` was called by hand.
- MonteCarlo.MonteCarloFlow.constructor: requires `n_events != 0`. The zero case, which raises ZeroDivisionError, is modelled by `MonteCarlo.Create`.
- MonteCarlo.MonteCarloFlow.RunEvent: where the source loops forever (a budget below one event with `n_events > 0`), the model returns `InvalidBudget`; see Findings.
- MonteCarlo.MonteCarloFlow.RunEvent: the call numbers stand for the fresh random draw of each call. The model does not say how the points are drawn, only that each call samples its own events (`MonteCarlo.SamplesFresh`).
- MonteCarlo.MonteCarloFlow.GenerateRandomWeights: requires a non-zero number of events. For zero the tensor division gives inf/NaN, which are not modelled.
- Logging, `print_iteration`, the progress print in `device_run` and time measurement (`log_time`) are left out. They do not change state. The percentages the progress print shows are modelled and proved.
- `trace` is left out. It is a 50-event `run_integration` with `n_events` swapped and then restored.
- `set_seed` and the random draw in `_generate_random_array` are left out. The sampler's weights are an input.
- The abstract methods `_run_iteration` and `_run_event` are supplied by subclasses. Their outputs are inputs.
- The module functions `wrapper` and `sampler` are left out; they only drive the class.
- Compile: the integrand wrappers that fix `n_dim` are left out, as is the `**kwargs` forwarding. The model records what is built (`Signature.Build`), not a callable. `compile(trace=True)` is left out with `trace`.
- Compile: the source appends weight specs to the caller's own signature list, mutating it. The model builds a new signature value.
- Compile: `Signature.Build.AsIs` stands for the plain Python function of the integrand (lines 423 and 481). For an integrand that arrives compiled and is not traced again, its `tf.function` wrapper and signature are discarded. With `compilable` off, the function runs eagerly. The model records that no new tracing happens; it does not model what the event's own tracing then does with the plain function.
- MonteCarlo.MonteCarloFlow.RunIntegration: on an empty run (`n_iter <= 0`) or a zero error, the histogram variables are not modelled. The source leaves them NaN, inf, or as they were.
- The zeroing of the histogram variables after each iteration is left out. Each outcome carries what the integrand put into the variables, which is what the source copies.
- Device discovery (`list_logical_devices`) is left out. The names it returns are an input.

## Findings

| source | as written | input that shows it | evidently intended | confidence | as-written member | corrected member |
|---|---|---|---|---|---|---|
| src/vegasflow/monte_carlo.py:463 | `arg not in ("weight")` tests whether `arg` is a substring of the string `"weight"`, because `("weight")` is a string rather than a one-element tuple | an integrand `f(xarr, eig)` compiled with autodiscovery: `eig` is a substring of `weight`, so the signature `[points]` is kept for an argument the integrator never passes | any argument other than `weight` drops the signature (`arg != "weight"`) | medium, not executed | Signature.SubstringArgumentKeepsSignature | Signature.ScanDropsIff |
| src/vegasflow/monte_carlo.py:329-334 | the budget is only clamped from above, by `min` (lines 122 and 153); neither the constructor nor the setter rejects a limit of zero or less, and the step loop subtracts the budget from the events left | `events_limit=0` (or the setter with a negative value) with `n_events=10`: the events left stay at 10, so `run_event` never returns | a budget below one event is an error | medium, not executed | Schedule.NoBudgetNeverEnds | MonteCarlo.MonteCarloFlow.RunEvent |

`MonteCarlo.MonteCarloFlow.Compile` follows line 463 as written. The same lemmas
also hold for the intended test, `Signature.Intended`, and `Signature.ScanRulesAgree`
states exactly where the two differ.
