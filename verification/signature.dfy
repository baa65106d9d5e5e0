/** What `compile` does with the argument names of the integrand: drop the legacy
    `n_dim` argument, switch on weight passing for a `weight` argument, extend or drop
    the input signature, and decide whether the integrand is traced again.
    The discovery of the argument names (Python introspection) and the tracing itself
    are outside the model: the names are an input and the decision is the output. */
module Signature {
  import opened Wrappers
  import opened Sequences

  /** One entry of an input signature. */
  datatype TensorSpec =
    | PointsSpec(nDim: nat)    // the array of random points, shape [None, n_dim]
    | WeightSpec               // the weight of each event, shape [None]
    | GivenSpec(tag: string)   // an entry supplied by the caller

  /** The `signature` argument: None asks for autodiscovery, False asks for no signature,
      a list is used as it is. */
  datatype Signature = Autodiscover | NoSignature | Specs(specs: seq<TensorSpec>)

  /** Python's `if signature:`: only a non-empty list is true. */
  predicate Truthy(sig: Signature)
  {
    sig.Specs? && |sig.specs| > 0
  }

  /** The integrand as `compile` sees it: the argument names of its Python function and,
      when it is already a compiled function, the input signature it carries. */
  datatype Integrand = Integrand(args: seq<string>, compiledWith: Option<Signature>)

  /** How the integrand ends up inside the event. */
  datatype Build =
    | Retrace(inputSignature: Option<seq<TensorSpec>>) // traced again, with this signature if any
    | AsIs  // the plain Python function is called: a compiled integrand's wrapper and
            // signature are discarded, and with `compilable` off it runs eagerly

  datatype CompilePlan = CompilePlan(
    args: seq<string>,     // the argument list once `n_dim` is removed
    passWeight: bool,      // the integrator passes the event weight to the integrand
    build: Build,
    eventTraced: bool)     // the event wrapping the integrand is itself traced

  datatype ScanState = ScanState(signature: Signature, passWeight: bool)

  /** Python's `a in b` on two strings. */
  function IsSubstring(a: string, b: string): bool
    decreases |b|
  {
    if |a| > |b| then false
    else a == b[..|a|] || (|b| > 0 && IsSubstring(a, b[1..]))
  }

  /** Line 463 as written: `arg not in ("weight")` tests whether `arg` is a substring of
      the string "weight", since `("weight")` is a string and not a tuple. */
  predicate DropsSignatureAsWritten(arg: string, compilable: bool)
  {
    !IsSubstring(arg, "weight") && compilable
  }

  /** Line 463 as intended: any argument other than `weight` drops the signature when
      the integrand is to be compiled. */
  predicate DropsSignature(arg: string, compilable: bool)
  {
    arg != "weight" && compilable
  }

  /** Which test decides, at line 463, that an argument drops the signature: the
      substring test the code performs, or the exact comparison it evidently means. */
  datatype DropRule = AsWritten | Intended

  predicate Drops(rule: DropRule, arg: string, compilable: bool)
  {
    match rule
    case AsWritten => DropsSignatureAsWritten(arg, compilable)
    case Intended => DropsSignature(arg, compilable)
  }

  /** One pass of the loop over the extra arguments. */
  function ScanStep(st: ScanState, arg: string, compilable: bool, rule: DropRule): ScanState
  {
    var sig := if Drops(rule, arg, compilable) then NoSignature else st.signature;
    if arg == "weight" then
      ScanState(if Truthy(sig) then Specs(sig.specs + [WeightSpec]) else sig, true)
    else
      ScanState(sig, st.passWeight)
  }

  /** The loop over the extra arguments, from the first to the last. */
  function ScanArgs(extra: seq<string>, compilable: bool, st: ScanState, rule: DropRule): ScanState
  {
    if extra == [] then st
    else ScanStep(ScanArgs(extra[..|extra| - 1], compilable, st, rule), extra[|extra| - 1], compilable, rule)
  }

  /** The loop after one more argument. */
  lemma ScanArgsStep(extra: seq<string>, i: nat, compilable: bool, st: ScanState, rule: DropRule)
    requires i < |extra|
    ensures ScanArgs(extra[..i + 1], compilable, st, rule)
         == ScanStep(ScanArgs(extra[..i], compilable, st, rule), extra[i], compilable, rule)
  {
    assert extra[..i + 1][..i] == extra[..i];
  }

  function WeightSpecs(n: nat): seq<TensorSpec>
  {
    seq(n, _ => WeightSpec)
  }

  function Count(s: seq<string>, x: string): nat
  {
    multiset(s)[x]
  }

  /** The arguments after the first (the array of points), as `args[1:]`. */
  function Extra(args: seq<string>): seq<string>
  {
    if args == [] then [] else args[1..]
  }

  /** The whole of `compile` minus introspection and tracing, with the line-463 test
      chosen by `rule`. */
  function PlanCompile(f: Integrand, compilable: bool, signature: Signature, nDim: nat,
                       passWeight: bool, rule: DropRule): CompilePlan
  {
    var hasNDim := "n_dim" in f.args;
    var args := if hasNDim then RemoveFirst(f.args, "n_dim") else f.args;
    var alreadyCompiled := f.compiledWith.Some? && !hasNDim;
    var sig0 :=
      if f.compiledWith.Some? then (if hasNDim then Autodiscover else f.compiledWith.value)
      else signature;
    var sig1 := if sig0 == Autodiscover then Specs([PointsSpec(nDim)]) else sig0;
    var st := ScanArgs(Extra(args), compilable, ScanState(sig1, passWeight), rule);
    var build :=
      if compilable && !alreadyCompiled then
        Retrace(if Truthy(st.signature) then Some(st.signature.specs) else None)
      else AsIs;
    CompilePlan(args, st.passWeight, build, compilable)
  }

  /** Weight passing is switched on by a `weight` argument among the extra arguments and
      is never switched off. */
  lemma {:induction false} ScanPassWeight(extra: seq<string>, compilable: bool, st: ScanState, rule: DropRule)
    ensures ScanArgs(extra, compilable, st, rule).passWeight <==> st.passWeight || "weight" in extra
  {
    if extra != [] {
      var init := extra[..|extra| - 1];
      ScanPassWeight(init, compilable, st, rule);
      assert extra == init + [extra[|extra| - 1]];
    }
  }

  /** The signature is dropped exactly when it was already dropped or some extra
      argument passes the rule's test while compiling. */
  lemma {:induction false} ScanDropsIff(extra: seq<string>, compilable: bool, st: ScanState, rule: DropRule)
    ensures ScanArgs(extra, compilable, st, rule).signature == NoSignature <==>
      st.signature == NoSignature || exists k :: 0 <= k < |extra| && Drops(rule, extra[k], compilable)
  {
    if extra != [] {
      var init := extra[..|extra| - 1];
      ScanDropsIff(init, compilable, st, rule);
      assert forall k :: 0 <= k < |init| ==> init[k] == extra[k];
      if exists k :: 0 <= k < |extra| && Drops(rule, extra[k], compilable) {
        var k :| 0 <= k < |extra| && Drops(rule, extra[k], compilable);
        if k < |init| {
          assert Drops(rule, init[k], compilable);
        }
      }
    }
  }

  /** With nothing dropped, a non-empty signature gains one weight spec per `weight`
      argument and is otherwise kept as it is; an empty or absent one is kept as well. */
  lemma {:induction false} ScanAppendsWeight(extra: seq<string>, compilable: bool, st: ScanState, rule: DropRule)
    requires forall k :: 0 <= k < |extra| ==> !Drops(rule, extra[k], compilable)
    ensures Truthy(st.signature) ==>
      ScanArgs(extra, compilable, st, rule).signature ==
        Specs(st.signature.specs + WeightSpecs(Count(extra, "weight")))
    ensures !Truthy(st.signature) ==> ScanArgs(extra, compilable, st, rule).signature == st.signature
  {
    if extra != [] {
      var init := extra[..|extra| - 1];
      var last := extra[|extra| - 1];
      ScanAppendsWeight(init, compilable, st, rule);
      assert extra == init + [last];
      assert Count(extra, "weight") == Count(init, "weight") + (if last == "weight" then 1 else 0);
      if Truthy(st.signature) && last == "weight" {
        var n := Count(init, "weight");
        assert WeightSpecs(n + 1) == WeightSpecs(n) + [WeightSpec];
        assert st.signature.specs + WeightSpecs(n) + [WeightSpec]
            == st.signature.specs + WeightSpecs(n + 1);
      }
    }
  }

  /** The two tests differ only on an argument other than `weight` that is a substring
      of "weight" (`w`, `eig`, `weigh`, ...): without such arguments the loop as written
      and the intended loop agree; and they disagree on dropping the signature exactly
      when, while compiling a signature not yet dropped, some extra argument differs from
      `weight` but every extra argument is a substring of it. */
  lemma {:induction false} ScanRulesAgree(extra: seq<string>, compilable: bool, st: ScanState)
    ensures (forall k :: 0 <= k < |extra| ==> extra[k] == "weight" || !IsSubstring(extra[k], "weight")) ==>
      ScanArgs(extra, compilable, st, AsWritten) == ScanArgs(extra, compilable, st, Intended)
    ensures (ScanArgs(extra, compilable, st, AsWritten).signature == NoSignature)
         != (ScanArgs(extra, compilable, st, Intended).signature == NoSignature)
      <==> && compilable && st.signature != NoSignature
           && (exists k :: 0 <= k < |extra| && extra[k] != "weight")
           && (forall k :: 0 <= k < |extra| ==> IsSubstring(extra[k], "weight"))
  {
    assert IsSubstring("weight", "weight");
    if extra != [] {
      var init := extra[..|extra| - 1];
      ScanRulesAgree(init, compilable, st);
      assert forall k :: 0 <= k < |init| ==> init[k] == extra[k];
    }
    ScanDropsIff(extra, compilable, st, AsWritten);
    ScanDropsIff(extra, compilable, st, Intended);
  }

  /** `n_dim` leaves the argument list (one occurrence of it; nothing else changes), and
      an integrand that arrives compiled is traced again exactly when it had `n_dim`. */
  lemma PlanCompileArgsAndBuild(f: Integrand, compilable: bool, signature: Signature, nDim: nat,
                                passWeight: bool, rule: DropRule)
    ensures multiset(PlanCompile(f, compilable, signature, nDim, passWeight, rule).args)
         == multiset(f.args) - multiset{"n_dim"}
    ensures multiset(f.args)["n_dim"] <= 1 ==> "n_dim" !in PlanCompile(f, compilable, signature, nDim, passWeight, rule).args
    ensures PlanCompile(f, compilable, signature, nDim, passWeight, rule).build.Retrace? <==>
      compilable && (f.compiledWith.None? || "n_dim" in f.args)
    ensures PlanCompile(f, compilable, signature, nDim, passWeight, rule).eventTraced == compilable
  {
    if "n_dim" in f.args {
      RemoveFirstCounts(f.args, "n_dim");
    } else {
      assert multiset(f.args)["n_dim"] == 0;
      assert multiset(f.args) - multiset{"n_dim"} == multiset(f.args);
    }
  }

  /** Weight passing after `compile`: on if it was on, or if `weight` is one of the
      arguments after the first once `n_dim` is gone. */
  lemma PlanCompileWeight(f: Integrand, compilable: bool, signature: Signature, nDim: nat,
                          passWeight: bool, rule: DropRule)
    ensures var plan := PlanCompile(f, compilable, signature, nDim, passWeight, rule);
      plan.passWeight <==> passWeight || "weight" in Extra(plan.args)
  {
    var plan := PlanCompile(f, compilable, signature, nDim, passWeight, rule);
    var hasNDim := "n_dim" in f.args;
    var sig0 :=
      if f.compiledWith.Some? then (if hasNDim then Autodiscover else f.compiledWith.value)
      else signature;
    var sig1 := if sig0 == Autodiscover then Specs([PointsSpec(nDim)]) else sig0;
    ScanPassWeight(Extra(plan.args), compilable, ScanState(sig1, passWeight), rule);
  }

  /** A plain integrand compiled with autodiscovery is traced again. Its signature is
      dropped when an extra argument passes the rule's test; otherwise it is the points
      spec followed by one weight spec per `weight` argument. As written, the test passes
      for any argument that is not a substring of "weight"; as intended, for any argument
      other than `weight`. */
  lemma PlanCompileAutodiscovered(f: Integrand, signature: Signature, nDim: nat, passWeight: bool,
                                  rule: DropRule)
    requires f.compiledWith.None? && signature == Autodiscover
    ensures var plan := PlanCompile(f, true, signature, nDim, passWeight, rule);
      && plan.build.Retrace?
      && ((exists k :: 0 <= k < |Extra(plan.args)| && Drops(rule, Extra(plan.args)[k], true))
           ==> plan.build.inputSignature == None)
      && ((forall k :: 0 <= k < |Extra(plan.args)| ==> !Drops(rule, Extra(plan.args)[k], true))
           ==> plan.build.inputSignature ==
                 Some([PointsSpec(nDim)] + WeightSpecs(Count(Extra(plan.args), "weight"))))
  {
    var plan := PlanCompile(f, true, signature, nDim, passWeight, rule);
    var extra := Extra(plan.args);
    var st0 := ScanState(Specs([PointsSpec(nDim)]), passWeight);
    var st := ScanArgs(extra, true, st0, rule);
    ScanDropsIff(extra, true, st0, rule);
    if exists k :: 0 <= k < |extra| && Drops(rule, extra[k], true) {
      assert !Truthy(st.signature);
    } else {
      ScanAppendsWeight(extra, true, st0, rule);
    }
  }

  /** The argument "eig" is a substring of "weight": as written, line 463 keeps the
      autodiscovered signature for an integrand `f(xarr, eig)`, so it is traced with the
      points spec alone, where any argument other than `weight` is meant to drop it. */
  lemma SubstringArgumentKeepsSignature()
    ensures !DropsSignatureAsWritten("eig", true)
    ensures PlanCompile(Integrand(["xarr", "eig"], None), true, Autodiscover, 2, false, AsWritten).build
         == Retrace(Some([PointsSpec(2)]))
    ensures PlanCompile(Integrand(["xarr", "eig"], None), true, Autodiscover, 2, false, Intended).build
         == Retrace(None)
  {
    assert "weight"[1..][..3] == "eig";
    assert IsSubstring("eig", "weight"[1..]);
    assert Extra(["xarr", "eig"]) == ["eig"];
    assert ["eig"][..0] == [];
  }
}
