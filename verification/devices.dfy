/** The device-availability table: device names in the order they were registered
    (the order in which a Python dict yields its keys) and an availability flag per
    name. The mutating operations live on the integrator class; this module holds the
    functions that specify them. */
module Devices {
  import opened Wrappers
  import opened Sequences

  predicate Distinct(order: seq<string>)
  {
    forall i, j :: 0 <= i < j < |order| ==> order[i] != order[j]
  }

  /** Every registered name appears once in the order and has exactly one flag. */
  predicate TableValid(order: seq<string>, available: map<string, bool>)
  {
    Distinct(order) && available.Keys == set d | d in order
  }

  /** The position of the first idle device at or after `from`, in registration order. */
  function FirstIdle(order: seq<string>, available: map<string, bool>, from: nat): (r: Option<nat>)
    requires forall k :: 0 <= k < |order| ==> order[k] in available
    requires from <= |order|
    ensures r.None? <==> forall k :: from <= k < |order| ==> !available[order[k]]
    ensures r.Some? ==> from <= r.value < |order| && available[order[r.value]]
    ensures r.Some? ==> forall k :: from <= k < r.value ==> !available[order[k]]
    decreases |order| - from
  {
    if from == |order| then None
    else if available[order[from]] then Some(from)
    else FirstIdle(order, available, from + 1)
  }

  /** The keys of a dict filled from `names`, in insertion order: a name seen again
      keeps its first place. */
  function Dedup(names: seq<string>): (r: seq<string>)
    ensures Distinct(r)
    ensures forall d :: d in r <==> d in names
    ensures |r| <= |names|
    ensures forall i, j :: 0 <= i < j < |r| ==> FirstIndex(names, r[i]) < FirstIndex(names, r[j])
  {
    if names == [] then []
    else
      var init := names[..|names| - 1];
      var d := Dedup(init);
      var last := names[|names| - 1];
      assert forall x :: x in names <==> x in init || x == last by {
        assert names == init + [last];
      }
      FirstIndexOfPrefix(names, |names| - 1);
      if last in d then d
      else
        FirstIndexUnique(names, last, |names| - 1);
        d + [last]
  }

  /** A name of a prefix has its first occurrence in that prefix. */
  lemma FirstIndexOfPrefix(names: seq<string>, m: nat)
    requires m <= |names|
    ensures forall x :: x in names[..m] ==> x in names && FirstIndex(names, x) == FirstIndex(names[..m], x)
  {
    forall x | x in names[..m] ensures x in names && FirstIndex(names, x) == FirstIndex(names[..m], x) {
      var i := FirstIndex(names[..m], x);
      assert names[..m][..i] == names[..i];
      FirstIndexUnique(names, x, i);
    }
  }
}
