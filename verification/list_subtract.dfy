/**
 * Greedy, order-insensitive list subtraction (`list_subtract`): every
 * element of `xs`, in order, consumes the first not-yet-consumed element of
 * `ys` it is equal to; the indices of the elements of `xs` that find none are
 * the result.
 */
module Subtraction {
  import opened Wrappers

  /**
   * The state of the greedy pass after a prefix of `xs`: the consumed slots
   * of `ys`, the slot each element consumed (if any), and the unmatched
   * indices so far.
   */
  datatype Greedy = Greedy(consumed: set<nat>, slot: seq<Option<nat>>, missing: seq<nat>)

  predicate Increasing(s: seq<nat>) {
    forall a, b :: 0 <= a < b < |s| ==> s[a] < s[b]
  }

  /** Some element of `slot` before position `i` consumed slot `j`. */
  predicate TakenBefore(slot: seq<Option<nat>>, i: nat, j: nat)
    requires i <= |slot|
  {
    exists i' :: 0 <= i' < i && slot[i'] == Some(j)
  }

  /** The first slot at or after `from` that is free and equal to `x`. */
  function FirstFree<T>(x: T, ys: seq<T>, consumed: set<nat>, eq: (T, T) -> bool, from: nat): (r: Option<nat>)
    requires from <= |ys|
    ensures r.Some? ==> from <= r.value < |ys| && r.value !in consumed && eq(x, ys[r.value])
    ensures r.Some? ==> forall j :: from <= j < r.value ==> j in consumed || !eq(x, ys[j])
    ensures r.None? ==> forall j :: from <= j < |ys| ==> j in consumed || !eq(x, ys[j])
    decreases |ys| - from
  {
    if from == |ys| then None
    else if from !in consumed && eq(x, ys[from]) then Some(from)
    else FirstFree(x, ys, consumed, eq, from + 1)
  }

  /** The greedy pass over the first `n` elements of `xs`. */
  function Run<T>(xs: seq<T>, ys: seq<T>, eq: (T, T) -> bool, n: nat): (g: Greedy)
    requires n <= |xs|
    ensures |g.slot| == n
    ensures Increasing(g.missing)
    ensures forall k :: 0 <= k < |g.missing| ==> g.missing[k] < n
  {
    if n == 0 then Greedy({}, [], [])
    else
      var g := Run(xs, ys, eq, n - 1);
      match FirstFree(xs[n - 1], ys, g.consumed, eq, 0)
      case None => Greedy(g.consumed, g.slot + [None], g.missing + [n - 1])
      case Some(j) => Greedy(g.consumed + {j}, g.slot + [Some(j)], g.missing)
  }

  /** One step of the pass: element `n - 1` consumes the first free equal slot, or is missing. */
  lemma RunStep<T>(xs: seq<T>, ys: seq<T>, eq: (T, T) -> bool, n: nat)
    requires 0 < n <= |xs|
    ensures var g := Run(xs, ys, eq, n - 1);
      var f := FirstFree(xs[n - 1], ys, g.consumed, eq, 0);
      && Run(xs, ys, eq, n).missing == g.missing + (if f.None? then [n - 1] else [])
      && Run(xs, ys, eq, n).consumed == g.consumed + (if f.Some? then {f.value} else {})
  {
  }

  /** The consumed slots are exactly the ones recorded in `slot`. */
  lemma {:induction false} RunConsumed<T>(xs: seq<T>, ys: seq<T>, eq: (T, T) -> bool, n: nat)
    requires n <= |xs|
    ensures forall j: nat :: j in Run(xs, ys, eq, n).consumed <==> TakenBefore(Run(xs, ys, eq, n).slot, n, j)
  {
    if n > 0 {
      RunConsumed(xs, ys, eq, n - 1);
      var g := Run(xs, ys, eq, n - 1);
      var f := FirstFree(xs[n - 1], ys, g.consumed, eq, 0);
      TakenBeforeExtend(g.slot, f);
    }
  }

  /** An element is missing exactly when it consumed no slot. */
  lemma {:induction false} RunMissing<T>(xs: seq<T>, ys: seq<T>, eq: (T, T) -> bool, n: nat)
    requires n <= |xs|
    ensures forall i :: 0 <= i < n ==> (Run(xs, ys, eq, n).slot[i].None? <==> i in Run(xs, ys, eq, n).missing)
  {
    if n > 0 {
      RunMissing(xs, ys, eq, n - 1);
    }
  }

  /** A consumed slot holds an element equal to the one that consumed it. */
  lemma {:induction false} RunSlotsEqual<T>(xs: seq<T>, ys: seq<T>, eq: (T, T) -> bool, n: nat)
    requires n <= |xs|
    ensures var s := Run(xs, ys, eq, n).slot;
      forall i :: 0 <= i < n && s[i].Some? ==> s[i].value < |ys| && eq(xs[i], ys[s[i].value])
  {
    if n > 0 {
      RunSlotsEqual(xs, ys, eq, n - 1);
    }
  }

  /** No slot of `ys` is consumed twice. */
  predicate SlotsDistinct(s: seq<Option<nat>>) {
    forall i, i' :: 0 <= i < i' < |s| && s[i].Some? && s[i'].Some? ==> s[i].value != s[i'].value
  }

  lemma {:induction false} RunSlotsDistinct<T>(xs: seq<T>, ys: seq<T>, eq: (T, T) -> bool, n: nat)
    requires n <= |xs|
    ensures SlotsDistinct(Run(xs, ys, eq, n).slot)
  {
    if n > 0 {
      RunSlotsDistinct(xs, ys, eq, n - 1);
      RunConsumed(xs, ys, eq, n - 1);
      var g := Run(xs, ys, eq, n - 1);
      var f := FirstFree(xs[n - 1], ys, g.consumed, eq, 0);
      var s := Run(xs, ys, eq, n).slot;
      assert s == g.slot + [f];
      forall i, i' | 0 <= i < i' < n && s[i].Some? && s[i'].Some? ensures s[i].value != s[i'].value {
        assert s[i] == g.slot[i];
        if i' == n - 1 {
          assert s[i'] == f && f.value !in g.consumed;
          assert g.slot[i] == Some(s[i].value);
          assert TakenBefore(g.slot, n - 1, s[i].value);
          assert !TakenBefore(g.slot, n - 1, f.value);
        } else {
          assert s[i'] == g.slot[i'];
          assert g.slot[i].value != g.slot[i'].value;
        }
      }
    }
  }

  /**
   * Greediness: every slot equal to an element that the element passed over
   * (every equal slot, when it found none) was consumed by an earlier element.
   */
  predicate PassedOverTaken<T>(xs: seq<T>, ys: seq<T>, eq: (T, T) -> bool, s: seq<Option<nat>>)
    requires |s| <= |xs|
  {
    forall i, j :: 0 <= i < |s| && 0 <= j < |ys| && eq(xs[i], ys[j]) && (s[i].None? || j < s[i].value)
      ==> TakenBefore(s, i, j)
  }

  lemma {:induction false} RunGreedyFirst<T>(xs: seq<T>, ys: seq<T>, eq: (T, T) -> bool, n: nat)
    requires n <= |xs|
    ensures PassedOverTaken(xs, ys, eq, Run(xs, ys, eq, n).slot)
  {
    if n > 0 {
      RunGreedyFirst(xs, ys, eq, n - 1);
      RunConsumed(xs, ys, eq, n - 1);
      var g := Run(xs, ys, eq, n - 1);
      var f := FirstFree(xs[n - 1], ys, g.consumed, eq, 0);
      assert Run(xs, ys, eq, n).slot == g.slot + [f];
      GreedyStep(xs, ys, eq, g.slot, g.consumed, f);
    }
  }

  /** One step keeps greediness: the new element took the first free equal slot, if any. */
  lemma GreedyStep<T>(xs: seq<T>, ys: seq<T>, eq: (T, T) -> bool, slot: seq<Option<nat>>, consumed: set<nat>, f: Option<nat>)
    requires |slot| < |xs|
    requires PassedOverTaken(xs, ys, eq, slot)
    requires forall j: nat :: j in consumed <==> TakenBefore(slot, |slot|, j)
    requires f == FirstFree(xs[|slot|], ys, consumed, eq, 0)
    ensures PassedOverTaken(xs, ys, eq, slot + [f])
  {
    var s := slot + [f];
    TakenBeforeExtend(slot, f);
    forall i, j | 0 <= i < |s| && 0 <= j < |ys| && eq(xs[i], ys[j]) && (s[i].None? || j < s[i].value)
      ensures TakenBefore(s, i, j)
    {
      if i < |slot| {
        assert s[i] == slot[i];
      } else {
        assert j in consumed;
      }
    }
  }

  lemma TakenBeforeExtend(slot: seq<Option<nat>>, o: Option<nat>)
    ensures forall j: nat :: TakenBefore(slot + [o], |slot| + 1, j) <==> TakenBefore(slot, |slot|, j) || o == Some(j)
    ensures forall i: nat, j: nat :: i <= |slot| ==> (TakenBefore(slot + [o], i, j) <==> TakenBefore(slot, i, j))
  {
    var s' := slot + [o];
    forall j: nat ensures TakenBefore(s', |slot| + 1, j) <==> TakenBefore(slot, |slot|, j) || o == Some(j) {
      if TakenBefore(s', |slot| + 1, j) {
        var i' :| 0 <= i' < |slot| + 1 && s'[i'] == Some(j);
        if i' < |slot| { assert slot[i'] == Some(j); }
      }
      if o == Some(j) { assert s'[|slot|] == Some(j); }
      if TakenBefore(slot, |slot|, j) {
        var i' :| 0 <= i' < |slot| && slot[i'] == Some(j);
        assert s'[i'] == Some(j);
      }
    }
    forall i: nat, j: nat | i <= |slot| ensures TakenBefore(s', i, j) <==> TakenBefore(slot, i, j) {
      if TakenBefore(s', i, j) {
        var i' :| 0 <= i' < i && s'[i'] == Some(j);
        assert slot[i'] == Some(j);
      }
      if TakenBefore(slot, i, j) {
        var i' :| 0 <= i' < i && slot[i'] == Some(j);
        assert s'[i'] == Some(j);
      }
    }
  }

  /** `list_subtract(xs, ys, equality)`: the indices of `xs` left unmatched. */
  function ListSubtract<T>(xs: seq<T>, ys: seq<T>, eq: (T, T) -> bool): (r: seq<nat>)
    ensures Increasing(r)
    ensures forall k :: 0 <= k < |r| ==> r[k] < |xs|
  {
    Run(xs, ys, eq, |xs|).missing
  }

  /** `operator.eq`, the default equality of `list_subtract`. */
  function Same<T(==)>(a: T, b: T): bool {
    a == b
  }

  /** The elements of `xs` at the indices `idx`, in order (`[xs[i] for i in idx]`). */
  function Pick<T>(xs: seq<T>, idx: seq<nat>): (r: seq<T>)
    requires forall k :: 0 <= k < |idx| ==> idx[k] < |xs|
    ensures |r| == |idx|
    ensures forall k :: 0 <= k < |idx| ==> r[k] == xs[idx[k]]
  {
    if |idx| == 0 then [] else Pick(xs, idx[..|idx| - 1]) + [xs[idx[|idx| - 1]]]
  }
}
