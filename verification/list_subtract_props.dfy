/**
 * Properties of the greedy list subtraction: subtracting a list from itself,
 * independence from everything but the pairwise equality outcomes, the exact
 * outcome under plain equality (counting copies), and the recovery property:
 * appending the unmatched elements to `ys` leaves nothing unmatched.
 */
module SubtractionProps {
  import opened Wrappers
  import opened Subtraction

  /** A list subtracted from itself leaves nothing, whenever each element equals itself. */
  lemma {:induction false} RunSelf<T>(xs: seq<T>, eq: (T, T) -> bool, n: nat)
    requires n <= |xs|
    requires forall i :: 0 <= i < |xs| ==> eq(xs[i], xs[i])
    ensures forall j: nat :: j in Run(xs, xs, eq, n).consumed <==> j < n
    ensures Run(xs, xs, eq, n).missing == []
  {
    if n > 0 {
      RunSelf(xs, eq, n - 1);
      var g := Run(xs, xs, eq, n - 1);
      var f := FirstFree(xs[n - 1], xs, g.consumed, eq, 0);
      assert n - 1 !in g.consumed && eq(xs[n - 1], xs[n - 1]);
      assert f == Some(n - 1);
      assert Run(xs, xs, eq, n) == Greedy(g.consumed + {n - 1}, g.slot + [Some(n - 1)], g.missing);
    }
  }

  lemma SubtractSelf<T>(xs: seq<T>, eq: (T, T) -> bool)
    requires forall i :: 0 <= i < |xs| ==> eq(xs[i], xs[i])
    ensures ListSubtract(xs, xs, eq) == []
  {
    RunSelf(xs, eq, |xs|);
  }

  lemma {:induction false} FirstFreeTransfer<T, U>(
    x: T, ys: seq<T>, eq: (T, T) -> bool, x': U, ys': seq<U>, eq': (U, U) -> bool,
    consumed: set<nat>, from: nat)
    requires from <= |ys| == |ys'|
    requires forall j :: 0 <= j < |ys| ==> eq(x, ys[j]) == eq'(x', ys'[j])
    ensures FirstFree(x, ys, consumed, eq, from) == FirstFree(x', ys', consumed, eq', from)
    decreases |ys| - from
  {
    if from < |ys| {
      FirstFreeTransfer(x, ys, eq, x', ys', eq', consumed, from + 1);
    }
  }

  lemma {:induction false} RunTransfer<T, U>(
    xs: seq<T>, ys: seq<T>, eq: (T, T) -> bool, xs': seq<U>, ys': seq<U>, eq': (U, U) -> bool, n: nat)
    requires n <= |xs| == |xs'|
    requires |ys| == |ys'|
    requires forall i, j :: 0 <= i < |xs| && 0 <= j < |ys| ==> eq(xs[i], ys[j]) == eq'(xs'[i], ys'[j])
    ensures Run(xs, ys, eq, n) == Run(xs', ys', eq', n)
  {
    if n > 0 {
      RunTransfer(xs, ys, eq, xs', ys', eq', n - 1);
      var g := Run(xs, ys, eq, n - 1);
      FirstFreeTransfer(xs[n - 1], ys, eq, xs'[n - 1], ys', eq', g.consumed, 0);
    }
  }

  /**
   * The outcome depends only on which pairs `(xs[i], ys[j])` are equal: two
   * subtractions that agree on every pair agree on the result.
   */
  lemma SubtractTransfer<T, U>(
    xs: seq<T>, ys: seq<T>, eq: (T, T) -> bool, xs': seq<U>, ys': seq<U>, eq': (U, U) -> bool)
    requires |xs| == |xs'| && |ys| == |ys'|
    requires forall i, j :: 0 <= i < |xs| && 0 <= j < |ys| ==> eq(xs[i], ys[j]) == eq'(xs'[i], ys'[j])
    ensures ListSubtract(xs, ys, eq) == ListSubtract(xs', ys', eq')
  {
    RunTransfer(xs, ys, eq, xs', ys', eq', |xs|);
  }

  /** How many copies of `ys[j]` come before position `j`. */
  function Occ<T(==)>(ys: seq<T>, j: nat): nat
    requires j < |ys|
  {
    multiset(ys[..j])[ys[j]]
  }

  /**
   * Under plain equality, element `i` of `xs` is left unmatched exactly when
   * `ys` holds no more copies of it than the earlier elements of `xs` already
   * took.
   */
  predicate Unmatched<T(==)>(xs: seq<T>, ys: seq<T>, i: nat)
    requires i < |xs|
  {
    multiset(ys)[xs[i]] <= multiset(xs[..i])[xs[i]]
  }

  lemma PrefixCount<T>(s: seq<T>, a: nat, b: nat, v: T)
    requires a <= b <= |s|
    ensures multiset(s[..a])[v] <= multiset(s[..b])[v]
  {
    assert s[..b] == s[..a] + s[a..b];
  }

  lemma OccStrict<T>(ys: seq<T>, j1: nat, j2: nat)
    requires j1 < j2 < |ys| && ys[j1] == ys[j2]
    ensures Occ(ys, j1) < Occ(ys, j2)
  {
    assert ys[..j1 + 1] == ys[..j1] + [ys[j1]];
    PrefixCount(ys, j1 + 1, j2, ys[j1]);
  }

  /** Below the number of copies of `v` in a prefix, every count is the `Occ` of some copy. */
  lemma {:induction false} OccReach<T>(ys: seq<T>, v: T, b: nat, k: nat)
    requires b <= |ys| && k < multiset(ys[..b])[v]
    ensures exists j :: 0 <= j < b && ys[j] == v && Occ(ys, j) == k
  {
    assert ys[..b] == ys[..b - 1] + [ys[b - 1]];
    if ys[b - 1] == v && k == multiset(ys[..b - 1])[v] {
      assert Occ(ys, b - 1) == k;
    } else {
      OccReach(ys, v, b - 1, k);
    }
  }

  /** When every copy of `v` before `b` is numbered below `c`, there are at most `c` of them. */
  lemma {:induction false} OccAtMost<T>(ys: seq<T>, v: T, b: nat, c: nat)
    requires b <= |ys|
    requires forall j :: 0 <= j < b && ys[j] == v ==> Occ(ys, j) < c
    ensures multiset(ys[..b])[v] <= c
  {
    if b > 0 {
      OccAtMost(ys, v, b - 1, c);
      assert ys[..b] == ys[..b - 1] + [ys[b - 1]];
    }
  }

  /**
   * Under plain equality, the consumed slots after `n` elements are exactly
   * the copies in `ys` numbered below the count of their value in `xs[..n]`.
   */
  ghost predicate ConsumedSame<T>(xs: seq<T>, ys: seq<T>, n: nat, consumed: set<nat>)
    requires n <= |xs|
  {
    forall j: nat :: j in consumed <==> j < |ys| && Occ(ys, j) < multiset(xs[..n])[ys[j]]
  }

  /** The free equal slot a step finds is the copy numbered by how many the earlier elements took. */
  lemma FoundNextCopy<T>(xs: seq<T>, ys: seq<T>, n: nat, consumed: set<nat>, j: nat)
    requires n < |xs| && ConsumedSame(xs, ys, n, consumed)
    requires FirstFree(xs[n], ys, consumed, Same, 0) == Some(j)
    ensures j < |ys| && ys[j] == xs[n] && j !in consumed
    ensures Occ(ys, j) == multiset(xs[..n])[xs[n]]
  {
    var x := xs[n];
    var c := multiset(xs[..n]);
    assert ys[j] == x;
    forall j' | 0 <= j' < j && ys[j'] == x ensures Occ(ys, j') < c[x] {
      assert j' in consumed;
    }
    OccAtMost(ys, x, j, c[x]);
  }

  /** Consuming the next copy of `xs[n]` keeps the consumed slots in step with `xs[..n + 1]`. */
  lemma ConsumedNextCopy<T>(xs: seq<T>, ys: seq<T>, n: nat, consumed: set<nat>, j: nat)
    requires n < |xs| && ConsumedSame(xs, ys, n, consumed)
    requires j < |ys| && ys[j] == xs[n] && Occ(ys, j) == multiset(xs[..n])[xs[n]]
    ensures ConsumedSame(xs, ys, n + 1, consumed + {j})
  {
    var x := xs[n];
    CountTake(xs, n + 1);
    forall j'': nat ensures j'' in consumed + {j} <==> j'' < |ys| && Occ(ys, j'') < multiset(xs[..n + 1])[ys[j'']] {
      if j'' < |ys| && ys[j''] == x && j'' != j {
        if j'' < j { OccStrict(ys, j'', j); } else { OccStrict(ys, j, j''); }
      }
    }
  }

  /** A copy numbered `c` means `ys` holds more than `c` copies. */
  lemma OccBelowCount<T>(ys: seq<T>, j: nat)
    requires j < |ys|
    ensures Occ(ys, j) < multiset(ys)[ys[j]]
  {
    assert ys[..j + 1] == ys[..j] + [ys[j]];
    PrefixCount(ys, j + 1, |ys|, ys[j]);
    assert ys[..|ys|] == ys;
  }

  /** The step that finds a free equal slot: it is the next copy in order. */
  lemma StepSameFound<T>(xs: seq<T>, ys: seq<T>, n: nat, consumed: set<nat>, j: nat)
    requires n < |xs| && ConsumedSame(xs, ys, n, consumed)
    requires FirstFree(xs[n], ys, consumed, Same, 0) == Some(j)
    ensures !Unmatched(xs, ys, n)
    ensures ConsumedSame(xs, ys, n + 1, consumed + {j})
  {
    FoundNextCopy(xs, ys, n, consumed, j);
    ConsumedNextCopy(xs, ys, n, consumed, j);
    OccBelowCount(ys, j);
  }

  /** With no free equal slot, every copy of `xs[n]` in `ys` is taken: `ys` has no copy left. */
  lemma NoneAllTaken<T>(xs: seq<T>, ys: seq<T>, n: nat, consumed: set<nat>)
    requires n < |xs| && ConsumedSame(xs, ys, n, consumed)
    requires FirstFree(xs[n], ys, consumed, Same, 0).None?
    ensures Unmatched(xs, ys, n)
  {
    var x := xs[n];
    var c := multiset(xs[..n]);
    forall j' | 0 <= j' < |ys| && ys[j'] == x ensures Occ(ys, j') < c[x] {
      assert j' in consumed;
    }
    OccAtMost(ys, x, |ys|, c[x]);
    assert ys[..|ys|] == ys;
  }

  /** An unmatched element consumes nothing and keeps the consumed slots in step with `xs[..n + 1]`. */
  lemma ConsumedNoCopy<T>(xs: seq<T>, ys: seq<T>, n: nat, consumed: set<nat>)
    requires n < |xs| && ConsumedSame(xs, ys, n, consumed)
    requires Unmatched(xs, ys, n)
    ensures ConsumedSame(xs, ys, n + 1, consumed)
  {
    var x := xs[n];
    CountTake(xs, n + 1);
    forall j'': nat | j'' < |ys| && ys[j''] == x ensures Occ(ys, j'') < multiset(xs[..n])[x] {
      OccBelowCount(ys, j'');
    }
  }

  /** One step of the greedy pass under plain equality. */
  lemma StepSame<T>(xs: seq<T>, ys: seq<T>, n: nat, consumed: set<nat>)
    requires n < |xs| && ConsumedSame(xs, ys, n, consumed)
    ensures var f := FirstFree(xs[n], ys, consumed, Same, 0);
      && (Unmatched(xs, ys, n) <==> f.None?)
      && ConsumedSame(xs, ys, n + 1, consumed + (if f.Some? then {f.value} else {}))
  {
    var f := FirstFree(xs[n], ys, consumed, Same, 0);
    if f.Some? {
      StepSameFound(xs, ys, n, consumed, f.value);
    } else {
      NoneAllTaken(xs, ys, n, consumed);
      ConsumedNoCopy(xs, ys, n, consumed);
      assert consumed + {} == consumed;
    }
  }

  /** The greedy pass under plain equality: which slots it has consumed. */
  lemma {:induction false} RunSameConsumed<T>(xs: seq<T>, ys: seq<T>, n: nat)
    requires n <= |xs|
    ensures ConsumedSame(xs, ys, n, Run(xs, ys, Same, n).consumed)
  {
    if n > 0 {
      var k := n - 1;
      RunSameConsumed(xs, ys, k);
      StepSame(xs, ys, k, Run(xs, ys, Same, k).consumed);
      RunStep(xs, ys, Same, n);
    }
  }

  /** Under plain equality, step `n - 1` leaves its element unmatched exactly when `Unmatched` says so. */
  lemma StepUnmatched<T>(xs: seq<T>, ys: seq<T>, n: nat)
    requires 0 < n <= |xs|
    ensures Run(xs, ys, Same, n).missing ==
      Run(xs, ys, Same, n - 1).missing + (if Unmatched(xs, ys, n - 1) then [n - 1] else [])
  {
    RunSameConsumed(xs, ys, n - 1);
    StepSame(xs, ys, n - 1, Run(xs, ys, Same, n - 1).consumed);
    RunStep(xs, ys, Same, n);
  }

  /** The greedy pass under plain equality: which elements it has left unmatched. */
  lemma {:induction false} RunSame<T>(xs: seq<T>, ys: seq<T>, n: nat)
    requires n <= |xs|
    ensures forall i :: 0 <= i < n ==> (i in Run(xs, ys, Same, n).missing <==> Unmatched(xs, ys, i))
  {
    if n > 0 {
      RunSame(xs, ys, n - 1);
      StepUnmatched(xs, ys, n);
      assert n - 1 !in Run(xs, ys, Same, n - 1).missing;
    }
  }

  /** The exact outcome of `list_subtract` under `operator.eq`. */
  lemma SubtractSame<T>(xs: seq<T>, ys: seq<T>)
    ensures forall i :: 0 <= i < |xs| ==> (i in ListSubtract(xs, ys, Same) <==> Unmatched(xs, ys, i))
  {
    RunSame(xs, ys, |xs|);
  }

  /** Nothing is left over exactly when `ys` holds at least as many copies of each value as `xs`. */
  lemma SubtractSameEmpty<T>(xs: seq<T>, ys: seq<T>)
    ensures ListSubtract(xs, ys, Same) == [] <==> multiset(xs) <= multiset(ys)
  {
    SubtractSame(xs, ys);
    var r := ListSubtract(xs, ys, Same);
    assert xs[..|xs|] == xs;
    if r != [] {
      var i := r[0];
      assert Unmatched(xs, ys, i);
      assert xs[..i + 1] == xs[..i] + [xs[i]];
      PrefixCount(xs, i + 1, |xs|, xs[i]);
      assert multiset(xs)[xs[i]] > multiset(ys)[xs[i]];
    }
    if !(multiset(xs) <= multiset(ys)) {
      var v :| multiset(xs)[v] > multiset(ys)[v];
      OccReach(xs, v, |xs|, multiset(ys)[v]);
      var i :| 0 <= i < |xs| && xs[i] == v && Occ(xs, i) == multiset(ys)[v];
      assert i in r;
    }
  }

  /** A permutation leaves nothing over (`list_subtract(xs, shuffle(xs)) == []`). */
  lemma SubtractPermutation<T>(xs: seq<T>, ys: seq<T>)
    requires multiset(xs) == multiset(ys)
    ensures ListSubtract(xs, ys, Same) == []
  {
    SubtractSameEmpty(xs, ys);
  }

  /** The elements of `xs[..n]` that plain equality leaves unmatched, as a multiset. */
  ghost function LeftOver<T>(xs: seq<T>, ys: seq<T>, n: nat): multiset<T>
    requires n <= |xs|
  {
    if n == 0 then multiset{}
    else LeftOver(xs, ys, n - 1) + (if Unmatched(xs, ys, n - 1) then multiset{xs[n - 1]} else multiset{})
  }

  /** Appending an index, or not, to the picked indices. */
  lemma PickStep<T>(xs: seq<T>, m0: seq<nat>, m1: seq<nat>, add: bool, i: nat)
    requires forall k :: 0 <= k < |m0| ==> m0[k] < |xs|
    requires i < |xs|
    requires m1 == m0 + (if add then [i] else [])
    ensures forall k :: 0 <= k < |m1| ==> m1[k] < |xs|
    ensures multiset(Pick(xs, m1)) == multiset(Pick(xs, m0)) + (if add then multiset{xs[i]} else multiset{})
  {
    if add {
      PickAppend(xs, m0, i);
    } else {
      assert m1 == m0;
    }
  }

  /** One step of `LeftOver`, for any list of indices that grows the way the greedy pass's does. */
  lemma LeftOverStep<T>(xs: seq<T>, ys: seq<T>, n: nat, m0: seq<nat>, m1: seq<nat>)
    requires 0 < n <= |xs|
    requires forall k :: 0 <= k < |m0| ==> m0[k] < |xs|
    requires multiset(Pick(xs, m0)) == LeftOver(xs, ys, n - 1)
    requires m1 == m0 + (if Unmatched(xs, ys, n - 1) then [n - 1] else [])
    ensures forall k :: 0 <= k < |m1| ==> m1[k] < |xs|
    ensures multiset(Pick(xs, m1)) == LeftOver(xs, ys, n)
  {
    PickStep(xs, m0, m1, Unmatched(xs, ys, n - 1), n - 1);
  }

  /** The greedy pass collects exactly those elements. */
  lemma {:induction false} PickedLeftOver<T>(xs: seq<T>, ys: seq<T>, n: nat)
    requires n <= |xs|
    ensures multiset(Pick(xs, Run(xs, ys, Same, n).missing)) == LeftOver(xs, ys, n)
  {
    if n > 0 {
      PickedLeftOver(xs, ys, n - 1);
      StepUnmatched(xs, ys, n);
      LeftOverStep(xs, ys, n, Run(xs, ys, Same, n - 1).missing, Run(xs, ys, Same, n).missing);
    }
  }

  /** The copies of each value left over after `n` elements: the surplus of `xs[..n]` over `ys`. */
  lemma {:induction false} LeftOverSurplus<T>(xs: seq<T>, ys: seq<T>, n: nat, v: T)
    requires n <= |xs|
    ensures LeftOver(xs, ys, n)[v] == Surplus(multiset(xs[..n])[v], multiset(ys)[v])
  {
    if n > 0 {
      LeftOverSurplus(xs, ys, n - 1, v);
      CountTakeAt(xs, n, v);
      SurplusStep(LeftOver(xs, ys, n - 1)[v], LeftOver(xs, ys, n)[v],
                  multiset(xs[..n - 1])[v], multiset(xs[..n])[v], multiset(ys)[v],
                  Unmatched(xs, ys, n - 1), xs[n - 1] == v);
    }
  }

  /** The arithmetic of one step: a surplus grows by one exactly when a copy beyond those in `ys` arrives. */
  lemma SurplusStep(p0: nat, p1: nat, c0: nat, c1: nat, m: nat, unmatched: bool, hit: bool)
    requires p0 == Surplus(c0, m)
    requires p1 == p0 + (if unmatched && hit then 1 else 0)
    requires c1 == c0 + (if hit then 1 else 0)
    requires hit ==> (unmatched <==> m <= c0)
    ensures p1 == Surplus(c1, m)
  {
  }

  lemma CountTakeAt<T>(s: seq<T>, n: nat, v: T)
    requires 0 < n <= |s|
    ensures multiset(s[..n])[v] == multiset(s[..n - 1])[v] + (if s[n - 1] == v then 1 else 0)
  {
    CountTake(s, n);
  }

  lemma CountTake<T>(s: seq<T>, n: nat)
    requires 0 < n <= |s|
    ensures multiset(s[..n]) == multiset(s[..n - 1]) + multiset{s[n - 1]}
  {
    assert s[..n] == s[..n - 1] + [s[n - 1]];
  }

  /** How many copies `c` exceed `m` by. */
  function Surplus(c: nat, m: nat): nat {
    if c > m then c - m else 0
  }

  lemma PickAppend<T>(xs: seq<T>, idx: seq<nat>, i: nat)
    requires forall k :: 0 <= k < |idx| ==> idx[k] < |xs|
    requires i < |xs|
    ensures multiset(Pick(xs, idx + [i])) == multiset(Pick(xs, idx)) + multiset{xs[i]}
  {
    var idx' := idx + [i];
    assert idx'[..|idx'| - 1] == idx;
  }


  /**
   * Recovery: appending the unmatched elements of `xs` to `ys` leaves nothing
   * unmatched.
   */
  lemma SubtractRecover<T>(xs: seq<T>, ys: seq<T>)
    ensures ListSubtract(xs, ys + Pick(xs, ListSubtract(xs, ys, Same)), Same) == []
  {
    var zs := ys + Pick(xs, ListSubtract(xs, ys, Same));
    assert xs[..|xs|] == xs;
    PickedLeftOver(xs, ys, |xs|);
    forall v ensures multiset(xs)[v] <= multiset(zs)[v] {
      LeftOverSurplus(xs, ys, |xs|, v);
    }
    SubtractSameEmpty(xs, zs);
  }

  /** The number of unmatched indices below `n`. */
  function UnmatchedCount<T(==)>(xs: seq<T>, ys: seq<T>, n: nat): nat
    requires n <= |xs|
  {
    if n == 0 then 0 else UnmatchedCount(xs, ys, n - 1) + (if Unmatched(xs, ys, n - 1) then 1 else 0)
  }

  lemma {:induction false} RunSameLength<T>(xs: seq<T>, ys: seq<T>, n: nat)
    requires n <= |xs|
    ensures |Run(xs, ys, Same, n).missing| == UnmatchedCount(xs, ys, n)
  {
    if n > 0 {
      RunSameLength(xs, ys, n - 1);
      StepUnmatched(xs, ys, n);
    }
  }

  /**
   * Padding: extending a shared `base` with `pad` on one side and with any
   * other values on the other leaves exactly the padding unmatched (the
   * indices after the base, one per padding value), when no padding value
   * occurs on the other side.
   */
  lemma SubtractPadded<T>(base: seq<T>, pad: seq<T>, ext: seq<T>)
    requires forall k :: 0 <= k < |pad| ==> pad[k] !in base + ext
    ensures |ListSubtract(base + pad, base + ext, Same)| == |pad|
    ensures forall i :: i in ListSubtract(base + pad, base + ext, Same) <==> |base| <= i < |base| + |pad|
  {
    var xs, ys := base + pad, base + ext;
    var r := ListSubtract(xs, ys, Same);
    assert |r| == |pad| by {
      RunSameLength(xs, ys, |xs|);
      PaddedCount(base, pad, ext, |xs|);
    }
    SubtractSame(xs, ys);
    forall i | 0 <= i < |xs| ensures i in r <==> |base| <= i {
      if i < |base| {
        BaseMatched(base, pad, ext, i);
      } else {
        PadUnmatched(base, pad, ext, i);
      }
    }
  }

  lemma {:induction false} PaddedCount<T>(base: seq<T>, pad: seq<T>, ext: seq<T>, n: nat)
    requires forall k :: 0 <= k < |pad| ==> pad[k] !in base + ext
    requires n <= |base + pad|
    ensures UnmatchedCount(base + pad, base + ext, n) == if n <= |base| then 0 else n - |base|
  {
    if n > 0 {
      PaddedCount(base, pad, ext, n - 1);
      if n - 1 < |base| {
        BaseMatched(base, pad, ext, n - 1);
      } else {
        PadUnmatched(base, pad, ext, n - 1);
      }
    }
  }

  /** An element of the shared base finds a copy on the other side. */
  lemma BaseMatched<T>(base: seq<T>, pad: seq<T>, ext: seq<T>, i: nat)
    requires i < |base|
    ensures !Unmatched(base + pad, base + ext, i)
  {
    var xs, ys := base + pad, base + ext;
    assert xs[..i + 1] == base[..i + 1];
    assert base == base[..i + 1] + base[i + 1..];
    assert xs[..i + 1] == xs[..i] + [xs[i]];
    assert multiset(xs[..i])[xs[i]] < multiset(base)[xs[i]];
    assert multiset(ys) == multiset(base) + multiset(ext);
  }

  /** A padding element finds no copy on the other side. */
  lemma PadUnmatched<T>(base: seq<T>, pad: seq<T>, ext: seq<T>, i: nat)
    requires forall k :: 0 <= k < |pad| ==> pad[k] !in base + ext
    requires |base| <= i < |base + pad|
    ensures Unmatched(base + pad, base + ext, i)
  {
    var xs := base + pad;
    assert xs[i] == pad[i - |base|];
    assert multiset(base + ext)[xs[i]] == 0;
  }
}
