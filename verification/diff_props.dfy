/**
 * Properties of the comparison engine: reflexivity, the multiset reading of
 * list comparison, the one-directional reading of mapping comparison, the
 * scalar rules, and the built-in toleration table.
 */
module DiffProps {
  import opened Wrappers
  import opened Values
  import opened DiffEngine
  import Strings
  import Glob
  import Subtraction
  import SubtractionProps

  // ---------------------------------------------------------------- reflexivity

  /** A well-formed tree never differs from itself, whatever the toleration table. */
  lemma {:induction false} DiffReflexive(tols: seq<Toleration>, path: string, v: Value)
    requires WellFormed(v)
    ensures Diff(tols, path, v, v) == []
    decreases v, 1
  {
    var w := Normalize(v);
    if Tolerated(tols, path, w, w) {
    } else if w.Map? {
      forall k | 0 <= k < |w.entries|
        ensures Lookup(w.entries, w.entries[k].key) == Some(w.entries[k].val)
      {
        LookupDistinct(w.entries, k);
      }
      DictsReflexive(tols, path, w.entries, w.entries);
    } else if w.List? {
      ListsReflexive(tols, path, w.items);
    }
  }

  /** Comparing wanted entries against a mapping that holds each of them finds nothing. */
  lemma {:induction false} DictsReflexive(tols: seq<Toleration>, path: string, want: seq<Entry>, have: seq<Entry>)
    requires forall k :: 0 <= k < |want| ==> WellFormed(want[k].val)
    requires forall k :: 0 <= k < |want| ==> Lookup(have, want[k].key) == Some(want[k].val)
    ensures DiffDicts(tols, path, want, have) == []
    decreases want, 0
  {
    if |want| > 0 {
      DiffReflexive(tols, path + "." + want[0].key, want[0].val);
      DictsReflexive(tols, path, want[1..], have);
    }
  }

  /** `diff_lists(path, xs, xs)` is empty: the reflexivity property of the list tests. */
  lemma {:induction false} ListsReflexive(tols: seq<Toleration>, path: string, items: seq<Value>)
    requires forall k :: 0 <= k < |items| ==> WellFormed(items[k])
    ensures DiffLists(tols, path, items, items) == []
    decreases items, 0
  {
    var eq := ElementEq(tols, items);
    forall i | 0 <= i < |items| ensures eq(items[i], items[i]) {
      DiffReflexive(tols, "", items[i]);
      assert items[i] in items;
      assert eq(items[i], items[i]) == Equivalent(tols, items[i], items[i]);
    }
    SubtractionProps.SubtractSelf(items, eq);
  }

  // ---------------------------------------------------------------- lists as multisets

  /** The values the list tests draw from: no containers. */
  predicate Flat(v: Value) {
    v.Null? || v.Bool? || v.Int? || v.Str?
  }

  /** No toleration applies at the empty path, where `diff_lists` compares elements. */
  predicate QuietAtRoot(tols: seq<Toleration>) {
    forall k :: 0 <= k < |tols| ==> !Glob.Match(tols[k].pattern, "")
  }

  function Apply<U>(f: Value -> U, xs: seq<Value>): seq<U> {
    seq(|xs|, k requires 0 <= k < |xs| => f(xs[k]))
  }

  lemma ApplyAppend<U>(f: Value -> U, a: seq<Value>, b: seq<Value>)
    ensures Apply(f, a + b) == Apply(f, a) + Apply(f, b)
  {
  }

  /** Mapping a function over two permutations of one list gives two permutations. */
  lemma {:induction false} ApplyPermutation<U>(f: Value -> U, xs: seq<Value>, ys: seq<Value>)
    requires multiset(xs) == multiset(ys)
    ensures multiset(Apply(f, xs)) == multiset(Apply(f, ys))
    decreases |xs|
  {
    if |xs| == 0 {
      assert |ys| == |multiset(ys)| == 0;
    } else {
      var x := xs[0];
      assert x in multiset(ys);
      var j :| 0 <= j < |ys| && ys[j] == x;
      var ys' := ys[..j] + ys[j + 1..];
      assert ys == ys[..j] + [x] + ys[j + 1..];
      assert xs == [x] + xs[1..];
      assert multiset(xs) == multiset{x} + multiset(xs[1..]);
      assert multiset(ys) == multiset(ys[..j]) + multiset{x} + multiset(ys[j + 1..]);
      assert multiset(ys') == multiset(ys[..j]) + multiset(ys[j + 1..]);
      assert multiset(xs[1..]) == multiset(xs) - multiset{x};
      assert multiset(ys') == multiset(ys) - multiset{x};
      ApplyPermutation(f, xs[1..], ys');
      ApplyAppend(f, [x], xs[1..]);
      ApplyAppend(f, ys[..j] + [x], ys[j + 1..]);
      ApplyAppend(f, ys[..j], [x]);
      ApplyAppend(f, ys[..j], ys[j + 1..]);
    }
  }

  lemma SubMultisetEqual<U>(a: seq<U>, b: seq<U>)
    requires |a| == |b| && multiset(a) <= multiset(b)
    ensures multiset(a) == multiset(b)
  {
    var c := multiset(b) - multiset(a);
    assert multiset(b) == multiset(a) + c;
    assert |c| == 0;
  }

  /**
   * When element equality is equality of some key, `diff_lists` finds nothing
   * exactly when the two lists' keys are the same multiset.
   */
  lemma KeyedLists<U>(tols: seq<Toleration>, path: string, want: seq<Value>, have: seq<Value>, key: Value -> U)
    requires forall i, j :: 0 <= i < |want| && 0 <= j < |have| ==>
      (Equivalent(tols, want[i], have[j]) <==> key(want[i]) == key(have[j]))
    ensures DiffLists(tols, path, want, have) == [] <==> multiset(Apply(key, want)) == multiset(Apply(key, have))
  {
    var eq := ElementEq(tols, want);
    var kw, kh := Apply(key, want), Apply(key, have);
    forall i, j | 0 <= i < |want| && 0 <= j < |have|
      ensures eq(want[i], have[j]) == Subtraction.Same(kw[i], kh[j])
    {
      assert want[i] in want;
    }
    SubtractionProps.SubtractTransfer(want, have, eq, kw, kh, Subtraction.Same);
    SubtractionProps.SubtractSameEmpty(kw, kh);
    if |want| == |have| && multiset(kw) <= multiset(kh) {
      SubMultisetEqual(kw, kh);
    }
    if multiset(kw) == multiset(kh) {
      assert |kw| == |multiset(kw)| == |multiset(kh)| == |kh|;
    }
  }

  /** Two flat values are equal elements exactly when they normalize to the same value. */
  lemma FlatEquivalent(tols: seq<Toleration>, x: Value, y: Value)
    requires QuietAtRoot(tols) && Flat(x) && Flat(y)
    ensures Equivalent(tols, x, y) <==> Normalize(x) == Normalize(y)
  {
    assert !Tolerated(tols, "", Normalize(x), Normalize(y));
  }

  /**
   * Lists of flat values differ in nothing exactly when their normalized
   * elements form the same multiset: order is irrelevant, multiplicity is not.
   */
  lemma FlatLists(tols: seq<Toleration>, path: string, want: seq<Value>, have: seq<Value>)
    requires QuietAtRoot(tols)
    requires forall k :: 0 <= k < |want| ==> Flat(want[k])
    requires forall k :: 0 <= k < |have| ==> Flat(have[k])
    ensures DiffLists(tols, path, want, have) == [] <==>
      multiset(Apply(Normalize, want)) == multiset(Apply(Normalize, have))
  {
    forall i, j | 0 <= i < |want| && 0 <= j < |have|
      ensures Equivalent(tols, want[i], have[j]) <==> Normalize(want[i]) == Normalize(have[j])
    {
      FlatEquivalent(tols, want[i], have[j]);
    }
    KeyedLists(tols, path, want, have, Normalize);
  }

  /** A shuffled list of flat values does not differ from the original. */
  lemma ShuffledFlatList(tols: seq<Toleration>, path: string, want: seq<Value>, have: seq<Value>)
    requires QuietAtRoot(tols)
    requires forall k :: 0 <= k < |want| ==> Flat(want[k])
    requires multiset(want) == multiset(have)
    ensures DiffLists(tols, path, want, have) == []
  {
    forall k | 0 <= k < |have| ensures Flat(have[k]) {
      assert have[k] in multiset(want);
    }
    ApplyPermutation(Normalize, want, have);
    FlatLists(tols, path, want, have);
  }

  /** A list whose elements are all flat. */
  predicate FlatList(v: Value) {
    v.List? && forall k :: 0 <= k < |v.items| ==> Flat(v.items[k])
  }

  /** What a flat list is compared by: the multiset of its normalized elements. */
  function ListKey(v: Value): multiset<Value> {
    if v.List? then multiset(Apply(Normalize, v.items)) else multiset{}
  }

  /**
   * Two flat lists are equal elements exactly when their normalized contents
   * are the same multiset; an empty list (normalized to null) equals only an
   * empty list.
   */
  lemma NestedEquivalent(tols: seq<Toleration>, x: Value, y: Value)
    requires QuietAtRoot(tols) && FlatList(x) && FlatList(y)
    ensures Equivalent(tols, x, y) <==> ListKey(x) == ListKey(y)
  {
    assert !Tolerated(tols, "", Normalize(x), Normalize(y));
    if |x.items| > 0 && |y.items| > 0 {
      FlatLists(tols, "", x.items, y.items);
    } else if |x.items| > 0 || |y.items| > 0 {
      assert |ListKey(x)| == |x.items| && |ListKey(y)| == |y.items|;
    }
  }

  /** A shuffled list of flat lists does not differ from the original. */
  lemma ShuffledNestedList(tols: seq<Toleration>, path: string, want: seq<Value>, have: seq<Value>)
    requires QuietAtRoot(tols)
    requires forall k :: 0 <= k < |want| ==> FlatList(want[k])
    requires multiset(want) == multiset(have)
    ensures DiffLists(tols, path, want, have) == []
  {
    forall k | 0 <= k < |have| ensures FlatList(have[k]) {
      assert have[k] in multiset(want);
    }
    forall i, j | 0 <= i < |want| && 0 <= j < |have|
      ensures Equivalent(tols, want[i], have[j]) <==> ListKey(want[i]) == ListKey(have[j])
    {
      NestedEquivalent(tols, want[i], have[j]);
    }
    ApplyPermutation(ListKey, want, have);
    KeyedLists(tols, path, want, have, ListKey);
  }

  function Nulls(n: nat): seq<Value> {
    seq(n, _ => Null)
  }

  /** On flat lists the element equality of `diff_lists` is equality after normalization. */
  lemma FlatSubtract(tols: seq<Toleration>, want: seq<Value>, have: seq<Value>)
    requires QuietAtRoot(tols)
    requires forall k :: 0 <= k < |want| ==> Flat(want[k])
    requires forall k :: 0 <= k < |have| ==> Flat(have[k])
    ensures Subtraction.ListSubtract(want, have, ElementEq(tols, want)) ==
      Subtraction.ListSubtract(Apply(Normalize, want), Apply(Normalize, have), Subtraction.Same)
  {
    var nw, nh := Apply(Normalize, want), Apply(Normalize, have);
    var eq := ElementEq(tols, want);
    forall i, j | 0 <= i < |want| && 0 <= j < |have|
      ensures eq(want[i], have[j]) == Subtraction.Same(nw[i], nh[j])
    {
      assert want[i] in want;
      FlatEquivalent(tols, want[i], have[j]);
    }
    SubtractionProps.SubtractTransfer(want, have, eq, nw, nh, Subtraction.Same);
  }

  lemma NormalizeNulls(n: nat)
    ensures Apply(Normalize, Nulls(n)) == Nulls(n)
  {
    forall k | 0 <= k < n ensures Apply(Normalize, Nulls(n))[k] == Nulls(n)[k] {
      assert Nulls(n)[k] == Null;
      assert Normalize(Null) == Null;
    }
  }

  lemma NormalizeNonNull(xs: seq<Value>)
    requires forall k :: 0 <= k < |xs| ==> Flat(xs[k]) && !xs[k].Null?
    ensures Null !in Apply(Normalize, xs)
  {
    var nx := Apply(Normalize, xs);
    forall m | 0 <= m < |nx| ensures nx[m] != Null {
      assert nx[m] == Normalize(xs[m]);
    }
  }

  /**
   * Replacing the tail of a list by as many nulls yields one missing-element
   * record per replaced element and no length record.
   */
  lemma AddedItemsReported(tols: seq<Toleration>, path: string, base: seq<Value>, ext: seq<Value>)
    requires QuietAtRoot(tols)
    requires forall k :: 0 <= k < |base| ==> Flat(base[k]) && !base[k].Null?
    requires forall k :: 0 <= k < |ext| ==> Flat(ext[k]) && !ext[k].Null?
    ensures |DiffLists(tols, path, base + Nulls(|ext|), base + ext)| == |ext|
  {
    var want, have := base + Nulls(|ext|), base + ext;
    FlatSubtract(tols, want, have);
    ApplyAppend(Normalize, base, Nulls(|ext|));
    ApplyAppend(Normalize, base, ext);
    NormalizeNulls(|ext|);
    NormalizeNonNull(base + ext);
    ApplyAppend(Normalize, base, ext);
    SubtractionProps.SubtractPadded(Apply(Normalize, base), Nulls(|ext|), Apply(Normalize, ext));
  }

  // ---------------------------------------------------------------- mappings

  /**
   * In a wanted mapping with unique keys, a key is reported missing exactly
   * once when the live mapping lacks it, and never otherwise.
   */
  lemma {:induction false} DictMissingKey(tols: seq<Toleration>, path: string, want: seq<Entry>, have: seq<Entry>, key: string)
    requires DistinctKeys(want)
    ensures multiset(DiffDicts(tols, path, want, have))[MissingKey(path, key)] ==
      if key in Keys(want) && key !in Keys(have) then 1 else 0
    decreases |want|
  {
    if |want| > 0 {
      var e := want[0];
      var rest := DiffDicts(tols, path, want[1..], have);
      DistinctTail(want);
      DictMissingKey(tols, path, want[1..], have, key);
      assert Keys(want) == [e.key] + Keys(want[1..]);
      var here := match Lookup(have, e.key)
        case None => [MissingKey(path, e.key)]
        case Some(hv) => Diff(tols, path + "." + e.key, e.val, hv);
      assert DiffDicts(tols, path, want, have) == here + rest;
      if Lookup(have, e.key).Some? {
        ChildNotMissing(tols, path, e.key, e.val, Lookup(have, e.key).value, key);
      }
    }
  }

  /** The tail of a mapping with unique keys has unique keys and lacks the head's key. */
  lemma DistinctTail(es: seq<Entry>)
    requires |es| > 0 && DistinctKeys(es)
    ensures DistinctKeys(es[1..])
    ensures es[0].key !in Keys(es[1..])
  {
    forall i, j | 0 <= i < j < |es[1..]| ensures es[1..][i].key != es[1..][j].key {
      assert es[1..][i] == es[i + 1] && es[1..][j] == es[j + 1];
    }
    forall k | 0 <= k < |es[1..]| ensures Keys(es[1..])[k] != es[0].key {
      assert es[1..][k] == es[k + 1];
    }
  }

  /** Records found below `path.k` are never missing-key records at `path`. */
  lemma ChildNotMissing(tols: seq<Toleration>, path: string, k: string, want: Value, have: Value, key: string)
    ensures multiset(Diff(tols, path + "." + k, want, have))[MissingKey(path, key)] == 0
  {
    var c := Diff(tols, path + "." + k, want, have);
    forall m | 0 <= m < |c| ensures c[m] != MissingKey(path, key) {
      assert |c[m].path| >= |path + "." + k|;
    }
  }

  /** Keys only the live mapping has change nothing: the comparison is one-directional. */
  lemma {:induction false} DictsIgnoreLiveOnly(tols: seq<Toleration>, path: string, want: seq<Entry>, have: seq<Entry>, extra: seq<Entry>)
    requires forall k :: 0 <= k < |extra| ==> extra[k].key !in Keys(want)
    ensures DiffDicts(tols, path, want, have + extra) == DiffDicts(tols, path, want, have)
    decreases |want|
  {
    if |want| > 0 {
      assert Keys(want) == [want[0].key] + Keys(want[1..]);
      LookupAppend(have, extra, want[0].key);
      assert want[0].key !in Keys(extra);
      DictsIgnoreLiveOnly(tols, path, want[1..], have, extra);
    }
  }

  /**
   * Mappings compare equal exactly when every wanted key is present in the
   * live mapping and its value compares equal at `path.key`.
   */
  lemma {:induction false} DictsEmpty(tols: seq<Toleration>, path: string, want: seq<Entry>, have: seq<Entry>)
    ensures DiffDicts(tols, path, want, have) == [] <==>
      forall k :: 0 <= k < |want| ==> (Lookup(have, want[k].key).Some? &&
        Diff(tols, path + "." + want[k].key, want[k].val, Lookup(have, want[k].key).value) == [])
    decreases |want|
  {
    if |want| > 0 {
      DictsEmpty(tols, path, want[1..], have);
      assert forall k :: 1 <= k < |want| ==> want[k] == want[1..][k - 1];
    }
  }

  // ---------------------------------------------------------------- scalars

  /**
   * Two values without containers produce at most one record: none when they
   * normalize to the same value, a multi-line record when both are strings and
   * the wanted one spans lines, an inequality record otherwise.
   */
  lemma ScalarDiff(tols: seq<Toleration>, path: string, want: Value, have: Value)
    requires Flat(want) && Flat(have)
    requires !Tolerated(tols, path, Normalize(want), Normalize(have))
    ensures var r := Diff(tols, path, want, have);
      var w, h := Normalize(want), Normalize(have);
      |r| <= 1 && (r == [] <==> w == h) &&
      (r != [] ==> ((r[0].NotEqual? || r[0].MultiLine?) && r[0].path == path &&
        (r[0].MultiLine? <==> w.Str? && h.Str? && '\n' in w.s)))
  {
  }

  /**
   * Any other pair, such as a mapping against a string or a mapping against a
   * list, is compared whole: nothing when the normalized values are equal,
   * otherwise exactly one inequality record at the path. A container never
   * equals a value of another shape, so a shape mismatch is always reported.
   */
  lemma MismatchedShapes(tols: seq<Toleration>, path: string, want: Value, have: Value)
    requires var w, h := Normalize(want), Normalize(have);
      !(w.Map? && h.Map?) && !(w.List? && h.List?) && !(w.Str? && h.Str?)
    requires !Tolerated(tols, path, Normalize(want), Normalize(have))
    ensures var r, w, h := Diff(tols, path, want, have), Normalize(want), Normalize(have);
      (r == [] <==> w == h) && (r != [] ==> r == [NotEqual(path, w, h)])
    ensures var w, h := Normalize(want), Normalize(have);
      w.Map? != h.Map? || w.List? != h.List? ==> Diff(tols, path, want, have) == [NotEqual(path, w, h)]
  {
  }

  /**
   * Integers are compared by their decimal form: two integers differ exactly
   * when they are different numbers, and an integer never differs from its
   * own decimal string.
   */
  lemma IntDiff(tols: seq<Toleration>, path: string, a: int, b: int)
    requires !Tolerated(tols, path, Str(Strings.IntToString(a)), Str(Strings.IntToString(b)))
    ensures Diff(tols, path, Int(a), Int(b)) == [] <==> a == b
    ensures Diff(tols, path, Int(a), Str(Strings.IntToString(a))) == []
  {
    Strings.IntToStringInjective(a, b);
  }

  /** A non-empty container against an empty one or null is one inequality against null. */
  lemma EmptiedContainer(tols: seq<Toleration>, path: string, want: Value, have: Value)
    requires (want.Map? && want.entries != []) || (want.List? && want.items != [])
    requires have == Null || have == Map([]) || have == List([])
    requires !Tolerated(tols, path, want, Null)
    ensures Diff(tols, path, want, have) == [NotEqual(path, want, Null)]
  {
  }

  // ---------------------------------------------------------------- tolerations

  /**
   * The built-in table suppresses exactly the paths ending in a requests or
   * limits cpu field, and there only when the cpu check passes.
   */
  lemma BuiltinTolerated(cpusEqual: (Value, Value) -> bool, path: string, want: Value, have: Value)
    ensures Tolerated(BuiltinTolerations(cpusEqual), path, want, have) <==>
      (Strings.EndsWith(path, RequestsCpuField) || Strings.EndsWith(path, LimitsCpuField)) && cpusEqual(want, have)
  {
    TwoTolerations(Toleration(RequestsCpu, cpusEqual), Toleration(LimitsCpu, cpusEqual), path, want, have);
    assert Glob.Match(RequestsCpu, path) <==> Strings.EndsWith(path, RequestsCpuField) by {
      CpuFieldsLiteral();
      Glob.StarSuffixMatch(RequestsCpuField, path);
    }
    assert Glob.Match(LimitsCpu, path) <==> Strings.EndsWith(path, LimitsCpuField) by {
      CpuFieldsLiteral();
      Glob.StarSuffixMatch(LimitsCpuField, path);
    }
  }

  /** A table of two tolerations applies when either applies. */
  lemma TwoTolerations(a: Toleration, b: Toleration, path: string, want: Value, have: Value)
    ensures Tolerated([a, b], path, want, have) <==>
      (Glob.Match(a.pattern, path) && a.check(want, have)) || (Glob.Match(b.pattern, path) && b.check(want, have))
  {
    assert [a, b][1..] == [b];
    assert [b][1..] == [];
  }

  lemma CpuFieldsLiteral()
    ensures Glob.Literal(RequestsCpuField) && Glob.Literal(LimitsCpuField)
  {
    Glob.LiteralWithoutWildcards(RequestsCpuField);
    Glob.LiteralWithoutWildcards(LimitsCpuField);
  }

  /** The built-in table never applies at the empty path. */
  lemma BuiltinQuietAtRoot(cpusEqual: (Value, Value) -> bool)
    ensures QuietAtRoot(BuiltinTolerations(cpusEqual))
  {
    CpuFieldsLiteral();
    Glob.StarSuffixMatch(RequestsCpuField, "");
    Glob.StarSuffixMatch(LimitsCpuField, "");
  }

  /**
   * `{"a": {"x": 1}}` against `{"a": {}}`: the emptied mapping normalizes to
   * null, so the result is one inequality at `.a`, not a missing `x`.
   */
  lemma EmptiedNestedMapping(cpusEqual: (Value, Value) -> bool)
    ensures Diff(BuiltinTolerations(cpusEqual), "",
                 Map([Entry("a", Map([Entry("x", Int(1))]))]),
                 Map([Entry("a", Map([]))]))
         == [NotEqual(".a", Map([Entry("x", Int(1))]), Null)]
  {
    var tols := BuiltinTolerations(cpusEqual);
    var inner := Map([Entry("x", Int(1))]);
    var want := Map([Entry("a", inner)]);
    var have := Map([Entry("a", Map([]))]);
    BuiltinTolerated(cpusEqual, "", want, have);
    BuiltinTolerated(cpusEqual, ".a", inner, Null);
    assert "" + "." + "a" == ".a";
    assert Diff(tols, ".a", inner, Map([])) == [NotEqual(".a", inner, Null)];
    assert DiffDicts(tols, "", want.entries, have.entries) == Diff(tols, ".a", inner, Map([])) + DiffDicts(tols, "", [], have.entries);
  }

  // ---------------------------------------------------------------- message texts

  /** A decimal rendering holds no space. */
  lemma NoSpaceInDigits(n: nat)
    ensures ' ' !in Strings.NatToString(n)
  {
    var d := Strings.NatToString(n);
    assert forall k :: 0 <= k < |d| ==> d[k] != ' ';
  }

  /**
   * The length message reads back: after "Unequal lengths: " come the
   * wanted length in decimal, " != " and the live length in decimal.
   */
  lemma LengthMessageReadback(path: string, w: nat, h: nat, unifiedDiff: (string, string, string) -> string)
    ensures var m := Message(LengthMismatch(path, w, h), unifiedDiff);
      && |m| > 17 && m[..17] == "Unequal lengths: "
      && var rest := m[17..];
      && Strings.IndexOf(rest, ' ').Some?
      && var k := Strings.IndexOf(rest, ' ').value;
      && k + 4 < |rest| && rest[k..k + 4] == " != "
      && (forall j :: 0 <= j < k ==> Strings.IsDigit(rest[j])) && Strings.ParseDigits(rest[..k]) == w
      && (forall j :: k + 4 <= j < |rest| ==> Strings.IsDigit(rest[j])) && Strings.ParseDigits(rest[k + 4..]) == h
  {
    var ws, hs := Strings.NatToString(w), Strings.NatToString(h);
    var m := Message(LengthMismatch(path, w, h), unifiedDiff);
    var rest := ws + " != " + hs;
    assert m == "Unequal lengths: " + rest;
    assert m[17..] == rest;
    NoSpaceInDigits(w);
    SpacedPair(ws, hs);
    Strings.NatToStringRoundTrip(w);
    Strings.NatToStringRoundTrip(h);
  }

  /** In `a != b` with a space-free `a`, the first space ends `a`. */
  lemma SpacedPair(a: string, b: string)
    requires ' ' !in a
    ensures var s := a + " != " + b;
      Strings.IndexOf(s, ' ') == Some(|a|) && s[..|a|] == a && s[|a|..|a| + 4] == " != " && s[|a| + 4..] == b
  {
    var s := a + " != " + b;
    assert s == a + [' '] + ("!= " + b);
    Strings.IndexOfAfter(a, ' ', "!= " + b);
  }

  /**
   * The missing-element message reads back: between "'element [" and
   * "]' missing" stands the index in decimal.
   */
  lemma ElementMessageReadback(path: string, i: nat, unifiedDiff: (string, string, string) -> string)
    ensures var m := Message(MissingElement(path, i), unifiedDiff);
      && |m| > 20 && m[..10] == "'element [" && m[|m| - 10..] == "]' missing"
      && (forall k :: 10 <= k < |m| - 10 ==> Strings.IsDigit(m[k]))
      && Strings.ParseDigits(m[10..|m| - 10]) == i
  {
    var ds := Strings.NatToString(i);
    var m := Message(MissingElement(path, i), unifiedDiff);
    assert m == "'element [" + ds + "]' missing";
    assert m[10..|m| - 10] == ds;
    Strings.NatToStringRoundTrip(i);
  }

  // ---------------------------------------------------------------- more scalars

  /**
   * Booleans are compared by their Python names: a boolean never differs
   * from its name as a string, and two booleans differ exactly when they are
   * different.
   */
  lemma BoolDiff(tols: seq<Toleration>, path: string, a: bool, b: bool)
    requires !Tolerated(tols, path, Str(if a then "True" else "False"), Str(if b then "True" else "False"))
    ensures Diff(tols, path, Bool(a), Str(if a then "True" else "False")) == []
    ensures Diff(tols, path, Bool(a), Bool(b)) == [] <==> a == b
  {
    assert "True" != "False";
  }

  /** The element equality of `diff_lists` holds between a well-formed value and itself. */
  lemma EquivalentReflexive(tols: seq<Toleration>, v: Value)
    requires WellFormed(v)
    ensures Equivalent(tols, v, v)
  {
    DiffReflexive(tols, "", v);
  }
}
