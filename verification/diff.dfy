/**
 * The comparison engine: scalar normalization, the toleration table, and the
 * one-directional recursive comparison of a wanted tree against a live tree,
 * producing a finite sequence of difference records.
 */
module DiffEngine {
  import opened Wrappers
  import opened Values
  import Strings
  import Glob
  import Subtraction

  /** One observed difference. Every record the engine makes carries the path it was found at. */
  datatype Difference =
    | LengthMismatch(path: string, wantLen: nat, haveLen: nat)
    | MissingKey(path: string, key: string)
    | MissingElement(path: string, index: nat)
    | NotEqual(path: string, want: Value, have: Value)
    | MultiLine(path: string, wantText: string, haveText: string)
    | RetrievalFailure(output: string)

  /** `d` was found at `path` or below it. */
  predicate Below(path: string, d: Difference) {
    !d.RetrievalFailure? && path <= d.path
  }

  /**
   * The record's message with its arguments substituted. The body of a
   * multi-line record is the unified diff of the two texts, supplied by
   * `unifiedDiff(path, want, have)`.
   */
  function Message(d: Difference, unifiedDiff: (string, string, string) -> string): (r: string)
    ensures d.LengthMismatch? ==> "Unequal lengths: " <= r
    ensures d.MissingKey? || d.MissingElement? ==> "'" <= r && Strings.EndsWith(r, "' missing")
    ensures d.NotEqual? ==> "'" <= r && Strings.EndsWith(r, "'")
    ensures d.MultiLine? ==> "Diff:\n" <= r
    ensures d.MissingKey? ==> |r| == |d.key| + 10 && r[1..|r| - 9] == d.key
    ensures d.NotEqual? ==>
      var w, h := Render(d.want), Render(d.have);
      && |r| == |w| + |h| + 8
      && r[1..1 + |w|] == w
      && r[1 + |w|..|r| - 1 - |h|] == "' != '"
      && r[|r| - 1 - |h|..|r| - 1] == h
  {
    match d
    case LengthMismatch(_, w, h) => "Unequal lengths: " + Strings.NatToString(w) + " != " + Strings.NatToString(h)
    case MissingKey(_, k) => QuotedMissing(k); "'" + k + "' missing"
    case MissingElement(_, i) => "'element [" + Strings.NatToString(i) + "]' missing"
    case NotEqual(_, w, h) => QuotedPair(Render(w), Render(h)); "'" + Render(w) + "' != '" + Render(h) + "'"
    case MultiLine(p, w, h) => "Diff:\n" + unifiedDiff(p, w, h)
    case RetrievalFailure(out) => out
  }

  /** The quoted subject of a missing-key text sits between its opening quote and `' missing`. */
  lemma QuotedMissing(k: string)
    ensures var r := "'" + k + "' missing";
      && |r| == |k| + 10
      && "'" <= r && Strings.EndsWith(r, "' missing")
      && r[1..|r| - 9] == k
  {
    var r := "'" + k + "' missing";
    assert r[..1] == "'";
    assert r[|r| - 9..] == "' missing";
  }

  /** Both quoted renderings of an inequality text sit where their lengths put them. */
  lemma QuotedPair(w: string, h: string)
    ensures var r := "'" + w + "' != '" + h + "'";
      && |r| == |w| + |h| + 8
      && "'" <= r && Strings.EndsWith(r, "'")
      && r[1..1 + |w|] == w
      && r[1 + |w|..|r| - 1 - |h|] == "' != '"
      && r[|r| - 1 - |h|..|r| - 1] == h
  {
    var r := "'" + w + "' != '" + h + "'";
    assert r[..1] == "'";
    assert r[|r| - 1..] == "'";
  }

  /** `Difference.to_text`: the message, prefixed by the path when there is one. */
  function ToText(d: Difference, unifiedDiff: (string, string, string) -> string): (r: string)
    ensures d.RetrievalFailure? ==> r == d.output
    ensures !d.RetrievalFailure? ==> d.path + ": " <= r && r[|d.path| + 2..] == Message(d, unifiedDiff)
    ensures !d.RetrievalFailure? && ':' !in d.path ==> Strings.IndexOf(r, ':') == Some(|d.path|)
  {
    if d.RetrievalFailure? then Message(d, unifiedDiff)
    else
      var msg := Message(d, unifiedDiff);
      PathThenMessage(d.path, msg);
      d.path + ": " + msg
  }

  /** `path: message` starts with the path and ": ", and its first ':' ends a ':'-free path. */
  lemma PathThenMessage(path: string, msg: string)
    ensures var r := path + ": " + msg;
      path + ": " <= r && r[|path| + 2..] == msg && (':' !in path ==> Strings.IndexOf(r, ':') == Some(|path|))
  {
    var r := path + ": " + msg;
    assert r[..|path| + 2] == path + ": ";
    if ':' !in path {
      assert r == path + [':'] + (" " + msg);
      Strings.IndexOfAfter(path, ':', " " + msg);
    }
  }

  /**
   * A toleration: a glob over paths and a check on the normalized wanted and
   * live values. A passing check at a matching path suppresses that path and
   * everything below it.
   */
  datatype Toleration = Toleration(pattern: string, check: (Value, Value) -> bool)

  const RequestsCpuField: string := ".resources.requests.cpu"
  const LimitsCpuField: string := ".resources.limits.cpu"
  const RequestsCpu: string := "*" + RequestsCpuField
  const LimitsCpu: string := "*" + LimitsCpuField

  /** The built-in table: the two cpu paths, both compared by the cpu-quantity check. */
  function BuiltinTolerations(cpusEqual: (Value, Value) -> bool): (r: seq<Toleration>)
    ensures |r| == 2
    ensures forall k :: 0 <= k < |r| ==> r[k].check == cpusEqual
    ensures forall k :: 0 <= k < |r| ==> |r[k].pattern| > 0 && r[k].pattern[0] == '*' && Glob.Literal(r[k].pattern[1..])
  {
    Glob.LiteralWithoutWildcards(RequestsCpuField);
    Glob.LiteralWithoutWildcards(LimitsCpuField);
    assert RequestsCpu[1..] == RequestsCpuField && LimitsCpu[1..] == LimitsCpuField;
    [Toleration(RequestsCpu, cpusEqual), Toleration(LimitsCpu, cpusEqual)]
  }

  /** Some toleration matches `path` and its check passes. */
  function Tolerated(tols: seq<Toleration>, path: string, want: Value, have: Value): (r: bool)
    ensures r <==> exists k :: 0 <= k < |tols| && Glob.Match(tols[k].pattern, path) && tols[k].check(want, have)
  {
    if |tols| == 0 then false
    else (Glob.Match(tols[0].pattern, path) && tols[0].check(want, have)) || Tolerated(tols[1..], path, want, have)
  }

  /** What `normalize` can return: no numbers, no empty containers. */
  predicate NormalForm(v: Value) {
    !v.Int? && !v.Bool? && v != List([]) && v != Map([])
  }

  /**
   * `normalize`: numbers (booleans included, as Python counts them as
   * numbers) become their string form; an empty list or mapping becomes
   * null; everything else is unchanged.
   */
  function Normalize(v: Value): (r: Value)
    ensures NormalForm(r)
    ensures r.List? || r.Map? ==> r == v
    ensures v.Null? || v.Str? ==> r == v
    ensures r.Null? <==> v.Null? || v == List([]) || v == Map([])
    ensures v.Int? ==> r == Str(Strings.IntToString(v.i))
    ensures v.Bool? ==> r == Str(if v.b then "True" else "False")
  {
    match v
    case Bool(b) => Str(if b then "True" else "False")
    case Int(i) => Str(Strings.IntToString(i))
    case List(items) => if |items| == 0 then Null else v
    case Map(es) => if |es| == 0 then Null else v
    case _ => v
  }

  /**
   * `diff(path, want, have)`: normalize both sides, stop at a passing
   * toleration, then compare mappings key by key, lists as multisets, and
   * anything else by equality.
   */
  function Diff(tols: seq<Toleration>, path: string, want: Value, have: Value): (r: seq<Difference>)
    ensures Tolerated(tols, path, Normalize(want), Normalize(have)) ==> r == []
    ensures forall k :: 0 <= k < |r| ==> Below(path, r[k])
    decreases want, 1
  {
    var w := Normalize(want);
    var h := Normalize(have);
    if Tolerated(tols, path, w, h) then []
    else if w.Map? && h.Map? then DiffDicts(tols, path, w.entries, h.entries)
    else if w.List? && h.List? then DiffLists(tols, path, w.items, h.items)
    else if w.Str? && h.Str? then
      if w.s == h.s then []
      else if '\n' in w.s then [MultiLine(path, w.s, h.s)]
      else [NotEqual(path, w, h)]
    else if w == h then []
    else [NotEqual(path, w, h)]
  }

  /**
   * `diff_dicts`: each wanted key, in the wanted mapping's order, is either
   * missing from the live mapping (reported at the parent path) or compared
   * recursively at `path.key`. Live-only keys are never looked at.
   */
  function DiffDicts(tols: seq<Toleration>, path: string, want: seq<Entry>, have: seq<Entry>): (r: seq<Difference>)
    ensures forall k :: 0 <= k < |r| ==> Below(path, r[k])
    decreases want, 0
  {
    if |want| == 0 then []
    else
      var e := want[0];
      var here := match Lookup(have, e.key)
        case None => [MissingKey(path, e.key)]
        case Some(hv) => Diff(tols, path + "." + e.key, e.val, hv);
      here + DiffDicts(tols, path, want[1..], have)
  }

  /** The `eq` of `diff_lists`: two elements are equal when comparing them at the root finds nothing. */
  function Equivalent(tols: seq<Toleration>, x: Value, y: Value): bool
    decreases x, 2
  {
    |Diff(tols, "", x, y)| == 0
  }

  /**
   * The equality `diff_lists` hands to the list subtraction, closed over the
   * wanted list so that each comparison is of a strictly smaller value.
   */
  function ElementEq(tols: seq<Toleration>, want: seq<Value>): (Value, Value) -> bool
    decreases want, 0
  {
    (x: Value, y: Value) => if x in want then Equivalent(tols, x, y) else false
  }

  /** One "element [i] missing" record per index, in order. */
  function MissingElements(path: string, idx: seq<nat>): (r: seq<Difference>)
    ensures |r| == |idx|
    ensures forall k :: 0 <= k < |idx| ==> r[k] == MissingElement(path, idx[k])
  {
    if |idx| == 0 then [] else [MissingElement(path, idx[0])] + MissingElements(path, idx[1..])
  }

  /**
   * `diff_lists`: a length record first when the lengths differ, then one
   * record per wanted element that the greedy subtraction left unmatched.
   */
  function DiffLists(tols: seq<Toleration>, path: string, want: seq<Value>, have: seq<Value>): (r: seq<Difference>)
    ensures (|r| > 0 && r[0] == LengthMismatch(path, |want|, |have|)) <==> |want| != |have|
    ensures forall k :: 0 <= k < |r| ==> (r[k].LengthMismatch? || r[k].MissingElement?) && r[k].path == path
    ensures forall k :: 0 < k < |r| ==> r[k].MissingElement?
    ensures forall k :: 0 <= k < |r| && r[k].MissingElement? ==> r[k].index < |want|
    ensures forall k, k' :: 0 <= k < k' < |r| && r[k].MissingElement? ==> r[k].index < r[k'].index
    ensures forall i: nat :: MissingElement(path, i) in r <==>
      i < |want| && Subtraction.Run(want, have, ElementEq(tols, want), |want|).slot[i].None?
    decreases want, 1
  {
    var eq := ElementEq(tols, want);
    var idx := Subtraction.ListSubtract(want, have, eq);
    Subtraction.RunMissing(want, have, eq, |want|);
    ListRecords(path, |want|, |have|, idx);
    (if |want| != |have| then [LengthMismatch(path, |want|, |have|)] else []) + MissingElements(path, idx)
  }

  /** The records of a list comparison, given the unmatched indices `idx` of a list of `n` against one of `m`. */
  lemma ListRecords(path: string, n: nat, m: nat, idx: seq<nat>)
    requires Subtraction.Increasing(idx)
    requires forall k :: 0 <= k < |idx| ==> idx[k] < n
    ensures var r := (if n != m then [LengthMismatch(path, n, m)] else []) + MissingElements(path, idx);
      && ((|r| > 0 && r[0] == LengthMismatch(path, n, m)) <==> n != m)
      && (forall k :: 0 <= k < |r| ==> (r[k].LengthMismatch? || r[k].MissingElement?) && r[k].path == path)
      && (forall k :: 0 < k < |r| ==> r[k].MissingElement?)
      && (forall k :: 0 <= k < |r| && r[k].MissingElement? ==> r[k].index < n)
      && (forall k, k' :: 0 <= k < k' < |r| && r[k].MissingElement? ==> r[k].index < r[k'].index)
      && (forall i: nat :: MissingElement(path, i) in r <==> i in idx)
  {
    ListShape(path, n, m, idx);
    var lengths := if n != m then [LengthMismatch(path, n, m)] else [];
    MissingIndices(path, lengths, idx);
  }

  /** The shape of a list comparison's records: at most a length record, then missing elements in index order. */
  lemma ListShape(path: string, n: nat, m: nat, idx: seq<nat>)
    requires Subtraction.Increasing(idx)
    requires forall k :: 0 <= k < |idx| ==> idx[k] < n
    ensures var r := (if n != m then [LengthMismatch(path, n, m)] else []) + MissingElements(path, idx);
      && ((|r| > 0 && r[0] == LengthMismatch(path, n, m)) <==> n != m)
      && (forall k :: 0 <= k < |r| ==> (r[k].LengthMismatch? || r[k].MissingElement?) && r[k].path == path)
      && (forall k :: 0 < k < |r| ==> r[k].MissingElement?)
      && (forall k :: 0 <= k < |r| && r[k].MissingElement? ==> r[k].index < n)
      && (forall k, k' :: 0 <= k < k' < |r| && r[k].MissingElement? ==> r[k].index < r[k'].index)
  {
    var es := MissingElements(path, idx);
    if n != m {
      var r := [LengthMismatch(path, n, m)] + es;
      assert forall k :: 0 < k < |r| ==> r[k] == es[k - 1];
    }
  }

  /** A missing-element record for index `i` follows the records without one exactly when `i` is listed. */
  lemma MissingIndices(path: string, lengths: seq<Difference>, idx: seq<nat>)
    requires forall k :: 0 <= k < |lengths| ==> !lengths[k].MissingElement?
    ensures forall i: nat :: MissingElement(path, i) in lengths + MissingElements(path, idx) <==> i in idx
  {
    var r := lengths + MissingElements(path, idx);
    forall i: nat ensures MissingElement(path, i) in r <==> i in idx {
      if i in idx {
        var k :| 0 <= k < |idx| && idx[k] == i;
        assert r[|lengths| + k] == MissingElement(path, i);
      }
      if MissingElement(path, i) in r {
        var k :| 0 <= k < |r| && r[k] == MissingElement(path, i);
        assert MissingElements(path, idx)[k - |lengths|] == MissingElement(path, i);
      }
    }
  }
}
