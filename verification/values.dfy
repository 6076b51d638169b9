/**
 * The decoded-document value model: what a YAML document decodes to.
 * A mapping keeps its entries in iteration order; Python dictionaries have
 * unique keys, which `WellFormed` states.
 */
module Values {
  import opened Wrappers
  import Strings

  datatype Value =
    | Null
    | Bool(b: bool)
    | Int(i: int)
    | Str(s: string)
    | List(items: seq<Value>)
    | Map(entries: seq<Entry>)

  datatype Entry = Entry(key: string, val: Value)

  /** The keys of a mapping, in iteration order. */
  function Keys(es: seq<Entry>): (ks: seq<string>)
    ensures |ks| == |es|
    ensures forall k :: 0 <= k < |es| ==> ks[k] == es[k].key
  {
    if |es| == 0 then [] else [es[0].key] + Keys(es[1..])
  }

  /** `d[k]` on a mapping: the value stored under `k`, or nothing (a `KeyError`). */
  function Lookup(es: seq<Entry>, k: string): (r: Option<Value>)
    ensures r.None? <==> k !in Keys(es)
    ensures r.Some? ==> Entry(k, r.value) in es
  {
    if |es| == 0 then None
    else if es[0].key == k then Some(es[0].val)
    else Lookup(es[1..], k)
  }

  predicate DistinctKeys(es: seq<Entry>) {
    forall i, j :: 0 <= i < j < |es| ==> es[i].key != es[j].key
  }

  /** Every mapping in the tree has unique keys. */
  predicate WellFormed(v: Value) {
    match v
    case List(items) => forall k :: 0 <= k < |items| ==> WellFormed(items[k])
    case Map(es) => DistinctKeys(es) && forall k :: 0 <= k < |es| ==> WellFormed(es[k].val)
    case _ => true
  }

  /** In a mapping with unique keys, the lookup of an entry's key finds that entry's value. */
  lemma LookupDistinct(es: seq<Entry>, k: nat)
    requires DistinctKeys(es)
    requires k < |es|
    ensures Lookup(es, es[k].key) == Some(es[k].val)
  {
    if k > 0 {
      assert es[0].key != es[k].key;
      LookupDistinct(es[1..], k - 1);
    }
  }

  /** Looking a key up in two concatenated entry lists finds the first list's entry when it has one. */
  lemma {:induction false} LookupAppend(es: seq<Entry>, more: seq<Entry>, k: string)
    ensures Lookup(es + more, k) == if k in Keys(es) then Lookup(es, k) else Lookup(more, k)
  {
    if |es| > 0 {
      assert (es + more)[1..] == es[1..] + more;
      assert Keys(es) == [es[0].key] + Keys(es[1..]);
      LookupAppend(es[1..], more, k);
    } else {
      assert es + more == more;
    }
  }

  function JoinWith(parts: seq<string>, sep: string): string {
    if |parts| == 0 then "" else if |parts| == 1 then parts[0] else parts[0] + sep + JoinWith(parts[1..], sep)
  }

  /**
   * Python's `"%s" % v` for a decoded value: strings as they are, `None`,
   * `True`/`False`, decimal integers, and the bracketed display of containers
   * (whose strings are shown quoted).
   */
  function Render(v: Value): string {
    match v
    case Str(s) => s
    case _ => Repr(v)
  }

  /** Python's `repr` of a decoded value, without escape sequences. */
  function Repr(v: Value): string {
    match v
    case Null => "None"
    case Bool(b) => if b then "True" else "False"
    case Int(i) => Strings.IntToString(i)
    case Str(s) => "'" + s + "'"
    case List(items) => "[" + JoinWith(seq(|items|, k requires 0 <= k < |items| => Repr(items[k])), ", ") + "]"
    case Map(es) => "{" + JoinWith(seq(|es|, k requires 0 <= k < |es| => "'" + es[k].key + "': " + Repr(es[k].val)), ", ") + "}"
  }
}
