/**
 * Kubernetes objects as the tool sees them: a decoded document becomes zero
 * or more objects, each identified by namespace, composite kind and name.
 */
module Kube {
  import opened Wrappers
  import opened Values
  import Strings

  /** One Kubernetes object: where it lives, what it is called, and its full document. */
  datatype KubeObject = KubeObject(namespace: Value, kind: string, name: Value, data: Value)

  /**
   * What `from_dict` produced before it finished: the objects it yielded, and
   * whether it then stopped on an uncaught exception (a `TypeError` or
   * `AttributeError` from a value of the wrong shape). A missing key is
   * caught and logged, and stops the generator without raising.
   */
  datatype Parsed = Parsed(objects: seq<KubeObject>, raised: bool)

  const NoObjects: Parsed := Parsed([], false)
  const Raised: Parsed := Parsed([], true)

  /** A kind naming a list of objects: its lower-cased form ends with "list". */
  predicate IsListKind(kind: string) {
    Strings.EndsWith(Strings.Lower(kind), "list")
  }

  function Reverse<T>(xs: seq<T>): (r: seq<T>)
    ensures |r| == |xs|
    ensures forall k :: 0 <= k < |xs| ==> r[k] == xs[|xs| - 1 - k]
  {
    if |xs| == 0 then [] else Reverse(xs[1..]) + [xs[0]]
  }

  /**
   * The kind qualified as kubectl expects it: the api version's parts split
   * at '/', reversed, padded with an empty group when there is only one, and
   * joined with '.' after the kind.
   */
  function CompositeKind(kind: string, apiVersion: string): (r: string)
    ensures kind + "." <= r
  {
    var parts := Reverse(Strings.Split(apiVersion, '/'));
    var padded := if |parts| < 2 then parts + [""] else parts;
    kind + "." + Strings.Join(padded, '.')
  }

  /**
   * The object a single (non-list) document describes, when every key it
   * needs is present and of the right shape.
   */
  predicate DescribedBy(o: KubeObject, namespace: Value) {
    o.data.Map? &&
    var kind := Lookup(o.data.entries, "kind");
    var av := Lookup(o.data.entries, "apiVersion");
    var md := Lookup(o.data.entries, "metadata");
    kind.Some? && kind.value.Str? && !IsListKind(kind.value.s) &&
    av.Some? && av.value.Str? && o.kind == CompositeKind(kind.value.s, av.value.s) &&
    md.Some? && md.value.Map? && Lookup(md.value.entries, "name") == Some(o.name) &&
    o.namespace == Lookup(md.value.entries, "namespace").GetOr(namespace)
  }

  /**
   * `KubeObject.from_dict(data, namespace)`: a list kind is flattened through
   * its items, any other kind becomes one object. Every object yielded is
   * described by its own document, with the given namespace as the fallback.
   */
  function FromDict(data: Value, namespace: Value): (r: Parsed)
    ensures forall k :: 0 <= k < |r.objects| ==> DescribedBy(r.objects[k], namespace)
    ensures !data.Map? ==> r == Raised
    decreases data, 2
  {
    if !data.Map? then Raised
    else match Lookup(data.entries, "kind")
      case None => NoObjects
      case Some(kind) =>
        if !kind.Str? then Raised
        else if IsListKind(kind.s) then
          match Lookup(data.entries, "items")
          case None => NoObjects
          case Some(items) => FromIterable(items, namespace)
        else SingleObject(data, kind.s, namespace)
  }

  /** The non-list branch of `from_dict`: one object, a logged missing key, or a raise. */
  function SingleObject(data: Value, kind: string, namespace: Value): (r: Parsed)
    requires data.Map? && Lookup(data.entries, "kind") == Some(Str(kind)) && !IsListKind(kind)
    ensures |r.objects| <= 1
    ensures |r.objects| == 1 ==> DescribedBy(r.objects[0], namespace) && r.objects[0].data == data && !r.raised
  {
    match Lookup(data.entries, "apiVersion")
    case None => NoObjects
    case Some(av) =>
      if !av.Str? then Raised
      else match Lookup(data.entries, "metadata")
        case None => NoObjects
        case Some(md) =>
          if !md.Map? then Raised
          else match Lookup(md.entries, "name")
            case None => NoObjects
            case Some(name) =>
              var ns := Lookup(md.entries, "namespace").GetOr(namespace);
              Parsed([KubeObject(ns, CompositeKind(kind, av.s), name, data)], false)
  }

  /**
   * `for obj in data["items"]`: a list is walked element by element; iterating
   * a mapping or a string hands keys or characters to `from_dict`, which
   * raises on the first of them; anything else is not iterable.
   */
  function FromIterable(items: Value, namespace: Value): (r: Parsed)
    ensures forall k :: 0 <= k < |r.objects| ==> DescribedBy(r.objects[k], namespace)
    decreases items, 1
  {
    match items
    case List(xs) => FromItems(xs, namespace)
    case Map(es) => if |es| == 0 then NoObjects else Raised
    case Str(s) => if |s| == 0 then NoObjects else Raised
    case _ => Raised
  }

  /** The items of a list kind, in order, stopping at the first one that raises. */
  function FromItems(xs: seq<Value>, namespace: Value): (r: Parsed)
    ensures forall k :: 0 <= k < |r.objects| ==> DescribedBy(r.objects[k], namespace)
    decreases xs, 0
  {
    if |xs| == 0 then NoObjects else Then(FromDict(xs[0], namespace), FromItems(xs[1..], namespace))
  }

  /** Output of one generator followed by another: the second runs only if the first did not raise. */
  function Then(first: Parsed, rest: Parsed): (r: Parsed)
    ensures r.raised <==> first.raised || rest.raised
    ensures first.objects <= r.objects
    ensures first.raised ==> r == first
    ensures !first.raised ==> r.objects == first.objects + rest.objects
  {
    if first.raised then first else Parsed(first.objects + rest.objects, rest.raised)
  }

  /** `namespaced_name`: the namespace and the name, each as `%s` shows it, around a '/'. */
  function NamespacedName(o: KubeObject): (r: string)
    ensures '/' !in Render(o.namespace) ==>
      Strings.IndexOf(r, '/') == Some(|Render(o.namespace)|) &&
      r[..|Render(o.namespace)|] == Render(o.namespace) &&
      r[|Render(o.namespace)| + 1..] == Render(o.name)
  {
    var r := Render(o.namespace) + "/" + Render(o.name);
    assert r[..|Render(o.namespace)|] == Render(o.namespace);
    if '/' !in Render(o.namespace) then
      Strings.IndexOfAfter(Render(o.namespace), '/', Render(o.name));
      r
    else r
  }
}
