/** Properties of reading Kubernetes objects out of decoded documents. */
module KubeProps {
  import opened Wrappers
  import opened Values
  import opened Kube
  import Strings

  /** A core-group api version ("v1") leaves an empty group: the kind ends with a dot. */
  lemma CoreGroupKind(kind: string, version: string)
    requires '/' !in version
    ensures CompositeKind(kind, version) == kind + "." + version + "."
  {
    assert Strings.Split(version, '/') == [version];
    assert Strings.Join([version, ""], '.') == version + "." + "";
  }

  /** "group/version" qualifies the kind as kind.version.group. */
  lemma GroupVersionKind(kind: string, group: string, version: string)
    requires '/' !in group && '/' !in version
    ensures CompositeKind(kind, group + "/" + version) == kind + "." + version + "." + group
  {
    assert Strings.Join([group, version], '/') == group + "/" + version;
    Strings.SplitJoin([group, version], '/');
    assert Reverse([group, version]) == [version, group];
    assert Strings.Join([version, group], '.') == version + "." + group;
  }

  /** A document holding every key a single object needs, each of the right shape. */
  predicate SingleDocument(data: Value) {
    data.Map? &&
    var kind := Lookup(data.entries, "kind");
    var av := Lookup(data.entries, "apiVersion");
    var md := Lookup(data.entries, "metadata");
    kind.Some? && kind.value.Str? && !IsListKind(kind.value.s) &&
    av.Some? && av.value.Str? &&
    md.Some? && md.value.Map? && Lookup(md.value.entries, "name").Some?
  }

  /** A document whose kind is not a list kind (or that has no string kind at all). */
  predicate NotAList(data: Value) {
    data.Map? ==>
      var kind := Lookup(data.entries, "kind");
      !(kind.Some? && kind.value.Str? && IsListKind(kind.value.s))
  }

  /**
   * A value of the wrong shape where `from_dict` needs a mapping or a string:
   * the document itself, its kind, or (for a single object) its api version
   * or metadata. These raise instead of being logged.
   */
  predicate ShapeError(data: Value) {
    !data.Map? ||
    var kind := Lookup(data.entries, "kind");
    var av := Lookup(data.entries, "apiVersion");
    var md := Lookup(data.entries, "metadata");
    (kind.Some? && !kind.value.Str?) ||
    (kind.Some? && kind.value.Str? && !IsListKind(kind.value.s) &&
      ((av.Some? && !av.value.Str?) || (av.Some? && av.value.Str? && md.Some? && !md.value.Map?)))
  }

  /**
   * A document that is not a list has three outcomes: exactly one object,
   * carrying the whole document, when it is a complete single document; a
   * raise on a value of the wrong shape; otherwise a missing key, logged,
   * yielding nothing.
   */
  lemma SingleOutcome(data: Value, namespace: Value)
    requires NotAList(data)
    ensures var r := FromDict(data, namespace);
      |r.objects| <= 1 &&
      (|r.objects| == 1 <==> SingleDocument(data)) &&
      (|r.objects| == 1 ==> r.objects[0].data == data && !r.raised) &&
      (r.raised <==> ShapeError(data))
  {
  }

  /**
   * Reading the items of a concatenation reads the first part, then, unless
   * that raised, the second.
   */
  lemma {:induction false} FromItemsAppend(a: seq<Value>, b: seq<Value>, namespace: Value)
    ensures FromItems(a + b, namespace) == Then(FromItems(a, namespace), FromItems(b, namespace))
  {
    if |a| == 0 {
      assert a + b == b;
    } else {
      assert (a + b)[0] == a[0];
      assert (a + b)[1..] == a[1..] + b;
      FromItemsAppend(a[1..], b, namespace);
      ThenAssociative(FromDict(a[0], namespace), FromItems(a[1..], namespace), FromItems(b, namespace));
    }
  }

  lemma ThenAssociative(p: Parsed, q: Parsed, r: Parsed)
    ensures Then(p, Then(q, r)) == Then(Then(p, q), r)
  {
    if !p.raised && !q.raised {
      assert p.objects + (q.objects + r.objects) == (p.objects + q.objects) + r.objects;
    }
  }

  /** A complete single document yields exactly its own object and does not raise. */
  lemma SingleYieldsOne(data: Value, namespace: Value)
    requires SingleDocument(data)
    ensures var r := FromDict(data, namespace);
      |r.objects| == 1 && r.objects[0].data == data && !r.raised
  {
  }

  /** The documents the objects were read from, in order. */
  function Documents(os: seq<KubeObject>): seq<Value> {
    seq(|os|, k requires 0 <= k < |os| => os[k].data)
  }

  lemma DocumentsAppend(a: seq<KubeObject>, b: seq<KubeObject>)
    ensures Documents(a + b) == Documents(a) + Documents(b)
  {
  }

  /** Chaining one document's objects before the rest keeps the documents in order. */
  lemma ThenDocuments(first: Parsed, rest: Parsed, x: Value, xs: seq<Value>)
    requires !first.raised && Documents(first.objects) == [x]
    requires !rest.raised && Documents(rest.objects) == xs
    ensures !Then(first, rest).raised && Documents(Then(first, rest).objects) == [x] + xs
  {
    DocumentsAppend(first.objects, rest.objects);
  }

  lemma HeadTail<T>(xs: seq<T>)
    requires |xs| > 0
    ensures [xs[0]] + xs[1..] == xs
  {
  }

  /** A complete single document yields one object, read from that document. */
  lemma SingleDocuments(data: Value, namespace: Value)
    requires SingleDocument(data)
    ensures !FromDict(data, namespace).raised && Documents(FromDict(data, namespace).objects) == [data]
  {
    SingleYieldsOne(data, namespace);
    var os := FromDict(data, namespace).objects;
    assert Documents(os)[0] == data;
  }

  /** A list of complete single documents yields one object per item, in order. */
  lemma {:induction false} ItemsOfSingles(xs: seq<Value>, namespace: Value)
    requires forall k :: 0 <= k < |xs| ==> SingleDocument(xs[k])
    ensures !FromItems(xs, namespace).raised
    ensures Documents(FromItems(xs, namespace).objects) == xs
  {
    if |xs| > 0 {
      var first, rest := FromDict(xs[0], namespace), FromItems(xs[1..], namespace);
      assert FromItems(xs, namespace) == Then(first, rest);
      assert !first.raised && Documents(first.objects) == [xs[0]] by {
        SingleDocuments(xs[0], namespace);
      }
      assert !rest.raised && Documents(rest.objects) == xs[1..] by {
        ItemsOfSingles(xs[1..], namespace);
      }
      assert !Then(first, rest).raised && Documents(Then(first, rest).objects) == xs by {
        ThenDocuments(first, rest, xs[0], xs[1..]);
        HeadTail(xs);
      }
    }
  }

  /**
   * An item that yields nothing and does not raise (a document missing a key,
   * whose `KeyError` is logged) is skipped: the items around it are read as
   * if it were not there.
   */
  lemma SkippedItem(xs: seq<Value>, x: Value, ys: seq<Value>, namespace: Value)
    requires !FromDict(x, namespace).raised && FromDict(x, namespace).objects == []
    ensures FromItems(xs + [x] + ys, namespace) == Then(FromItems(xs, namespace), FromItems(ys, namespace))
  {
    FromItemsAppend(xs + [x], ys, namespace);
    FromItemsAppend(xs, [x], namespace);
    assert [x][1..] == [];
    assert FromItems([x], namespace) == NoObjects;
    var before := FromItems(xs, namespace);
    if !before.raised {
      assert before.objects + [] == before.objects;
    }
    assert Then(before, NoObjects) == before;
  }

  /**
   * Among complete single documents, an item that is missing a key is logged
   * and skipped, and its siblings on both sides are still read, in order.
   */
  lemma SkippedAmongSingles(xs: seq<Value>, x: Value, ys: seq<Value>, namespace: Value)
    requires forall k :: 0 <= k < |xs| ==> SingleDocument(xs[k])
    requires forall k :: 0 <= k < |ys| ==> SingleDocument(ys[k])
    requires NotAList(x) && !SingleDocument(x) && !ShapeError(x)
    ensures !FromItems(xs + [x] + ys, namespace).raised
    ensures Documents(FromItems(xs + [x] + ys, namespace).objects) == xs + ys
  {
    SingleOutcome(x, namespace);
    SkippedItem(xs, x, ys, namespace);
    ItemsOfSingles(xs, namespace);
    ItemsOfSingles(ys, namespace);
    DocumentsAppend(FromItems(xs, namespace).objects, FromItems(ys, namespace).objects);
  }

  /**
   * A list document whose items are a list of complete single documents is
   * flattened into their objects, in order.
   */
  lemma ListFlattening(data: Value, namespace: Value)
    requires data.Map?
    requires Lookup(data.entries, "kind").Some? && Lookup(data.entries, "kind").value.Str?
    requires IsListKind(Lookup(data.entries, "kind").value.s)
    requires Lookup(data.entries, "items").Some? && Lookup(data.entries, "items").value.List?
    requires var xs := Lookup(data.entries, "items").value.items;
      forall k :: 0 <= k < |xs| ==> SingleDocument(xs[k])
    ensures !FromDict(data, namespace).raised
    ensures Documents(FromDict(data, namespace).objects) == Lookup(data.entries, "items").value.items
  {
    var items := Lookup(data.entries, "items").value;
    assert FromDict(data, namespace) == FromIterable(items, namespace);
    assert FromIterable(items, namespace) == FromItems(items.items, namespace);
    ItemsOfSingles(items.items, namespace);
  }

  /** Every kind ending in "List", such as "PodList" or "List" itself, is a list kind. */
  lemma ListKindSuffix(prefix: string)
    ensures IsListKind(prefix + "List")
  {
    var s := prefix + "List";
    var l := Strings.Lower(s);
    var n := |s|;
    assert s[n - 4] == 'L' && s[n - 3] == 'i' && s[n - 2] == 's' && s[n - 1] == 't';
    assert l[n - 4] == 'l' && l[n - 3] == 'i' && l[n - 2] == 's' && l[n - 1] == 't';
    assert l[n - 4..] == "list";
  }

  /** A kind is a list kind exactly when its last four characters, lower-cased, spell "list". */
  lemma ListKindLastFour(kind: string)
    ensures IsListKind(kind) <==> |kind| >= 4 && Strings.Lower(kind[|kind| - 4..]) == "list"
  {
    if |kind| >= 4 {
      var n := |kind|;
      var l, t := Strings.Lower(kind), Strings.Lower(kind[n - 4..]);
      assert l[n - 4..] == t by {
        forall k | 0 <= k < 4
          ensures l[n - 4..][k] == t[k]
        {
          assert kind[n - 4..][k] == kind[n - 4 + k];
        }
      }
    }
  }
}
