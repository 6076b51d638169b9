/**
 * Docker image references found in Kubernetes objects, and the comparison of
 * the image labels two environments run for the objects they share.
 */
module Images {
  import opened Wrappers
  import opened Values
  import Strings

  /** An image reference split into repository name and label (the tag). */
  datatype Image = Image(name: string, tag: string)

  /** The label an image has in the source environment and in the target one. */
  datatype LabelChange = LabelChange(source: string, target: string)

  const DefaultLabel: string := "latest"

  /**
   * `Image.parse`: split at the first ':' (the label keeps any later ones);
   * without a ':' the whole reference is the name and the label is "latest".
   */
  function Parse(ref: string): (r: Image)
    ensures ':' !in r.name
    ensures ':' in ref ==> r.name + ":" + r.tag == ref
    ensures ':' !in ref ==> r == Image(ref, DefaultLabel)
  {
    match Strings.IndexOf(ref, ':')
    case None => Image(ref, DefaultLabel)
    case Some(i) =>
      assert ref == ref[..i] + ":" + ref[i + 1..];
      Image(ref[..i], ref[i + 1..])
  }

  // ---------------------------------------------------------------- string order

  /** Python's `<` on strings: code point by code point, a proper prefix first. */
  predicate LexLess(a: string, b: string)
    decreases |a|
  {
    if |a| == 0 then |b| > 0
    else if |b| == 0 then false
    else if a[0] == b[0] then LexLess(a[1..], b[1..])
    else a[0] < b[0]
  }

  predicate LexLe(a: string, b: string) {
    a == b || LexLess(a, b)
  }

  lemma {:induction false} LexLessIrreflexive(a: string)
    ensures !LexLess(a, a)
    decreases |a|
  {
    if |a| > 0 {
      LexLessIrreflexive(a[1..]);
    }
  }

  lemma {:induction false} LexLessTransitive(a: string, b: string, c: string)
    requires LexLess(a, b) && LexLess(b, c)
    ensures LexLess(a, c)
    decreases |a|
  {
    if |a| > 0 && |b| > 0 && |c| > 0 && a[0] == b[0] && b[0] == c[0] {
      LexLessTransitive(a[1..], b[1..], c[1..]);
    }
  }

  /** Any two different strings are ordered one way or the other. */
  lemma {:induction false} LexLessTotal(a: string, b: string)
    ensures a == b || LexLess(a, b) || LexLess(b, a)
    decreases |a|
  {
    if |a| > 0 && |b| > 0 && a[0] == b[0] {
      LexLessTotal(a[1..], b[1..]);
      if a[1..] == b[1..] {
        assert a == [a[0]] + a[1..] && b == [b[0]] + b[1..];
      }
    }
  }

  // ---------------------------------------------------------------- sorting

  /** Adjacent elements are in order of their keys. */
  predicate SortedBy<T>(xs: seq<T>, key: T -> string) {
    forall i :: 0 < i < |xs| ==> LexLe(key(xs[i - 1]), key(xs[i]))
  }

  /** No two elements share a key. */
  predicate KeysDistinct<T>(xs: seq<T>, key: T -> string) {
    forall i, j :: 0 <= i < j < |xs| ==> key(xs[i]) != key(xs[j])
  }

  function Insert<T(==)>(x: T, xs: seq<T>, key: T -> string): (r: seq<T>)
    ensures multiset(r) == multiset(xs) + multiset{x}
    ensures |r| > 0 && (r[0] == x || (|xs| > 0 && r[0] == xs[0]))
  {
    if |xs| == 0 then [x]
    else if LexLe(key(x), key(xs[0])) then [x] + xs
    else
      assert xs == [xs[0]] + xs[1..];
      [xs[0]] + Insert(x, xs[1..], key)
  }

  /** Inserting into a list in key order keeps it in key order. */
  lemma {:induction false} InsertSorted<T>(x: T, xs: seq<T>, key: T -> string)
    requires SortedBy(xs, key)
    ensures SortedBy(Insert(x, xs, key), key)
  {
    if |xs| > 0 && !LexLe(key(x), key(xs[0])) {
      LexLessTotal(key(x), key(xs[0]));
      InsertSorted(x, xs[1..], key);
      var rest := Insert(x, xs[1..], key);
      assert Insert(x, xs, key) == [xs[0]] + rest;
      assert LexLe(key(xs[0]), key(rest[0])) by {
        if |xs| > 1 && rest[0] == xs[1] {
          assert LexLe(key(xs[0]), key(xs[1]));
        }
      }
    }
  }

  /** `sorted`, by key: a permutation of the input in key order. */
  function SortBy<T(==)>(xs: seq<T>, key: T -> string): (r: seq<T>)
    ensures multiset(r) == multiset(xs)
    ensures forall k :: 0 <= k < |r| ==> r[k] in xs
    ensures SortedBy(r, key)
  {
    if |xs| == 0 then []
    else
      assert xs == [xs[0]] + xs[1..];
      var rest := SortBy(xs[1..], key);
      InsertSorted(xs[0], rest, key);
      var r := Insert(xs[0], rest, key);
      assert forall k :: 0 <= k < |r| ==> r[k] in xs by {
        forall k | 0 <= k < |r| ensures r[k] in xs {
          assert r[k] in multiset(r);
        }
      }
      r
  }

  // ---------------------------------------------------------------- finding images

  /**
   * `iter_images`: the values stored under "image" keys, in traversal order.
   * The value of an "image" key is yielded and not searched further.
   */
  function IterImages(data: Value): (r: seq<Value>)
    ensures forall k :: 0 <= k < |r| ==> ImageIn(data, r[k])
    decreases data, 1
  {
    match data
    case Map(es) => EntryImages(es)
    case List(xs) => ListImages(xs)
    case _ => []
  }

  function EntryImages(es: seq<Entry>): (r: seq<Value>)
    ensures forall k :: 0 <= k < |r| ==> exists j :: 0 <= j < |es| && ImageInEntry(es[j], r[k])
    decreases es, 0
  {
    if |es| == 0 then []
    else
      var here := if es[0].key == "image" then [es[0].val] else IterImages(es[0].val);
      var rest := EntryImages(es[1..]);
      assert forall k :: 0 <= k < |here| ==> ImageInEntry(es[0], here[k]);
      assert forall k :: 0 <= k < |rest| ==> exists j :: 0 <= j < |es| && ImageInEntry(es[j], rest[k]) by {
        forall k | 0 <= k < |rest| ensures exists j :: 0 <= j < |es| && ImageInEntry(es[j], rest[k]) {
          var j :| 0 <= j < |es[1..]| && ImageInEntry(es[1..][j], rest[k]);
          assert ImageInEntry(es[j + 1], rest[k]);
        }
      }
      here + rest
  }

  function ListImages(xs: seq<Value>): (r: seq<Value>)
    ensures forall k :: 0 <= k < |r| ==> exists j :: 0 <= j < |xs| && ImageIn(xs[j], r[k])
    decreases xs, 0
  {
    if |xs| == 0 then []
    else
      var here, rest := IterImages(xs[0]), ListImages(xs[1..]);
      assert forall k :: 0 <= k < |rest| ==> exists j :: 0 <= j < |xs| && ImageIn(xs[j], rest[k]) by {
        forall k | 0 <= k < |rest| ensures exists j :: 0 <= j < |xs| && ImageIn(xs[j], rest[k]) {
          var j :| 0 <= j < |xs[1..]| && ImageIn(xs[1..][j], rest[k]);
          assert ImageIn(xs[j + 1], rest[k]);
        }
      }
      here + rest
  }

  /** `v` is stored under an "image" key somewhere in `data`, not inside another image value. */
  ghost predicate ImageIn(data: Value, v: Value)
    decreases data
  {
    match data
    case Map(es) => exists k :: 0 <= k < |es| && ImageInEntry(es[k], v)
    case List(xs) => exists k :: 0 <= k < |xs| && ImageIn(xs[k], v)
    case _ => false
  }

  ghost predicate ImageInEntry(e: Entry, v: Value)
    decreases e
  {
    if e.key == "image" then e.val == v else ImageIn(e.val, v)
  }

  /** The image references as strings, or nothing when one is not a string (`parse` would raise). */
  function AllStrings(vs: seq<Value>): (r: Option<seq<string>>)
    ensures r.Some? <==> forall k :: 0 <= k < |vs| ==> vs[k].Str?
    ensures r.Some? ==> |r.value| == |vs| && forall k :: 0 <= k < |vs| ==> vs[k] == Str(r.value[k])
  {
    if |vs| == 0 then Some([])
    else if !vs[0].Str? then None
    else match AllStrings(vs[1..])
      case None => None
      case Some(rest) => Some([vs[0].s] + rest)
  }

  function ParseAll(refs: seq<string>): (r: seq<Image>)
    ensures |r| == |refs|
    ensures forall k :: 0 <= k < |refs| ==> r[k] == Parse(refs[k])
  {
    seq(|refs|, k requires 0 <= k < |refs| => Parse(refs[k]))
  }

  lemma ParseAllAppend(a: seq<string>, b: seq<string>)
    ensures ParseAll(a + b) == ParseAll(a) + ParseAll(b)
  {
    assert |ParseAll(a + b)| == |ParseAll(a) + ParseAll(b)|;
    forall k | 0 <= k < |a| + |b| ensures ParseAll(a + b)[k] == (ParseAll(a) + ParseAll(b))[k] {
      if k >= |a| {
        assert (a + b)[k] == b[k - |a|];
      }
    }
  }

  /** Taking one reference out of a list takes its image out of the parsed list. */
  lemma ParseAllRemove(b: seq<string>, i: nat)
    requires i < |b|
    ensures multiset(ParseAll(b)) == multiset(ParseAll(b[..i] + b[i + 1..])) + multiset{Parse(b[i])}
  {
    var pre, x, post := b[..i], b[i], b[i + 1..];
    assert b == pre + [x] + post;
    ParseAllSplice(pre, x, post);
    MultisetSplice(ParseAll(pre), Parse(x), ParseAll(post));
  }

  /** Parsing commutes with cutting one reference out of the middle of a list. */
  lemma ParseAllSplice(pre: seq<string>, x: string, post: seq<string>)
    ensures ParseAll(pre + [x] + post) == ParseAll(pre) + [Parse(x)] + ParseAll(post)
    ensures ParseAll(pre + post) == ParseAll(pre) + ParseAll(post)
  {
    ParseAllAppend(pre + [x], post);
    ParseAllAppend(pre, [x]);
    ParseAllAppend(pre, post);
  }

  lemma MultisetSplice<T>(pre: seq<T>, x: T, post: seq<T>)
    ensures multiset(pre + [x] + post) == multiset(pre + post) + multiset{x}
  {
  }

  /** Taking out an element both lists hold keeps two permutations permutations of each other. */
  lemma RemoveShared(a: seq<string>, b: seq<string>, i: nat)
    requires multiset(a) == multiset(b) && |a| > 0 && i < |b| && b[i] == a[0]
    ensures multiset(a[1..]) == multiset(b[..i] + b[i + 1..])
  {
    assert a == [a[0]] + a[1..];
    assert b == b[..i] + [b[i]] + b[i + 1..];
    assert multiset(a[1..]) == multiset(a) - multiset{a[0]};
    assert multiset(b[..i] + b[i + 1..]) == multiset(b) - multiset{b[i]};
  }

  /** Parsing a permutation of the references gives a permutation of the images. */
  lemma {:induction false} ParseAllPermutation(a: seq<string>, b: seq<string>)
    requires multiset(a) == multiset(b)
    ensures multiset(ParseAll(a)) == multiset(ParseAll(b))
    decreases |a|
  {
    if |a| > 0 {
      var i := PermutationStep(a, b);
      ParseAllPermutation(a[1..], b[..i] + b[i + 1..]);
    }
  }

  /**
   * One step of the permutation argument: the first reference of `a` sits at
   * some index `i` of `b`, and taking it out of both leaves permutations
   * whose parsed images differ from the whole by that one image.
   */
  lemma PermutationStep(a: seq<string>, b: seq<string>) returns (i: nat)
    requires multiset(a) == multiset(b) && |a| > 0
    ensures i < |b| && b[i] == a[0]
    ensures multiset(a[1..]) == multiset(b[..i] + b[i + 1..])
    ensures multiset(ParseAll(b)) == multiset(ParseAll(b[..i] + b[i + 1..])) + multiset{Parse(a[0])}
    ensures multiset(ParseAll(a)) == multiset(ParseAll(a[1..])) + multiset{Parse(a[0])}
  {
    assert a[0] in b by {
      assert a[0] in multiset(b);
    }
    i :| 0 <= i < |b| && b[i] == a[0];
    ParseAllRemove(b, i);
    RemoveShared(a, b, i);
    assert a[..0] + a[1..] == a[1..];
    ParseAllRemove(a, 0);
  }

  // ---------------------------------------------------------------- merging

  /** Some source image and some target image share the name `n` and have the different labels of `c`. */
  predicate Witnessed(s: seq<Image>, t: seq<Image>, n: string, c: LabelChange) {
    exists i, j :: 0 <= i < |s| && 0 <= j < |t| && Paired(s[i], t[j], n, c)
  }

  predicate Paired(a: Image, b: Image, n: string, c: LabelChange) {
    a.name == n && b.name == n && c == LabelChange(a.tag, b.tag) && a.tag != b.tag
  }

  /** Records witnessed by two lists are witnessed by any permutations of them. */
  lemma WitnessedTransfer(s: seq<Image>, t: seq<Image>, s': seq<Image>, t': seq<Image>, m: map<string, LabelChange>)
    requires multiset(s) == multiset(s') && multiset(t) == multiset(t')
    requires forall n :: n in m ==> Witnessed(s, t, n, m[n])
    ensures forall n :: n in m ==> Witnessed(s', t', n, m[n])
  {
    forall n | n in m ensures Witnessed(s', t', n, m[n]) {
      var i, j :| 0 <= i < |s| && 0 <= j < |t| && Paired(s[i], t[j], n, m[n]);
      assert s[i] in multiset(s') && t[j] in multiset(t');
      var i', j' :| 0 <= i' < |s'| && 0 <= j' < |t'| && s'[i'] == s[i] && t'[j'] == t[j];
      assert Paired(s'[i'], t'[j'], n, m[n]);
    }
  }

  /** Records witnessed by suffixes of the lists are witnessed by the lists. */
  lemma WitnessedInSuffix(s: seq<Image>, t: seq<Image>, ds: nat, dt: nat, r: map<string, LabelChange>)
    requires ds <= |s| && dt <= |t|
    requires forall n :: n in r ==> Witnessed(s[ds..], t[dt..], n, r[n])
    ensures forall n :: n in r ==> Witnessed(s, t, n, r[n])
  {
    forall n | n in r ensures Witnessed(s, t, n, r[n]) {
      var i, j :| 0 <= i < |s[ds..]| && 0 <= j < |t[dt..]| && Paired(s[ds..][i], t[dt..][j], n, r[n]);
      assert Paired(s[i + ds], t[j + dt], n, r[n]);
    }
  }

  /**
   * The merge loop of `get_differing_images`: walk both lists by name,
   * recording a label change when the heads share a name and dropping the
   * head whose name is smaller otherwise. A later record for a name replaces
   * an earlier one. Every record pairs a source and a target image.
   */
  function Merge(s: seq<Image>, t: seq<Image>): (r: map<string, LabelChange>)
    ensures forall n :: n in r ==> Witnessed(s, t, n, r[n])
    decreases |s| + |t|
  {
    if |s| == 0 || |t| == 0 then map[]
    else if s[0].name == t[0].name then
      var here := if s[0].tag != t[0].tag then map[s[0].name := LabelChange(s[0].tag, t[0].tag)] else map[];
      var rest := Merge(s[1..], t[1..]);
      WitnessedInSuffix(s, t, 1, 1, rest);
      assert forall n :: n in here ==> Witnessed(s, t, n, here[n]) by {
        forall n | n in here ensures Witnessed(s, t, n, here[n]) {
          assert Paired(s[0], t[0], n, here[n]);
        }
      }
      here + rest
    else if LexLess(s[0].name, t[0].name) then
      var rest := Merge(s[1..], t);
      assert t[0..] == t;
      WitnessedInSuffix(s, t, 1, 0, rest);
      rest
    else
      var rest := Merge(s, t[1..]);
      assert s[0..] == s;
      WitnessedInSuffix(s, t, 0, 1, rest);
      rest
  }

  // ---------------------------------------------------------------- per object and overall

  type Changes = map<string, LabelChange>

  function Identity(ref: string): string { ref }

  function NameOf(im: Image): string { im.name }

  /** The object's image references, when they are all strings. */
  predicate ImagesAreStrings(data: Value) {
    AllStrings(IterImages(data)).Some?
  }

  /** The images of an object whose image values are all strings, in traversal order. */
  function Found(data: Value): (r: seq<Image>)
    requires ImagesAreStrings(data)
    ensures |r| == |IterImages(data)|
    ensures forall k :: 0 <= k < |r| ==> IterImages(data)[k] == Str(r[k].name + ":" + r[k].tag) || IterImages(data)[k] == Str(r[k].name)
  {
    ParseAll(AllStrings(IterImages(data)).value)
  }

  /**
   * As the source orders them: the references put in string order, then
   * parsed. The result is a permutation of the object's images.
   */
  function ObjectImagesAsWritten(data: Value): (r: Option<seq<Image>>)
    ensures r.Some? <==> ImagesAreStrings(data)
    ensures r.Some? ==> exists sorted ::
      SortedBy(sorted, Identity) && multiset(sorted) == multiset(AllStrings(IterImages(data)).value) && r.value == ParseAll(sorted)
    ensures r.Some? ==> multiset(r.value) == multiset(Found(data))
  {
    match AllStrings(IterImages(data))
    case None => None
    case Some(refs) =>
      var sorted := SortBy(refs, Identity);
      ParseAllPermutation(sorted, refs);
      Some(ParseAll(sorted))
  }

  /**
   * Corrected order: the object's images, parsed and then put in name order,
   * the order the merge walks in.
   */
  function ObjectImages(data: Value): (r: Option<seq<Image>>)
    ensures r.Some? <==> ImagesAreStrings(data)
    ensures r.Some? ==> SortedBy(r.value, NameOf) && multiset(r.value) == multiset(Found(data))
  {
    match AllStrings(IterImages(data))
    case None => None
    case Some(refs) => Some(SortBy(ParseAll(refs), NameOf))
  }

  /**
   * One shared object as the source compares it: every record pairs an
   * image of the source object with an image of the target object.
   */
  function ObjectChangesAsWritten(source: Value, target: Value): (r: Option<Changes>)
    ensures r.Some? <==> ImagesAreStrings(source) && ImagesAreStrings(target)
    ensures r.Some? ==> forall n :: n in r.value ==> Witnessed(Found(source), Found(target), n, r.value[n])
  {
    var s, t := ObjectImagesAsWritten(source), ObjectImagesAsWritten(target);
    if s.None? || t.None? then None
    else
      var m := Merge(s.value, t.value);
      WitnessedTransfer(s.value, t.value, Found(source), Found(target), m);
      Some(m)
  }

  /**
   * One shared object, compared with both image lists in name order: every
   * record pairs an image of the source object with an image of the target
   * object.
   */
  function ObjectChanges(source: Value, target: Value): (r: Option<Changes>)
    ensures r.Some? <==> ImagesAreStrings(source) && ImagesAreStrings(target)
    ensures r.Some? ==> forall n :: n in r.value ==> Witnessed(Found(source), Found(target), n, r.value[n])
  {
    var s, t := ObjectImages(source), ObjectImages(target);
    if s.None? || t.None? then None
    else
      var m := Merge(s.value, t.value);
      WitnessedTransfer(s.value, t.value, Found(source), Found(target), m);
      Some(m)
  }

  function ChangesAt<K(==)>(source: map<K, Value>, target: map<K, Value>, order: seq<K>,
                            changes: (Value, Value) -> Option<Changes>, k: nat): Option<Changes>
    requires k < |order| && order[k] in source && order[k] in target
  {
    changes(source[order[k]], target[order[k]])
  }

  /** Each object of `order` is one the two environments share. */
  predicate Shared<K(==)>(order: seq<K>, source: map<K, Value>, target: map<K, Value>) {
    forall k :: 0 <= k < |order| ==> order[k] in source && order[k] in target
  }

  /**
   * The loop over shared objects: each object's changes are written into one
   * mapping, a later object's record for a name replacing an earlier one; a
   * raise in any object is a raise of the whole.
   */
  function Collect<K(==)>(source: map<K, Value>, target: map<K, Value>, order: seq<K>,
                          changes: (Value, Value) -> Option<Changes>): (r: Option<Changes>)
    requires Shared(order, source, target)
    ensures r.None? <==> exists k :: 0 <= k < |order| && ChangesAt(source, target, order, changes, k).None?
    ensures r.Some? ==> forall n :: n in r.value <==>
      exists k :: 0 <= k < |order| && n in ChangesAt(source, target, order, changes, k).value
  {
    if |order| == 0 then Some(map[])
    else
      var first := ChangesAt(source, target, order, changes, 0);
      var rest := Collect(source, target, order[1..], changes);
      assert forall k :: 0 < k < |order| ==>
        ChangesAt(source, target, order, changes, k) == ChangesAt(source, target, order[1..], changes, k - 1);
      if first.None? then None
      else if rest.None? then
        assert exists k :: 0 <= k < |order| && ChangesAt(source, target, order, changes, k).None? by {
          var k' :| 0 <= k' < |order[1..]| && ChangesAt(source, target, order[1..], changes, k').None?;
          assert ChangesAt(source, target, order, changes, k' + 1).None?;
        }
        None
      else
        var m := first.value + rest.value;
        assert forall n :: n in m <==>
          exists k :: 0 <= k < |order| && n in ChangesAt(source, target, order, changes, k).value by {
          forall n | n in m ensures exists k :: 0 <= k < |order| && n in ChangesAt(source, target, order, changes, k).value {
            if n !in first.value {
              var k' :| 0 <= k' < |order[1..]| && n in ChangesAt(source, target, order[1..], changes, k').value;
              assert n in ChangesAt(source, target, order, changes, k' + 1).value;
            }
          }
          forall n, k | 0 <= k < |order| && n in ChangesAt(source, target, order, changes, k).value ensures n in m {
            if k > 0 {
              assert n in ChangesAt(source, target, order[1..], changes, k - 1).value;
            }
          }
        }
        Some(m)
  }

  /**
   * A name the loop records takes its label change from the last object in
   * the order whose comparison records that name.
   */
  lemma {:induction false} CollectFromLast<K>(source: map<K, Value>, target: map<K, Value>, order: seq<K>,
                                             changes: (Value, Value) -> Option<Changes>, n: string)
    requires Shared(order, source, target)
    requires Collect(source, target, order, changes).Some?
    requires n in Collect(source, target, order, changes).value
    ensures
      exists k ::
        && 0 <= k < |order| && ChangesAt(source, target, order, changes, k).Some?
        && n in ChangesAt(source, target, order, changes, k).value
        && Collect(source, target, order, changes).value[n] == ChangesAt(source, target, order, changes, k).value[n]
        && forall k' :: k < k' < |order| ==> n !in ChangesAt(source, target, order, changes, k').value
  {
    var first := ChangesAt(source, target, order, changes, 0);
    var rest := Collect(source, target, order[1..], changes);
    var m := Collect(source, target, order, changes).value;
    assert first.Some? && rest.Some? && m == first.value + rest.value;
    if n in rest.value {
      CollectFromLast(source, target, order[1..], changes, n);
      var k :| 0 <= k < |order[1..]| && ChangesAt(source, target, order[1..], changes, k).Some? &&
        n in ChangesAt(source, target, order[1..], changes, k).value &&
        rest.value[n] == ChangesAt(source, target, order[1..], changes, k).value[n] &&
        forall k' :: k < k' < |order[1..]| ==> n !in ChangesAt(source, target, order[1..], changes, k').value;
      LastShift(source, target, order, changes, n, k);
      assert m[n] == ChangesAt(source, target, order, changes, k + 1).value[n];
    } else {
      forall k' | 0 < k' < |order| ensures n !in ChangesAt(source, target, order, changes, k').value {
        ShiftAt(source, target, order, changes, k');
      }
      assert n in first.value && m[n] == first.value[n];
    }
  }

  /** Dropping the first object of the order shifts every later comparison down by one. */
  lemma ShiftAt<K>(source: map<K, Value>, target: map<K, Value>, order: seq<K>,
                   changes: (Value, Value) -> Option<Changes>, k: nat)
    requires Shared(order, source, target) && 0 < k < |order|
    ensures Shared(order[1..], source, target)
    ensures ChangesAt(source, target, order, changes, k) == ChangesAt(source, target, order[1..], changes, k - 1)
  {
  }

  /** The last recorder of `n` after the first object is the last recorder one place further on. */
  lemma LastShift<K>(source: map<K, Value>, target: map<K, Value>, order: seq<K>,
                     changes: (Value, Value) -> Option<Changes>, n: string, k: nat)
    requires Shared(order, source, target) && k + 1 < |order|
    requires Collect(source, target, order, changes).Some? && Collect(source, target, order[1..], changes).Some?
    requires forall k' :: k < k' < |order[1..]| ==> n !in ChangesAt(source, target, order[1..], changes, k').value
    ensures ChangesAt(source, target, order, changes, k + 1) == ChangesAt(source, target, order[1..], changes, k)
    ensures forall k' :: k + 1 < k' < |order| ==> n !in ChangesAt(source, target, order, changes, k').value
  {
    ShiftAt(source, target, order, changes, k + 1);
    forall k' | k + 1 < k' < |order| ensures n !in ChangesAt(source, target, order, changes, k').value {
      ShiftAt(source, target, order, changes, k');
    }
  }

  /** Object `o` is shared, its image values are strings, and its images witness the record `c` for `n`. */
  predicate ObjectWitnesses<K(==)>(source: map<K, Value>, target: map<K, Value>, o: K, n: string, c: LabelChange) {
    o in source && o in target && ImagesAreStrings(source[o]) && ImagesAreStrings(target[o]) &&
    Witnessed(Found(source[o]), Found(target[o]), n, c)
  }

  /**
   * When each object's comparison pairs only images of that object, every
   * record of the loop is witnessed by the images of some shared object.
   */
  lemma CollectWitnessed<K>(source: map<K, Value>, target: map<K, Value>, order: seq<K>,
                            changes: (Value, Value) -> Option<Changes>)
    requires Shared(order, source, target)
    requires
      forall a, b :: changes(a, b).Some? ==>
        && ImagesAreStrings(a) && ImagesAreStrings(b)
        && forall n :: n in changes(a, b).value ==> Witnessed(Found(a), Found(b), n, changes(a, b).value[n])
    ensures var r := Collect(source, target, order, changes);
      r.Some? ==> forall n :: n in r.value ==> exists k :: 0 <= k < |order| && ObjectWitnesses(source, target, order[k], n, r.value[n])
  {
    var r := Collect(source, target, order, changes);
    if r.Some? {
      forall n | n in r.value ensures exists k :: 0 <= k < |order| && ObjectWitnesses(source, target, order[k], n, r.value[n]) {
        CollectFromLast(source, target, order, changes, n);
        var k :| 0 <= k < |order| && ChangesAt(source, target, order, changes, k).Some? &&
          n in ChangesAt(source, target, order, changes, k).value &&
          r.value[n] == ChangesAt(source, target, order, changes, k).value[n] &&
          forall k' :: k < k' < |order| ==> n !in ChangesAt(source, target, order, changes, k').value;
        assert ObjectWitnesses(source, target, order[k], n, r.value[n]);
      }
    }
  }

  /**
   * `order` lists the objects both environments hold, each once: the
   * iteration order of `source_objs & target_objs`, which Python leaves
   * unspecified and the model takes as a parameter.
   */
  predicate Enumerates<K(==)>(order: seq<K>, source: map<K, Value>, target: map<K, Value>) {
    Shared(order, source, target) &&
    (forall o :: o in source && o in target ==> o in order) &&
    (forall i, j :: 0 <= i < j < |order| ==> order[i] != order[j])
  }

  /** Some shared object holds an image value that is not a string. */
  predicate BadImage<K(==)>(source: map<K, Value>, target: map<K, Value>) {
    exists o :: o in source && o in target && !(ImagesAreStrings(source[o]) && ImagesAreStrings(target[o]))
  }

  lemma CollectRaises<K>(source: map<K, Value>, target: map<K, Value>, order: seq<K>,
                             changes: (Value, Value) -> Option<Changes>)
    requires Enumerates(order, source, target)
    requires forall a, b :: changes(a, b).Some? <==> ImagesAreStrings(a) && ImagesAreStrings(b)
    ensures Collect(source, target, order, changes).None? <==> BadImage(source, target)
  {
    if BadImage(source, target) {
      var o :| o in source && o in target && !(ImagesAreStrings(source[o]) && ImagesAreStrings(target[o]));
      var k :| 0 <= k < |order| && order[k] == o;
      assert ChangesAt(source, target, order, changes, k).None?;
    }
  }

  /**
   * `get_differing_images` as written: per shared object, image references
   * sorted as whole strings. It raises exactly when some shared object holds
   * a non-string image value; otherwise every record it returns pairs a
   * source image and a target image of one shared object that share the
   * name and differ in label.
   */
  function GetDifferingImagesAsWritten<K(==)>(source: map<K, Value>, target: map<K, Value>, order: seq<K>): (r: Option<Changes>)
    requires Enumerates(order, source, target)
    ensures r.None? <==> BadImage(source, target)
    ensures r.Some? ==> forall n :: n in r.value ==>
      exists k :: 0 <= k < |order| && ObjectWitnesses(source, target, order[k], n, r.value[n])
  {
    CollectRaises(source, target, order, ObjectChangesAsWritten);
    CollectWitnessed(source, target, order, ObjectChangesAsWritten);
    Collect(source, target, order, ObjectChangesAsWritten)
  }

  /**
   * `get_differing_images` with each object's images sorted by name, the
   * order its merge assumes. It raises exactly when
   * `GetDifferingImagesAsWritten` does, and every record it returns pairs a
   * source image and a target image of one shared object that share the
   * name and differ in label.
   */
  function GetDifferingImages<K(==)>(source: map<K, Value>, target: map<K, Value>, order: seq<K>): (r: Option<Changes>)
    requires Enumerates(order, source, target)
    ensures r.None? <==> BadImage(source, target)
    ensures r.Some? ==> forall n :: n in r.value ==>
      exists k :: 0 <= k < |order| && ObjectWitnesses(source, target, order[k], n, r.value[n])
  {
    CollectRaises(source, target, order, ObjectChanges);
    CollectWitnessed(source, target, order, ObjectChanges);
    Collect(source, target, order, ObjectChanges)
  }
}
