/**
 * Properties of image discovery and of the image comparison: references
 * round-trip through `Parse`, `IterImages` finds exactly the image values,
 * the merge over name-ordered lists reports every label change, and the
 * order the comparison sorts in as written loses changes that the
 * name order finds.
 */
module ImagesProps {
  import opened Wrappers
  import opened Values
  import Strings
  import opened Images

  // ---------------------------------------------------------------- parsing

  /** A name without ':' and any label come back out of the reference they form. */
  lemma ParseRoundTrip(name: string, tag: string)
    requires ':' !in name
    ensures Parse(name + ":" + tag) == Image(name, tag)
  {
    Strings.IndexOfAfter(name, ':', tag);
    var ref := name + ":" + tag;
    assert ref[..|name|] == name;
    assert ref[|name| + 1..] == tag;
  }

  // ---------------------------------------------------------------- finding images

  /** `IterImages` yields exactly the values stored under "image" keys. */
  lemma {:induction false} IterImagesExact(data: Value, v: Value)
    ensures v in IterImages(data) <==> ImageIn(data, v)
    decreases data, 1
  {
    match data
    case Map(es) => EntryImagesExact(es, v);
    case List(xs) => ListImagesExact(xs, v);
    case _ =>
  }

  lemma {:induction false} EntryImagesExact(es: seq<Entry>, v: Value)
    ensures v in EntryImages(es) <==> exists k :: 0 <= k < |es| && ImageInEntry(es[k], v)
    decreases es, 0
  {
    if |es| > 0 {
      EntryImagesExact(es[1..], v);
      if es[0].key != "image" {
        IterImagesExact(es[0].val, v);
      }
      assert ImageInEntry(es[0], v) <==> v in (if es[0].key == "image" then [es[0].val] else IterImages(es[0].val));
      assert (exists k :: 0 <= k < |es[1..]| && ImageInEntry(es[1..][k], v)) <==>
             (exists k :: 1 <= k < |es| && ImageInEntry(es[k], v)) by {
        forall k | 1 <= k < |es| && ImageInEntry(es[k], v) ensures ImageInEntry(es[1..][k - 1], v) { }
      }
    }
  }

  lemma {:induction false} ListImagesExact(xs: seq<Value>, v: Value)
    ensures v in ListImages(xs) <==> exists k :: 0 <= k < |xs| && ImageIn(xs[k], v)
    decreases xs, 0
  {
    if |xs| > 0 {
      ListImagesExact(xs[1..], v);
      IterImagesExact(xs[0], v);
      assert (exists k :: 0 <= k < |xs[1..]| && ImageIn(xs[1..][k], v)) <==>
             (exists k :: 1 <= k < |xs| && ImageIn(xs[k], v)) by {
        forall k | 1 <= k < |xs| && ImageIn(xs[k], v) ensures ImageIn(xs[1..][k - 1], v) { }
      }
    }
  }

  // ---------------------------------------------------------------- sorting by name

  /** No two different strings precede each other. */
  lemma {:induction false} LexLessAsymmetric(a: string, b: string)
    ensures !(LexLess(a, b) && LexLess(b, a))
    decreases |a|
  {
    if |a| > 0 && |b| > 0 && a[0] == b[0] {
      LexLessAsymmetric(a[1..], b[1..]);
    }
  }

  /** Inserting an element whose key is new keeps the keys distinct. */
  lemma {:induction false} InsertKeysDistinct<T>(x: T, xs: seq<T>, key: T -> string)
    requires KeysDistinct(xs, key)
    requires forall k :: 0 <= k < |xs| ==> key(xs[k]) != key(x)
    ensures KeysDistinct(Insert(x, xs, key), key)
  {
    if |xs| > 0 && !LexLe(key(x), key(xs[0])) {
      InsertKeysDistinct(x, xs[1..], key);
      var rest := Insert(x, xs[1..], key);
      assert Insert(x, xs, key) == [xs[0]] + rest;
      forall k | 0 <= k < |rest| ensures key(rest[k]) != key(xs[0]) {
        assert rest[k] in multiset(rest);
        if rest[k] != x {
          assert rest[k] in xs[1..];
          var m :| 0 <= m < |xs[1..]| && xs[1..][m] == rest[k];
          assert xs[m + 1] == rest[k];
        }
      }
    }
  }

  /** Sorting keeps the keys distinct. */
  lemma {:induction false} SortByKeysDistinct<T>(xs: seq<T>, key: T -> string)
    requires KeysDistinct(xs, key)
    ensures KeysDistinct(SortBy(xs, key), key)
  {
    if |xs| > 0 {
      SortByKeysDistinct(xs[1..], key);
      var rest := SortBy(xs[1..], key);
      forall k | 0 <= k < |rest| ensures key(rest[k]) != key(xs[0]) {
        var m :| 0 <= m < |xs[1..]| && xs[1..][m] == rest[k];
        assert xs[m + 1] == rest[k];
      }
      InsertKeysDistinct(xs[0], rest, key);
    }
  }

  /** Names strictly increase along the list. */
  predicate StrictByName(s: seq<Image>) {
    forall i, j :: 0 <= i < j < |s| ==> LexLess(s[i].name, s[j].name)
  }

  lemma {:induction false} SortedPairStrict(s: seq<Image>, i: nat, j: nat)
    requires SortedBy(s, NameOf) && KeysDistinct(s, NameOf)
    requires i < j < |s|
    ensures LexLess(s[i].name, s[j].name)
    decreases j - i
  {
    assert LexLe(NameOf(s[j - 1]), NameOf(s[j]));
    assert NameOf(s[j - 1]) != NameOf(s[j]);
    if i < j - 1 {
      SortedPairStrict(s, i, j - 1);
      LexLessTransitive(s[i].name, s[j - 1].name, s[j].name);
    }
  }

  /** Sorted by name with no name twice means strictly increasing names. */
  lemma SortedStrict(s: seq<Image>)
    requires SortedBy(s, NameOf) && KeysDistinct(s, NameOf)
    ensures StrictByName(s)
  {
    forall i, j | 0 <= i < j < |s| ensures LexLess(s[i].name, s[j].name) {
      SortedPairStrict(s, i, j);
    }
  }

  // ---------------------------------------------------------------- merging

  /** A name smaller than every name of `s` is a name of no record `Merge` makes from `s`. */
  lemma NotMerged(n: string, s: seq<Image>, t: seq<Image>)
    requires forall i :: 0 <= i < |s| ==> LexLess(n, s[i].name)
    ensures n !in Merge(s, t)
  {
    LexLessIrreflexive(n);
    var m := Merge(s, t);
    forall x | x in m ensures x != n {
      var i, j :| 0 <= i < |s| && 0 <= j < |t| && Paired(s[i], t[j], x, m[x]);
      assert LexLess(n, s[i].name);
    }
  }

  /**
   * Over lists whose names strictly increase, the merge records every pair of
   * a source and a target image that share a name and differ in label.
   */
  lemma {:induction false} MergeComplete(s: seq<Image>, t: seq<Image>)
    requires StrictByName(s) && StrictByName(t)
    ensures forall i, j :: 0 <= i < |s| && 0 <= j < |t| && s[i].name == t[j].name && s[i].tag != t[j].tag ==>
      s[i].name in Merge(s, t) && Merge(s, t)[s[i].name] == LabelChange(s[i].tag, t[j].tag)
    decreases |s| + |t|
  {
    if |s| > 0 && |t| > 0 {
      var a, b := s[0].name, t[0].name;
      LexLessIrreflexive(a);
      LexLessIrreflexive(b);
      LexLessAsymmetric(a, b);
      LexLessTotal(a, b);
      if a == b {
        MergeComplete(s[1..], t[1..]);
        NotMerged(a, s[1..], t[1..]);
        forall i, j | 0 <= i < |s| && 0 <= j < |t| && s[i].name == t[j].name && s[i].tag != t[j].tag
          ensures s[i].name in Merge(s, t) && Merge(s, t)[s[i].name] == LabelChange(s[i].tag, t[j].tag)
        {
          if i == 0 {
            assert j == 0;
          } else {
            assert j > 0;
            assert s[1..][i - 1] == s[i] && t[1..][j - 1] == t[j];
          }
        }
      } else if LexLess(a, b) {
        MergeComplete(s[1..], t);
        forall i, j | 0 <= i < |s| && 0 <= j < |t| && s[i].name == t[j].name && s[i].tag != t[j].tag
          ensures s[i].name in Merge(s, t) && Merge(s, t)[s[i].name] == LabelChange(s[i].tag, t[j].tag)
        {
          if j > 0 {
            LexLessTransitive(a, b, t[j].name);
          }
          assert i > 0;
          assert s[1..][i - 1] == s[i];
        }
      } else {
        MergeComplete(s, t[1..]);
        forall i, j | 0 <= i < |s| && 0 <= j < |t| && s[i].name == t[j].name && s[i].tag != t[j].tag
          ensures s[i].name in Merge(s, t) && Merge(s, t)[s[i].name] == LabelChange(s[i].tag, t[j].tag)
        {
          if i > 0 {
            LexLessTransitive(b, a, s[i].name);
          }
          assert j > 0;
          assert t[1..][j - 1] == t[j];
        }
      }
    }
  }

  // ---------------------------------------------------------------- one object

  /** No image name occurs twice in the object. */
  predicate NamesDistinct(data: Value)
    requires ImagesAreStrings(data)
  {
    KeysDistinct(Found(data), NameOf)
  }

  /** Whatever the order, every record of the merge of the sorted lists pairs images of the lists. */
  lemma SortedMergeSound(s: seq<Image>, t: seq<Image>)
    ensures var m := Merge(SortBy(s, NameOf), SortBy(t, NameOf));
      forall n :: n in m ==> Witnessed(s, t, n, m[n])
  {
    var ss, st := SortBy(s, NameOf), SortBy(t, NameOf);
    var m := Merge(ss, st);
    forall n | n in m ensures Witnessed(s, t, n, m[n]) {
      var i, j :| 0 <= i < |ss| && 0 <= j < |st| && Paired(ss[i], st[j], n, m[n]);
      assert ss[i] in s && st[j] in t;
      var i', j' :| 0 <= i' < |s| && 0 <= j' < |t| && s[i'] == ss[i] && t[j'] == st[j];
      assert Paired(s[i'], t[j'], n, m[n]);
    }
  }

  /** The merge of name-ordered permutations of two lists records every label change between them. */
  lemma MergePermutedComplete(s: seq<Image>, t: seq<Image>, ss: seq<Image>, st: seq<Image>)
    requires multiset(ss) == multiset(s) && multiset(st) == multiset(t)
    requires StrictByName(ss) && StrictByName(st)
    ensures var m := Merge(ss, st);
      forall i, j :: 0 <= i < |s| && 0 <= j < |t| && s[i].name == t[j].name && s[i].tag != t[j].tag ==>
        s[i].name in m && m[s[i].name] == LabelChange(s[i].tag, t[j].tag)
  {
    MergeComplete(ss, st);
    forall i, j | 0 <= i < |s| && 0 <= j < |t| && s[i].name == t[j].name && s[i].tag != t[j].tag
      ensures s[i].name in Merge(ss, st) && Merge(ss, st)[s[i].name] == LabelChange(s[i].tag, t[j].tag)
    {
      assert s[i] in multiset(ss) && t[j] in multiset(st);
      var i', j' :| 0 <= i' < |ss| && 0 <= j' < |st| && ss[i'] == s[i] && st[j'] == t[j];
    }
  }

  /** When no name occurs twice on a side, the merge of the sorted lists records every label change. */
  lemma SortedMergeComplete(s: seq<Image>, t: seq<Image>)
    requires KeysDistinct(s, NameOf) && KeysDistinct(t, NameOf)
    ensures var m := Merge(SortBy(s, NameOf), SortBy(t, NameOf));
      forall i, j :: 0 <= i < |s| && 0 <= j < |t| && s[i].name == t[j].name && s[i].tag != t[j].tag ==>
        s[i].name in m && m[s[i].name] == LabelChange(s[i].tag, t[j].tag)
  {
    var ss, st := SortBy(s, NameOf), SortBy(t, NameOf);
    SortByKeysDistinct(s, NameOf);
    SortByKeysDistinct(t, NameOf);
    SortedStrict(ss);
    SortedStrict(st);
    MergePermutedComplete(s, t, ss, st);
  }

  /**
   * With name order, comparing one object reports exactly the label changes:
   * every recorded name pairs a source and a target image with different
   * labels, and every such pair is recorded when no name occurs twice.
   */
  lemma ObjectChangesExact(source: Value, target: Value)
    requires ImagesAreStrings(source) && ImagesAreStrings(target)
    requires NamesDistinct(source) && NamesDistinct(target)
    ensures ObjectChanges(source, target).Some?
    ensures var s, t, m := Found(source), Found(target), ObjectChanges(source, target).value;
      (forall n :: n in m ==> Witnessed(s, t, n, m[n])) &&
      (forall i, j :: 0 <= i < |s| && 0 <= j < |t| && s[i].name == t[j].name && s[i].tag != t[j].tag ==>
        s[i].name in m && m[s[i].name] == LabelChange(s[i].tag, t[j].tag))
  {
    var s, t := Found(source), Found(target);
    assert ObjectChanges(source, target) == Some(Merge(SortBy(s, NameOf), SortBy(t, NameOf)));
    SortedMergeSound(s, t);
    SortedMergeComplete(s, t);
  }

  // ---------------------------------------------------------------- all objects

  /**
   * A label change for a name comes from the last object in the order whose
   * comparison records that name: later objects overwrite earlier ones.
   */
  lemma {:induction false} CollectLaterWins<K>(source: map<K, Value>, target: map<K, Value>, order: seq<K>,
                                              changes: (Value, Value) -> Option<Changes>, n: string, k: nat)
    requires Shared(order, source, target)
    requires Collect(source, target, order, changes).Some?
    requires k < |order| && n in ChangesAt(source, target, order, changes, k).value
    requires forall k' :: k < k' < |order| ==> n !in ChangesAt(source, target, order, changes, k').value
    ensures Collect(source, target, order, changes).value[n] == ChangesAt(source, target, order, changes, k).value[n]
  {
    var first := ChangesAt(source, target, order, changes, 0);
    var rest := Collect(source, target, order[1..], changes);
    assert first.Some? && rest.Some?;
    assert Collect(source, target, order, changes).value == first.value + rest.value;
    forall k' | k <= k' < |order[1..]| ensures n !in ChangesAt(source, target, order[1..], changes, k').value {
      assert ChangesAt(source, target, order, changes, k' + 1) == ChangesAt(source, target, order[1..], changes, k');
    }
    if k > 0 {
      assert ChangesAt(source, target, order, changes, k) == ChangesAt(source, target, order[1..], changes, k - 1);
      CollectLaterWins(source, target, order[1..], changes, n, k - 1);
    }
  }

  /** Some image of `s` and some image of `t` share the name `n` and differ in label. */
  predicate LabelDiffers(s: seq<Image>, t: seq<Image>, n: string) {
    exists i, j :: 0 <= i < |s| && 0 <= j < |t| && s[i].name == n && t[j].name == n && s[i].tag != t[j].tag
  }

  /** Object `o` is shared, its image values are strings, and the name `n` has different labels on the two sides. */
  predicate ObjectDiffers<K(==)>(source: map<K, Value>, target: map<K, Value>, o: K, n: string) {
    o in source && o in target && ImagesAreStrings(source[o]) && ImagesAreStrings(target[o]) &&
    LabelDiffers(Found(source[o]), Found(target[o]), n)
  }

  /** Every shared object holds only string image values, with no image name twice on either side. */
  predicate DistinctNames<K(==)>(source: map<K, Value>, target: map<K, Value>) {
    forall o :: o in source && o in target ==>
      && ImagesAreStrings(source[o]) && ImagesAreStrings(target[o])
      && NamesDistinct(source[o]) && NamesDistinct(target[o])
  }

  /** One object's corrected comparison records a name exactly when the object's labels for it differ. */
  lemma ObjectRecords<K>(source: map<K, Value>, target: map<K, Value>, o: K, n: string)
    requires DistinctNames(source, target) && o in source && o in target
    ensures ObjectChanges(source[o], target[o]).Some?
    ensures n in ObjectChanges(source[o], target[o]).value <==> ObjectDiffers(source, target, o, n)
  {
    ObjectChangesExact(source[o], target[o]);
    var s, t, m := Found(source[o]), Found(target[o]), ObjectChanges(source[o], target[o]).value;
    if n in m {
      var i, j :| 0 <= i < |s| && 0 <= j < |t| && Paired(s[i], t[j], n, m[n]);
      assert LabelDiffers(s, t, n);
    }
    if ObjectDiffers(source, target, o, n) {
      var i, j :| 0 <= i < |s| && 0 <= j < |t| && s[i].name == n && t[j].name == n && s[i].tag != t[j].tag;
    }
  }

  /**
   * The corrected comparison of two environments whose objects list each
   * image name once: a name is reported exactly when some shared object has
   * different labels for it, and the labels reported are those of the last
   * such object in the order.
   */
  lemma DifferingImagesExact<K>(source: map<K, Value>, target: map<K, Value>, order: seq<K>)
    requires Enumerates(order, source, target)
    requires DistinctNames(source, target)
    ensures GetDifferingImages(source, target, order).Some?
    ensures forall n :: n in GetDifferingImages(source, target, order).value <==>
      exists k :: 0 <= k < |order| && ObjectDiffers(source, target, order[k], n)
    ensures forall n, k ::
      && 0 <= k < |order| && ObjectDiffers(source, target, order[k], n)
      && (forall k' :: k < k' < |order| ==> !ObjectDiffers(source, target, order[k'], n))
      ==> && n in GetDifferingImages(source, target, order).value
          && ObjectWitnesses(source, target, order[k], n, GetDifferingImages(source, target, order).value[n])
  {
    var r := GetDifferingImages(source, target, order);
    assert r == Collect(source, target, order, ObjectChanges);
    assert !BadImage(source, target);
    assert forall k :: 0 <= k < |order| ==>
      ChangesAt(source, target, order, ObjectChanges, k) == ObjectChanges(source[order[k]], target[order[k]]);
    forall n, k | 0 <= k < |order|
      ensures n in ChangesAt(source, target, order, ObjectChanges, k).value <==> ObjectDiffers(source, target, order[k], n)
    {
      ObjectRecords(source, target, order[k], n);
    }
    forall n, k | && 0 <= k < |order| && ObjectDiffers(source, target, order[k], n)
                  && (forall k' :: k < k' < |order| ==> !ObjectDiffers(source, target, order[k'], n))
      ensures n in r.value && ObjectWitnesses(source, target, order[k], n, r.value[n])
    {
      CollectLaterWins(source, target, order, ObjectChanges, n, k);
    }
  }

  // ---------------------------------------------------------------- the sort order

  /** An object whose containers run the images "a:1" and "a-b:1". */
  const TwoImages: Value := Map([Entry("containers", List([
    Map([Entry("image", Str("a:1"))]),
    Map([Entry("image", Str("a-b:1"))])]))])

  /** The same object running image "a" at label 2. */
  const OneImage: Value := Map([Entry("containers", List([
    Map([Entry("image", Str("a:2"))])]))])

  lemma AllStringsCons(x: string, vs: seq<Value>)
    requires AllStrings(vs).Some?
    ensures AllStrings([Str(x)] + vs) == Some([x] + AllStrings(vs).value)
  {
    assert ([Str(x)] + vs)[1..] == vs;
  }

  /** A container whose only key is "image" yields that one value. */
  lemma OneImageKey(x: string)
    ensures IterImages(Map([Entry("image", Str(x))])) == [Str(x)]
  {
    assert EntryImages([Entry("image", Str(x))]) == [Str(x)] + EntryImages([]);
  }

  /** An object whose only key is "containers" yields the containers' images. */
  lemma ContainersOnly(cs: seq<Value>)
    ensures IterImages(Map([Entry("containers", List(cs))])) == ListImages(cs)
  {
    assert EntryImages([Entry("containers", List(cs))]) == IterImages(List(cs)) + EntryImages([]);
  }

  lemma ListImagesOne(c: Value)
    ensures ListImages([c]) == IterImages(c)
  {
    assert [c][1..] == [];
  }

  lemma ListImagesTwo(c: Value, d: Value)
    ensures ListImages([c, d]) == IterImages(c) + IterImages(d)
  {
    assert [c, d][1..] == [d];
    ListImagesOne(d);
  }

  lemma ExampleIterImages()
    ensures IterImages(TwoImages) == [Str("a:1"), Str("a-b:1")]
    ensures IterImages(OneImage) == [Str("a:2")]
  {
    var c1, c2, c3 := Map([Entry("image", Str("a:1"))]), Map([Entry("image", Str("a-b:1"))]), Map([Entry("image", Str("a:2"))]);
    OneImageKey("a:1");
    OneImageKey("a-b:1");
    OneImageKey("a:2");
    ListImagesTwo(c1, c2);
    ListImagesOne(c3);
    ContainersOnly([c1, c2]);
    ContainersOnly([c3]);
  }

  lemma ExampleAllStrings()
    ensures AllStrings([Str("a:1"), Str("a-b:1")]) == Some(["a:1", "a-b:1"])
    ensures AllStrings([Str("a:2")]) == Some(["a:2"])
  {
    AllStringsCons("a-b:1", []);
    AllStringsCons("a:1", [Str("a-b:1")]);
    AllStringsCons("a:2", []);
    assert [Str("a-b:1")] + [] == [Str("a-b:1")] && [Str("a:1")] + [Str("a-b:1")] == [Str("a:1"), Str("a-b:1")];
    assert [Str("a:2")] + [] == [Str("a:2")];
    assert AllStrings([Str("a-b:1")]) == Some(["a-b:1"]) by { assert ["a-b:1"] + [] == ["a-b:1"]; }
    assert ["a:1"] + ["a-b:1"] == ["a:1", "a-b:1"];
    assert ["a:2"] + [] == ["a:2"];
  }

  lemma ExampleImagesFound()
    ensures AllStrings(IterImages(TwoImages)) == Some(["a:1", "a-b:1"])
    ensures AllStrings(IterImages(OneImage)) == Some(["a:2"])
  {
    ExampleIterImages();
    ExampleAllStrings();
  }

  lemma ExampleRefs()
    ensures Parse("a:1") == Image("a", "1")
    ensures Parse("a-b:1") == Image("a-b", "1")
    ensures Parse("a:2") == Image("a", "2")
  {
    ParseRoundTrip("a", "1");
    ParseRoundTrip("a-b", "1");
    ParseRoundTrip("a", "2");
    assert "a" + ":" + "1" == "a:1";
    assert "a-b" + ":" + "1" == "a-b:1";
    assert "a" + ":" + "2" == "a:2";
  }

  lemma ParseAllPair(a: string, b: string)
    ensures ParseAll([a, b]) == [Parse(a), Parse(b)]
  {
  }

  lemma ExampleParsed()
    ensures ParseAll(["a:1", "a-b:1"]) == [Image("a", "1"), Image("a-b", "1")]
    ensures ParseAll(["a-b:1", "a:1"]) == [Image("a-b", "1"), Image("a", "1")]
    ensures ParseAll(["a:2"]) == [Image("a", "2")]
  {
    ExampleRefs();
    ParseAllPair("a:1", "a-b:1");
    ParseAllPair("a-b:1", "a:1");
    assert ParseAll(["a:2"])[0] == Parse("a:2");
  }

  lemma ExampleStringOrder()
    ensures !LexLe("a:1", "a-b:1")
    ensures LexLe("a", "a-b")
    ensures !LexLess("a-b", "a")
  {
    assert LexLess("a:1", "a-b:1") == LexLess(":1", "-b:1") by {
      assert "a:1"[1..] == ":1" && "a-b:1"[1..] == "-b:1";
    }
    assert LexLess("a", "a-b") by {
      assert "a"[1..] == [] && "a-b"[1..] == "-b";
    }
    assert LexLess("a-b", "a") == LexLess("-b", []) by {
      assert "a"[1..] == [] && "a-b"[1..] == "-b";
    }
  }

  /** "a-b:1" sorts before "a:1" as a string. */
  lemma ExampleSortedRefs()
    ensures SortBy(["a:1", "a-b:1"], Identity) == ["a-b:1", "a:1"]
  {
    ExampleStringOrder();
    var xs := ["a:1", "a-b:1"];
    assert xs[1..] == ["a-b:1"];
    assert SortBy(["a-b:1"], Identity) == ["a-b:1"] by {
      assert ["a-b:1"][1..] == [];
    }
    assert Insert("a:1", ["a-b:1"], Identity) == ["a-b:1"] + Insert("a:1", ["a-b:1"][1..], Identity);
    assert ["a-b:1"][1..] == [];
  }

  /** "a" sorts before "a-b" as a name. */
  lemma ExampleSortedImages()
    ensures SortBy([Image("a", "1"), Image("a-b", "1")], NameOf) == [Image("a", "1"), Image("a-b", "1")]
  {
    ExampleStringOrder();
    var ys := [Image("a", "1"), Image("a-b", "1")];
    assert ys[1..] == [Image("a-b", "1")];
    assert SortBy([Image("a-b", "1")], NameOf) == [Image("a-b", "1")] by {
      assert [Image("a-b", "1")][1..] == [];
    }
  }

  lemma ExampleMerges()
    ensures Merge([Image("a-b", "1"), Image("a", "1")], [Image("a", "2")]) == map[]
    ensures Merge([Image("a", "1"), Image("a-b", "1")], [Image("a", "2")]) == map["a" := LabelChange("1", "2")]
  {
    ExampleStringOrder();
    var s1, s2, t := [Image("a-b", "1"), Image("a", "1")], [Image("a", "1"), Image("a-b", "1")], [Image("a", "2")];
    assert Merge(s1, t) == Merge(s1, t[1..]);
    assert t[1..] == [];
    assert Merge(s2, t) == map["a" := LabelChange("1", "2")] + Merge(s2[1..], t[1..]);
  }

  /**
   * Sorted as whole strings, "a-b:1" comes before "a:1" ('-' is below ':'),
   * but by name "a" comes before "a-b". The merge then drops the target's
   * "a" and misses the change of "a" from label 1 to label 2, which the
   * name order reports.
   */
  lemma SortOrderMissesChange()
    ensures ObjectChangesAsWritten(TwoImages, OneImage) == Some(map[])
    ensures ObjectChanges(TwoImages, OneImage) == Some(map["a" := LabelChange("1", "2")])
  {
    ExampleImagesFound();
    ExampleParsed();
    ExampleSortedRefs();
    ExampleSortedImages();
    ExampleMerges();
    assert SortBy(["a:2"], Identity) == ["a:2"];
    assert SortBy([Image("a", "2")], NameOf) == [Image("a", "2")];
    assert ObjectImagesAsWritten(TwoImages) == Some([Image("a-b", "1"), Image("a", "1")]);
    assert ObjectImagesAsWritten(OneImage) == Some([Image("a", "2")]);
    assert ObjectImages(TwoImages) == Some([Image("a", "1"), Image("a-b", "1")]);
    assert ObjectImages(OneImage) == Some([Image("a", "2")]);
  }

  /** The two environments share exactly one object, whose images are `TwoImages` and `OneImage`. */
  lemma ExampleEnumerated()
    ensures Enumerates([0], map[0 := TwoImages], map[0 := OneImage])
  {
  }

  /** With one shared object, the whole comparison is that object's comparison. */
  lemma CollectOne<K>(source: map<K, Value>, target: map<K, Value>, o: K,
                      changes: (Value, Value) -> Option<Changes>)
    requires o in source && o in target
    ensures Collect(source, target, [o], changes) == changes(source[o], target[o])
  {
    assert [o][1..] == [];
    assert Collect(source, target, [], changes) == Some(map[]);
    var c := changes(source[o], target[o]);
    if c.Some? {
      assert c.value + map[] == c.value;
    }
  }

  lemma ExampleCollectedAsWritten()
    ensures Collect(map[0 := TwoImages], map[0 := OneImage], [0], ObjectChangesAsWritten) == Some(map[])
  {
    CollectOne(map[0 := TwoImages], map[0 := OneImage], 0, ObjectChangesAsWritten);
    SortOrderMissesChange();
  }

  lemma ExampleCollected()
    ensures Collect(map[0 := TwoImages], map[0 := OneImage], [0], ObjectChanges) == Some(map["a" := LabelChange("1", "2")])
  {
    CollectOne(map[0 := TwoImages], map[0 := OneImage], 0, ObjectChanges);
    SortOrderMissesChange();
  }

  /**
   * Over the whole comparison: one shared object with those images, and the
   * as-written comparison reports nothing where the corrected one reports
   * the change of "a".
   */
  lemma DifferingImagesMissesChange()
    ensures Enumerates([0], map[0 := TwoImages], map[0 := OneImage])
    ensures GetDifferingImagesAsWritten(map[0 := TwoImages], map[0 := OneImage], [0]) == Some(map[])
    ensures GetDifferingImages(map[0 := TwoImages], map[0 := OneImage], [0]) == Some(map["a" := LabelChange("1", "2")])
  {
    ExampleEnumerated();
    ExampleCollectedAsWritten();
    ExampleCollected();
  }

  /**
   * Some pair of environments sharing one object makes the as-written
   * comparison report nothing where the corrected one reports a change.
   */
  lemma AsWrittenMissesChange()
    ensures exists source: map<int, Value>, target: map<int, Value> ::
      Enumerates([0], source, target) &&
      GetDifferingImagesAsWritten(source, target, [0]) == Some(map[]) &&
      GetDifferingImages(source, target, [0]) == Some(map["a" := LabelChange("1", "2")])
  {
    var source, target := map[0 := TwoImages], map[0 := OneImage];
    DifferingImagesMissesChange();
    assert Enumerates([0], source, target) &&
      GetDifferingImagesAsWritten(source, target, [0]) == Some(map[]) &&
      GetDifferingImages(source, target, [0]) == Some(map["a" := LabelChange("1", "2")]);
  }
}
