# kubediff core in Dafny

kubediff compares Kubernetes objects as they are written in configuration
files with the same objects as they run in a cluster, and reports where they
differ. This project models the part that does the comparing:

- **the comparison engine** (`DiffEngine`, `diff.dfy`):
  - scalar normalization;
  - the toleration table that suppresses differences at matching paths;
  - the one-directional recursive comparison of a wanted tree against a live
    tree (`diff`, `diff_dicts`, `diff_lists`);
  - the `Difference` records and their text.
- **the greedy list subtraction** (`Subtraction`, `list_subtract.dfy`). It
  compares lists regardless of order.
- **Kubernetes objects** (`Kube`, `kube.dfy`):
  - `KubeObject.from_dict` flattens list kinds and builds the kubectl
    composite kind;
  - `namespaced_name`.
- **image comparison** (`Images`, `images.dfy`):
  - `Image.parse`;
  - `iter_images`;
  - `get_differing_images`, which maps each image name to its source and
    target labels.

Supporting modules:

| module | file | contents |
|---|---|---|
| `Values` | `values.dfy` | the decoded-YAML value model |
| `Strings` | `strings.dfy` | `str(int)`, `lower`, `endswith`, `split`/`join` |
| `Glob` | `glob.dfy` | `fnmatchcase` for `*` and `?` |
| `Wrappers` | `wrappers.dfy` | `Option` |

Properties are proved in separate modules:

- `DiffProps` (`diff_props.dfy`);
- `SubtractionProps` (`list_subtract_props.dfy`);
- `KubeProps` (`kube_props.dfy`);
- `ImagesProps` (`images_props.dfy`).

They cover:

- the reflexivity and order-insensitivity that the repository's own tests
  promise;
- the exact outcome of the list subtraction;
- the recovery property;
- list flattening in `from_dict`;
- the exactness of the image merge once both lists are in name order, for
  one object and for the whole comparison.

Modelling choices:

- A decoded document is a `Value`: null, boolean, integer, string, list, or
  mapping.
  - A mapping keeps its entries in iteration order.
  - Python dictionaries have unique keys; `Values.WellFormed` states this
    where a property needs it.
- A Python generator becomes a finite sequence.
  - `from_dict` can stop part-way, either on a logged missing key or on an
    uncaught exception. It becomes a `Parsed` value: the objects yielded so
    far, plus whether it raised.
- Opaque callees become parameters:
  - the toleration checks (`cpus_equal` among them);
  - the unified-diff text of a multi-line record;
  - the iteration order of the frozenset of shared objects in
    `get_differing_images`.

Behaviours worth noting:

- The toleration table has only the two cpu paths
  (`kubedifflib/_diff.py:51-54`). It has no `creationTimestamp` entry.
- A missing key in `from_dict` is logged and ends the object's generator
  (`kubedifflib/_kube.py:68-70`). It is not raised.
- A core-group `apiVersion` such as `v1` gives a kind with a trailing dot
  (`Service.v1.`), because the reversed parts are padded with an empty group
  (`kubedifflib/_kube.py:60-64`, `KubeProps.CoreGroupKind`).
- An emptied container normalizes to null (`kubedifflib/_diff.py:109-110`).
  So `{"a": {"x": 1}}` against `{"a": {}}` gives one inequality at `.a`
  (`kubedifflib/_diff.py:95-103`), not a missing key `x` at `.a.x`
  (`DiffProps.EmptiedNestedMapping`).

## Model

| member | source | states |
|---|---|---|
| DiffEngine.Message | kubedifflib/_diff.py:57-67 | the length text starts with `Unequal lengths: `; a missing key or element is quoted and ends in `' missing`, and a missing key's text holds exactly the key between them; an inequality text holds the wanted value's rendering after its opening quote, then `' != '`, then the live value's rendering before its closing quote; a multi-line text starts with `Diff:` and a newline |
| DiffEngine.ToText | kubedifflib/_diff.py:33-37 | a record without a path is its bare message; any other record is its path, ": ", then its message, and when the path holds no ':' the first ':' of the text is the one after the path, so path and message read back apart |
| DiffEngine.BuiltinTolerations | kubedifflib/_diff.py:51-54 | two entries, both using the cpu check, each pattern a `*` followed by a wildcard-free suffix |
| DiffEngine.Normalize | kubedifflib/_diff.py:106-111 | an integer becomes its decimal string and a boolean `True` or `False`; the result never holds a number or an empty container; it is null exactly when the input is null or an empty list or mapping; strings, null and non-empty containers are unchanged |
| DiffEngine.Tolerated | kubedifflib/_diff.py:118-120 | a table applies exactly when some entry's pattern matches the path and that entry's check passes |
| DiffEngine.Diff | kubedifflib/_diff.py:114-138 | a passing toleration on the normalized values silences the path and everything below it; every record reported lies at or below the path compared |
| DiffEngine.DiffDicts | kubedifflib/_diff.py:95-103 | every record lies at or below the mapping's path |
| DiffEngine.MissingElements | kubedifflib/_diff.py:77-78 | one missing-element record per unmatched index, in order, at the list's path |
| DiffEngine.DiffLists | kubedifflib/_diff.py:70-78 | a length record comes first exactly when the lengths differ; every other record is a missing element at the list's path; the indices are in range and strictly increasing; index `i` is reported exactly when the greedy subtraction left wanted element `i` without a live match |
| DiffProps.DiffReflexive | kubedifflib/_diff.py:114-138 | comparing any well-formed value with itself reports nothing, whatever the toleration table |
| DiffProps.DictsReflexive | kubedifflib/_diff.py:95-103 | a mapping with unique keys compared with itself reports nothing |
| DiffProps.ListsReflexive | kubedifflib/tests/test_diff.py:11-14 | a list compared with itself reports nothing |
| DiffProps.KeyedLists | kubedifflib/_diff.py:70-78 | when element equality is equality of a key, two lists compare equal exactly when their keys are the same multiset |
| DiffProps.FlatEquivalent | kubedifflib/_diff.py:74-75 | for container-free values, the element equality of `diff_lists` holds exactly when the normalized values are equal |
| DiffProps.FlatLists | kubedifflib/_diff.py:70-78 | two lists of container-free values compare equal exactly when their normalized elements are the same multiset |
| DiffProps.ShuffledFlatList | kubedifflib/tests/test_diff.py:17-22 | a permutation of a list of scalars compares equal to it |
| DiffProps.NestedEquivalent | kubedifflib/_diff.py:74-75 | for lists of scalars, the element equality holds exactly when their normalized elements are the same multiset |
| DiffProps.ShuffledNestedList | kubedifflib/tests/test_diff.py:25-34 | a permutation of a list of lists of scalars compares equal to it |
| DiffProps.AddedItemsReported | kubedifflib/tests/test_diff.py:37-43 | a base padded with nulls against the base extended by as many non-null scalars gives exactly one record per added item |
| DiffProps.DictMissingKey | kubedifflib/_diff.py:95-100 | with unique wanted keys, a key is reported missing at the parent path exactly once if the live mapping lacks it, and never otherwise |
| DiffProps.DictsIgnoreLiveOnly | kubedifflib/_diff.py:95-103 | adding keys that only the live mapping has changes nothing |
| DiffProps.DictsEmpty | kubedifflib/_diff.py:95-103 | two mappings compare equal exactly when each wanted key is live and its value compares equal at `path.key` |
| DiffProps.ScalarDiff | kubedifflib/_diff.py:130-138 | untolerated container-free values give at most one record. There is none exactly when they normalize equal. The record is multi-line exactly when both are strings and the wanted one holds a newline |
| DiffProps.MismatchedShapes | kubedifflib/_diff.py:137-138 | a pair that is neither two mappings, two lists nor two strings, such as a mapping against a string, gives nothing when the normalized values are equal and otherwise exactly one inequality record at the path; a container against a value of another shape is always that one record |
| DiffProps.IntDiff | kubedifflib/_diff.py:106-108 | two integers differ exactly when they are different numbers; an integer never differs from its own decimal string |
| DiffProps.EmptiedContainer | kubedifflib/_diff.py:109-110 | a non-empty container against null or an empty container is a single inequality against null |
| DiffProps.TwoTolerations | kubedifflib/_diff.py:118-120 | a two-entry table applies exactly when either entry applies |
| DiffProps.BuiltinTolerated | kubedifflib/_diff.py:51-54 | the built-in table applies exactly at paths ending in `.resources.requests.cpu` or `.resources.limits.cpu`, and only when the cpu check passes |
| DiffProps.BuiltinQuietAtRoot | kubedifflib/_diff.py:51-54 | the built-in table never applies at the empty path used by the element equality |
| DiffProps.LengthMessageReadback | kubedifflib/_diff.py:57-58 | after `Unequal lengths: ` the text holds a decimal number, ` != ` and another decimal number, and they read back as the wanted and the live length |
| DiffProps.ElementMessageReadback | kubedifflib/_diff.py:77-78 | between `'element [` and `]' missing` the text holds a decimal number that reads back as the index |
| DiffProps.BoolDiff | kubedifflib/_diff.py:106-108 | a boolean never differs from its Python name as a string; two booleans differ exactly when they are different |
| DiffProps.EquivalentReflexive | kubedifflib/_diff.py:74-75 | the element equality of `diff_lists` holds between any well-formed value and itself |
| DiffProps.EmptiedNestedMapping | kubedifflib/_diff.py:106-124 | `{"a": {"x": 1}}` against `{"a": {}}` gives exactly one inequality at `.a` against null |
| Glob.LiteralMatch | kubedifflib/_diff.py:119 | a wildcard-free pattern matches exactly the string it spells |
| Glob.StarSuffixMatch | kubedifflib/_diff.py:119 | `*` followed by a literal matches exactly the strings that end with the literal |
| Subtraction.FirstFree | kubedifflib/_diff.py:85-90 | the slot found is unconsumed and equal; every slot skipped before it is consumed or unequal; no slot is found only when every slot is consumed or unequal |
| Subtraction.Run | kubedifflib/_diff.py:83-92 | after `n` elements, one slot entry per element; the unmatched indices are below `n` and strictly increasing |
| Subtraction.RunConsumed | kubedifflib/_diff.py:83-89 | the matched set is exactly the slots some element consumed |
| Subtraction.RunMissing | kubedifflib/_diff.py:91-92 | an element is reported exactly when it consumed no slot |
| Subtraction.RunSlotsEqual | kubedifflib/_diff.py:88-89 | every consumed slot is equal to the element that consumed it |
| Subtraction.RunSlotsDistinct | kubedifflib/_diff.py:86-89 | no slot is consumed twice |
| Subtraction.RunGreedyFirst | kubedifflib/_diff.py:85-90 | every equal slot an element passed over (every equal slot, when it found none) was consumed by an earlier element |
| Subtraction.ListSubtract | kubedifflib/_diff.py:81-92 | the unmatched indices are in range and strictly increasing |
| Subtraction.Pick | kubedifflib/tests/test_diff.py:58 | the elements at the given indices, in order |
| SubtractionProps.RunSelf | kubedifflib/_diff.py:83-92 | against itself, each element consumes its own slot, so nothing is missing |
| SubtractionProps.SubtractSelf | kubedifflib/tests/test_diff.py:46-48 | a list subtracted from itself leaves nothing, under any reflexive equality |
| SubtractionProps.SubtractTransfer | kubedifflib/_diff.py:81-92 | the result depends only on the outcomes of the pairwise equality tests |
| SubtractionProps.SubtractSame | kubedifflib/_diff.py:81-92 | under `operator.eq`, index `i` is reported exactly when `ys` holds no more copies of `xs[i]` than `xs[..i]` does |
| SubtractionProps.SubtractSameEmpty | kubedifflib/_diff.py:81-92 | under `operator.eq` nothing is reported exactly when the multiset of `xs` is contained in that of `ys` |
| SubtractionProps.SubtractPermutation | kubedifflib/tests/test_diff.py:49-51 | a permutation leaves nothing over |
| SubtractionProps.SubtractRecover | kubedifflib/tests/test_diff.py:54-59 | appending the unmatched elements to `ys` leaves nothing unmatched |
| SubtractionProps.SubtractPadded | kubedifflib/tests/test_diff.py:37-43 | a shared base, padded on one side with values absent from the other, leaves exactly the padding's indices unmatched, one per padding value |
| Strings.IntToStringRoundTrip | kubedifflib/_diff.py:107-108 | the decimal form of an integer reads back as that integer |
| Strings.IntToStringInjective | kubedifflib/_diff.py:107-108 | different integers have different decimal forms |
| Strings.JoinSplit | kubedifflib/_kube.py:60-64 | joining the pieces of a split with the same separator restores the string |
| Strings.SplitJoin | kubedifflib/_kube.py:60-64 | splitting a join of separator-free pieces gives the pieces back |
| Values.Lookup | kubedifflib/_kube.py:50 | a lookup fails exactly when the key is absent; a value found is stored under the key |
| Kube.CompositeKind | kubedifflib/_kube.py:60-64 | the composite kind starts with the kind and a dot |
| Kube.FromDict | kubedifflib/_kube.py:41-70 | every object yielded is described by its own document: the kind, api version and name are present and of the right shape, and the namespace defaults to the given one; a non-mapping raises |
| Kube.SingleObject | kubedifflib/_kube.py:60-67 | a non-list document yields at most one object; one yielded is described by that document, holds it whole, and nothing was raised |
| Kube.FromIterable | kubedifflib/_kube.py:52-54 | every object yielded from the items is described by its own item document |
| Kube.FromItems | kubedifflib/_kube.py:52-54 | every object yielded from a list of items is described by its own document |
| Kube.Then | kubedifflib/_kube.py:52-54 | the chain raises exactly when either part raised; the first part's objects always come first; after a raise nothing more is yielded, and otherwise the second part's objects follow the first's |
| Kube.NamespacedName | kubedifflib/_kube.py:72-74 | when the namespace has no '/', the first '/' separates the namespace from the name, so both can be read back |
| KubeProps.CoreGroupKind | kubedifflib/_kube.py:60-64 | a core-group version `v` gives `kind.v.`, with an empty group |
| KubeProps.GroupVersionKind | kubedifflib/_kube.py:60-64 | `group/version` gives `kind.version.group` |
| KubeProps.SingleOutcome | kubedifflib/_kube.py:49-70 | a non-list mapping yields one object when its keys are complete and well shaped, raises on a wrongly shaped value, and yields nothing otherwise |
| KubeProps.FromItemsAppend | kubedifflib/_kube.py:52-54 | walking two lists of items is walking the first, then the second if the first did not raise |
| KubeProps.ThenAssociative | kubedifflib/_kube.py:52-54 | chaining generators is associative |
| KubeProps.SingleYieldsOne | kubedifflib/_kube.py:60-67 | a complete single document yields exactly one object holding it |
| KubeProps.ItemsOfSingles | kubedifflib/_kube.py:52-54 | items that are all complete single documents yield exactly those documents, in order, without raising |
| KubeProps.SkippedItem | kubedifflib/_kube.py:52-54 | an item that yields nothing and does not raise is skipped: the items before and after it are read as if it were absent |
| KubeProps.SkippedAmongSingles | kubedifflib/_kube.py:49-70 | among complete single documents, an item missing a key is logged and skipped, and its siblings on both sides are still yielded, in order, without a raise |
| KubeProps.ListFlattening | kubedifflib/_kube.py:51-54 | a list kind whose items are all complete single documents yields exactly its items' documents, in order |
| KubeProps.ListKindSuffix | kubedifflib/_kube.py:51 | every kind ending in `List` is a list kind |
| KubeProps.ListKindLastFour | kubedifflib/_kube.py:51 | a kind is a list kind exactly when its last four characters, lower-cased, spell `list` |
| Images.Parse | kubedifflib/_images.py:47-54 | the name has no ':'; with a ':' the name, ':' and label restore the reference; without one the label is `latest` |
| Images.LexLessTransitive | kubedifflib/_images.py:80 | Python's string `<` is transitive |
| Images.LexLessTotal | kubedifflib/_images.py:80 | any two different strings are ordered one way or the other |
| Images.InsertSorted | kubedifflib/_images.py:72-73 | inserting into a list in key order keeps it in key order |
| Images.SortBy | kubedifflib/_images.py:72-73 | a permutation of the input, in key order |
| Images.IterImages | kubedifflib/_images.py:91-108 | every value yielded is stored under an `image` key somewhere in the document |
| Images.ParseAllPermutation | kubedifflib/_images.py:72-73 | parsing a permutation of the references gives a permutation of the images |
| Images.AllStrings | kubedifflib/_images.py:72-73 | the references as strings exactly when every image value is a string, as `parse` requires |
| Images.Merge | kubedifflib/_images.py:74-87 | every record pairs a source image and a target image with that name and the two different labels |
| Images.ObjectImagesAsWritten | kubedifflib/_images.py:72-73 | the images are available exactly when every image value is a string; they are the object's references put in string order and then parsed, so a permutation of the object's images |
| Images.ObjectImages | kubedifflib/_images.py:72-73 | the images are available exactly when every image value is a string; they are a permutation of the object's images, in name order |
| Images.ObjectChangesAsWritten | kubedifflib/_images.py:72-87 | a result exists exactly when both objects' image values are strings; every record pairs a source and a target image of the object that share the name and differ in label |
| Images.ObjectChanges | kubedifflib/_images.py:72-87 | the same, with both lists in name order |
| Images.Collect | kubedifflib/_images.py:71-78 | the loop raises exactly when some object raises; otherwise a name is recorded exactly when some object records it |
| Images.CollectRaises | kubedifflib/_images.py:71-73 | the loop raises exactly when some shared object holds a non-string image value |
| Images.CollectFromLast | kubedifflib/_images.py:71-83 | a recorded name holds the labels that the last object in the order recording it gave |
| Images.CollectWitnessed | kubedifflib/_images.py:71-87 | when each object's comparison pairs only that object's images, every record of the loop is witnessed by the images of some shared object |
| Images.GetDifferingImagesAsWritten | kubedifflib/_images.py:57-88 | raises exactly when some shared object holds a non-string image value; otherwise every name returned maps to the labels of a source and a target image of one shared object that share the name and differ in label |
| Images.GetDifferingImages | kubedifflib/_images.py:57-88 | raises exactly when `GetDifferingImagesAsWritten` does; every name returned maps to the labels of a source and a target image of one shared object that share the name and differ in label |
| ImagesProps.ParseRoundTrip | kubedifflib/_images.py:47-54 | a name without ':' and any label parse back from `name:label` |
| ImagesProps.IterImagesExact | kubedifflib/_images.py:91-108 | a value is yielded exactly when it is stored under an `image` key somewhere in the document, not inside another image value |
| ImagesProps.LexLessAsymmetric | kubedifflib/_images.py:80 | no two strings are each less than the other |
| ImagesProps.SortByKeysDistinct | kubedifflib/_images.py:72-73 | sorting keeps keys distinct |
| ImagesProps.MergeComplete | kubedifflib/_images.py:74-87 | over lists strictly in name order, every same-name pair with different labels is recorded with its labels |
| ImagesProps.SortedMergeSound | kubedifflib/_images.py:72-87 | after sorting by name, every record is witnessed by the unsorted lists |
| ImagesProps.SortedMergeComplete | kubedifflib/_images.py:72-87 | after sorting lists with distinct names, every same-name pair with different labels is recorded |
| ImagesProps.ObjectChangesExact | kubedifflib/_images.py:72-87 | for objects whose images have distinct names, the corrected comparison records exactly the names whose labels differ, with both labels |
| ImagesProps.ObjectRecords | kubedifflib/_images.py:72-87 | when no object lists an image name twice, one object's corrected comparison records a name exactly when that object's labels for it differ |
| ImagesProps.DifferingImagesExact | kubedifflib/_images.py:57-88 | when no object lists an image name twice, a name is returned exactly when some shared object has different labels for it, and its labels are those of the last such object in the order |
| ImagesProps.CollectLaterWins | kubedifflib/_images.py:71-78 | a name's final record comes from the last object that records it |
| ImagesProps.SortOrderMissesChange | kubedifflib/_images.py:72-87 | source images `a:1`, `a-b:1` against target `a:2` record nothing as written; the corrected comparison records `a: (1, 2)` |
| ImagesProps.DifferingImagesMissesChange | kubedifflib/_images.py:57-88 | the same example through the whole function: an empty result as written, `{a: (1, 2)}` corrected |
| ImagesProps.AsWrittenMissesChange | kubedifflib/_images.py:57-88 | there are environments sharing one object for which the function as written reports no change while the name-ordered comparison reports `a` changing from `1` to `2` |

## Left out

- `cpus_equal` and floating point: a toleration check is an opaque function parameter, and number values are integers and booleans only.
- Floats in `normalize`: Python's `str(float)` is not modelled.
- `fnmatchcase` bracket classes (`[...]`): only `*`, `?` and literal characters are modelled; the patterns in the table use only `*`.
- The body of a multi-line record: the unified diff of two texts (`difflib`) is supplied as a function parameter.
- `repr` escape sequences and the `%` formatting of numbers other than integers are not modelled; `Values.Render` covers strings, null, booleans, integers and containers.
- Values.Render: Python 2 shows a long integer inside a container with an `L` suffix and a non-ASCII string inside a container with a `u''` prefix; the model shows neither.
- DiffEngine.ToText: `to_text` applies `%` formatting to every template (`kubedifflib/_diff.py:34`), including the retrieval failure, whose template is kubectl's own output (`kubedifflib/_diff.py:161`). There a `%%` prints as `%`, and a lone `%` (as in `disk 100% full`) raises `TypeError`. The model returns that output unchanged.
- Values.Value: mapping keys are strings only, while PyYAML decodes keys such as `80` or `on` as integers or booleans, which `diff_dicts` accepts (`kubedifflib/_diff.py:95-100`); YAML timestamps, which PyYAML decodes from unquoted dates, are not values of the model either.
- `str.lower` is ASCII-only in the model.
- Exceptions raised by a toleration check are not modelled; a check is a total function.
- The iteration order of the shared-object set in `get_differing_images` is a parameter (`order`), since Python leaves it unspecified.
- Kube.NamespacedName: stated only when the namespace contains no '/'; a namespace with a '/' makes the string ambiguous.
- Images.Merge: states soundness only; completeness needs lists strictly in name order and is `ImagesProps.MergeComplete`.
- ImagesProps.ObjectChangesExact: requires the image names within one object to be distinct; with repeated names a later record for a name replaces an earlier one.
- GetDifferingImages: its contract states soundness only. Completeness, and that the labels come from the last object that differs, need each object to list each image name once, and are `ImagesProps.DifferingImagesExact`.
- GetDifferingImagesAsWritten: states soundness only; as written it is not complete (`ImagesProps.AsWrittenMissesChange`).
- Reading files, the cluster and `kubectl` (`check_file`, `check_files`, `iter_files`, `get_from_cluster`), the printers, and `load_config` are I/O and are not part of this model; the model takes the object mappings as inputs instead. On reading `kubedifflib/_images.py:32-33` (not executed), `load_config` keys its result by the generators `from_dict` returns rather than by objects, which would leave the shared-object set of `get_differing_images` always empty.
- The tests' promise that `diff_lists` does not mutate its inputs holds trivially: every value here is immutable.
- The `prom-run` program, `setup.py` and the package `__init__` are not part of this model.

## Findings

| source | as written | input that shows it | evidently intended | confidence | as-written member | corrected member |
|---|---|---|---|---|---|---|
| kubedifflib/_images.py:72-73 | the image references are sorted as whole `name:label` strings, then merged by name; since '-' sorts before ':', the lists are not in name order and the merge skips matches | source object images `a:1`, `a-b:1`; target `a:2` | the merge reports `a` changing from `1` to `2`; the lists should be sorted by image name | not executed | ImagesProps.AsWrittenMissesChange | Images.GetDifferingImages |

The corrected comparison sorts each object's parsed images by name before the
merge. For one object whose images have distinct names, `ImagesProps.ObjectChangesExact`
proves what the merge evidently intends: a name is recorded exactly when a
source and a target image share it with different labels, and the record
holds both labels. `ImagesProps.DifferingImagesExact` lifts this to the whole
comparison: a name is returned exactly when some shared object has different
labels for it, with the labels of the last such object.
