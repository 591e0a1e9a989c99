# trict: path-addressed nested dictionaries, modelled in Dafny

`trict` wraps nested string-keyed dictionaries so that a value deep inside can be
read, written and deleted through one key: either a list of keys (`['a', 'b', 'c']`)
or a string split on the container's separator (`'a.b.c'`). Around that engine sit
tree utilities: setting a path (creating missing levels), deleting one, enumerating
leaves and all nodes in pre-order, listing every key, and flattening a tree into a
one-level dictionary keyed by joined paths. The repository holds two generations:

- `trict/util.py` with the `Trict` class of `trict/trict.py`;
- the earlier `util.py` with the `FancyDict` class of `fancydict.py`. Its
  `flatten_dict` can stop at a given depth, and its `traverse` yields leaves under
  `.`-joined string keys.

The model is functional:

- A tree is `Node<V> = Leaf(value) | Map(entries)`.
- A Python dict is an ordered association list (module `Dicts`):
  - assigning keeps the position of a key already present and appends a new one;
  - `del` cuts the entry out;
  - `update` assigns entry by entry.
- Python exceptions are the error side of a `Result`. Non-strict lookups answer an
  `Option`.
- Generators become the sequences they would yield.
- Methods that mutate the container return the new container. An operation that can
  raise after it has already changed the container (`FancyDict.map_leaves`) returns
  an `Outcome`: the state reached together with the exception raised, if any.

Modules, in dependency order:

- `Results`: `Result`, `Option` and the error kinds.
- `Dicts`: ordered dicts.
- `Strings`: `in`, `str.join`, `str.split`.
- `Tree`: nodes, chained indexing, well-formedness.
- `TrictUtil`: trict/util.py.
- `PathUpdates`: what set and delete do to every path.
- `Traversals`: `leaves`, `traverse` and `iter_keys`.
- `PathKeys`: separator checks and `key_to_list`.
- `Flattening`: trict/util.py `flatten_dict`.
- `LeafMapping`: mapping over leaves by setting each one.
- `LegacyUtil`: util.py.
- `TrictDict`: trict/trict.py.
- `FancyDicts`: fancydict.py.

## Model

| member | source | states |
|---|---|---|
| Dicts.Lookup | trict/util.py:29 | A key is found exactly when it is among the dict's keys, and what is found is the value stored beside it. |
| Dicts.Assign | trict/util.py:26 | After `d[k] = x`, `k` holds `x`. Every other key holds what it held. A present key keeps the key order, and a new key is appended. Distinct keys stay distinct. |
| Dicts.Remove | trict/util.py:37 | Removing a key from a dict with distinct keys makes it absent. Every other key keeps its value, and one entry fewer remains when the key was present. |
| Dicts.Del | trict/util.py:37 | `del d[k]` raises KeyError exactly when `k` is absent. Otherwise `k` is gone afterwards and keys stay distinct. |
| Dicts.UpdateFresh | trict/util.py:75 | Updating with distinct keys, none already present, appends the entries in order. |
| Dicts.UpdateKeys | util.py:77 | After `update`, the keys are exactly those of either dict. |
| Tree.Descend | trict/trict.py:23 | Chained indexing fails only on a non-empty path, and only with KeyError (a missing key) or TypeError (indexing into a leaf). |
| Tree.DescendConcat | trict/trict.py:23 | Indexing along `p + q` is indexing along `p`, then along `q` from there. |
| Tree.MapTree | trict/trict.py:58-60 | Mapping a function over the leaves keeps the number of entries and every key in its place. |
| Tree.MapTreeAt | trict/trict.py:58-60 | The i-th entry of the mapped dict is the i-th key with its value mapped. |
| TrictUtil.RecursiveSet | trict/util.py:4-33 | An empty path raises IndexError, and any other failure is TypeError from indexing into a leaf. A one-key path into a mapping always succeeds. On success the result is a mapping, indexing it along the path returns the value set, and its top-level keys are the old ones, with the first path key appended when it was new. |
| PathUpdates.SetSucceedsIff | trict/util.py:25-33 | Setting succeeds exactly when the path is non-empty and no proper prefix of it leads to a leaf. Missing levels are created, never refused. |
| PathUpdates.SetBelow | trict/util.py:25-33 | After a set, any path through the set path reads from the new value. Get of the set path itself returns the value. |
| PathUpdates.SetFrame | trict/util.py:25-33 | A set leaves every path that branches away from the set path reading as before. |
| PathUpdates.SetWellFormed | trict/util.py:25-33 | Setting a well-formed value into a tree with distinct keys at every level keeps them distinct. |
| TrictUtil.RecursiveDelete | trict/util.py:35-40 | An empty path raises IndexError. Otherwise delete succeeds exactly when indexing along the path succeeds, and fails with that indexing's error. |
| PathUpdates.DeleteRemoves | trict/util.py:35-40 | After a delete, indexing the deleted path raises KeyError. |
| PathUpdates.DeleteBelow | trict/util.py:35-40 | After a delete, every path through the deleted one raises KeyError. |
| PathUpdates.DeleteFrame | trict/util.py:35-40 | A delete leaves every path that branches away from it reading as before. |
| PathUpdates.DeleteKeepsParent | trict/util.py:35-40 | The parent of the deleted key is a mapping before the delete. Afterwards it is still there, minus exactly that key: a parent left empty is not pruned. |
| PathUpdates.DeleteTwiceFails | trict/util.py:35-40 | Deleting the same path a second time raises KeyError. |
| PathUpdates.DeleteWellFormed | trict/util.py:35-40 | Deleting keeps keys distinct at every level. |
| TrictUtil.FlattenDict | trict/util.py:42-76 | `flatten_dict` raises exactly when `check_keys` is on and some key on some leaf path contains the separator. The exception is ValueError. |
| Flattening.FlattenIsUpdate | trict/util.py:71-76 | When the loop completes, its result is the empty dict updated with every leaf under its joined path, in order. |
| Flattening.FlattenKeys | trict/util.py:71-76 | The keys of the flattened dict are exactly the joined leaf paths. |
| Flattening.FlattenExact | trict/util.py:42-76 | A well-formed tree with a one-character separator no key contains flattens without error. The result has exactly one entry per leaf, in `leaves` order. |
| Flattening.FlattenRoundTrip | trict/util.py:73-75 | Under the same conditions, splitting a flattened key at the separator gives a path that indexing follows to a leaf holding that entry's value. |
| Flattening.JoinedDistinct | trict/util.py:73-75 | With a one-character separator no key contains, distinct leaf paths join to distinct keys. |
| TrictUtil.IterKeys | trict/util.py:78-97 | `iter_keys`, defined by recursion over the dict; what it yields is stated by `Traversals.IterKeysAreLastKeys` and `PathKeys.IterKeysSepFree`. |
| Traversals.IterKeysAreLastKeys | trict/util.py:78-97 | `iter_keys` yields the last key of each path that `traverse` yields, in the same order. |
| PathKeys.IterKeysSepFree | trict/util.py:78-97 | No key that `iter_keys` yields contains the separator exactly when no key at any level of the tree does. |
| TrictUtil.Leaves | trict/util.py:99-126 | `leaves`, defined by recursion over the dict; what it yields is stated by `Traversals.LeavesSound`, `Traversals.LeavesComplete` and `Traversals.LeavesOfTraverse`. |
| Traversals.LeavesOfTraverse | trict/util.py:99-126 | `leaves` is `traverse` filtered to the entries holding a leaf, in order. |
| Traversals.LeavesSound | trict/util.py:99-126 | Every path `leaves` yields is non-empty and indexes the tree to the leaf yielded with it. No path is yielded twice. |
| Traversals.LeavesComplete | trict/util.py:99-126 | Every non-empty path that indexes the tree to a leaf is yielded by `leaves`, with that leaf. |
| TrictUtil.Traverse | trict/util.py:128-178 | `traverse` without `keys_only`; what it yields is stated by `Traversals.TraverseSound`, `Traversals.TraverseComplete` and `Traversals.TraverseDistinct`. |
| TrictUtil.TraverseKeys | trict/util.py:128-178 | `traverse` with `keys_only`; `Traversals.KeysOfTraverse` states that it yields the paths `traverse` yields. |
| Traversals.KeysOfTraverse | trict/util.py:128-178 | `traverse` with `keys_only` yields exactly the paths of the pairs it yields without. |
| Traversals.TraverseSound | trict/util.py:128-178 | Every path `traverse` yields extends `prev`. The part after `prev` indexes the tree to the node yielded with it. |
| Traversals.TraverseComplete | trict/util.py:128-178 | Every non-empty path that indexes the tree is yielded by `traverse` with the node it reaches: mappings as well as leaves. |
| Traversals.TraverseDistinct | trict/util.py:128-178 | `traverse` on a tree with distinct keys yields no path twice. |
| Traversals.LeafEntriesDistinct | trict/util.py:121-126 | Filtering a traversal without repeated paths down to its leaves keeps the paths distinct. |
| Strings.Find | trict/trict.py:45 | The first occurrence of the separator fits in the string, and nothing before it matches. No occurrence means the separator is not contained at all. |
| Strings.Split | trict/trict.py:45 | `str.split` gives at least one piece. The pieces joined with the separator give the string back, and no piece contains the separator. |
| Strings.SplitJoin | trict/trict.py:45 | With a one-character separator, splitting the join of keys free of it returns those keys. |
| Strings.JoinInjective | trict/util.py:75 | With a one-character separator, two non-empty key lists free of it join to the same string exactly when they are equal. |
| Strings.SplitJoinNeedsOneChar | trict/trict.py:13-15 | With the two-character separator `..`, the keys `a.` and `.b` pass the separator check, but their join `a....b` splits into `a`, the empty key and `b`. |
| PathKeys.CheckSep | trict/trict.py:11-15 | A separator that is not a string raises TypeError. Otherwise ValueError is raised exactly when some key at some level contains it. Passing the check means no key at any level contains the separator. |
| PathKeys.KeyToList | trict/trict.py:41-46 | A list key passes through unchanged, and any other non-string key raises TypeError. A string key raises ValueError exactly when the separator is empty. Otherwise it gives a non-empty list of separator-free keys that join back to the string. |
| PathKeys.KeyToListOfJoin | trict/trict.py:41-46 | With a one-character separator, the string form of a separator-free path converts to that path. |
| PathKeys.KeyToListOfKey | trict/trict.py:41-46 | A string without the separator converts to the one-key path of itself. |
| TrictDict.New | trict/trict.py:10-18 | A failing separator check makes construction raise that check's error. A constructed trict keeps the separator and `strict_get`. |
| TrictDict.NewCopies | trict/trict.py:10-18 | When the checks pass, the trict holds exactly the initial data, in its order. |
| TrictDict.PopulateAppends | trict/trict.py:18 | Storing the initial entries one by one through `__setitem__` appends them in order. |
| TrictDict.GetItem | trict/trict.py:20-29 | A key that does not convert raises that conversion's error. A value found is what indexing along the converted path reaches. `None` is only answered without `strict_get`, and KeyError only with it. |
| TrictDict.GetEmptyPath | trict/trict.py:20-23 | The empty list key reads the whole data. |
| TrictDict.GetMissing | trict/trict.py:20-29 | Get answers `None` exactly when not strict and the path is missing. It raises KeyError exactly when strict and the path is missing. |
| TrictDict.KeyFormsAgree | trict/trict.py:41-46 | With a one-character separator, get, set and delete by `'a.b.c'` do the same as by `['a', 'b', 'c']`. |
| TrictDict.SetItem | trict/trict.py:31-34 | A key that does not convert raises that conversion's error. The empty list key raises IndexError. The separator and `strict_get` are kept. |
| TrictDict.SetSucceeds | trict/trict.py:31-34 | Setting succeeds exactly when the path is non-empty and no proper prefix of it reaches a leaf. |
| TrictDict.SetThenGet | trict/trict.py:31-34 | After a successful set, getting the same key returns the value. |
| TrictDict.SetFrameGet | trict/trict.py:31-34 | After a set, a key whose path branches away from the set one reads as before. |
| TrictDict.SetKeepsWellFormed | trict/trict.py:31-34 | Setting a well-formed value keeps keys distinct at every level. |
| TrictDict.DelItem | trict/trict.py:36-39 | A key that does not convert raises that conversion's error. The empty list key raises IndexError. The separator and `strict_get` are kept. |
| TrictDict.DelSucceeds | trict/trict.py:36-39 | Deleting succeeds exactly when getting the key finds a value. Otherwise it raises the error indexing raised. |
| TrictDict.DelThenGet | trict/trict.py:36-39 | After a delete, getting the key raises KeyError when strict and answers `None` otherwise. Deleting it again raises KeyError. |
| TrictDict.DelFrameGet | trict/trict.py:36-39 | After a delete, a key whose path branches away from the deleted one reads as before. |
| TrictDict.LeavesAreLeafGets | trict/trict.py:62-64 | The leaves of a trict are exactly the non-empty paths whose get finds a leaf, with that leaf, and none is repeated. |
| TrictDict.FlattenAsWritten | trict/trict.py:48-51 | `flatten` as written; `TrictDict.FlattenAsWrittenFails` states that it always raises TypeError. |
| TrictDict.FlattenAsWrittenFails | trict/trict.py:48-51 | `flatten` as written raises TypeError for every trict and depth. |
| TrictDict.FlattenThenGet | trict/trict.py:48-51 | With a one-character separator, the corrected `flatten` of a well-formed trict succeeds with one entry per leaf. Getting each flattened key from the trict finds that entry's value. |
| TrictDict.TraverseAsWritten | trict/trict.py:53-56 | `traverse` as written; `TrictDict.TraverseAsWrittenFails` states that it always raises NameError. |
| TrictDict.TraverseAsWrittenFails | trict/trict.py:53-56 | `traverse` as written raises NameError for every trict. |
| TrictDict.TraverseIsGets | trict/trict.py:53-56 | The corrected `traverse` yields exactly the non-empty paths whose get finds something, with what it finds, and repeats none. |
| TrictDict.MapLeavesAsWritten | trict/trict.py:58-60 | `map_leaves` as written; `TrictDict.MapLeavesAsWrittenFails` states that it always raises NameError. |
| TrictDict.MapLeavesAsWrittenFails | trict/trict.py:58-60 | `map_leaves` as written raises NameError for every trict and function. |
| TrictDict.MapLeaves | trict/trict.py:58-60 | The corrected `map_leaves` keeps the separator and `strict_get`. |
| TrictDict.MapLeavesMaps | trict/trict.py:58-60 | The corrected `map_leaves` on a well-formed trict succeeds and maps the function over every leaf. The shape and the key order are unchanged. |
| LeafMapping.ApplyLeaves | trict/trict.py:58-60 | Setting no leaves changes nothing. Setting at least one leaves a mapping. |
| LeafMapping.MapLeavesIsMapTree | trict/trict.py:58-60 | Setting `f(v)` back under the path of every leaf `v`, in `leaves` order, succeeds on a well-formed tree and equals mapping `f` over the leaves in place. |
| TrictDict.FirstAnswer | trict/trict.py:80-87 | KeyError is only raised when strict. Any answer other than the final fallback is one of the candidates' answers. |
| TrictDict.FirstAnswerIs | trict/trict.py:80-87 | The answer is `x` exactly when `x` is the first candidate answer that is not KeyError, or when every candidate raised KeyError and `x` is the fallback (KeyError when strict, `None` otherwise). |
| TrictDict.GetByList | trict/trict.py:66-87 | KeyError is only raised when strict. A value returned is what getting one of the candidates returns. |
| TrictDict.GetByListIs | trict/trict.py:66-87 | `get_by_list` answers the first candidate lookup that does not raise KeyError. It falls back to KeyError (strict) or `None` when every lookup raises KeyError. |
| TrictDict.GetByListNonStrictFirstOnly | trict/trict.py:80-84 | Without `strict_get`, `get_by_list` answers whatever the first candidate's get answers, `None` included. |
| TrictDict.GetByListNonStrictMissesLaterKey | trict/trict.py:80-87 | On `{'a': 1}` without `strict_get`, the candidates `['b']`, `['a']` give `None`, while the corrected lookup finds 1. |
| TrictDict.GetByListFixed | trict/trict.py:66-87 | KeyError is only raised when strict. A value returned is what a strict get of one of the candidates returns. |
| TrictDict.GetByListFixedFinds | trict/trict.py:66-87 | The corrected lookup answers a value exactly when that is the first candidate found, in either mode. It answers `None` exactly when not strict and no candidate is found. When strict, it is `get_by_list` as written. |
| TrictDict.GetByListStrictAgrees | trict/trict.py:66-87 | In strict mode `get_by_list` as written is the corrected lookup. |
| TrictDict.Comprehension | trict/trict.py:113 | The comprehension raises exactly when some mapper entry's lookup raises. |
| TrictDict.ComprehensionAppends | trict/trict.py:113 | For a mapper with distinct keys whose lookups succeed, the comprehension appends one entry per mapper key, in order, holding its answer. |
| TrictDict.MapWithDict | trict/trict.py:89-113 | `map_with_dict` raises exactly when `get_by_list` of some mapper entry's candidates raises. |
| TrictDict.MapWithDictEntries | trict/trict.py:89-113 | On success the result has exactly the mapper's keys, in the mapper's order. Each holds what `get_by_list` answers for its candidates. |
| TrictDict.MapWithDictFixed | trict/trict.py:89-113 | The corrected `map_with_dict` raises exactly when the corrected lookup of some mapper entry's candidates raises. |
| TrictDict.MapWithDictFixedEntries | trict/trict.py:89-113 | On success the corrected `map_with_dict` has exactly the mapper's keys, in order. Each holds what the corrected lookup finds for its candidates. |
| TrictDict.MapWithDictStrictAgrees | trict/trict.py:89-113 | In strict mode `map_with_dict` as written and the corrected one give the same result. |
| TrictDict.MapWithDictNonStrictMisses | trict/trict.py:89-113 | Not strict, `{'a': 1}` with the mapper `{'x': [['b'], ['a']]}` gives `{'x': None}` as written, and `{'x': 1}` when corrected. |
| LegacyUtil.Pop | util.py:76-81 | `d.pop(k)` raises KeyError exactly when `k` is absent. Otherwise it returns the value stored under `k` and a dict one entry shorter in which every other key holds what it held. With distinct keys, `k` is gone and the keys stay distinct. |
| LegacyUtil.FlattenToDepth | util.py:36-84 | `flatten_dict` with a depth limit; its results are stated by `LegacyUtil.FlattenShallow` and `LegacyUtil.FlattenFull`. |
| LegacyUtil.FlattenShallow | util.py:36-84 | With `max_depth` at most 0, `flatten_dict` returns the dict unchanged. |
| LegacyUtil.FlattenFull | util.py:36-84 | With a one-character separator no key contains and a depth reaching every mapping, the top-level leaves stay in place. Every top-level mapping is replaced by its leaves under their joined paths, appended in order. Empty mappings vanish. |
| LegacyUtil.TraverseAsWritten | util.py:107-136 | `traverse` as written; `LegacyUtil.TraverseIgnoresSep`, `LegacyUtil.TraverseDotLeaves` and `LegacyUtil.TraverseSepIgnored` state what it yields. |
| LegacyUtil.TraverseSep | util.py:107-136 | `traverse` passing the separator down; `LegacyUtil.TraverseSepJoins` and `LegacyUtil.TraverseSepLeaves` state what it yields. |
| LegacyUtil.TraverseDefaultSep | util.py:107-136 | With the default separator `.`, `traverse` as written and the version that passes the separator down yield the same pairs. |
| LegacyUtil.TraverseIgnoresSep | util.py:131-134 | `traverse` as written yields the same pairs whatever separator it is given: those of the `.` traversal. |
| LegacyUtil.TraverseSepJoins | util.py:107-136 | Below a non-empty prefix path, the corrected `traverse` yields each leaf under its full path joined with the separator. |
| LegacyUtil.TraverseSepLeaves | util.py:107-136 | When no top-level key is empty, the corrected `traverse` yields the leaves in order, each under its path joined with the separator. |
| LegacyUtil.TraverseDotLeaves | util.py:107-136 | When no top-level key is empty, `traverse` as written yields the leaves in order, each under its `.`-joined path. |
| LegacyUtil.TraverseSepIgnored | util.py:131-134 | For `{k: {k2: x}}` and a separator other than `.`, `traverse` as written yields `k.k2`, while the corrected one yields `k`, the separator and `k2` joined. The two keys differ. |
| FancyDicts.New | fancydict.py:7-14 | A failing separator check makes construction raise that check's error. A constructed FancyDict keeps the separator. |
| FancyDicts.NewCopies | fancydict.py:7-14 | When the checks pass, the FancyDict holds exactly the initial data, in its order. |
| FancyDicts.PopulateAppends | fancydict.py:14 | Storing the initial entries one by one through `__setitem__` appends them in order. |
| FancyDicts.GetItemAsWritten | fancydict.py:16-28 | A key that does not convert raises that conversion's error. A value returned is what indexing reaches. KeyError is never raised. |
| FancyDicts.GetMissingAsWritten | fancydict.py:21-28 | As written, get raises AttributeError exactly when the path is missing, whatever `strict_get` was given. |
| FancyDicts.GetMissingFixed | fancydict.py:21-28 | The corrected get raises KeyError when strict and answers `None` otherwise, exactly when the path is missing. |
| FancyDicts.GetItem | fancydict.py:16-28 | The corrected get raises a conversion error for a key that does not convert. A value found is what indexing reaches, and `None` is only answered without `strict_get`. |
| FancyDicts.GetAgrees | fancydict.py:16-28 | As written and corrected, get finds the same values and raises TypeError for the same keys. |
| FancyDicts.SetItem | fancydict.py:30-35 | A key that does not convert raises that conversion's error. The empty list key raises IndexError. The separator is kept. |
| FancyDicts.SetByJoinedKey | fancydict.py:30-35 | Assigning under the separator-joined form of a non-empty path, free of a one-character separator, lands exactly where assigning under the path lands. |
| FancyDicts.SetSucceeds | fancydict.py:30-35 | Setting succeeds exactly when the path is non-empty and no proper prefix of it reaches a leaf. |
| FancyDicts.SetThenGet | fancydict.py:30-35 | After a successful set, getting the same key returns the value, both as written and corrected. |
| FancyDicts.SetFrameGet | fancydict.py:30-35 | After a set, a key whose path branches away from the set one reads as before, both as written and corrected. |
| FancyDicts.Flatten | fancydict.py:37-39 | `flatten(max_depth)`; `FancyDicts.FlattenDepths` states its result. |
| FancyDicts.FlattenDepths | fancydict.py:37-39 | With a one-character separator no key contains, `flatten` returns the data unchanged for a depth of 0 or less. For a depth reaching every mapping, it returns the top-level leaves followed by the nested leaves under joined keys. |
| FancyDicts.Traverse | fancydict.py:41-43 | `traverse()`; `FancyDicts.TraverseYields` states what it yields. |
| FancyDicts.TraverseYields | fancydict.py:41-43 | When no top-level key is empty, `traverse` yields every leaf under its `.`-joined path whatever the separator. The corrected one joins with the separator. |
| FancyDicts.SetAll | fancydict.py:45-47 | The assignment loop of `map_leaves`; `FancyDicts.SetAllApply` states that assigning each leaf under its joined key does what assigning under its path does. Its own contract: the separator is kept, and an empty list changes nothing. |
| FancyDicts.SetAllApply | fancydict.py:45-47 | Setting each leaf's joined key, with a one-character separator free of the paths, does what setting each path does. |
| FancyDicts.Walk | fancydict.py:45-47 | The iteration of `map_leaves` over the top-level entries; `FancyDicts.WalkMaps` and `FancyDicts.MapLeavesMaps` state that, with no empty top-level key, it maps every leaf in place. Its own contract: the separator is kept, and a walk that raises nothing keeps the number of top-level entries. |
| FancyDicts.MapLeavesAsWritten | fancydict.py:45-47 | `map_leaves` as written; `FancyDicts.MapLeavesDot` and `FancyDicts.MapLeavesAsWrittenGrows` state its outcome. |
| FancyDicts.MapLeaves | fancydict.py:45-47 | `map_leaves` over the corrected traversal; `FancyDicts.MapLeavesMaps` and `FancyDicts.MapLeavesNested` state its outcome. |
| FancyDicts.MapLeavesMaps | fancydict.py:45-47 | When no top-level key is empty, the corrected `map_leaves` on a well-formed tree with a one-character separator no key contains raises nothing and maps the function over every leaf in place. |
| FancyDicts.MapLeavesDot | fancydict.py:45-47 | With the separator `.` and no empty top-level key, `map_leaves` as written does the same. |
| FancyDicts.MapLeavesAsWrittenGrows | fancydict.py:45-47 | For `{k: {k2: x}}` with `k` non-empty and a one-character separator other than `.`, `map_leaves` as written adds the top-level key `k.k2` holding `f(x)`, then raises RuntimeError because the dict grew during iteration. |
| FancyDicts.MapLeavesNested | fancydict.py:45-47 | For the same tree, `k` non-empty, and any one-character separator, the corrected `map_leaves` maps `x` to `f(x)` in place and raises nothing. |
| FancyDicts.MapLeavesEmptyTopKey | util.py:131-136 | For `{'': {k2: x}}` with `k2` non-empty and free of a one-character separator, both `map_leaves` loops yield the leaf under `k2` alone, because util.py tests `prefix == ''` rather than the depth. `k2` becomes a new top-level key holding `f(x)`, and the iteration then raises RuntimeError. |

## Left out

- The `None` separator: `None in k` raises TypeError in the construction check, and `str.split(None)` splits on whitespace. Separators are strings. The empty string is kept: with any key it fails the construction check, and `key_to_list` then raises ValueError.
- Keys other than strings: `str(k)` and its separator check at util.py:70-73. Leaf values are a type parameter `V`; the model does not distinguish lists or strings as leaves, and indexing into any leaf raises TypeError.
- Aliasing and identity: trees are immutable values. UserDict's shallow copy of the initial data and the deep copy at util.py:68 therefore need no modelling, and no input is ever changed.
- Laziness: generators are modelled as the sequences they yield. The mutable default `prev=[]` is never mutated by the source, so it is the empty path.
- The API exercised only by the test suite: a per-call `strict=` argument, path-aware `__contains__`, `from_flat_dict`, `__repr__`. Inherited UserDict methods other than `__init__`'s per-key store are library code.
- Callables passed to `map_leaves` are total functions; one that raises is not modelled.
- The recursion limit: `max_depth` is an explicit parameter instead of `sys.getrecursionlimit()`, and deep trees never hit Python's recursion limit.
- TrictUtil.RecursiveSet: a failed set returns no tree. The source raises before it has mutated anything, because a missing level is only created once no later step can fail.
- LegacyUtil.FlattenFull: states the result only when the depth reaches every mapping and no key at any level contains the separator. Two cases are not characterised by a lemma: a mapping kept whole at an intermediate cut-off depth, and a key containing the separator, whose joined key can collide with another key, so that a value is silently overwritten, or a mapping already overwritten by a leaf makes the recursive call raise AttributeError. The definition covers both. `pop` cannot raise KeyError here: each turn pops its own key, which nothing has removed. That would take the non-string keys left out above.
- FancyDicts.FlattenDepths: like `LegacyUtil.FlattenFull`, only depths of 0 or less and depths reaching every mapping are characterised.
- FancyDicts.Walk: the pairs below one top-level entry are computed when the walk reaches that entry. The generator reads nested mappings lazily, so it would see its own earlier assignments inside the same entry, and it would raise RuntimeError when a nested mapping changes size. Neither effect is modelled; only the size check of the top-level dict is.
- FancyDicts.MapLeavesMaps: requires every top-level key to be non-empty. `traverse` at util.py:131-136 tests `prefix == ''` to decide whether to join, so below an empty top-level key the next level is not joined. `map_leaves` then assigns nested leaves as new top-level keys; `FancyDicts.MapLeavesEmptyTopKey` shows this on `{'': {k2: x}}`. Whether the empty key was meant to join as `.k2` is not evident from the source, so no corrected version is modelled.
- FancyDicts.MapLeavesAsWrittenGrows: shows the failure on one concrete shape (`{k: {k2: x}}`). For other shapes with a separator other than `.`, the as-written outcome is defined but not characterised.

## Findings

| source | as written | input that shows it | evidently intended | confidence | as-written member | corrected member |
|---|---|---|---|---|---|---|
| trict/trict.py:48-51 | `flatten` passes `max_depth` to `flatten_dict`, which takes no such parameter. | Any trict, `t.flatten()`: TypeError. | Call `flatten_dict(data, sep=key_sep)`, giving one entry per leaf under its joined path. | not executed | TrictDict.FlattenAsWrittenFails | TrictDict.FlattenThenGet |
| trict/trict.py:53-56 | `traverse` calls `traverse`, which is not imported from `trict/util.py` (lines 5-6). | Any trict, `list(t.traverse())`: NameError. | Delegate to `util.traverse`, yielding every node with its path. | not executed | TrictDict.TraverseAsWrittenFails | TrictDict.TraverseIsGets |
| trict/trict.py:58-60 | `map_leaves` iterates `self.traverse()`, which raises as above. | Any trict, `t.map_leaves(f)`: NameError. | Set `f(v)` under the path of every leaf `v`. | not executed | TrictDict.MapLeavesAsWrittenFails | TrictDict.MapLeavesMaps |
| trict/trict.py:80-87 | Without `strict_get`, `__getitem__` answers `None` instead of raising KeyError, so the loop returns at the first candidate. | `Trict({'a': 1}, strict_get=False).get_by_list([['b'], ['a']])` gives `None`. | The first candidate that is found, as the docstring says. `map_with_dict` inherits the difference (`TrictDict.MapWithDictNonStrictMisses`); `TrictDict.MapWithDictFixed` is built on the corrected lookup. | not executed | TrictDict.GetByListNonStrictMissesLaterKey | TrictDict.GetByListFixedFinds |
| fancydict.py:7-28 | `strict_get` is never stored, so looking up a missing path reads `self.strict_get` and raises AttributeError. | `FancyDict({'a': 1})['b']`: AttributeError. | KeyError when strict, `None` otherwise. | not executed | FancyDicts.GetMissingAsWritten | FancyDicts.GetMissingFixed |
| util.py:131-134 | The recursive call of `traverse` does not pass `sep` on, so nested keys are always joined with `.`. | `traverse({'a': {'b': 1}}, sep='/')` yields `('a.b', 1)`. | `('a/b', 1)`: the path joined with the given separator. | not executed | LegacyUtil.TraverseSepIgnored | LegacyUtil.TraverseSepLeaves |
| fancydict.py:45-47 | `map_leaves` sets back the `.`-joined key that `traverse` produced, which `__setitem__` splits on a different separator. | `FancyDict({'a': {'b': 1}}, key_sep='/').map_leaves(f)` adds top-level `'a.b'`, then raises RuntimeError. | `{'a': {'b': f(1)}}`. | not executed | FancyDicts.MapLeavesAsWrittenGrows | FancyDicts.MapLeavesMaps |
