/** The `FancyDict` class (fancydict.py), the earlier version of `Trict`, built on the
    helpers of `util.py`: the same key paths and separator checks, a `flatten` that
    can stop at a given depth, and a `traverse` and `map_leaves` over the leaves.
    Methods that raise before mutating return a `Result`; `map_leaves`, which can
    raise after it has already assigned, returns an `Outcome`. */
module FancyDicts {
  import opened Results
  import opened Dicts
  import opened Strings
  import opened Tree
  import opened TrictUtil
  import opened Traversals
  import opened PathUpdates
  import opened PathKeys
  import opened LeafMapping
  import opened Flattening
  import opened LegacyUtil
  import TrictDict

  /** The wrapped dict `data`, the separator, and the `strict_get` argument handed to
      `__init__`. The class never stores that argument (fancydict.py:13-14); it is
      kept here so that the corrected lookup can consult it. */
  datatype FancyDict<V> = FancyDict(data: Dict<Node<V>>, keySep: string, strictGet: bool)

  // ---------------------------------------------------------------------------
  // Construction and item access.

  /** `__init__` (fancydict.py:7-14): the separator checks, then `UserDict.__init__`,
      which stores each top-level entry through `__setitem__`. */
  function New<V>(initial: Dict<Node<V>>, sep: SepArg, strictGet: bool): (r: Result<FancyDict<V>>)
    ensures CheckSep(initial, sep).Err? ==> r == Err(CheckSep(initial, sep).error)
    ensures r.Ok? ==> sep.SepStr? && r.value.keySep == sep.s && r.value.strictGet == strictGet
  {
    var s :- CheckSep(initial, sep);
    Populate(FancyDict([], s, strictGet), initial)
  }

  /** The same fields seen as a `Trict`, whose item access `FancyDict` shares. */
  function AsTrict<V>(fd: FancyDict<V>): TrictDict.Trict<V> {
    TrictDict.Trict(fd.data, fd.keySep, fd.strictGet)
  }

  /** `self[k] = v` for each entry of `es` in order: the same loop as in `Trict`. */
  function Populate<V>(fd: FancyDict<V>, es: Dict<Node<V>>): (r: Result<FancyDict<V>>)
    ensures r.Ok? ==> r.value.keySep == fd.keySep && r.value.strictGet == fd.strictGet
  {
    var t :- TrictDict.Populate(AsTrict(fd), es);
    Ok(fd.(data := t.data))
  }

  /** Storing entries whose keys are new and free of the separator appends them. */
  lemma PopulateAppends<V>(fd: FancyDict<V>, es: Dict<Node<V>>)
    requires fd.keySep != "" && DistinctKeys(fd.data + es)
    requires forall i :: 0 <= i < |es| ==> !Contains(es[i].0, fd.keySep)
    ensures Populate(fd, es) == Ok(fd.(data := fd.data + es))
  {
    TrictDict.PopulateAppends(AsTrict(fd), es);
  }

  /** A construction that passes the separator checks holds exactly the initial dict. */
  lemma NewCopies<V>(initial: Dict<Node<V>>, sep: SepArg, strictGet: bool)
    requires DistinctKeys(initial) && CheckSep(initial, sep).Ok?
    ensures New(initial, sep, strictGet) == Ok(FancyDict(initial, CheckSep(initial, sep).value, strictGet))
  {
    var s := CheckSep(initial, sep).value;
    var fd: FancyDict<V> := FancyDict([], s, strictGet);
    if |initial| > 0 {
      assert !Contains(initial[0].0, s);
      assert s != "";
      assert fd.data + initial == initial;
      PopulateAppends(fd, initial);
    }
  }

  /** `__setitem__` (fancydict.py:30-35): the same code as `Trict.__setitem__`, the key
      made a path and the value stored through `recursive_set`. */
  function SetItem<V>(fd: FancyDict<V>, key: KeyArg, val: Node<V>): (r: Result<FancyDict<V>>)
    ensures KeyToList(key, fd.keySep).Err? ==> r == Err(KeyToList(key, fd.keySep).error)
    ensures key == ListKey([]) ==> r == Err(IndexError)
    ensures r.Ok? ==> r.value.keySep == fd.keySep && r.value.strictGet == fd.strictGet
  {
    var t :- TrictDict.SetItem(AsTrict(fd), key, val);
    Ok(fd.(data := t.data))
  }

  /** `__getitem__` as written (fancydict.py:16-28): the key becomes a path that is
      followed from the data; on KeyError the handler reads `self.strict_get`, which
      was never assigned, so AttributeError escapes instead. */
  function GetItemAsWritten<V>(fd: FancyDict<V>, key: KeyArg): (r: Result<Node<V>>)
    ensures KeyToList(key, fd.keySep).Err? ==> r == Err(KeyToList(key, fd.keySep).error)
    ensures r.Ok? ==> Descend(Map(fd.data), KeyToList(key, fd.keySep).value) == Ok(r.value)
    ensures r.Err? ==> r.error != KeyError
  {
    var path :- KeyToList(key, fd.keySep);
    match Descend(Map(fd.data), path)
    case Ok(n) => Ok(n)
    case Err(e) => if e == KeyError then Err(AttributeError) else Err(e)
  }

  /** `__getitem__` with `strict_get` stored: a missing path raises KeyError in strict
      mode and gives None otherwise, as in `Trict`. */
  function GetItem<V>(fd: FancyDict<V>, key: KeyArg): (r: Result<Option<Node<V>>>)
    ensures KeyToList(key, fd.keySep).Err? ==> r == Err(KeyToList(key, fd.keySep).error)
    ensures r.Ok? && r.value.Some? ==>
      KeyToList(key, fd.keySep).Ok? && Descend(Map(fd.data), KeyToList(key, fd.keySep).value) == Ok(r.value.value)
    ensures r == Ok(None) ==> !fd.strictGet
  {
    var path :- KeyToList(key, fd.keySep);
    TrictDict.Answer(fd.strictGet, Descend(Map(fd.data), path))
  }

  /** The getter as written and the corrected one agree on every path that is found
      and on every failure other than a missing key. */
  lemma GetAgrees<V>(fd: FancyDict<V>, key: KeyArg, n: Node<V>)
    ensures GetItemAsWritten(fd, key) == Ok(n) <==> GetItem(fd, key) == Ok(Some(n))
    ensures GetItemAsWritten(fd, key) == Err(TypeError) <==> GetItem(fd, key) == Err(TypeError)
  {
  }

  /** On a missing path the getter as written raises AttributeError, in either mode,
      and only there. */
  lemma GetMissingAsWritten<V>(fd: FancyDict<V>, key: KeyArg)
    requires KeyToList(key, fd.keySep).Ok?
    ensures Descend(Map(fd.data), KeyToList(key, fd.keySep).value) == Err(KeyError) <==>
      GetItemAsWritten(fd, key) == Err(AttributeError)
  {
  }

  /** On a missing path, and only there, the corrected getter raises KeyError in
      strict mode and gives None otherwise. */
  lemma GetMissingFixed<V>(fd: FancyDict<V>, key: KeyArg)
    requires KeyToList(key, fd.keySep).Ok?
    ensures Descend(Map(fd.data), KeyToList(key, fd.keySep).value) == Err(KeyError) <==>
      GetItem(fd, key) == (if fd.strictGet then Err(KeyError) else Ok(None))
  {
  }

  /** A value that was set is what the same key then gets, with either getter. */
  lemma SetThenGet<V>(fd: FancyDict<V>, key: KeyArg, val: Node<V>)
    requires SetItem(fd, key, val).Ok?
    ensures GetItemAsWritten(SetItem(fd, key, val).value, key) == Ok(val)
    ensures GetItem(SetItem(fd, key, val).value, key) == Ok(Some(val))
  {
  }

  /** Setting one path leaves every path that branches off it as it was. */
  lemma SetFrameGet<V>(fd: FancyDict<V>, key: KeyArg, val: Node<V>, other: KeyArg)
    requires SetItem(fd, key, val).Ok? && KeyToList(other, fd.keySep).Ok?
    requires Diverge(KeyToList(key, fd.keySep).value, KeyToList(other, fd.keySep).value)
    ensures GetItemAsWritten(SetItem(fd, key, val).value, other) == GetItemAsWritten(fd, other)
    ensures GetItem(SetItem(fd, key, val).value, other) == GetItem(fd, other)
  {
    var p := KeyToList(key, fd.keySep).value;
    var n := RecursiveSet(Map(fd.data), p, val).value;
    assert SetItem(fd, key, val).value == fd.(data := n.entries);
    SetFrame(Map(fd.data), p, val, KeyToList(other, fd.keySep).value);
    SameLookup(fd, fd.(data := n.entries), other);
  }

  /** Two dicts with the same separator and mode that hold the same node at a key's
      path answer that key alike. */
  lemma SameLookup<V>(fd: FancyDict<V>, fd': FancyDict<V>, key: KeyArg)
    requires fd'.keySep == fd.keySep && fd'.strictGet == fd.strictGet && KeyToList(key, fd.keySep).Ok?
    requires Descend(Map(fd'.data), KeyToList(key, fd.keySep).value) == Descend(Map(fd.data), KeyToList(key, fd.keySep).value)
    ensures GetItemAsWritten(fd', key) == GetItemAsWritten(fd, key)
    ensures GetItem(fd', key) == GetItem(fd, key)
  {
  }

  /** Set succeeds exactly when the path is non-empty and no proper prefix of it,
      the root included, holds a leaf. */
  lemma SetSucceeds<V>(fd: FancyDict<V>, key: KeyArg, val: Node<V>)
    requires KeyToList(key, fd.keySep).Ok?
    ensures SetItem(fd, key, val).Ok? <==>
      var p := KeyToList(key, fd.keySep).value;
      |p| > 0 && NoLeafAbove(Map(fd.data), p)
  {
    TrictDict.SetSucceeds(AsTrict(fd), key, val);
  }

  // ---------------------------------------------------------------------------
  // flatten and traverse.

  /** `flatten(max_depth)` (fancydict.py:37-39): `util.flatten_dict` with the key
      separator. */
  function Flatten<V>(fd: FancyDict<V>, maxDepth: int): (r: Result<Dict<Node<V>>>)
  {
    FlattenToDepth(fd.data, fd.keySep, maxDepth)
  }

  /** At a depth of zero or less the data comes back unchanged; at a depth that
      reaches every mapping, each top-level mapping is replaced by its leaves under
      their joined paths. */
  lemma FlattenDepths<V>(fd: FancyDict<V>, maxDepth: int)
    requires |fd.keySep| == 1 && WellFormed(Map(fd.data)) && SepFree(Map(fd.data), fd.keySep)
    ensures maxDepth <= 0 ==> Flatten(fd, maxDepth) == Ok(fd.data)
    ensures Within(Map(fd.data), maxDepth) ==>
      Flatten(fd, maxDepth) == Ok(Scalars(fd.data) + JoinedLeaves(Leaves(Nested(fd.data), []), fd.keySep))
  {
    if maxDepth <= 0 {
      FlattenShallow(fd.data, fd.keySep, maxDepth);
    }
    if Within(Map(fd.data), maxDepth) {
      FlattenFull(fd.data, fd.keySep, maxDepth);
    }
  }

  /** `traverse()` as written (fancydict.py:41-43): `util.traverse` with the key
      separator, which it does not pass below the top level. */
  function Traverse<V>(fd: FancyDict<V>): (r: Dict<V>)
  {
    TraverseAsWritten(fd.data, fd.keySep, "")
  }

  /** `traverse()` over a `util.traverse` that passes the separator down. */
  function TraverseFixed<V>(fd: FancyDict<V>): (r: Dict<V>)
  {
    TraverseSep(fd.data, fd.keySep, "")
  }

  /** With no empty top-level key, `traverse()` as written yields each leaf under its
      path joined by ".", whatever the separator, and the corrected one under its
      path joined by the separator; the two agree when the separator is ".". */
  lemma TraverseYields<V>(fd: FancyDict<V>)
    requires forall i :: 0 <= i < |fd.data| ==> fd.data[i].0 != ""
    ensures Traverse(fd) == Joined(Leaves(fd.data, []), ".")
    ensures TraverseFixed(fd) == Joined(Leaves(fd.data, []), fd.keySep)
  {
    TraverseIgnoresSep(fd.data, fd.keySep);
    TraverseSepLeaves(fd.data, ".");
    TraverseSepLeaves(fd.data, fd.keySep);
  }

  // ---------------------------------------------------------------------------
  // map_leaves (fancydict.py:45-47).

  /** The end of a method that can raise after it has started to mutate: the state
      reached, and the exception raised, if any. */
  datatype Outcome<T> = Outcome(state: T, raised: Option<Error>)

  /** `self[k] = f(v)` for each yielded pair (k, v) in order, stopping at the first
      exception; the assignments made before it stay. */
  function SetAll<V>(fd: FancyDict<V>, ys: Dict<V>, f: V -> V): (r: Outcome<FancyDict<V>>)
    ensures r.state.keySep == fd.keySep && r.state.strictGet == fd.strictGet
    ensures |ys| == 0 ==> r == Outcome(fd, None)
    decreases |ys|
  {
    if |ys| == 0 then Outcome(fd, None)
    else match SetItem(fd, StrKey(ys[0].0), Leaf(f(ys[0].1)))
      case Err(e) => Outcome(fd, Some(e))
      case Ok(fd') => SetAll(fd', ys[1..], f)
  }

  /** The pairs the traversal yields for the top-level entry (k, v): the top level
      never joins, so `k` is the key; below it, the traversal as written joins with
      ".", and the corrected one with the separator. */
  function EntryYields<V>(k: string, v: Node<V>, sep: string, forward: bool): (r: Dict<V>)
    ensures v.Leaf? ==> r == [(k, v.value)]
  {
    if forward then ValueTraverseSep(v, sep, k) else ValueTraverseAsWritten(v, k)
  }

  /** The loop from top-level position `i` on, over a dict that held `n0` entries
      when the iteration started. Each top-level entry is read when the iteration
      reaches it; once its pairs are assigned, a dict whose size is no longer `n0`
      makes the next step of the iteration raise RuntimeError (after the last entry
      too, since the size is checked before the end is). */
  function Walk<V>(fd: FancyDict<V>, f: V -> V, i: nat, n0: nat, forward: bool): (r: Outcome<FancyDict<V>>)
    requires |fd.data| == n0 && i <= n0
    ensures r.state.keySep == fd.keySep && r.state.strictGet == fd.strictGet
    ensures r.raised.None? ==> |r.state.data| == n0
    decreases n0 - i
  {
    if i == n0 then Outcome(fd, None)
    else
      var (k, v) := fd.data[i];
      var o := SetAll(fd, EntryYields(k, v, fd.keySep, forward), f);
      if o.raised.Some? then o
      else if |o.state.data| != n0 then Outcome(o.state, Some(RuntimeError))
      else Walk(o.state, f, i + 1, n0, forward)
  }

  /** `map_leaves(f)` as written: `self[k] = f(v)` for each pair of `traverse()`. */
  function MapLeavesAsWritten<V>(fd: FancyDict<V>, f: V -> V): (r: Outcome<FancyDict<V>>)
  {
    Walk(fd, f, 0, |fd.data|, false)
  }

  /** `map_leaves(f)` over a traversal that passes the separator down. */
  function MapLeaves<V>(fd: FancyDict<V>, f: V -> V): (r: Outcome<FancyDict<V>>)
  {
    Walk(fd, f, 0, |fd.data|, true)
  }

  /** Assigning under the joined key of a non-empty path free of a one-character
      separator assigns under the path itself. */
  lemma SetByJoinedKey<V>(fd: FancyDict<V>, p: Path, y: Node<V>)
    requires |fd.keySep| == 1 && |p| > 0 && PathSepFree(p, fd.keySep)
    requires RecursiveSet(Map(fd.data), p, y).Ok?
    ensures SetItem(fd, StrKey(Join(p, fd.keySep)), y) ==
      Ok(fd.(data := RecursiveSet(Map(fd.data), p, y).value.entries))
  {
    KeyToListOfJoin(p, fd.keySep);
  }

  /** Assigning, under their joined keys, leaves whose paths are non-empty and free
      of a one-character separator does what assigning them under their paths does. */
  lemma {:induction false} SetAllApply<V>(fd: FancyDict<V>, ls: seq<(Path, V)>, f: V -> V)
    requires |fd.keySep| == 1
    requires forall j :: 0 <= j < |ls| ==> |ls[j].0| > 0 && PathSepFree(ls[j].0, fd.keySep)
    requires ApplyLeaves(Map(fd.data), ls, f).Ok?
    ensures SetAll(fd, Joined(ls, fd.keySep), f) ==
      Outcome(fd.(data := ApplyLeaves(Map(fd.data), ls, f).value.entries), None)
    decreases |ls|
  {
    var ys := Joined(ls, fd.keySep);
    if |ls| > 0 {
      var (p, x) := ls[0];
      var n' := RecursiveSet(Map(fd.data), p, Leaf(f(x))).value;
      var fd' := fd.(data := n'.entries);
      assert SetItem(fd, StrKey(ys[0].0), Leaf(f(ys[0].1))) == Ok(fd') by {
        SetByJoinedKey(fd, p, Leaf(f(x)));
      }
      assert ys[1..] == Joined(ls[1..], fd.keySep);
      assert Map(fd'.data) == n';
      SetAllApply(fd', ls[1..], f);
    }
  }

  /** The leaf paths under a top-level key free of the separator are non-empty and
      free of it. */
  lemma EntryLeavesSepFree<V>(k: string, v: Node<V>, sep: string)
    requires !Contains(k, sep) && WellFormed(v) && SepFree(v, sep)
    ensures forall j :: 0 <= j < |ValueLeaves(v, [k])| ==>
      |ValueLeaves(v, [k])[j].0| > 0 && PathSepFree(ValueLeaves(v, [k])[j].0, sep)
  {
    var ls := ValueLeaves(v, [k]);
    match v
    case Leaf(_) =>
    case Map(sub) =>
      var inner := Leaves(sub, []);
      LeavesPrefix(sub, [k]);
      LeafPathsSepFree(sub, sep);
      forall j | 0 <= j < |ls|
        ensures |ls[j].0| > 0 && PathSepFree(ls[j].0, sep)
      {
        assert ls[j].0 == [k] + inner[j].0;
        PathSepFreeConcat([k], inner[j].0, sep);
      }
  }

  lemma {:induction false} MapTreeConcat<V>(a: Dict<Node<V>>, b: Dict<Node<V>>, f: V -> V)
    ensures MapTree(a + b, f) == MapTree(a, f) + MapTree(b, f)
    decreases |a|
  {
    if |a| == 0 {
      assert a + b == b;
    } else {
      assert (a + b)[0] == a[0];
      assert (a + b)[1..] == a[1..] + b;
      MapTreeConcat(a[1..], b, f);
    }
  }

  /** The mapped prefix grows by one mapped entry. */
  lemma MapTreeSnoc<V>(d: Dict<Node<V>>, i: nat, f: V -> V)
    requires i < |d|
    ensures MapTree(d[..i + 1], f) == MapTree(d[..i], f) + [(d[i].0, MapNode(d[i].1, f))]
  {
    SliceSnoc(d, i);
    MapTreeConcat(d[..i], [d[i]], f);
    assert [d[i]][1..] == [];
  }

  /** A key of `d` is not among the keys of the mapped entries before it. */
  lemma MappedBefore<V>(d: Dict<Node<V>>, i: nat, f: V -> V)
    requires i < |d| && DistinctKeys(d)
    ensures d[i].0 !in Keys(MapTree(d[..i], f))
  {
    var pre := MapTree(d[..i], f);
    forall j | 0 <= j < |pre|
      ensures Keys(pre)[j] != d[i].0
    {
      assert Keys(pre)[j] == d[..i][j].0 == d[j].0;
    }
  }

  /** One turn of the corrected loop over a well-formed dict (or of the loop as
      written, when the separator is "."): the top-level entry `d[i]` gets its leaves
      mapped in place, and the size stays. */
  lemma WalkTurn<V>(fd: FancyDict<V>, d: Dict<Node<V>>, f: V -> V, i: nat, forward: bool)
    requires |fd.keySep| == 1 && (forward || fd.keySep == ".") && i < |d|
    requires WellFormed(Map(d)) && SepFree(Map(d), fd.keySep) && d[i].0 != ""
    requires fd.data == MapTree(d[..i], f) + d[i..]
    ensures Walk(fd, f, i, |d|, forward) ==
      Walk(fd.(data := MapTree(d[..i + 1], f) + d[i + 1..]), f, i + 1, |d|, forward)
  {
    var (k, v) := d[i];
    var sep := fd.keySep;
    var pre := MapTree(d[..i], f);
    var post := d[i + 1..];
    var ls := ValueLeaves(v, [k]);
    EntryFacts(d, i, sep);
    assert fd.data == pre + [(k, v)] + post by {
      SliceHead(d, i);
      Regroup3(pre, (k, v), post, []);
      EmptyRight(post);
    }
    assert fd.data[i] == (k, v);
    assert EntryYields(k, v, sep, forward) == Joined(ls, sep) by {
      assert Join([k], sep) == k;
      ValueTraverseSepJoins(v, sep, [k]);
      if !forward {
        ValueTraverseDefaultSep(v, k);
      }
    }
    var st := fd.(data := MapTree(d[..i + 1], f) + post);
    assert SetAll(fd, Joined(ls, sep), f) == Outcome(st, None) by {
      assert ApplyLeaves(Map(fd.data), ls, f) == Ok(Map(pre + [(k, MapNode(v, f))] + post)) by {
        MappedBefore(d, i, f);
        MapValue(pre, k, v, post, f);
      }
      assert forall j :: 0 <= j < |ls| ==> |ls[j].0| > 0 && PathSepFree(ls[j].0, sep) by {
        EntryLeavesSepFree(k, v, sep);
      }
      SetAllApply(fd, ls, f);
      MapTreeSnoc(d, i, f);
    }
    WalkUnfold(fd, f, i, |d|, forward, st);
  }

  /** The facts about the entry `d[i]` of a well-formed dict free of `sep`. */
  lemma EntryFacts<V>(d: Dict<Node<V>>, i: nat, sep: string)
    requires i < |d| && WellFormed(Map(d)) && SepFree(Map(d), sep)
    ensures DistinctKeys(d) && WellFormed(d[i].1) && SepFree(d[i].1, sep) && !Contains(d[i].0, sep)
  {
  }

  /** One step of the walk that raises nothing and keeps the size. */
  lemma WalkUnfold<V>(fd: FancyDict<V>, f: V -> V, i: nat, n0: nat, forward: bool, st: FancyDict<V>)
    requires |fd.data| == n0 && i < n0 && |st.data| == n0
    requires SetAll(fd, EntryYields(fd.data[i].0, fd.data[i].1, fd.keySep, forward), f) == Outcome(st, None)
    ensures Walk(fd, f, i, n0, forward) == Walk(st, f, i + 1, n0, forward)
  {
  }

  /** The corrected loop (or the loop as written, when the separator is ".") from
      position `i` on maps the remaining entries in place. */
  lemma {:induction false} WalkMaps<V>(fd: FancyDict<V>, d: Dict<Node<V>>, f: V -> V, i: nat, forward: bool)
    requires |fd.keySep| == 1 && (forward || fd.keySep == ".") && i <= |d|
    requires WellFormed(Map(d)) && SepFree(Map(d), fd.keySep)
    requires forall j :: 0 <= j < |d| ==> d[j].0 != ""
    requires fd.data == MapTree(d[..i], f) + d[i..]
    ensures Walk(fd, f, i, |d|, forward) == Outcome(fd.(data := MapTree(d, f)), None)
    decreases |d| - i
  {
    if i == |d| {
      assert d[..i] == d;
      EmptyRight(MapTree(d, f));
    } else {
      WalkTurn(fd, d, f, i, forward);
      WalkMaps(fd.(data := MapTree(d[..i + 1], f) + d[i + 1..]), d, f, i + 1, forward);
    }
  }

  /** With the separator passed down, a one-character separator no key contains and
      no empty top-level key, `map_leaves` replaces every leaf value v by f(v) and
      keeps every key where it was, without raising. */
  lemma MapLeavesMaps<V>(fd: FancyDict<V>, f: V -> V)
    requires |fd.keySep| == 1 && WellFormed(Map(fd.data)) && SepFree(Map(fd.data), fd.keySep)
    requires forall j :: 0 <= j < |fd.data| ==> fd.data[j].0 != ""
    ensures MapLeaves(fd, f) == Outcome(fd.(data := MapTree(fd.data, f)), None)
  {
    var d := fd.data;
    assert d[..0] == [] && d[0..] == d;
    assert MapTree(d[..0], f) + d[0..] == d;
    WalkMaps(fd, d, f, 0, true);
  }

  /** `map_leaves` as written with the separator "." on a well-formed dict free of
      it, with no empty top-level key, replaces every leaf value v by f(v) and keeps
      every key where it was. */
  lemma MapLeavesDot<V>(fd: FancyDict<V>, f: V -> V)
    requires fd.keySep == "." && WellFormed(Map(fd.data)) && SepFree(Map(fd.data), ".")
    requires forall j :: 0 <= j < |fd.data| ==> fd.data[j].0 != ""
    ensures MapLeavesAsWritten(fd, f) == Outcome(fd.(data := MapTree(fd.data, f)), None)
  {
    var d := fd.data;
    assert d[..0] == [] && d[0..] == d;
    assert MapTree(d[..0], f) + d[0..] == d;
    WalkMaps(fd, d, f, 0, false);
  }

  /** The key "k.k2" holds no one-character separator other than "." that neither
      part holds. */
  lemma DotKeySepFree(k: string, k2: string, sep: string)
    requires |sep| == 1 && sep != "." && !Contains(k, sep) && !Contains(k2, sep)
    ensures !Contains(k + "." + k2, sep)
  {
    assert !Contains(".", sep) by {
      assert ".."[1..] == ".";
      assert !Contains("", sep);
    }
    NotContainsConcat(k, ".", sep);
    NotContainsConcat(k + ".", k2, sep);
  }

  /** Assigning one pair under a new top-level key free of the separator appends it. */
  lemma SetAllAppends<V>(fd: FancyDict<V>, key: string, x: V, f: V -> V)
    requires fd.keySep != "" && !Contains(key, fd.keySep) && key !in Keys(fd.data)
    ensures SetAll(fd, [(key, x)], f) == Outcome(fd.(data := fd.data + [(key, Leaf(f(x)))]), None)
  {
    KeyToListOfKey(key, fd.keySep);
    assert SetItem(fd, StrKey(key), Leaf(f(x))) == Ok(fd.(data := fd.data + [(key, Leaf(f(x)))]));
    assert [(key, x)][1..] == [];
  }

  /** With a one-character separator other than ".", a leaf two levels down is
      yielded under a key joined by "." that does not split: it is assigned as a new
      top-level key, and the iteration then raises RuntimeError. The corrected loop
      maps the leaf in place. */
  lemma MapLeavesAsWrittenGrows<V>(k: string, k2: string, x: V, sep: string, strictGet: bool, f: V -> V)
    requires k != "" && |sep| == 1 && sep != "." && !Contains(k, sep) && !Contains(k2, sep)
    ensures var fd := FancyDict([(k, Map([(k2, Leaf(x))]))], sep, strictGet);
      MapLeavesAsWritten(fd, f) ==
        Outcome(fd.(data := fd.data + [(k + "." + k2, Leaf(f(x)))]), Some(RuntimeError))
  {
    var d := [(k, Map([(k2, Leaf(x))]))];
    var fd := FancyDict(d, sep, strictGet);
    var key := k + "." + k2;
    TraverseOneLeaf(k2, x, ".", k);
    assert EntryYields(k, Map([(k2, Leaf(x))]), sep, false) == [(key, x)];
    assert key !in Keys(d) by {
      assert |key| > |k|;
    }
    DotKeySepFree(k, k2, sep);
    SetAllAppends(fd, key, x, f);
  }

  /** The corrected loop maps the same leaf in place. */
  lemma MapLeavesNested<V>(k: string, k2: string, x: V, sep: string, strictGet: bool, f: V -> V)
    requires k != "" && |sep| == 1 && !Contains(k, sep) && !Contains(k2, sep)
    ensures var fd := FancyDict([(k, Map([(k2, Leaf(x))]))], sep, strictGet);
      MapLeaves(fd, f) == Outcome(fd.(data := [(k, Map([(k2, Leaf(f(x)))]))]), None)
  {
    var inner := [(k2, Leaf(x))];
    var d := [(k, Map(inner))];
    var fd := FancyDict(d, sep, strictGet);
    assert WellFormed(Map(d)) && SepFree(Map(d), sep) by {
      OneEntry(k2, Leaf(x), sep);
      OneEntry(k, Map(inner), sep);
    }
    assert forall j :: 0 <= j < |d| ==> d[j].0 != "";
    MapLeavesMaps(fd, f);
    assert MapTree(d, f) == [(k, Map([(k2, Leaf(f(x)))]))] by {
      MapTreeOne(k2, Leaf(x), f);
      MapTreeOne(k, Map(inner), f);
    }
  }

  /** Under an empty top-level key the next level is not joined at all (the
      `prefix == ''` test at util.py:132): both loops yield the nested leaf under its
      own key, assign it as a new top-level key, and then raise RuntimeError. */
  lemma MapLeavesEmptyTopKey<V>(k2: string, x: V, sep: string, strictGet: bool, f: V -> V)
    requires k2 != "" && |sep| == 1 && !Contains(k2, sep)
    ensures var fd := FancyDict([("", Map([(k2, Leaf(x))]))], sep, strictGet);
      var grown := Outcome(fd.(data := fd.data + [(k2, Leaf(f(x)))]), Some(RuntimeError));
      MapLeaves(fd, f) == grown && MapLeavesAsWritten(fd, f) == grown
  {
    EmptyTopKeyWalk(k2, x, sep, strictGet, f, true);
    EmptyTopKeyWalk(k2, x, sep, strictGet, f, false);
  }

  /** `MapLeavesEmptyTopKey` for one of the two traversals. */
  lemma EmptyTopKeyWalk<V>(k2: string, x: V, sep: string, strictGet: bool, f: V -> V, forward: bool)
    requires k2 != "" && |sep| == 1 && !Contains(k2, sep)
    ensures var fd := FancyDict([("", Map([(k2, Leaf(x))]))], sep, strictGet);
      Walk(fd, f, 0, 1, forward) ==
        Outcome(fd.(data := fd.data + [(k2, Leaf(f(x)))]), Some(RuntimeError))
  {
    var d := [("", Map([(k2, Leaf(x))]))];
    var fd := FancyDict(d, sep, strictGet);
    assert EntryYields("", Map([(k2, Leaf(x))]), sep, forward) == [(k2, x)] by {
      TraverseEmptyPrefix(k2, x, sep);
    }
    assert k2 !in Keys(d) by {
      assert Keys(d) == [""];
    }
    SetAllAppends(fd, k2, x, f);
  }

  /** A mapping holding one leaf, under the empty prefix, yields that leaf under its
      own key in both traversals. */
  lemma TraverseEmptyPrefix<V>(k2: string, x: V, s: string)
    ensures TraverseAsWritten([(k2, Leaf(x))], ".", "") == [(k2, x)]
    ensures TraverseSep([(k2, Leaf(x))], s, "") == [(k2, x)]
  {
    assert [(k2, Leaf(x))][1..] == [];
  }

  /** A one-entry mapping is well-formed and free of `sep` when its entry is. */
  lemma OneEntry<V>(k: string, n: Node<V>, sep: string)
    requires WellFormed(n) && SepFree(n, sep) && !Contains(k, sep)
    ensures WellFormed(Map([(k, n)])) && SepFree(Map([(k, n)]), sep)
  {
  }

  /** A mapping holding one leaf, under a non-empty prefix, yields that leaf under
      the joined key. */
  lemma TraverseOneLeaf<V>(k2: string, x: V, s: string, prefix: string)
    requires prefix != ""
    ensures TraverseAsWritten([(k2, Leaf(x))], s, prefix) == [(prefix + s + k2, x)]
  {
    assert [(k2, Leaf(x))][1..] == [];
    JoinPair(prefix, k2, s);
  }

  lemma MapTreeOne<V>(k: string, n: Node<V>, f: V -> V)
    ensures MapTree([(k, n)], f) == [(k, MapNode(n, f))]
  {
    assert [(k, n)][1..] == [];
  }
}
