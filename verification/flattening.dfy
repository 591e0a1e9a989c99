/** What `flatten_dict` (trict/util.py:42-76) produces: one entry per leaf keyed by
    its joined path, and, when the separator is a single character that no key
    contains, a dict from which splitting each key recovers the leaf's path. */
module Flattening {
  import opened Results
  import opened Dicts
  import opened Strings
  import opened Tree
  import opened TrictUtil
  import opened Traversals

  /** The leaves keyed by their `sep`-joined paths, in order. */
  function Joined<V>(ls: seq<(Path, V)>, sep: string): (r: Dict<V>)
    ensures |r| == |ls| && forall i :: 0 <= i < |ls| ==> r[i] == (Join(ls[i].0, sep), ls[i].1)
  {
    seq(|ls|, i requires 0 <= i < |ls| => (Join(ls[i].0, sep), ls[i].1))
  }

  /** The loop of `flatten_dict` is `d.update` with the joined leaves: when two leaf
      paths join to the same key, the later value lands at the earlier position. */
  lemma {:induction false} FlattenIsUpdate<V>(ls: seq<(Path, V)>, sep: string, checkKeys: bool, acc: Dict<V>)
    requires FlattenLeaves(ls, sep, checkKeys, acc).Ok?
    ensures FlattenLeaves(ls, sep, checkKeys, acc) == Ok(Update(acc, Joined(ls, sep)))
    decreases |ls|
  {
    if |ls| > 0 {
      var acc' := Assign(acc, Join(ls[0].0, sep), ls[0].1);
      FlattenStep(ls, sep, checkKeys, acc);
      FlattenIsUpdate(ls[1..], sep, checkKeys, acc');
      UpdateJoinedStep(ls, sep, acc);
    }
  }

  /** One step of the loop of `flatten_dict` that does not raise. */
  lemma FlattenStep<V>(ls: seq<(Path, V)>, sep: string, checkKeys: bool, acc: Dict<V>)
    requires |ls| > 0 && FlattenLeaves(ls, sep, checkKeys, acc).Ok?
    ensures FlattenLeaves(ls[1..], sep, checkKeys, Assign(acc, Join(ls[0].0, sep), ls[0].1)) ==
      FlattenLeaves(ls, sep, checkKeys, acc)
  {
  }

  /** Updating with the joined leaves assigns the first one and then the rest. */
  lemma UpdateJoinedStep<V>(ls: seq<(Path, V)>, sep: string, acc: Dict<V>)
    requires |ls| > 0
    ensures Update(acc, Joined(ls, sep)) ==
      Update(Assign(acc, Join(ls[0].0, sep), ls[0].1), Joined(ls[1..], sep))
  {
    var js := Joined(ls, sep);
    assert js[1..] == Joined(ls[1..], sep);
  }

  /** Some leaf path of `ls` joins to `key`. */
  predicate JoinsTo<V>(ls: seq<(Path, V)>, sep: string, key: string)
  {
    exists i :: 0 <= i < |ls| && Join(ls[i].0, sep) == key
  }

  /** `flatten_dict` without error is `update` of an empty dict with the joined leaves. */
  lemma FlattenDictIsUpdate<V>(d: Dict<Node<V>>, sep: string, checkKeys: bool)
    requires FlattenDict(d, sep, checkKeys).Ok?
    ensures FlattenDict(d, sep, checkKeys).value == Update([], Joined(Leaves(d, []), sep))
  {
    FlattenIsUpdate(Leaves(d, []), sep, checkKeys, []);
  }

  /** The keys of the flattened dict are the joined leaf paths, whatever the
      separator: `key` is one of them exactly when some leaf path joins to it. */
  lemma FlattenKeys<V>(d: Dict<Node<V>>, sep: string, checkKeys: bool, key: string)
    requires FlattenDict(d, sep, checkKeys).Ok?
    ensures key in Keys(FlattenDict(d, sep, checkKeys).value) <==> JoinsTo(Leaves(d, []), sep, key)
  {
    var js := Joined(Leaves(d, []), sep);
    FlattenDictIsUpdate(d, sep, checkKeys);
    UpdateEmptyKey(js, key);
    JoinedKey(Leaves(d, []), sep, key);
  }

  /** Updating an empty dict adds exactly the keys of the update. */
  lemma UpdateEmptyKey<V>(js: Dict<V>, key: string)
    ensures key in Keys(Update([], js)) <==> key in Keys(js)
  {
    var empty: Dict<V> := [];
    UpdateKeys(empty, js);
    assert key !in Keys(empty);
  }

  /** The keys of the joined leaves are the joined paths. */
  lemma JoinedKey<V>(ls: seq<(Path, V)>, sep: string, key: string)
    ensures key in Keys(Joined(ls, sep)) <==> JoinsTo(ls, sep, key)
  {
    var j := Joined(ls, sep);
    if key in Keys(j) {
      var i :| 0 <= i < |j| && Keys(j)[i] == key;
      assert Join(ls[i].0, sep) == key;
    }
    if JoinsTo(ls, sep, key) {
      var i :| 0 <= i < |ls| && Join(ls[i].0, sep) == key;
      assert Keys(j)[i] == key;
    }
  }

  /** Indexing a tree free of `sep` only follows keys free of `sep`. */
  lemma {:induction false} DescendSepFree<V>(n: Node<V>, p: Path, sep: string)
    requires SepFree(n, sep) && Descend(n, p).Ok?
    ensures PathSepFree(p, sep)
    decreases |p|
  {
    if |p| > 0 {
      var es := n.entries;
      var c := Lookup(es, p[0]).value;
      var i :| 0 <= i < |es| && es[i] == (p[0], c);
      DescendStep(es, c, p);
      DescendSepFree(c, p[1..], sep);
      forall j | 0 <= j < |p|
        ensures !Contains(p[j], sep)
      {
        if j > 0 {
          assert p[j] == p[1..][j - 1];
        }
      }
    }
  }

  /** In a well-formed tree free of `sep`, the leaf paths are non-empty, distinct and
      free of `sep`. */
  lemma LeafPathsSepFree<V>(d: Dict<Node<V>>, sep: string)
    requires WellFormed(Map(d)) && SepFree(Map(d), sep)
    ensures DistinctPaths(Leaves(d, []))
    ensures forall i :: 0 <= i < |Leaves(d, [])| ==>
      |Leaves(d, [])[i].0| > 0 && PathSepFree(Leaves(d, [])[i].0, sep)
  {
    var ls := Leaves(d, []);
    LeavesSound(d);
    forall i | 0 <= i < |ls|
      ensures PathSepFree(ls[i].0, sep)
    {
      DescendSepFree(Map(d), ls[i].0, sep);
    }
  }

  /** With a one-character separator no key contains, distinct leaf paths join to
      distinct keys. */
  lemma JoinedDistinct<V>(ls: seq<(Path, V)>, sep: string)
    requires |sep| == 1 && DistinctPaths(ls)
    requires forall i :: 0 <= i < |ls| ==> |ls[i].0| > 0 && PathSepFree(ls[i].0, sep)
    ensures DistinctKeys(Joined(ls, sep))
  {
    var j := Joined(ls, sep);
    forall a, b | 0 <= a < b < |j|
      ensures j[a].0 != j[b].0
    {
      JoinInjective(ls[a].0, ls[b].0, sep);
    }
  }

  /** A well-formed tree with a one-character separator no key contains flattens
      without error, to exactly one entry per leaf, in `leaves` order. */
  lemma FlattenExact<V>(d: Dict<Node<V>>, sep: string, checkKeys: bool)
    requires |sep| == 1 && WellFormed(Map(d)) && SepFree(Map(d), sep)
    ensures FlattenDict(d, sep, checkKeys) == Ok(Joined(Leaves(d, []), sep))
  {
    var ls := Leaves(d, []);
    var empty: Dict<V> := [];
    LeafPathsSepFree(d, sep);
    assert FlattenLeaves(ls, sep, checkKeys, empty).Ok? by {
      forall i | 0 <= i < |ls|
        ensures !AnyKeyContains(ls[i].0, sep)
      {
      }
    }
    FlattenIsUpdate(ls, sep, checkKeys, empty);
    assert Update(empty, Joined(ls, sep)) == Joined(ls, sep) by {
      JoinedDistinct(ls, sep);
      UpdateFresh(empty, Joined(ls, sep));
      assert empty + Joined(ls, sep) == Joined(ls, sep);
    }
  }

  /** Unflattening: under the same conditions, splitting each key of the flattened
      dict at `sep` gives a path that indexing follows from the tree to a leaf
      holding the entry's value. */
  lemma FlattenRoundTrip<V>(d: Dict<Node<V>>, sep: string, checkKeys: bool)
    requires |sep| == 1 && WellFormed(Map(d)) && SepFree(Map(d), sep)
    ensures FlattenDict(d, sep, checkKeys).Ok?
    ensures forall i :: 0 <= i < |FlattenDict(d, sep, checkKeys).value| ==>
      Descend(Map(d), Split(FlattenDict(d, sep, checkKeys).value[i].0, sep)) ==
        Ok(Leaf(FlattenDict(d, sep, checkKeys).value[i].1))
  {
    var ls := Leaves(d, []);
    FlattenExact(d, sep, checkKeys);
    LeafPathsSepFree(d, sep);
    LeavesSound(d);
    forall i | 0 <= i < |ls|
      ensures Split(Join(ls[i].0, sep), sep) == ls[i].0
    {
      SplitJoin(ls[i].0, sep);
    }
  }
}
