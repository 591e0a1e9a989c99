/** How the enumerations of `trict/util.py` relate to each other and to chained
    indexing: `leaves` is the leaf part of `traverse`, `traverse(keys_only=True)` is its
    path part, `iter_keys` lists the last key of each of those paths, and `traverse`
    lists exactly the paths that indexing can follow, each once, with the node found
    there. */
module Traversals {
  import opened Results
  import opened Dicts
  import opened Tree
  import opened TrictUtil

  /** The leaf entries of a traversal, with the leaf values unwrapped. */
  function LeafEntries<V>(ts: seq<(Path, Node<V>)>): seq<(Path, V)>
    decreases |ts|
  {
    if |ts| == 0 then []
    else
      (match ts[0].1 case Leaf(x) => [(ts[0].0, x)] case Map(_) => []) + LeafEntries(ts[1..])
  }

  /** The paths of a traversal. */
  function Paths<X>(ts: seq<(Path, X)>): (ps: seq<Path>)
    ensures |ps| == |ts| && forall i :: 0 <= i < |ts| ==> ps[i] == ts[i].0
  {
    seq(|ts|, i requires 0 <= i < |ts| => ts[i].0)
  }

  /** The last key of a path (the empty key for the empty path, which never occurs
      in a traversal). */
  function LastKey(p: Path): string {
    if |p| == 0 then "" else p[|p| - 1]
  }

  /** The last key of every path. */
  function LastKeys(ps: seq<Path>): (ks: seq<string>)
    ensures |ks| == |ps| && forall i :: 0 <= i < |ps| ==> ks[i] == LastKey(ps[i])
  {
    seq(|ps|, i requires 0 <= i < |ps| => LastKey(ps[i]))
  }

  /** No path occurs twice. */
  predicate DistinctPaths<X>(ts: seq<(Path, X)>) {
    forall i, j :: 0 <= i < j < |ts| ==> ts[i].0 != ts[j].0
  }

  lemma {:induction false} LeafEntriesConcat<V>(a: seq<(Path, Node<V>)>, b: seq<(Path, Node<V>)>)
    ensures LeafEntries(a + b) == LeafEntries(a) + LeafEntries(b)
    decreases |a|
  {
    if |a| == 0 {
      assert a + b == b;
    } else {
      var h: seq<(Path, V)> := match a[0].1 case Leaf(x) => [(a[0].0, x)] case Map(_) => [];
      assert LeafEntries(a + b) == h + LeafEntries(a[1..] + b) by {
        assert (a + b)[0] == a[0];
        assert (a + b)[1..] == a[1..] + b;
      }
      LeafEntriesConcat(a[1..], b);
      AppendAssoc(h, LeafEntries(a[1..]), LeafEntries(b));
    }
  }

  /** A pair is a leaf entry exactly when the traversal holds that path with that leaf. */
  lemma {:induction false} LeafEntriesMember<V>(ts: seq<(Path, Node<V>)>, p: Path, x: V)
    ensures (p, x) in LeafEntries(ts) <==> (p, Leaf(x)) in ts
    decreases |ts|
  {
    if |ts| > 0 {
      LeafEntriesMember(ts[1..], p, x);
      assert ts == [ts[0]] + ts[1..];
    }
  }

  /** Every path of the leaf entries is a path of the traversal. */
  lemma LeafEntryFrom<V>(ts: seq<(Path, Node<V>)>, j: nat)
    requires j < |LeafEntries(ts)|
    ensures LeafEntries(ts)[j].0 in Paths(ts)
  {
    var e := LeafEntries(ts)[j];
    LeafEntriesMember(ts, e.0, e.1);
    var i :| 0 <= i < |ts| && ts[i] == (e.0, Leaf(e.1));
    assert Paths(ts)[i] == e.0;
  }

  /** Keeping the leaf entries keeps the paths distinct. */
  lemma {:induction false} LeafEntriesDistinct<V>(ts: seq<(Path, Node<V>)>)
    requires DistinctPaths(ts)
    ensures DistinctPaths(LeafEntries(ts))
    decreases |ts|
  {
    if |ts| > 0 {
      var rest := ts[1..];
      assert DistinctPaths(rest) by {
        forall i, j | 0 <= i < j < |rest|
          ensures rest[i].0 != rest[j].0
        {
          assert rest[i] == ts[i + 1] && rest[j] == ts[j + 1];
        }
      }
      LeafEntriesDistinct(rest);
      var tail := LeafEntries(rest);
      forall j | 0 <= j < |tail|
        ensures tail[j].0 != ts[0].0
      {
        LeafEntryFrom(rest, j);
        var i :| 0 <= i < |rest| && Paths(rest)[i] == tail[j].0;
        assert rest[i] == ts[i + 1];
      }
    }
  }

  /** `leaves` lists the leaves of `traverse`, in the same order. */
  lemma {:induction false} LeavesOfTraverse<V>(d: Dict<Node<V>>, prev: Path)
    ensures Leaves(d, prev) == LeafEntries(Traverse(d, prev))
    decreases d, 0
  {
    if |d| > 0 {
      var (k, child) := d[0];
      assert child < d[0];
      ValueLeavesOfTraverse(child, prev + [k]);
      LeavesOfTraverse(d[1..], prev);
      LeafEntriesConcat(ValueTraverse(child, prev + [k]), Traverse(d[1..], prev));
    }
  }

  lemma {:induction false} ValueLeavesOfTraverse<V>(v: Node<V>, path: Path)
    ensures ValueLeaves(v, path) == LeafEntries(ValueTraverse(v, path))
    decreases v, 1
  {
    match v
    case Leaf(x) =>
      assert ValueTraverse(v, path) == [(path, v)];
      assert LeafEntries(ValueTraverse(v, path)) == [(path, x)] + LeafEntries<V>([]);
    case Map(sub) =>
      LeavesOfTraverse(sub, path);
      LeafEntriesConcat([(path, v)], Traverse(sub, path));
  }

  /** `traverse(keys_only=True)` lists the paths of `traverse`. */
  lemma {:induction false} KeysOfTraverse<V>(d: Dict<Node<V>>, prev: Path)
    ensures TraverseKeys(d, prev) == Paths(Traverse(d, prev))
    decreases d, 0
  {
    if |d| > 0 {
      var (k, child) := d[0];
      assert child < d[0];
      ValueKeysOfTraverse(child, prev + [k]);
      KeysOfTraverse(d[1..], prev);
      PathsConcat(ValueTraverse(child, prev + [k]), Traverse(d[1..], prev));
    }
  }

  lemma {:induction false} ValueKeysOfTraverse<V>(v: Node<V>, path: Path)
    ensures ValueTraverseKeys(v, path) == Paths(ValueTraverse(v, path))
    decreases v, 1
  {
    match v
    case Leaf(_) =>
    case Map(sub) =>
      KeysOfTraverse(sub, path);
      PathsConcat([(path, v)], Traverse(sub, path));
  }

  lemma PathsConcat<X>(a: seq<(Path, X)>, b: seq<(Path, X)>)
    ensures Paths(a + b) == Paths(a) + Paths(b)
  {
  }

  lemma LastKeysConcat(a: seq<Path>, b: seq<Path>)
    ensures LastKeys(a + b) == LastKeys(a) + LastKeys(b)
  {
  }

  /** `iter_keys` lists the last key of each path `traverse(keys_only=True)` lists,
      whatever the prefix. */
  lemma {:induction false} IterKeysAreLastKeys<V>(d: Dict<Node<V>>, prev: Path)
    ensures IterKeys(d) == LastKeys(TraverseKeys(d, prev))
    decreases d, 0
  {
    if |d| > 0 {
      var (k, child) := d[0];
      assert child < d[0];
      ValueIterKeysAreLastKeys(child, prev + [k]);
      IterKeysAreLastKeys(d[1..], prev);
      LastKeysConcat(ValueTraverseKeys(child, prev + [k]), TraverseKeys(d[1..], prev));
    }
  }

  lemma {:induction false} ValueIterKeysAreLastKeys<V>(v: Node<V>, path: Path)
    requires |path| > 0
    ensures LastKeys(ValueTraverseKeys(v, path)) == [path[|path| - 1]] + ValueIterKeys(v)
    decreases v, 1
  {
    match v
    case Leaf(_) =>
    case Map(sub) =>
      IterKeysAreLastKeys(sub, path);
      LastKeysConcat([path], TraverseKeys(sub, path));
  }

  /** The parts of a well-formed mapping are well-formed. */
  lemma WellFormedParts<V>(d: Dict<Node<V>>)
    requires |d| > 0 && WellFormed(Map(d))
    ensures WellFormed(d[0].1) && WellFormed(Map(d[1..]))
  {
    var rest := d[1..];
    forall i | 0 <= i < |rest|
      ensures WellFormed(rest[i].1)
    {
      assert rest[i] == d[i + 1];
    }
  }

  /** In a dict with distinct keys, a key of the tail is not the first key. */
  lemma TailKeyDiffers<X>(d: Dict<X>, k: string)
    requires |d| > 0 && DistinctKeys(d) && k in Keys(d[1..])
    ensures k != d[0].0
  {
    var i :| 0 <= i < |d| - 1 && Keys(d[1..])[i] == k;
    assert d[1..][i] == d[i + 1];
  }

  /** A path indexing can follow out of a mapping starts with one of its keys. */
  lemma FirstKeyOfDescend<V>(d: Dict<Node<V>>, s: Path)
    requires |s| > 0 && Descend(Map(d), s).Ok?
    ensures s[0] in Keys(d)
  {
  }

  /** In a dict with distinct keys, indexing the tail from the whole dict finds the
      same node. */
  lemma DescendTail<V>(d: Dict<Node<V>>, s: Path)
    requires |d| > 0 && DistinctKeys(d)
    requires |s| > 0 && Descend(Map(d[1..]), s).Ok?
    ensures Descend(Map(d), s) == Descend(Map(d[1..]), s)
  {
    FirstKeyOfDescend(d[1..], s);
    TailKeyDiffers(d, s[0]);
    assert Lookup(d, s[0]) == Lookup(d[1..], s[0]);
  }

  /** Every entry of `traverse(d, prev)` extends `prev` by a path that indexing
      follows from `d` to the entry's node. */
  lemma {:induction false} TraverseSound<V>(d: Dict<Node<V>>, prev: Path)
    requires WellFormed(Map(d))
    ensures forall j :: 0 <= j < |Traverse(d, prev)| ==>
      prev < Traverse(d, prev)[j].0 &&
      Descend(Map(d), Traverse(d, prev)[j].0[|prev|..]) == Ok(Traverse(d, prev)[j].1)
    decreases d, 0
  {
    if |d| > 0 {
      var (k, child) := d[0];
      assert child < d[0];
      var a := ValueTraverse(child, prev + [k]);
      var b := Traverse(d[1..], prev);
      WellFormedParts(d);
      ValueTraverseSound(child, prev + [k]);
      TraverseSound(d[1..], prev);
      forall j | 0 <= j < |a|
        ensures prev < a[j].0 && Descend(Map(d), a[j].0[|prev|..]) == Ok(a[j].1)
      {
        var p := a[j].0;
        var s := p[|prev|..];
        assert (prev + [k])[|prev|] == k;
        assert s[0] == k && s[1..] == p[|prev + [k]|..];
        DescendStep(d, child, s);
      }
      forall j | 0 <= j < |b|
        ensures prev < b[j].0 && Descend(Map(d), b[j].0[|prev|..]) == Ok(b[j].1)
      {
        DescendTail(d, b[j].0[|prev|..]);
      }
      assert Traverse(d, prev) == a + b;
    }
  }

  lemma {:induction false} ValueTraverseSound<V>(v: Node<V>, path: Path)
    requires WellFormed(v)
    ensures forall j :: 0 <= j < |ValueTraverse(v, path)| ==>
      path <= ValueTraverse(v, path)[j].0 &&
      Descend(v, ValueTraverse(v, path)[j].0[|path|..]) == Ok(ValueTraverse(v, path)[j].1)
    decreases v, 1
  {
    assert path[|path|..] == [];
    match v
    case Leaf(_) =>
    case Map(sub) =>
      TraverseSound(sub, path);
      var t := Traverse(sub, path);
      assert ValueTraverse(v, path) == [(path, v)] + t;
  }

  /** A traversal holds every node of its children's traversals. */
  lemma {:induction false} TraverseHasChild<V>(d: Dict<Node<V>>, prev: Path, i: nat, x: (Path, Node<V>))
    requires i < |d| && x in ValueTraverse(d[i].1, prev + [d[i].0])
    ensures x in Traverse(d, prev)
    decreases i
  {
    if i > 0 {
      TraverseHasChild(d[1..], prev, i - 1, x);
    }
  }

  /** Every non-empty path that indexing can follow from `d` is in `traverse`, with
      the node found there. */
  lemma {:induction false} TraverseComplete<V>(d: Dict<Node<V>>, prev: Path, s: Path)
    requires |s| > 0 && Descend(Map(d), s).Ok?
    ensures (prev + s, Descend(Map(d), s).value) in Traverse(d, prev)
    decreases |s|, 0
  {
    var c := Lookup(d, s[0]).value;
    var i :| 0 <= i < |d| && d[i] == (s[0], c);
    var x := Descend(Map(d), s).value;
    assert Descend(c, s[1..]) == Ok(x) by {
      DescendStep(d, c, s);
    }
    assert (prev + s, x) in ValueTraverse(d[i].1, prev + [d[i].0]) by {
      ValueTraverseComplete(c, prev + [s[0]], s[1..]);
      HeadThenTail(prev, s);
    }
    TraverseHasChild(d, prev, i, (prev + s, x));
  }

  lemma HeadThenTail<T>(a: seq<T>, s: seq<T>)
    requires |s| > 0
    ensures a + [s[0]] + s[1..] == a + s
  {
  }

  lemma {:induction false} ValueTraverseComplete<V>(v: Node<V>, path: Path, t: Path)
    requires Descend(v, t).Ok?
    ensures (path + t, Descend(v, t).value) in ValueTraverse(v, path)
    decreases |t|, 1
  {
    if |t| == 0 {
      assert path + t == path;
      assert ValueTraverse(v, path)[0] == (path, v);
    } else {
      var sub := v.entries;
      TraverseComplete(sub, path, t);
      assert ValueTraverse(v, path) == [(path, v)] + Traverse(sub, path);
    }
  }

  /** Paths are distinct across two parts whose paths are distinct and disjoint. */
  lemma DistinctConcat<X>(a: seq<(Path, X)>, b: seq<(Path, X)>)
    requires DistinctPaths(a) && DistinctPaths(b)
    requires forall i, j :: 0 <= i < |a| && 0 <= j < |b| ==> a[i].0 != b[j].0
    ensures DistinctPaths(a + b)
  {
    var t := a + b;
    forall i, j | 0 <= i < j < |t|
      ensures t[i].0 != t[j].0
    {
      if j < |a| {
        assert t[i] == a[i] && t[j] == a[j];
      } else if i >= |a| {
        assert t[i] == b[i - |a|] && t[j] == b[j - |a|];
      } else {
        assert t[i] == a[i] && t[j] == b[j - |a|];
      }
    }
  }

  /** The paths `traverse` lists for the tail of a well-formed dict branch off
      `prev` at a key other than the first one. */
  lemma TailPathsAvoidHead<V>(d: Dict<Node<V>>, prev: Path)
    requires |d| > 0 && WellFormed(Map(d))
    ensures forall j :: 0 <= j < |Traverse(d[1..], prev)| ==>
      prev < Traverse(d[1..], prev)[j].0 && Traverse(d[1..], prev)[j].0[|prev|] != d[0].0
  {
    var b := Traverse(d[1..], prev);
    WellFormedParts(d);
    TraverseSound(d[1..], prev);
    forall j | 0 <= j < |b|
      ensures prev < b[j].0 && b[j].0[|prev|] != d[0].0
    {
      var s := b[j].0[|prev|..];
      FirstKeyOfDescend(d[1..], s);
      TailKeyDiffers(d, s[0]);
    }
  }

  /** In a well-formed tree `traverse` lists each path once. */
  lemma {:induction false} TraverseDistinct<V>(d: Dict<Node<V>>, prev: Path)
    requires WellFormed(Map(d))
    ensures DistinctPaths(Traverse(d, prev))
    decreases d, 0
  {
    if |d| > 0 {
      var (k, child) := d[0];
      assert child < d[0];
      var a := ValueTraverse(child, prev + [k]);
      var b := Traverse(d[1..], prev);
      WellFormedParts(d);
      ValueTraverseDistinct(child, prev + [k]);
      TraverseDistinct(d[1..], prev);
      ValueTraverseSound(child, prev + [k]);
      TailPathsAvoidHead(d, prev);
      forall i, j | 0 <= i < |a| && 0 <= j < |b|
        ensures a[i].0 != b[j].0
      {
        assert (prev + [k])[|prev|] == k;
        assert a[i].0[|prev|] == k;
      }
      DistinctConcat(a, b);
    }
  }

  lemma {:induction false} ValueTraverseDistinct<V>(v: Node<V>, path: Path)
    requires WellFormed(v)
    ensures DistinctPaths(ValueTraverse(v, path))
    decreases v, 1
  {
    match v
    case Leaf(_) =>
    case Map(sub) =>
      TraverseDistinct(sub, path);
      TraverseSound(sub, path);
      var t := Traverse(sub, path);
      var all := [(path, v)] + t;
      forall i, j | 0 <= i < j < |all|
        ensures all[i].0 != all[j].0
      {
        assert all[j] == t[j - 1];
        if i > 0 {
          assert all[i] == t[i - 1];
        }
      }
  }

  /** `leaves(d)` lists exactly the non-empty paths indexing can follow to a leaf,
      each once, with the leaf's value. */
  lemma LeavesSound<V>(d: Dict<Node<V>>)
    requires WellFormed(Map(d))
    ensures forall j :: 0 <= j < |Leaves(d, [])| ==>
      |Leaves(d, [])[j].0| > 0 && Descend(Map(d), Leaves(d, [])[j].0) == Ok(Leaf(Leaves(d, [])[j].1))
    ensures DistinctPaths(Leaves(d, []))
  {
    var ts := Traverse(d, []);
    LeavesOfTraverse(d, []);
    TraverseSound(d, []);
    TraverseDistinct(d, []);
    LeafEntriesDistinct(ts);
    forall j | 0 <= j < |Leaves(d, [])|
      ensures |Leaves(d, [])[j].0| > 0 && Descend(Map(d), Leaves(d, [])[j].0) == Ok(Leaf(Leaves(d, [])[j].1))
    {
      var e := Leaves(d, [])[j];
      LeafEntriesMember(ts, e.0, e.1);
      var i :| 0 <= i < |ts| && ts[i] == (e.0, Leaf(e.1));
      assert e.0[0..] == e.0;
    }
  }

  lemma LeavesComplete<V>(d: Dict<Node<V>>, p: Path, x: V)
    requires |p| > 0 && Descend(Map(d), p) == Ok(Leaf(x))
    ensures (p, x) in Leaves(d, [])
  {
    TraverseComplete(d, [], p);
    assert [] + p == p;
    LeavesOfTraverse(d, []);
    LeafEntriesMember(Traverse(d, []), p, x);
  }
}
