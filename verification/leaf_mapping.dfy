/** Mapping a function over the leaves by assigning, one leaf at a time, the mapped
    value back under the leaf's path: what `map_leaves` in trict/trict.py:58-60 and
    fancydict.py:41-43 do. Assigning in `leaves` order gives exactly `MapTree`. */
module LeafMapping {
  import opened Results
  import opened Dicts
  import opened Tree
  import opened TrictUtil
  import opened Traversals
  import opened PathUpdates

  /** `for k, v in ls: recursive_set(n, k, f(v))`, stopping at the first exception. */
  function ApplyLeaves<V>(n: Node<V>, ls: seq<(Path, V)>, f: V -> V): (r: Result<Node<V>>)
    ensures r.Ok? && |ls| > 0 ==> r.value.Map?
    ensures |ls| == 0 ==> r == Ok(n)
    decreases |ls|
  {
    if |ls| == 0 then Ok(n)
    else
      var n' :- RecursiveSet(n, ls[0].0, Leaf(f(ls[0].1)));
      ApplyLeaves(n', ls[1..], f)
  }

  /** Every path of `ls` with `q` put in front. */
  function PrefixAll<V>(q: Path, ls: seq<(Path, V)>): (r: seq<(Path, V)>)
    ensures |r| == |ls| && forall i :: 0 <= i < |ls| ==> r[i] == (q + ls[i].0, ls[i].1)
  {
    seq(|ls|, i requires 0 <= i < |ls| => (q + ls[i].0, ls[i].1))
  }

  /** One step of the loop. */
  lemma ApplyStep<V>(n: Node<V>, ls: seq<(Path, V)>, f: V -> V)
    requires |ls| > 0 && RecursiveSet(n, ls[0].0, Leaf(f(ls[0].1))).Ok?
    ensures ApplyLeaves(n, ls, f) == ApplyLeaves(RecursiveSet(n, ls[0].0, Leaf(f(ls[0].1))).value, ls[1..], f)
  {
  }

  /** Applying a concatenation applies the first part, then the second. */
  lemma {:induction false} ApplyConcat<V>(n: Node<V>, a: seq<(Path, V)>, b: seq<(Path, V)>, f: V -> V)
    requires ApplyLeaves(n, a, f).Ok?
    ensures ApplyLeaves(n, a + b, f) == ApplyLeaves(ApplyLeaves(n, a, f).value, b, f)
    decreases |a|
  {
    if |a| == 0 {
      assert a + b == b;
    } else {
      var n' := RecursiveSet(n, a[0].0, Leaf(f(a[0].1))).value;
      ApplyStep(n, a, f);
      assert (a + b)[0] == a[0];
      ApplyStep(n, a + b, f);
      TailConcat(a, b);
      ApplyConcat(n', a[1..], b, f);
    }
  }

  lemma TailConcat<T>(a: seq<T>, b: seq<T>)
    requires |a| > 0
    ensures (a + b)[1..] == a[1..] + b
  {
  }

  /** A single leaf directly under the root is assigned in place. */
  lemma ApplySingle<V>(es: Dict<Node<V>>, k: string, x: V, f: V -> V)
    ensures ApplyLeaves(Map(es), [([k], x)], f) == Ok(Map(Assign(es, k, Leaf(f(x)))))
  {
    ApplyStep(Map(es), [([k], x)], f);
  }

  lemma PrefixAllConcat<V>(q: Path, a: seq<(Path, V)>, b: seq<(Path, V)>)
    ensures PrefixAll(q, a + b) == PrefixAll(q, a) + PrefixAll(q, b)
  {
  }

  lemma PrefixAllTwice<V>(q: Path, k: string, ls: seq<(Path, V)>)
    ensures PrefixAll(q, PrefixAll([k], ls)) == PrefixAll(q + [k], ls)
  {
    forall i | 0 <= i < |ls|
      ensures q + ([k] + ls[i].0) == (q + [k]) + ls[i].0
    {
    }
  }

  /** The leaves below `prev` are the leaves from the root with `prev` in front. */
  lemma {:induction false} LeavesPrefix<V>(d: Dict<Node<V>>, prev: Path)
    ensures Leaves(d, prev) == PrefixAll(prev, Leaves(d, []))
    decreases d, 0
  {
    if |d| > 0 {
      var (k, child) := d[0];
      assert child < d[0];
      ValueLeavesPrefix(child, prev + [k]);
      ValueLeavesPrefix(child, [k]);
      LeavesPrefix(d[1..], prev);
      assert [] + [k] == [k];
      var inner := ValueLeaves(child, []);
      assert Leaves(d, []) == PrefixAll([k], inner) + Leaves(d[1..], []);
      PrefixAllTwice(prev, k, inner);
      PrefixAllConcat(prev, PrefixAll([k], inner), Leaves(d[1..], []));
    }
  }

  lemma {:induction false} ValueLeavesPrefix<V>(v: Node<V>, path: Path)
    ensures ValueLeaves(v, path) == PrefixAll(path, ValueLeaves(v, []))
    decreases v, 1
  {
    match v
    case Leaf(x) =>
      assert path + [] == path;
    case Map(sub) =>
      LeavesPrefix(sub, path);
  }

  /** Leaf updates below key `k` act on the child stored there, which is then
      assigned back in place. */
  lemma {:induction false} ApplyUnder<V>(es: Dict<Node<V>>, k: string, c: Node<V>, ls: seq<(Path, V)>, f: V -> V)
    requires Lookup(es, k) == Some(c)
    requires forall i :: 0 <= i < |ls| ==> |ls[i].0| > 0
    requires ApplyLeaves(c, ls, f).Ok?
    ensures ApplyLeaves(Map(es), PrefixAll([k], ls), f) == Ok(Map(Assign(es, k, ApplyLeaves(c, ls, f).value)))
    decreases |ls|
  {
    var pls := PrefixAll([k], ls);
    if |ls| == 0 {
      AssignSame(es, k, c);
    } else {
      var (p, x) := ls[0];
      ApplyStep(c, ls, f);
      var c1 := RecursiveSet(c, p, Leaf(f(x))).value;
      var es1 := Assign(es, k, c1);
      assert pls[0] == ([k] + p, x);
      SetUnderKey(es, k, c, p, Leaf(f(x)));
      ApplyStep(Map(es), pls, f);
      PrefixAllTail([k], ls);
      ApplyUnder(es1, k, c1, ls[1..], f);
      AssignTwice(es, k, c1, ApplyLeaves(c, ls, f).value);
    }
  }

  lemma PrefixAllTail<V>(q: Path, ls: seq<(Path, V)>)
    requires |ls| > 0
    ensures PrefixAll(q, ls)[1..] == PrefixAll(q, ls[1..])
    ensures (forall i :: 0 <= i < |ls| ==> |ls[i].0| > 0) ==> forall i :: 0 <= i < |ls[1..]| ==> |ls[1..][i].0| > 0
  {
    assert forall i :: 0 <= i < |ls[1..]| ==> ls[1..][i] == ls[i + 1];
  }

  /** Setting `[k] + p` in a mapping sets `p` in the child under `k` and assigns it back. */
  lemma SetUnderKey<V>(es: Dict<Node<V>>, k: string, c: Node<V>, p: Path, val: Node<V>)
    requires Lookup(es, k) == Some(c) && |p| > 0 && RecursiveSet(c, p, val).Ok?
    ensures RecursiveSet(Map(es), [k] + p, val) == Ok(Map(Assign(es, k, RecursiveSet(c, p, val).value)))
  {
    SetUnfold(es, [k] + p, val);
    assert ([k] + p)[1..] == p;
  }

  /** The leaves of one entry `(k, c)`, sitting after `pre` and before `post`, mapped
      in place. */
  lemma {:induction false} MapValue<V>(pre: Dict<Node<V>>, k: string, c: Node<V>, post: Dict<Node<V>>, f: V -> V)
    requires k !in Keys(pre) && WellFormed(c)
    ensures ApplyLeaves(Map(pre + [(k, c)] + post), ValueLeaves(c, [k]), f) ==
      Ok(Map(pre + [(k, MapNode(c, f))] + post))
    decreases c, 1
  {
    var es := pre + [(k, c)] + post;
    AssignAt(pre, k, c, post, MapNode(c, f));
    match c
    case Leaf(x) =>
      ApplySingle(es, k, x, f);
    case Map(sub) =>
      var ls := Leaves(sub, []);
      assert ApplyLeaves(c, ls, f) == Ok(MapNode(c, f)) by {
        assert [] + sub == sub;
        MapEntries([], sub, f);
        assert [] + MapTree(sub, f) == MapTree(sub, f);
      }
      assert ValueLeaves(c, [k]) == PrefixAll([k], ls) by {
        LeavesPrefix(sub, [k]);
      }
      assert forall i :: 0 <= i < |ls| ==> |ls[i].0| > 0 by {
        LeavesSound(sub);
      }
      assert Lookup(es, k) == Some(c) by {
        LookupMiddle(pre, k, c, post);
      }
      ApplyUnder(es, k, c, ls, f);
  }

  /** Mapping the leaves of the entries `d` that follow the already mapped `pre`. */
  lemma {:induction false} MapEntries<V>(pre: Dict<Node<V>>, d: Dict<Node<V>>, f: V -> V)
    requires DistinctKeys(pre + d)
    requires forall i :: 0 <= i < |d| ==> WellFormed(d[i].1)
    ensures ApplyLeaves(Map(pre + d), Leaves(d, []), f) == Ok(Map(pre + MapTree(d, f)))
    decreases d, 0
  {
    if |d| == 0 {
      assert pre + d == pre;
    } else {
      var (k, c) := d[0];
      assert c < d[0];
      var rest := d[1..];
      var c' := MapNode(c, f);
      var mid := pre + [(k, c')];
      assert pre + d == pre + [(k, c)] + rest;
      assert k !in Keys(pre) && DistinctKeys(mid + rest) by {
        SplitDistinct(pre, k, c, rest, c');
      }
      MapValue(pre, k, c, rest, f);
      assert forall i :: 0 <= i < |rest| ==> WellFormed(rest[i].1) by {
        assert forall i :: 0 <= i < |rest| ==> rest[i] == d[i + 1];
      }
      MapEntries(mid, rest, f);
      assert Leaves(d, []) == ValueLeaves(c, [k]) + Leaves(rest, []) by {
        assert [] + [k] == [k];
      }
      ApplyConcat(Map(pre + d), ValueLeaves(c, [k]), Leaves(rest, []), f);
      assert MapTree(d, f) == [(k, c')] + MapTree(rest, f);
      AppendAssoc(pre, [(k, c')], MapTree(rest, f));
    }
  }

  /** Assigning `f(v)` back under the path of every leaf `v` of a well-formed tree,
      in `leaves` order, succeeds and maps `f` over the leaves, keeping every key
      where it was. */
  lemma MapLeavesIsMapTree<V>(d: Dict<Node<V>>, f: V -> V)
    requires WellFormed(Map(d))
    ensures ApplyLeaves(Map(d), Leaves(d, []), f) == Ok(Map(MapTree(d, f)))
  {
    assert [] + d == d;
    MapEntries([], d, f);
    assert [] + MapTree(d, f) == MapTree(d, f);
  }
}
