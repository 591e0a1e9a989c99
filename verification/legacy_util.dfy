/** The older helper module `util.py`, which `fancydict.py` imports. Its
    `recursive_set` and `iter_keys` are the same code as in trict/util.py (modelled
    by `TrictUtil.RecursiveSet` and `TrictUtil.IterKeys`); its `flatten_dict` and
    `traverse` differ and are modelled here. */
module LegacyUtil {
  import opened Results
  import opened Dicts
  import opened Strings
  import opened Tree
  import opened TrictUtil
  import opened Traversals
  import opened PathKeys
  import opened LeafMapping
  import opened Flattening

  /** `d.pop(k)`: the value stored under `k` and the dict without it; KeyError when
      `k` is absent. */
  function Pop<X>(d: Dict<X>, k: string): (r: Result<(X, Dict<X>)>)
    ensures r.Err? <==> k !in Keys(d)
    ensures r.Err? ==> r.error == KeyError
    ensures r.Ok? ==> Lookup(d, k) == Some(r.value.0) && |r.value.1| == |d| - 1
    ensures r.Ok? ==> forall k' :: k' != k ==> Lookup(r.value.1, k') == Lookup(d, k')
    ensures r.Ok? && DistinctKeys(d) ==> k !in Keys(r.value.1) && DistinctKeys(r.value.1)
  {
    match Lookup(d, k)
    case None => Err(KeyError)
    case Some(x) => Ok((x, Remove(d, k)))
  }

  /** The key an entry of `flatten_dict` is stored under: `k` itself at the top,
      `sep.join([prefix, k])` below it (util.py:74). */
  function NewKey(level: nat, prefix: string, k: string, sep: string): string {
    if level == 0 then k else Join([prefix, k], sep)
  }

  /** The loop of `flatten_dict(d, sep, max_depth, prefix, level)` (util.py:68-84)
      over the entries `items` of `d` still to visit, with `ret` the copy of `d` being
      rewritten. A mapping above `max_depth` is popped from the copy and replaced by
      its own flattening one level down; below the top any other value is popped and
      stored again under `prefix + sep + k`; at the top it stays where it is. */
  function FlattenItems<V>(items: Dict<Node<V>>, sep: string, maxDepth: int, prefix: string, level: nat,
                           ret: Dict<Node<V>>): Result<Dict<Node<V>>>
    decreases maxDepth - level, 0, |items|
  {
    if |items| == 0 then Ok(ret)
    else
      var (k, v) := items[0];
      var newK := NewKey(level, prefix, k, sep);
      if v.Map? && level < maxDepth then
        var popped :- Pop(ret, k);
        var sub :- FlattenLevel(popped.0, sep, maxDepth, newK, level + 1);
        FlattenItems(items[1..], sep, maxDepth, prefix, level, Update(popped.1, sub))
      else if level != 0 then
        var popped :- Pop(ret, k);
        FlattenItems(items[1..], sep, maxDepth, prefix, level, Assign(popped.1, newK, popped.0))
      else
        FlattenItems(items[1..], sep, maxDepth, prefix, level, ret)
  }

  /** One call of `flatten_dict` on the value `v` (util.py:36-84): the deep copy, then
      the loop. A value that is not a dict has no `items()` and raises
      AttributeError. */
  function FlattenLevel<V>(v: Node<V>, sep: string, maxDepth: int, prefix: string, level: nat): Result<Dict<Node<V>>>
    decreases maxDepth - level, 1
  {
    match v
    case Leaf(_) => Err(AttributeError)
    case Map(es) => FlattenItems(es, sep, maxDepth, prefix, level, es)
  }

  /** `flatten_dict(d, sep, max_depth)` from the top (`prefix=''`, `level=0`). */
  function FlattenToDepth<V>(d: Dict<Node<V>>, sep: string, maxDepth: int): Result<Dict<Node<V>>> {
    FlattenItems(d, sep, maxDepth, "", 0, d)
  }

  /** The top-level entries holding a leaf, in order. */
  function Scalars<V>(d: Dict<Node<V>>): (r: Dict<Node<V>>)
    ensures forall j :: 0 <= j < |r| ==> r[j] in d && r[j].1.Leaf?
  {
    if |d| == 0 then [] else (if d[0].1.Leaf? then [d[0]] else []) + Scalars(d[1..])
  }

  /** The top-level entries holding a mapping, in order. */
  function Nested<V>(d: Dict<Node<V>>): (r: Dict<Node<V>>)
    ensures forall j :: 0 <= j < |r| ==> r[j] in d && r[j].1.Map?
  {
    if |d| == 0 then [] else (if d[0].1.Map? then [d[0]] else []) + Nested(d[1..])
  }

  /** Each leaf as an entry keyed by its `sep`-joined path. */
  function JoinedLeaves<V>(ls: seq<(Path, V)>, sep: string): (r: Dict<Node<V>>)
    ensures |r| == |ls| && forall i :: 0 <= i < |ls| ==> r[i] == (Join(ls[i].0, sep), Leaf(ls[i].1))
  {
    seq(|ls|, i requires 0 <= i < |ls| => (Join(ls[i].0, sep), Leaf(ls[i].1)))
  }

  /** Every mapping below `n` is reached within `b` more levels, so that a walk given
      `b` levels of depth flattens all of them. */
  predicate Within<V>(n: Node<V>, b: int) {
    match n
    case Leaf(_) => true
    case Map(es) => forall i :: 0 <= i < |es| ==> (es[i].1.Map? ==> b > 0) && Within(es[i].1, b - 1)
  }

  // ---------------------------------------------------------------------------
  // A depth of zero or less leaves the dict as it is.

  lemma {:induction false} ShallowItems<V>(items: Dict<Node<V>>, sep: string, maxDepth: int, ret: Dict<Node<V>>)
    requires maxDepth <= 0
    ensures FlattenItems(items, sep, maxDepth, "", 0, ret) == Ok(ret)
    decreases |items|
  {
    if |items| > 0 {
      ShallowItems(items[1..], sep, maxDepth, ret);
    }
  }

  /** With `max_depth` at most 0 nothing is flattened: the result is a copy of `d`. */
  lemma FlattenShallow<V>(d: Dict<Node<V>>, sep: string, maxDepth: int)
    requires maxDepth <= 0
    ensures FlattenToDepth(d, sep, maxDepth) == Ok(d)
  {
    ShallowItems(d, sep, maxDepth, d);
  }

  // ---------------------------------------------------------------------------
  // Sequence facts used by the full-depth proof.

  lemma KeysConcat<X>(a: Dict<X>, b: Dict<X>)
    ensures Keys(a + b) == Keys(a) + Keys(b)
  {
  }

  lemma {:induction false} LeavesConcat<V>(a: Dict<Node<V>>, b: Dict<Node<V>>, q: Path)
    ensures Leaves(a + b, q) == Leaves(a, q) + Leaves(b, q)
    decreases |a|
  {
    if |a| == 0 {
      assert a + b == b;
    } else {
      assert (a + b)[0] == a[0];
      assert (a + b)[1..] == a[1..] + b;
      LeavesConcat(a[1..], b, q);
    }
  }

  /** The leaves of one entry. */
  lemma LeavesSingle<V>(x: (string, Node<V>), q: Path)
    ensures Leaves([x], q) == ValueLeaves(x.1, q + [x.0])
  {
    assert [x][1..] == [];
  }

  lemma JoinedLeavesConcat<V>(a: seq<(Path, V)>, b: seq<(Path, V)>, sep: string)
    ensures JoinedLeaves(a + b, sep) == JoinedLeaves(a, sep) + JoinedLeaves(b, sep)
  {
  }

  lemma {:induction false} ScalarsConcat<V>(a: Dict<Node<V>>, b: Dict<Node<V>>)
    ensures Scalars(a + b) == Scalars(a) + Scalars(b)
    ensures Nested(a + b) == Nested(a) + Nested(b)
    decreases |a|
  {
    if |a| == 0 {
      assert a + b == b;
    } else {
      var hs := if a[0].1.Leaf? then [a[0]] else [];
      var hn := if a[0].1.Map? then [a[0]] else [];
      assert Scalars(a + b) == hs + Scalars(a[1..] + b) && Nested(a + b) == hn + Nested(a[1..] + b) by {
        assert (a + b)[0] == a[0];
        assert (a + b)[1..] == a[1..] + b;
      }
      ScalarsConcat(a[1..], b);
      AppendAssoc(hs, Scalars(a[1..]), Scalars(b));
      AppendAssoc(hn, Nested(a[1..]), Nested(b));
    }
  }

  /** The middle of a dict with distinct keys shares no key with either side. */
  lemma DistinctMiddle<X>(a: Dict<X>, b: Dict<X>, c: Dict<X>)
    requires DistinctKeys(a + b + c)
    ensures DistinctKeys(b)
    ensures forall j :: 0 <= j < |b| ==> b[j].0 !in Keys(a)
  {
    var d := a + b + c;
    forall i, j | 0 <= i < j < |b|
      ensures b[i].0 != b[j].0
    {
      assert d[|a| + i] == b[i] && d[|a| + j] == b[j];
    }
    forall j | 0 <= j < |b|
      ensures b[j].0 !in Keys(a)
    {
      forall i | 0 <= i < |a|
        ensures a[i].0 != b[j].0
      {
        assert d[i] == a[i] && d[|a| + j] == b[j];
      }
      NotInKeys(a, b[j].0);
    }
  }

  /** The mapping entries of a well-formed dict free of `sep` form a well-formed
      dict free of `sep`. */
  lemma {:induction false} NestedWellFormed<V>(d: Dict<Node<V>>, sep: string)
    requires WellFormed(Map(d)) && SepFree(Map(d), sep)
    ensures WellFormed(Map(Nested(d))) && SepFree(Map(Nested(d)), sep)
    decreases |d|
  {
    if |d| > 0 {
      WellFormedParts(d);
      assert SepFree(Map(d[1..]), sep) by {
        SepFreeUnfold(d, sep);
      }
      NestedWellFormed(d[1..], sep);
      var r := Nested(d[1..]);
      if d[0].1.Map? {
        assert !Contains(d[0].0, sep) && SepFree(d[0].1, sep) by {
          SepFreeUnfold(d, sep);
        }
        forall j | 0 <= j < |r|
          ensures r[j].0 != d[0].0
        {
          var e := r[j];
          var i :| 0 <= i < |d[1..]| && d[1..][i] == e;
          assert d[i + 1] == e;
        }
        ConsWellFormed(d[0], r, sep);
      }
    }
  }

  /** An entry put in front of a well-formed dict free of `sep`, with a key new to it. */
  lemma ConsWellFormed<V>(e: (string, Node<V>), r: Dict<Node<V>>, sep: string)
    requires WellFormed(e.1) && SepFree(e.1, sep) && !Contains(e.0, sep)
    requires WellFormed(Map(r)) && SepFree(Map(r), sep)
    requires forall j :: 0 <= j < |r| ==> r[j].0 != e.0
    ensures WellFormed(Map([e] + r)) && SepFree(Map([e] + r), sep)
  {
    var n := [e] + r;
    forall i, j | 0 <= i < j < |n|
      ensures n[i].0 != n[j].0
    {
      if i > 0 {
        assert n[i] == r[i - 1];
      }
      assert n[j] == r[j - 1];
    }
    assert forall j :: 0 <= j < |n| ==> n[j] == e || n[j] == r[j - 1];
  }

  /** The leaf paths below `q` in a well-formed dict free of a one-character `sep`
      join to distinct keys, each longer than `q`. */
  lemma LevelDistinct<V>(es: Dict<Node<V>>, q: Path, sep: string)
    requires |sep| == 1 && PathSepFree(q, sep)
    requires WellFormed(Map(es)) && SepFree(Map(es), sep)
    ensures DistinctKeys(JoinedLeaves(Leaves(es, q), sep))
  {
    var l0 := Leaves(es, []);
    var w := Leaves(es, q);
    LeavesPrefix(es, q);
    LeafPathsSepFree(es, sep);
    forall a, b | 0 <= a < b < |w|
      ensures Join(w[a].0, sep) != Join(w[b].0, sep)
    {
      PathSepFreeConcat(q, l0[a].0, sep);
      PathSepFreeConcat(q, l0[b].0, sep);
      assert (q + l0[a].0)[|q|..] == l0[a].0;
      assert (q + l0[b].0)[|q|..] == l0[b].0;
      JoinInjective(w[a].0, w[b].0, sep);
    }
  }

  /** Every leaf path of a mapping below the path `p` extends `p` by at least one key,
      so below a non-empty `q + [k]` its joined key contains `sep`. */
  lemma DeepKeysContainSep<V>(v: Node<V>, p: Path, sep: string)
    requires |p| >= 2 || (|p| >= 1 && v.Map? && WellFormed(v))
    ensures forall j :: 0 <= j < |ValueLeaves(v, p)| ==> Contains(Join(ValueLeaves(v, p)[j].0, sep), sep)
  {
    var ls := ValueLeaves(v, p);
    ValueLeavesPrefix(v, p);
    if v.Map? && WellFormed(v) {
      LeavesSound(v.entries);
    }
    forall j | 0 <= j < |ls|
      ensures Contains(Join(ls[j].0, sep), sep)
    {
      JoinContainsSep(ls[j].0, sep);
    }
  }

  /** No top-level key of a dict free of `sep` contains it. */
  lemma TopKeysSepFree<V>(d: Dict<Node<V>>, sep: string)
    requires SepFree(Map(d), sep)
    ensures forall j :: 0 <= j < |Keys(d)| ==> !Contains(Keys(d)[j], sep)
  {
  }

  /** Popping the first key of `items + acc` gives its value and the rest. */
  lemma PopFront<X>(items: Dict<X>, acc: Dict<X>)
    requires |items| > 0
    ensures Pop(items + acc, items[0].0) == Ok((items[0].1, items[1..] + acc))
  {
    var d := items + acc;
    var k := items[0].0;
    PositionIs(d, k, 0);
    assert Lookup(d, k) == Some(items[0].1);
    assert Remove(d, k) == d[..0] + d[1..];
    assert d[..0] + d[1..] == items[1..] + acc;
  }

  /** Storing entries whose keys are distinct and new appends them. */
  lemma AssignFresh<X>(d: Dict<X>, e: Dict<X>)
    requires DistinctKeys(e) && forall j :: 0 <= j < |e| ==> e[j].0 !in Keys(d)
    ensures Update(d, e) == d + e
    ensures |e| == 1 ==> Assign(d, e[0].0, e[0].1) == d + e
  {
    UpdateFresh(d, e);
  }

  /** One turn of the loop on a mapping that is flattened further. */
  lemma StepDeeper<V>(items: Dict<Node<V>>, k: string, v: Node<V>, sep: string, maxDepth: int, prefix: string, level: nat,
                      nk: string, ret: Dict<Node<V>>, rest: Dict<Node<V>>, sub: Dict<Node<V>>)
    requires |items| > 0 && items[0] == (k, v) && v.Map? && level < maxDepth
    requires Pop(ret, k) == Ok((v, rest))
    requires NewKey(level, prefix, k, sep) == nk
    requires FlattenLevel(v, sep, maxDepth, nk, level + 1) == Ok(sub)
    ensures FlattenItems(items, sep, maxDepth, prefix, level, ret) ==
      FlattenItems(items[1..], sep, maxDepth, prefix, level, Update(rest, sub))
  {
  }

  /** One turn of the loop on a value stored again under its new key. */
  lemma StepRekey<V>(items: Dict<Node<V>>, k: string, v: Node<V>, sep: string, maxDepth: int, prefix: string, level: nat,
                     nk: string, ret: Dict<Node<V>>, rest: Dict<Node<V>>)
    requires |items| > 0 && items[0] == (k, v) && !(v.Map? && level < maxDepth) && level != 0
    requires Pop(ret, k) == Ok((v, rest))
    requires NewKey(level, prefix, k, sep) == nk
    ensures FlattenItems(items, sep, maxDepth, prefix, level, ret) ==
      FlattenItems(items[1..], sep, maxDepth, prefix, level, Assign(rest, nk, v))
  {
  }

  // ---------------------------------------------------------------------------
  // Below the top: every entry is popped and its leaves appended under joined keys.

  /** The new entries for `es[i]` share no key with what is still in the copy. */
  lemma InnerFresh<V>(es: Dict<Node<V>>, i: nat, sep: string, q: Path)
    requires |sep| == 1 && |q| >= 1 && PathSepFree(q, sep) && i < |es|
    requires WellFormed(Map(es)) && SepFree(Map(es), sep)
    ensures var s := JoinedLeaves(ValueLeaves(es[i].1, q + [es[i].0]), sep);
      DistinctKeys(s) &&
      forall j :: 0 <= j < |s| ==> s[j].0 !in Keys(es[i + 1..] + JoinedLeaves(Leaves(es[..i], q), sep))
  {
    var (k, v) := es[i];
    var s := JoinedLeaves(ValueLeaves(v, q + [k]), sep);
    var acc := JoinedLeaves(Leaves(es[..i], q), sep);
    var rest := es[i + 1..];
    var post := JoinedLeaves(Leaves(rest, q), sep);
    assert es == es[..i] + [es[i]] + rest;
    LeavesConcat(es[..i] + [es[i]], rest, q);
    LeavesConcat(es[..i], [es[i]], q);
    LeavesSingle(es[i], q);
    JoinedLeavesConcat(Leaves(es[..i], q) + ValueLeaves(v, q + [k]), Leaves(rest, q), sep);
    JoinedLeavesConcat(Leaves(es[..i], q), ValueLeaves(v, q + [k]), sep);
    LevelDistinct(es, q, sep);
    DistinctMiddle(acc, s, post);
    DeepKeysContainSep(v, q + [k], sep);
    KeysConcat(rest, acc);
    forall j | 0 <= j < |s|
      ensures s[j].0 !in Keys(rest)
    {
      forall m | 0 <= m < |rest|
        ensures rest[m].0 != s[j].0
      {
        assert rest[m] == es[i + 1 + m];
      }
      NotInKeys(rest, s[j].0);
    }
  }

  /** The joined leaves of `es[..i + 1]` are those of `es[..i]` and of `es[i]`. */
  lemma LeavesUpTo<V>(es: Dict<Node<V>>, i: nat, q: Path, sep: string)
    requires i < |es|
    ensures JoinedLeaves(Leaves(es[..i + 1], q), sep) ==
      JoinedLeaves(Leaves(es[..i], q), sep) + JoinedLeaves(ValueLeaves(es[i].1, q + [es[i].0]), sep)
  {
    SliceSnoc(es, i);
    LeavesConcat(es[..i], [es[i]], q);
    LeavesSingle(es[i], q);
    JoinedLeavesConcat(Leaves(es[..i], q), ValueLeaves(es[i].1, q + [es[i].0]), sep);
  }

  /** Below the top, the new key extends the joined path by one key. */
  lemma NewKeyBelow(q: Path, k: string, sep: string)
    requires |q| >= 1
    ensures NewKey(|q|, Join(q, sep), k, sep) == Join(q + [k], sep)
  {
    var pair := [Join(q, sep), k];
    assert pair[1..] == [k];
    assert Join(pair, sep) == Join(q, sep) + sep + k;
    JoinSnoc(q, k, sep);
  }

  /** One turn of the loop below the top, before the new entries are known to be
      fresh. */
  lemma {:induction false} InnerTurn<V>(es: Dict<Node<V>>, i: nat, sep: string, maxDepth: int, q: Path)
    requires |sep| == 1 && |q| >= 1 && PathSepFree(q, sep) && i < |es|
    requires WellFormed(Map(es)) && SepFree(Map(es), sep) && Within(Map(es), maxDepth - |q|)
    ensures var acc := JoinedLeaves(Leaves(es[..i], q), sep);
      var s := JoinedLeaves(ValueLeaves(es[i].1, q + [es[i].0]), sep);
      FlattenItems(es[i..], sep, maxDepth, Join(q, sep), |q|, es[i..] + acc) ==
        FlattenItems(es[i + 1..], sep, maxDepth, Join(q, sep), |q|,
          if es[i].1.Map? then Update(es[i + 1..] + acc, s) else Assign(es[i + 1..] + acc, Join(q + [es[i].0], sep), es[i].1))
    decreases es, 0, |es| - i, 1
  {
    if es[i].1.Map? {
      ChildFacts(es, i, sep, maxDepth - |q|);
      assert PathSepFree(q + [es[i].0], sep) by {
        PathSepFreeConcat(q, [es[i].0], sep);
      }
      InnerDeeper(es, i, sep, maxDepth, q);
    } else {
      InnerRekey(es, i, sep, maxDepth, q);
    }
  }

  /** The turn on a mapping below the top: it is flattened one level further and its
      entries are merged into the copy. */
  lemma {:induction false} InnerDeeper<V>(es: Dict<Node<V>>, i: nat, sep: string, maxDepth: int, q: Path)
    requires i < |es| && es[i].1.Map? && |sep| == 1 && 1 <= |q| < maxDepth && PathSepFree(q + [es[i].0], sep)
    requires WellFormed(es[i].1) && SepFree(es[i].1, sep) && Within(es[i].1, maxDepth - |q| - 1)
    ensures var acc := JoinedLeaves(Leaves(es[..i], q), sep);
      FlattenItems(es[i..], sep, maxDepth, Join(q, sep), |q|, es[i..] + acc) ==
        FlattenItems(es[i + 1..], sep, maxDepth, Join(q, sep), |q|,
          Update(es[i + 1..] + acc, JoinedLeaves(ValueLeaves(es[i].1, q + [es[i].0]), sep)))
    decreases es, 0, |es| - i, 0
  {
    var (k, v) := es[i];
    assert v < es[i];
    var items := es[i..];
    var acc := JoinedLeaves(Leaves(es[..i], q), sep);
    var p := q + [k];
    var s := JoinedLeaves(ValueLeaves(v, p), sep);
    SliceHead(es, i);
    assert Pop(items + acc, k) == Ok((v, es[i + 1..] + acc)) by {
      PopFront(items, acc);
    }
    ChildLevel(k, v, sep, maxDepth, q);
    InnerTurnMap(items, k, v, sep, maxDepth, q, items + acc, es[i + 1..] + acc, s);
  }

  /** A mapping under key `k` below path `q` flattens to its joined leaves. */
  lemma ChildLevel<V>(k: string, v: Node<V>, sep: string, maxDepth: int, q: Path)
    requires v.Map? && |sep| == 1 && 1 <= |q| < maxDepth && PathSepFree(q + [k], sep)
    requires WellFormed(v) && SepFree(v, sep) && Within(v, maxDepth - |q| - 1)
    ensures FlattenLevel(v, sep, maxDepth, Join(q + [k], sep), |q| + 1) ==
      Ok(JoinedLeaves(ValueLeaves(v, q + [k]), sep))
    decreases v, 1, 0, 1
  {
    var p := q + [k];
    assert |p| == |q| + 1;
    InnerNode(v, sep, maxDepth, p);
  }

  /** What the predicates on a mapping say about its entry `i`. */
  lemma ChildFacts<V>(es: Dict<Node<V>>, i: nat, sep: string, b: int)
    requires i < |es| && WellFormed(Map(es)) && SepFree(Map(es), sep) && Within(Map(es), b)
    ensures WellFormed(es[i].1) && SepFree(es[i].1, sep) && !Contains(es[i].0, sep)
    ensures Within(es[i].1, b - 1) && (es[i].1.Map? ==> b > 0)
  {
  }

  /** The turn on a leaf below the top: it is stored again under its joined key. */
  lemma InnerRekey<V>(es: Dict<Node<V>>, i: nat, sep: string, maxDepth: int, q: Path)
    requires |q| >= 1 && i < |es| && es[i].1.Leaf?
    ensures var acc := JoinedLeaves(Leaves(es[..i], q), sep);
      FlattenItems(es[i..], sep, maxDepth, Join(q, sep), |q|, es[i..] + acc) ==
        FlattenItems(es[i + 1..], sep, maxDepth, Join(q, sep), |q|,
          Assign(es[i + 1..] + acc, Join(q + [es[i].0], sep), es[i].1))
  {
    var (k, v) := es[i];
    var items := es[i..];
    var acc := JoinedLeaves(Leaves(es[..i], q), sep);
    SliceHead(es, i);
    assert NewKey(|q|, Join(q, sep), k, sep) == Join(q + [k], sep) by {
      NewKeyBelow(q, k, sep);
    }
    assert Pop(items + acc, k) == Ok((v, es[i + 1..] + acc)) by {
      PopFront(items, acc);
    }
    StepRekey(items, k, v, sep, maxDepth, Join(q, sep), |q|, Join(q + [k], sep), items + acc, es[i + 1..] + acc);
  }

  lemma InnerTurnMap<V>(items: Dict<Node<V>>, k: string, v: Node<V>, sep: string, maxDepth: int, q: Path,
                        ret: Dict<Node<V>>, rest: Dict<Node<V>>, sub: Dict<Node<V>>)
    requires |items| > 0 && items[0] == (k, v) && v.Map? && 1 <= |q| < maxDepth
    requires Pop(ret, k) == Ok((v, rest))
    requires FlattenLevel(v, sep, maxDepth, Join(q + [k], sep), |q| + 1) == Ok(sub)
    ensures FlattenItems(items, sep, maxDepth, Join(q, sep), |q|, ret) ==
      FlattenItems(items[1..], sep, maxDepth, Join(q, sep), |q|, Update(rest, sub))
  {
    NewKeyBelow(q, k, sep);
  }

  /** What the copy holds after the turn on `es[i]` below the top: the loop
      invariant again, one entry further on. */
  lemma InnerNext<V>(es: Dict<Node<V>>, i: nat, sep: string, q: Path)
    requires |sep| == 1 && |q| >= 1 && PathSepFree(q, sep) && i < |es|
    requires WellFormed(Map(es)) && SepFree(Map(es), sep)
    ensures var acc := JoinedLeaves(Leaves(es[..i], q), sep);
      var s := JoinedLeaves(ValueLeaves(es[i].1, q + [es[i].0]), sep);
      (if es[i].1.Map? then Update(es[i + 1..] + acc, s) else Assign(es[i + 1..] + acc, Join(q + [es[i].0], sep), es[i].1)) ==
        es[i + 1..] + JoinedLeaves(Leaves(es[..i + 1], q), sep)
  {
    var (k, v) := es[i];
    var rest := es[i + 1..];
    var acc := JoinedLeaves(Leaves(es[..i], q), sep);
    var s := JoinedLeaves(ValueLeaves(v, q + [k]), sep);
    assert (if v.Map? then Update(rest + acc, s) else Assign(rest + acc, Join(q + [k], sep), v)) == rest + acc + s by {
      InnerFresh(es, i, sep, q);
      AssignFresh(rest + acc, s);
      if v.Leaf? {
        assert s == [(Join(q + [k], sep), v)];
      }
    }
    assert JoinedLeaves(Leaves(es[..i + 1], q), sep) == acc + s by {
      LeavesUpTo(es, i, q, sep);
    }
    Regroup(rest, acc, s, JoinedLeaves(Leaves(es[..i + 1], q), sep));
  }

  /** One turn of the loop below the top. */
  lemma {:induction false} InnerStep<V>(es: Dict<Node<V>>, i: nat, sep: string, maxDepth: int, q: Path)
    requires |sep| == 1 && |q| >= 1 && PathSepFree(q, sep) && i < |es|
    requires WellFormed(Map(es)) && SepFree(Map(es), sep) && Within(Map(es), maxDepth - |q|)
    ensures FlattenItems(es[i..], sep, maxDepth, Join(q, sep), |q|, es[i..] + JoinedLeaves(Leaves(es[..i], q), sep))
      == FlattenItems(es[i + 1..], sep, maxDepth, Join(q, sep), |q|, es[i + 1..] + JoinedLeaves(Leaves(es[..i + 1], q), sep))
    decreases es, 0, |es| - i, 2
  {
    InnerTurn(es, i, sep, maxDepth, q);
    InnerNext(es, i, sep, q);
  }

  lemma Regroup<X>(rest: Dict<X>, acc: Dict<X>, s: Dict<X>, next: Dict<X>)
    requires next == acc + s
    ensures rest + acc + s == rest + next
  {
  }

  /** Below the top, the entries `es[i..]` still to visit sit in front of the joined
      leaves of `es[..i]`; the walk ends with the joined leaves of all of `es`. */
  lemma {:induction false} InnerItems<V>(es: Dict<Node<V>>, i: nat, sep: string, maxDepth: int, q: Path)
    requires |sep| == 1 && |q| >= 1 && PathSepFree(q, sep) && i <= |es|
    requires WellFormed(Map(es)) && SepFree(Map(es), sep) && Within(Map(es), maxDepth - |q|)
    ensures FlattenItems(es[i..], sep, maxDepth, Join(q, sep), |q|, es[i..] + JoinedLeaves(Leaves(es[..i], q), sep))
      == Ok(JoinedLeaves(Leaves(es, q), sep))
    decreases es, 0, |es| - i, 3
  {
    if i == |es| {
      var acc := JoinedLeaves(Leaves(es[..i], q), sep);
      assert es[..i] == es;
      assert es[i..] + acc == acc;
    } else {
      InnerStep(es, i, sep, maxDepth, q);
      InnerItems(es, i + 1, sep, maxDepth, q);
    }
  }

  /** Flattening a mapping one level or more below the top gives its leaves under
      their joined paths, in order. */
  lemma {:induction false} InnerNode<V>(v: Node<V>, sep: string, maxDepth: int, q: Path)
    requires |sep| == 1 && |q| >= 1 && PathSepFree(q, sep)
    requires v.Map? && WellFormed(v) && SepFree(v, sep) && Within(v, maxDepth - |q|)
    ensures FlattenLevel(v, sep, maxDepth, Join(q, sep), |q|) == Ok(JoinedLeaves(ValueLeaves(v, q), sep))
    decreases v, 1, 0, 0
  {
    var es := v.entries;
    InnerItems(es, 0, sep, maxDepth, q);
    assert es[0..] == es && es[..0] == [];
    assert es + JoinedLeaves(Leaves(es[..0], q), sep) == es;
  }

  // ---------------------------------------------------------------------------
  // At the top: leaves stay in place, mappings are popped and their leaves appended.

  /** One turn of the loop on a top-level leaf: nothing moves. */
  lemma StepKeep<V>(items: Dict<Node<V>>, sep: string, maxDepth: int, ret: Dict<Node<V>>)
    requires |items| > 0 && !(items[0].1.Map? && 0 < maxDepth)
    ensures FlattenItems(items, sep, maxDepth, "", 0, ret) == FlattenItems(items[1..], sep, maxDepth, "", 0, ret)
  {
  }

  lemma SliceSnoc<X>(d: seq<X>, i: nat)
    requires i < |d|
    ensures d[..i + 1] == d[..i] + [d[i]]
  {
  }

  lemma SliceHead<X>(d: seq<X>, i: nat)
    requires i < |d|
    ensures d[i..][0] == d[i] && d[i..][1..] == d[i + 1..] && d[i..] == [d[i]] + d[i + 1..]
  {
  }

  lemma SliceSplit<X>(d: seq<X>, i: nat)
    requires i <= |d|
    ensures d == d[..i] + d[i..]
  {
  }

  lemma ScalarsOne<V>(x: (string, Node<V>))
    ensures Scalars([x]) == (if x.1.Leaf? then [x] else [])
    ensures Nested([x]) == (if x.1.Map? then [x] else [])
  {
    assert [x][1..] == [];
  }

  /** The split of the top-level entries before and after `d[i]`. */
  lemma TopSplit<V>(d: Dict<Node<V>>, i: nat)
    requires i < |d|
    ensures Scalars(d[..i + 1]) == Scalars(d[..i]) + (if d[i].1.Leaf? then [d[i]] else [])
    ensures Nested(d[..i + 1]) == Nested(d[..i]) + (if d[i].1.Map? then [d[i]] else [])
    ensures Nested(d) == Nested(d[..i + 1]) + Nested(d[i + 1..])
  {
    SliceSnoc(d, i);
    ScalarsConcat(d[..i], [d[i]]);
    ScalarsOne(d[i]);
    SliceSplit(d, i + 1);
    ScalarsConcat(d[..i + 1], d[i + 1..]);
  }

  /** Popping a key that sits between two parts leaves the parts. */
  lemma PopMiddle<X>(a: Dict<X>, k: string, x: X, b: Dict<X>)
    requires k !in Keys(a)
    ensures Pop(a + [(k, x)] + b, k) == Ok((x, a + b))
  {
    LookupMiddle(a, k, x, b);
    RemoveMiddle(a, k, x, b);
  }

  lemma EmptyRight<X>(a: seq<X>)
    ensures a + [] == a
  {
  }

  lemma Regroup3<X>(a: Dict<X>, x: (string, X), b: Dict<X>, c: Dict<X>)
    ensures a + ([x] + b) + c == (a + [x]) + b + c
    ensures a + ([x] + b) + c == a + [x] + (b + c)
    ensures a + (b + c) == a + b + c
  {
  }

  /** The joined leaves of a top-level mapping `d[i]` share no key with what is still
      in the copy. */
  lemma TopFresh<V>(d: Dict<Node<V>>, i: nat, sep: string)
    requires |sep| == 1 && i < |d| && d[i].1.Map?
    requires WellFormed(Map(d)) && SepFree(Map(d), sep)
    ensures var s := JoinedLeaves(ValueLeaves(d[i].1, [d[i].0]), sep);
      DistinctKeys(s) &&
      forall j :: 0 <= j < |s| ==>
        s[j].0 !in Keys(Scalars(d[..i]) + d[i + 1..] + JoinedLeaves(Leaves(Nested(d[..i]), []), sep))
  {
    var s := JoinedLeaves(ValueLeaves(d[i].1, [d[i].0]), sep);
    var kept := Scalars(d[..i]);
    var rest := d[i + 1..];
    var acc := JoinedLeaves(Leaves(Nested(d[..i]), []), sep);
    TopFreshNested(d, i, sep);
    TopFreshScalars(d, i, sep);
    KeysConcat(kept + rest, acc);
    KeysConcat(kept, rest);
  }

  /** The joined leaves of a top-level mapping are distinct, and distinct from those
      of the mappings before it. */
  lemma TopFreshNested<V>(d: Dict<Node<V>>, i: nat, sep: string)
    requires |sep| == 1 && i < |d| && d[i].1.Map?
    requires WellFormed(Map(d)) && SepFree(Map(d), sep)
    ensures var s := JoinedLeaves(ValueLeaves(d[i].1, [d[i].0]), sep);
      DistinctKeys(s) &&
      forall j :: 0 <= j < |s| ==> s[j].0 !in Keys(JoinedLeaves(Leaves(Nested(d[..i]), []), sep))
  {
    var (k, v) := d[i];
    var rest := d[i + 1..];
    var pre := Leaves(Nested(d[..i]), []);
    TopSplit(d, i);
    var n := Nested(d);
    assert n == Nested(d[..i]) + [d[i]] + Nested(rest);
    assert Leaves(n, []) == pre + ValueLeaves(v, [k]) + Leaves(Nested(rest), []) by {
      LeavesConcat(Nested(d[..i]) + [d[i]], Nested(rest), []);
      LeavesConcat(Nested(d[..i]), [d[i]], []);
      LeavesSingle(d[i], []);
      assert [] + [k] == [k];
    }
    assert JoinedLeaves(Leaves(n, []), sep) == JoinedLeaves(pre, sep) + JoinedLeaves(ValueLeaves(v, [k]), sep) +
      JoinedLeaves(Leaves(Nested(rest), []), sep) by {
      JoinedLeavesConcat(pre + ValueLeaves(v, [k]), Leaves(Nested(rest), []), sep);
      JoinedLeavesConcat(pre, ValueLeaves(v, [k]), sep);
    }
    NestedWellFormed(d, sep);
    LevelDistinct(n, [], sep);
    DistinctMiddle(JoinedLeaves(pre, sep), JoinedLeaves(ValueLeaves(v, [k]), sep), JoinedLeaves(Leaves(Nested(rest), []), sep));
  }

  /** The joined leaves of a top-level mapping hold the separator, so they are not
      top-level keys. */
  lemma TopFreshScalars<V>(d: Dict<Node<V>>, i: nat, sep: string)
    requires |sep| == 1 && i < |d| && d[i].1.Map?
    requires WellFormed(Map(d)) && SepFree(Map(d), sep)
    ensures var s := JoinedLeaves(ValueLeaves(d[i].1, [d[i].0]), sep);
      forall j :: 0 <= j < |s| ==> s[j].0 !in Keys(Scalars(d[..i])) && s[j].0 !in Keys(d[i + 1..])
  {
    var (k, v) := d[i];
    var s := JoinedLeaves(ValueLeaves(v, [k]), sep);
    var kept := Scalars(d[..i]);
    var rest := d[i + 1..];
    assert WellFormed(v);
    DeepKeysContainSep(v, [k], sep);
    forall j | 0 <= j < |s|
      ensures s[j].0 !in Keys(kept) && s[j].0 !in Keys(rest)
    {
      forall m | 0 <= m < |kept|
        ensures kept[m].0 != s[j].0
      {
        var e := kept[m];
        var x :| 0 <= x < |d[..i]| && d[..i][x] == e;
        assert d[x] == e;
      }
      NotInKeys(kept, s[j].0);
      forall m | 0 <= m < |rest|
        ensures rest[m].0 != s[j].0
      {
        assert rest[m] == d[i + 1 + m];
      }
      NotInKeys(rest, s[j].0);
    }
  }

  /** A top-level mapping's key is not among the leaves kept before it. */
  lemma KeptBefore<V>(d: Dict<Node<V>>, i: nat)
    requires i < |d| && DistinctKeys(d)
    ensures d[i].0 !in Keys(Scalars(d[..i]))
  {
    var kept := Scalars(d[..i]);
    forall m | 0 <= m < |kept|
      ensures kept[m].0 != d[i].0
    {
      var e := kept[m];
      var x :| 0 <= x < |d[..i]| && d[..i][x] == e;
      assert d[x] == e;
    }
    NotInKeys(kept, d[i].0);
  }

  /** One turn of the loop at the top, before the new entries are known to be
      fresh. */
  lemma TopTurn<V>(d: Dict<Node<V>>, i: nat, sep: string, maxDepth: int)
    requires |sep| == 1 && i < |d|
    requires WellFormed(Map(d)) && SepFree(Map(d), sep) && Within(Map(d), maxDepth)
    ensures var kept := Scalars(d[..i]);
      var acc := JoinedLeaves(Leaves(Nested(d[..i]), []), sep);
      FlattenItems(d[i..], sep, maxDepth, "", 0, kept + d[i..] + acc) ==
        FlattenItems(d[i + 1..], sep, maxDepth, "", 0,
          if d[i].1.Map? then Update(kept + d[i + 1..] + acc, JoinedLeaves(ValueLeaves(d[i].1, [d[i].0]), sep))
          else kept + d[i..] + acc)
  {
    var (k, v) := d[i];
    var items := d[i..];
    var rest := d[i + 1..];
    var kept := Scalars(d[..i]);
    var acc := JoinedLeaves(Leaves(Nested(d[..i]), []), sep);
    SliceHead(d, i);
    if v.Map? {
      var s := JoinedLeaves(ValueLeaves(v, [k]), sep);
      assert 0 < maxDepth;
      assert Pop(kept + items + acc, k) == Ok((v, kept + rest + acc)) by {
        Regroup3(kept, (k, v), rest, acc);
        KeptBefore(d, i);
        PopMiddle(kept, k, v, rest + acc);
      }
      assert WellFormed(v) && SepFree(v, sep) && Within(v, maxDepth - 1) && !Contains(k, sep);
      TopDeeper(v, k, sep, maxDepth);
      TopTurnMap(items, k, v, sep, maxDepth, kept + items + acc, kept + rest + acc, s);
    } else {
      StepKeep(items, sep, maxDepth, kept + items + acc);
    }
  }

  lemma TopTurnMap<V>(items: Dict<Node<V>>, k: string, v: Node<V>, sep: string, maxDepth: int,
                      ret: Dict<Node<V>>, rest: Dict<Node<V>>, sub: Dict<Node<V>>)
    requires |items| > 0 && items[0] == (k, v) && v.Map? && 0 < maxDepth
    requires Pop(ret, k) == Ok((v, rest))
    requires FlattenLevel(v, sep, maxDepth, k, 1) == Ok(sub)
    ensures FlattenItems(items, sep, maxDepth, "", 0, ret) == FlattenItems(items[1..], sep, maxDepth, "", 0, Update(rest, sub))
  {
    assert NewKey(0, "", k, sep) == k;
  }

  /** A top-level mapping flattens to its leaves under their joined paths. */
  lemma TopDeeper<V>(v: Node<V>, k: string, sep: string, maxDepth: int)
    requires |sep| == 1 && !Contains(k, sep)
    requires v.Map? && WellFormed(v) && SepFree(v, sep) && Within(v, maxDepth - 1)
    ensures FlattenLevel(v, sep, maxDepth, k, 1) == Ok(JoinedLeaves(ValueLeaves(v, [k]), sep))
  {
    assert |[k]| == 1 && [k][0] == k;
    assert PathSepFree([k], sep);
    assert Join([k], sep) == k;
    InnerNode(v, sep, maxDepth, [k]);
  }

  /** What the copy holds after the turn on `d[i]`: the loop invariant again, one
      entry further on. */
  lemma TopNext<V>(d: Dict<Node<V>>, i: nat, sep: string)
    requires |sep| == 1 && i < |d|
    requires WellFormed(Map(d)) && SepFree(Map(d), sep)
    ensures var kept := Scalars(d[..i]);
      var acc := JoinedLeaves(Leaves(Nested(d[..i]), []), sep);
      (if d[i].1.Map? then Update(kept + d[i + 1..] + acc, JoinedLeaves(ValueLeaves(d[i].1, [d[i].0]), sep))
       else kept + d[i..] + acc) ==
      Scalars(d[..i + 1]) + d[i + 1..] + JoinedLeaves(Leaves(Nested(d[..i + 1]), []), sep)
  {
    if d[i].1.Map? {
      TopNextMap(d, i, sep);
    } else {
      TopNextLeaf(d, i, sep);
    }
  }

  lemma TopNextMap<V>(d: Dict<Node<V>>, i: nat, sep: string)
    requires |sep| == 1 && i < |d| && d[i].1.Map?
    requires WellFormed(Map(d)) && SepFree(Map(d), sep)
    ensures Update(Scalars(d[..i]) + d[i + 1..] + JoinedLeaves(Leaves(Nested(d[..i]), []), sep),
                   JoinedLeaves(ValueLeaves(d[i].1, [d[i].0]), sep)) ==
      Scalars(d[..i + 1]) + d[i + 1..] + JoinedLeaves(Leaves(Nested(d[..i + 1]), []), sep)
  {
    var (k, v) := d[i];
    var rest := d[i + 1..];
    var kept := Scalars(d[..i]);
    var acc := JoinedLeaves(Leaves(Nested(d[..i]), []), sep);
    var s := JoinedLeaves(ValueLeaves(v, [k]), sep);
    var next := JoinedLeaves(Leaves(Nested(d[..i + 1]), []), sep);
    assert Scalars(d[..i + 1]) == kept by {
      TopSplit(d, i);
      EmptyRight(kept);
    }
    assert next == acc + s by {
      TopSplit(d, i);
      LeavesConcat(Nested(d[..i]), [d[i]], []);
      LeavesSingle(d[i], []);
      assert [] + [k] == [k];
      JoinedLeavesConcat(Leaves(Nested(d[..i]), []), ValueLeaves(v, [k]), sep);
    }
    assert Update(kept + rest + acc, s) == kept + rest + acc + s by {
      TopFresh(d, i, sep);
      AssignFresh(kept + rest + acc, s);
    }
    Regroup(kept + rest, acc, s, next);
  }

  lemma TopNextLeaf<V>(d: Dict<Node<V>>, i: nat, sep: string)
    requires i < |d| && d[i].1.Leaf?
    ensures Scalars(d[..i]) + d[i..] + JoinedLeaves(Leaves(Nested(d[..i]), []), sep) ==
      Scalars(d[..i + 1]) + d[i + 1..] + JoinedLeaves(Leaves(Nested(d[..i + 1]), []), sep)
  {
    TopSplit(d, i);
    SliceHead(d, i);
    EmptyRight(Nested(d[..i]));
    Regroup3(Scalars(d[..i]), d[i], d[i + 1..], JoinedLeaves(Leaves(Nested(d[..i]), []), sep));
  }

  /** One turn of the loop at the top. */
  lemma TopStep<V>(d: Dict<Node<V>>, i: nat, sep: string, maxDepth: int)
    requires |sep| == 1 && i < |d|
    requires WellFormed(Map(d)) && SepFree(Map(d), sep) && Within(Map(d), maxDepth)
    ensures FlattenItems(d[i..], sep, maxDepth, "", 0,
              Scalars(d[..i]) + d[i..] + JoinedLeaves(Leaves(Nested(d[..i]), []), sep)) ==
            FlattenItems(d[i + 1..], sep, maxDepth, "", 0,
              Scalars(d[..i + 1]) + d[i + 1..] + JoinedLeaves(Leaves(Nested(d[..i + 1]), []), sep))
  {
    TopTurn(d, i, sep, maxDepth);
    TopNext(d, i, sep);
  }

  /** At the top, the entries `d[i..]` still to visit sit between the leaves kept in
      place and the joined leaves of the mappings already visited. */
  lemma {:induction false} TopItems<V>(d: Dict<Node<V>>, i: nat, sep: string, maxDepth: int)
    requires |sep| == 1 && i <= |d|
    requires WellFormed(Map(d)) && SepFree(Map(d), sep) && Within(Map(d), maxDepth)
    ensures FlattenItems(d[i..], sep, maxDepth, "", 0,
              Scalars(d[..i]) + d[i..] + JoinedLeaves(Leaves(Nested(d[..i]), []), sep)) ==
            Ok(Scalars(d) + JoinedLeaves(Leaves(Nested(d), []), sep))
    decreases |d| - i
  {
    if i == |d| {
      assert d[..i] == d;
      assert Scalars(d) + d[i..] == Scalars(d);
    } else {
      TopStep(d, i, sep, maxDepth);
      TopItems(d, i + 1, sep, maxDepth);
    }
  }

  /** `flatten_dict` with a one-character separator no key contains and a depth that
      reaches every mapping (the default depth, the recursion limit, does for any
      tree Python can hold): the top-level leaves stay where they were, and every
      top-level mapping is replaced by its leaves, each under its `sep`-joined path,
      appended in order. */
  lemma FlattenFull<V>(d: Dict<Node<V>>, sep: string, maxDepth: int)
    requires |sep| == 1 && WellFormed(Map(d)) && SepFree(Map(d), sep) && Within(Map(d), maxDepth)
    ensures FlattenToDepth(d, sep, maxDepth) == Ok(Scalars(d) + JoinedLeaves(Leaves(Nested(d), []), sep))
  {
    TopItems(d, 0, sep, maxDepth);
    assert d[..0] == [] && d[0..] == d;
    assert Scalars(d[..0]) + d + JoinedLeaves(Leaves(Nested(d[..0]), []), sep) == d;
  }

  // ---------------------------------------------------------------------------
  // traverse (util.py:107-136).

  /** The key given to an entry `k` found under `prefix`: `k` itself when the prefix
      is empty, otherwise the prefix and `k` joined by `sep`. An empty key at the top
      thus passes an empty prefix down, and the keys under it are not joined either. */
  function PrefixKey(prefix: string, k: string, sep: string): (r: string)
  {
    if prefix == "" then k else Join([prefix, k], sep)
  }

  /** `traverse(d, sep, prefix)` as written: the pairs (key, leaf value) in order.
      The recursive call passes only the prefix, so every level below the top joins
      its keys with the default separator ".". */
  function TraverseAsWritten<V>(d: Dict<Node<V>>, sep: string, prefix: string): (r: Dict<V>)
    ensures |d| == 0 ==> r == []
    decreases d, 0
  {
    if |d| == 0 then []
    else
      var (k, child) := d[0];
      assert child < d[0];
      ValueTraverseAsWritten(child, PrefixKey(prefix, k, sep)) + TraverseAsWritten(d[1..], sep, prefix)
  }

  /** The pairs contributed by the value stored under the computed key `key`. */
  function ValueTraverseAsWritten<V>(v: Node<V>, key: string): (r: Dict<V>)
    ensures v.Leaf? ==> r == [(key, v.value)]
    decreases v, 1
  {
    match v
    case Leaf(x) => [(key, x)]
    case Map(sub) => TraverseAsWritten(sub, ".", key)
  }

  /** `traverse` with the separator passed down to the recursive call. */
  function TraverseSep<V>(d: Dict<Node<V>>, sep: string, prefix: string): (r: Dict<V>)
    ensures |d| == 0 ==> r == []
    decreases d, 0
  {
    if |d| == 0 then []
    else
      var (k, child) := d[0];
      assert child < d[0];
      ValueTraverseSep(child, sep, PrefixKey(prefix, k, sep)) + TraverseSep(d[1..], sep, prefix)
  }

  function ValueTraverseSep<V>(v: Node<V>, sep: string, key: string): (r: Dict<V>)
    ensures v.Leaf? ==> r == [(key, v.value)]
    decreases v, 1
  {
    match v
    case Leaf(x) => [(key, x)]
    case Map(sub) => TraverseSep(sub, sep, key)
  }

  /** With the default separator the two traversals coincide. */
  lemma {:induction false} TraverseDefaultSep<V>(d: Dict<Node<V>>, prefix: string)
    ensures TraverseAsWritten(d, ".", prefix) == TraverseSep(d, ".", prefix)
    decreases d, 0
  {
    if |d| > 0 {
      var (k, child) := d[0];
      assert child < d[0];
      ValueTraverseDefaultSep(child, PrefixKey(prefix, k, "."));
      TraverseDefaultSep(d[1..], prefix);
    }
  }

  lemma {:induction false} ValueTraverseDefaultSep<V>(v: Node<V>, key: string)
    ensures ValueTraverseAsWritten(v, key) == ValueTraverseSep(v, ".", key)
    decreases v, 1
  {
    match v
    case Leaf(_) =>
    case Map(sub) => TraverseDefaultSep(sub, key);
  }

  /** From the top, `traverse` as written yields what the forwarding traversal
      yields with ".", whatever separator it is given: the top level never joins,
      and the levels below use ".". */
  lemma {:induction false} TraverseIgnoresSep<V>(d: Dict<Node<V>>, sep: string)
    ensures TraverseAsWritten(d, sep, "") == TraverseSep(d, ".", "")
    decreases |d|
  {
    if |d| > 0 {
      var (k, child) := d[0];
      ValueTraverseDefaultSep(child, k);
      TraverseIgnoresSep(d[1..], sep);
    }
  }

  lemma JoinedConcat<V>(a: seq<(Path, V)>, b: seq<(Path, V)>, sep: string)
    ensures Joined(a + b, sep) == Joined(a, sep) + Joined(b, sep)
  {
  }

  /** Joining a pair of strings puts the separator between them. */
  lemma JoinPair(a: string, b: string, sep: string)
    ensures Join([a, b], sep) == a + sep + b
  {
    assert [a, b][1..] == [b];
  }

  /** Below a non-empty prefix, the forwarding traversal yields the leaves of `d`,
      each under its full path joined by `sep`. */
  lemma {:induction false} TraverseSepJoins<V>(d: Dict<Node<V>>, sep: string, q: Path)
    requires |q| >= 1 && Join(q, sep) != ""
    ensures TraverseSep(d, sep, Join(q, sep)) == Joined(Leaves(d, q), sep)
    decreases d, 0
  {
    if |d| > 0 {
      var (k, child) := d[0];
      assert child < d[0];
      assert PrefixKey(Join(q, sep), k, sep) == Join(q + [k], sep) by {
        JoinSnoc(q, k, sep);
        JoinPair(Join(q, sep), k, sep);
      }
      ValueTraverseSepJoins(child, sep, q + [k]);
      TraverseSepJoins(d[1..], sep, q);
      JoinedConcat(ValueLeaves(child, q + [k]), Leaves(d[1..], q), sep);
    }
  }

  lemma {:induction false} ValueTraverseSepJoins<V>(v: Node<V>, sep: string, q: Path)
    requires |q| >= 1 && Join(q, sep) != ""
    ensures ValueTraverseSep(v, sep, Join(q, sep)) == Joined(ValueLeaves(v, q), sep)
    decreases v, 1
  {
    match v
    case Leaf(_) =>
    case Map(sub) => TraverseSepJoins(sub, sep, q);
  }

  /** From the top, when no top-level key is empty, the forwarding traversal yields
      each leaf under its `sep`-joined path, in `leaves` order: what `flatten_dict`
      at full depth holds for the same tree, up to order. */
  lemma {:induction false} TraverseSepLeaves<V>(d: Dict<Node<V>>, sep: string)
    requires forall i :: 0 <= i < |d| ==> d[i].0 != ""
    ensures TraverseSep(d, sep, "") == Joined(Leaves(d, []), sep)
    decreases |d|
  {
    if |d| > 0 {
      var (k, child) := d[0];
      assert Join([k], sep) == k;
      assert [] + [k] == [k];
      ValueTraverseSepJoins(child, sep, [k]);
      TraverseSepLeaves(d[1..], sep);
      JoinedConcat(ValueLeaves(child, [k]), Leaves(d[1..], []), sep);
    }
  }

  /** With the default separator and no empty top-level key, `traverse` as written
      yields each leaf under its "."-joined path. */
  lemma TraverseDotLeaves<V>(d: Dict<Node<V>>)
    requires forall i :: 0 <= i < |d| ==> d[i].0 != ""
    ensures TraverseAsWritten(d, ".", "") == Joined(Leaves(d, []), ".")
  {
    TraverseDefaultSep(d, "");
    TraverseSepLeaves(d, ".");
  }

  /** The separator is lost one level down: for a one-character separator other
      than ".", a leaf two levels deep is yielded under its path joined by ".",
      where the forwarding traversal joins it by the separator. */
  lemma TraverseSepIgnored<V>(k: string, k2: string, x: V, sep: string)
    requires k != "" && |sep| == 1 && sep != "."
    ensures TraverseAsWritten([(k, Map([(k2, Leaf(x))]))], sep, "") == [(k + "." + k2, x)]
    ensures TraverseSep([(k, Map([(k2, Leaf(x))]))], sep, "") == [(k + sep + k2, x)]
    ensures k + "." + k2 != k + sep + k2
  {
    TraverseSingle(k, Map([(k2, Leaf(x))]), sep, "");
    TraverseSingle(k2, Leaf(x), ".", k);
    TraverseSingle(k2, Leaf(x), sep, k);
    JoinPair(k, k2, ".");
    JoinPair(k, k2, sep);
    assert (k + "." + k2)[|k|] == '.';
    assert (k + sep + k2)[|k|] == sep[0];
  }

  /** Both traversals of a one-entry dict are the traversal of its value. */
  lemma TraverseSingle<V>(k: string, v: Node<V>, sep: string, prefix: string)
    ensures TraverseAsWritten([(k, v)], sep, prefix) == ValueTraverseAsWritten(v, PrefixKey(prefix, k, sep))
    ensures TraverseSep([(k, v)], sep, prefix) == ValueTraverseSep(v, sep, PrefixKey(prefix, k, sep))
  {
    assert [(k, v)][1..] == [];
  }
}
