/** What `recursive_set` and `recursive_delete` (trict/util.py:4-40) do to every path
    of the tree: the addressed path, the paths below it, the paths above it, and every
    path that branches off elsewhere. */
module PathUpdates {
  import opened Results
  import opened Dicts
  import opened Tree
  import opened TrictUtil

  /** Neither path is a prefix of the other: they branch apart at some key. */
  predicate Diverge(p: Path, q: Path) {
    !(p <= q) && !(q <= p)
  }

  /** Two paths that start with the same key are prefix-related as their tails are. */
  lemma PrefixTail(p: Path, q: Path)
    requires |p| > 0 && |q| > 0 && p[0] == q[0]
    ensures p <= q <==> p[1..] <= q[1..]
  {
    assert p == [p[0]] + p[1..];
    assert q == [q[0]] + q[1..];
  }

  /** The value of `Lookup` that `RecursiveSet` descends into. */
  function ChildOrEmpty<V>(es: Dict<Node<V>>, k: string): Node<V> {
    match Lookup(es, k) case Some(c) => c case None => Map([])
  }

  /** `RecursiveSet` on a path of two keys or more assigns the updated child. */
  lemma SetUnfold<V>(es: Dict<Node<V>>, path: Path, val: Node<V>)
    requires |path| > 1
    ensures RecursiveSet(Map(es), path, val) ==
      match RecursiveSet(ChildOrEmpty(es, path[0]), path[1..], val)
      case Ok(c) => Ok(Map(Assign(es, path[0], c)))
      case Err(e) => Err(e)
  {
  }

  /** Looking a path up in a fresh empty mapping fails unless the path is empty. */
  lemma EmptyHasNoLeaf<V>(p: Path)
    ensures !LeafAt<V>(Map([]), p)
  {
    var empty: Dict<Node<V>> := [];
    if |p| > 0 {
      assert Lookup(empty, p[0]) == None;
    }
  }

  /** No proper prefix of `path`, the root included, leads to a leaf. */
  predicate NoLeafAbove<V>(d: Node<V>, path: Path) {
    forall i :: 0 <= i < |path| ==> !LeafAt(d, path[..i])
  }

  /** Set succeeds exactly for a non-empty path none of whose proper prefixes leads
      to a leaf: that is the one way the indexing can fail. */
  lemma {:induction false} SetSucceedsIff<V>(d: Node<V>, path: Path, val: Node<V>)
    ensures RecursiveSet(d, path, val).Ok? <==> |path| > 0 && NoLeafAbove(d, path)
    decreases |path|
  {
    if |path| == 0 {
      return;
    }
    assert path[..0] == [];
    match d
    case Leaf(_) =>
      assert LeafAt(d, path[..0]);
    case Map(es) =>
      if |path| > 1 {
        SetUnfold(es, path, val);
        SetSucceedsIff(ChildOrEmpty(es, path[0]), path[1..], val);
        NoLeafAboveStep(es, path);
      }
  }

  /** Below the root of a mapping, no prefix leads to a leaf exactly when none of the
      tail's prefixes does in the child (a fresh empty mapping when the key is new). */
  lemma NoLeafAboveStep<V>(es: Dict<Node<V>>, path: Path)
    requires |path| > 1
    ensures NoLeafAbove(Map(es), path) <==> NoLeafAbove(ChildOrEmpty(es, path[0]), path[1..])
  {
    var child := ChildOrEmpty(es, path[0]);
    var rest := path[1..];
    assert path[..0] == [];
    forall i | 0 <= i < |rest|
      ensures LeafAt(Map(es), path[..i + 1]) <==> LeafAt(child, rest[..i])
    {
      assert path[..i + 1][0] == path[0];
      assert path[..i + 1][1..] == rest[..i];
      EmptyHasNoLeaf<V>(rest[..i]);
    }
    if NoLeafAbove(child, rest) {
      forall i | 0 <= i < |path|
        ensures !LeafAt(Map(es), path[..i])
      {
        if i > 0 {
          assert !LeafAt(child, rest[..i - 1]);
        }
      }
    }
  }

  /** After a set, every path at or below the set path reads from the new value:
      set-then-get returns the value, and below it the value's own subtree. */
  lemma SetBelow<V>(d: Node<V>, path: Path, val: Node<V>, q: Path)
    requires RecursiveSet(d, path, val).Ok?
    requires path <= q
    ensures Descend(RecursiveSet(d, path, val).value, q) == Descend(val, q[|path|..])
  {
    SetBelowIn(d, path, val, q, RecursiveSet(d, path, val).value);
  }

  /** `SetBelow` for a named result `r`, by induction on the set path. */
  lemma {:induction false} SetBelowIn<V>(d: Node<V>, path: Path, val: Node<V>, q: Path, r: Node<V>)
    requires RecursiveSet(d, path, val) == Ok(r)
    requires path <= q
    ensures Descend(r, q) == Descend(val, q[|path|..])
    decreases |path|
  {
    var es := d.entries;
    if |path| == 1 {
      SetBelowBase(es, path, val, q);
    } else {
      var c := SetChild(d, path, val, r);
      PrefixBelow(path, q);
      SetBelowIn(ChildOrEmpty(es, path[0]), path[1..], val, q[1..], c);
      DescendStep(Assign(es, path[0], c), c, q);
    }
  }

  /** Both keys of two prefix-related paths agree on the first key, and dropping it
      keeps them prefix-related; what lies below the shorter one lies below both
      tails. */
  lemma PrefixBelow(p: Path, q: Path)
    requires |p| > 1 && p <= q
    ensures |q| > 1 && q[0] == p[0] && p[1..] <= q[1..]
    ensures q[1..][|p[1..]|..] == q[|p|..]
  {
    assert q[..|p|] == p;
  }

  /** A set of a two-key-or-longer path that succeeds assigns the child's own set
      result `c` at the first key. */
  lemma SetChild<V>(d: Node<V>, path: Path, val: Node<V>, r: Node<V>) returns (c: Node<V>)
    requires |path| > 1 && RecursiveSet(d, path, val) == Ok(r)
    ensures d.Map? && RecursiveSet(ChildOrEmpty(d.entries, path[0]), path[1..], val) == Ok(c)
    ensures r == Map(Assign(d.entries, path[0], c))
  {
    SetUnfold(d.entries, path, val);
    c := RecursiveSet(ChildOrEmpty(d.entries, path[0]), path[1..], val).value;
  }

  /** A set of a two-key-or-longer path that succeeds sets the tail in the child. */
  lemma SetChildOk<V>(es: Dict<Node<V>>, path: Path, val: Node<V>)
    requires |path| > 1 && RecursiveSet(Map(es), path, val).Ok?
    ensures RecursiveSet(ChildOrEmpty(es, path[0]), path[1..], val).Ok?
  {
    SetUnfold(es, path, val);
  }

  /** The base case of `SetBelow`: a one-key set reads the value back at that key. */
  lemma SetBelowBase<V>(es: Dict<Node<V>>, path: Path, val: Node<V>, q: Path)
    requires |path| == 1 && path <= q
    ensures RecursiveSet(Map(es), path, val) == Ok(Map(Assign(es, path[0], val)))
    ensures Descend(Map(Assign(es, path[0], val)), q) == Descend(val, q[|path|..])
  {
    assert q[0] == path[0];
    DescendStep(Assign(es, path[0], val), val, q);
  }

  /** Two mappings that agree on the first key of `q` agree on all of `q`. */
  lemma DescendSameFirst<V>(es: Dict<Node<V>>, es': Dict<Node<V>>, q: Path)
    requires |q| > 0 && Lookup(es', q[0]) == Lookup(es, q[0])
    ensures Descend(Map(es'), q) == Descend(Map(es), q)
  {
  }

  /** Two diverging paths that start with the same key diverge after it, and each
      has a key after the first. */
  lemma DivergeTail(p: Path, q: Path)
    requires |p| > 0 && |q| > 0 && p[0] == q[0] && Diverge(p, q)
    ensures |p| > 1 && |q| > 1 && Diverge(p[1..], q[1..])
  {
    assert p[..1] == [p[0]] && q[..1] == [q[0]];
    PrefixTail(p, q);
    PrefixTail(q, p);
  }

  /** Diverging paths are both non-empty, and a one-key path diverges from `q`
      exactly when `q` starts elsewhere. */
  lemma DivergeHead(p: Path, q: Path)
    requires Diverge(p, q)
    ensures |p| > 0 && |q| > 0
    ensures |p| == 1 ==> q[0] != p[0]
  {
    assert |p| > 0 && |q| > 0;
    assert p[..1] == [p[0]] && q[..1] == [q[0]];
  }

  /** Below the shared first key, diverging paths read the child as they did: the
      updated child `c` agrees with the old one (or with the empty mapping that
      stood for a missing key) on the rest of `q`. */
  lemma FrameStep<V>(es: Dict<Node<V>>, k: string, c: Node<V>, old0: Node<V>, q: Path)
    requires |q| > 1 && q[0] == k
    requires old0 == ChildOrEmpty(es, k) && Descend(c, q[1..]) == Descend(old0, q[1..])
    ensures Descend(Map(Assign(es, k, c)), q) == Descend(Map(es), q)
  {
    DescendStep(Assign(es, k, c), c, q);
    match Lookup(es, k)
    case Some(c0) =>
      DescendStep(es, c0, q);
    case None =>
      var empty: Dict<Node<V>> := [];
      assert Lookup(empty, q[1..][0]) == None;
  }

  /** A set leaves every path that branches away from the set path as it was. */
  lemma {:induction false} SetFrame<V>(d: Node<V>, path: Path, val: Node<V>, q: Path)
    requires RecursiveSet(d, path, val).Ok?
    requires Diverge(path, q)
    ensures Descend(RecursiveSet(d, path, val).value, q) == Descend(d, q)
    decreases |path|
  {
    var es := d.entries;
    DivergeHead(path, q);
    if |path| == 1 {
      DescendSameFirst(es, Assign(es, path[0], val), q);
    } else {
      var child := ChildOrEmpty(es, path[0]);
      SetChildOk(es, path, val);
      var c := RecursiveSet(child, path[1..], val).value;
      assert RecursiveSet(d, path, val).value == Map(Assign(es, path[0], c)) by {
        SetUnfold(es, path, val);
      }
      if q[0] == path[0] {
        DivergeTail(path, q);
        SetFrame(child, path[1..], val, q[1..]);
        FrameStep(es, path[0], c, child, q);
      } else {
        DescendSameFirst(es, Assign(es, path[0], c), q);
      }
    }
  }

  /** Set keeps every mapping's keys distinct. */
  lemma SetWellFormed<V>(d: Node<V>, path: Path, val: Node<V>)
    requires WellFormed(d) && WellFormed(val)
    requires RecursiveSet(d, path, val).Ok?
    ensures WellFormed(RecursiveSet(d, path, val).value)
  {
    SetWellFormedIn(d, path, val, RecursiveSet(d, path, val).value);
  }

  /** `SetWellFormed` for a named result `r`, by induction on the set path. */
  lemma {:induction false} SetWellFormedIn<V>(d: Node<V>, path: Path, val: Node<V>, r: Node<V>)
    requires WellFormed(d) && WellFormed(val)
    requires RecursiveSet(d, path, val) == Ok(r)
    ensures WellFormed(r)
    decreases |path|
  {
    var es := d.entries;
    var k := path[0];
    if |path| == 1 {
      assert r == Map(Assign(es, k, val));
      AssignWellFormed(es, k, val);
    } else {
      var c := SetChild(d, path, val, r);
      ChildWellFormed(es, k);
      SetWellFormedIn(ChildOrEmpty(es, k), path[1..], val, c);
      AssignWellFormed(es, k, c);
    }
  }

  /** The child a set descends into is well-formed: a stored value or a fresh mapping. */
  lemma ChildWellFormed<V>(es: Dict<Node<V>>, k: string)
    requires WellFormed(Map(es))
    ensures WellFormed(ChildOrEmpty(es, k))
  {
    match Lookup(es, k)
    case Some(c) => LookupWellFormed(es, k, c);
    case None =>
  }

  /** The value stored under a present key is one of the mapping's entries. */
  lemma LookupWellFormed<V>(es: Dict<Node<V>>, k: string, c: Node<V>)
    requires WellFormed(Map(es)) && Lookup(es, k) == Some(c)
    ensures WellFormed(c)
  {
    var i :| 0 <= i < |es| && es[i] == (k, c);
  }

  /** After a delete the path is gone: looking it up raises KeyError. */
  lemma {:induction false} DeleteRemoves<V>(d: Node<V>, path: Path)
    requires WellFormed(d)
    requires RecursiveDelete(d, path).Ok?
    ensures Descend(RecursiveDelete(d, path).value, path) == Err(KeyError)
    decreases |path|
  {
    var es := d.entries;
    var k := path[0];
    if |path| > 1 {
      var child := Lookup(es, k).value;
      LookupWellFormed(es, k, child);
      DeleteRemoves(child, path[1..]);
      var c := RecursiveDelete(child, path[1..]).value;
      DescendStep(Assign(es, k, c), c, path);
    }
  }

  /** After a delete every path through the deleted key is gone as well. */
  lemma DeleteBelow<V>(d: Node<V>, path: Path, q: Path)
    requires WellFormed(d)
    requires RecursiveDelete(d, path).Ok?
    requires path <= q
    ensures Descend(RecursiveDelete(d, path).value, q) == Err(KeyError)
  {
    DeleteRemoves(d, path);
    assert q == path + q[|path|..];
    DescendConcat(RecursiveDelete(d, path).value, path, q[|path|..]);
  }

  /** A delete leaves every path that branches away from the deleted path as it was. */
  lemma {:induction false} DeleteFrame<V>(d: Node<V>, path: Path, q: Path)
    requires RecursiveDelete(d, path).Ok?
    requires Diverge(path, q)
    ensures Descend(RecursiveDelete(d, path).value, q) == Descend(d, q)
    decreases |path|
  {
    var es := d.entries;
    DivergeHead(path, q);
    if |path| == 1 {
      DescendSameFirst(es, RecursiveDelete(d, path).value.entries, q);
    } else {
      var child := Lookup(es, path[0]).value;
      DeleteUnfold(es, path, child);
      var c := RecursiveDelete(child, path[1..]).value;
      if q[0] == path[0] {
        DivergeTail(path, q);
        DeleteFrame(child, path[1..], q[1..]);
        FrameStep(es, path[0], c, child, q);
      } else {
        DescendSameFirst(es, Assign(es, path[0], c), q);
      }
    }
  }

  /** `RecursiveDelete` on a path of two keys or more assigns the updated child. */
  lemma DeleteUnfold<V>(es: Dict<Node<V>>, path: Path, child: Node<V>)
    requires |path| > 1 && Lookup(es, path[0]) == Some(child)
    requires RecursiveDelete(Map(es), path).Ok?
    ensures RecursiveDelete(child, path[1..]).Ok?
    ensures RecursiveDelete(Map(es), path) ==
      Ok(Map(Assign(es, path[0], RecursiveDelete(child, path[1..]).value)))
  {
  }

  /** Dropping the first key of `p + [k]`. */
  lemma SnocTail(p: Path, k: string)
    requires |p| > 0
    ensures (p + [k])[0] == p[0] && (p + [k])[1..] == p[1..] + [k]
  {
  }

  /** The mapping that held the deleted key `k` is still there (even when left
      empty), with just that key removed. */
  lemma {:induction false} DeleteKeepsParent<V>(d: Node<V>, p: Path, k: string)
    requires RecursiveDelete(d, p + [k]).Ok?
    ensures Descend(d, p).Ok? && Descend(d, p).value.Map?
    ensures Descend(RecursiveDelete(d, p + [k]).value, p) ==
      Ok(Map(Remove(Descend(d, p).value.entries, k)))
    decreases |p|
  {
    if |p| > 0 {
      var es := d.entries;
      var child := Lookup(es, p[0]).value;
      var path := p + [k];
      SnocTail(p, k);
      DeleteUnfold(es, path, child);
      DeleteKeepsParent(child, p[1..], k);
      DeleteParentStep(es, p, k, child, RecursiveDelete(child, path[1..]).value);
    }
  }

  /** The step of `DeleteKeepsParent` through the first key, with `c` the child after
      the delete below it. */
  lemma DeleteParentStep<V>(es: Dict<Node<V>>, p: Path, k: string, child: Node<V>, c: Node<V>)
    requires |p| > 0 && Lookup(es, p[0]) == Some(child)
    requires Descend(child, p[1..]).Ok? && Descend(child, p[1..]).value.Map?
    requires Descend(c, p[1..]) == Ok(Map(Remove(Descend(child, p[1..]).value.entries, k)))
    ensures Descend(Map(es), p) == Descend(child, p[1..])
    ensures Descend(Map(Assign(es, p[0], c)), p) ==
      Ok(Map(Remove(Descend(child, p[1..]).value.entries, k)))
  {
    DescendStep(Assign(es, p[0], c), c, p);
  }

  /** Deleting the same path twice raises KeyError the second time. */
  lemma DeleteTwiceFails<V>(d: Node<V>, path: Path)
    requires WellFormed(d)
    requires RecursiveDelete(d, path).Ok?
    ensures RecursiveDelete(RecursiveDelete(d, path).value, path) == Err(KeyError)
  {
    DeleteRemoves(d, path);
  }

  /** Delete keeps every mapping's keys distinct. */
  lemma DeleteWellFormed<V>(d: Node<V>, path: Path)
    requires WellFormed(d)
    requires RecursiveDelete(d, path).Ok?
    ensures WellFormed(RecursiveDelete(d, path).value)
  {
    DeleteWellFormedIn(d, path, RecursiveDelete(d, path).value);
  }

  /** `DeleteWellFormed` for a named result `r`, by induction on the path. */
  lemma {:induction false} DeleteWellFormedIn<V>(d: Node<V>, path: Path, r: Node<V>)
    requires WellFormed(d)
    requires RecursiveDelete(d, path) == Ok(r)
    ensures WellFormed(r)
    decreases |path|
  {
    var es := d.entries;
    var k := path[0];
    if |path| == 1 {
      assert r == Map(Remove(es, k));
      RemoveWellFormed(es, k);
    } else {
      var child := Lookup(es, k).value;
      var c := RecursiveDelete(child, path[1..]).value;
      assert r == Map(Assign(es, k, c));
      LookupWellFormed(es, k, child);
      DeleteWellFormedIn(child, path[1..], c);
      AssignWellFormed(es, k, c);
    }
  }

  /** Removing a key from a well-formed mapping leaves it well-formed. */
  lemma RemoveWellFormed<V>(es: Dict<Node<V>>, k: string)
    requires WellFormed(Map(es))
    ensures WellFormed(Map(Remove(es, k)))
  {
    var es' := Remove(es, k);
    forall i | 0 <= i < |es'|
      ensures WellFormed(es'[i].1)
    {
      PositionIs(es', es'[i].0, i);
      assert Lookup(es', es'[i].0) == Lookup(es, es'[i].0);
      var j :| 0 <= j < |es| && es[j] == (es'[i].0, es'[i].1);
    }
  }

  /** Assigning a well-formed value in a well-formed mapping leaves it well-formed. */
  lemma AssignWellFormed<V>(es: Dict<Node<V>>, k: string, c: Node<V>)
    requires WellFormed(Map(es)) && WellFormed(c)
    ensures WellFormed(Map(Assign(es, k, c)))
  {
    var es' := Assign(es, k, c);
    match Position(es, k)
    case None =>
      assert es' == es + [(k, c)];
      forall i | 0 <= i < |es'|
        ensures WellFormed(es'[i].1)
      {
        if i < |es| {
          assert es'[i] == es[i];
        }
      }
    case Some(p) =>
      assert es' == es[p := (k, c)];
      forall i | 0 <= i < |es'|
        ensures WellFormed(es'[i].1)
      {
        if i != p {
          assert es'[i] == es[i];
        }
      }
  }
}
