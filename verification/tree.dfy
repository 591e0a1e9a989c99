/** Nested string-keyed mappings: a node is either a mapping (a Python `dict`, as an
    ordered association list) or an opaque leaf value of any other type. */
module Tree {
  import opened Results
  import opened Dicts
  import opened Strings

  datatype Node<V> = Leaf(value: V) | Map(entries: Dict<Node<V>>)

  /** A key path from the root: `['user', 'information', 'attribute']`. */
  type Path = seq<string>

  /** Every mapping in the tree has distinct keys, as every Python dict does. */
  predicate WellFormed<V>(n: Node<V>) {
    match n
    case Leaf(_) => true
    case Map(es) => DistinctKeys(es) && forall i :: 0 <= i < |es| ==> WellFormed(es[i].1)
  }

  /** No key at any depth contains `sep`. */
  predicate SepFree<V>(n: Node<V>, sep: string) {
    match n
    case Leaf(_) => true
    case Map(es) => forall i :: 0 <= i < |es| ==> !Contains(es[i].0, sep) && SepFree(es[i].1, sep)
  }

  /** No key of `p` contains `sep`. */
  predicate PathSepFree(p: Path, sep: string) {
    forall i :: 0 <= i < |p| ==> !Contains(p[i], sep)
  }

  /** Chained indexing `reduce(lambda x, y: x[y], path, n)`: a missing key raises
      KeyError, indexing into a leaf raises TypeError, and the empty path gives `n`. */
  function Descend<V>(n: Node<V>, path: Path): (r: Result<Node<V>>)
    ensures r.Err? ==> |path| > 0 && (r.error == KeyError || r.error == TypeError)
    decreases |path|
  {
    if |path| == 0 then Ok(n)
    else match n
      case Leaf(_) => Err(TypeError)
      case Map(es) =>
        match Lookup(es, path[0])
        case None => Err(KeyError)
        case Some(c) => Descend(c, path[1..])
  }

  /** One step of chained indexing through a mapping. */
  lemma DescendStep<V>(es: Dict<Node<V>>, c: Node<V>, p: Path)
    requires |p| > 0 && Lookup(es, p[0]) == Some(c)
    ensures Descend(Map(es), p) == Descend(c, p[1..])
  {
  }

  /** `path` leads to a leaf. */
  predicate LeafAt<V>(n: Node<V>, path: Path) {
    Descend(n, path).Ok? && Descend(n, path).value.Leaf?
  }

  /** Descending along `p + q` is descending along `p`, then along `q`. */
  lemma {:induction false} DescendConcat<V>(n: Node<V>, p: Path, q: Path)
    ensures Descend(n, p + q) ==
      (match Descend(n, p) case Ok(m) => Descend(m, q) case Err(e) => Err(e))
    decreases |p|
  {
    if |p| > 0 {
      assert (p + q)[0] == p[0];
      assert (p + q)[1..] == p[1..] + q;
      match n
      case Leaf(_) =>
      case Map(es) =>
        match Lookup(es, p[0])
        case None =>
        case Some(c) => DescendConcat(c, p[1..], q);
    } else {
      assert p + q == q;
    }
  }

  /** The same tree with every leaf value `v` replaced by `f(v)`. */
  function MapTree<V>(d: Dict<Node<V>>, f: V -> V): (r: Dict<Node<V>>)
    ensures |r| == |d|
    ensures forall i :: 0 <= i < |d| ==> r[i].0 == d[i].0
    decreases d, 0
  {
    if |d| == 0 then []
    else
      var (k, child) := d[0];
      assert child < d[0];
      [(k, MapNode(child, f))] + MapTree(d[1..], f)
  }

  /** `MapTree` on one node. */
  function MapNode<V>(n: Node<V>, f: V -> V): Node<V>
    decreases n, 1
  {
    match n
    case Leaf(x) => Leaf(f(x))
    case Map(es) => Map(MapTree(es, f))
  }

  /** `MapTree` works entry by entry. */
  lemma {:induction false} MapTreeAt<V>(d: Dict<Node<V>>, f: V -> V, i: nat)
    requires i < |d|
    ensures MapTree(d, f)[i] == (d[i].0, MapNode(d[i].1, f))
    decreases |d|
  {
    if i > 0 {
      MapTreeAt(d[1..], f, i - 1);
    }
  }
}
