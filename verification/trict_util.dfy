/** The tree primitives of `trict/util.py`: recursive set and delete, the pre-order
    enumerations `leaves`, `traverse` and `iter_keys`, and `flatten_dict`. Python
    mutates the dict in place; here each operation returns the new tree, and a raised
    exception returns no tree, so the caller's tree is unchanged on failure. */
module TrictUtil {
  import opened Results
  import opened Dicts
  import opened Strings
  import opened Tree

  /** `recursive_set(d, attr_list, val)` (trict/util.py:4-33; util.py:4-33 is the same
      code). The final key is assigned; a missing intermediate key gets a fresh empty
      mapping; an existing intermediate value that is not a mapping cannot be indexed,
      and the TypeError escapes the `except KeyError`. */
  function RecursiveSet<V>(d: Node<V>, path: Path, val: Node<V>): (r: Result<Node<V>>)
    ensures |path| == 0 ==> r == Err(IndexError)
    ensures r.Err? && |path| > 0 ==> r.error == TypeError
    ensures d.Map? && |path| == 1 ==> r.Ok?
    ensures r.Ok? ==> r.value.Map? && Descend(r.value, path) == Ok(val)
    ensures r.Ok? ==>
      d.Map? &&
      Keys(r.value.entries) ==
        (if path[0] in Keys(d.entries) then Keys(d.entries) else Keys(d.entries) + [path[0]])
    decreases |path|
  {
    if |path| == 0 then Err(IndexError)
    else match d
      case Leaf(_) => Err(TypeError)
      case Map(es) =>
        if |path| == 1 then
          AssignKeys(es, path[0], val);
          Ok(Map(Assign(es, path[0], val)))
        else
          var child := match Lookup(es, path[0]) case Some(c) => c case None => Map([]);
          var c :- RecursiveSet(child, path[1..], val);
          AssignKeys(es, path[0], c);
          Ok(Map(Assign(es, path[0], c)))
  }

  /** `recursive_delete(d, attr_list)` (trict/util.py:35-40): removes the final key,
      raising KeyError when any segment is missing; parents left empty are kept. It
      fails exactly when looking the path up fails, with the same exception. */
  function RecursiveDelete<V>(d: Node<V>, path: Path): (r: Result<Node<V>>)
    ensures |path| == 0 ==> r == Err(IndexError)
    ensures |path| > 0 ==> (r.Ok? <==> Descend(d, path).Ok?)
    ensures |path| > 0 && r.Err? ==> r.error == Descend(d, path).error
    ensures r.Ok? ==> r.value.Map?
    decreases |path|
  {
    if |path| == 0 then Err(IndexError)
    else match d
      case Leaf(_) => Err(TypeError)
      case Map(es) =>
        if |path| == 1 then
          var es' :- Del(es, path[0]);
          Ok(Map(es'))
        else match Lookup(es, path[0])
          case None => Err(KeyError)
          case Some(child) =>
            var c :- RecursiveDelete(child, path[1..]);
            Ok(Map(Assign(es, path[0], c)))
  }

  /** `leaves(d, prev)` (trict/util.py:99-126): (path, value) for every non-mapping
      node, depth first, keys in insertion order. */
  function Leaves<V>(d: Dict<Node<V>>, prev: Path): seq<(Path, V)>
    decreases d, 0
  {
    if |d| == 0 then []
    else
      var (k, child) := d[0];
      assert child < d[0];
      ValueLeaves(child, prev + [k]) + Leaves(d[1..], prev)
  }

  /** The leaves contributed by the value found at `path`. */
  function ValueLeaves<V>(v: Node<V>, path: Path): seq<(Path, V)>
    decreases v, 1
  {
    match v
    case Leaf(x) => [(path, x)]
    case Map(sub) => Leaves(sub, path)
  }

  /** `traverse(d, keys_only=False, prev)` (trict/util.py:128-178): every node, mappings
      included, in pre-order, each with its full path. */
  function Traverse<V>(d: Dict<Node<V>>, prev: Path): seq<(Path, Node<V>)>
    decreases d, 0
  {
    if |d| == 0 then []
    else
      var (k, child) := d[0];
      assert child < d[0];
      ValueTraverse(child, prev + [k]) + Traverse(d[1..], prev)
  }

  /** The nodes contributed by the value found at `path`: itself, then its subtree. */
  function ValueTraverse<V>(v: Node<V>, path: Path): seq<(Path, Node<V>)>
    decreases v, 1
  {
    [(path, v)] + match v
      case Leaf(_) => []
      case Map(sub) => Traverse(sub, path)
  }

  /** `traverse(d, keys_only=True, prev)`: the paths alone. */
  function TraverseKeys<V>(d: Dict<Node<V>>, prev: Path): seq<Path>
    decreases d, 0
  {
    if |d| == 0 then []
    else
      var (k, child) := d[0];
      assert child < d[0];
      ValueTraverseKeys(child, prev + [k]) + TraverseKeys(d[1..], prev)
  }

  /** The paths contributed by the value found at `path`. */
  function ValueTraverseKeys<V>(v: Node<V>, path: Path): seq<Path>
    decreases v, 1
  {
    [path] + match v
      case Leaf(_) => []
      case Map(sub) => TraverseKeys(sub, path)
  }

  /** `iter_keys(d)` (trict/util.py:78-97; util.py:86-105 is the same code): every key
      at every depth, in pre-order. */
  function IterKeys<V>(d: Dict<Node<V>>): seq<string>
    decreases d, 0
  {
    if |d| == 0 then []
    else
      var (k, child) := d[0];
      assert child < d[0];
      [k] + ValueIterKeys(child) + IterKeys(d[1..])
  }

  /** The keys below one value. */
  function ValueIterKeys<V>(v: Node<V>): seq<string>
    decreases v, 1
  {
    match v
    case Leaf(_) => []
    case Map(sub) => IterKeys(sub)
  }

  /** Some key of `p` contains `sep`: `any([sep in subkey for subkey in k])`. */
  predicate AnyKeyContains(p: Path, sep: string) {
    exists j :: 0 <= j < |p| && Contains(p[j], sep)
  }

  /** Some path of `ls` has a key containing `sep`. */
  predicate AnyPathContains<V>(ls: seq<(Path, V)>, sep: string) {
    exists i :: 0 <= i < |ls| && AnyKeyContains(ls[i].0, sep)
  }

  /** `flatten_dict(d, sep, check_keys)` (trict/util.py:42-76): walks the leaves in
      order, raising ValueError (when `check_keys` is set) at the first leaf whose path
      has a key containing `sep`, and otherwise assigning each value under its
      `sep`-joined path. The input is only read. */
  function FlattenDict<V>(d: Dict<Node<V>>, sep: string, checkKeys: bool): (r: Result<Dict<V>>)
    ensures r.Err? <==> checkKeys && AnyPathContains(Leaves(d, []), sep)
    ensures r.Err? ==> r.error == ValueError
  {
    FlattenLeaves(Leaves(d, []), sep, checkKeys, [])
  }

  /** The loop of `flatten_dict` over the leaves, with `acc` the dict built so far. */
  function FlattenLeaves<V>(ls: seq<(Path, V)>, sep: string, checkKeys: bool, acc: Dict<V>): (r: Result<Dict<V>>)
    ensures r.Err? <==> checkKeys && AnyPathContains(ls, sep)
    ensures r.Err? ==> r.error == ValueError
    decreases |ls|
  {
    if |ls| == 0 then Ok(acc)
    else if checkKeys && AnyKeyContains(ls[0].0, sep) then
      PathsContainHead(ls, sep);
      Err(ValueError)
    else
      var r := FlattenLeaves(ls[1..], sep, checkKeys, Assign(acc, Join(ls[0].0, sep), ls[0].1));
      PathsContainHead(ls, sep);
      r
  }

  /** Some path of a non-empty `ls` has a key containing `sep` exactly when the
      first one does or some later one does. */
  lemma PathsContainHead<V>(ls: seq<(Path, V)>, sep: string)
    requires |ls| > 0
    ensures AnyPathContains(ls, sep) <==> AnyKeyContains(ls[0].0, sep) || AnyPathContains(ls[1..], sep)
  {
    var rest := ls[1..];
    if i :| 0 <= i < |ls| && AnyKeyContains(ls[i].0, sep) {
      if i > 0 {
        assert rest[i - 1] == ls[i];
      }
    }
    if j :| 0 <= j < |rest| && AnyKeyContains(rest[j].0, sep) {
      assert ls[j + 1] == rest[j];
    }
  }
}
