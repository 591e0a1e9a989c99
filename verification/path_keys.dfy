/** The argument handling shared by `Trict` (trict/trict.py) and `FancyDict`
    (fancydict.py): the type check on `key_sep`, the construction check that no key
    contains it, and the normalisation of a key argument to a path. */
module PathKeys {
  import opened Results
  import opened Dicts
  import opened Strings
  import opened Tree
  import opened TrictUtil
  import opened Traversals

  /** The `key_sep` argument: a string, or a value of some other type. */
  datatype SepArg = SepStr(s: string) | SepOther

  /** A key argument: a string path, a list of keys, or a value of some other type. */
  datatype KeyArg = StrKey(s: string) | ListKey(path: Path) | OtherKey

  /** The checks at the head of `__init__` (trict/trict.py:11-15; fancydict.py:8-12):
      a separator that is not a string raises TypeError, and one that occurs in a key
      at any depth (the empty separator occurs in every key) raises ValueError. On
      success the separator string is returned. */
  function CheckSep<V>(initial: Dict<Node<V>>, sep: SepArg): (r: Result<string>)
    ensures sep.SepOther? ==> r == Err(TypeError)
    ensures sep.SepStr? ==>
      (r.Err? <==> !PathSepFree(IterKeys(initial), sep.s))
    ensures r.Err? && sep.SepStr? ==> r.error == ValueError
    ensures r.Ok? ==> sep == SepStr(r.value) && SepFree(Map(initial), r.value)
  {
    match sep
    case SepOther => Err(TypeError)
    case SepStr(s) =>
      if !PathSepFree(IterKeys(initial), s) then
        Err(ValueError)
      else
        IterKeysSepFree(initial, s);
        Ok(s)
  }

  /** No key listed by `iter_keys` contains `sep` exactly when the tree is free of it. */
  lemma {:induction false} IterKeysSepFree<V>(d: Dict<Node<V>>, sep: string)
    ensures PathSepFree(IterKeys(d), sep) <==> SepFree(Map(d), sep)
    decreases d, 0
  {
    if |d| > 0 {
      var (k, child) := d[0];
      assert child < d[0];
      ValueIterKeysSepFree(child, sep);
      IterKeysSepFree(d[1..], sep);
      PathSepFreeConcat([k] + ValueIterKeys(child), IterKeys(d[1..]), sep);
      PathSepFreeConcat([k], ValueIterKeys(child), sep);
      assert PathSepFree([k], sep) <==> !Contains(k, sep) by {
        assert [k][0] == k;
      }
      assert IterKeys(d) == [k] + ValueIterKeys(child) + IterKeys(d[1..]);
      SepFreeUnfold(d, sep);
    }
  }

  lemma {:induction false} ValueIterKeysSepFree<V>(v: Node<V>, sep: string)
    ensures PathSepFree(ValueIterKeys(v), sep) <==> SepFree(v, sep)
    decreases v, 1
  {
    match v
    case Leaf(_) =>
    case Map(sub) => IterKeysSepFree(sub, sep);
  }

  lemma PathSepFreeConcat(a: Path, b: Path, sep: string)
    ensures PathSepFree(a + b, sep) <==> PathSepFree(a, sep) && PathSepFree(b, sep)
  {
    assert forall i :: 0 <= i < |a| ==> (a + b)[i] == a[i];
    assert forall i :: 0 <= i < |b| ==> (a + b)[|a| + i] == b[i];
  }

  lemma SepFreeUnfold<V>(d: Dict<Node<V>>, sep: string)
    requires |d| > 0
    ensures SepFree(Map(d), sep) <==>
      !Contains(d[0].0, sep) && SepFree(d[0].1, sep) && SepFree(Map(d[1..]), sep)
  {
    assert forall i :: 1 <= i < |d| ==> d[i] == d[1..][i - 1];
  }

  /** `key_to_list` (trict/trict.py:41-46; fancydict.py:17-20 and 31-34): a list
      passes through, a string is split on the separator (`str.split('')` raises
      ValueError), anything else raises TypeError. Joining the pieces gives the string
      back, and no piece contains the separator. */
  function KeyToList(key: KeyArg, sep: string): (r: Result<Path>)
    ensures key.ListKey? ==> r == Ok(key.path)
    ensures key.OtherKey? ==> r == Err(TypeError)
    ensures key.StrKey? ==> (r.Err? <==> sep == "") && (r.Err? ==> r.error == ValueError)
    ensures key.StrKey? && r.Ok? ==>
      |r.value| >= 1 && Join(r.value, sep) == key.s && PathSepFree(r.value, sep)
  {
    match key
    case ListKey(p) => Ok(p)
    case OtherKey => Err(TypeError)
    case StrKey(s) => if sep == "" then Err(ValueError) else Ok(Split(s, sep))
  }

  /** The string form of a non-empty path free of a one-character separator
      normalises to that path: the two key forms address the same node. */
  lemma KeyToListOfJoin(p: Path, sep: string)
    requires |sep| == 1 && |p| >= 1 && PathSepFree(p, sep)
    ensures KeyToList(StrKey(Join(p, sep)), sep) == KeyToList(ListKey(p), sep)
  {
    SplitJoin(p, sep);
  }

  /** A top-level key free of the separator normalises to the one-key path. */
  lemma KeyToListOfKey(k: string, sep: string)
    requires sep != "" && !Contains(k, sep)
    ensures KeyToList(StrKey(k), sep) == Ok([k])
  {
    assert Find(k, sep) == None;
  }
}
