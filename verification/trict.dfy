/** The `Trict` class (trict/trict.py): a dict wrapper addressed by key paths, given
    either as a list of keys or as one string split on `key_sep`. Each mutating method
    returns the updated `Trict`; a raised exception returns no value, and the object
    is left as it was (no method here mutates before it raises). */
module TrictDict {
  import opened Results
  import opened Dicts
  import opened Strings
  import opened Tree
  import opened TrictUtil
  import opened Traversals
  import opened PathUpdates
  import opened PathKeys
  import opened LeafMapping
  import opened Flattening

  /** The wrapped dict `data`, the separator and the lookup mode. */
  datatype Trict<V> = Trict(data: Dict<Node<V>>, keySep: string, strictGet: bool)

  /** `__init__` (trict/trict.py:10-18): the separator checks, then `UserDict.__init__`,
      which starts from an empty dict and stores each top-level entry through
      `__setitem__`, that is, under its key split on the separator. */
  function New<V>(initial: Dict<Node<V>>, sep: SepArg, strictGet: bool): (r: Result<Trict<V>>)
    ensures CheckSep(initial, sep).Err? ==> r == Err(CheckSep(initial, sep).error)
    ensures r.Ok? ==> sep.SepStr? && r.value.keySep == sep.s && r.value.strictGet == strictGet
  {
    var s :- CheckSep(initial, sep);
    Populate(Trict([], s, strictGet), initial)
  }

  /** `self[k] = v` for each entry of `es` in order. */
  function Populate<V>(t: Trict<V>, es: Dict<Node<V>>): (r: Result<Trict<V>>)
    ensures r.Ok? ==> r.value.keySep == t.keySep && r.value.strictGet == t.strictGet
    decreases |es|
  {
    if |es| == 0 then Ok(t)
    else
      var t' :- SetItem(t, StrKey(es[0].0), es[0].1);
      Populate(t', es[1..])
  }

  /** Storing entries whose keys are new and free of the separator appends them. */
  lemma {:induction false} PopulateAppends<V>(t: Trict<V>, es: Dict<Node<V>>)
    requires t.keySep != "" && DistinctKeys(t.data + es)
    requires forall i :: 0 <= i < |es| ==> !Contains(es[i].0, t.keySep)
    ensures Populate(t, es) == Ok(t.(data := t.data + es))
    decreases |es|
  {
    if |es| == 0 {
      assert t.data + es == t.data;
    } else {
      var (k, v) := es[0];
      assert k !in Keys(t.data) && DistinctKeys(t.data + [(k, v)] + es[1..]) by {
        assert t.data + es == t.data + [(k, v)] + es[1..];
        SplitDistinct(t.data, k, v, es[1..], v);
      }
      KeyToListOfKey(k, t.keySep);
      var t' := t.(data := t.data + [(k, v)]);
      assert SetItem(t, StrKey(k), v) == Ok(t');
      PopulateAppends(t', es[1..]);
      assert t'.data + es[1..] == t.data + es;
    }
  }

  /** A construction that passes the separator checks holds exactly the initial dict. */
  lemma NewCopies<V>(initial: Dict<Node<V>>, sep: SepArg, strictGet: bool)
    requires DistinctKeys(initial) && CheckSep(initial, sep).Ok?
    ensures New(initial, sep, strictGet) == Ok(Trict(initial, CheckSep(initial, sep).value, strictGet))
  {
    var s := CheckSep(initial, sep).value;
    var t: Trict<V> := Trict([], s, strictGet);
    if |initial| > 0 {
      assert !Contains(initial[0].0, s);
      assert s != "";
      assert t.data + initial == initial;
      PopulateAppends(t, initial);
    }
  }

  /** `__getitem__` (trict/trict.py:20-29): the key becomes a path and is followed
      from the data. A missing key raises KeyError in strict mode and gives None
      otherwise; any other exception escapes. The empty list addresses the data. */
  function GetItem<V>(t: Trict<V>, key: KeyArg): (r: Result<Option<Node<V>>>)
    ensures KeyToList(key, t.keySep).Err? ==> r == Err(KeyToList(key, t.keySep).error)
    ensures r.Ok? && r.value.Some? ==>
      KeyToList(key, t.keySep).Ok? && Descend(Map(t.data), KeyToList(key, t.keySep).value) == Ok(r.value.value)
    ensures r == Ok(None) ==> !t.strictGet
    ensures r.Err? && r.error == KeyError ==> t.strictGet
  {
    var path :- KeyToList(key, t.keySep);
    Answer(t.strictGet, Descend(Map(t.data), path))
  }

  /** The `except KeyError` of `__getitem__` applied to the outcome of the lookup. */
  function Answer<V>(strictGet: bool, found: Result<Node<V>>): (r: Result<Option<Node<V>>>)
  {
    match found
    case Ok(n) => Ok(Some(n))
    case Err(e) => if e == KeyError && !strictGet then Ok(None) else Err(e)
  }

  /** `__setitem__` (trict/trict.py:31-34), through `recursive_set`. */
  function SetItem<V>(t: Trict<V>, key: KeyArg, val: Node<V>): (r: Result<Trict<V>>)
    ensures KeyToList(key, t.keySep).Err? ==> r == Err(KeyToList(key, t.keySep).error)
    ensures key == ListKey([]) ==> r == Err(IndexError)
    ensures r.Ok? ==> r.value.keySep == t.keySep && r.value.strictGet == t.strictGet
  {
    var path :- KeyToList(key, t.keySep);
    var n :- RecursiveSet(Map(t.data), path, val);
    Ok(t.(data := n.entries))
  }

  /** `__delitem__` (trict/trict.py:36-39), through `recursive_delete`. */
  function DelItem<V>(t: Trict<V>, key: KeyArg): (r: Result<Trict<V>>)
    ensures KeyToList(key, t.keySep).Err? ==> r == Err(KeyToList(key, t.keySep).error)
    ensures key == ListKey([]) ==> r == Err(IndexError)
    ensures r.Ok? ==> r.value.keySep == t.keySep && r.value.strictGet == t.strictGet
  {
    var path :- KeyToList(key, t.keySep);
    var n :- RecursiveDelete(Map(t.data), path);
    Ok(t.(data := n.entries))
  }

  /** The two key forms agree: a non-empty path free of a one-character separator
      and its joined string address the same value, for get, set and delete. */
  lemma KeyFormsAgree<V>(t: Trict<V>, p: Path, val: Node<V>)
    requires |t.keySep| == 1 && |p| >= 1 && PathSepFree(p, t.keySep)
    ensures GetItem(t, StrKey(Join(p, t.keySep))) == GetItem(t, ListKey(p))
    ensures SetItem(t, StrKey(Join(p, t.keySep)), val) == SetItem(t, ListKey(p), val)
    ensures DelItem(t, StrKey(Join(p, t.keySep))) == DelItem(t, ListKey(p))
  {
    KeyToListOfJoin(p, t.keySep);
  }

  /** The empty list addresses the whole data, in either mode. */
  lemma GetEmptyPath<V>(t: Trict<V>)
    ensures GetItem(t, ListKey([])) == Ok(Some(Map(t.data)))
  {
  }

  /** A lookup answers None exactly in non-strict mode on a missing key, and raises
      KeyError exactly in strict mode on one. */
  lemma GetMissing<V>(t: Trict<V>, key: KeyArg)
    requires KeyToList(key, t.keySep).Ok?
    ensures GetItem(t, key) == Ok(None) <==>
      !t.strictGet && Descend(Map(t.data), KeyToList(key, t.keySep).value) == Err(KeyError)
    ensures GetItem(t, key) == Err(KeyError) <==>
      t.strictGet && Descend(Map(t.data), KeyToList(key, t.keySep).value) == Err(KeyError)
  {
  }

  /** Set succeeds exactly when the path is non-empty and no proper prefix of it,
      the root included, holds a leaf. */
  lemma SetSucceeds<V>(t: Trict<V>, key: KeyArg, val: Node<V>)
    requires KeyToList(key, t.keySep).Ok?
    ensures SetItem(t, key, val).Ok? <==>
      var p := KeyToList(key, t.keySep).value;
      |p| > 0 && NoLeafAbove(Map(t.data), p)
  {
    SetSucceedsIff(Map(t.data), KeyToList(key, t.keySep).value, val);
  }

  /** A value that was set is what the same key then gets. */
  lemma SetThenGet<V>(t: Trict<V>, key: KeyArg, val: Node<V>)
    requires SetItem(t, key, val).Ok?
    ensures GetItem(SetItem(t, key, val).value, key) == Ok(Some(val))
  {
  }

  /** Setting one path leaves every path that branches off it as it was. */
  lemma SetFrameGet<V>(t: Trict<V>, key: KeyArg, val: Node<V>, other: KeyArg)
    requires SetItem(t, key, val).Ok? && KeyToList(other, t.keySep).Ok?
    requires Diverge(KeyToList(key, t.keySep).value, KeyToList(other, t.keySep).value)
    ensures GetItem(SetItem(t, key, val).value, other) == GetItem(t, other)
  {
    var p := KeyToList(key, t.keySep).value;
    var q := KeyToList(other, t.keySep).value;
    var n := RecursiveSet(Map(t.data), p, val).value;
    assert SetItem(t, key, val).value == t.(data := n.entries);
    SetFrame(Map(t.data), p, val, q);
  }

  /** Set keeps the data well formed. */
  lemma SetKeepsWellFormed<V>(t: Trict<V>, key: KeyArg, val: Node<V>)
    requires WellFormed(Map(t.data)) && WellFormed(val)
    requires SetItem(t, key, val).Ok?
    ensures WellFormed(Map(SetItem(t, key, val).value.data))
  {
    SetWellFormed(Map(t.data), KeyToList(key, t.keySep).value, val);
  }

  /** Delete succeeds exactly when the path leads somewhere; otherwise it raises the
      error the lookup would raise in strict mode. */
  lemma DelSucceeds<V>(t: Trict<V>, key: KeyArg)
    requires KeyToList(key, t.keySep).Ok? && KeyToList(key, t.keySep).value != []
    ensures DelItem(t, key).Ok? <==> GetItem(t, key).Ok? && GetItem(t, key).value.Some?
    ensures DelItem(t, key).Err? ==>
      DelItem(t, key).error == Descend(Map(t.data), KeyToList(key, t.keySep).value).error
  {
  }

  /** After a delete in a well-formed trict the key is missing, and a second delete
      raises KeyError. */
  lemma DelThenGet<V>(t: Trict<V>, key: KeyArg)
    requires WellFormed(Map(t.data)) && DelItem(t, key).Ok?
    ensures GetItem(DelItem(t, key).value, key) == (if t.strictGet then Err(KeyError) else Ok(None))
    ensures DelItem(DelItem(t, key).value, key) == Err(KeyError)
  {
    var p := KeyToList(key, t.keySep).value;
    DeleteRemoves(Map(t.data), p);
    DeleteTwiceFails(Map(t.data), p);
  }

  /** Deleting one path leaves every path that branches off it as it was. */
  lemma DelFrameGet<V>(t: Trict<V>, key: KeyArg, other: KeyArg)
    requires DelItem(t, key).Ok? && KeyToList(other, t.keySep).Ok?
    requires Diverge(KeyToList(key, t.keySep).value, KeyToList(other, t.keySep).value)
    ensures GetItem(DelItem(t, key).value, other) == GetItem(t, other)
  {
    var p := KeyToList(key, t.keySep).value;
    var q := KeyToList(other, t.keySep).value;
    var n := RecursiveDelete(Map(t.data), p).value;
    assert DelItem(t, key).value == t.(data := n.entries);
    DeleteFrame(Map(t.data), p, q);
  }

  /** `leaves()` (trict/trict.py:62-64) lists, without repeats, exactly the pairs
      (p, x) for which getting the list key p gives the leaf x, when p is not empty. */
  lemma LeavesAreLeafGets<V>(t: Trict<V>, p: Path, x: V)
    requires WellFormed(Map(t.data))
    ensures (p, x) in Leaves(t.data, []) <==> |p| > 0 && GetItem(t, ListKey(p)) == Ok(Some(Leaf(x)))
    ensures DistinctPaths(Leaves(t.data, []))
  {
    LeavesSound(t.data);
    if |p| > 0 && GetItem(t, ListKey(p)) == Ok(Some(Leaf(x))) {
      LeavesComplete(t.data, p, x);
    }
  }

  /** The answers of `__getitem__` for each key, in order. Lookups do not mutate,
      so listing them all gives the same answers as trying them one at a time. */
  function Lookups<V>(t: Trict<V>, keys: seq<KeyArg>): (r: seq<Result<Option<Node<V>>>>)
    ensures |r| == |keys| && forall i :: 0 <= i < |keys| ==> r[i] == GetItem(t, keys[i])
  {
    seq(|keys|, i requires 0 <= i < |keys| => GetItem(t, keys[i]))
  }

  /** What `get_by_list` answers when every key raises KeyError. */
  function Fallback<V>(strict: bool): Result<Option<Node<V>>> {
    if strict then Err(KeyError) else Ok(None)
  }

  /** The loop of `get_by_list` over the answers: a KeyError moves on to the next
      answer, any other answer is returned, and running out gives the fallback. */
  function FirstAnswer<V>(strict: bool, answers: seq<Result<Option<Node<V>>>>): (r: Result<Option<Node<V>>>)
    ensures r == Err(KeyError) ==> strict
    ensures r != Fallback(strict) ==> r in answers
    decreases |answers|
  {
    if |answers| == 0 then Fallback(strict)
    else if answers[0] == Err(KeyError) then FirstAnswer(strict, answers[1..])
    else answers[0]
  }

  /** `x` is at `i` and every earlier answer is KeyError. */
  ghost predicate FirstAt<X>(answers: seq<Result<X>>, i: int, x: Result<X>) {
    0 <= i < |answers| && answers[i] == x && x != Err(KeyError) &&
    forall j :: 0 <= j < i ==> answers[j] == Err(KeyError)
  }

  /** Every answer is KeyError. */
  ghost predicate AllMissing<X>(answers: seq<Result<X>>) {
    forall j :: 0 <= j < |answers| ==> answers[j] == Err(KeyError)
  }

  /** The loop answers `x` exactly when `x` is the first answer that is not KeyError,
      or when every answer is KeyError and `x` is the fallback. */
  lemma {:induction false} FirstAnswerIs<V>(strict: bool, answers: seq<Result<Option<Node<V>>>>, x: Result<Option<Node<V>>>)
    ensures FirstAnswer(strict, answers) == x <==>
      (exists i :: FirstAt(answers, i, x)) || (AllMissing(answers) && x == Fallback(strict))
    decreases |answers|
  {
    if |answers| > 0 {
      var tail := answers[1..];
      assert forall j :: 0 <= j < |tail| ==> tail[j] == answers[j + 1];
      if answers[0] == Err(KeyError) {
        FirstAnswerIs(strict, tail, x);
        assert AllMissing(answers) <==> AllMissing(tail);
        if exists i :: FirstAt(answers, i, x) {
          var i :| FirstAt(answers, i, x);
          assert FirstAt(tail, i - 1, x);
        }
        if exists i :: FirstAt(tail, i, x) {
          var i :| FirstAt(tail, i, x);
          assert FirstAt(answers, i + 1, x);
        }
      } else {
        assert !AllMissing(answers);
        if answers[0] == x {
          assert FirstAt(answers, 0, x);
        }
        if exists i :: FirstAt(answers, i, x) {
          var i :| FirstAt(answers, i, x);
          assert i == 0;
        }
      }
    }
  }

  /** `get_by_list(keys)` (trict/trict.py:66-87): the first key whose lookup does not
      raise KeyError decides the answer; when every key raises it, strict mode raises
      KeyError and non-strict mode answers None. */
  function GetByList<V>(t: Trict<V>, keys: seq<KeyArg>): (r: Result<Option<Node<V>>>)
    ensures r.Err? && r.error == KeyError ==> t.strictGet
    ensures r.Ok? && r.value.Some? ==> exists i :: 0 <= i < |keys| && GetItem(t, keys[i]) == r
  {
    FirstAnswer(t.strictGet, Lookups(t, keys))
  }

  /** The answer is the first key's lookup that is not KeyError; when every lookup
      is KeyError it is KeyError in strict mode and None otherwise. */
  lemma GetByListIs<V>(t: Trict<V>, keys: seq<KeyArg>, x: Result<Option<Node<V>>>)
    ensures GetByList(t, keys) == x <==>
      (exists i :: FirstAt(Lookups(t, keys), i, x)) ||
      (AllMissing(Lookups(t, keys)) && x == Fallback(t.strictGet))
  {
    FirstAnswerIs(t.strictGet, Lookups(t, keys), x);
  }

  /** In non-strict mode only the first key is ever consulted: its lookup cannot
      raise KeyError, so its answer, None included, is returned. */
  lemma GetByListNonStrictFirstOnly<V>(t: Trict<V>, keys: seq<KeyArg>)
    requires !t.strictGet && |keys| > 0
    ensures GetByList(t, keys) == GetItem(t, keys[0])
  {
    assert Lookups(t, keys)[0] == GetItem(t, keys[0]);
  }

  /** A concrete case: in non-strict mode a missing first key hides a second key
      that is present. */
  lemma GetByListNonStrictMissesLaterKey()
    ensures var t := Trict([("a", Leaf(1))], ".", false);
      GetByList(t, [ListKey(["b"]), ListKey(["a"])]) == Ok(None) &&
      GetByListFixed(t, [ListKey(["b"]), ListKey(["a"])]) == Ok(Some(Leaf(1)))
  {
    var t: Trict<int> := Trict([("a", Leaf(1))], ".", false);
    var keys := [ListKey(["b"]), ListKey(["a"])];
    assert Lookup(t.data, "b") == None;
    assert Lookup(t.data, "a") == Some(Leaf(1));
    var ts := t.(strictGet := true);
    assert Descend(Map(t.data), ["b"]) == Err(KeyError);
    assert Descend(Map(t.data), ["a"]) == Ok(Leaf(1));
    assert GetItem(ts, keys[0]) == Err(KeyError);
    assert GetItem(ts, keys[1]) == Ok(Some(Leaf(1)));
    var ls := Lookups(ts, keys);
    assert ls[1..][0] == Ok(Some(Leaf(1)));
    assert FirstAnswer(false, ls[1..]) == Ok(Some(Leaf(1)));
  }

  /** `get_by_list` as its documentation describes it: the value of the first key
      found, else KeyError in strict mode and None in non-strict mode. Each key is
      looked up strictly, so that a missing key moves on to the next one. */
  function GetByListFixed<V>(t: Trict<V>, keys: seq<KeyArg>): (r: Result<Option<Node<V>>>)
    ensures r.Err? && r.error == KeyError ==> t.strictGet
    ensures r.Ok? && r.value.Some? ==>
      exists i :: 0 <= i < |keys| && GetItem(t.(strictGet := true), keys[i]) == r
  {
    FirstAnswer(t.strictGet, Lookups(t.(strictGet := true), keys))
  }

  /** The corrected lookup answers a value exactly for the first key found, in either
      mode, and None exactly in non-strict mode when no key is found. In strict mode
      it is `get_by_list` as written. */
  lemma GetByListFixedFinds<V>(t: Trict<V>, keys: seq<KeyArg>, n: Node<V>)
    ensures GetByListFixed(t, keys) == Ok(Some(n)) <==>
      exists i :: FirstAt(Lookups(t.(strictGet := true), keys), i, Ok(Some(n)))
    ensures GetByListFixed(t, keys) == Ok(None) <==>
      !t.strictGet && AllMissing(Lookups(t.(strictGet := true), keys))
    ensures t.strictGet ==> GetByListFixed(t, keys) == GetByList(t, keys)
  {
    var ls := Lookups(t.(strictGet := true), keys);
    FirstAnswerIs(t.strictGet, ls, Ok(Some(n)));
    FirstAnswerIs(t.strictGet, ls, Ok(None));
    assert forall i :: 0 <= i < |ls| ==> ls[i] != Ok(None);
  }

  /** In strict mode `get_by_list` as written is the corrected lookup. */
  lemma GetByListStrictAgrees<V>(t: Trict<V>, keys: seq<KeyArg>)
    requires t.strictGet
    ensures GetByListFixed(t, keys) == GetByList(t, keys)
  {
    assert t.(strictGet := true) == t;
  }

  /** The dict comprehension `{k: answer(v) for k, v in mapper.items()}` with `acc`
      the dict built so far; the first exception escapes. */
  function Comprehension<X>(mapper: Dict<seq<KeyArg>>, answer: seq<KeyArg> -> Result<X>, acc: Dict<X>): (r: Result<Dict<X>>)
    ensures r.Err? <==> exists i :: 0 <= i < |mapper| && answer(mapper[i].1).Err?
    decreases |mapper|
  {
    if |mapper| == 0 then Ok(acc)
    else
      var v :- answer(mapper[0].1);
      var r := Comprehension(mapper[1..], answer, Assign(acc, mapper[0].0, v));
      RaisesLater(mapper, answer);
      r
  }

  /** When the first answer is a value, some answer raises exactly when some answer
      after the first does. */
  lemma RaisesLater<X>(mapper: Dict<seq<KeyArg>>, answer: seq<KeyArg> -> Result<X>)
    requires |mapper| > 0 && answer(mapper[0].1).Ok?
    ensures (exists i :: 0 <= i < |mapper| && answer(mapper[i].1).Err?) <==>
      exists i :: 0 <= i < |mapper[1..]| && answer(mapper[1..][i].1).Err?
  {
    var rest := mapper[1..];
    if i :| 0 <= i < |mapper| && answer(mapper[i].1).Err? {
      assert rest[i - 1] == mapper[i];
    }
    if j :| 0 <= j < |rest| && answer(rest[j].1).Err? {
      assert mapper[j + 1] == rest[j];
    }
  }

  /** Each mapper key with its answer, when every answer is a value. */
  function Answers<X>(mapper: Dict<seq<KeyArg>>, answer: seq<KeyArg> -> Result<X>): (r: Dict<X>)
    requires forall i :: 0 <= i < |mapper| ==> answer(mapper[i].1).Ok?
    ensures |r| == |mapper|
    ensures forall i :: 0 <= i < |mapper| ==> r[i] == (mapper[i].0, answer(mapper[i].1).value)
  {
    seq(|mapper|, i requires 0 <= i < |mapper| => (mapper[i].0, answer(mapper[i].1).value))
  }

  /** For a mapper with distinct keys the comprehension appends one entry per mapper
      key, in the mapper's order, holding that key's answer. */
  lemma {:induction false} ComprehensionAppends<X>(mapper: Dict<seq<KeyArg>>, answer: seq<KeyArg> -> Result<X>, acc: Dict<X>)
    requires DistinctKeys(acc) && DistinctKeys(mapper)
    requires forall i :: 0 <= i < |mapper| ==> mapper[i].0 !in Keys(acc)
    requires forall i :: 0 <= i < |mapper| ==> answer(mapper[i].1).Ok?
    ensures Comprehension(mapper, answer, acc) == Ok(acc + Answers(mapper, answer))
    decreases |mapper|
  {
    if |mapper| == 0 {
      assert acc + Answers(mapper, answer) == acc;
    } else {
      var (k, ks) := mapper[0];
      var v := answer(ks).value;
      var acc' := acc + [(k, v)];
      var rest := mapper[1..];
      assert Assign(acc, k, v) == acc';
      assert forall i :: 0 <= i < |rest| ==> rest[i] == mapper[i + 1];
      assert forall i :: 0 <= i < |rest| ==> rest[i].0 !in Keys(acc') by {
        KeysAppend(acc, (k, v));
      }
      ComprehensionAppends(rest, answer, acc');
      AnswersCons(mapper, answer);
      AppendCons(acc, (k, v), Answers(rest, answer));
    }
  }

  lemma AppendCons<T>(a: seq<T>, x: T, b: seq<T>)
    ensures (a + [x]) + b == a + ([x] + b)
  {
  }

  lemma AnswersCons<X>(mapper: Dict<seq<KeyArg>>, answer: seq<KeyArg> -> Result<X>)
    requires |mapper| > 0
    requires forall i :: 0 <= i < |mapper| ==> answer(mapper[i].1).Ok?
    ensures Answers(mapper, answer) == [(mapper[0].0, answer(mapper[0].1).value)] + Answers(mapper[1..], answer)
  {
    assert forall i :: 0 <= i < |mapper| - 1 ==> mapper[1..][i] == mapper[i + 1];
  }

  /** `map_with_dict(mapper)` (trict/trict.py:89-113): a new dict with, for each
      entry (k, keys) of the mapper in order, what `get_by_list(keys)` answers, under
      k; the first exception escapes. */
  function MapWithDict<V>(t: Trict<V>, mapper: Dict<seq<KeyArg>>): (r: Result<Dict<Option<Node<V>>>>)
    ensures r.Err? <==> exists i :: 0 <= i < |mapper| && GetByList(t, mapper[i].1).Err?
  {
    Comprehension(mapper, Finder(t), [])
  }

  /** What `map_with_dict` asks of each mapper entry: `get_by_list`. */
  function Finder<V>(t: Trict<V>): seq<KeyArg> -> Result<Option<Node<V>>>
  {
    keys => GetByList(t, keys)
  }

  /** One entry per mapper key, in the mapper's order, holding what `get_by_list`
      answers for its candidate keys. */
  lemma MapWithDictEntries<V>(t: Trict<V>, mapper: Dict<seq<KeyArg>>)
    requires DistinctKeys(mapper) && MapWithDict(t, mapper).Ok?
    ensures |MapWithDict(t, mapper).value| == |mapper|
    ensures forall i :: 0 <= i < |mapper| ==>
      MapWithDict(t, mapper).value[i] == (mapper[i].0, GetByList(t, mapper[i].1).value)
  {
    ComprehensionFromEmpty(mapper, Finder(t));
  }

  /** `map_with_dict` over the corrected lookup, where every candidate is looked up
      strictly so that a missing one moves on to the next. */
  function MapWithDictFixed<V>(t: Trict<V>, mapper: Dict<seq<KeyArg>>): (r: Result<Dict<Option<Node<V>>>>)
    ensures r.Err? <==> exists i :: 0 <= i < |mapper| && GetByListFixed(t, mapper[i].1).Err?
  {
    Comprehension(mapper, FinderFixed(t), [])
  }

  /** What the corrected `map_with_dict` asks of each mapper entry. */
  function FinderFixed<V>(t: Trict<V>): seq<KeyArg> -> Result<Option<Node<V>>>
  {
    keys => GetByListFixed(t, keys)
  }

  /** One entry per mapper key, in the mapper's order, holding what the corrected
      lookup finds for its candidate keys. */
  lemma MapWithDictFixedEntries<V>(t: Trict<V>, mapper: Dict<seq<KeyArg>>)
    requires DistinctKeys(mapper) && MapWithDictFixed(t, mapper).Ok?
    ensures |MapWithDictFixed(t, mapper).value| == |mapper|
    ensures forall i :: 0 <= i < |mapper| ==>
      MapWithDictFixed(t, mapper).value[i] == (mapper[i].0, GetByListFixed(t, mapper[i].1).value)
  {
    ComprehensionFromEmpty(mapper, FinderFixed(t));
  }

  /** The comprehension started from the empty dict holds exactly the answers. */
  lemma ComprehensionFromEmpty<X>(mapper: Dict<seq<KeyArg>>, answer: seq<KeyArg> -> Result<X>)
    requires DistinctKeys(mapper) && Comprehension(mapper, answer, []).Ok?
    ensures forall i :: 0 <= i < |mapper| ==> answer(mapper[i].1).Ok?
    ensures Comprehension(mapper, answer, []) == Ok(Answers(mapper, answer))
  {
    var empty: Dict<X> := [];
    ComprehensionOkAll(mapper, answer, empty);
    ComprehensionAppendsEmpty(mapper, answer);
  }

  /** A comprehension that does not raise got a value from every answer. */
  lemma ComprehensionOkAll<X>(mapper: Dict<seq<KeyArg>>, answer: seq<KeyArg> -> Result<X>, acc: Dict<X>)
    requires Comprehension(mapper, answer, acc).Ok?
    ensures forall i :: 0 <= i < |mapper| ==> answer(mapper[i].1).Ok?
  {
  }

  /** From the empty dict, a comprehension whose answers are all values holds
      exactly those answers. */
  lemma ComprehensionAppendsEmpty<X>(mapper: Dict<seq<KeyArg>>, answer: seq<KeyArg> -> Result<X>)
    requires DistinctKeys(mapper)
    requires forall i :: 0 <= i < |mapper| ==> answer(mapper[i].1).Ok?
    ensures Comprehension(mapper, answer, []) == Ok(Answers(mapper, answer))
  {
    var empty: Dict<X> := [];
    assert forall i :: 0 <= i < |mapper| ==> mapper[i].0 !in Keys(empty);
    ComprehensionAppends(mapper, answer, empty);
    EmptyHead(Answers(mapper, answer));
  }

  /** Two answer functions that agree on every entry of the mapper build the same
      comprehension. */
  lemma {:induction false} ComprehensionSame<X>(mapper: Dict<seq<KeyArg>>, a: seq<KeyArg> -> Result<X>,
                                                b: seq<KeyArg> -> Result<X>, acc: Dict<X>)
    requires forall i :: 0 <= i < |mapper| ==> a(mapper[i].1) == b(mapper[i].1)
    ensures Comprehension(mapper, a, acc) == Comprehension(mapper, b, acc)
    decreases |mapper|
  {
    if |mapper| > 0 && a(mapper[0].1).Ok? {
      var rest := mapper[1..];
      assert forall i :: 0 <= i < |rest| ==> rest[i] == mapper[i + 1];
      ComprehensionSame(rest, a, b, Assign(acc, mapper[0].0, a(mapper[0].1).value));
    }
  }

  /** In strict mode `map_with_dict` as written and the corrected one coincide. */
  lemma MapWithDictStrictAgrees<V>(t: Trict<V>, mapper: Dict<seq<KeyArg>>)
    requires t.strictGet
    ensures MapWithDict(t, mapper) == MapWithDictFixed(t, mapper)
  {
    forall i | 0 <= i < |mapper|
      ensures Finder(t)(mapper[i].1) == FinderFixed(t)(mapper[i].1)
    {
      GetByListStrictAgrees(t, mapper[i].1);
    }
    ComprehensionSame(mapper, Finder(t), FinderFixed(t), []);
  }

  /** A concrete case: in non-strict mode `map_with_dict` as written binds a key to
      None although its second candidate is present, where the corrected one binds
      the value found. */
  lemma MapWithDictNonStrictMisses()
    ensures var t := Trict([("a", Leaf(1))], ".", false);
      var mapper := [("x", [ListKey(["b"]), ListKey(["a"])])];
      MapWithDict(t, mapper) == Ok([("x", None)]) &&
      MapWithDictFixed(t, mapper) == Ok([("x", Some(Leaf(1)))])
  {
    var t: Trict<int> := Trict([("a", Leaf(1))], ".", false);
    var keys := [ListKey(["b"]), ListKey(["a"])];
    var mapper := [("x", keys)];
    GetByListNonStrictMissesLaterKey();
    assert Finder(t)(mapper[0].1) == Ok(None);
    assert FinderFixed(t)(mapper[0].1) == Ok(Some(Leaf(1)));
    var empty: Dict<Option<Node<int>>> := [];
    assert Assign(empty, "x", None) == [("x", None)];
    assert Assign(empty, "x", Some(Leaf(1))) == [("x", Some(Leaf(1)))];
  }

  /** The names trict/trict.py:5-6 imports from `trict/util.py`. */
  const UtilImports: set<string> := {"flatten_dict", "iter_keys", "recursive_delete", "recursive_set", "leaves"}

  /** A call of `flatten_dict(d, sep='.', check_keys=True)` (trict/util.py:42) with the
      keyword arguments `keywords`: an unknown keyword raises TypeError. */
  function FlattenDictCall<V>(d: Dict<Node<V>>, keywords: set<string>, sep: string, checkKeys: bool): (r: Result<Dict<V>>)
  {
    if keywords <= {"d", "sep", "check_keys"} then FlattenDict(d, sep, checkKeys) else Err(TypeError)
  }

  /** `flatten(max_depth)` as written (trict/trict.py:48-51): it passes `max_depth`,
      which `flatten_dict` does not take. */
  function FlattenAsWritten<V>(t: Trict<V>, maxDepth: int): (r: Result<Dict<V>>)
  {
    FlattenDictCall(t.data, {"max_depth", "sep"}, t.keySep, true)
  }

  /** Whatever the data and the depth, `flatten` as written raises TypeError. */
  lemma FlattenAsWrittenFails<V>(t: Trict<V>, maxDepth: int)
    ensures FlattenAsWritten(t, maxDepth) == Err(TypeError)
  {
    assert "max_depth" !in {"d", "sep", "check_keys"};
  }

  /** `flatten` without the `max_depth` argument: `flatten_dict(data, sep=key_sep)`. */
  function Flatten<V>(t: Trict<V>): (r: Result<Dict<V>>)
  {
    FlattenDict(t.data, t.keySep, true)
  }

  /** For a well-formed trict free of its one-character separator, every entry
      (k, v) of the flattened dict is a leaf v that getting the string key k finds,
      and there is one entry per leaf. */
  lemma FlattenThenGet<V>(t: Trict<V>)
    requires |t.keySep| == 1 && WellFormed(Map(t.data)) && SepFree(Map(t.data), t.keySep)
    ensures Flatten(t).Ok? && |Flatten(t).value| == |Leaves(t.data, [])|
    ensures forall i :: 0 <= i < |Flatten(t).value| ==>
      GetItem(t, StrKey(Flatten(t).value[i].0)) == Ok(Some(Leaf(Flatten(t).value[i].1)))
  {
    FlattenExact(t.data, t.keySep, true);
    FlattenRoundTrip(t.data, t.keySep, true);
  }

  /** A call of `traverse(d, keys_only=False, prev=[])` (trict/util.py:128) from
      trict/trict.py, where the name must first resolve among the imports and then
      accept the keyword arguments `keywords`. */
  function UtilTraverseCall<V>(d: Dict<Node<V>>, keywords: set<string>): (r: Result<seq<(Path, Node<V>)>>)
  {
    if "traverse" !in UtilImports then Err(NameError)
    else if keywords <= {"d", "keys_only", "prev"} then Ok(Traverse(d, []))
    else Err(TypeError)
  }

  /** `traverse()` as written (trict/trict.py:53-56): the name `traverse` is not
      imported, and the `sep` keyword would not be accepted either. */
  function TraverseAsWritten<V>(t: Trict<V>): (r: Result<seq<(Path, Node<V>)>>)
  {
    UtilTraverseCall(t.data, {"sep"})
  }

  /** Whatever the data, `traverse` as written raises NameError. */
  lemma TraverseAsWrittenFails<V>(t: Trict<V>)
    ensures TraverseAsWritten(t) == Err(NameError)
  {
  }

  /** `traverse()` as the tests use it: `traverse(data)` from trict/util.py, every
      node with its path. */
  function TraverseNodes<V>(t: Trict<V>): (r: seq<(Path, Node<V>)>)
  {
    Traverse(t.data, [])
  }

  /** In a well-formed trict, the traversal lists, without repeats, exactly the
      pairs (p, n) for which getting the non-empty list key p finds n. */
  lemma TraverseIsGets<V>(t: Trict<V>, p: Path, n: Node<V>)
    requires WellFormed(Map(t.data))
    ensures (p, n) in TraverseNodes(t) <==> |p| > 0 && GetItem(t, ListKey(p)) == Ok(Some(n))
    ensures DistinctPaths(TraverseNodes(t))
  {
    var ts := Traverse(t.data, []);
    TraverseSound(t.data, []);
    TraverseDistinct(t.data, []);
    if (p, n) in ts {
      var j :| 0 <= j < |ts| && ts[j] == (p, n);
      assert p[0..] == p;
    }
    if |p| > 0 && GetItem(t, ListKey(p)) == Ok(Some(n)) {
      TraverseComplete(t.data, [], p);
      assert [] + p == p;
    }
  }

  /** `map_leaves(f)` as written (trict/trict.py:58-60): it iterates `traverse()`,
      which raises before the first assignment. (Had the traversal run, the loop
      would also have passed every mapping node to `f`.) */
  function MapLeavesAsWritten<V>(t: Trict<V>, f: V -> V): (r: Result<Trict<V>>)
  {
    match TraverseAsWritten(t)
    case Err(e) => Err(e)
    case Ok(_) => MapLeaves(t, f)
  }

  /** Whatever the data and the function, `map_leaves` as written raises NameError. */
  lemma MapLeavesAsWrittenFails<V>(t: Trict<V>, f: V -> V)
    ensures MapLeavesAsWritten(t, f) == Err(NameError)
  {
  }

  /** `map_leaves(f)` over the leaves, as the tests expect it: `self[k] = f(v)` for
      each (k, v) of `leaves()`, with k a list key. */
  function MapLeaves<V>(t: Trict<V>, f: V -> V): (r: Result<Trict<V>>)
    ensures r.Ok? ==> r.value.keySep == t.keySep && r.value.strictGet == t.strictGet
  {
    var n :- ApplyLeaves(Map(t.data), Leaves(t.data, []), f);
    Ok(t.(data := n.entries))
  }

  /** On a well-formed trict, mapping the leaves succeeds and replaces each leaf
      value v by f(v), keeping every key and its position. */
  lemma MapLeavesMaps<V>(t: Trict<V>, f: V -> V)
    requires WellFormed(Map(t.data))
    ensures MapLeaves(t, f) == Ok(t.(data := MapTree(t.data, f)))
  {
    MapLeavesIsMapTree(t.data, f);
  }

}
