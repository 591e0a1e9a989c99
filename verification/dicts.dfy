/** Python's `dict` with string keys, as an ordered association list: iteration
    follows insertion order, assigning to a present key keeps its position, a new
    key is appended, and `del` removes the entry. */
module Dicts {
  import opened Results

  type Dict<X> = seq<(string, X)>

  /** The keys in iteration order (`list(d)`). */
  function Keys<X>(d: Dict<X>): (ks: seq<string>)
    ensures |ks| == |d|
    ensures forall i :: 0 <= i < |d| ==> ks[i] == d[i].0
  {
    if |d| == 0 then [] else [d[0].0] + Keys(d[1..])
  }

  /** Every key occurs once, as in any Python dict. */
  predicate DistinctKeys<X>(d: Dict<X>) {
    forall i, j :: 0 <= i < j < |d| ==> d[i].0 != d[j].0
  }

  /** Position of the first entry whose key is `k`. */
  function Position<X>(d: Dict<X>, k: string): (r: Option<nat>)
    ensures r.Some? ==> r.value < |d| && d[r.value].0 == k
    ensures r.Some? ==> forall j :: 0 <= j < r.value ==> d[j].0 != k
    ensures r.None? <==> k !in Keys(d)
  {
    if |d| == 0 then None
    else if d[0].0 == k then Some(0)
    else match Position(d[1..], k)
      case None => None
      case Some(i) => Some(i + 1)
  }

  /** `Position` is the first index holding `k`. */
  lemma PositionIs<X>(d: Dict<X>, k: string, i: nat)
    requires i < |d| && d[i].0 == k
    requires forall j :: 0 <= j < i ==> d[j].0 != k
    ensures Position(d, k) == Some(i)
  {
    assert Keys(d)[i] == k;
  }

  /** `d[k]`: `None` stands for the KeyError of an absent key. */
  function Lookup<X>(d: Dict<X>, k: string): (r: Option<X>)
    ensures r.Some? <==> k in Keys(d)
    ensures r.Some? ==> exists i :: 0 <= i < |d| && d[i] == (k, r.value)
  {
    match Position(d, k)
    case None => None
    case Some(i) => Some(d[i].1)
  }

  /** A key every entry avoids is absent. */
  lemma NotInKeys<X>(d: Dict<X>, k: string)
    requires forall j :: 0 <= j < |d| ==> d[j].0 != k
    ensures k !in Keys(d)
  {
    forall j | 0 <= j < |d|
      ensures Keys(d)[j] != k
    {
    }
  }

  /** Two lists that agree on where `k` occurs, and on the value there, agree on `d[k]`. */
  lemma LookupSame<X>(d: Dict<X>, r: Dict<X>, k: string)
    requires |d| == |r|
    requires forall j :: 0 <= j < |d| ==> (d[j].0 == k <==> r[j].0 == k)
    requires forall j :: 0 <= j < |d| && d[j].0 == k ==> d[j] == r[j]
    ensures Lookup(r, k) == Lookup(d, k)
  {
    match Position(d, k)
    case None =>
      assert forall j :: 0 <= j < |d| ==> Keys(d)[j] != k;
      NotInKeys(r, k);
    case Some(i) =>
      PositionIs(r, k, i);
  }

  /** Appending a new key leaves every other lookup alone. */
  lemma LookupAppend<X>(d: Dict<X>, k: string, x: X)
    requires k !in Keys(d)
    ensures Lookup(d + [(k, x)], k) == Some(x)
    ensures forall k' :: k' != k ==> Lookup(d + [(k, x)], k') == Lookup(d, k')
  {
    var r := d + [(k, x)];
    assert forall j :: 0 <= j < |d| ==> r[j] == d[j] && Keys(d)[j] == d[j].0;
    PositionIs(r, k, |d|);
    forall k' | k' != k
      ensures Lookup(r, k') == Lookup(d, k')
    {
      match Position(d, k')
      case None =>
        assert forall j :: 0 <= j < |d| ==> Keys(d)[j] != k';
        NotInKeys(r, k');
      case Some(i) =>
        PositionIs(r, k', i);
    }
  }

  /** Overwriting the first entry for `k` in place leaves every other lookup alone. */
  lemma LookupReplace<X>(d: Dict<X>, i: nat, k: string, x: X)
    requires Position(d, k) == Some(i)
    ensures Lookup(d[i := (k, x)], k) == Some(x)
    ensures forall k' :: k' != k ==> Lookup(d[i := (k, x)], k') == Lookup(d, k')
    ensures Keys(d[i := (k, x)]) == Keys(d)
  {
    var r := d[i := (k, x)];
    assert Keys(r) == Keys(d) by {
      KeysReplace(d, i, x);
    }
    PositionIs(r, k, i);
    forall k' | k' != k
      ensures Lookup(r, k') == Lookup(d, k')
    {
      LookupSame(d, r, k');
    }
  }

  /** Replacing the value at a position keeps the keys. */
  lemma KeysReplace<X>(d: Dict<X>, i: nat, x: X)
    requires i < |d|
    ensures Keys(d[i := (d[i].0, x)]) == Keys(d)
  {
  }

  /** Cutting an entry out of a list leaves a key it lacked absent. */
  lemma CutAbsent<X>(d: Dict<X>, i: nat, k': string)
    requires i < |d| && k' !in Keys(d)
    ensures k' !in Keys(d[..i] + d[i + 1..])
  {
    var r := d[..i] + d[i + 1..];
    forall j | 0 <= j < |r|
      ensures r[j].0 != k'
    {
      if j < i {
        assert r[j] == d[j] && Keys(d)[j] == d[j].0;
      } else {
        assert r[j] == d[j + 1] && Keys(d)[j + 1] == d[j + 1].0;
      }
    }
    NotInKeys(r, k');
  }

  /** Where the entries of `d` sit once the one at `i` is cut out. */
  lemma CutIndex<X>(d: Dict<X>, r: Dict<X>, i: nat)
    requires i < |d| && r == d[..i] + d[i + 1..]
    ensures |r| == |d| - 1
    ensures forall j :: 0 <= j < i ==> r[j] == d[j]
    ensures forall j :: i <= j < |r| ==> r[j] == d[j + 1]
  {
  }

  /** Cutting out the entry at position `i`, which holds a key other than `k'`, moves
      the first entry for `k'` down by one when it came after `i`. */
  lemma CutPresent<X>(d: Dict<X>, r: Dict<X>, i: nat, k': string, p: nat)
    requires i < |d| && p < |d| && d[i].0 != k' && d[p].0 == k'
    requires forall j :: 0 <= j < p ==> d[j].0 != k'
    requires |r| == |d| - 1
    requires forall j :: 0 <= j < i && j < |r| ==> r[j] == d[j]
    requires forall j :: i <= j < |r| ==> r[j] == d[j + 1]
    ensures var q := if p < i then p else p - 1;
      q < |r| && r[q] == d[p] && forall j :: 0 <= j < q ==> r[j].0 != k'
  {
    var q := if p < i then p else p - 1;
    forall j | 0 <= j < q
      ensures r[j].0 != k'
    {
      if j < i {
        assert r[j] == d[j] && j < p;
      } else {
        assert r[j] == d[j + 1] && j + 1 < p;
      }
    }
  }

  /** Cutting out the entry at position `i` leaves the lookup of any other key alone. */
  lemma LookupCutOther<X>(d: Dict<X>, i: nat, k: string, k': string)
    requires Position(d, k) == Some(i)
    requires k' != k
    ensures Lookup(d[..i] + d[i + 1..], k') == Lookup(d, k')
  {
    match Position(d, k')
    case None =>
      CutAbsent(d, i, k');
    case Some(p) =>
      var r := d[..i] + d[i + 1..];
      CutIndex(d, r, i);
      CutPresent(d, r, i, k', p);
      PositionIs(r, k', if p < i then p else p - 1);
  }

  /** Cutting out the only entry for `k` leaves no entry for `k`. */
  lemma LookupCutSelf<X>(d: Dict<X>, i: nat, k: string)
    requires Position(d, k) == Some(i)
    requires DistinctKeys(d)
    ensures k !in Keys(d[..i] + d[i + 1..])
  {
    var r := d[..i] + d[i + 1..];
    forall j | 0 <= j < |r|
      ensures r[j].0 != k
    {
      if j < i {
        assert r[j] == d[j];
      } else {
        assert r[j] == d[j + 1];
      }
    }
    NotInKeys(r, k);
  }

  /** Cutting out the entry at position `i` leaves the lookup of every other key alone. */
  lemma LookupCut<X>(d: Dict<X>, i: nat, k: string)
    requires Position(d, k) == Some(i)
    ensures forall k' :: k' != k ==> Lookup(d[..i] + d[i + 1..], k') == Lookup(d, k')
    ensures DistinctKeys(d) ==> k !in Keys(d[..i] + d[i + 1..])
    ensures DistinctKeys(d) ==> DistinctKeys(d[..i] + d[i + 1..])
    ensures |d[..i] + d[i + 1..]| == |d| - 1
  {
    forall k' | k' != k
      ensures Lookup(d[..i] + d[i + 1..], k') == Lookup(d, k')
    {
      LookupCutOther(d, i, k, k');
    }
    if DistinctKeys(d) {
      LookupCutSelf(d, i, k);
      CutDistinct(d, i);
    }
  }

  /** Cutting an entry out of a dict with distinct keys keeps them distinct. */
  lemma CutDistinct<X>(d: Dict<X>, i: nat)
    requires i < |d| && DistinctKeys(d)
    ensures DistinctKeys(d[..i] + d[i + 1..])
  {
    var r := d[..i] + d[i + 1..];
    forall a, b | 0 <= a < b < |r|
      ensures r[a].0 != r[b].0
    {
      var a' := if a < i then a else a + 1;
      var b' := if b < i then b else b + 1;
      assert r[a] == d[a'] && r[b] == d[b'];
    }
  }

  /** `d[k] = x`. */
  function Assign<X>(d: Dict<X>, k: string, x: X): (r: Dict<X>)
    ensures Lookup(r, k) == Some(x)
    ensures forall k' :: k' != k ==> Lookup(r, k') == Lookup(d, k')
    ensures k in Keys(d) ==> Keys(r) == Keys(d)
    ensures k !in Keys(d) ==> r == d + [(k, x)]
    ensures DistinctKeys(d) ==> DistinctKeys(r)
  {
    match Position(d, k)
    case None =>
      LookupAppend(d, k, x);
      d + [(k, x)]
    case Some(i) =>
      LookupReplace(d, i, k, x);
      d[i := (k, x)]
  }

  /** `del d[k]` (or `d.pop(k)` with the popped value dropped) once `k` is known to be
      present; an absent key leaves the list as it is. */
  function Remove<X>(d: Dict<X>, k: string): (r: Dict<X>)
    ensures DistinctKeys(d) ==> Lookup(r, k) == None
    ensures forall k' :: k' != k ==> Lookup(r, k') == Lookup(d, k')
    ensures DistinctKeys(d) ==> DistinctKeys(r)
    ensures k in Keys(d) ==> |r| == |d| - 1
  {
    match Position(d, k)
    case None => d
    case Some(i) =>
      LookupCut(d, i, k);
      d[..i] + d[i + 1..]
  }

  /** `del d[k]`, raising KeyError for an absent key. */
  function Del<X>(d: Dict<X>, k: string): (r: Result<Dict<X>>)
    ensures r.Err? <==> k !in Keys(d)
    ensures r.Err? ==> r.error == KeyError
    ensures r.Ok? && DistinctKeys(d) ==> Lookup(r.value, k) == None && DistinctKeys(r.value)
  {
    if k in Keys(d) then Ok(Remove(d, k)) else Err(KeyError)
  }

  /** `d.update(e)`: assigns every entry of `e` in order. */
  function Update<X>(d: Dict<X>, e: Dict<X>): Dict<X>
    decreases |e|
  {
    if |e| == 0 then d else Update(Assign(d, e[0].0, e[0].1), e[1..])
  }

  /** Assigning keeps the keys, adding `k` at the end when it is new. */
  lemma AssignKeys<X>(d: Dict<X>, k: string, x: X)
    ensures Keys(Assign(d, k, x)) == if k in Keys(d) then Keys(d) else Keys(d) + [k]
  {
    if k !in Keys(d) {
      KeysAppend(d, (k, x));
    }
  }

  /** The keys of `d + [x]` are those of `d` and the key of `x`. */
  lemma KeysAppend<X>(d: Dict<X>, x: (string, X))
    ensures Keys(d + [x]) == Keys(d) + [x.0]
  {
    assert forall j :: 0 <= j < |d| ==> (d + [x])[j] == d[j];
  }

  lemma AppendShift<X>(d: Dict<X>, e: Dict<X>)
    requires |e| > 0
    ensures d + [e[0]] + e[1..] == d + e
  {
    assert [e[0]] + e[1..] == e;
  }

  /** Updating with entries whose keys are new and distinct appends them. */
  lemma {:induction false} UpdateFresh<X>(d: Dict<X>, e: Dict<X>)
    requires DistinctKeys(e)
    requires forall i :: 0 <= i < |e| ==> e[i].0 !in Keys(d)
    ensures Update(d, e) == d + e
    decreases |e|
  {
    if |e| > 0 {
      var d' := d + [e[0]];
      assert Assign(d, e[0].0, e[0].1) == d';
      var rest := e[1..];
      assert Update(d, e) == Update(d', rest);
      KeysAppend(d, e[0]);
      assert DistinctKeys(rest) by {
        forall i, j | 0 <= i < j < |rest|
          ensures rest[i].0 != rest[j].0
        {
          assert rest[i] == e[i + 1] && rest[j] == e[j + 1];
        }
      }
      forall i | 0 <= i < |rest|
        ensures rest[i].0 !in Keys(d')
      {
        assert rest[i] == e[i + 1];
        assert e[i + 1].0 != e[0].0;
      }
      UpdateFresh(d', rest);
      AppendShift(d, e);
    }
  }

  /** Removing a key that sits between two key-disjoint halves leaves the halves. */
  lemma RemoveMiddle<X>(a: Dict<X>, k: string, x: X, b: Dict<X>)
    requires k !in Keys(a)
    ensures Remove(a + [(k, x)] + b, k) == a + b
  {
    var d := a + [(k, x)] + b;
    assert forall j :: 0 <= j < |a| ==> d[j] == a[j] && Keys(a)[j] == a[j].0;
    PositionIs(d, k, |a|);
    assert d[..|a|] == a;
    assert d[|a| + 1..] == b;
  }

  /** The keys after `d.update(e)` are those of `d` and those of `e`. */
  lemma {:induction false} UpdateKeys<X>(d: Dict<X>, e: Dict<X>)
    ensures forall key :: key in Keys(Update(d, e)) <==> key in Keys(d) || key in Keys(e)
    decreases |e|
  {
    if |e| > 0 {
      var d' := Assign(d, e[0].0, e[0].1);
      if e[0].0 !in Keys(d) {
        KeysAppend(d, e[0]);
      }
      assert forall key :: key in Keys(d') <==> key in Keys(d) || key == e[0].0;
      UpdateKeys(d', e[1..]);
      assert Keys(e) == [e[0].0] + Keys(e[1..]);
    }
  }

  /** Assigning over the entry at the first occurrence of `k` rewrites it in place. */
  lemma AssignAt<X>(a: Dict<X>, k: string, y: X, b: Dict<X>, x: X)
    requires k !in Keys(a)
    ensures Assign(a + [(k, y)] + b, k, x) == a + [(k, x)] + b
  {
    var d := a + [(k, y)] + b;
    PositionIs(d, k, |a|);
    UpdateMiddle(a, (k, y), b, (k, x));
  }

  lemma UpdateMiddle<T>(a: seq<T>, y: T, b: seq<T>, x: T)
    ensures (a + [y] + b)[|a| := x] == a + [x] + b
  {
  }

  /** Assigning a key its current value changes nothing. */
  lemma AssignSame<X>(d: Dict<X>, k: string, x: X)
    requires Lookup(d, k) == Some(x)
    ensures Assign(d, k, x) == d
  {
    var i := Position(d, k).value;
    assert d[i] == (k, x);
  }

  /** A second assignment to the same key overrides the first. */
  lemma AssignTwice<X>(d: Dict<X>, k: string, x: X, y: X)
    ensures Assign(Assign(d, k, x), k, y) == Assign(d, k, y)
  {
    match Position(d, k)
    case None =>
      PositionIs(d + [(k, x)], k, |d|);
      UpdateMiddle(d, (k, x), [], (k, y));
      EmptyTail(d + [(k, x)]);
      EmptyTail(d + [(k, y)]);
    case Some(i) =>
      PositionIs(d[i := (k, x)], k, i);
      UpdateTwice(d, i, (k, x), (k, y));
  }

  lemma UpdateTwice<T>(s: seq<T>, i: nat, x: T, y: T)
    requires i < |s|
    ensures s[i := x][i := y] == s[i := y]
  {
  }

  lemma EmptyTail<T>(s: seq<T>)
    ensures s + [] == s
  {
  }

  lemma EmptyHead<T>(s: seq<T>)
    ensures [] + s == s
  {
  }

  lemma AppendAssoc<T>(a: seq<T>, b: seq<T>, c: seq<T>)
    ensures (a + b) + c == a + (b + c)
  {
  }

  /** The entry after a key-free prefix is what looking its key up finds. */
  lemma LookupMiddle<X>(a: Dict<X>, k: string, y: X, b: Dict<X>)
    requires k !in Keys(a)
    ensures Lookup(a + [(k, y)] + b, k) == Some(y)
  {
    PositionIs(a + [(k, y)] + b, k, |a|);
  }

  /** Splitting distinct keys around one entry, whose value may be replaced. */
  lemma SplitDistinct<X>(a: Dict<X>, k: string, y: X, b: Dict<X>, z: X)
    requires DistinctKeys(a + [(k, y)] + b)
    ensures k !in Keys(a)
    ensures DistinctKeys(a + [(k, z)] + b)
  {
    var d := a + [(k, y)] + b;
    var e := a + [(k, z)] + b;
    forall j | 0 <= j < |a|
      ensures a[j].0 != k
    {
      assert d[j] == a[j] && d[|a|] == (k, y);
    }
    NotInKeys(a, k);
    assert forall j :: 0 <= j < |d| ==> e[j].0 == d[j].0;
  }
}
