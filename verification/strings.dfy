/** The three Python string operations the path engine relies on: the substring test
    `sep in key`, `path.split(sep)` and `sep.join(keys)`. */
module Strings {
  import opened Results

  /** Python's `sub in s`; the empty string is in every string. */
  predicate Contains(s: string, sub: string)
    decreases |s|
  {
    sub <= s || (|s| > 0 && Contains(s[1..], sub))
  }

  /** `s.find(sep)`, with `None` for -1: the first position where `sep` starts. */
  function Find(s: string, sep: string): (r: Option<nat>)
    ensures r.Some? ==> r.value + |sep| <= |s| && sep <= s[r.value..]
    ensures r.Some? ==> forall j :: 0 <= j < r.value ==> !(sep <= s[j..])
    ensures r.None? <==> !Contains(s, sep)
    decreases |s|
  {
    if sep <= s then Some(0)
    else if |s| == 0 then None
    else match Find(s[1..], sep)
      case None => None
      case Some(i) =>
        assert forall j :: 1 <= j <= |s| ==> s[1..][j - 1..] == s[j..];
        Some(i + 1)
  }

  /** `sep.join(ks)`. */
  function Join(ks: seq<string>, sep: string): string
    decreases |ks|
  {
    if |ks| == 0 then ""
    else if |ks| == 1 then ks[0]
    else ks[0] + sep + Join(ks[1..], sep)
  }

  /** A prefix that stops before the first occurrence of `sep` does not contain it. */
  lemma {:induction false} NoSepBeforeFirst(s: string, sep: string, i: nat)
    requires |sep| > 0 && i <= |s|
    requires forall j :: 0 <= j < i ==> !(sep <= s[j..])
    ensures !Contains(s[..i], sep)
    decreases i
  {
    if i > 0 {
      assert s[..i][1..] == s[1..][..i - 1];
      assert forall j :: 0 <= j < i - 1 ==> s[1..][j..] == s[j + 1..];
      NoSepBeforeFirst(s[1..], sep, i - 1);
      assert s[0..] == s;
      assert !(sep <= s[..i]) by {
        if |sep| <= i {
          assert s[..i][..|sep|] == s[..|sep|];
        }
      }
    }
  }

  /** The first occurrence of `sep` cuts `s` into a `sep`-free head, `sep`, and the rest. */
  lemma FirstOccurrence(s: string, sep: string, i: nat)
    requires |sep| > 0 && Find(s, sep) == Some(i)
    ensures !Contains(s[..i], sep)
    ensures s == s[..i] + sep + s[i + |sep|..]
  {
    NoSepBeforeFirst(s, sep, i);
    PrefixAt(s, sep, i);
    Splice(s, i, i + |sep|);
  }

  lemma PrefixAt(s: string, sep: string, i: nat)
    requires i + |sep| <= |s| && sep <= s[i..]
    ensures s[i..i + |sep|] == sep
  {
    assert forall j :: 0 <= j < |sep| ==> s[i..i + |sep|][j] == s[i..][j];
  }

  lemma Splice<T>(s: seq<T>, i: nat, j: nat)
    requires i <= j <= |s|
    ensures s == s[..i] + s[i..j] + s[j..]
  {
  }

  /** `s.split(sep)` for a non-empty separator: the pieces between the leftmost,
      non-overlapping occurrences of `sep`. Joining the pieces with `sep` gives `s`
      back, and no piece contains `sep`. */
  function Split(s: string, sep: string): (r: seq<string>)
    requires |sep| > 0
    ensures |r| >= 1
    ensures Join(r, sep) == s
    ensures forall i :: 0 <= i < |r| ==> !Contains(r[i], sep)
    decreases |s|
  {
    match Find(s, sep)
    case None => [s]
    case Some(i) =>
      var rest := Split(s[i + |sep|..], sep);
      FirstOccurrence(s, sep, i);
      [s[..i]] + rest
  }

  /** With a one-character separator, a key free of it is followed by the first
      occurrence of the separator. */
  lemma {:induction false} FindAfterKey(k: string, sep: string, rest: string)
    requires |sep| == 1
    requires !Contains(k, sep)
    ensures Find(k + sep + rest, sep) == Some(|k|)
    decreases |k|
  {
    var s := k + sep + rest;
    if |k| == 0 {
      assert s == sep + rest;
    } else {
      assert s[0] == k[0];
      assert !(sep <= k);
      assert !(sep <= s);
      assert s[1..] == k[1..] + sep + rest;
      FindAfterKey(k[1..], sep, rest);
    }
  }

  /** Splitting `k + sep + tail` peels off `k` when `k` is free of a one-character `sep`. */
  lemma SplitCons(k: string, sep: string, tail: string)
    requires |sep| == 1
    requires !Contains(k, sep)
    ensures Split(k + sep + tail, sep) == [k] + Split(tail, sep)
  {
    FindAfterKey(k, sep, tail);
    var s := k + sep + tail;
    assert s[..|k|] == k;
    assert s[|k| + |sep|..] == tail;
  }

  /** Splitting a `sep`-join of keys that are free of a one-character `sep` gives the
      keys back. */
  lemma {:induction false} SplitJoin(ks: seq<string>, sep: string)
    requires |sep| == 1
    requires |ks| >= 1
    requires forall i :: 0 <= i < |ks| ==> !Contains(ks[i], sep)
    ensures Split(Join(ks, sep), sep) == ks
    decreases |ks|
  {
    if |ks| == 1 {
      assert Join(ks, sep) == ks[0];
      assert Find(ks[0], sep) == None;
    } else {
      var tail := Join(ks[1..], sep);
      assert Join(ks, sep) == ks[0] + sep + tail;
      SplitCons(ks[0], sep, tail);
      SplitJoin(ks[1..], sep);
      assert ks == [ks[0]] + ks[1..];
    }
  }

  /** Different non-empty key lists, free of a one-character `sep`, join to different
      strings. */
  lemma JoinInjective(p: seq<string>, q: seq<string>, sep: string)
    requires |sep| == 1
    requires |p| >= 1 && |q| >= 1
    requires forall i :: 0 <= i < |p| ==> !Contains(p[i], sep)
    requires forall i :: 0 <= i < |q| ==> !Contains(q[i], sep)
    ensures Join(p, sep) == Join(q, sep) <==> p == q
  {
    SplitJoin(p, sep);
    SplitJoin(q, sep);
  }

  /** With the two-character separator "..", the keys "a." and ".b" contain no
      separator, yet their join splits into three keys: the round trip needs a
      one-character separator. */
  lemma SplitJoinNeedsOneChar()
    ensures !Contains("a.", "..") && !Contains(".b", "..")
    ensures Join(["a.", ".b"], "..") == "a....b"
    ensures Split("a....b", "..") == ["a", "", "b"]
  {
    ShortNoDots('a', '.');
    ShortNoDots('.', 'b');
    JoinDots();
    SplitDots();
  }

  lemma JoinDots()
    ensures Join(["a.", ".b"], "..") == "a....b"
  {
    assert ["a.", ".b"][1..] == [".b"];
  }

  lemma SplitDots()
    ensures Split("a....b", "..") == ["a", "", "b"]
  {
    FindDotsAfterA();
    assert "a....b"[..1] == "a";
    assert "a....b"[3..] == "..b";
    SplitDotsB();
  }

  /** A two-character string holds ".." only if it is "..". */
  lemma ShortNoDots(x: char, y: char)
    requires x != '.' || y != '.'
    ensures !Contains([x, y], "..")
  {
    assert [x, y] != "..";
    assert !(".." <= [x, y]);
    assert [x, y][1..] == [y];
    assert !(".." <= [y]);
    assert [y][1..] == "";
    assert !Contains("", "..");
  }

  lemma FindDotsAfterA()
    ensures Find("a....b", "..") == Some(1)
  {
    assert !(".." <= "a....b") by {
      assert "a....b"[0] != ".."[0];
    }
    assert "a....b"[1..] == "....b";
    assert ".." <= "....b";
    assert Find("....b", "..") == Some(0);
  }

  lemma SplitDotsB()
    ensures Split("..b", "..") == ["", "b"]
  {
    assert !(".." <= "b");
    assert !Contains("b", "..");
    assert Find("b", "..") == None;
    assert Find("..b", "..") == Some(0);
    assert Split("b", "..") == ["b"];
    assert "..b"[..0] == "";
    assert "..b"[2..] == "b";
  }

  /** Appending a key to a non-empty list joins it after one more separator. */
  lemma {:induction false} JoinSnoc(q: seq<string>, k: string, sep: string)
    requires |q| >= 1
    ensures Join(q + [k], sep) == Join(q, sep) + sep + k
    decreases |q|
  {
    assert (q + [k])[1..] == q[1..] + [k];
    if |q| > 1 {
      JoinSnoc(q[1..], k, sep);
    }
  }

  /** A string with `sep` spliced in contains `sep`. */
  lemma {:induction false} ContainsAfter(a: string, sep: string, b: string)
    ensures Contains(a + sep + b, sep)
    decreases |a|
  {
    if |a| == 0 {
      assert a + sep + b == sep + b;
    } else {
      assert (a + sep + b)[1..] == a[1..] + sep + b;
      ContainsAfter(a[1..], sep, b);
    }
  }

  /** Joining two or more keys puts a separator in the result. */
  lemma JoinContainsSep(p: seq<string>, sep: string)
    requires |p| >= 2
    ensures Contains(Join(p, sep), sep)
  {
    ContainsAfter(p[0], sep, Join(p[1..], sep));
  }

  /** A one-character string occurs in a concatenation only if it occurs in a part. */
  lemma {:induction false} NotContainsConcat(a: string, b: string, c: string)
    requires |c| == 1 && !Contains(a, c) && !Contains(b, c)
    ensures !Contains(a + b, c)
    decreases |a|
  {
    if |a| == 0 {
      assert a + b == b;
    } else {
      assert (a + b)[0] == a[0];
      assert (a + b)[1..] == a[1..] + b;
      NotContainsConcat(a[1..], b, c);
    }
  }
}
