/** Python's `sorted(xs, key=k, reverse=True)` and the slice `xs[:n]`.

    A sort key is a sequence of integers compared lexicographically, which is how
    Python compares the tuple keys the agents use: `x['relevance_score']` is the
    one-element key `[score]`, `(score, citations)` the two-element key
    `[score, citations]`. Python's sort is stable, also with `reverse=True`:
    elements with equal keys keep their input order. */
module Sorting {

  /** Python's `<` on tuples of integers. */
  predicate LexLess(a: seq<int>, b: seq<int>)
    decreases |a|
  {
    if |a| == 0 then |b| > 0
    else if |b| == 0 then false
    else a[0] < b[0] || (a[0] == b[0] && LexLess(a[1..], b[1..]))
  }

  lemma LexLessSingleton(x: int, y: int)
    ensures LexLess([x], [y]) <==> x < y
  {
    assert [x][1..] == [] && [y][1..] == [];
  }

  lemma {:induction false} LexLessIrreflexive(a: seq<int>)
    ensures !LexLess(a, a)
    decreases |a|
  {
    if |a| > 0 {
      LexLessIrreflexive(a[1..]);
    }
  }

  lemma {:induction false} LexLessTransitive(a: seq<int>, b: seq<int>, c: seq<int>)
    requires LexLess(a, b) && LexLess(b, c)
    ensures LexLess(a, c)
    decreases |a|
  {
    if |a| > 0 && |b| > 0 && |c| > 0 && a[0] == b[0] == c[0] {
      LexLessTransitive(a[1..], b[1..], c[1..]);
    }
  }

  lemma {:induction false} LexLessTotal(a: seq<int>, b: seq<int>)
    ensures a == b || LexLess(a, b) || LexLess(b, a)
    decreases |a|
  {
    if |a| > 0 && |b| > 0 && a[0] == b[0] {
      LexLessTotal(a[1..], b[1..]);
      if a[1..] == b[1..] {
        assert a == [a[0]] + a[1..] && b == [b[0]] + b[1..];
      }
    }
  }

  /** "At least": `a` is not below `b`, and that relation chains. */
  lemma NotLessTransitive(a: seq<int>, b: seq<int>, c: seq<int>)
    requires !LexLess(a, b) && !LexLess(b, c)
    ensures !LexLess(a, c)
  {
    if LexLess(a, c) {
      LexLessTotal(a, b);
      LexLessTotal(b, c);
      if a != b && b != c {
        LexLessTransitive(c, b, a);
        LexLessTransitive(a, c, a);
        LexLessIrreflexive(a);
      }
    }
  }

  /** No element's key exceeds the key of an element before it. */
  ghost predicate SortedDesc<T>(s: seq<T>, key: T -> seq<int>) {
    forall i, j :: 0 <= i < j < |s| ==> !LexLess(key(s[i]), key(s[j]))
  }

  /** Inserts `x`, which came before every element of `s` in the input, into the
      non-increasing `s`: ahead of the first element whose key is not above its own. */
  function Insert<T>(x: T, s: seq<T>, key: T -> seq<int>): (r: seq<T>)
    ensures multiset(r) == multiset([x] + s)
    ensures |r| == |s| + 1
    decreases |s|
  {
    if s == [] || !LexLess(key(x), key(s[0])) then [x] + s
    else
      assert s == [s[0]] + s[1..];
      [s[0]] + Insert(x, s[1..], key)
  }

  lemma {:induction false} InsertSorted<T>(x: T, s: seq<T>, key: T -> seq<int>)
    requires SortedDesc(s, key)
    ensures SortedDesc(Insert(x, s, key), key)
    decreases |s|
  {
    if s == [] || !LexLess(key(x), key(s[0])) {
      InsertAtFrontSorted(x, s, key);
    } else {
      SortedDescTail(s, key);
      InsertSorted(x, s[1..], key);
      InsertBehindSorted(x, s, key);
    }
  }

  /** `x` goes in front when its key is not below the first one. */
  lemma InsertAtFrontSorted<T>(x: T, s: seq<T>, key: T -> seq<int>)
    requires SortedDesc(s, key)
    requires s == [] || !LexLess(key(x), key(s[0]))
    ensures SortedDesc(Insert(x, s, key), key)
  {
    var r := Insert(x, s, key);
    assert r == [x] + s;
    forall i, j | 0 <= i < j < |r| ensures !LexLess(key(r[i]), key(r[j])) {
      if i == 0 {
        if j > 1 {
          NotLessTransitive(key(x), key(s[0]), key(s[j - 1]));
        }
      } else {
        assert r[i] == s[i - 1] && r[j] == s[j - 1];
      }
    }
  }

  /** `x` goes behind the first element when its key is below it. */
  lemma InsertBehindSorted<T>(x: T, s: seq<T>, key: T -> seq<int>)
    requires s != [] && LexLess(key(x), key(s[0]))
    requires SortedDesc(s, key) && SortedDesc(Insert(x, s[1..], key), key)
    ensures SortedDesc(Insert(x, s, key), key)
  {
    var t := Insert(x, s[1..], key);
    var r := [s[0]] + t;
    assert Insert(x, s, key) == r;
    HeadAboveInserted(x, s, key);
    forall i, j | 0 <= i < j < |r| ensures !LexLess(key(r[i]), key(r[j])) {
      if i == 0 {
        assert r[j] == t[j - 1];
      } else {
        assert r[i] == t[i - 1] && r[j] == t[j - 1];
      }
    }
  }

  /** Every element of `Insert(x, s[1..])` has a key at most that of `s[0]`. */
  lemma HeadAboveInserted<T>(x: T, s: seq<T>, key: T -> seq<int>)
    requires s != [] && LexLess(key(x), key(s[0])) && SortedDesc(s, key)
    ensures forall k :: 0 <= k < |Insert(x, s[1..], key)| ==> !LexLess(key(s[0]), key(Insert(x, s[1..], key)[k]))
  {
    var t := Insert(x, s[1..], key);
    forall k | 0 <= k < |t| ensures !LexLess(key(s[0]), key(t[k])) {
      var y := t[k];
      InsertedFrom(x, s[1..], key, y);
      if y == x {
        if LexLess(key(s[0]), key(x)) {
          LexLessTransitive(key(x), key(s[0]), key(x));
          LexLessIrreflexive(key(x));
        }
      } else {
        var i :| 0 <= i < |s[1..]| && s[1..][i] == y;
        assert s[i + 1] == y;
      }
    }
  }

  /** An element of `Insert(x, s)` is `x` or an element of `s`. */
  lemma InsertedFrom<T>(x: T, s: seq<T>, key: T -> seq<int>, y: T)
    requires y in Insert(x, s, key)
    ensures y == x || y in s
  {
    assert y in multiset(Insert(x, s, key));
    assert y in multiset([x] + s);
  }

  /** Python's `sorted(s, key=key, reverse=True)`: a stable sort that puts the
      largest keys first. */
  function SortDesc<T>(s: seq<T>, key: T -> seq<int>): (r: seq<T>)
    ensures multiset(r) == multiset(s)
    ensures |r| == |s|
    ensures SortedDesc(r, key)
    decreases |s|
  {
    if s == [] then []
    else
      assert s == [s[0]] + s[1..];
      var t := SortDesc(s[1..], key);
      InsertSorted(s[0], t, key);
      Insert(s[0], t, key)
  }

  /** A sequence already in non-increasing order is returned as it is: the sort
      only moves an element past others whose key is strictly larger. */
  lemma {:induction false} SortDescOfSorted<T>(s: seq<T>, key: T -> seq<int>)
    requires SortedDesc(s, key)
    ensures SortDesc(s, key) == s
    decreases |s|
  {
    if s != [] {
      SortedDescTail(s, key);
      SortDescOfSorted(s[1..], key);
      SortDescUnfold(s, key);
      if |s| > 1 {
        assert !LexLess(key(s[0]), key(s[1]));
      }
      assert [s[0]] + s[1..] == s;
    }
  }

  /** The elements of `s` whose key is `k`, in their order in `s`. */
  function WithKey<T>(s: seq<T>, key: T -> seq<int>, k: seq<int>): seq<T>
    decreases |s|
  {
    if s == [] then []
    else (if key(s[0]) == k then [s[0]] else []) + WithKey(s[1..], key, k)
  }

  lemma WithKeyCons<T>(x: T, s: seq<T>, key: T -> seq<int>, k: seq<int>)
    ensures WithKey([x] + s, key, k) == (if key(x) == k then [x] else []) + WithKey(s, key, k)
  {
    assert ([x] + s)[0] == x && ([x] + s)[1..] == s;
  }

  /** Inserting `x` puts it in front of every element with its own key: it only
      passes elements whose key is strictly larger. */
  lemma {:induction false} InsertWithKey<T>(x: T, s: seq<T>, key: T -> seq<int>, k: seq<int>)
    ensures WithKey(Insert(x, s, key), key, k) == (if key(x) == k then [x] else []) + WithKey(s, key, k)
    decreases |s|
  {
    if s == [] || !LexLess(key(x), key(s[0])) {
      WithKeyCons(x, s, key, k);
    } else {
      LexLessIrreflexive(key(x));
      InsertWithKey(x, s[1..], key, k);
      WithKeyCons(s[0], Insert(x, s[1..], key), key, k);
      WithKeyCons(s[0], s[1..], key, k);
      assert [s[0]] + s[1..] == s;
    }
  }

  /** Stability: the elements with any one key come out in their input order. */
  lemma {:induction false} SortDescStable<T>(s: seq<T>, key: T -> seq<int>, k: seq<int>)
    ensures WithKey(SortDesc(s, key), key, k) == WithKey(s, key, k)
    decreases |s|
  {
    if s != [] {
      SortDescUnfold(s, key);
      SortDescStable(s[1..], key, k);
      InsertWithKey(s[0], SortDesc(s[1..], key), key, k);
    }
  }

  lemma SortedDescTail<T>(s: seq<T>, key: T -> seq<int>)
    requires s != [] && SortedDesc(s, key)
    ensures SortedDesc(s[1..], key)
  {
    var t := s[1..];
    forall i, j | 0 <= i < j < |t| ensures !LexLess(key(t[i]), key(t[j])) {
      assert t[i] == s[i + 1] && t[j] == s[j + 1];
    }
  }

  lemma SortDescUnfold<T>(s: seq<T>, key: T -> seq<int>)
    requires s != []
    ensures SortDesc(s, key) == Insert(s[0], SortDesc(s[1..], key), key)
  {
  }

  /** Python's slice `s[:n]`: a negative `n` counts from the end. */
  function Prefix<T>(s: seq<T>, n: int): (r: seq<T>)
    ensures r <= s
    ensures 0 <= n ==> |r| == if n < |s| then n else |s|
    ensures n < 0 ==> |r| == if |s| + n > 0 then |s| + n else 0
  {
    if 0 <= n then s[..if n < |s| then n else |s|]
    else s[..if |s| + n > 0 then |s| + n else 0]
  }

  /** `sorted(s, key=key, reverse=True)[:n]`: the elements with the largest keys. */
  function TopDesc<T>(s: seq<T>, key: T -> seq<int>, n: int): seq<T> {
    Prefix(SortDesc(s, key), n)
  }

  /** The kept elements are in non-increasing order, taken from the input, and no
      element left out has a key above a kept one. */
  lemma TopDescProperties<T>(s: seq<T>, key: T -> seq<int>, n: int)
    ensures var r := TopDesc(s, key, n);
      && SortedDesc(r, key)
      && multiset(r) <= multiset(s)
      && (0 <= n ==> |r| == if n < |s| then n else |s|)
      && forall x, y :: x in r && y in multiset(s) - multiset(r) ==> !LexLess(key(x), key(y))
  {
    var sorted := SortDesc(s, key);
    var r := TopDesc(s, key, n);
    SortedPrefix(sorted, |r|, key);
    PrefixRest(sorted, |r|, key);
  }

  /** A prefix of a non-increasing sequence is non-increasing. */
  lemma SortedPrefix<T>(s: seq<T>, m: nat, key: T -> seq<int>)
    requires m <= |s| && SortedDesc(s, key)
    ensures SortedDesc(s[..m], key)
  {
    var r := s[..m];
    forall i, j | 0 <= i < j < |r| ensures !LexLess(key(r[i]), key(r[j])) {
      assert r[i] == s[i] && r[j] == s[j];
    }
  }

  /** Cutting a non-increasing sequence after `m` elements: what is left out is
      the rest of its multiset, and no kept key is below a key left out. */
  lemma PrefixRest<T>(s: seq<T>, m: nat, key: T -> seq<int>)
    requires m <= |s| && SortedDesc(s, key)
    ensures multiset(s) - multiset(s[..m]) == multiset(s[m..])
    ensures forall x, y :: x in s[..m] && y in multiset(s) - multiset(s[..m]) ==> !LexLess(key(x), key(y))
  {
    var r, rest := s[..m], s[m..];
    MultisetSplit(s, m);
    forall x, y | x in r && y in multiset(s) - multiset(r)
      ensures !LexLess(key(x), key(y))
    {
      assert y in multiset(rest);
      KeptNotBelow(s, m, key, x, y);
    }
  }

  lemma KeptNotBelow<T>(s: seq<T>, m: nat, key: T -> seq<int>, x: T, y: T)
    requires m <= |s| && SortedDesc(s, key)
    requires x in s[..m] && y in s[m..]
    ensures !LexLess(key(x), key(y))
  {
    var i :| 0 <= i < m && s[..m][i] == x;
    var j :| 0 <= j < |s| - m && s[m..][j] == y;
    assert s[i] == x && s[m + j] == y;
  }

  lemma MultisetSplit<T>(s: seq<T>, m: nat)
    requires m <= |s|
    ensures multiset(s) - multiset(s[..m]) == multiset(s[m..])
  {
    assert s == s[..m] + s[m..];
    assert multiset(s) == multiset(s[..m]) + multiset(s[m..]);
  }
}
