/** Python's `sorted`, as the analysis and the predictor use it: a stable
    sort by an integer key (`sorted(xs, key=f)`, and `sorted(xs)` on
    integers), and the plain sort of strings by code point. Both are
    insertion sorts; what matters is what they are proved to return. */
module Sorting {
  import opened Common

  // ---------------------------------------------------------------------
  // Stable sort by an integer key

  predicate SortedByKey<T>(s: seq<T>, key: T -> int)
  {
    forall i, j :: 0 <= i < j < |s| ==> key(s[i]) <= key(s[j])
  }

  /** The elements of `s` whose key is `k`, in their order in `s`. */
  function WithKey<T>(s: seq<T>, key: T -> int, k: int): seq<T>
  {
    if s == [] then []
    else (if key(s[0]) == k then [s[0]] else []) + WithKey(s[1..], key, k)
  }

  lemma {:induction false} WithKeyAppend<T>(a: seq<T>, b: seq<T>, key: T -> int, k: int)
    ensures WithKey(a + b, key, k) == WithKey(a, key, k) + WithKey(b, key, k)
  {
    if a != [] {
      var head := if key(a[0]) == k then [a[0]] else [];
      assert (a + b)[0] == a[0] && (a + b)[1..] == a[1..] + b;
      WithKeyAppend(a[1..], b, key, k);
      assert WithKey(a + b, key, k) == head + WithKey(a[1..] + b, key, k);
    } else {
      assert a + b == b;
    }
  }

  lemma {:induction false} WithKeyNone<T>(s: seq<T>, key: T -> int, k: int)
    requires forall i :: 0 <= i < |s| ==> key(s[i]) != k
    ensures WithKey(s, key, k) == []
  {
    if s != [] {
      WithKeyNone(s[1..], key, k);
    }
  }

  /** Insert `x` after every element whose key is not greater than its own. */
  function InsertByKey<T>(x: T, s: seq<T>, key: T -> int): (r: seq<T>)
    ensures |r| == |s| + 1
    ensures multiset(r) == multiset(s) + multiset{x}
  {
    if s == [] then [x]
    else if key(s[0]) <= key(x) then
      assert s == [s[0]] + s[1..];
      [s[0]] + InsertByKey(x, s[1..], key)
    else [x] + s
  }

  /** Inserting keeps every key at least `lo` when `x`'s is. */
  lemma {:induction false} InsertByKeyLowerBound<T>(x: T, s: seq<T>, key: T -> int, lo: int)
    requires forall i :: 0 <= i < |s| ==> lo <= key(s[i])
    requires lo <= key(x)
    ensures forall i :: 0 <= i < |s| + 1 ==> lo <= key(InsertByKey(x, s, key)[i])
  {
    if s != [] && key(s[0]) <= key(x) {
      InsertByKeyLowerBound(x, s[1..], key, lo);
    }
  }

  /** Inserting into a sorted sequence gives a sorted sequence. */
  lemma {:induction false} InsertByKeySorted<T>(x: T, s: seq<T>, key: T -> int)
    requires SortedByKey(s, key)
    ensures SortedByKey(InsertByKey(x, s, key), key)
  {
    if s != [] && key(s[0]) <= key(x) {
      var rest := InsertByKey(x, s[1..], key);
      InsertByKeySorted(x, s[1..], key);
      InsertByKeyLowerBound(x, s[1..], key, key(s[0]));
      var r := [s[0]] + rest;
      forall i, j | 0 <= i < j < |r| ensures key(r[i]) <= key(r[j]) {
        if i > 0 {
          assert r[i] == rest[i - 1] && r[j] == rest[j - 1];
        } else {
          assert r[j] == rest[j - 1];
        }
      }
    }
  }

  /** `sorted(s, key=key)`: ordered by key and a permutation of `s`. */
  function SortByKey<T>(s: seq<T>, key: T -> int): (r: seq<T>)
    ensures |r| == |s|
    ensures multiset(r) == multiset(s)
    ensures SortedByKey(r, key)
  {
    if s == [] then []
    else
      var init := s[..|s| - 1];
      assert s == init + [s[|s| - 1]];
      InsertByKeySorted(s[|s| - 1], SortByKey(init, key), key);
      InsertByKey(s[|s| - 1], SortByKey(init, key), key)
  }

  lemma {:induction false} InsertByKeyStable<T>(x: T, s: seq<T>, key: T -> int, k: int)
    requires SortedByKey(s, key)
    ensures WithKey(InsertByKey(x, s, key), key, k)
         == WithKey(s, key, k) + (if key(x) == k then [x] else [])
  {
    if s == [] {
    } else if key(s[0]) <= key(x) {
      InsertByKeyStable(x, s[1..], key, k);
      assert ([s[0]] + InsertByKey(x, s[1..], key))[1..] == InsertByKey(x, s[1..], key);
    } else {
      assert ([x] + s)[1..] == s;
      if key(x) == k {
        WithKeyNone(s, key, k);
      }
    }
  }

  /** Stability: sorting keeps the elements of each key in their original
      order, so equal-key elements come out as they went in. */
  lemma {:induction false} SortByKeyStable<T>(s: seq<T>, key: T -> int, k: int)
    ensures WithKey(SortByKey(s, key), key, k) == WithKey(s, key, k)
  {
    if s != [] {
      var init, x := s[..|s| - 1], s[|s| - 1];
      assert s == init + [x];
      assert SortByKey(s, key) == InsertByKey(x, SortByKey(init, key), key);
      SortByKeyStable(init, key, k);
      InsertByKeyStable(x, SortByKey(init, key), key, k);
      WithKeyAppend(init, [x], key, k);
      WithKeySingle(x, key, k);
    }
  }

  lemma WithKeySingle<T>(x: T, key: T -> int, k: int)
    ensures WithKey([x], key, k) == if key(x) == k then [x] else []
  {
    assert [x][1..] == [];
  }

  /** An already sorted sequence is left as it is: `sorted(s) == s` exactly
      when `s` is in order. */
  lemma SortByKeyFixesSorted<T>(s: seq<T>, key: T -> int)
    ensures SortByKey(s, key) == s <==> SortedByKey(s, key)
  {
    if SortedByKey(s, key) {
      SortedIsFixed(s, key);
    }
  }

  lemma {:induction false} SortedIsFixed<T>(s: seq<T>, key: T -> int)
    requires SortedByKey(s, key)
    ensures SortByKey(s, key) == s
  {
    if s != [] {
      var init, x := s[..|s| - 1], s[|s| - 1];
      assert s == init + [x];
      assert forall i :: 0 <= i < |init| ==> init[i] == s[i];
      assert SortedByKey(init, key);
      SortedIsFixed(init, key);
      InsertAtEnd(x, init, key);
      assert SortByKey(s, key) == InsertByKey(x, SortByKey(init, key), key);
    }
  }

  lemma {:induction false} InsertAtEnd<T>(x: T, s: seq<T>, key: T -> int)
    requires forall i :: 0 <= i < |s| ==> key(s[i]) <= key(x)
    ensures InsertByKey(x, s, key) == s + [x]
  {
    if s != [] {
      InsertAtEnd(x, s[1..], key);
      assert s == [s[0]] + s[1..];
    }
  }

  // ---------------------------------------------------------------------
  // Sort of strings by code point

  predicate SortedLex(s: seq<string>)
  {
    forall i :: 0 < i < |s| ==> LexLeq(s[i - 1], s[i])
  }

  function InsertLex(x: string, s: seq<string>): (r: seq<string>)
    requires SortedLex(s)
    ensures |r| == |s| + 1 && SortedLex(r)
    ensures multiset(r) == multiset(s) + multiset{x}
    ensures r[0] == x || (s != [] && r[0] == s[0])
  {
    if s == [] then [x]
    else if LexLeq(s[0], x) then
      var rest := InsertLex(x, s[1..]);
      assert s == [s[0]] + s[1..];
      SortedLexCons(s[0], rest);
      [s[0]] + rest
    else
      LexLeqTotal(s[0], x);
      [x] + s
  }

  lemma SortedLexCons(a: string, s: seq<string>)
    requires SortedLex(s) && (s != [] ==> LexLeq(a, s[0]))
    ensures SortedLex([a] + s)
  {
    var r := [a] + s;
    forall i | 0 < i < |r| ensures LexLeq(r[i - 1], r[i]) {
      if i > 1 {
        assert r[i - 1] == s[i - 2] && r[i] == s[i - 1];
      }
    }
  }

  /** `sorted(s)` on strings: ordered by code point and a permutation. */
  function SortLex(s: seq<string>): (r: seq<string>)
    ensures SortedLex(r)
    ensures multiset(r) == multiset(s)
  {
    if s == [] then []
    else
      var init := s[..|s| - 1];
      assert s == init + [s[|s| - 1]];
      InsertLex(s[|s| - 1], SortLex(init))
  }

  /** Ordered by adjacent pairs means ordered between any two positions. */
  lemma SortedLexPairwise(s: seq<string>, i: nat, j: nat)
    requires SortedLex(s) && i <= j < |s|
    ensures LexLeq(s[i], s[j])
    decreases j - i
  {
    if i == j {
      LexLeqReflexive(s[i]);
    } else {
      SortedLexPairwise(s, i, j - 1);
      LexLeqTransitive(s[i], s[j - 1], s[j]);
    }
  }

  lemma {:induction false} LexLeqReflexive(a: string)
    ensures LexLeq(a, a)
  {
    if a != [] {
      LexLeqReflexive(a[1..]);
    }
  }
}
