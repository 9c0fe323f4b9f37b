/** Sequence helpers shared by the model: LINQ's `Where`, `Distinct` and
    `OrderBy`, JavaScript's `filter`, `Set` and `sort`, each with the
    properties the rest of the model relies on. */
module Seqs {

  /** No element occurs twice. */
  predicate NoDuplicates<T(==)>(s: seq<T>) {
    forall i, j :: 0 <= i < j < |s| ==> s[i] != s[j]
  }

  /** The position of the first occurrence of `x` in `s`. */
  function FirstIndex<T(==)>(s: seq<T>, x: T): (i: nat)
    requires x in s
    ensures i < |s| && s[i] == x && x !in s[..i]
  {
    if s[0] == x then 0 else 1 + FirstIndex(s[1..], x)
  }

  /** Appending elements does not move a first occurrence. */
  lemma {:induction false} FirstIndexAppend<T>(s: seq<T>, t: seq<T>, x: T)
    requires x in s
    ensures FirstIndex(s + t, x) == FirstIndex(s, x)
    decreases |s|
  {
    if s[0] != x {
      assert (s + t)[1..] == s[1..] + t;
      FirstIndexAppend(s[1..], t, x);
    }
  }

  /** `a` is `b` with some elements left out, the rest kept in order. */
  predicate Subsequence<T(==)>(a: seq<T>, b: seq<T>)
    decreases |b|
  {
    |a| == 0
    || (|b| > 0 && if a[0] == b[0] then Subsequence(a[1..], b[1..]) else Subsequence(a, b[1..]))
  }

  /** The elements of `s` that satisfy `p`, in order (`Where`, `filter`). */
  function Filter<T(!new)>(s: seq<T>, p: T -> bool): (r: seq<T>)
    ensures |r| <= |s|
    ensures forall x :: x in r <==> x in s && p(x)
    ensures Subsequence(r, s)
    decreases |s|
  {
    if |s| == 0 then []
    else
      var rest := Filter(s[1..], p);
      if p(s[0]) then
        assert ([s[0]] + rest)[1..] == rest;
        [s[0]] + rest
      else
        assert |rest| > 0 ==> rest[0] in rest && rest[0] != s[0];
        rest
  }

  /** Filtering a concatenation filters each part. */
  lemma {:induction false} FilterAppend<T(!new)>(s: seq<T>, t: seq<T>, p: T -> bool)
    ensures Filter(s + t, p) == Filter(s, p) + Filter(t, p)
    decreases |s|
  {
    if |s| == 0 {
      assert s + t == t;
    } else {
      assert (s + t)[0] == s[0];
      assert (s + t)[1..] == s[1..] + t;
      FilterAppend(s[1..], t, p);
    }
  }

  /** The first occurrence of every element, in the order of first occurrence
      (LINQ `Distinct`, or a JavaScript `Set` built from `s`). */
  function Distinct<T(==,!new)>(s: seq<T>): (r: seq<T>)
    ensures forall x :: x in r <==> x in s
    ensures NoDuplicates(r)
    decreases |s|
  {
    if |s| == 0 then []
    else
      var d := Distinct(s[..|s| - 1]);
      if s[|s| - 1] in d then d else d + [s[|s| - 1]]
  }

  /** `Distinct` keeps the elements in the order of their first occurrence. */
  lemma {:induction false} DistinctOrder<T(!new)>(s: seq<T>)
    ensures forall i, j :: 0 <= i < j < |Distinct(s)| ==> FirstIndex(s, Distinct(s)[i]) < FirstIndex(s, Distinct(s)[j])
    decreases |s|
  {
    if |s| > 0 {
      var p, x := s[..|s| - 1], s[|s| - 1];
      DistinctOrder(p);
      var d := Distinct(p);
      assert s == p + [x];
      forall y | y in p
        ensures FirstIndex(s, y) == FirstIndex(p, y)
      {
        FirstIndexAppend(p, [x], y);
      }
      if x !in d {
        assert x !in s[..|s| - 1];
        assert FirstIndex(s, x) == |s| - 1;
      }
    }
  }

  /** A sequence without duplicates is its own `Distinct`. */
  lemma {:induction false} DistinctOfNoDuplicates<T(!new)>(s: seq<T>)
    requires NoDuplicates(s)
    ensures Distinct(s) == s
    decreases |s|
  {
    if |s| > 0 {
      var p := s[..|s| - 1];
      assert NoDuplicates(p) by {
        forall i, j | 0 <= i < j < |p| ensures p[i] != p[j] {
          assert p[i] == s[i] && p[j] == s[j];
        }
      }
      DistinctOfNoDuplicates(p);
      assert s[|s| - 1] !in p by {
        forall i | 0 <= i < |p| ensures p[i] != s[|s| - 1] {
          assert p[i] == s[i];
        }
      }
      assert Distinct(s) == p + [s[|s| - 1]];
      assert s == p + [s[|s| - 1]];
    }
  }

  // ----- Grouping (LINQ GroupBy) -----

  /** The keys of `s`, each once, in the order they first occur. */
  function KeysOf<T, K(==,!new)>(s: seq<T>, key: T -> K): (r: seq<K>)
    ensures NoDuplicates(r)
    ensures forall k :: k in r <==> exists i :: 0 <= i < |s| && key(s[i]) == k
  {
    var ks := seq(|s|, i requires 0 <= i < |s| => key(s[i]));
    assert forall k :: k in ks <==> exists i :: 0 <= i < |s| && key(s[i]) == k by {
      forall k | k in ks ensures exists i :: 0 <= i < |s| && key(s[i]) == k {
        var i :| 0 <= i < |ks| && ks[i] == k;
      }
      forall k | exists i :: 0 <= i < |s| && key(s[i]) == k ensures k in ks {
        var i :| 0 <= i < |s| && key(s[i]) == k;
        assert ks[i] == k;
      }
    }
    Distinct(ks)
  }

  /** The elements of `s` with key `k`, in order. */
  function Members<T(!new), K(==)>(s: seq<T>, key: T -> K, k: K): (r: seq<T>)
    ensures |r| <= |s|
    ensures forall x :: x in r <==> x in s && key(x) == k
    decreases |s|
  {
    if |s| == 0 then []
    else
      var p := Members(s[..|s| - 1], key, k);
      assert forall x :: x in s <==> x in s[..|s| - 1] || x == s[|s| - 1] by {
        assert s == s[..|s| - 1] + [s[|s| - 1]];
      }
      if key(s[|s| - 1]) == k then p + [s[|s| - 1]] else p
  }

  /** LINQ `GroupBy`: one group per key, in order of the key's first
      occurrence, holding the elements with that key in order. */
  function GroupBy<T(!new), K(==,!new)>(s: seq<T>, key: T -> K): (r: seq<(K, seq<T>)>)
    ensures |r| == |KeysOf(s, key)|
    ensures forall i :: 0 <= i < |r| ==> r[i].0 == KeysOf(s, key)[i] && r[i].1 == Members(s, key, r[i].0)
  {
    var ks := KeysOf(s, key);
    seq(|ks|, i requires 0 <= i < |ks| => (ks[i], Members(s, key, ks[i])))
  }

  /** The groups partition `s`: their keys are distinct, none is empty, every
      member has its group's key, and every element is in the group of its
      key. */
  lemma GroupByPartition<T(!new), K(!new)>(s: seq<T>, key: T -> K)
    ensures var r := GroupBy(s, key);
      forall i, j :: 0 <= i < j < |r| ==> r[i].0 != r[j].0
    ensures var r := GroupBy(s, key);
      forall i :: 0 <= i < |r| ==> |r[i].1| > 0 && forall x :: x in r[i].1 ==> key(x) == r[i].0
    ensures var r := GroupBy(s, key);
      forall x :: x in s ==> exists i :: 0 <= i < |r| && r[i].0 == key(x) && x in r[i].1
  {
    var r := GroupBy(s, key);
    var ks := KeysOf(s, key);
    forall i | 0 <= i < |r| ensures |r[i].1| > 0 {
      assert ks[i] in ks;
      var j :| 0 <= j < |s| && key(s[j]) == ks[i];
      assert s[j] in r[i].1;
    }
    forall x | x in s ensures exists i :: 0 <= i < |r| && r[i].0 == key(x) && x in r[i].1 {
      var j :| 0 <= j < |s| && s[j] == x;
      assert key(x) in ks;
      var i :| 0 <= i < |ks| && ks[i] == key(x);
      assert r[i].0 == key(x) && x in r[i].1;
    }
  }

  /** An element of `s` is in the group of its key. */
  lemma GroupByFinds<T(!new), K(!new)>(s: seq<T>, key: T -> K, x: T)
    requires x in s
    ensures exists i :: 0 <= i < |GroupBy(s, key)| && GroupBy(s, key)[i].0 == key(x) && x in GroupBy(s, key)[i].1
  {
    GroupByPartition(s, key);
  }

  // ----- Stable sorting by an integer key (LINQ OrderBy, JavaScript numeric sort) -----

  /** Keys never decrease along `s`. */
  predicate SortedBy<T>(s: seq<T>, key: T -> int) {
    forall i, j :: 0 <= i < j < |s| ==> key(s[i]) <= key(s[j])
  }

  /** `x` placed before the first element whose key is not smaller. */
  function InsertBy<T>(x: T, s: seq<T>, key: T -> int): (r: seq<T>)
    ensures |r| == |s| + 1
    decreases |s|
  {
    if |s| == 0 || key(x) <= key(s[0]) then [x] + s
    else [s[0]] + InsertBy(x, s[1..], key)
  }

  /** Inserting adds `x` and nothing else. */
  lemma {:induction false} InsertByPermutes<T>(x: T, s: seq<T>, key: T -> int)
    ensures multiset(InsertBy(x, s, key)) == multiset(s) + multiset{x}
    decreases |s|
  {
    if |s| > 0 && key(x) > key(s[0]) {
      InsertByPermutes(x, s[1..], key);
      assert s == [s[0]] + s[1..];
    }
  }

  /** Inserting into a sorted sequence keeps it sorted. */
  lemma {:induction false} InsertBySorted<T(!new)>(x: T, s: seq<T>, key: T -> int)
    requires SortedBy(s, key)
    ensures SortedBy(InsertBy(x, s, key), key)
    decreases |s|
  {
    if |s| > 0 && key(x) > key(s[0]) {
      var rest := InsertBy(x, s[1..], key);
      InsertBySorted(x, s[1..], key);
      InsertByPermutes(x, s[1..], key);
      forall j | 0 <= j < |rest|
        ensures key(s[0]) <= key(rest[j])
      {
        assert rest[j] in multiset(rest);
        if rest[j] != x {
          assert rest[j] in multiset(s[1..]);
          var i :| 0 <= i < |s[1..]| && s[1..][i] == rest[j];
          assert s[i + 1] == rest[j];
        }
      }
    }
  }

  /** A stable sort of `s` by `key`: sorted, and a permutation of `s`. */
  function SortBy<T(!new)>(s: seq<T>, key: T -> int): (r: seq<T>)
    ensures SortedBy(r, key)
    ensures multiset(r) == multiset(s)
    ensures |r| == |s|
    decreases |s|
  {
    if |s| == 0 then []
    else
      var sorted := SortBy(s[1..], key);
      InsertBySorted(s[0], sorted, key);
      InsertByPermutes(s[0], sorted, key);
      MultisetOfTail(s);
      InsertBy(s[0], sorted, key)
  }

  /** A non-empty sequence holds its head and the elements of its tail. */
  lemma MultisetOfTail<T>(s: seq<T>)
    requires |s| > 0
    ensures multiset(s) == multiset(s[1..]) + multiset{s[0]}
  {
    assert s == [s[0]] + s[1..];
  }

  /** The elements of `s` whose key is `k`, in order. */
  function WithKey<T(!new)>(s: seq<T>, key: T -> int, k: int): (r: seq<T>)
    ensures forall y :: y in r ==> y in s && key(y) == k
    decreases |s|
  {
    if |s| == 0 then []
    else (if key(s[0]) == k then [s[0]] else []) + WithKey(s[1..], key, k)
  }

  /** The elements with key `k` of a sequence with `y` in front. */
  lemma WithKeyCons<T(!new)>(y: T, s: seq<T>, key: T -> int, k: int)
    ensures WithKey([y] + s, key, k) == (if key(y) == k then [y] else []) + WithKey(s, key, k)
  {
    assert ([y] + s)[1..] == s;
  }

  /** Inserting `x` leaves every other key's elements in their order. */
  lemma {:induction false} InsertByStable<T(!new)>(x: T, s: seq<T>, key: T -> int, k: int)
    ensures WithKey(InsertBy(x, s, key), key, k)
         == (if key(x) == k then [x] else []) + WithKey(s, key, k)
    decreases |s|
  {
    if |s| == 0 || key(x) <= key(s[0]) {
      WithKeyCons(x, s, key, k);
    } else {
      var rest := InsertBy(x, s[1..], key);
      InsertByStable(x, s[1..], key, k);
      WithKeyCons(s[0], rest, key, k);
      WithKeyCons(s[0], s[1..], key, k);
      assert s == [s[0]] + s[1..];
    }
  }

  /** `SortBy` is stable: elements with equal keys keep their relative order. */
  lemma {:induction false} SortByStable<T(!new)>(s: seq<T>, key: T -> int, k: int)
    ensures WithKey(SortBy(s, key), key, k) == WithKey(s, key, k)
    decreases |s|
  {
    if |s| > 0 {
      SortByStable(s[1..], key, k);
      InsertByStable(s[0], SortBy(s[1..], key), key, k);
    }
  }

  // ----- String order by code point -----

  /** `a` sorts before or equal to `b`, comparing character codes left to right. */
  predicate LexLe(a: string, b: string)
    decreases |a|
  {
    |a| == 0 || (|b| > 0 && (a[0] < b[0] || (a[0] == b[0] && LexLe(a[1..], b[1..]))))
  }

  /** Any two strings are ordered one way or the other. */
  lemma {:induction false} LexTotal(a: string, b: string)
    ensures LexLe(a, b) || LexLe(b, a)
    decreases |a|
  {
    if |a| > 0 && |b| > 0 && a[0] == b[0] {
      LexTotal(a[1..], b[1..]);
    }
  }

  /** Every string is ordered with itself. */
  lemma {:induction false} LexReflexive(a: string)
    ensures LexLe(a, a)
    decreases |a|
  {
    if |a| > 0 {
      LexReflexive(a[1..]);
    }
  }

  /** The order is transitive. */
  lemma {:induction false} LexTransitive(a: string, b: string, c: string)
    requires LexLe(a, b) && LexLe(b, c)
    ensures LexLe(a, c)
    decreases |a|
  {
    if |a| > 0 && a[0] == b[0] && b[0] == c[0] {
      LexTransitive(a[1..], b[1..], c[1..]);
    }
  }

  /** Strings in ascending ordinal order. */
  predicate LexSorted(s: seq<string>) {
    forall i, j :: 0 <= i < j < |s| ==> LexLe(s[i], s[j])
  }

  /** `x` placed before the first string it does not follow. */
  function InsertLex(x: string, s: seq<string>): (r: seq<string>)
    requires LexSorted(s)
    ensures LexSorted(r)
    ensures multiset(r) == multiset(s) + multiset{x}
    decreases |s|
  {
    if |s| == 0 || LexLe(x, s[0]) then
      forall j | 0 <= j < |s|
        ensures LexLe(x, s[j])
      {
        if j > 0 {
          LexTransitive(x, s[0], s[j]);
        }
      }
      ConsLexSorted(x, s);
      [x] + s
    else
      LexTotal(x, s[0]);
      var rest := InsertLex(x, s[1..]);
      assert s == [s[0]] + s[1..];
      forall j | 0 <= j < |rest|
        ensures LexLe(s[0], rest[j])
      {
        assert rest[j] in multiset(rest);
      }
      ConsLexSorted(s[0], rest);
      [s[0]] + rest
  }

  /** A string no greater than every element of a sorted list keeps it sorted
      when put in front. */
  lemma ConsLexSorted(h: string, t: seq<string>)
    requires LexSorted(t)
    requires forall j :: 0 <= j < |t| ==> LexLe(h, t[j])
    ensures LexSorted([h] + t)
  {
    forall i, j | 0 <= i < j < |t| + 1
      ensures LexLe(([h] + t)[i], ([h] + t)[j])
    {
      if i == 0 {
        assert ([h] + t)[j] == t[j - 1];
      } else {
        assert ([h] + t)[i] == t[i - 1] && ([h] + t)[j] == t[j - 1];
      }
    }
  }

  /** `s` sorted in ascending ordinal order: sorted, and a permutation of `s`. */
  function SortStrings(s: seq<string>): (r: seq<string>)
    ensures LexSorted(r)
    ensures multiset(r) == multiset(s)
    ensures |r| == |s|
    decreases |s|
  {
    if |s| == 0 then []
    else
      assert s == [s[0]] + s[1..];
      InsertLex(s[0], SortStrings(s[1..]))
  }

  /** Sorting sorted input gives it back. */
  lemma {:induction false} SortStringsOfSorted(s: seq<string>)
    requires LexSorted(s)
    ensures SortStrings(s) == s
    decreases |s|
  {
    if |s| > 0 {
      SortStringsOfSorted(s[1..]);
      assert s == [s[0]] + s[1..];
      if |s| > 1 {
        assert LexLe(s[0], s[1..][0]);
      }
    }
  }

  /** Stable-sorting input already sorted by the key gives it back. */
  lemma {:induction false} SortByOfSorted<T(!new)>(s: seq<T>, key: T -> int)
    requires SortedBy(s, key)
    ensures SortBy(s, key) == s
    decreases |s|
  {
    if |s| > 0 {
      SortByOfSorted(s[1..], key);
      assert s == [s[0]] + s[1..];
      if |s| > 1 {
        assert key(s[0]) <= key(s[1..][0]);
      }
    }
  }

  /** Filtering a sequence whose every element passes gives it back. */
  lemma {:induction false} FilterAll<T(!new)>(s: seq<T>, p: T -> bool)
    requires forall i :: 0 <= i < |s| ==> p(s[i])
    ensures Filter(s, p) == s
    decreases |s|
  {
    if |s| > 0 {
      FilterAll(s[1..], p);
    }
  }

  /** In a sequence without duplicates every element occurs once. */
  lemma {:induction false} NoDuplicatesCounts<T(!new)>(s: seq<T>)
    requires NoDuplicates(s)
    ensures forall x :: multiset(s)[x] <= 1
    decreases |s|
  {
    if |s| > 0 {
      var p, y := s[..|s| - 1], s[|s| - 1];
      assert s == p + [y];
      assert NoDuplicates(p);
      NoDuplicatesCounts(p);
      assert y !in p;
      assert multiset(s) == multiset(p) + multiset{y};
    }
  }

  /** An element found at two positions occurs at least twice. */
  lemma DuplicateCount<T>(s: seq<T>, i: nat, j: nat)
    requires i < j < |s| && s[i] == s[j]
    ensures multiset(s)[s[i]] >= 2
  {
    assert s == s[..i] + [s[i]] + s[i + 1..j] + [s[j]] + s[j + 1..];
  }

  /** No duplicates means every element occurs at most once in the multiset. */
  lemma NoDuplicatesMultiset<T(!new)>(s: seq<T>)
    ensures NoDuplicates(s) <==> forall x :: multiset(s)[x] <= 1
  {
    if NoDuplicates(s) {
      NoDuplicatesCounts(s);
    } else {
      var i, j :| 0 <= i < j < |s| && s[i] == s[j];
      DuplicateCount(s, i, j);
    }
  }

  /** Sorting keeps the members, and keeps a list without duplicates so. */
  lemma SortStringsKeeps(s: seq<string>)
    ensures forall x :: x in SortStrings(s) <==> x in s
    ensures NoDuplicates(s) ==> NoDuplicates(SortStrings(s))
  {
    var r := SortStrings(s);
    forall x
      ensures x in r <==> x in s
    {
      assert x in r <==> x in multiset(r);
      assert x in s <==> x in multiset(s);
    }
    NoDuplicatesMultiset(s);
    NoDuplicatesMultiset(r);
  }
}
