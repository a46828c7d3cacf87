/** Ordering and windowing of query results, as the database applies them for
    `.sort(...)`, `.skip(...)` and `.limit(...)`. */
module Sequences {

  /** s is in ascending order of key. */
  ghost predicate SortedBy<T>(s: seq<T>, key: T -> int) {
    forall i, j :: 0 <= i < j < |s| ==> key(s[i]) <= key(s[j])
  }

  /** Inserts x before the first element whose key is not smaller. */
  function InsertBy<T(!new)>(x: T, s: seq<T>, key: T -> int): (r: seq<T>)
    ensures multiset(r) == multiset(s) + multiset{x}
    ensures forall y :: y in r <==> y == x || y in s
  {
    if s == [] then [x]
    else if key(x) <= key(s[0]) then [x] + s
    else
      assert s == [s[0]] + s[1..];
      [s[0]] + InsertBy(x, s[1..], key)
  }

  /** Inserting into a sorted sequence keeps it sorted. */
  lemma {:induction false} InsertBySorted<T(!new)>(x: T, s: seq<T>, key: T -> int)
    requires SortedBy(s, key)
    ensures SortedBy(InsertBy(x, s, key), key)
    decreases |s|
  {
    if s != [] && key(x) > key(s[0]) {
      var tail := s[1..];
      assert SortedBy(tail, key) by {
        forall i, j | 0 <= i < j < |tail| ensures key(tail[i]) <= key(tail[j]) {
          assert tail[i] == s[i + 1] && tail[j] == s[j + 1];
        }
      }
      InsertBySorted(x, tail, key);
      var rest := InsertBy(x, tail, key);
      var r := [s[0]] + rest;
      assert r == InsertBy(x, s, key);
      forall i, j | 0 <= i < j < |r| ensures key(r[i]) <= key(r[j]) {
        if i == 0 {
          assert r[j] == rest[j - 1];
          assert r[j] in rest;
          if r[j] != x {
            var m :| 0 <= m < |tail| && tail[m] == r[j];
            assert tail[m] == s[m + 1];
          }
        } else {
          assert r[i] == rest[i - 1] && r[j] == rest[j - 1];
        }
      }
    }
  }

  /** Ascending insertion sort on key; elements with equal keys keep their order. */
  function SortBy<T(!new)>(s: seq<T>, key: T -> int): (r: seq<T>)
    ensures SortedBy(r, key)
    ensures multiset(r) == multiset(s)
    ensures |r| == |s|
  {
    if s == [] then []
    else
      assert s == [s[0]] + s[1..];
      var sorted := SortBy(s[1..], key);
      InsertBySorted(s[0], sorted, key);
      InsertBy(s[0], sorted, key)
  }

  /** A permutation has the same elements. */
  lemma SameElements<T>(r: seq<T>, s: seq<T>)
    requires multiset(r) == multiset(s)
    ensures forall x :: x in r <==> x in s
  {
    forall x ensures x in r <==> x in s {
      assert x in r <==> x in multiset(r);
      assert x in s <==> x in multiset(s);
    }
  }

  /** The part of s that `.skip(skip).limit(n)` returns. */
  function Window<T>(s: seq<T>, skip: nat, n: nat): (r: seq<T>)
    ensures |r| <= n
    ensures skip + n <= |s| ==> |r| == n
    ensures skip < |s| < skip + n ==> |r| == |s| - skip
    ensures skip >= |s| ==> r == []
    ensures forall k :: 0 <= k < |r| ==> skip + k < |s| && r[k] == s[skip + k]
  {
    if skip >= |s| then []
    else if skip + n <= |s| then s[skip..skip + n]
    else s[skip..]
  }

  /** A window of a sorted sequence is sorted. */
  lemma WindowSorted<T>(s: seq<T>, key: T -> int, skip: nat, n: nat)
    requires SortedBy(s, key)
    ensures SortedBy(Window(s, skip, n), key)
  {
    var w := Window(s, skip, n);
    forall i, j | 0 <= i < j < |w| ensures key(w[i]) <= key(w[j]) {
      assert w[i] == s[skip + i] && w[j] == s[skip + j];
    }
  }
}
