/**
 * Move ordering: a stable sort into non-increasing order of a real-valued
 * key (Python's sorted with reverse=True, which keeps elements of equal
 * key in their original order).
 */
module Ordering {

  predicate NonIncreasing<T>(s: seq<T>, key: T -> real) {
    forall i, j :: 0 <= i < j < |s| ==> key(s[i]) >= key(s[j])
  }

  /** The elements of s whose key is v, in their order in s. */
  function WithKey<T>(s: seq<T>, key: T -> real, v: real): seq<T> {
    if s == [] then []
    else (if key(s[0]) == v then [s[0]] else []) + WithKey(s[1..], key, v)
  }

  lemma WithKeyCons<T>(a: T, s: seq<T>, key: T -> real)
    ensures forall v :: WithKey([a] + s, key, v) == (if key(a) == v then [a] else []) + WithKey(s, key, v)
  {
    assert ([a] + s)[1..] == s;
  }

  lemma NonIncreasingCons<T>(a: T, s: seq<T>, key: T -> real)
    requires NonIncreasing(s, key)
    requires s != [] ==> key(a) >= key(s[0])
    ensures NonIncreasing([a] + s, key)
  {
    var r := [a] + s;
    forall i, j | 0 <= i < j < |r| ensures key(r[i]) >= key(r[j]) {
      if i == 0 && j > 1 {
        assert key(s[0]) >= key(s[j - 1]);
      }
    }
  }

  /** Inserts x before the first element whose key is not larger than x's. */
  function Insert<T>(x: T, s: seq<T>, key: T -> real): (r: seq<T>)
    ensures |r| == |s| + 1
    ensures r[0] == x || (s != [] && r[0] == s[0])
  {
    if s == [] || key(x) >= key(s[0]) then [x] + s
    else [s[0]] + Insert(x, s[1..], key)
  }

  lemma {:induction false} InsertPermutes<T>(x: T, s: seq<T>, key: T -> real)
    ensures multiset(Insert(x, s, key)) == multiset(s) + multiset{x}
  {
    if s != [] && key(x) < key(s[0]) {
      InsertPermutes(x, s[1..], key);
      assert s == [s[0]] + s[1..];
    }
  }

  lemma {:induction false} InsertSorted<T>(x: T, s: seq<T>, key: T -> real)
    requires NonIncreasing(s, key)
    ensures NonIncreasing(Insert(x, s, key), key)
  {
    if s == [] || key(x) >= key(s[0]) {
      NonIncreasingCons(x, s, key);
    } else {
      var rest := Insert(x, s[1..], key);
      InsertSorted(x, s[1..], key);
      NonIncreasingCons(s[0], rest, key);
    }
  }

  lemma {:induction false} InsertStable<T>(x: T, s: seq<T>, key: T -> real)
    ensures forall v :: WithKey(Insert(x, s, key), key, v) == (if key(x) == v then [x] else []) + WithKey(s, key, v)
  {
    if s == [] || key(x) >= key(s[0]) {
      WithKeyCons(x, s, key);
    } else {
      var rest := Insert(x, s[1..], key);
      InsertStable(x, s[1..], key);
      WithKeyCons(s[0], rest, key);
      WithKeyCons(s[0], s[1..], key);
      assert s == [s[0]] + s[1..];
    }
  }

  /**
   * Insertion sort into non-increasing key order. The result is a
   * permutation of the input, sorted, and stable: for every key value the
   * elements carrying it appear in the same order as in the input.
   */
  function SortDesc<T>(s: seq<T>, key: T -> real): (r: seq<T>)
    ensures multiset(r) == multiset(s)
    ensures NonIncreasing(r, key)
    ensures forall v :: WithKey(r, key, v) == WithKey(s, key, v)
  {
    if s == [] then []
    else
      var rest := SortDesc(s[1..], key);
      assert s == [s[0]] + s[1..];
      WithKeyCons(s[0], s[1..], key);
      InsertPermutes(s[0], rest, key);
      InsertSorted(s[0], rest, key);
      InsertStable(s[0], rest, key);
      Insert(s[0], rest, key)
  }
}
