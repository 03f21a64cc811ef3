/**
 JavaScript's `Array.prototype.sort` with a numeric comparator `(a, b) => key(a) - key(b)`.
 Since ES2019 that sort is stable, so its result is the unique permutation that is
 ordered by `key` and keeps equal-keyed elements in their original order; an
 insertion sort computes exactly that permutation.
 */
module Sorting {

  predicate SortedBy<T>(s: seq<T>, key: T -> int) {
    forall i, j :: 0 <= i < j < |s| ==> key(s[i]) <= key(s[j])
  }

  /** Insert `x` before the first element whose key is at least its own. */
  function Insert<T>(x: T, t: seq<T>, key: T -> int): (r: seq<T>)
    ensures |r| == |t| + 1
    ensures multiset(r) == multiset(t) + multiset{x}
  {
    if t == [] || key(x) <= key(t[0]) then
      [x] + t
    else
      var rest := Insert(x, t[1..], key);
      assert t == [t[0]] + t[1..];
      [t[0]] + rest
  }

  lemma HeadBelowTail<T>(t: seq<T>, key: T -> int)
    requires t != [] && SortedBy(t, key)
    ensures forall y :: y in t[1..] ==> key(t[0]) <= key(y)
  {
    forall y | y in t[1..] ensures key(t[0]) <= key(y) {
      var j :| 0 <= j < |t[1..]| && t[1..][j] == y;
      assert t[j + 1] == y;
    }
  }

  lemma {:induction false} InsertSorted<T>(x: T, t: seq<T>, key: T -> int)
    requires SortedBy(t, key)
    ensures SortedBy(Insert(x, t, key), key)
  {
    if t != [] && key(x) > key(t[0]) {
      InsertSorted(x, t[1..], key);
      HeadBelowTail(t, key);
      var rest := Insert(x, t[1..], key);
      forall i | 0 <= i < |rest| ensures key(t[0]) <= key(rest[i]) {
        assert rest[i] in multiset(t[1..]) + multiset{x};
      }
    }
  }

  /** A stable sort of `s` by ascending `key`; `SortStable` states the stability. */
  function SortBy<T>(s: seq<T>, key: T -> int): (r: seq<T>)
    ensures |r| == |s|
    ensures multiset(r) == multiset(s)
    ensures SortedBy(r, key)
  {
    if s == [] then []
    else
      assert s == [s[0]] + s[1..];
      InsertSorted(s[0], SortBy(s[1..], key), key);
      Insert(s[0], SortBy(s[1..], key), key)
  }

  /** The elements of `s` whose key is `v`, in their order in `s`. */
  function WithKey<T>(s: seq<T>, key: T -> int, v: int): seq<T> {
    if s == [] then [] else (if key(s[0]) == v then [s[0]] else []) + WithKey(s[1..], key, v)
  }

  /** Inserting `x` puts it ahead of every element of `t` that shares its key. */
  lemma {:induction false} InsertWithKey<T>(x: T, t: seq<T>, key: T -> int, v: int)
    ensures WithKey(Insert(x, t, key), key, v) == (if key(x) == v then [x] else []) + WithKey(t, key, v)
  {
    var r := Insert(x, t, key);
    if t == [] || key(x) <= key(t[0]) {
      assert r == [x] + t && r[0] == x && r[1..] == t;
    } else {
      InsertWithKey(x, t[1..], key, v);
      assert r == [t[0]] + Insert(x, t[1..], key);
      assert r[0] == t[0] && r[1..] == Insert(x, t[1..], key);
      var head := if key(t[0]) == v then [t[0]] else [];
      var mine := if key(x) == v then [x] else [];
      assert WithKey(r, key, v) == head + (mine + WithKey(t[1..], key, v));
      assert WithKey(t, key, v) == head + WithKey(t[1..], key, v);
      assert head == [] || mine == [];
    }
  }

  /** Stability: for every key value, the elements with that key keep their relative order. */
  lemma {:induction false} SortStable<T>(s: seq<T>, key: T -> int, v: int)
    ensures WithKey(SortBy(s, key), key, v) == WithKey(s, key, v)
  {
    if s != [] {
      SortStable(s[1..], key, v);
      InsertWithKey(s[0], SortBy(s[1..], key), key, v);
    }
  }

  function Reverse<T>(s: seq<T>): (r: seq<T>)
    ensures |r| == |s|
    ensures forall i :: 0 <= i < |s| ==> r[i] == s[|s| - 1 - i]
  {
    if s == [] then [] else Reverse(s[1..]) + [s[0]]
  }

  function Map<T, U>(f: T -> U, s: seq<T>): (r: seq<U>)
    ensures |r| == |s|
    ensures forall i :: 0 <= i < |s| ==> r[i] == f(s[i])
  {
    if s == [] then [] else [f(s[0])] + Map(f, s[1..])
  }

  lemma {:induction false} InsertAboveAll<T>(x: T, t: seq<T>, key: T -> int)
    requires forall i :: 0 <= i < |t| ==> key(t[i]) < key(x)
    ensures Insert(x, t, key) == t + [x]
  {
    if t != [] {
      InsertAboveAll(x, t[1..], key);
      assert t == [t[0]] + t[1..];
    }
  }

  /** Sorting a sequence whose keys strictly decrease reverses it. */
  lemma {:induction false} SortStrictlyDecreasingIsReverse<T>(s: seq<T>, key: T -> int)
    requires forall i, j :: 0 <= i < j < |s| ==> key(s[i]) > key(s[j])
    ensures SortBy(s, key) == Reverse(s)
  {
    if s != [] {
      SortStrictlyDecreasingIsReverse(s[1..], key);
      InsertAboveAll(s[0], Reverse(s[1..]), key);
    }
  }

  lemma {:induction false} MapInsert<T, U>(f: T -> U, x: T, t: seq<T>, key: T -> int, key': U -> int)
    requires forall y :: key'(f(y)) == key(y)
    ensures Map(f, Insert(x, t, key)) == Insert(f(x), Map(f, t), key')
  {
    if t != [] && key(x) > key(t[0]) {
      MapInsert(f, x, t[1..], key, key');
      assert Map(f, t)[1..] == Map(f, t[1..]);
    }
  }

  /** Projecting then sorting by the projected key equals sorting then projecting. */
  lemma {:induction false} MapSortCommute<T, U>(f: T -> U, s: seq<T>, key: T -> int, key': U -> int)
    requires forall y :: key'(f(y)) == key(y)
    ensures Map(f, SortBy(s, key)) == SortBy(Map(f, s), key')
  {
    if s != [] {
      MapSortCommute(f, s[1..], key, key');
      MapInsert(f, s[0], SortBy(s[1..], key), key, key');
      assert Map(f, s)[1..] == Map(f, s[1..]);
    }
  }

  /** A stable sort leaves an already sorted sequence unchanged. */
  lemma {:induction false} SortSortedIsIdentity<T>(s: seq<T>, key: T -> int)
    requires SortedBy(s, key)
    ensures SortBy(s, key) == s
  {
    if s != [] {
      assert SortedBy(s[1..], key) by {
        forall i, j | 0 <= i < j < |s[1..]| ensures key(s[1..][i]) <= key(s[1..][j]) {
          assert s[1..][i] == s[i + 1] && s[1..][j] == s[j + 1];
        }
      }
      SortSortedIsIdentity(s[1..], key);
      assert s == [s[0]] + s[1..];
    }
  }
}
