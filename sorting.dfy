/** `Array.prototype.sort` with a comparator, as both copies use it. Every
    comparator in the two copies is consistent: it orders by a pair of
    integers compared lexicographically (a partition rank, then a signed id or
    a number of days). JavaScript's sort is stable, so its result is the
    stable sort by that key, which insertion sort computes. */
module Sorting {
  import opened Sequences

  /** The key a comparator orders by: `major` first, then `minor`. */
  datatype Key = Key(major: int, minor: int)

  predicate KeyLe(a: Key, b: Key) {
    a.major < b.major || (a.major == b.major && a.minor <= b.minor)
  }

  predicate SortedBy<T>(s: seq<T>, key: T -> Key) {
    forall i, j :: 0 <= i < j < |s| ==> KeyLe(key(s[i]), key(s[j]))
  }

  /** The condition "has key `k`", used to speak of the elements that a
      comparator considers equal. */
  function KeyIs<T>(key: T -> Key, k: Key): T -> bool {
    x => key(x) == k
  }

  /** Puts `x` in front of the first element whose key is not below its own. */
  function Insert<T(==)>(x: T, s: seq<T>, key: T -> Key): (r: seq<T>)
    requires SortedBy(s, key)
    ensures SortedBy(r, key)
    ensures multiset(r) == multiset(s) + multiset{x}
    decreases |s|
  {
    if s == [] || KeyLe(key(x), key(s[0])) then
      HeadIsLeast(s, key);
      ConsSorted(x, s, key);
      [x] + s
    else
      var rest := Insert(x, s[1..], key);
      assert s == [s[0]] + s[1..];
      HeadIsLeast(s, key);
      assert forall y :: y in rest ==> y == x || y in s by {
        forall y | y in rest ensures y == x || y in s {
          assert y in multiset(rest);
        }
      }
      ConsSorted(s[0], rest, key);
      [s[0]] + rest
  }

  /** The first element of a sorted list has the least key. */
  lemma HeadIsLeast<T>(s: seq<T>, key: T -> Key)
    requires SortedBy(s, key)
    ensures forall y :: y in s ==> KeyLe(key(s[0]), key(y))
  {
    forall y | y in s ensures KeyLe(key(s[0]), key(y)) {
      var j :| 0 <= j < |s| && s[j] == y;
      assert j == 0 || KeyLe(key(s[0]), key(s[j]));
    }
  }

  /** A key at or below every key of a sorted list may go in front of it. */
  lemma ConsSorted<T>(x: T, s: seq<T>, key: T -> Key)
    requires SortedBy(s, key)
    requires forall y :: y in s ==> KeyLe(key(x), key(y))
    ensures SortedBy([x] + s, key)
  {
    var r := [x] + s;
    forall i, j | 0 <= i < j < |r| ensures KeyLe(key(r[i]), key(r[j])) {
      assert r[j] == s[j - 1] && s[j - 1] in s;
      if i > 0 {
        assert r[i] == s[i - 1];
      }
    }
  }

  /** Stable sort of `s` by `key`. */
  function SortBy<T(==)>(s: seq<T>, key: T -> Key): (r: seq<T>)
    ensures SortedBy(r, key)
    ensures multiset(r) == multiset(s)
    decreases |s|
  {
    if s == [] then []
    else
      assert s == [s[0]] + s[1..];
      Insert(s[0], SortBy(s[1..], key), key)
  }

  /** Inserting `x` in front of the elements whose key equals its own keeps
      each group of equal keys in order, with `x` first in its group. */
  lemma {:induction false} InsertStable<T(!new)>(x: T, s: seq<T>, key: T -> Key, k: Key)
    requires SortedBy(s, key)
    ensures Filter(Insert(x, s, key), KeyIs(key, k)) == Filter([x], KeyIs(key, k)) + Filter(s, KeyIs(key, k))
    decreases |s|
  {
    var p := KeyIs(key, k);
    if s == [] || KeyLe(key(x), key(s[0])) {
      FilterAppend([x], s, p);
    } else {
      InsertStable(x, s[1..], key, k);
      var rest := Insert(x, s[1..], key);
      assert s == [s[0]] + s[1..];
      FilterAppend([s[0]], rest, p);
      FilterAppend([s[0]], s[1..], p);
      if p(x) {
        // key(s[0]) is strictly below key(x) == k, so s[0] is not in the group.
        assert Filter([s[0]], p) == [] by {
          assert !p(s[0]);
          assert [s[0]][1..] == [];
        }
      } else {
        assert Filter([x], p) == [] by {
          assert [x][1..] == [];
        }
      }
    }
  }

  /** The sort is stable: for every key, the elements with that key appear in
      the result in the same order as in the input. */
  lemma {:induction false} SortByIsStable<T(!new)>(s: seq<T>, key: T -> Key, k: Key)
    ensures Filter(SortBy(s, key), KeyIs(key, k)) == Filter(s, KeyIs(key, k))
    decreases |s|
  {
    if s != [] {
      SortByIsStable(s[1..], key, k);
      InsertStable(s[0], SortBy(s[1..], key), key, k);
      assert s == [s[0]] + s[1..];
      FilterAppend([s[0]], s[1..], KeyIs(key, k));
    }
  }

  /** Two keys that order every element alike give the same sort. */
  lemma {:induction false} SortByExt<T(!new)>(s: seq<T>, key1: T -> Key, key2: T -> Key)
    requires forall x :: key1(x) == key2(x)
    ensures SortBy(s, key1) == SortBy(s, key2)
    decreases |s|
  {
    if s != [] {
      SortByExt(s[1..], key1, key2);
      InsertExt(s[0], SortBy(s[1..], key1), key1, key2);
    }
  }

  lemma {:induction false} InsertExt<T(!new)>(x: T, s: seq<T>, key1: T -> Key, key2: T -> Key)
    requires forall y :: key1(y) == key2(y)
    requires SortedBy(s, key1)
    ensures SortedBy(s, key2) && Insert(x, s, key1) == Insert(x, s, key2)
    decreases |s|
  {
    if s != [] && !KeyLe(key1(x), key1(s[0])) {
      InsertExt(x, s[1..], key1, key2);
    }
  }
}
