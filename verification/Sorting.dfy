/** Stable ascending sort by a key, the effect of the in-place library sort. */
module Sorting {

  ghost predicate Sorted<T>(s: seq<T>, key: T -> real) {
    forall i, j | 0 <= i < j < |s| :: key(s[i]) <= key(s[j])
  }

  /** Places `x` behind all elements with a key that is not greater. */
  function Insert<T>(x: T, s: seq<T>, key: T -> real): seq<T> {
    if s == [] || key(s[|s| - 1]) <= key(x) then s + [x]
    else Insert(x, s[..|s| - 1], key) + [s[|s| - 1]]
  }

  function Sort<T>(s: seq<T>, key: T -> real): seq<T> {
    if s == [] then [] else Insert(s[|s| - 1], Sort(s[..|s| - 1], key), key)
  }

  lemma {:induction false} InsertKeepsElements<T>(x: T, s: seq<T>, key: T -> real)
    ensures multiset(Insert(x, s, key)) == multiset(s) + multiset{x}
  {
    if s == [] || key(s[|s| - 1]) <= key(x) {
    } else {
      InsertKeepsElements(x, s[..|s| - 1], key);
      assert s == s[..|s| - 1] + [s[|s| - 1]];
    }
  }

  lemma {:induction false} InsertKeepsSorted<T>(x: T, s: seq<T>, key: T -> real)
    requires Sorted(s, key)
    ensures Sorted(Insert(x, s, key), key)
  {
    if s == [] || key(s[|s| - 1]) <= key(x) {
      forall i | 0 <= i < |s| ensures key(s[i]) <= key(x) {
        assert i == |s| - 1 || key(s[i]) <= key(s[|s| - 1]);
      }
    } else {
      var init, last := s[..|s| - 1], s[|s| - 1];
      var r := Insert(x, init, key);
      InsertKeepsSorted(x, init, key);
      InsertKeepsElements(x, init, key);
      forall i | 0 <= i < |r| ensures key(r[i]) <= key(last) {
        assert r[i] in multiset(r);
        if r[i] != x {
          assert r[i] in multiset(init) && r[i] in init;
        }
      }
    }
  }

  /** The result is sorted and a permutation of the input. */
  lemma {:induction false} SortIsSortedPermutation<T>(s: seq<T>, key: T -> real)
    ensures Sorted(Sort(s, key), key)
    ensures multiset(Sort(s, key)) == multiset(s)
    ensures |Sort(s, key)| == |s|
  {
    if s != [] {
      var init, last := s[..|s| - 1], s[|s| - 1];
      SortIsSortedPermutation(init, key);
      InsertKeepsSorted(last, Sort(init, key), key);
      InsertKeepsElements(last, Sort(init, key), key);
      assert s == init + [last];
    }
    assert |multiset(Sort(s, key))| == |multiset(s)|;
  }

  /** A sorted list stays as it is. */
  lemma {:induction false} SortedStays<T>(s: seq<T>, key: T -> real)
    requires Sorted(s, key)
    ensures Sort(s, key) == s
  {
    if s != [] {
      var init, last := s[..|s| - 1], s[|s| - 1];
      SortedStays(init, key);
      assert |init| > 0 ==> key(init[|init| - 1]) <= key(last);
      assert s == init + [last];
    }
  }

  function Map<T, U>(s: seq<T>, f: T -> U): (r: seq<U>)
    ensures |r| == |s| && forall i | 0 <= i < |s| :: r[i] == f(s[i])
  {
    seq(|s|, i requires 0 <= i < |s| => f(s[i]))
  }

  lemma MapPush<T, U>(s: seq<T>, x: T, f: T -> U)
    ensures Map(s + [x], f) == Map(s, f) + [f(x)]
  {
  }

  lemma {:induction false} InsertMapped<T, U>(x: T, s: seq<T>, f: T -> U, key: U -> real,
                                              key': T -> real)
    requires forall y :: key'(y) == key(f(y))
    ensures Insert(f(x), Map(s, f), key) == Map(Insert(x, s, key'), f)
  {
    if s == [] || key'(s[|s| - 1]) <= key'(x) {
      MapPush(s, x, f);
    } else {
      var init, last := s[..|s| - 1], s[|s| - 1];
      InsertMapped(x, init, f, key, key');
      assert Map(s, f)[..|s| - 1] == Map(init, f);
      MapPush(Insert(x, init, key'), last, f);
    }
  }

  /** Sorting images by a key is sorting by the key of the image. */
  lemma {:induction false} SortMapped<T, U>(s: seq<T>, f: T -> U, key: U -> real, key': T -> real)
    requires forall y :: key'(y) == key(f(y))
    ensures Sort(Map(s, f), key) == Map(Sort(s, key'), f)
  {
    if s != [] {
      var init, last := s[..|s| - 1], s[|s| - 1];
      SortMapped(init, f, key, key');
      assert Map(s, f)[..|s| - 1] == Map(init, f);
      InsertMapped(last, Sort(init, key'), f, key, key');
    }
  }
}
