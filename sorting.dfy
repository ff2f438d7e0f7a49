/**
 * A stable sort by an integer key, the meaning of `Array.prototype.sort` with the
 * comparator `(a, b) => key(a) - key(b)`: ECMA-262 requires that sort to be stable, so its
 * result is fixed by the key order together with the input order of equal keys.
 */
module Sorting {

  /** The keys never decrease along `s`. */
  predicate SortedBy<T>(s: seq<T>, key: T -> int) {
    forall i, j :: 0 <= i < j < |s| ==> key(s[i]) <= key(s[j])
  }

  /** The elements of `s` whose key is `k`, in their order in `s`. */
  function WithKey<T>(s: seq<T>, key: T -> int, k: int): (r: seq<T>)
    ensures |r| <= |s|
  {
    if s == [] then []
    else (if key(s[0]) == k then [s[0]] else []) + WithKey(s[1..], key, k)
  }

  /** `x` placed in front of the first element of `s` whose key is greater than its own. */
  function Insert<T>(s: seq<T>, x: T, key: T -> int): (r: seq<T>)
    ensures |r| == |s| + 1
  {
    if s == [] then [x]
    else if key(s[0]) > key(x) then [x] + s
    else [s[0]] + Insert(s[1..], x, key)
  }

  /** Insertion sort: each element is inserted after every earlier element of no greater key. */
  function SortBy<T>(s: seq<T>, key: T -> int): (r: seq<T>)
    ensures |r| == |s|
  {
    if s == [] then [] else Insert(SortBy(s[..|s| - 1], key), s[|s| - 1], key)
  }

  lemma {:induction false} InsertMultiset<T>(s: seq<T>, x: T, key: T -> int)
    ensures multiset(Insert(s, x, key)) == multiset(s) + multiset{x}
  {
    if s != [] && key(s[0]) <= key(x) {
      var rest := Insert(s[1..], x, key);
      InsertMultiset(s[1..], x, key);
      assert Insert(s, x, key) == [s[0]] + rest;
      assert s == [s[0]] + s[1..];
      assert multiset([s[0]] + rest) == multiset{s[0]} + multiset(rest);
      assert multiset(s) == multiset{s[0]} + multiset(s[1..]);
    }
  }

  lemma {:induction false} InsertSorted<T>(s: seq<T>, x: T, key: T -> int)
    requires SortedBy(s, key)
    ensures SortedBy(Insert(s, x, key), key)
  {
    if s != [] && key(s[0]) <= key(x) {
      InsertSorted(s[1..], x, key);
      var r := Insert(s[1..], x, key);
      InsertMultiset(s[1..], x, key);
      forall i | 0 <= i < |r| ensures key(s[0]) <= key(r[i]) {
        assert r[i] in multiset(r);
        assert r[i] in multiset(s[1..]) + multiset{x};
        if r[i] != x {
          assert r[i] in s[1..];
        }
      }
      assert Insert(s, x, key) == [s[0]] + r;
    }
  }

  /** The elements with key `k` of `Insert(s, x)`: `x` comes after those of `s`. */
  lemma {:induction false} InsertWithKey<T>(s: seq<T>, x: T, key: T -> int, k: int)
    requires SortedBy(s, key)
    ensures WithKey(Insert(s, x, key), key, k) == WithKey(s, key, k) + WithKey([x], key, k)
  {
    if s == [] {
      assert Insert(s, x, key) == [x];
    } else if key(s[0]) > key(x) {
      assert Insert(s, x, key) == [x] + s;
      WithKeyAppend([x], s, key, k);
      if key(x) == k {
        WithKeyNone(s, key, k);
        assert WithKey(s, key, k) + WithKey([x], key, k) == WithKey([x], key, k);
        assert WithKey([x], key, k) + WithKey(s, key, k) == WithKey([x], key, k);
      } else {
        assert WithKey([x], key, k) == [];
        assert WithKey(s, key, k) + [] == WithKey(s, key, k);
        assert [] + WithKey(s, key, k) == WithKey(s, key, k);
      }
    } else {
      var rest := Insert(s[1..], x, key);
      assert Insert(s, x, key) == [s[0]] + rest;
      assert SortedBy(s[1..], key);
      InsertWithKey(s[1..], x, key, k);
      WithKeyAppend([s[0]], rest, key, k);
      WithKeyAppend([s[0]], s[1..], key, k);
      assert s == [s[0]] + s[1..];
      var h := WithKey([s[0]], key, k);
      assert h + (WithKey(s[1..], key, k) + WithKey([x], key, k)) ==
             (h + WithKey(s[1..], key, k)) + WithKey([x], key, k);
    }
  }

  /** No element has key `k` when every key exceeds `k`. */
  lemma {:induction false} WithKeyNone<T>(s: seq<T>, key: T -> int, k: int)
    requires forall i :: 0 <= i < |s| ==> key(s[i]) > k
    ensures WithKey(s, key, k) == []
  {
    if s != [] {
      WithKeyNone(s[1..], key, k);
    }
  }

  lemma {:induction false} WithKeyAppend<T>(a: seq<T>, b: seq<T>, key: T -> int, k: int)
    ensures WithKey(a + b, key, k) == WithKey(a, key, k) + WithKey(b, key, k)
  {
    if a != [] {
      assert (a + b)[1..] == a[1..] + b;
      WithKeyAppend(a[1..], b, key, k);
    } else {
      assert a + b == b;
    }
  }

  /** The sort returns a permutation of its input. */
  lemma {:induction false} SortByPermutation<T>(s: seq<T>, key: T -> int)
    ensures multiset(SortBy(s, key)) == multiset(s)
  {
    if s != [] {
      var init, x := s[..|s| - 1], s[|s| - 1];
      SortByPermutation(init, key);
      InsertMultiset(SortBy(init, key), x, key);
      assert s == init + [x];
    }
  }

  /** The sort returns its input with the keys in non-decreasing order. */
  lemma {:induction false} SortBySorted<T>(s: seq<T>, key: T -> int)
    ensures SortedBy(SortBy(s, key), key)
  {
    if s != [] {
      SortBySorted(s[..|s| - 1], key);
      InsertSorted(SortBy(s[..|s| - 1], key), s[|s| - 1], key);
    }
  }

  /** Stability: the elements of each key keep their input order. */
  lemma {:induction false} SortByStable<T>(s: seq<T>, key: T -> int, k: int)
    ensures WithKey(SortBy(s, key), key, k) == WithKey(s, key, k)
  {
    if s != [] {
      var init, x := s[..|s| - 1], s[|s| - 1];
      SortByStable(init, key, k);
      SortBySorted(init, key);
      InsertWithKey(SortBy(init, key), x, key, k);
      assert s == init + [x];
      WithKeyAppend(init, [x], key, k);
    }
  }

  /** Inserting an element no smaller than all of a sorted sequence appends it. */
  lemma {:induction false} InsertLast<T>(s: seq<T>, x: T, key: T -> int)
    requires forall i :: 0 <= i < |s| ==> key(s[i]) <= key(x)
    ensures Insert(s, x, key) == s + [x]
  {
    if s != [] {
      InsertLast(s[1..], x, key);
      assert s == [s[0]] + s[1..];
    }
  }

  /** An input already in key order is returned unchanged. */
  lemma {:induction false} SortBySortedInput<T>(s: seq<T>, key: T -> int)
    requires SortedBy(s, key)
    ensures SortBy(s, key) == s
  {
    if s != [] {
      var init, x := s[..|s| - 1], s[|s| - 1];
      assert SortedBy(init, key);
      SortBySortedInput(init, key);
      InsertLast(init, x, key);
      assert s == init + [x];
    }
  }

  /** Under a constant key the sort changes nothing. */
  lemma SortByConstant<T>(s: seq<T>, key: T -> int)
    requires forall i, j :: 0 <= i < |s| && 0 <= j < |s| ==> key(s[i]) == key(s[j])
    ensures SortBy(s, key) == s
  {
    SortBySortedInput(s, key);
  }
  /** `WithKey` finds something exactly when some element has that key. */
  lemma {:induction false} WithKeyEmptyIff<T>(s: seq<T>, key: T -> int, k: int)
    ensures WithKey(s, key, k) == [] <==> forall i :: 0 <= i < |s| ==> key(s[i]) != k
  {
    if s != [] {
      WithKeyEmptyIff(s[1..], key, k);
      assert forall i :: 1 <= i < |s| ==> s[i] == s[1..][i - 1];
    }
  }

  /**
   * Sorted order and stability determine the result: any arrangement whose keys do not
   * decrease and whose elements of each key keep the input order is the sort's result.
   */
  lemma SortByUnique<T>(s: seq<T>, r: seq<T>, key: T -> int)
    requires SortedBy(r, key)
    requires forall k :: WithKey(r, key, k) == WithKey(s, key, k)
    ensures r == SortBy(s, key)
  {
    var t := SortBy(s, key);
    SortBySorted(s, key);
    forall k ensures WithKey(r, key, k) == WithKey(t, key, k) {
      SortByStable(s, key, k);
    }
    SortedUnique(r, t, key);
  }

  lemma {:induction false} SortedUnique<T>(r: seq<T>, t: seq<T>, key: T -> int)
    requires SortedBy(r, key) && SortedBy(t, key)
    requires forall k :: WithKey(r, key, k) == WithKey(t, key, k)
    ensures r == t
    decreases |r|
  {
    SameKeysBothEmpty(r, t, key);
    if r != [] {
      SameKeysSameHead(r, t, key);
      assert SortedBy(r[1..], key) && SortedBy(t[1..], key);
      SortedUnique(r[1..], t[1..], key);
      assert r == [r[0]] + r[1..] && t == [t[0]] + t[1..];
    }
  }

  lemma SameKeysBothEmpty<T>(r: seq<T>, t: seq<T>, key: T -> int)
    requires forall k :: WithKey(r, key, k) == WithKey(t, key, k)
    ensures r == [] <==> t == []
  {
    if r != [] {
      assert WithKey(r, key, key(r[0])) != [];
    }
    if t != [] {
      assert WithKey(t, key, key(t[0])) != [];
    }
  }

  /** Two sorted arrangements with the same elements of each key start alike. */
  lemma SameKeysSameHead<T>(r: seq<T>, t: seq<T>, key: T -> int)
    requires SortedBy(r, key) && SortedBy(t, key) && r != [] && t != []
    requires forall k :: WithKey(r, key, k) == WithKey(t, key, k)
    ensures r[0] == t[0]
    ensures forall k :: WithKey(r[1..], key, k) == WithKey(t[1..], key, k)
  {
    var a := key(r[0]);
    SameHeadKey(r, t, key);
    var x, y := WithKey(r[1..], key, a), WithKey(t[1..], key, a);
    assert WithKey(r, key, a) == [r[0]] + x;
    assert WithKey(t, key, a) == [t[0]] + y;
    assert ([r[0]] + x)[0] == r[0] && ([t[0]] + y)[0] == t[0];
    assert ([r[0]] + x)[1..] == x && ([t[0]] + y)[1..] == y;
    forall k ensures WithKey(r[1..], key, k) == WithKey(t[1..], key, k) {
      if k != a {
        var xr, xt := WithKey(r[1..], key, k), WithKey(t[1..], key, k);
        assert WithKey(r, key, k) == [] + xr;
        assert WithKey(t, key, k) == [] + xt;
        assert [] + xr == xr && [] + xt == xt;
        assert WithKey(r, key, k) == WithKey(t, key, k);
      }
    }
  }

  lemma SameHeadKey<T>(r: seq<T>, t: seq<T>, key: T -> int)
    requires SortedBy(r, key) && SortedBy(t, key) && r != [] && t != []
    requires forall k :: WithKey(r, key, k) == WithKey(t, key, k)
    ensures key(r[0]) == key(t[0])
  {
    var a, b := key(r[0]), key(t[0]);
    WithKeyEmptyIff(r, key, b);
    WithKeyEmptyIff(t, key, a);
    assert WithKey(r, key, a) != [];
    assert WithKey(t, key, b) != [];
    assert WithKey(r, key, a) == WithKey(t, key, a);
    assert WithKey(r, key, b) == WithKey(t, key, b);
  }

  /** No two elements of `s` have the same image under `f`. */
  ghost predicate DistinctBy<T, U>(s: seq<T>, f: T -> U) {
    forall i, j :: 0 <= i < j < |s| ==> f(s[i]) != f(s[j])
  }

  /** A rearrangement of a sequence whose images under `f` are distinct has distinct images too. */
  lemma PermutationDistinctBy<T, U>(s: seq<T>, r: seq<T>, f: T -> U)
    requires multiset(r) == multiset(s) && DistinctBy(s, f)
    ensures DistinctBy(r, f)
  {
    forall i, j | 0 <= i < j < |r| ensures f(r[i]) != f(r[j]) {
      assert r[i] in multiset(s) && r[j] in multiset(s);
      var a :| 0 <= a < |s| && s[a] == r[i];
      var b :| 0 <= b < |s| && s[b] == r[j];
      if a == b {
        CountedTwice(r, i, j);
        CountedOnce(s, f, s[a]);
        assert false;
      }
    }
  }

  /** Two positions holding the same element count it twice. */
  lemma CountedTwice<T>(r: seq<T>, i: int, j: int)
    requires 0 <= i < j < |r| && r[i] == r[j]
    ensures multiset(r)[r[i]] >= 2
  {
    assert r == r[..j] + r[j..];
    assert r[i] in r[..j];
    assert r[j] == r[j..][0];
  }

  /** Distinct images under `f` mean no element occurs twice. */
  lemma {:induction false} CountedOnce<T, U>(s: seq<T>, f: T -> U, x: T)
    requires DistinctBy(s, f)
    ensures multiset(s)[x] <= 1
  {
    if s != [] {
      var init, last := s[..|s| - 1], s[|s| - 1];
      assert s == init + [last];
      assert DistinctBy(init, f);
      CountedOnce(init, f, x);
      if last == x {
        forall k | 0 <= k < |init| ensures init[k] != x {
          assert f(s[k]) != f(s[|s| - 1]);
        }
        assert x !in init;
      }
    }
  }
}
