/**
 * A stable sort into non-increasing order of an integer key. `Array.prototype.sort`
 * is required to be stable, so with a comparator `(a, b) => key(b) - key(a)` it
 * yields exactly this sequence (see `StableSortIsUnique`); the playback history
 * index read in descending order is the same kind of ordering.
 */
module StableSort {

  ghost predicate SortedDesc<T>(s: seq<T>, key: T -> int) {
    forall i, j :: 0 <= i < j < |s| ==> key(s[i]) >= key(s[j])
  }

  /** The elements of `s` whose key is `k`, in their order in `s`. */
  function WithKey<T>(s: seq<T>, key: T -> int, k: int): seq<T> {
    if s == [] then []
    else (if key(s[0]) == k then [s[0]] else []) + WithKey(s[1..], key, k)
  }

  /** Insert `x` after every element whose key is at least `key(x)`. */
  function Insert<T>(x: T, t: seq<T>, key: T -> int): (r: seq<T>)
    ensures |r| == |t| + 1 && multiset(r) == multiset(t) + multiset{x}
  {
    if t == [] then [x]
    else if key(t[0]) >= key(x) then
      assert t == [t[0]] + t[1..];
      [t[0]] + Insert(x, t[1..], key)
    else [x] + t
  }

  /** Insertion sort, taking the elements of `s` from first to last. */
  function SortDesc<T>(s: seq<T>, key: T -> int): (r: seq<T>)
    ensures |r| == |s| && multiset(r) == multiset(s)
  {
    if s == [] then []
    else
      assert s == s[..|s| - 1] + [s[|s| - 1]];
      Insert(s[|s| - 1], SortDesc(s[..|s| - 1], key), key)
  }

  lemma {:induction false} WithKeyAppend<T>(a: seq<T>, b: seq<T>, key: T -> int, k: int)
    ensures WithKey(a + b, key, k) == WithKey(a, key, k) + WithKey(b, key, k)
  {
    if a != [] {
      var head := if key(a[0]) == k then [a[0]] else [];
      assert (a + b)[0] == a[0];
      assert (a + b)[1..] == a[1..] + b;
      calc {
        WithKey(a + b, key, k);
        head + WithKey(a[1..] + b, key, k);
        { WithKeyAppend(a[1..], b, key, k); }
        head + (WithKey(a[1..], key, k) + WithKey(b, key, k));
        (head + WithKey(a[1..], key, k)) + WithKey(b, key, k);
        WithKey(a, key, k) + WithKey(b, key, k);
      }
    } else {
      assert a + b == b;
    }
  }

  /** `WithKey(s, k)` is empty exactly when no element of `s` has key `k`. */
  lemma {:induction false} WithKeyEmpty<T>(s: seq<T>, key: T -> int, k: int)
    ensures WithKey(s, key, k) == [] <==> forall i :: 0 <= i < |s| ==> key(s[i]) != k
  {
    if s != [] {
      WithKeyEmpty(s[1..], key, k);
      if key(s[0]) != k {
        assert WithKey(s, key, k) == WithKey(s[1..], key, k);
        assert (forall i :: 0 <= i < |s| ==> key(s[i]) != k)
           <==> (forall i :: 0 <= i < |s[1..]| ==> key(s[1..][i]) != k);
      }
    }
  }

  lemma {:induction false} InsertSorted<T>(x: T, t: seq<T>, key: T -> int)
    requires SortedDesc(t, key)
    ensures SortedDesc(Insert(x, t, key), key)
  {
    if t != [] && key(t[0]) >= key(x) {
      var rest := Insert(x, t[1..], key);
      InsertSorted(x, t[1..], key);
      forall j | 0 <= j < |rest| ensures key(t[0]) >= key(rest[j]) {
        assert rest[j] in multiset(rest);
        if rest[j] != x {
          assert rest[j] in multiset(t[1..]);
          var m :| 0 <= m < |t[1..]| && t[1..][m] == rest[j];
          assert t[m + 1] == rest[j];
        }
      }
    }
  }

  /** The tail of a sorted sequence is sorted. */
  lemma SortedTail<T>(t: seq<T>, key: T -> int)
    requires t != [] && SortedDesc(t, key)
    ensures SortedDesc(t[1..], key)
  {
    forall i, j | 0 <= i < j < |t[1..]| ensures key(t[1..][i]) >= key(t[1..][j]) {
      assert t[1..][i] == t[i + 1] && t[1..][j] == t[j + 1];
    }
  }

  /** `WithKey` of a sequence with a known first element. */
  lemma WithKeyCons<T>(x: T, t: seq<T>, key: T -> int, k: int)
    ensures WithKey([x] + t, key, k) == (if key(x) == k then [x] else []) + WithKey(t, key, k)
  {
    assert ([x] + t)[0] == x && ([x] + t)[1..] == t;
  }

  lemma {:induction false} InsertStable<T>(x: T, t: seq<T>, key: T -> int, k: int)
    requires SortedDesc(t, key)
    ensures WithKey(Insert(x, t, key), key, k) == WithKey(t, key, k) + (if key(x) == k then [x] else [])
  {
    var e := if key(x) == k then [x] else [];
    if t == [] {
      assert Insert(x, t, key) == [x] + [];
      WithKeyCons(x, [], key, k);
    } else if key(t[0]) >= key(x) {
      var h := if key(t[0]) == k then [t[0]] else [];
      var rest := Insert(x, t[1..], key);
      SortedTail(t, key);
      calc {
        WithKey(Insert(x, t, key), key, k);
        { assert Insert(x, t, key) == [t[0]] + rest; }
        WithKey([t[0]] + rest, key, k);
        { WithKeyCons(t[0], rest, key, k); }
        h + WithKey(rest, key, k);
        { InsertStable(x, t[1..], key, k); }
        h + (WithKey(t[1..], key, k) + e);
        (h + WithKey(t[1..], key, k)) + e;
        { WithKeyCons(t[0], t[1..], key, k); assert [t[0]] + t[1..] == t; }
        WithKey(t, key, k) + e;
      }
    } else {
      assert Insert(x, t, key) == [x] + t;
      WithKeyCons(x, t, key, k);
      if key(x) == k {
        WithKeyEmpty(t, key, k);
      }
    }
  }

  /** The sorted sequence is in non-increasing key order. */
  lemma {:induction false} SortDescSorted<T>(s: seq<T>, key: T -> int)
    ensures SortedDesc(SortDesc(s, key), key)
  {
    if s != [] {
      SortDescSorted(s[..|s| - 1], key);
      InsertSorted(s[|s| - 1], SortDesc(s[..|s| - 1], key), key);
    }
  }

  /** Stability: elements with equal keys keep their relative order from the input. */
  lemma {:induction false} SortDescStable<T>(s: seq<T>, key: T -> int, k: int)
    ensures WithKey(SortDesc(s, key), key, k) == WithKey(s, key, k)
  {
    if s != [] {
      var init, last := s[..|s| - 1], s[|s| - 1];
      var sortedInit := SortDesc(init, key);
      var tail := if key(last) == k then [last] else [];
      calc {
        WithKey(SortDesc(s, key), key, k);
        WithKey(Insert(last, sortedInit, key), key, k);
        { SortDescSorted(init, key); InsertStable(last, sortedInit, key, k); }
        WithKey(sortedInit, key, k) + tail;
        { SortDescStable(init, key, k); }
        WithKey(init, key, k) + tail;
        { WithKeySnoc(init, last, key, k); assert s == init + [last]; }
        WithKey(s, key, k);
      }
    }
  }

  lemma WithKeySnoc<T>(init: seq<T>, last: T, key: T -> int, k: int)
    ensures WithKey(init + [last], key, k) == WithKey(init, key, k) + (if key(last) == k then [last] else [])
  {
    assert WithKey([last], key, k) == (if key(last) == k then [last] else []) + WithKey([], key, k);
    WithKeyAppend(init, [last], key, k);
  }

  /**
   * A sequence sorted by key whose per-key subsequences are those of `s` is
   * `SortDesc(s)`: every stable sort produces the same result.
   */
  lemma {:induction false} StableSortIsUnique<T>(r: seq<T>, t: seq<T>, key: T -> int)
    requires SortedDesc(r, key) && SortedDesc(t, key)
    requires forall k :: WithKey(r, key, k) == WithKey(t, key, k)
    ensures r == t
  {
    if r == [] || t == [] {
      if r != [] {
        WithKeyEmpty(t, key, key(r[0]));
        WithKeyEmpty(r, key, key(r[0]));
      }
      if t != [] {
        WithKeyEmpty(r, key, key(t[0]));
        WithKeyEmpty(t, key, key(t[0]));
      }
    } else {
      var a, b := key(r[0]), key(t[0]);
      WithKeyEmpty(r, key, a);
      WithKeyEmpty(t, key, a);
      WithKeyEmpty(r, key, b);
      WithKeyEmpty(t, key, b);
      assert a == b;
      assert WithKey(r, key, a)[0] == r[0];
      assert WithKey(t, key, a)[0] == t[0];
      forall k ensures WithKey(r[1..], key, k) == WithKey(t[1..], key, k) {
        var head := if key(r[0]) == k then [r[0]] else [];
        assert WithKey(r, key, k) == head + WithKey(r[1..], key, k);
        assert WithKey(t, key, k) == head + WithKey(t[1..], key, k);
        assert WithKey(r[1..], key, k) == WithKey(r, key, k)[|head|..];
        assert WithKey(t[1..], key, k) == WithKey(t, key, k)[|head|..];
      }
      StableSortIsUnique(r[1..], t[1..], key);
      assert r == [r[0]] + r[1..] && t == [t[0]] + t[1..];
    }
  }

  /** A prefix of a non-increasing sequence holds its largest keys: nothing left out is larger than anything kept. */
  lemma PrefixIsTop<T>(s: seq<T>, k: nat, key: T -> int)
    requires k <= |s| && SortedDesc(s, key)
    ensures multiset(s[..k]) <= multiset(s)
    ensures forall x :: x in multiset(s) - multiset(s[..k]) ==> forall i :: 0 <= i < k ==> key(x) <= key(s[i])
  {
    var rest := s[k..];
    assert s == s[..k] + rest;
    assert multiset(s) == multiset(s[..k]) + multiset(rest);
    forall x | x in multiset(s) - multiset(s[..k]) ensures forall i :: 0 <= i < k ==> key(x) <= key(s[i]) {
      assert x in multiset(rest);
      var j :| 0 <= j < |rest| && rest[j] == x;
      assert s[k + j] == x;
    }
  }
}
