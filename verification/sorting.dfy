/**
  A stable sort into descending order of a real-valued key: the behaviour of
  Python's `sorted(xs, key=k, reverse=True)`, which keeps elements with equal
  keys in their original order.
 */
module Sorting {

  /** Non-increasing keys from left to right. */
  predicate SortedDesc<T>(s: seq<T>, key: T -> real) {
    forall i, j :: 0 <= i < j < |s| ==> key(s[i]) >= key(s[j])
  }

  /** The elements of `s` whose key is `v`, in their order in `s`. */
  function WithKey<T>(s: seq<T>, key: T -> real, v: real): seq<T>
    decreases |s|
  {
    if s == [] then [] else (if key(s[0]) == v then [s[0]] else []) + WithKey(s[1..], key, v)
  }

  lemma {:induction false} WithKeyAppend<T>(a: seq<T>, b: seq<T>, key: T -> real, v: real)
    ensures WithKey(a + b, key, v) == WithKey(a, key, v) + WithKey(b, key, v)
    decreases |a|
  {
    if a == [] {
      assert a + b == b;
    } else {
      var h := if key(a[0]) == v then [a[0]] else [];
      TailOfAppend(a, b);
      WithKeyAppend(a[1..], b, key, v);
      WithKeyCons(a[0], a[1..] + b, key, v);
      Assoc(h, WithKey(a[1..], key, v), WithKey(b, key, v));
    }
  }

  /** One step of `WithKey`. */
  lemma WithKeyCons<T>(x: T, s: seq<T>, key: T -> real, v: real)
    ensures WithKey([x] + s, key, v) == (if key(x) == v then [x] else []) + WithKey(s, key, v)
  {
    TailOfCons(x, s);
  }

  lemma Assoc<T>(a: seq<T>, b: seq<T>, c: seq<T>)
    ensures a + (b + c) == (a + b) + c
  {
  }

  lemma TailOfAppend<T>(a: seq<T>, b: seq<T>)
    requires a != []
    ensures (a + b)[0] == a[0] && (a + b)[1..] == a[1..] + b
  {
  }

  lemma TailOfCons<T>(x: T, s: seq<T>)
    ensures ([x] + s)[0] == x && ([x] + s)[1..] == s
  {
  }

  lemma SplitLast<T>(s: seq<T>)
    requires s != []
    ensures s == s[..|s| - 1] + [s[|s| - 1]]
  {
  }

  /** No element of `s` has a key as large as `v`. */
  lemma {:induction false} WithKeyBelow<T>(s: seq<T>, key: T -> real, v: real)
    requires forall k :: 0 <= k < |s| ==> key(s[k]) < v
    ensures WithKey(s, key, v) == []
    decreases |s|
  {
    if s != [] {
      WithKeyBelow(s[1..], key, v);
    }
  }

  /** Insert `x` after every element whose key is at least its own. */
  function Insert<T>(x: T, s: seq<T>, key: T -> real): (r: seq<T>)
    ensures |r| == |s| + 1
    ensures multiset(r) == multiset(s) + multiset{x}
    decreases |s|
  {
    if s == [] || key(x) > key(s[0]) then [x] + s
    else
      assert s == [s[0]] + s[1..];
      [s[0]] + Insert(x, s[1..], key)
  }

  lemma {:induction false} InsertSorted<T>(x: T, s: seq<T>, key: T -> real)
    requires SortedDesc(s, key)
    ensures SortedDesc(Insert(x, s, key), key)
    decreases |s|
  {
    if s != [] && key(x) <= key(s[0]) {
      var tail := s[1..];
      InsertSorted(x, tail, key);
      var r := Insert(x, tail, key);
      forall k | 0 <= k < |r|
        ensures key(s[0]) >= key(r[k])
      {
        assert r[k] in multiset(r);
        if r[k] != x {
          assert r[k] in multiset(tail);
          var p :| 0 <= p < |tail| && tail[p] == r[k];
          assert tail[p] == s[p + 1];
        }
      }
    }
  }

  /** Inserting into a sorted sequence puts the new element after the ones
      with an equal key and leaves their order alone. */
  lemma {:induction false} InsertStable<T>(x: T, s: seq<T>, key: T -> real, v: real)
    requires SortedDesc(s, key)
    ensures WithKey(Insert(x, s, key), key, v) == WithKey(s, key, v) + (if key(x) == v then [x] else [])
    decreases |s|
  {
    var e := if key(x) == v then [x] else [];
    InsertStep(x, s, key);
    if s == [] {
      assert [x] + s == [x];
      WithKeyCons(x, [], key, v);
    } else if key(x) > key(s[0]) {
      if key(x) == v {
        SortedBelowHead(s, key, v);
        WithKeyBelow(s, key, v);
      }
      WithKeyCons(x, s, key, v);
    } else {
      SortedTail(s, key);
      InsertStable(x, s[1..], key, v);
      InsertStableBehind(x, s, key, v);
    }
  }

  lemma InsertStableBehind<T>(x: T, s: seq<T>, key: T -> real, v: real)
    requires s != [] && Insert(x, s, key) == [s[0]] + Insert(x, s[1..], key)
    requires WithKey(Insert(x, s[1..], key), key, v) == WithKey(s[1..], key, v) + (if key(x) == v then [x] else [])
    ensures WithKey(Insert(x, s, key), key, v) == WithKey(s, key, v) + (if key(x) == v then [x] else [])
  {
    var h := if key(s[0]) == v then [s[0]] else [];
    WithKeyCons(s[0], Insert(x, s[1..], key), key, v);
    WithKeyCons(s[0], s[1..], key, v);
    Assoc(h, WithKey(s[1..], key, v), if key(x) == v then [x] else []);
    assert [s[0]] + s[1..] == s;
  }

  /** One step of `Insert`. */
  lemma InsertStep<T>(x: T, s: seq<T>, key: T -> real)
    ensures Insert(x, s, key) == if s == [] || key(x) > key(s[0]) then [x] + s else [s[0]] + Insert(x, s[1..], key)
  {
  }

  lemma SortedTail<T>(s: seq<T>, key: T -> real)
    requires s != [] && SortedDesc(s, key)
    ensures SortedDesc(s[1..], key)
  {
    forall i, j | 0 <= i < j < |s| - 1 ensures key(s[1..][i]) >= key(s[1..][j]) {
      assert s[1..][i] == s[i + 1] && s[1..][j] == s[j + 1];
    }
  }

  /** Every key of a sorted sequence is at most its first. */
  lemma SortedBelowHead<T>(s: seq<T>, key: T -> real, c: real)
    requires s != [] && SortedDesc(s, key) && key(s[0]) < c
    ensures forall k :: 0 <= k < |s| ==> key(s[k]) < c
  {
    forall k | 0 < k < |s| ensures key(s[k]) < c {
      assert key(s[0]) >= key(s[k]);
    }
  }

  /** Insertion sort, taking the elements from left to right. */
  function Sort<T>(s: seq<T>, key: T -> real): (r: seq<T>)
    ensures |r| == |s|
    ensures multiset(r) == multiset(s)
    ensures SortedDesc(r, key)
    decreases |s|
  {
    if s == [] then []
    else
      var init, last := s[..|s| - 1], s[|s| - 1];
      SplitLast(s);
      var sorted := Sort(init, key);
      InsertSorted(last, sorted, key);
      Insert(last, sorted, key)
  }

  /** The sort is stable: elements with equal keys keep their relative order. */
  lemma {:induction false} SortStable<T>(s: seq<T>, key: T -> real, v: real)
    ensures WithKey(Sort(s, key), key, v) == WithKey(s, key, v)
    decreases |s|
  {
    if s != [] {
      var init, last := s[..|s| - 1], s[|s| - 1];
      SplitLast(s);
      SortStable(init, key, v);
      InsertStable(last, Sort(init, key), key, v);
      WithKeyAppend(init, [last], key, v);
      TailOfCons(last, []);
    }
  }
}
