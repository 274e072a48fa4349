/** The ordering used by `Array.prototype.sort` with a comparator `(a, b) => key(b) - key(a)`:
    newest (largest key) first, elements with equal keys kept in their original order.
    Modelled as a stable insertion sort. */
module Sorting {

  /** Keys never increase from left to right. */
  predicate SortedDesc<T>(s: seq<T>, key: T -> int) {
    forall i, j :: 0 <= i < j < |s| ==> key(s[i]) >= key(s[j])
  }

  /** Puts `x` in front of the first element whose key is not larger than its own. */
  function Insert<T>(x: T, s: seq<T>, key: T -> int): (r: seq<T>)
    requires SortedDesc(s, key)
    ensures |r| == |s| + 1
    ensures multiset(r) == multiset(s) + multiset{x}
    ensures SortedDesc(r, key)
  {
    if s == [] then [x]
    else if key(s[0]) <= key(x) then [x] + s
    else
      var rest := Insert(x, s[1..], key);
      assert s == [s[0]] + s[1..];
      InsertedBelowHead(x, s, rest, key);
      SortedCons(s[0], rest, key);
      [s[0]] + rest
  }

  /** Inserting an element with a smaller key than the head into the tail keeps every key of
      the new tail at most the head's. */
  lemma InsertedBelowHead<T>(x: T, s: seq<T>, rest: seq<T>, key: T -> int)
    requires s != [] && SortedDesc(s, key) && key(x) < key(s[0])
    requires multiset(rest) == multiset(s[1..]) + multiset{x}
    ensures forall e :: e in rest ==> key(e) <= key(s[0])
  {
    forall e | e in rest ensures key(e) <= key(s[0]) {
      assert e in multiset(rest);
      if e != x {
        assert e in multiset(s[1..]);
        var k :| 0 <= k < |s[1..]| && s[1..][k] == e;
        assert s[k + 1] == e;
      }
    }
  }

  /** A sorted tail behind a head at least as large as all of it is sorted. */
  lemma SortedCons<T>(h: T, t: seq<T>, key: T -> int)
    requires SortedDesc(t, key)
    requires forall e :: e in t ==> key(e) <= key(h)
    ensures SortedDesc([h] + t, key)
  {
    var r := [h] + t;
    forall i, j | 0 <= i < j < |r| ensures key(r[i]) >= key(r[j]) {
      if i == 0 {
        assert r[j] in t;
      } else {
        assert r[i] == t[i - 1] && r[j] == t[j - 1];
      }
    }
  }

  /** Insertion sort, newest first. Elements that come earlier in `s` are inserted later,
      in front of the equal keys already placed, so ties keep their original order. */
  function SortDesc<T>(s: seq<T>, key: T -> int): (r: seq<T>)
    ensures |r| == |s|
    ensures multiset(r) == multiset(s)
    ensures SortedDesc(r, key)
  {
    if s == [] then []
    else
      assert s == [s[0]] + s[1..];
      Insert(s[0], SortDesc(s[1..], key), key)
  }

  /** Sorting a sequence that is already newest first changes nothing. */
  lemma {:induction false} SortOfSorted<T>(s: seq<T>, key: T -> int)
    requires SortedDesc(s, key)
    ensures SortDesc(s, key) == s
  {
    if s != [] {
      assert SortedDesc(s[1..], key);
      SortOfSorted(s[1..], key);
    }
  }

  /** The elements whose key is `v`, in their order in `s`. */
  function WithKey<T>(s: seq<T>, key: T -> int, v: int): seq<T>
  {
    if s == [] then []
    else (if key(s[0]) == v then [s[0]] else []) + WithKey(s[1..], key, v)
  }

  /** Unfolding `WithKey` at a head. */
  lemma WithKeyCons<T>(h: T, t: seq<T>, key: T -> int, v: int)
    ensures WithKey([h] + t, key, v) == (if key(h) == v then [h] else []) + WithKey(t, key, v)
  {
    assert ([h] + t)[1..] == t;
  }

  /** `Insert` places `x` in front of every element with the same key. */
  lemma {:induction false} InsertWithKey<T>(x: T, s: seq<T>, key: T -> int, v: int)
    requires SortedDesc(s, key)
    ensures WithKey(Insert(x, s, key), key, v) == (if key(x) == v then [x] else []) + WithKey(s, key, v)
  {
    if s == [] {
      WithKeyCons(x, s, key, v);
      assert [x] + s == [x];
    } else if key(s[0]) <= key(x) {
      assert Insert(x, s, key) == [x] + s;
      WithKeyCons(x, s, key, v);
    } else {
      assert SortedDesc(s[1..], key);
      InsertWithKey(x, s[1..], key, v);
      assert Insert(x, s, key) == [s[0]] + Insert(x, s[1..], key);
      InsertBelowHeadWithKey(x, s[0], s[1..], Insert(x, s[1..], key), key, v);
      assert s == [s[0]] + s[1..];
    }
  }

  /** The step of `InsertWithKey` where `x` goes behind the head `h`: `h` and `x` cannot both
      have key `v`, since the head's key is the larger. */
  lemma InsertBelowHeadWithKey<T>(x: T, h: T, t: seq<T>, rest: seq<T>, key: T -> int, v: int)
    requires key(x) < key(h)
    requires WithKey(rest, key, v) == (if key(x) == v then [x] else []) + WithKey(t, key, v)
    ensures WithKey([h] + rest, key, v) == (if key(x) == v then [x] else []) + WithKey([h] + t, key, v)
  {
    WithKeyCons(h, rest, key, v);
    WithKeyCons(h, t, key, v);
    if key(h) == v {
      assert key(x) != v;
    } else if key(x) == v {
      assert WithKey([h] + rest, key, v) == [x] + WithKey(t, key, v);
    } else {
      assert WithKey([h] + rest, key, v) == WithKey(t, key, v);
    }
  }

  /** The sort is stable: for every key, the elements with that key keep their order. */
  lemma {:induction false} SortDescStable<T>(s: seq<T>, key: T -> int, v: int)
    ensures WithKey(SortDesc(s, key), key, v) == WithKey(s, key, v)
  {
    if s != [] {
      SortDescStable(s[1..], key, v);
      InsertWithKey(s[0], SortDesc(s[1..], key), key, v);
    }
  }
}
