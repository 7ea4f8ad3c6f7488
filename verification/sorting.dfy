/** Python's `sorted(..., key=lambda x: -k(x))` and `list.sort(key=k, reverse=True)`:
    a stable sort into non-increasing key order. Both are stable, so elements
    with equal keys keep their original relative order. Modelled here as an
    insertion sort on sequences. */
module Sorting {

  /** Keys never increase from left to right. */
  predicate SortedDesc<T>(s: seq<T>, key: T -> real)
  {
    forall p, q :: 0 <= p < q < |s| ==> key(s[p]) >= key(s[q])
  }

  /** Inserts `x` in front of the first element whose key is not greater than
      its own, so that `x` stays ahead of the elements of `t` with an equal key. */
  function Insert<T>(x: T, t: seq<T>, key: T -> real): (r: seq<T>)
    ensures |r| == |t| + 1 && multiset(r) == multiset(t) + multiset{x}
    decreases |t|
  {
    if t == [] || key(x) >= key(t[0]) then [x] + t
    else
      assert t == [t[0]] + t[1..];
      [t[0]] + Insert(x, t[1..], key)
  }

  lemma {:induction false} InsertSorted<T>(x: T, t: seq<T>, key: T -> real)
    requires SortedDesc(t, key)
    ensures SortedDesc(Insert(x, t, key), key)
    decreases |t|
  {
    if t == [] || key(x) >= key(t[0]) {
      forall y | y in t ensures key(x) >= key(y) {
        var m :| 0 <= m < |t| && t[m] == y;
      }
      ConsSorted(x, t, key);
    } else {
      var rest := Insert(x, t[1..], key);
      InsertSorted(x, t[1..], key);
      forall y | y in rest ensures key(t[0]) >= key(y) {
        InsertMember(x, t[1..], key, y);
        if y != x {
          var m :| 0 <= m < |t[1..]| && t[1..][m] == y;
          assert t[m + 1] == y;
        }
      }
      ConsSorted(t[0], rest, key);
    }
  }

  /** Every element of `Insert(x, t, key)` is `x` or an element of `t`. */
  lemma InsertMember<T>(x: T, t: seq<T>, key: T -> real, y: T)
    requires y in Insert(x, t, key)
    ensures y == x || y in t
  {
    assert y in multiset(Insert(x, t, key));
  }

  /** An element whose key is at least every key of a sorted list keeps it sorted. */
  lemma ConsSorted<T>(h: T, rest: seq<T>, key: T -> real)
    requires SortedDesc(rest, key)
    requires forall y :: y in rest ==> key(h) >= key(y)
    ensures SortedDesc([h] + rest, key)
  {
    var r := [h] + rest;
    forall p, q | 0 <= p < q < |r| ensures key(r[p]) >= key(r[q]) {
      assert r[q] == rest[q - 1];
      if p > 0 {
        assert r[p] == rest[p - 1];
      }
    }
  }

  /** The stable descending sort. */
  function SortDesc<T>(s: seq<T>, key: T -> real): (r: seq<T>)
    ensures |r| == |s| && multiset(r) == multiset(s)
    ensures SortedDesc(r, key)
    decreases |s|
  {
    if s == [] then []
    else
      assert s == [s[0]] + s[1..];
      InsertSorted(s[0], SortDesc(s[1..], key), key);
      Insert(s[0], SortDesc(s[1..], key), key)
  }

  /** The subsequence of `s` whose key equals `v`, in order. */
  function WithKey<T>(s: seq<T>, key: T -> real, v: real): (r: seq<T>)
    ensures |r| <= |s|
    decreases |s|
  {
    if s == [] then []
    else (if key(s[0]) == v then [s[0]] else []) + WithKey(s[1..], key, v)
  }

  lemma {:induction false} WithKeyAppend<T>(a: seq<T>, b: seq<T>, key: T -> real, v: real)
    ensures WithKey(a + b, key, v) == WithKey(a, key, v) + WithKey(b, key, v)
    decreases |a|
  {
    if a == [] {
      assert a + b == b;
    } else {
      var head := if key(a[0]) == v then [a[0]] else [];
      assert (a + b)[0] == a[0] && (a + b)[1..] == a[1..] + b;
      calc {
        WithKey(a + b, key, v);
        head + WithKey(a[1..] + b, key, v);
        { WithKeyAppend(a[1..], b, key, v); }
        head + (WithKey(a[1..], key, v) + WithKey(b, key, v));
        (head + WithKey(a[1..], key, v)) + WithKey(b, key, v);
        WithKey(a, key, v) + WithKey(b, key, v);
      }
    }
  }

  lemma {:induction false} InsertStable<T>(x: T, t: seq<T>, key: T -> real, v: real)
    ensures WithKey(Insert(x, t, key), key, v) == WithKey([x] + t, key, v)
    decreases |t|
  {
    if t == [] || key(x) >= key(t[0]) {
    } else {
      var rest := Insert(x, t[1..], key);
      var r := Insert(x, t, key);
      assert r == [t[0]] + rest;
      assert r[0] == t[0] && r[1..] == rest;
      var xt := [x] + t[1..];
      assert xt[0] == x && xt[1..] == t[1..];
      var xtt := [x] + t;
      assert xtt[0] == x && xtt[1..] == t;
      InsertStable(x, t[1..], key, v);
      // `t[0]` has the greater key, so at most one of `x` and `t[0]` has key `v`.
      assert key(x) != v || key(t[0]) != v;
    }
  }

  /** Stability: for every key value, the elements carrying it appear in the
      sorted sequence in exactly the order they had before sorting. */
  lemma {:induction false} SortDescStable<T>(s: seq<T>, key: T -> real, v: real)
    ensures WithKey(SortDesc(s, key), key, v) == WithKey(s, key, v)
    decreases |s|
  {
    if s != [] {
      var t := SortDesc(s[1..], key);
      assert s == [s[0]] + s[1..];
      calc {
        WithKey(SortDesc(s, key), key, v);
        WithKey(Insert(s[0], t, key), key, v);
        { InsertStable(s[0], t, key, v); }
        WithKey([s[0]] + t, key, v);
        { WithKeyAppend([s[0]], t, key, v); }
        WithKey([s[0]], key, v) + WithKey(t, key, v);
        { SortDescStable(s[1..], key, v); }
        WithKey([s[0]], key, v) + WithKey(s[1..], key, v);
        { WithKeyAppend([s[0]], s[1..], key, v); }
        WithKey(s, key, v);
      }
    }
  }

  /** `s` lists its elements in strictly increasing `rank`. */
  predicate RankIncreasing<T>(s: seq<T>, rank: T -> int)
  {
    forall p, q :: 0 <= p < q < |s| ==> rank(s[p]) < rank(s[q])
  }

  /** Ordered by descending key, and by ascending rank among equal keys. */
  predicate SortedDescThenRank<T>(s: seq<T>, key: T -> real, rank: T -> int)
  {
    forall p, q :: 0 <= p < q < |s| ==>
      key(s[p]) > key(s[q]) || (key(s[p]) == key(s[q]) && rank(s[p]) < rank(s[q]))
  }

  lemma {:induction false} InsertThenRank<T>(x: T, t: seq<T>, key: T -> real, rank: T -> int)
    requires SortedDescThenRank(t, key, rank)
    requires forall y :: y in t ==> rank(x) < rank(y)
    ensures SortedDescThenRank(Insert(x, t, key), key, rank)
    decreases |t|
  {
    if t == [] || key(x) >= key(t[0]) {
      InsertFrontThenRank(x, t, key, rank);
    } else {
      forall y | y in t[1..] ensures rank(x) < rank(y) {
        var m :| 0 <= m < |t[1..]| && t[1..][m] == y;
        assert y == t[m + 1];
      }
      InsertThenRank(x, t[1..], key, rank);
      InsertBehindThenRank(x, t, key, rank);
    }
  }

  /** `x` goes in front: its key is at least the first key, and its rank is lower than all. */
  lemma InsertFrontThenRank<T>(x: T, t: seq<T>, key: T -> real, rank: T -> int)
    requires t == [] || key(x) >= key(t[0])
    requires SortedDescThenRank(t, key, rank)
    requires forall y :: y in t ==> rank(x) < rank(y)
    ensures SortedDescThenRank(Insert(x, t, key), key, rank)
  {
    var r := Insert(x, t, key);
    assert r == [x] + t;
    forall p, q | 0 <= p < q < |r|
      ensures key(r[p]) > key(r[q]) || (key(r[p]) == key(r[q]) && rank(r[p]) < rank(r[q]))
    {
      if p == 0 {
        assert r[q] == t[q - 1] && t[q - 1] in t;
        if q > 1 { assert key(t[0]) >= key(t[q - 1]); }
      } else {
        assert r[p] == t[p - 1] && r[q] == t[q - 1];
      }
    }
  }

  /** `x` goes behind the first element, whose key is greater. */
  lemma InsertBehindThenRank<T>(x: T, t: seq<T>, key: T -> real, rank: T -> int)
    requires t != [] && key(x) < key(t[0])
    requires SortedDescThenRank(t, key, rank)
    requires SortedDescThenRank(Insert(x, t[1..], key), key, rank)
    ensures SortedDescThenRank(Insert(x, t, key), key, rank)
  {
    var rest := Insert(x, t[1..], key);
    assert Insert(x, t, key) == [t[0]] + rest;
    forall y | y in rest ensures key(t[0]) > key(y) || (key(t[0]) == key(y) && rank(t[0]) < rank(y)) {
      InsertMember(x, t[1..], key, y);
      if y != x {
        assert y in t[1..];
        var m :| 0 <= m < |t[1..]| && t[1..][m] == y;
        assert t[m + 1] == y;
      }
    }
    ConsThenRank(t[0], rest, key, rank);
  }

  /** An element ahead of everything in a sorted list keeps it sorted. */
  lemma ConsThenRank<T>(h: T, rest: seq<T>, key: T -> real, rank: T -> int)
    requires SortedDescThenRank(rest, key, rank)
    requires forall y :: y in rest ==> key(h) > key(y) || (key(h) == key(y) && rank(h) < rank(y))
    ensures SortedDescThenRank([h] + rest, key, rank)
  {
    var r := [h] + rest;
    forall p, q | 0 <= p < q < |r|
      ensures key(r[p]) > key(r[q]) || (key(r[p]) == key(r[q]) && rank(r[p]) < rank(r[q]))
    {
      assert r[q] == rest[q - 1];
      if p > 0 {
        assert r[p] == rest[p - 1];
      }
    }
  }

  /** When the input is listed in strictly increasing rank (for instance in order
      of first appearance), the stable sort orders equal keys by that rank. */
  lemma {:induction false} SortDescThenRank<T>(s: seq<T>, key: T -> real, rank: T -> int)
    requires RankIncreasing(s, rank)
    ensures SortedDescThenRank(SortDesc(s, key), key, rank)
    decreases |s|
  {
    if s != [] {
      SortDescThenRank(s[1..], key, rank);
      var t := SortDesc(s[1..], key);
      forall y | y in t ensures rank(s[0]) < rank(y) {
        assert y in multiset(t);
        assert y in s[1..];
        var m :| 0 <= m < |s[1..]| && s[1..][m] == y;
        assert s[m + 1] == y;
      }
      InsertThenRank(s[0], t, key, rank);
    }
  }

  /** No two elements of `s` agree on `f`. */
  predicate Injective<T, U(==)>(s: seq<T>, f: T -> U)
  {
    forall p, q :: 0 <= p < q < |s| ==> f(s[p]) != f(s[q])
  }

  lemma {:induction false} InsertInjective<T, U>(x: T, t: seq<T>, key: T -> real, f: T -> U)
    requires Injective(t, f) && forall y :: y in t ==> f(y) != f(x)
    ensures Injective(Insert(x, t, key), f)
    decreases |t|
  {
    if t == [] || key(x) >= key(t[0]) {
      ConsInjective(x, t, f);
    } else {
      assert Injective(t[1..], f) by {
        forall p, q | 0 <= p < q < |t[1..]| ensures f(t[1..][p]) != f(t[1..][q]) {
          assert t[1..][p] == t[p + 1] && t[1..][q] == t[q + 1];
        }
      }
      InsertInjective(x, t[1..], key, f);
      var rest := Insert(x, t[1..], key);
      forall y | y in rest ensures f(y) != f(t[0]) {
        InsertMember(x, t[1..], key, y);
        if y != x {
          var m :| 0 <= m < |t[1..]| && t[1..][m] == y;
          assert t[m + 1] == y;
        } else {
          assert t[0] in t;
        }
      }
      ConsInjective(t[0], rest, f);
    }
  }

  /** An element whose image differs from every other keeps a list injective. */
  lemma ConsInjective<T, U>(h: T, rest: seq<T>, f: T -> U)
    requires Injective(rest, f) && forall y :: y in rest ==> f(y) != f(h)
    ensures Injective([h] + rest, f)
  {
    var r := [h] + rest;
    forall p, q | 0 <= p < q < |r| ensures f(r[p]) != f(r[q]) {
      assert r[q] == rest[q - 1];
      if p > 0 {
        assert r[p] == rest[p - 1];
      }
    }
  }

  /** Sorting keeps elements that are distinct under `f` distinct. */
  lemma {:induction false} SortDescInjective<T, U>(s: seq<T>, key: T -> real, f: T -> U)
    requires Injective(s, f)
    ensures Injective(SortDesc(s, key), f)
    decreases |s|
  {
    if s != [] {
      assert Injective(s[1..], f) by {
        forall p, q | 0 <= p < q < |s[1..]| ensures f(s[1..][p]) != f(s[1..][q]) {
          assert s[1..][p] == s[p + 1] && s[1..][q] == s[q + 1];
        }
      }
      SortDescInjective(s[1..], key, f);
      var t := SortDesc(s[1..], key);
      forall y | y in t ensures f(y) != f(s[0]) {
        assert y in multiset(t);
        assert y in s[1..];
        var m :| 0 <= m < |s[1..]| && s[1..][m] == y;
        assert s[m + 1] == y;
      }
      InsertInjective(s[0], t, key, f);
    }
  }

  /** A prefix of a sorted sequence is sorted, and everything after it has a
      key no greater than any key in it. */
  lemma SortedPrefixIsTop<T>(s: seq<T>, key: T -> real, m: nat)
    requires SortedDesc(s, key) && m <= |s|
    ensures SortedDesc(s[..m], key)
    ensures multiset(s) - multiset(s[..m]) == multiset(s[m..])
    ensures forall x :: x in multiset(s[m..]) ==> forall k :: 0 <= k < m ==> key(x) <= key(s[k])
  {
    assert s == s[..m] + s[m..];
    forall x | x in multiset(s[m..]) ensures forall k :: 0 <= k < m ==> key(x) <= key(s[k]) {
      var j :| 0 <= j < |s[m..]| && s[m..][j] == x;
      assert x == s[m + j];
    }
  }
}
