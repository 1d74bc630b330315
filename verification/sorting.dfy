/** Ordering helpers: JavaScript's `Array.prototype.sort` with a descending numeric comparator
    (`(a, b) => key(b) - key(a)`), which is a stable sort, and a random shuffle driven by
    explicit choices. */
module Sorting {
  import opened Seqs

  /** Non-increasing by `key`. */
  predicate SortedDesc<T>(s: seq<T>, key: T -> real)
  {
    forall i, j :: 0 <= i < j < |s| ==> key(s[i]) >= key(s[j])
  }

  /** Inserts `x` after every element whose key is strictly larger, so that `x` precedes
      the elements of `s` with an equal key. */
  function InsertDesc<T(!new)>(x: T, s: seq<T>, key: T -> real): (r: seq<T>)
    ensures |r| == |s| + 1
    ensures multiset(r) == multiset(s) + multiset{x}
    ensures forall y :: y in r <==> y == x || y in s
    ensures SortedDesc(s, key) ==> SortedDesc(r, key)
  {
    if |s| == 0 then [x]
    else if key(s[0]) > key(x) then
      var rest := InsertDesc(x, s[1..], key);
      InsertBehind(x, s, rest, key);
      [s[0]] + rest
    else
      assert SortedDesc(s, key) ==> SortedDesc([x] + s, key) by {
        if SortedDesc(s, key) {
          ConsSorted(x, s, key);
        }
      }
      [x] + s
  }

  /** Keeping the larger head in front of the tail with `x` inserted keeps the contents and,
      for a sorted input, the order. */
  lemma InsertBehind<T>(x: T, s: seq<T>, rest: seq<T>, key: T -> real)
    requires |s| > 0 && key(s[0]) > key(x)
    requires multiset(rest) == multiset(s[1..]) + multiset{x}
    requires forall y :: y in rest <==> y == x || y in s[1..]
    requires SortedDesc(s[1..], key) ==> SortedDesc(rest, key)
    ensures multiset([s[0]] + rest) == multiset(s) + multiset{x}
    ensures forall y :: y in [s[0]] + rest <==> y == x || y in s
    ensures SortedDesc(s, key) ==> SortedDesc([s[0]] + rest, key)
  {
    assert s == [s[0]] + s[1..];
    if SortedDesc(s, key) {
      assert SortedDesc(s[1..], key);
      assert forall y :: y in rest ==> key(y) <= key(s[0]);
      ConsSorted(s[0], rest, key);
    }
  }

  /** A head no smaller than every element of a sorted tail keeps the list sorted. */
  lemma ConsSorted<T>(h: T, t: seq<T>, key: T -> real)
    requires SortedDesc(t, key) && forall y :: y in t ==> key(y) <= key(h)
    ensures SortedDesc([h] + t, key)
  {
    var r := [h] + t;
    forall i, j | 0 <= i < j < |r| ensures key(r[i]) >= key(r[j]) {
      assert r[j] == t[j - 1];
      if i > 0 {
        assert r[i] == t[i - 1];
      }
    }
  }

  /** Stable sort by non-increasing key. */
  function SortDesc<T(!new)>(s: seq<T>, key: T -> real): (r: seq<T>)
    ensures |r| == |s|
    ensures multiset(r) == multiset(s)
    ensures forall y :: y in r <==> y in s
    ensures SortedDesc(r, key)
  {
    if |s| == 0 then []
    else
      assert s == [s[0]] + s[1..];
      InsertDesc(s[0], SortDesc(s[1..], key), key)
  }

  /** The elements of `s` whose key is `v`, in order. */
  function WithKey<T(!new)>(s: seq<T>, key: T -> real, v: real): (r: seq<T>)
    ensures forall y :: y in r <==> y in s && key(y) == v
  {
    Filter(s, y => key(y) == v)
  }

  lemma {:induction false} WithKeyCons<T(!new)>(x: T, s: seq<T>, key: T -> real, v: real)
    ensures WithKey([x] + s, key, v) == if key(x) == v then [x] + WithKey(s, key, v) else WithKey(s, key, v)
  {
    assert ([x] + s)[0] == x;
    assert ([x] + s)[1..] == s;
  }

  lemma {:induction false} InsertStable<T(!new)>(x: T, s: seq<T>, key: T -> real, v: real)
    ensures WithKey(InsertDesc(x, s, key), key, v) == WithKey([x] + s, key, v)
  {
    if |s| > 0 && key(s[0]) > key(x) {
      var rest := InsertDesc(x, s[1..], key);
      assert InsertDesc(x, s, key) == [s[0]] + rest;
      var tail := WithKey(s[1..], key, v);
      InsertStable(x, s[1..], key, v);
      WithKeyCons(x, s[1..], key, v);
      assert WithKey(rest, key, v) == if key(x) == v then [x] + tail else tail;
      WithKeyCons(s[0], rest, key, v);
      assert s == [s[0]] + s[1..];
      WithKeyCons(s[0], s[1..], key, v);
      WithKeyCons(x, s, key, v);
      if key(s[0]) == v {
        assert WithKey([x] + s, key, v) == WithKey(s, key, v) == [s[0]] + tail;
      } else if key(x) == v {
        assert WithKey([s[0]] + rest, key, v) == [x] + tail;
      }
    } else {
      assert InsertDesc(x, s, key) == [x] + s;
    }
  }

  /** The sort is stable: among elements with equal keys, the input order is kept. */
  lemma {:induction false} SortDescStable<T(!new)>(s: seq<T>, key: T -> real, v: real)
    ensures WithKey(SortDesc(s, key), key, v) == WithKey(s, key, v)
  {
    if |s| > 0 {
      SortDescStable(s[1..], key, v);
      InsertStable(s[0], SortDesc(s[1..], key), key, v);
      WithKeyCons(s[0], SortDesc(s[1..], key), key, v);
      assert s == [s[0]] + s[1..];
      WithKeyCons(s[0], s[1..], key, v);
    }
  }

  /** The head of a sorted arrangement carries the largest key. */
  lemma SortedHeadIsMax<T(!new)>(s: seq<T>, key: T -> real)
    requires |s| > 0
    ensures forall c :: c in s ==> key(c) <= key(SortDesc(s, key)[0])
  {
    var sorted := SortDesc(s, key);
    forall c | c in s ensures key(c) <= key(sorted[0]) {
      assert c in sorted;
      var j :| 0 <= j < |sorted| && sorted[j] == c;
    }
  }

  lemma SortedPrefix<T>(s: seq<T>, key: T -> real, k: nat)
    requires k <= |s| && SortedDesc(s, key)
    ensures SortedDesc(s[..k], key)
  {
  }

  /** Taking the first `k` elements of a sorted arrangement of `s` keeps the best: every
      element of `s` left out scores no higher than any element kept. */
  lemma TopOfSorted<T(!new)>(s: seq<T>, key: T -> real, k: nat, x: T, y: T)
    requires k <= |s|
    requires x in s && x !in SortDesc(s, key)[..k]
    requires y in SortDesc(s, key)[..k]
    ensures key(y) >= key(x)
  {
    var sorted := SortDesc(s, key);
    assert x in sorted;
    var j :| 0 <= j < |sorted| && sorted[j] == x;
    var i :| 0 <= i < k && sorted[..k][i] == y;
  }

  /** The arrangement produced by a random shuffle, as a sequence of selections: draw `c`
      picks the element at `c mod n` among the `n` not yet placed. */
  function Shuffle<T>(s: seq<T>, choices: seq<nat>): (r: seq<T>)
    ensures |r| == |s|
    ensures multiset(r) == multiset(s)
    decreases |s|
  {
    if |s| == 0 then []
    else
      var k := FirstDraw(choices) % |s|;
      var rest := s[..k] + s[k + 1..];
      assert s == s[..k] + [s[k]] + s[k + 1..];
      [s[k]] + Shuffle(rest, if |choices| == 0 then [] else choices[1..])
  }

  function FirstDraw(choices: seq<nat>): nat
  {
    if |choices| == 0 then 0 else choices[0]
  }
}
