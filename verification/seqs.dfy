/** Sequence and string helpers shared by every part of the model:
    filtering, subsequences, substring search (JavaScript's `String.prototype.includes`),
    decimal rendering and parsing, and splitting on a separator character. */
module Seqs {

  function Min(a: int, b: int): (r: int)
    ensures r <= a && r <= b && (r == a || r == b)
  {
    if a <= b then a else b
  }

  lemma ModOfSmaller(k: int, n: int)
    requires 0 <= k < n
    ensures k % n == k
  {
  }

  /** `r` is obtained from `s` by deleting some elements, keeping the order of the rest. */
  predicate IsSubsequence<T(==)>(r: seq<T>, s: seq<T>)
    decreases |s|
  {
    if |r| == 0 then true
    else if |s| == 0 then false
    else if r[0] == s[0] then IsSubsequence(r[1..], s[1..])
    else IsSubsequence(r, s[1..])
  }

  /** JavaScript's `Array.prototype.filter`. */
  function Filter<T(!new)>(s: seq<T>, p: T -> bool): (r: seq<T>)
    ensures |r| <= |s|
    ensures forall x :: x in r <==> x in s && p(x)
    ensures forall x :: multiset(r)[x] == if p(x) then multiset(s)[x] else 0
    ensures IsSubsequence(r, s)
  {
    if |s| == 0 then []
    else
      var rest := Filter(s[1..], p);
      assert s == [s[0]] + s[1..];
      if p(s[0]) then
        assert ([s[0]] + rest)[1..] == rest;
        [s[0]] + rest
      else
        // the first kept element passes `p`, so it is not the dropped head
        assert |rest| > 0 ==> rest[0] in rest && rest[0] != s[0];
        rest
  }

  /** The head of a filtered sequence is the first element that passes: every element before
      it fails. */
  lemma {:induction false} FilterHeadIsFirst<T(!new)>(s: seq<T>, p: T -> bool)
    requires |Filter(s, p)| > 0
    ensures exists k :: 0 <= k < |s| && s[k] == Filter(s, p)[0] && p(s[k])
                        && forall j :: 0 <= j < k ==> !p(s[j])
  {
    var t := s[1..];
    if p(s[0]) {
      assert Filter(s, p) == [s[0]] + Filter(t, p);
    } else {
      assert Filter(s, p) == Filter(t, p);
      FilterHeadIsFirst(t, p);
      var k :| 0 <= k < |t| && t[k] == Filter(t, p)[0] && p(t[k]) && forall j :: 0 <= j < k ==> !p(t[j]);
      ShiftedFirst(s, p, k);
    }
  }

  /** A first passing element of the tail, after a failing head, is first in the whole. */
  lemma ShiftedFirst<T>(s: seq<T>, p: T -> bool, k: nat)
    requires 0 < |s| && !p(s[0]) && k < |s| - 1
    requires forall j :: 0 <= j < k ==> !p(s[1..][j])
    ensures forall j :: 0 <= j < k + 1 ==> !p(s[j])
  {
    forall j | 0 <= j < k + 1 ensures !p(s[j]) {
      if j > 0 { assert s[j] == s[1..][j - 1]; }
    }
  }

  lemma FilterAppend<T(!new)>(a: seq<T>, b: seq<T>, p: T -> bool)
    ensures Filter(a + b, p) == Filter(a, p) + Filter(b, p)
  {
    if |a| == 0 {
      assert a + b == b;
    } else {
      assert (a + b)[1..] == a[1..] + b;
      FilterAppend(a[1..], b, p);
    }
  }

  /** Filtering with a weaker predicate keeps at least as many elements. */
  lemma {:induction false} FilterLengthMonotone<T(!new)>(s: seq<T>, p: T -> bool, q: T -> bool)
    requires forall x :: x in s && p(x) ==> q(x)
    ensures |Filter(s, p)| <= |Filter(s, q)|
  {
    if |s| > 0 {
      FilterLengthMonotone(s[1..], p, q);
    }
  }

  /** Every element of `s` passes `p` exactly when filtering keeps everything. */
  lemma {:induction false} FilterKeepsAll<T(!new)>(s: seq<T>, p: T -> bool)
    ensures |Filter(s, p)| == |s| <==> forall x :: x in s ==> p(x)
  {
    if |s| > 0 {
      FilterKeepsAll(s[1..], p);
      assert s[0] in s;
      if |Filter(s[1..], p)| < |s[1..]| {
        assert exists x :: x in s[1..] && !p(x);
        var x :| x in s[1..] && !p(x);
        assert x in s;
      }
    }
  }

  /** A prefix holds no more of any element than the whole sequence. */
  lemma PrefixIncluded<T>(s: seq<T>, k: nat)
    requires k <= |s|
    ensures multiset(s[..k]) <= multiset(s)
    ensures forall x :: x in s[..k] ==> x in s
  {
    assert s == s[..k] + s[k..];
    assert multiset(s) == multiset(s[..k]) + multiset(s[k..]);
  }

  /** No element occurs twice. */
  predicate NoDup<T(==)>(s: seq<T>)
  {
    forall i, j :: 0 <= i < j < |s| ==> s[i] != s[j]
  }

  /** No element occurs twice exactly when every multiplicity is at most one. */
  lemma {:induction false} NoDupCounts<T>(s: seq<T>)
    ensures NoDup(s) <==> forall x :: multiset(s)[x] <= 1
  {
    if |s| > 0 {
      var t := s[1..];
      NoDupCounts(t);
      assert s == [s[0]] + t;
      assert multiset(s) == multiset{s[0]} + multiset(t);
      if NoDup(s) {
        assert NoDup(t) by {
          forall i, j | 0 <= i < j < |t| ensures t[i] != t[j] {
            assert t[i] == s[i + 1] && t[j] == s[j + 1];
          }
        }
        assert s[0] !in t;
      }
      if forall x :: multiset(s)[x] <= 1 {
        assert forall x :: multiset(t)[x] <= multiset(s)[x];
        assert multiset(t)[s[0]] == 0;
        forall i, j | 0 <= i < j < |s| ensures s[i] != s[j] {
          if i == 0 {
            assert s[j] == t[j - 1];
          } else {
            assert s[i] == t[i - 1] && s[j] == t[j - 1];
          }
        }
      }
    }
  }

  /** Rearranging keeps elements distinct. */
  lemma NoDupPermutation<T>(a: seq<T>, b: seq<T>)
    requires multiset(a) == multiset(b) && NoDup(a)
    ensures NoDup(b)
  {
    NoDupCounts(a);
    NoDupCounts(b);
  }

  /** Filtering keeps elements distinct. */
  lemma NoDupFilter<T(!new)>(s: seq<T>, p: T -> bool)
    requires NoDup(s)
    ensures NoDup(Filter(s, p))
  {
    NoDupCounts(s);
    NoDupCounts(Filter(s, p));
  }

  /** Fewer entries in `used` than distinct entries in `pool` leaves one of `pool` unused. */
  lemma {:induction false} Pigeonhole<T>(pool: seq<T>, used: seq<T>)
    requires NoDup(pool) && |pool| > |used|
    ensures exists x :: x in pool && x !in used
    decreases |used|
  {
    if pool[0] in used {
      var k :| 0 <= k < |used| && used[k] == pool[0];
      var rest := used[..k] + used[k + 1..];
      assert used == used[..k] + [used[k]] + used[k + 1..];
      assert NoDup(pool[1..]) by {
        forall i, j | 0 <= i < j < |pool[1..]| ensures pool[1..][i] != pool[1..][j] {
          assert pool[1..][i] == pool[i + 1] && pool[1..][j] == pool[j + 1];
        }
      }
      Pigeonhole(pool[1..], rest);
      var x :| x in pool[1..] && x !in rest;
      assert x != pool[0] by {
        var j :| 0 <= j < |pool[1..]| && pool[1..][j] == x;
        assert pool[j + 1] == x;
      }
      assert x in pool;
    } else {
      assert pool[0] in pool;
    }
  }

  /** The element at `i` of `s` is `x`: lets a quantifier hang on a named term. */
  predicate IndexOf<T(==)>(s: seq<T>, i: int, x: T)
  {
    0 <= i < |s| && s[i] == x
  }

  // ---------------------------------------------------------------- strings

  predicate OccursAt(s: string, sub: string, i: int)
  {
    0 <= i && i + |sub| <= |s| && s[i..i + |sub|] == sub
  }

  /** JavaScript's `s.includes(sub)`: `sub` occurs somewhere in `s`. */
  predicate Contains(s: string, sub: string)
    decreases |s|
  {
    if |sub| > |s| then false
    else s[..|sub|] == sub || Contains(s[1..], sub)
  }

  lemma {:induction false} ContainsMeansOccurs(s: string, sub: string)
    ensures Contains(s, sub) <==> exists i :: OccursAt(s, sub, i)
    decreases |s|
  {
    if |sub| > |s| {
    } else if s[..|sub|] == sub {
      assert OccursAt(s, sub, 0);
    } else {
      ContainsMeansOccurs(s[1..], sub);
      if exists i :: OccursAt(s[1..], sub, i) {
        var i :| OccursAt(s[1..], sub, i);
        assert s[i + 1..i + 1 + |sub|] == s[1..][i..i + |sub|];
        assert OccursAt(s, sub, i + 1);
      }
      if exists i :: OccursAt(s, sub, i) {
        var i :| OccursAt(s, sub, i);
        assert i != 0;
        assert s[1..][i - 1..i - 1 + |sub|] == s[i..i + |sub|];
        assert OccursAt(s[1..], sub, i - 1);
      }
    }
  }

  /** Some keyword of `keys` occurs in `s` (the source's `keys.some(k => s.includes(k))`). */
  predicate ContainsAny(s: string, keys: seq<string>)
  {
    exists k :: k in keys && Contains(s, k)
  }

  // --------------------------------------------------------- decimal digits

  predicate IsDigit(c: char)
  {
    '0' <= c <= '9'
  }

  predicate AllDigits(s: string)
  {
    forall i :: 0 <= i < |s| ==> IsDigit(s[i])
  }

  function DigitChar(d: nat): (c: char)
    requires d < 10
    ensures IsDigit(c) && (c as int) - ('0' as int) == d
  {
    ('0' as int + d) as char
  }

  /** JavaScript's `String(n)` for a non-negative integer. */
  function NatToString(n: nat): (s: string)
    ensures |s| >= 1 && AllDigits(s)
    ensures n >= 10 <==> |s| >= 2
  {
    if n < 10 then [DigitChar(n)] else NatToString(n / 10) + [DigitChar(n % 10)]
  }

  /** The value of a string of decimal digits (the empty string reads as 0, as `Number("")` does). */
  function DigitsValue(s: string): (n: nat)
    requires AllDigits(s)
  {
    if |s| == 0 then 0
    else DigitsValue(s[..|s| - 1]) * 10 + ((s[|s| - 1] as int) - ('0' as int))
  }

  /** Rendering a number in decimal and reading it back gives the number. */
  lemma {:induction false} NatToStringRoundTrip(n: nat)
    ensures DigitsValue(NatToString(n)) == n
  {
    if n >= 10 {
      var s := NatToString(n);
      assert s[..|s| - 1] == NatToString(n / 10);
      NatToStringRoundTrip(n / 10);
    }
  }

  /** Left padding with '0' to width 2 (`padStart(2, '0')`). */
  function PadTwo(s: string): (r: string)
    ensures |r| == if |s| < 2 then 2 else |s|
    ensures AllDigits(s) ==> AllDigits(r)
    ensures AllDigits(s) ==> DigitsValue(r) == DigitsValue(s)
  {
    if |s| == 0 then "00"
    else if |s| == 1 then
      assert ("0" + s)[..1] == "0";
      "0" + s
    else s
  }

  // --------------------------------------------------------------- splitting

  /** Pieces joined back with the separator between them. */
  function Join(pieces: seq<string>, sep: char): string
  {
    if |pieces| == 0 then ""
    else if |pieces| == 1 then pieces[0]
    else pieces[0] + [sep] + Join(pieces[1..], sep)
  }

  /** JavaScript's `s.split(sep)` for a one-character separator. */
  function Split(s: string, sep: char): (r: seq<string>)
    ensures |r| >= 1
    decreases |s|
  {
    if |s| == 0 then [""]
    else if s[0] == sep then [""] + Split(s[1..], sep)
    else
      var rest := Split(s[1..], sep);
      [[s[0]] + rest[0]] + rest[1..]
  }

  /** Splitting is undone by joining: the pieces, glued back with the separator, give
      the original text, and no piece contains the separator. */
  lemma {:induction false} SplitJoin(s: string, sep: char)
    ensures Join(Split(s, sep), sep) == s
    ensures forall i :: 0 <= i < |Split(s, sep)| ==> sep !in Split(s, sep)[i]
    decreases |s|
  {
    if |s| > 0 {
      SplitJoin(s[1..], sep);
      assert s == [s[0]] + s[1..];
      if s[0] == sep {
        SplitJoinAtSep(s, sep);
      } else {
        SplitJoinAtChar(s, sep);
      }
    }
  }

  /** The step of `SplitJoin` for text that starts with the separator. */
  lemma SplitJoinAtSep(s: string, sep: char)
    requires |s| > 0 && s[0] == sep
    requires Join(Split(s[1..], sep), sep) == s[1..]
    requires forall i :: 0 <= i < |Split(s[1..], sep)| ==> sep !in Split(s[1..], sep)[i]
    ensures Join(Split(s, sep), sep) == s
    ensures forall i :: 0 <= i < |Split(s, sep)| ==> sep !in Split(s, sep)[i]
  {
    var rest := Split(s[1..], sep);
    var r := Split(s, sep);
    assert s == [s[0]] + s[1..];
    assert r == [""] + rest;
    assert r[0] == "" && r[1..] == rest;
    assert Join(r, sep) == r[0] + [sep] + Join(rest, sep);
    assert Join(r, sep) == [sep] + s[1..];
    forall i | 0 <= i < |r| ensures sep !in r[i] {
      if i > 0 { assert r[i] == rest[i - 1]; }
    }
  }

  /** The step of `SplitJoin` for text that starts with another character. */
  lemma SplitJoinAtChar(s: string, sep: char)
    requires |s| > 0 && s[0] != sep
    requires Join(Split(s[1..], sep), sep) == s[1..]
    requires forall i :: 0 <= i < |Split(s[1..], sep)| ==> sep !in Split(s[1..], sep)[i]
    ensures Join(Split(s, sep), sep) == s
    ensures forall i :: 0 <= i < |Split(s, sep)| ==> sep !in Split(s, sep)[i]
  {
    var rest := Split(s[1..], sep);
    assert Split(s, sep) == [[s[0]] + rest[0]] + rest[1..];
    JoinGlued(s[0], rest, sep);
    assert s == [s[0]] + s[1..];
    GluedPieces(s[0], rest, sep);
  }

  /** Gluing a character to the first piece glues it to the joined text. */
  lemma JoinGlued(c: char, rest: seq<string>, sep: char)
    requires |rest| > 0
    ensures Join([[c] + rest[0]] + rest[1..], sep) == [c] + Join(rest, sep)
  {
    var r := [[c] + rest[0]] + rest[1..];
    if |rest| > 1 {
      assert r[1..] == rest[1..];
    }
  }

  /** Gluing a character other than the separator to the first piece keeps every piece free
      of the separator. */
  lemma GluedPieces(c: char, rest: seq<string>, sep: char)
    requires |rest| > 0 && c != sep
    requires forall i :: 0 <= i < |rest| ==> sep !in rest[i]
    ensures var r := [[c] + rest[0]] + rest[1..];
            forall i :: 0 <= i < |r| ==> sep !in r[i]
  {
    var r := [[c] + rest[0]] + rest[1..];
    forall i | 0 <= i < |r| ensures sep !in r[i] {
      if i > 0 { assert r[i] == rest[i]; }
      else { assert sep !in rest[0]; }
    }
  }

  /** Splitting text whose first piece has no separator peels that piece off. */
  lemma {:induction false} SplitPrefix(a: string, sep: char, t: string)
    requires sep !in a
    ensures Split(a + [sep] + t, sep) == [a] + Split(t, sep)
    decreases |a|
  {
    if |a| == 0 {
      assert a + [sep] + t == [sep] + t;
      assert ([sep] + t)[1..] == t;
    } else {
      assert (a + [sep] + t)[1..] == a[1..] + [sep] + t;
      SplitPrefix(a[1..], sep, t);
      assert [a[0]] + a[1..] == a;
    }
  }

  /** Three separator-free pieces joined by the separator split back into those pieces. */
  lemma SplitThree(a: string, b: string, c: string, sep: char)
    requires sep !in a && sep !in b && sep !in c
    ensures Split(a + [sep] + b + [sep] + c, sep) == [a, b, c]
  {
    assert a + [sep] + b + [sep] + c == a + [sep] + (b + [sep] + c);
    SplitPrefix(a, sep, b + [sep] + c);
    SplitPrefix(b, sep, c);
    SplitWhole(c, sep);
  }

  lemma {:induction false} SplitWhole(a: string, sep: char)
    requires sep !in a
    ensures Split(a, sep) == [a]
    decreases |a|
  {
    if |a| > 0 {
      SplitWhole(a[1..], sep);
      assert [a[0]] + a[1..] == a;
    }
  }
}
