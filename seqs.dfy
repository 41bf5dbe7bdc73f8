/** Sequence operations the routes are built from: `filter`, `findIndex`,
    `splice(i, 1)`, `Math.max(...ids) + 1` and `reduce` for sums. */
module Seqs {

  /** `s.filter(p)`. */
  function Filter<T>(s: seq<T>, p: T -> bool): (r: seq<T>)
    ensures |r| <= |s|
    ensures forall i :: 0 <= i < |r| ==> r[i] in s && p(r[i])
    ensures forall i :: 0 <= i < |s| && p(s[i]) ==> s[i] in r
    decreases |s|
  {
    if s == [] then []
    else (if p(s[0]) then [s[0]] else []) + Filter(s[1..], p)
  }

  /** Filtering a concatenation filters each part, so `filter` keeps the order. */
  lemma {:induction false} FilterAppend<T>(a: seq<T>, b: seq<T>, p: T -> bool)
    ensures Filter(a + b, p) == Filter(a, p) + Filter(b, p)
    decreases |a|
  {
    if a != [] {
      assert (a + b)[0] == a[0] && (a + b)[1..] == a[1..] + b;
      FilterAppend(a[1..], b, p);
      var head: seq<T> := if p(a[0]) then [a[0]] else [];
      assert Filter(a + b, p) == head + (Filter(a[1..], p) + Filter(b, p));
      assert Filter(a, p) == head + Filter(a[1..], p);
      assert head + (Filter(a[1..], p) + Filter(b, p)) == (head + Filter(a[1..], p)) + Filter(b, p);
    } else {
      assert a + b == b;
    }
  }

  /** Filtering a list whose tail has been replaced: if the new tail filters to
      the old tail's result followed by `e`, the whole list does too. */
  lemma FilterReplaceTail<T>(s: seq<T>, t: seq<T>, e: seq<T>, p: T -> bool)
    requires s != []
    requires Filter(t, p) == Filter(s[1..], p) + e
    ensures Filter([s[0]] + t, p) == Filter(s, p) + e
  {
    FilterAppend([s[0]], t, p);
    FilterAppend([s[0]], s[1..], p);
    HeadTail(s);
    ConcatAssoc(Filter([s[0]], p), Filter(s[1..], p), e);
  }

  lemma HeadTail<T>(s: seq<T>)
    requires s != []
    ensures [s[0]] + s[1..] == s
  {
  }

  lemma ConcatAssoc<T>(a: seq<T>, b: seq<T>, c: seq<T>)
    ensures a + (b + c) == (a + b) + c
  {
  }

  /** When every element passes, `filter` returns its input. */
  lemma {:induction false} FilterAll<T>(s: seq<T>, p: T -> bool)
    requires forall i :: 0 <= i < |s| ==> p(s[i])
    ensures Filter(s, p) == s
    decreases |s|
  {
    if s != [] { FilterAll(s[1..], p); }
  }

  /** When no element passes, `filter` returns the empty sequence. */
  lemma {:induction false} FilterNone<T>(s: seq<T>, p: T -> bool)
    requires forall i :: 0 <= i < |s| ==> !p(s[i])
    ensures Filter(s, p) == []
    decreases |s|
  {
    if s != [] { FilterNone(s[1..], p); }
  }

  /** Filtering by `p` and then by `q` is filtering once by their conjunction. */
  lemma {:induction false} FilterTwice<T>(s: seq<T>, p: T -> bool, q: T -> bool, pq: T -> bool)
    requires forall x :: pq(x) == (p(x) && q(x))
    ensures Filter(Filter(s, p), q) == Filter(s, pq)
    decreases |s|
  {
    if s != [] {
      assert s == [s[0]] + s[1..];
      FilterAppend([s[0]], s[1..], p);
      FilterAppend([s[0]], s[1..], pq);
      FilterAppend(Filter([s[0]], p), Filter(s[1..], p), q);
      FilterTwice(s[1..], p, q, pq);
    }
  }

  /** `s.filter(p).length`. */
  function Count<T>(s: seq<T>, p: T -> bool): (n: nat)
    ensures n <= |s|
  {
    |Filter(s, p)|
  }

  /** `s.map(f)`. */
  function Map<T, U>(s: seq<T>, f: T -> U): (r: seq<U>)
    ensures |r| == |s|
    ensures forall i :: 0 <= i < |s| ==> r[i] == f(s[i])
  {
    seq(|s|, i requires 0 <= i < |s| => f(s[i]))
  }

  /** Mapping a concatenation maps each part. */
  lemma MapAppend<T, U>(a: seq<T>, b: seq<T>, f: T -> U)
    ensures Map(a + b, f) == Map(a, f) + Map(b, f)
  {
    var l, r := Map(a + b, f), Map(a, f) + Map(b, f);
    forall i | 0 <= i < |l| ensures l[i] == r[i] {
      if i < |a| { assert (a + b)[i] == a[i]; } else { assert (a + b)[i] == b[i - |a|]; }
    }
  }

  lemma MapPair<T, U>(x: T, y: T, f: T -> U)
    ensures Map([x, y], f) == [f(x), f(y)]
  {
  }

  lemma FilterPair<T>(x: T, y: T, p: T -> bool)
    requires p(x) && p(y)
    ensures Filter([x, y], p) == [x, y]
  {
    FilterAll([x, y], p);
  }

  /** `s.findIndex(p)`: the first position where `p` holds, or -1. */
  function FindIndex<T>(s: seq<T>, p: T -> bool): (i: int)
    ensures -1 <= i < |s|
    ensures 0 <= i ==> p(s[i]) && forall j :: 0 <= j < i ==> !p(s[j])
    ensures i == -1 <==> forall j :: 0 <= j < |s| ==> !p(s[j])
    decreases |s|
  {
    if s == [] then -1
    else if p(s[0]) then 0
    else
      var j := FindIndex(s[1..], p);
      if j < 0 then -1 else j + 1
  }

  /** `s.splice(i, 1)`. */
  function RemoveAt<T>(s: seq<T>, i: nat): (r: seq<T>)
    requires i < |s|
    ensures |r| == |s| - 1
    ensures forall j :: 0 <= j < i ==> r[j] == s[j]
    ensures forall j :: i <= j < |r| ==> r[j] == s[j + 1]
    ensures multiset(r) + multiset{s[i]} == multiset(s)
  {
    assert s == s[..i] + [s[i]] + s[i + 1..];
    s[..i] + s[i + 1..]
  }

  /** `Math.max(...xs)` of a non-empty list. */
  function Max(xs: seq<int>): (m: int)
    requires xs != []
    ensures m in xs
    ensures forall i :: 0 <= i < |xs| ==> xs[i] <= m
    decreases |xs|
  {
    if |xs| == 1 then xs[0]
    else
      var m := Max(xs[1..]);
      assert xs[1..][0] == xs[1];
      if xs[0] >= m then xs[0] else m
  }

  /** `xs.length > 0 ? Math.max(...xs) + 1 : 1`: the id a new record gets. */
  function NextId(xs: seq<int>): (r: int)
    ensures forall i :: 0 <= i < |xs| ==> xs[i] < r
    ensures xs == [] ==> r == 1
    ensures xs != [] ==> r - 1 in xs
    ensures (forall i :: 0 <= i < |xs| ==> xs[i] >= 0) ==> r >= 1
  {
    if xs == [] then 1 else Max(xs) + 1
  }

  /** The id a new element of `s` gets under `Math.max(...ids) + 1`. */
  function NextKey<T>(s: seq<T>, key: T -> int): (r: int)
    ensures forall i :: 0 <= i < |s| ==> key(s[i]) < r
  {
    NextId(Map(s, key))
  }

  /** No two elements share a key. */
  predicate UniqueKeys<T>(s: seq<T>, key: T -> int) {
    forall i, j :: 0 <= i < j < |s| ==> key(s[i]) != key(s[j])
  }

  /** Appending an element under the next key keeps keys unique. */
  lemma AppendNextKeepsUnique<T>(s: seq<T>, key: T -> int, x: T)
    requires UniqueKeys(s, key)
    requires key(x) == NextKey(s, key)
    ensures UniqueKeys(s + [x], key)
  {
    var t := s + [x];
    forall i, j | 0 <= i < j < |t| ensures key(t[i]) != key(t[j]) {
      if j == |s| {
        assert key(t[i]) < NextKey(s, key);
      } else {
        assert t[i] == s[i] && t[j] == s[j];
      }
    }
  }

  /** Removing an element keeps keys unique. */
  lemma RemoveKeepsUnique<T>(s: seq<T>, key: T -> int, i: nat)
    requires i < |s| && UniqueKeys(s, key)
    ensures UniqueKeys(RemoveAt(s, i), key)
  {
    var r := RemoveAt(s, i);
    forall a, b | 0 <= a < b < |r| ensures key(r[a]) != key(r[b]) {
      var a' := if a < i then a else a + 1;
      var b' := if b < i then b else b + 1;
      assert r[a] == s[a'] && r[b] == s[b'];
    }
  }

  /** Filtering keeps keys unique. */
  lemma {:induction false} FilterKeepsUnique<T>(s: seq<T>, key: T -> int, p: T -> bool)
    requires UniqueKeys(s, key)
    ensures UniqueKeys(Filter(s, p), key)
    decreases |s|
  {
    if s != [] {
      FilterKeepsUnique(s[1..], key, p);
      var rest := Filter(s[1..], p);
      if p(s[0]) {
        var r := [s[0]] + rest;
        forall a, b | 0 <= a < b < |r| ensures key(r[a]) != key(r[b]) {
          if a == 0 {
            assert r[b] in s[1..];
            var k :| 0 <= k < |s[1..]| && s[1..][k] == r[b];
            assert s[k + 1] == r[b];
          } else {
            assert r[a] == rest[a - 1] && r[b] == rest[b - 1];
          }
        }
      }
    }
  }

  /** Replacing an element by one with the same key keeps keys unique. */
  lemma UpdateKeepsUnique<T>(s: seq<T>, key: T -> int, i: nat, x: T)
    requires i < |s| && UniqueKeys(s, key) && key(x) == key(s[i])
    ensures UniqueKeys(s[i := x], key)
  {
  }

  /** `xs.reduce((sum, x) => sum + x, 0)`. */
  function Sum(xs: seq<int>): int
    decreases |xs|
  {
    if xs == [] then 0 else xs[0] + Sum(xs[1..])
  }

  /** Sums of pointwise-ordered sequences are ordered. */
  lemma {:induction false} SumMonotone(xs: seq<int>, ys: seq<int>)
    requires |xs| == |ys|
    requires forall i :: 0 <= i < |xs| ==> xs[i] <= ys[i]
    ensures Sum(xs) <= Sum(ys)
    decreases |xs|
  {
    if xs != [] { SumMonotone(xs[1..], ys[1..]); }
  }

  /** A sum of non-negative numbers is non-negative. */
  lemma {:induction false} SumNonNegative(xs: seq<int>)
    requires forall i :: 0 <= i < |xs| ==> 0 <= xs[i]
    ensures 0 <= Sum(xs)
    decreases |xs|
  {
    if xs != [] { SumNonNegative(xs[1..]); }
  }
}
