/**
 * Sequence vocabulary shared by the engine and the client helpers: the
 * `slice(0, n)` cap, order-preserving subsequences, and the first-occurrence
 * de-duplication that both `removeDuplicates` (keyed by lower-cased headline)
 * and `[...new Set(words)]` (keyed by the word itself) perform.
 */
module Seqs {

  /** `s.slice(0, n)`. */
  function Take<T>(s: seq<T>, n: int): seq<T>
  {
    if n <= 0 then [] else if n < |s| then s[..n] else s
  }

  lemma TakeOfPrefixFull<T>(a: seq<T>, b: seq<T>, n: int)
    requires |a| >= n
    ensures Take(a + b, n) == Take(a, n)
  {
  }

  lemma TakeShort<T>(a: seq<T>, n: int)
    requires |a| <= n
    ensures Take(a, n) == a
  {
  }

  /** Appending to a list that is below its cap of `n` more elements. */
  lemma TakeAppendBelowCap<T>(prefix: seq<T>, c: seq<T>, tail: seq<T>, n: int)
    requires |prefix + Take(c, n)| < |prefix| + n
    requires |tail| <= 1
    ensures prefix + Take(c, n) + tail == prefix + Take(c + tail, n)
  {
    assert Take(c, n) == c;
  }

  /** Once a list has reached its cap of `n` more elements, nothing more is appended. */
  lemma TakeAtCap<T>(prefix: seq<T>, c: seq<T>, d: seq<T>, n: int)
    requires |prefix + Take(c, n)| >= |prefix| + n
    ensures prefix + Take(c + d, n) == prefix + Take(c, n)
  {
    if n > 0 {
      TakeOfPrefixFull(c, d, n);
    }
  }

  lemma AppendOneMore<T>(a: seq<T>, b: seq<T>, i: nat)
    requires i < |b|
    ensures a + b[..i + 1] == (a + b[..i]) + [b[i]]
  {
    assert b[..i + 1] == b[..i] + [b[i]];
  }

  /** `a` is `b` with some elements deleted, the rest kept in order. */
  predicate IsSubseq<T(==)>(a: seq<T>, b: seq<T>)
    decreases |b|
  {
    if a == [] then true
    else if b == [] then false
    else (a[|a| - 1] == b[|b| - 1] && IsSubseq(a[..|a| - 1], b[..|b| - 1])) || IsSubseq(a, b[..|b| - 1])
  }

  lemma {:induction false} SubseqMembers<T>(a: seq<T>, b: seq<T>)
    requires IsSubseq(a, b)
    ensures |a| <= |b|
    ensures forall x :: x in a ==> x in b
    decreases |b|
  {
    if a != [] {
      if a[|a| - 1] == b[|b| - 1] && IsSubseq(a[..|a| - 1], b[..|b| - 1]) {
        SubseqMembers(a[..|a| - 1], b[..|b| - 1]);
        assert a == a[..|a| - 1] + [a[|a| - 1]];
        assert b == b[..|b| - 1] + [b[|b| - 1]];
      } else {
        SubseqMembers(a, b[..|b| - 1]);
        assert b == b[..|b| - 1] + [b[|b| - 1]];
      }
    }
  }

  lemma {:induction false} SubseqAppend<T>(a: seq<T>, b: seq<T>, x: T, keep: bool)
    requires IsSubseq(a, b)
    ensures IsSubseq(if keep then a + [x] else a, b + [x])
  {
    var b' := b + [x];
    assert b'[..|b'| - 1] == b;
    if keep {
      var a' := a + [x];
      assert a'[..|a'| - 1] == a;
    } else if a != [] {
      assert a[|a| - 1] != b'[|b'| - 1] || IsSubseq(a, b);
    }
  }

  /** `s.filter(p)`: the elements satisfying `p`, in their original order. */
  function Filter<T(==)>(s: seq<T>, p: T -> bool): (r: seq<T>)
    ensures |r| <= |s|
    ensures forall i :: 0 <= i < |r| ==> p(r[i])
    ensures IsSubseq(r, s)
  {
    if s == [] then []
    else
      var rest := Filter(s[..|s| - 1], p);
      var x := s[|s| - 1];
      SubseqAppend(rest, s[..|s| - 1], x, p(x));
      assert s[..|s| - 1] + [x] == s;
      if p(x) then rest + [x] else rest
  }

  /** `filter` keeps every copy of a passing element and no copy of a failing one. */
  lemma {:induction false} FilterCount<T>(s: seq<T>, p: T -> bool, x: T)
    ensures multiset(Filter(s, p))[x] == if p(x) then multiset(s)[x] else 0
  {
    if s != [] {
      var init, last := s[..|s| - 1], s[|s| - 1];
      FilterCount(init, p, x);
      assert s == init + [last];
      assert multiset(s) == multiset(init) + multiset{last};
    }
  }

  lemma FilterSnoc<T>(s: seq<T>, x: T, p: T -> bool)
    ensures |Filter(s + [x], p)| == |Filter(s, p)| + (if p(x) then 1 else 0)
  {
    assert (s + [x])[..|s|] == s;
  }

  /** How many of four values pass the filter. */
  lemma FilterFourLength<T>(a: T, b: T, c: T, d: T, p: T -> bool)
    ensures |Filter([a, b, c, d], p)|
      == (if p(a) then 1 else 0) + (if p(b) then 1 else 0) + (if p(c) then 1 else 0) + (if p(d) then 1 else 0)
  {
    assert [a] == [] + [a];
    FilterSnoc([], a, p);
    assert [a, b] == [a] + [b];
    FilterSnoc([a], b, p);
    assert [a, b, c] == [a, b] + [c];
    FilterSnoc([a, b], c, p);
    assert [a, b, c, d] == [a, b, c] + [d];
    FilterSnoc([a, b, c], d, p);
  }

  /** Nothing that satisfies `p` is dropped. */
  lemma {:induction false} FilterKeepsAll<T>(s: seq<T>, p: T -> bool)
    ensures forall i :: 0 <= i < |s| && p(s[i]) ==> s[i] in Filter(s, p)
  {
    if s != [] {
      var init := s[..|s| - 1];
      FilterKeepsAll(init, p);
      forall i | 0 <= i < |s| - 1 && p(s[i]) ensures s[i] in Filter(s, p) {
        assert s[i] == init[i];
      }
    }
  }

  /** Filtering a concatenation filters each part. */
  lemma {:induction false} FilterAppend<T>(a: seq<T>, b: seq<T>, p: T -> bool)
    ensures Filter(a + b, p) == Filter(a, p) + Filter(b, p)
  {
    if b == [] {
      assert a + b == a;
    } else {
      var init := b[..|b| - 1];
      FilterAppend(a, init, p);
      assert (a + b)[..|a + b| - 1] == a + init;
      assert (a + b)[|a + b| - 1] == b[|b| - 1];
    }
  }

  /** When every element satisfies `p`, filtering changes nothing. */
  lemma {:induction false} FilterAllPass<T>(s: seq<T>, p: T -> bool)
    requires forall i :: 0 <= i < |s| ==> p(s[i])
    ensures Filter(s, p) == s
  {
    if s != [] {
      FilterAllPass(s[..|s| - 1], p);
    }
  }

  /** Filtering twice by the same test is filtering once. */
  lemma FilterIdempotent<T>(s: seq<T>, p: T -> bool)
    ensures Filter(Filter(s, p), p) == Filter(s, p)
  {
    FilterAllPass(Filter(s, p), p);
  }

  /** Counting from the front: the first element adds one when it passes. */
  lemma {:induction false} FilterConsLength<T>(x: T, s: seq<T>, p: T -> bool)
    ensures |Filter([x] + s, p)| == (if p(x) then 1 else 0) + |Filter(s, p)|
  {
    if s == [] {
      assert [x] == [] + [x];
      FilterSnoc([], x, p);
    } else {
      var init, last := s[..|s| - 1], s[|s| - 1];
      FilterConsLength(x, init, p);
      assert [x] + s == ([x] + init) + [last];
      assert s == init + [last];
      FilterSnoc([x] + init, last, p);
      FilterSnoc(init, last, p);
    }
  }

  /** The set of keys of the elements of `s`. */
  function KeySet<T, K(==)>(s: seq<T>, key: T -> K): (ks: set<K>)
    ensures forall i :: 0 <= i < |s| ==> key(s[i]) in ks
    ensures forall k :: k in ks ==> exists i :: 0 <= i < |s| && key(s[i]) == k
  {
    if s == [] then {} else KeySet(s[..|s| - 1], key) + {key(s[|s| - 1])}
  }

  /** No two elements share a key. */
  predicate DistinctKeys<T, K(==)>(s: seq<T>, key: T -> K) {
    forall i, j :: 0 <= i < j < |s| ==> key(s[i]) != key(s[j])
  }

  /** The element of `s` that comes first among those with key `k`. */
  function FirstWithKey<T, K(==)>(s: seq<T>, key: T -> K, k: K): (x: T)
    requires k in KeySet(s, key)
    ensures x in s && key(x) == k
  {
    if key(s[0]) == k then s[0]
    else
      assert k in KeySet(s[1..], key) by {
        var i :| 0 <= i < |s| && key(s[i]) == k;
        assert s[1..][i - 1] == s[i];
      }
      FirstWithKey(s[1..], key, k)
  }

  lemma {:induction false} FirstWithKeyAppend<T, K>(s: seq<T>, key: T -> K, x: T, k: K)
    requires k in KeySet(s, key)
    ensures k in KeySet(s + [x], key)
    ensures FirstWithKey(s + [x], key, k) == FirstWithKey(s, key, k)
    decreases |s|
  {
    var s' := s + [x];
    assert s'[..|s'| - 1] == s;
    if key(s[0]) != k {
      assert s'[1..] == s[1..] + [x];
      assert k in KeySet(s[1..], key) by {
        var i :| 0 <= i < |s| && key(s[i]) == k;
        assert s[1..][i - 1] == s[i];
      }
      FirstWithKeyAppend(s[1..], key, x, k);
    }
  }

  lemma {:induction false} FirstWithKeyNew<T, K>(s: seq<T>, key: T -> K, x: T)
    requires key(x) !in KeySet(s, key)
    ensures key(x) in KeySet(s + [x], key)
    ensures FirstWithKey(s + [x], key, key(x)) == x
    decreases |s|
  {
    var s' := s + [x];
    assert s'[..|s'| - 1] == s;
    if s != [] {
      assert s'[1..] == s[1..] + [x] by {
        assert |s'[1..]| == |s[1..] + [x]|;
        forall i | 0 <= i < |s'[1..]| ensures s'[1..][i] == (s[1..] + [x])[i] {
          if i < |s| - 1 { assert s'[1..][i] == s[i + 1]; }
        }
      }
      assert key(x) !in KeySet(s[1..], key) by {
        forall i | 0 <= i < |s[1..]| ensures key(s[1..][i]) != key(x) {
          assert s[1..][i] == s[i + 1];
        }
      }
      FirstWithKeyNew(s[1..], key, x);
    }
  }

  /**
   * First-occurrence de-duplication by `key`, as a left-to-right pass that
   * remembers the keys it has kept.
   */
  function Dedup<T, K(==)>(s: seq<T>, key: T -> K): seq<T>
  {
    if s == [] then []
    else
      var d := Dedup(s[..|s| - 1], key);
      if key(s[|s| - 1]) in KeySet(d, key) then d else d + [s[|s| - 1]]
  }

  /** The keys kept are exactly the keys of the input: nothing is lost but repeats. */
  lemma {:induction false} DedupKeySet<T, K>(s: seq<T>, key: T -> K)
    ensures KeySet(Dedup(s, key), key) == KeySet(s, key)
  {
    if s != [] {
      var p := s[..|s| - 1];
      DedupKeySet(p, key);
      var d := Dedup(p, key);
      if key(s[|s| - 1]) !in KeySet(d, key) {
        assert (d + [s[|s| - 1]])[..|d|] == d;
      }
    }
  }

  /** No two kept elements share a key. */
  lemma {:induction false} DedupDistinct<T, K>(s: seq<T>, key: T -> K)
    ensures DistinctKeys(Dedup(s, key), key)
  {
    if s != [] {
      var p := s[..|s| - 1];
      DedupDistinct(p, key);
      var d := Dedup(p, key);
      var x := s[|s| - 1];
      if key(x) !in KeySet(d, key) {
        var r := d + [x];
        forall i, j | 0 <= i < j < |r| ensures key(r[i]) != key(r[j]) {
          if j == |d| { assert r[i] == d[i]; } else { assert r[i] == d[i] && r[j] == d[j]; }
        }
      }
    }
  }

  /** The output keeps the input's order: it is a subsequence of it. */
  lemma {:induction false} DedupSubseq<T, K>(s: seq<T>, key: T -> K)
    ensures IsSubseq(Dedup(s, key), s)
  {
    if s != [] {
      var p := s[..|s| - 1];
      DedupSubseq(p, key);
      var d := Dedup(p, key);
      var x := s[|s| - 1];
      assert s == p + [x];
      SubseqAppend(d, p, x, key(x) !in KeySet(d, key));
    }
  }

  /** Every kept element is the first element of the input carrying its key. */
  lemma {:induction false} DedupKeepsFirst<T, K>(s: seq<T>, key: T -> K)
    ensures forall i :: 0 <= i < |Dedup(s, key)| ==>
      key(Dedup(s, key)[i]) in KeySet(s, key) && Dedup(s, key)[i] == FirstWithKey(s, key, key(Dedup(s, key)[i]))
  {
    if s != [] {
      var p := s[..|s| - 1];
      var x := s[|s| - 1];
      assert s == p + [x];
      DedupKeepsFirst(p, key);
      DedupKeySet(p, key);
      var d := Dedup(p, key);
      var r := Dedup(s, key);
      forall i | 0 <= i < |r|
        ensures key(r[i]) in KeySet(s, key) && r[i] == FirstWithKey(s, key, key(r[i]))
      {
        if i < |d| {
          assert r[i] == d[i];
          FirstWithKeyAppend(p, key, x, key(d[i]));
        } else {
          assert r[i] == x && key(x) !in KeySet(p, key);
          FirstWithKeyNew(p, key, x);
        }
      }
    }
  }

  lemma {:induction false} DedupOfDistinct<T, K>(s: seq<T>, key: T -> K)
    requires DistinctKeys(s, key)
    ensures Dedup(s, key) == s
  {
    if s != [] {
      var p := s[..|s| - 1];
      var x := s[|s| - 1];
      assert DistinctKeys(p, key);
      DedupOfDistinct(p, key);
      assert s == p + [x];
      assert key(x) !in KeySet(p, key);
    }
  }

  /** De-duplicating twice is de-duplicating once. */
  lemma DedupIdempotent<T, K>(s: seq<T>, key: T -> K)
    ensures Dedup(Dedup(s, key), key) == Dedup(s, key)
  {
    DedupDistinct(s, key);
    DedupOfDistinct(Dedup(s, key), key);
  }

  lemma {:induction false} DedupLength<T, K>(s: seq<T>, key: T -> K)
    ensures |Dedup(s, key)| <= |s|
  {
    if s != [] { DedupLength(s[..|s| - 1], key); }
  }

  /** Some prefix of `s` holds an element with key `a` and none with key `b`. */
  predicate KeySeenBefore<T, K(==)>(s: seq<T>, key: T -> K, a: K, b: K) {
    exists n :: 0 <= n <= |s| && a in KeySet(s[..n], key) && b !in KeySet(s[..n], key)
  }

  /** What a prefix of `s` shows, `s` shows too. */
  lemma KeySeenBeforeExtends<T, K>(p: seq<T>, s: seq<T>, key: T -> K, a: K, b: K)
    requires p <= s && KeySeenBefore(p, key, a, b)
    ensures KeySeenBefore(s, key, a, b)
  {
    var n :| 0 <= n <= |p| && a in KeySet(p[..n], key) && b !in KeySet(p[..n], key);
    assert s[..n] == p[..n];
  }

  /** A prefix with key `a` and without key `b` is the witness itself. */
  lemma KeySeenInPrefix<T, K>(p: seq<T>, s: seq<T>, key: T -> K, a: K, b: K)
    requires p <= s && a in KeySet(p, key) && b !in KeySet(p, key)
    ensures KeySeenBefore(s, key, a, b)
  {
    assert s[..|p|] == p;
  }

  /** Kept elements come in the order in which their keys first occur in the input. */
  lemma {:induction false} DedupFirstOccurrenceOrder<T, K>(s: seq<T>, key: T -> K)
    ensures var r := Dedup(s, key);
      forall i, j :: 0 <= i < j < |r| ==> KeySeenBefore(s, key, key(r[i]), key(r[j]))
  {
    if s != [] {
      var p, x := s[..|s| - 1], s[|s| - 1];
      DedupFirstOccurrenceOrder(p, key);
      DedupKeySet(p, key);
      var d := Dedup(p, key);
      var r := Dedup(s, key);
      assert p <= s;
      forall i, j | 0 <= i < j < |r| ensures KeySeenBefore(s, key, key(r[i]), key(r[j])) {
        if j < |d| {
          assert r[i] == d[i] && r[j] == d[j];
          KeySeenBeforeExtends(p, s, key, key(d[i]), key(d[j]));
        } else {
          assert r[i] == d[i] && r[j] == x;
          KeySeenInPrefix(p, s, key, key(d[i]), key(x));
        }
      }
    }
  }
}
