/** Vocabulary of suffix sorting: prefixes of suffixes, permutations of
    positions, and the buckets that a mark array cuts out of a sorted array. */
module SuffixOrder {
  import opened Bytes
  import opened Lexicographic

  /** The first `h` bytes of the suffix starting at `i`, or all of it when it
      is shorter than `h`. */
  function Pre(t: seq<byte>, i: int, h: int): (r: seq<byte>)
    requires 0 <= i <= |t| && h >= 0
    ensures |r| == if i + h <= |t| then h else |t| - i
    ensures r <= t[i..]
  {
    if i + h <= |t| then t[i..i + h] else t[i..]
  }

  /** A suffix with `h` bytes to spare splits its first `2h` bytes in halves. */
  lemma PreSplit(t: seq<byte>, i: int, h: int)
    requires 0 <= i && i + h <= |t| && h >= 0
    ensures Pre(t, i, 2 * h) == Pre(t, i, h) + Pre(t, i + h, h)
  {
  }

  /** Once `h` covers the whole suffix, the prefix is the suffix. */
  lemma PreWhole(t: seq<byte>, i: int, h: int)
    requires 0 <= i <= |t| && |t| - i <= h
    ensures Pre(t, i, h) == t[i..]
  {
  }

  /** Two different suffixes never share a prefix shorter than `h`. */
  lemma PreShortUnique(t: seq<byte>, i: int, j: int, h: int)
    requires 0 <= i <= |t| && 0 <= j <= |t| && h >= 0
    requires i + h > |t| && Pre(t, i, h) == Pre(t, j, h)
    ensures i == j
  {
    assert |Pre(t, j, h)| == |t| - i < h;
  }

  /** A strict order between the `h`-prefixes of two suffixes holds between
      their longer prefixes and between the whole suffixes. */
  lemma PreLessExtends(t: seq<byte>, x: int, y: int, h: int, h2: int)
    requires 0 <= x <= |t| && 0 <= y <= |t| && 0 <= h <= h2
    requires Less(Pre(t, x, h), Pre(t, y, h))
    ensures Less(Pre(t, x, h2), Pre(t, y, h2))
    ensures Less(t[x..], t[y..])
  {
    var a, b := Pre(t, x, h), Pre(t, y, h);
    assert a <= Pre(t, x, h2) && b <= Pre(t, y, h2) by {
      assert Pre(t, x, h2)[..|a|] == a && Pre(t, y, h2)[..|b|] == b;
    }
    LessExtend(a, b, Pre(t, x, h2), Pre(t, y, h2));
    LessExtend(a, b, t[x..], t[y..]);
  }

  /** `q` is the inverse of the permutation `p` of `[0, |p|)`. */
  ghost predicate IsInverse(p: seq<int>, q: seq<int>)
  {
    && |p| == |q|
    && (forall s :: 0 <= s < |p| ==> 0 <= p[s] < |p| && q[p[s]] == s)
    && (forall x :: 0 <= x < |q| ==> 0 <= q[x] < |q| && p[q[x]] == x)
  }

  lemma InverseSymmetric(p: seq<int>, q: seq<int>)
    requires IsInverse(p, q)
    ensures IsInverse(q, p)
  {
  }

  /** Distinct values drawn from `[0, m)` number at most `m`. */
  lemma {:induction false} Pigeonhole(s: seq<int>, m: int)
    requires m >= 0
    requires forall k :: 0 <= k < |s| ==> 0 <= s[k] < m
    requires forall k1, k2 :: 0 <= k1 < k2 < |s| ==> s[k1] != s[k2]
    ensures |s| <= m
    decreases m
  {
    if |s| > 0 {
      assert 0 <= s[0] < m;
      if k :| 0 <= k < |s| && s[k] == m - 1 {
        var r := s[..k] + s[k + 1..];
        assert forall j :: 0 <= j < |r| ==> r[j] == if j < k then s[j] else s[j + 1];
        forall j | 0 <= j < |r| ensures 0 <= r[j] < m - 1 {
          var i := if j < k then j else j + 1;
          assert r[j] == s[i] && i != k;
          if i < k { assert s[i] != s[k]; } else { assert s[k] != s[i]; }
        }
        forall j1, j2 | 0 <= j1 < j2 < |r| ensures r[j1] != r[j2] {
          var i1, i2 := if j1 < k then j1 else j1 + 1, if j2 < k then j2 else j2 + 1;
          assert r[j1] == s[i1] && r[j2] == s[i2] && i1 < i2;
        }
        Pigeonhole(r, m - 1);
      } else {
        Pigeonhole(s, m - 1);
      }
    }
  }

  /** A one-to-one map of `[0, n)` into itself reaches every value. */
  lemma Onto(f: seq<int>, y: int)
    requires forall k :: 0 <= k < |f| ==> 0 <= f[k] < |f|
    requires forall k1, k2 :: 0 <= k1 < k2 < |f| ==> f[k1] != f[k2]
    requires 0 <= y < |f|
    ensures exists k :: 0 <= k < |f| && f[k] == y
  {
    if forall k :: 0 <= k < |f| ==> f[k] != y {
      var g := seq(|f|, k requires 0 <= k < |f| => if f[k] > y then f[k] - 1 else f[k]);
      forall k1, k2 | 0 <= k1 < k2 < |g| ensures g[k1] != g[k2] {
        assert f[k1] != f[k2] && f[k1] != y && f[k2] != y;
      }
      Pigeonhole(g, |f| - 1);
    }
  }

  /** The position at which a one-to-one map of `[0, n)` into itself takes `y`. */
  ghost function Preimage(f: seq<int>, y: int): (k: int)
    requires forall k :: 0 <= k < |f| ==> 0 <= f[k] < |f|
    requires forall k1, k2 :: 0 <= k1 < k2 < |f| ==> f[k1] != f[k2]
    requires 0 <= y < |f|
    ensures 0 <= k < |f| && f[k] == y
  {
    Onto(f, y);
    var k :| 0 <= k < |f| && f[k] == y; k
  }

  /** A one-to-one map of `[0, n)` into itself is a permutation: it has an inverse. */
  lemma InverseOf(f: seq<int>) returns (q: seq<int>)
    requires forall k :: 0 <= k < |f| ==> 0 <= f[k] < |f|
    requires forall k1, k2 :: 0 <= k1 < k2 < |f| ==> f[k1] != f[k2]
    ensures IsInverse(f, q)
  {
    q := seq(|f|, y requires 0 <= y < |f| => Preimage(f, y));
    forall s | 0 <= s < |f| ensures q[f[s]] == s {
      assert f[q[f[s]]] == f[s];
    }
  }

  // ---------------------------------------------------------------------
  // Buckets

  /** The start of the bucket holding position `s`: the nearest marked
      position at or before it. */
  function BucketStart(bh: seq<bool>, s: int): (b: int)
    requires 0 <= s < |bh| && bh[0]
    ensures 0 <= b <= s && bh[b]
    ensures forall q :: b < q <= s ==> !bh[q]
  {
    if bh[s] then s else BucketStart(bh, s - 1)
  }

  /** The first marked position at or after `j`, or `|bh|` when there is none. */
  function NextStart(bh: seq<bool>, j: int): (b: int)
    requires 0 <= j <= |bh|
    ensures j <= b <= |bh| && (b < |bh| ==> bh[b])
    ensures forall q :: j <= q < b ==> !bh[q]
    decreases |bh| - j
  {
    if j == |bh| || bh[j] then j else NextStart(bh, j + 1)
  }

  /** `NextStart` is the only position with its two defining properties. */
  lemma NextStartIs(bh: seq<bool>, j: int, b: int)
    requires 0 <= j <= b <= |bh| && (b < |bh| ==> bh[b])
    requires forall q :: j <= q < b ==> !bh[q]
    ensures NextStart(bh, j) == b
  {
  }

  /** The bucket starting at `e` is the interval `[e, NextStart(e + 1))`. */
  lemma InBucket(bh: seq<bool>, e: int, q: int)
    requires 0 <= e <= q < |bh| && bh[0] && bh[e]
    ensures BucketStart(bh, q) == e <==> q < NextStart(bh, e + 1)
  {
    var ns := NextStart(bh, e + 1);
    if ns <= q {
      assert bh[ns];
    }
  }

  lemma BucketStartMonotone(bh: seq<bool>, a: int, b: int)
    requires 0 <= a <= b < |bh| && bh[0]
    ensures BucketStart(bh, a) <= BucketStart(bh, b)
  {
    var sa := BucketStart(bh, a);
    assert bh[sa];
  }
}
