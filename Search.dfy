/** Pattern search over a suffix array: the suffixes starting with the
    pattern form one run of the array, found by a lower-bound and an
    upper-bound binary search; their offsets are returned in ascending order. */
module Search {
  import opened Bytes
  import opened Lexicographic
  import opened SuffixOrder

  /** `text.compare(i, |p|, p) < 0`: the (at most `|p|`) bytes of `text` from
      `i` sort before the pattern. */
  predicate BeforePattern(text: seq<byte>, i: int, p: seq<byte>)
    requires 0 <= i <= |text|
  {
    Compare(Pre(text, i, |p|), p) < 0
  }

  /** `text.compare(i, |p|, p) > 0`: the bytes of `text` from `i` sort after
      the pattern. */
  predicate AfterPattern(text: seq<byte>, i: int, p: seq<byte>)
    requires 0 <= i <= |text|
  {
    Compare(Pre(text, i, |p|), p) > 0
  }

  /** Every entry of `sa` is a valid start for `compare`. */
  predicate Offsets(text: seq<byte>, sa: seq<int>)
  {
    forall k :: 0 <= k < |sa| ==> 0 <= sa[k] <= |text|
  }

  /** The suffixes at the entries of `sa` appear in order. */
  ghost predicate SortedBySuffix(text: seq<byte>, sa: seq<int>)
  {
    Offsets(text, sa) && forall a, b :: 0 <= a < b < |sa| ==> Leq(text[sa[a]..], text[sa[b]..])
  }

  /** `s` is in ascending order. */
  predicate Ascending(s: seq<int>)
  {
    forall a, b :: 0 <= a < b < |s| ==> s[a] <= s[b]
  }

  // ---------------------------------------------------------------------
  // Properties of the comparisons

  /** The first `m` bytes of strings keep their order. */
  lemma {:induction false} TruncateLeq(a: seq<byte>, b: seq<byte>, m: nat)
    requires Leq(a, b)
    ensures Leq(a[..if m <= |a| then m else |a|], b[..if m <= |b| then m else |b|])
  {
    var a', b' := a[..if m <= |a| then m else |a|], b[..if m <= |b| then m else |b|];
    if m > 0 && |a| > 0 && a[0] == b[0] {
      TruncateLeq(a[1..], b[1..], m - 1);
      assert a'[1..] == a[1..][..if m - 1 <= |a| - 1 then m - 1 else |a| - 1];
      assert b'[1..] == b[1..][..if m - 1 <= |b| - 1 then m - 1 else |b| - 1];
    }
  }

  /** The `m`-prefixes of suffixes in order are in order. */
  lemma PreLeq(t: seq<byte>, x: int, y: int, m: nat)
    requires 0 <= x <= |t| && 0 <= y <= |t| && Leq(t[x..], t[y..])
    ensures Leq(Pre(t, x, m), Pre(t, y, m))
  {
    TruncateLeq(t[x..], t[y..], m);
    assert Pre(t, x, m) == t[x..][..if m <= |t| - x then m else |t| - x];
    assert Pre(t, y, m) == t[y..][..if m <= |t| - y then m else |t| - y];
  }

  /** Along a sorted array, "before the pattern" holds on a prefix of the
      entries, and "after the pattern" on a suffix. */
  lemma Monotone(text: seq<byte>, sa: seq<int>, p: seq<byte>, a: int, b: int)
    requires SortedBySuffix(text, sa) && 0 <= a < b < |sa|
    ensures BeforePattern(text, sa[b], p) ==> BeforePattern(text, sa[a], p)
    ensures AfterPattern(text, sa[a], p) ==> AfterPattern(text, sa[b], p)
  {
    PreLeq(text, sa[a], sa[b], |p|);
    var x, y := Pre(text, sa[a], |p|), Pre(text, sa[b], |p|);
    CompareSign(x, p);
    CompareSign(y, p);
    if Less(y, p) { LessLeqTrans(x, y, p); }
    if Less(p, x) { LessLeqTrans(p, x, y); }
  }

  /** A start neither before nor after the pattern matches it, and a match
      is neither. */
  lemma Between(text: seq<byte>, i: int, p: seq<byte>)
    requires 0 <= i <= |text|
    ensures !BeforePattern(text, i, p) && !AfterPattern(text, i, p) <==> Pre(text, i, |p|) == p
  {
    CompareSign(Pre(text, i, |p|), p);
  }

  /** Matching the pattern is the pattern being a prefix of the suffix; a
      suffix shorter than the pattern never matches. */
  lemma MatchIsPrefix(text: seq<byte>, i: int, p: seq<byte>)
    requires 0 <= i <= |text|
    ensures Pre(text, i, |p|) == p <==> p <= text[i..]
  {
  }

  // ---------------------------------------------------------------------
  // The two binary searches

  /** `std::lower_bound(first, last, value, comp)` as called on line 104,
      with `before(i)` standing for the comparator `leqm(i, pattern)`, found
      by halving. The result sits on a boundary: the entry before it is
      before the pattern, the entry at it is not. When the entries before
      the pattern form a prefix of `sa`, as `std::lower_bound` requires, it
      is the end of that prefix. */
  method LowerBound(sa: seq<int>, before: int -> bool) returns (l: int)
    ensures 0 <= l <= |sa|
    ensures l > 0 ==> before(sa[l - 1])
    ensures l < |sa| ==> !before(sa[l])
    ensures (forall a, b :: 0 <= a < b < |sa| && before(sa[b]) ==> before(sa[a])) ==>
      (forall k :: 0 <= k < l ==> before(sa[k])) && (forall k :: l <= k < |sa| ==> !before(sa[k]))
  {
    l := 0;
    var count := |sa|;
    while count > 0
      invariant 0 <= l && 0 <= count && l + count <= |sa|
      invariant l > 0 ==> before(sa[l - 1])
      invariant l + count < |sa| ==> !before(sa[l + count])
    {
      var step := count / 2;
      var it := l + step;
      if before(sa[it]) {
        l := it + 1;
        count := count - (step + 1);
      } else {
        count := step;
      }
    }
  }

  /** `std::upper_bound(first, last, value, comp)` as called on line 105,
      from `lo`, with `after(i)` standing for `geqm(pattern, i)`, found by
      halving. The result sits on a boundary: the entry before it (from
      `lo`) is not after the pattern, the entry at it is. When the entries
      after the pattern form a suffix of `sa[lo..]`, as `std::upper_bound`
      requires, it is the start of that suffix. */
  method UpperBound(sa: seq<int>, lo: int, after: int -> bool) returns (r: int)
    requires 0 <= lo <= |sa|
    ensures lo <= r <= |sa|
    ensures r > lo ==> !after(sa[r - 1])
    ensures r < |sa| ==> after(sa[r])
    ensures (forall a, b :: lo <= a < b < |sa| && after(sa[a]) ==> after(sa[b])) ==>
      (forall k :: lo <= k < r ==> !after(sa[k])) && (forall k :: r <= k < |sa| ==> after(sa[k]))
  {
    r := lo;
    var count := |sa| - lo;
    while count > 0
      invariant lo <= r && 0 <= count && r + count <= |sa|
      invariant r > lo ==> !after(sa[r - 1])
      invariant r + count < |sa| ==> after(sa[r + count])
    {
      var step := count / 2;
      var it := r + step;
      if !after(sa[it]) {
        r := it + 1;
        count := count - (step + 1);
      } else {
        count := step;
      }
    }
  }

  /** The comparator `leqm` of lines 95-97. */
  function Leqm(text: seq<byte>, p: seq<byte>): (before: int -> bool)
    ensures forall i :: 0 <= i <= |text| ==> (before(i) <==> BeforePattern(text, i, p))
  {
    i => 0 <= i <= |text| && BeforePattern(text, i, p)
  }

  /** The comparator `geqm` of lines 99-101. */
  function Geqm(text: seq<byte>, p: seq<byte>): (after: int -> bool)
    ensures forall i :: 0 <= i <= |text| ==> (after(i) <==> AfterPattern(text, i, p))
  {
    i => 0 <= i <= |text| && AfterPattern(text, i, p)
  }

  /** On a sorted array, an entry left of a boundary of "before the
      pattern" does not match. */
  lemma LeftOfRun(text: seq<byte>, p: seq<byte>, sa: seq<int>, l: int, k: int)
    requires SortedBySuffix(text, sa) && 0 <= k < l <= |sa|
    requires BeforePattern(text, sa[l - 1], p)
    ensures Pre(text, sa[k], |p|) != p
  {
    Between(text, sa[k], p);
    if k < l - 1 { Monotone(text, sa, p, k, l - 1); }
  }

  /** On a sorted array, an entry right of a boundary of "after the
      pattern" does not match. */
  lemma RightOfRun(text: seq<byte>, p: seq<byte>, sa: seq<int>, r: int, k: int)
    requires SortedBySuffix(text, sa) && 0 <= r <= k < |sa|
    requires AfterPattern(text, sa[r], p)
    ensures Pre(text, sa[k], |p|) != p
  {
    Between(text, sa[k], p);
    if r < k { Monotone(text, sa, p, r, k); }
  }

  /** On a sorted array, an entry between the two boundaries matches. */
  lemma InsideRun(text: seq<byte>, p: seq<byte>, sa: seq<int>, l: int, r: int, k: int)
    requires SortedBySuffix(text, sa) && 0 <= l <= k < r <= |sa|
    requires !BeforePattern(text, sa[l], p)
    requires !AfterPattern(text, sa[r - 1], p)
    ensures Pre(text, sa[k], |p|) == p
  {
    NotBeforeFrom(text, p, sa, l, k);
    NotAfterUpTo(text, p, sa, k, r - 1);
    Between(text, sa[k], p);
  }

  /** On a sorted array, an entry not before the pattern is followed only
      by entries not before it. */
  lemma NotBeforeFrom(text: seq<byte>, p: seq<byte>, sa: seq<int>, l: int, k: int)
    requires SortedBySuffix(text, sa) && 0 <= l <= k < |sa|
    requires !BeforePattern(text, sa[l], p)
    ensures !BeforePattern(text, sa[k], p)
  {
    if l < k { Monotone(text, sa, p, l, k); }
  }

  /** On a sorted array, an entry not after the pattern is preceded only by
      entries not after it. */
  lemma NotAfterUpTo(text: seq<byte>, p: seq<byte>, sa: seq<int>, k: int, m: int)
    requires SortedBySuffix(text, sa) && 0 <= k <= m < |sa|
    requires !AfterPattern(text, sa[m], p)
    ensures !AfterPattern(text, sa[k], p)
  {
    if k < m { Monotone(text, sa, p, k, m); }
  }

  /** On a sorted array the two boundaries cut out exactly the entries that
      match the pattern. */
  lemma MatchRun(text: seq<byte>, p: seq<byte>, sa: seq<int>, l: int, r: int, k: int)
    requires SortedBySuffix(text, sa) && 0 <= l <= r <= |sa| && 0 <= k < |sa|
    requires l > 0 ==> BeforePattern(text, sa[l - 1], p)
    requires l < |sa| ==> !BeforePattern(text, sa[l], p)
    requires r > l ==> !AfterPattern(text, sa[r - 1], p)
    requires r < |sa| ==> AfterPattern(text, sa[r], p)
    ensures l <= k < r <==> Pre(text, sa[k], |p|) == p
  {
    if k < l {
      LeftOfRun(text, p, sa, l, k);
    } else if k < r {
      InsideRun(text, p, sa, l, r, k);
    } else {
      RightOfRun(text, p, sa, r, k);
    }
  }

  // ---------------------------------------------------------------------
  // Sorting the result

  /** `std::sort` of line 112, as an insertion sort: the result is
      ascending and a permutation of the input. */
  method SortAscending(a: array<int>)
    modifies a
    ensures Ascending(a[..]) && multiset(a[..]) == multiset(old(a[..]))
  {
    var i := 1;
    while i < a.Length
      invariant 1 <= i || a.Length == 0
      invariant i <= a.Length || a.Length == 0
      invariant forall x, y :: 0 <= x < y < i && y < a.Length ==> a[x] <= a[y]
      invariant multiset(a[..]) == multiset(old(a[..]))
    {
      var j := i;
      while j > 0 && a[j - 1] > a[j]
        invariant 0 <= j <= i
        invariant forall x, y :: 0 <= x < y <= i && x != j && y != j ==> a[x] <= a[y]
        invariant forall y :: j < y <= i ==> a[j] <= a[y]
        invariant multiset(a[..]) == multiset(old(a[..]))
      {
        a[j - 1], a[j] := a[j], a[j - 1];
        j := j - 1;
      }
      i := i + 1;
    }
  }

  // ---------------------------------------------------------------------
  // GetOccurrences

  /** Lines 93-115: the offsets of the entries between the two bounds, in
      ascending order. On an array sorted by suffix these are exactly the
      entries where the pattern occurs in the text. */
  method GetOccurrences(p: seq<byte>, text: seq<byte>, sa: seq<int>) returns (occ: seq<int>)
    requires Offsets(text, sa)
    ensures Ascending(occ)
    ensures forall x :: x in occ ==> x in sa
    ensures SortedBySuffix(text, sa) ==>
      forall x :: x in occ <==> x in sa && Pre(text, x, |p|) == p
    ensures multiset(occ) <= multiset(sa)
    ensures SortedBySuffix(text, sa) ==>
      forall x :: multiset(occ)[x] == if 0 <= x <= |text| && Pre(text, x, |p|) == p then multiset(sa)[x] else 0
  {
    var l := LowerBound(sa, Leqm(text, p));
    var r := UpperBound(sa, l, Geqm(text, p));
    var occurrences := CopyRun(sa, l, r);
    var a := NewArray(occurrences);
    SortAscending(a);
    occ := a[..];
    RunResult(text, p, sa, l, r, occ);
  }

  /** What a permutation of the entries between the two boundaries holds:
      values of the array, and on a sorted array exactly the matches, each
      as often as in the array. */
  lemma RunResult(text: seq<byte>, p: seq<byte>, sa: seq<int>, l: int, r: int, occ: seq<int>)
    requires Offsets(text, sa) && 0 <= l <= r <= |sa|
    requires l > 0 ==> Leqm(text, p)(sa[l - 1])
    requires l < |sa| ==> !Leqm(text, p)(sa[l])
    requires r > l ==> !Geqm(text, p)(sa[r - 1])
    requires r < |sa| ==> Geqm(text, p)(sa[r])
    requires multiset(occ) == multiset(sa[l..r])
    ensures forall x :: x in occ ==> x in sa
    ensures SortedBySuffix(text, sa) ==>
      forall x :: x in occ <==> x in sa && Pre(text, x, |p|) == p
    ensures multiset(occ) <= multiset(sa)
    ensures SortedBySuffix(text, sa) ==>
      forall x :: multiset(occ)[x] == if 0 <= x <= |text| && Pre(text, x, |p|) == p then multiset(sa)[x] else 0
  {
    RunMembers(sa, l, r, occ);
    RunSplit(sa, l, r);
    if SortedBySuffix(text, sa) {
      Matches(text, p, sa, l, r, occ);
      RunCounts(text, p, sa, l, r);
    }
  }

  /** A fresh array holding `s`, for the in-place sort. */
  method NewArray(s: seq<int>) returns (a: array<int>)
    ensures fresh(a) && a[..] == s
  {
    a := new int[|s|](i requires 0 <= i < |s| => s[i]);
  }

  /** The `push_back` loop of lines 108-110: the entries from `l` up to
      `r`, in order. */
  method CopyRun(sa: seq<int>, l: int, r: int) returns (run: seq<int>)
    requires 0 <= l <= r <= |sa|
    ensures run == sa[l..r]
  {
    run := [];
    for it := l to r
      invariant run == sa[l..it]
    {
      assert sa[l..it + 1] == sa[l..it] + [sa[it]];
      run := run + [sa[it]];
    }
  }

  /** The values of the run between the bounds are exactly the matching
      entries of a sorted array. */
  lemma Matches(text: seq<byte>, p: seq<byte>, sa: seq<int>, l: int, r: int, occ: seq<int>)
    requires SortedBySuffix(text, sa) && 0 <= l <= r <= |sa|
    requires l > 0 ==> BeforePattern(text, sa[l - 1], p)
    requires l < |sa| ==> !BeforePattern(text, sa[l], p)
    requires r > l ==> !AfterPattern(text, sa[r - 1], p)
    requires r < |sa| ==> AfterPattern(text, sa[r], p)
    requires forall x :: x in occ <==> exists k :: l <= k < r && sa[k] == x
    ensures forall x :: x in occ <==> x in sa && Pre(text, x, |p|) == p
  {
    forall x ensures x in occ <==> x in sa && Pre(text, x, |p|) == p {
      if x in sa {
        var k :| 0 <= k < |sa| && sa[k] == x;
        MatchRun(text, p, sa, l, r, k);
        if x in occ {
          var k' :| l <= k' < r && sa[k'] == x;
          MatchRun(text, p, sa, l, r, k');
        }
      }
    }
  }

  /** A permutation of `sa[l..r]` holds exactly its values. */
  lemma RunMembers(sa: seq<int>, l: int, r: int, occ: seq<int>)
    requires 0 <= l <= r <= |sa| && multiset(occ) == multiset(sa[l..r])
    ensures forall x :: x in occ <==> exists k :: l <= k < r && sa[k] == x
  {
    forall x ensures x in occ <==> exists k :: l <= k < r && sa[k] == x {
      assert x in occ <==> x in multiset(occ);
      assert x in sa[l..r] <==> x in multiset(sa[l..r]);
      if x in sa[l..r] {
        var i :| 0 <= i < r - l && sa[l..r][i] == x;
        assert sa[l + i] == x;
      }
    }
  }

  /** On a sorted array the run between the two boundaries holds each
      matching offset as often as the whole array does, and nothing else. */
  lemma RunCounts(text: seq<byte>, p: seq<byte>, sa: seq<int>, l: int, r: int)
    requires SortedBySuffix(text, sa) && 0 <= l <= r <= |sa|
    requires l > 0 ==> BeforePattern(text, sa[l - 1], p)
    requires l < |sa| ==> !BeforePattern(text, sa[l], p)
    requires r > l ==> !AfterPattern(text, sa[r - 1], p)
    requires r < |sa| ==> AfterPattern(text, sa[r], p)
    ensures forall x :: multiset(sa[l..r])[x] == if 0 <= x <= |text| && Pre(text, x, |p|) == p then multiset(sa)[x] else 0
  {
    forall x ensures multiset(sa[l..r])[x] == if 0 <= x <= |text| && Pre(text, x, |p|) == p then multiset(sa)[x] else 0 {
      if 0 <= x <= |text| && Pre(text, x, |p|) == p {
        MatchCount(text, p, sa, l, r, x);
      } else {
        MismatchCount(text, p, sa, l, r, x);
      }
    }
  }

  /** An offset that does not match is absent from between the boundaries. */
  lemma MismatchCount(text: seq<byte>, p: seq<byte>, sa: seq<int>, l: int, r: int, x: int)
    requires SortedBySuffix(text, sa) && 0 <= l <= r <= |sa|
    requires l < r ==> !BeforePattern(text, sa[l], p) && !AfterPattern(text, sa[r - 1], p)
    requires !(0 <= x <= |text| && Pre(text, x, |p|) == p)
    ensures multiset(sa[l..r])[x] == 0
  {
    forall k | 0 <= k < r - l ensures sa[l..r][k] != x {
      InsideRun(text, p, sa, l, r, l + k);
    }
    assert x !in sa[l..r];
  }

  /** A matching offset occurs only between the boundaries. */
  lemma MatchCount(text: seq<byte>, p: seq<byte>, sa: seq<int>, l: int, r: int, x: int)
    requires SortedBySuffix(text, sa) && 0 <= l <= r <= |sa|
    requires l > 0 ==> BeforePattern(text, sa[l - 1], p)
    requires r < |sa| ==> AfterPattern(text, sa[r], p)
    requires 0 <= x <= |text| && Pre(text, x, |p|) == p
    ensures multiset(sa[l..r])[x] == multiset(sa)[x]
  {
    forall k | 0 <= k < l ensures sa[..l][k] != x {
      LeftOfRun(text, p, sa, l, k);
    }
    forall k | 0 <= k < |sa| - r ensures sa[r..][k] != x {
      RightOfRun(text, p, sa, r, r + k);
    }
    assert x !in sa[..l] && x !in sa[r..];
    RunSplit(sa, l, r);
  }

  /** The array is the part before the run, the run and the part after. */
  lemma RunSplit(sa: seq<int>, l: int, r: int)
    requires 0 <= l <= r <= |sa|
    ensures multiset(sa) == multiset(sa[..l]) + multiset(sa[l..r]) + multiset(sa[r..])
  {
    assert sa == sa[..l] + sa[l..r] + sa[r..];
  }

  // ---------------------------------------------------------------------
  // Distinct entries

  /** No value occurs twice in `s`. */
  predicate Distinct(s: seq<int>)
  {
    forall a, b :: 0 <= a < b < |s| ==> s[a] != s[b]
  }

  /** A sequence without repeats holds every value at most once. */
  lemma {:induction false} DistinctCounts(s: seq<int>)
    requires Distinct(s)
    ensures forall x :: multiset(s)[x] <= 1
  {
    if s != [] {
      var t, last := s[..|s| - 1], s[|s| - 1];
      assert s == t + [last];
      assert Distinct(t) by {
        forall a, b | 0 <= a < b < |t| ensures t[a] != t[b] {
          assert t[a] == s[a] && t[b] == s[b];
        }
      }
      DistinctCounts(t);
      forall k | 0 <= k < |t| ensures t[k] != last {
        assert s[k] != s[|s| - 1];
      }
      assert last !in t;
    }
  }

  /** A value at two indices of `s` is counted at least twice. */
  lemma TwiceCounted(s: seq<int>, a: int, b: int)
    requires 0 <= a < b < |s| && s[a] == s[b]
    ensures multiset(s)[s[a]] >= 2
  {
    assert s == s[..b] + s[b..];
    assert s[..b][a] == s[a] && s[b..][0] == s[b];
  }

  /** An ascending selection from a sequence without repeats is strictly
      ascending. */
  lemma StrictlyAscending(occ: seq<int>, sa: seq<int>)
    requires Ascending(occ) && multiset(occ) <= multiset(sa) && Distinct(sa)
    ensures forall a, b :: 0 <= a < b < |occ| ==> occ[a] < occ[b]
  {
    forall a, b | 0 <= a < b < |occ| ensures occ[a] < occ[b] {
      if occ[a] == occ[b] {
        TwiceCounted(occ, a, b);
        DistinctCounts(sa);
        assert false;
      }
    }
  }
}
