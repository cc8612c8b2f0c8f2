/** Suffix-array construction by prefix doubling (Manber and Myers). The six
    arrays of the builder are updated in place, loop by loop; every loop is
    proved against the round specification of module `Doubling`. */
module SuffixArray {
  import opened Bytes
  import opened Lexicographic
  import opened SuffixOrder
  import opened Doubling
  import opened FirstByteSort

  /** The number of set marks: the number of buckets. */
  function CountMarks(b: seq<bool>): (r: nat)
    ensures r <= |b|
  {
    if |b| == 0 then 0 else CountMarks(b[..|b| - 1]) + (if b[|b| - 1] then 1 else 0)
  }

  /** There are as many buckets as positions exactly when every position
      starts a bucket. */
  lemma {:induction false} CountMarksAll(b: seq<bool>)
    ensures CountMarks(b) == |b| <==> forall s :: 0 <= s < |b| ==> b[s]
  {
    if |b| > 0 {
      var b0 := b[..|b| - 1];
      CountMarksAll(b0);
      assert forall s :: 0 <= s < |b0| ==> b0[s] == b[s];
    }
  }

  /** A bucket from `i` to `j` adds one to the count. */
  lemma {:induction false} CountMarksRun(b: seq<bool>, i: int, j: int)
    requires 0 <= i < j <= |b| && b[i]
    requires forall q :: i < q < j ==> !b[q]
    ensures CountMarks(b[..j]) == CountMarks(b[..i]) + 1
    decreases j
  {
    assert b[..j][..j - 1] == b[..j - 1];
    if j > i + 1 {
      CountMarksRun(b, i, j - 1);
    } else {
      assert b[..j - 1] == b[..i];
    }
  }

  /** `sa` is the suffix array of `t`: a permutation of its positions,
      ordered by the suffixes starting there. */
  ghost predicate IsSuffixArray(t: seq<byte>, sa: seq<int>)
  {
    && |sa| == |t|
    && (forall k :: 0 <= k < |sa| ==> 0 <= sa[k] < |t|)
    && (forall a, b :: 0 <= a < b < |sa| ==> sa[a] != sa[b])
    && (forall a, b :: 0 <= a < b < |sa| ==> Less(t[sa[a]..], t[sa[b]..]))
  }

  /** A one-byte text has the suffix array [0]: the doubling loop never
      runs and the base case is the answer. */
  lemma OneByteText(t: seq<byte>, sa: seq<int>)
    requires |t| == 1 && IsSuffixArray(t, sa)
    ensures sa == [0]
  {
  }

  /** Lines 28-31: `bh[0]` is set and `bh[i]` marks a change of first byte. */
  method MarkFirstBytes(text: seq<byte>, pos: array<int>, bh: array<bool>)
    requires |text| >= 1 && pos.Length == bh.Length == |text|
    requires forall k :: 0 <= k < |text| ==> 0 <= pos[k] < |text|
    modifies bh
    ensures bh[0]
    ensures forall s :: 0 < s < |text| ==> (bh[s] <==> text[pos[s - 1]] != text[pos[s]])
  {
    bh[0] := true;
    var i := 1;
    while i < |text|
      invariant 1 <= i <= |text| && bh[0]
      invariant forall s :: 0 < s < i ==> (bh[s] <==> text[pos[s - 1]] != text[pos[s]])
    {
      bh[i] := text[pos[i - 1]] != text[pos[i]];
      i := i + 1;
    }
  }

  /** Line 33: every mark of `b2h` cleared. */
  method ClearAll(b2h: array<bool>)
    modifies b2h
    ensures forall s :: 0 <= s < b2h.Length ==> !b2h[s]
  {
    var i := 0;
    while i < b2h.Length
      invariant 0 <= i <= b2h.Length
      invariant forall s :: 0 <= s < i ==> !b2h[s]
    {
      b2h[i] := false;
      i := i + 1;
    }
  }

  /** Lines 42-49: walks the bucket starts, recording for each the start of
      the next bucket (or `n`), and counts the buckets. */
  method FindBuckets(bh: array<bool>, next: array<int>) returns (buckets: int)
    requires bh.Length == next.Length && bh.Length >= 1 && bh[0]
    modifies next
    ensures buckets == CountMarks(bh[..])
    ensures forall e :: 0 <= e < bh.Length && bh[e] ==> next[e] == NextStart(bh[..], e + 1)
  {
    var n := bh.Length;
    var i := 0;
    buckets := 0;
    while i < n
      invariant 0 <= i <= n
      invariant i < n ==> bh[i]
      invariant buckets == CountMarks(bh[..i])
      invariant forall e :: 0 <= e < i && bh[e] ==> next[e] == NextStart(bh[..], e + 1)
    {
      var j := BucketEnd(bh, i);
      CountMarksRun(bh[..], i, j);
      next[i] := j;
      i := j;
      buckets := buckets + 1;
    }
    assert bh[..i] == bh[..];
  }

  /** Lines 45-46: the scan from bucket start `i` to the next bucket start,
      or `n`. */
  method BucketEnd(bh: array<bool>, i: int) returns (j: int)
    requires 0 <= i < bh.Length
    ensures j == NextStart(bh[..], i + 1) && i < j
    ensures forall q :: i < q < j ==> !bh[q]
  {
    j := i + 1;
    while j < bh.Length && !bh[j]
      invariant i < j <= bh.Length
      invariant forall q :: i < q < j ==> !bh[q]
    {
      j := j + 1;
    }
    NextStartIs(bh[..], i + 1, j);
  }

  /** Lines 56-61: every suffix's `prm` entry set to the start of its
      bucket, and every bucket's count to zero. */
  method AssignBuckets(ghost r: Round, pos: array<int>, next: array<int>, prm: array<int>, count: array<int>)
    requires r.WellFormed() && r.pos == pos[..]
    requires next.Length == prm.Length == count.Length == |r.t|
    requires prm != pos && prm != next && count != pos && count != next && count != prm
    requires forall e :: 0 <= e < |r.t| && r.bh[e] ==> next[e] == r.End(e)
    modifies prm, count
    ensures forall x :: 0 <= x < |r.t| ==> prm[x] == r.BucketOf(x)
    ensures Cleared(count[..], r.bh, |r.t|)
  {
    var n := pos.Length;
    var i := 0;
    while i < n
      invariant 0 <= i <= n && (i < n ==> r.bh[i])
      invariant forall x :: 0 <= x < n && r.inv[x] < i ==> prm[x] == r.BucketOf(x)
      invariant Cleared(count[..], r.bh, i)
    {
      var end := next[i];
      ghost var count0 := count[..];
      ClearedStep(count0, r.bh, i, end);
      count[i] := 0;
      assert count[..] == count0[i := 0];
      FillBucket(r, i, pos, end, prm);
      i := end;
    }
  }

  /** The counts of the buckets starting below `i` are zero. */
  ghost predicate Cleared(count: seq<int>, bh: seq<bool>, i: int)
  {
    forall e :: 0 <= e < i && e < |bh| && e < |count| && bh[e] ==> count[e] == 0
  }

  /** Zeroing the count of the bucket starting at `i` extends the zeroed
      counts to the start of the next bucket. */
  lemma ClearedStep(count: seq<int>, bh: seq<bool>, i: int, end: int)
    requires 0 <= i < |bh| == |count| && Cleared(count, bh, i)
    requires end == NextStart(bh, i + 1)
    ensures Cleared(count[i := 0], bh, end)
  {
  }

  /** Lines 59-60: the suffixes of the bucket starting at `i` get `i` as
      their `prm` entry. */
  method FillBucket(ghost r: Round, i: int, pos: array<int>, end: int, prm: array<int>)
    requires r.WellFormed() && r.pos == pos[..] && prm.Length == |r.t| && prm != pos
    requires 0 <= i < |r.t| && r.bh[i] && end == r.End(i)
    requires forall x :: 0 <= x < |r.t| && r.inv[x] < i ==> prm[x] == r.BucketOf(x)
    modifies prm
    ensures forall x :: 0 <= x < |r.t| && r.inv[x] < end ==> prm[x] == r.BucketOf(x)
  {
    var c := i;
    while c < end
      invariant i <= c <= end
      invariant forall x :: 0 <= x < |r.t| && r.inv[x] < c ==> prm[x] == r.BucketOf(x)
    {
      r.BucketInterval(i, c);
      prm[pos[c]] := i;
      c := c + 1;
    }
  }

  /** Lines 63-67: the suffix `n - h`, which has no successor, is placed
      first, at the start of its bucket, and its slot marked. */
  method PlaceLastSuffix(ghost r: Round, h: int, prm: array<int>, count: array<int>, b2h: array<bool>)
    requires r.Valid() && h == r.h < |r.t|
    requires prm.Length == count.Length == b2h.Length == |r.t| && prm != count
    requires forall x :: 0 <= x < |r.t| ==> prm[x] == r.BucketOf(x)
    requires Cleared(count[..], r.bh, |r.t|)
    requires forall s :: 0 <= s < |r.t| && b2h[s] ==> r.bh[s]
    modifies prm, count, b2h
    ensures r.PrmAt(prm[..], 0) && r.CountAt(count[..], 0) && r.MarksAt(b2h[..], 0, 0, 0)
  {
    ghost var prm0, count0, b2h0 := prm[..], count[..], b2h[..];
    r.LastSuffix();
    r.StartPrm(prm0);
    r.StartCount(count0);
    r.StartMarks(b2h0);
    var d := prm.Length - h;
    var e := prm[d];
    prm[d] := e + count[e];
    count[e] := count[e] + 1;
    b2h[prm[d]] := true;
    assert prm[..] == prm0[d := r.Slot(d)];
    assert count[..] == count0[e := count0[e] + 1];
    assert b2h[..] == b2h0[r.Slot(d) := true];
  }

  /** Lines 70-79: the placement scan of the pass over bucket `i`. Each
      suffix `d` whose successor `d + h` sits in the bucket moves to the next
      free slot of its own bucket, which is marked. */
  method PlacePass(ghost r: Round, h: int, i: int, pos: array<int>, next: array<int>,
                   prm: array<int>, count: array<int>, b2h: array<bool>)
    requires r.Valid() && h == r.h < |r.t| && r.pos == pos[..] && 0 <= i < |r.t| && r.bh[i]
    requires next.Length == prm.Length == count.Length == b2h.Length == |r.t|
    requires prm != pos && prm != next && count != pos && count != next && count != prm
    requires next[i] == r.End(i)
    requires r.PrmAt(prm[..], i) && r.CountAt(count[..], i) && r.MarksAt(b2h[..], i, i, i)
    modifies prm, count, b2h
    ensures r.PrmAt(prm[..], r.End(i)) && r.CountAt(count[..], r.End(i)) && r.MarksAt(b2h[..], r.End(i), i, i)
  {
    var c := i;
    while c < next[i]
      invariant i <= c <= r.End(i)
      invariant r.PrmAt(prm[..], c) && r.CountAt(count[..], c) && r.MarksAt(b2h[..], c, i, i)
    {
      var d := pos[c] - h;
      if d >= 0 {
        PlaceOne(r, h, i, c, pos, prm, count, b2h);
      } else {
        r.ScanSkip(prm[..], count[..], b2h[..], c, i);
      }
      c := c + 1;
    }
  }

  /** Lines 74-77: placing the suffix `d = pos[c] - h`. */
  method PlaceOne(ghost r: Round, h: int, i: int, c: int, pos: array<int>,
                  prm: array<int>, count: array<int>, b2h: array<bool>)
    requires r.Valid() && h == r.h < |r.t| && r.pos == pos[..] && 0 <= i < |r.t| && r.bh[i] && i <= c < r.End(i)
    requires r.pos[c] - h >= 0
    requires prm.Length == count.Length == b2h.Length == |r.t| && prm != count && prm != pos && count != pos
    requires r.PrmAt(prm[..], c) && r.CountAt(count[..], c) && r.MarksAt(b2h[..], c, i, i)
    modifies prm, count, b2h
    ensures r.PrmAt(prm[..], c + 1) && r.CountAt(count[..], c + 1) && r.MarksAt(b2h[..], c + 1, i, i)
  {
    var d := pos[c] - h;
    ghost var prm0, count0, b2h0 := prm[..], count[..], b2h[..];
    r.PlaceStep(prm0, count0, b2h0, c, i);
    var e := prm[d];
    var slot := e + count[e];
    prm[d] := slot;
    count[e] := count[e] + 1;
    b2h[slot] := true;
    assert prm[..] == prm0[d := slot];
    assert count[..] == count0[e := count0[e] + 1];
    assert b2h[..] == b2h0[slot := true];
  }

  /** Lines 85-87: unmarks the marked slots from `f0` on, stopping at a
      bucket start, at an unmarked slot, or at the end of the array. */
  method ClearScan(bh: array<bool>, b2h: array<bool>, f0: int)
    requires bh != b2h && bh.Length == b2h.Length && 0 <= f0 <= bh.Length
    modifies b2h
    ensures b2h[..] == ClearRun(bh[..], old(b2h[..]), f0)
  {
    var f := f0;
    while f < bh.Length && !bh[f] && b2h[f]
      invariant f0 <= f <= bh.Length
      invariant ClearRun(bh[..], b2h[..], f) == ClearRun(bh[..], old(b2h[..]), f0)
      decreases bh.Length - f
    {
      b2h[f] := false;
      f := f + 1;
    }
  }

  /** Lines 81-89: the clearing scan of the pass over bucket `i`. For each
      suffix placed by the pass whose slot is still marked, the slots after
      it are unmarked up to the next bucket start or unmarked slot. */
  method ClearPass(ghost r: Round, h: int, i: int, pos: array<int>, bh: array<bool>, next: array<int>,
                   prm: array<int>, b2h: array<bool>)
    requires r.Valid() && h == r.h < |r.t| && r.pos == pos[..] && r.bh == bh[..] && 0 <= i < |r.t| && r.bh[i]
    requires next.Length == prm.Length == b2h.Length == |r.t| && bh != b2h
    requires next[i] == r.End(i)
    requires r.PrmAt(prm[..], r.End(i)) && r.MarksAt(b2h[..], r.End(i), i, i)
    modifies b2h
    ensures r.MarksAt(b2h[..], r.End(i), i, r.End(i))
  {
    var c := i;
    while c < next[i]
      invariant i <= c <= r.End(i)
      invariant r.MarksAt(b2h[..], r.End(i), i, c)
    {
      ClearOne(r, h, i, c, pos, bh, prm, b2h);
      c := c + 1;
    }
  }

  /** Lines 82-88: for the suffix `d = pos[c] - h`, a marked slot clears
      the marks after it. */
  method ClearOne(ghost r: Round, h: int, i: int, c: int, pos: array<int>, bh: array<bool>,
                  prm: array<int>, b2h: array<bool>)
    requires r.Valid() && h == r.h < |r.t| && r.pos == pos[..] && r.bh == bh[..] && 0 <= i < |r.t| && r.bh[i]
    requires i <= c < r.End(i)
    requires prm.Length == b2h.Length == |r.t| && bh != b2h
    requires r.PrmAt(prm[..], r.End(i)) && r.MarksAt(b2h[..], r.End(i), i, c)
    modifies b2h
    ensures r.MarksAt(b2h[..], r.End(i), i, c + 1)
  {
    var d := pos[c] - h;
    r.ClearStep(prm[..], b2h[..], c, i);
    if d >= 0 && b2h[prm[d]] {
      ClearScan(bh, b2h, prm[d] + 1);
    }
  }

  /** Lines 69-90: the passes over the buckets in order. */
  method RunPasses(ghost r: Round, h: int, pos: array<int>, bh: array<bool>, next: array<int>,
                   prm: array<int>, count: array<int>, b2h: array<bool>)
    requires r.Valid() && h == r.h < |r.t| && r.pos == pos[..] && r.bh == bh[..]
    requires next.Length == prm.Length == count.Length == b2h.Length == |r.t|
    requires prm != pos && prm != next && count != pos && count != next && count != prm && bh != b2h
    requires forall e :: 0 <= e < |r.t| && r.bh[e] ==> next[e] == r.End(e)
    requires r.PrmAt(prm[..], 0) && r.CountAt(count[..], 0) && r.MarksAt(b2h[..], 0, 0, 0)
    modifies prm, count, b2h
    ensures r.PrmAt(prm[..], |r.t|) && r.MarksAt(b2h[..], |r.t|, |r.t|, |r.t|)
  {
    var n := pos.Length;
    var i := 0;
    while i < n
      invariant 0 <= i <= n && (i < n ==> r.bh[i])
      invariant r.PrmAt(prm[..], i) && r.CountAt(count[..], i) && r.MarksAt(b2h[..], i, i, i)
    {
      PlacePass(r, h, i, pos, next, prm, count, b2h);
      ClearPass(r, h, i, pos, bh, next, prm, b2h);
      r.PassAdvance(b2h[..], i, next[i]);
      i := next[i];
    }
  }

  /** Lines 92-95: `pos` becomes the inverse of `prm`, and the new bucket
      starts join the marks. */
  method Rebuild(ghost occ: seq<int>, ghost slots: seq<int>, prm: array<int>, pos: array<int>,
                 bh: array<bool>, b2h: array<bool>)
    requires IsInverse(occ, slots) && prm[..] == slots
    requires pos.Length == bh.Length == b2h.Length == |occ| && pos != prm && bh != b2h
    modifies pos, bh
    ensures pos[..] == occ
    ensures forall s :: 0 <= s < bh.Length ==> bh[s] == (old(bh[s]) || b2h[s])
  {
    var n := pos.Length;
    var k := 0;
    while k < n
      invariant 0 <= k <= n
      invariant forall s :: 0 <= s < n && occ[s] < k ==> pos[s] == occ[s]
      invariant forall s :: 0 <= s < n ==> bh[s] == if s < k then old(bh[s]) || b2h[s] else old(bh[s])
    {
      pos[prm[k]] := k;
      bh[k] := bh[k] || b2h[k];
      k := k + 1;
    }
  }

  /** One doubling round, lines 56-95: from the suffixes sorted by their
      first `h` bytes to the suffixes sorted by their first `2h` bytes, with
      `prm` left holding the new inverse. */
  method DoublingRound(ghost r: Round, h: int, pos: array<int>, bh: array<bool>, next: array<int>,
                       prm: array<int>, count: array<int>, b2h: array<bool>)
    requires r.Valid() && h == r.h < |r.t| && r.pos == pos[..] && r.bh == bh[..]
    requires next.Length == prm.Length == count.Length == b2h.Length == |r.t|
    requires prm != pos && prm != next && count != pos && count != next && count != prm && bh != b2h
    requires forall e :: 0 <= e < |r.t| && r.bh[e] ==> next[e] == NextStart(r.bh, e + 1)
    requires forall s :: 0 <= s < |r.t| && b2h[s] ==> bh[s]
    modifies pos, bh, prm, count, b2h
    ensures r.Next().Valid() && r.Next().h == 2 * h && r.Next().t == r.t
    ensures r.Next().pos == pos[..] && r.Next().inv == prm[..] && r.Next().bh == bh[..]
    ensures forall s :: 0 <= s < |r.t| && b2h[s] ==> bh[s]
  {
    AssignBuckets(r, pos, next, prm, count);
    PlaceLastSuffix(r, h, prm, count, b2h);
    RunPasses(r, h, pos, bh, next, prm, count, b2h);
    RebuildRound(r, pos, bh, prm, b2h);
    r.NextRoundValid();
  }

  /** Lines 92-95 at the end of a round: `pos` and `bh` become those of the
      next round, and `prm` its inverse. */
  method RebuildRound(ghost r: Round, pos: array<int>, bh: array<bool>, prm: array<int>, b2h: array<bool>)
    requires r.Valid() && r.h < |r.t| && r.pos == pos[..] && r.bh == bh[..]
    requires prm.Length == b2h.Length == |r.t| && prm != pos && bh != b2h
    requires r.PrmAt(prm[..], |r.t|) && r.MarksAt(b2h[..], |r.t|, |r.t|, |r.t|)
    modifies pos, bh
    ensures r.Next().pos == pos[..] && r.Next().inv == prm[..] && r.Next().bh == bh[..]
    ensures forall s :: 0 <= s < |r.t| && b2h[s] ==> bh[s]
  {
    r.EndPrm(prm[..]);
    r.EndMarks(b2h[..]);
    r.OccInverse();
    Rebuild(r.Occ(), r.Slots(), prm, pos, bh, b2h);
    ghost var nm := r.NextMarks();
    assert forall s :: 0 <= s < |r.t| ==> bh[s] == nm[s];
    assert bh[..] == nm;
  }

  /** Once `h` reaches the length of the text, or every suffix has a bucket
      of its own, the array is the suffix array. */
  lemma Finished(r: Round, t: seq<byte>, sa: seq<int>)
    requires r.Valid() && (r.h >= |r.t| || forall s :: 0 <= s < |r.t| ==> r.bh[s])
    requires t == r.t && sa == r.pos
    ensures IsSuffixArray(t, sa)
  {
    r.FinalOrder();
  }

  /** Lines 22-33: the base case. The positions are sorted by first byte,
      the first-byte buckets marked in `bh`, and `b2h` cleared. */
  method BaseCase(text: seq<byte>, bh: array<bool>, b2h: array<bool>) returns (pos: array<int>, ghost r: Round)
    requires |text| >= 1 && bh.Length == b2h.Length == |text| && bh != b2h
    modifies bh, b2h
    ensures fresh(pos) && pos.Length == |text|
    ensures r.Valid() && r.t == text && r.h == 1 && r.pos == pos[..] && r.bh == bh[..]
    ensures forall s :: 0 <= s < |text| ==> !b2h[s]
  {
    pos := SortByFirstByte(text);
    SortedPermutation(text);
    ghost var inv := InverseOf(pos[..]);
    MarkFirstBytes(text, pos, bh);
    ClearAll(b2h);
    FirstByteRound(text, pos[..], inv, bh[..]);
    r := Round(text, 1, pos[..], inv, bh[..]);
  }

  /** One turn of the loop of lines 35-96: the buckets are counted, and
      unless every suffix already has a bucket of its own, a doubling round
      is run. */
  method Step(ghost r: Round, h: int, pos: array<int>, bh: array<bool>, next: array<int>,
              prm: array<int>, count: array<int>, b2h: array<bool>) returns (sorted: bool)
    requires r.Valid() && h == r.h < |r.t| && r.pos == pos[..] && r.bh == bh[..]
    requires next.Length == prm.Length == count.Length == b2h.Length == |r.t|
    requires prm != pos && prm != next && count != pos && count != next && count != prm && bh != b2h
    requires next != pos
    requires forall s :: 0 <= s < |r.t| && b2h[s] ==> bh[s]
    modifies pos, bh, next, prm, count, b2h
    ensures sorted ==> pos[..] == r.pos && forall s :: 0 <= s < |r.t| ==> r.bh[s]
    ensures !sorted ==> r.Next().Valid() && r.Next().h == 2 * h && r.Next().t == r.t
    ensures !sorted ==> r.Next().pos == pos[..] && r.Next().bh == bh[..]
    ensures forall s :: 0 <= s < |r.t| && b2h[s] ==> bh[s]
  {
    var buckets := FindBuckets(bh, next);
    if buckets == pos.Length {
      assert bh[..] == r.bh;
      CountMarksAll(r.bh);
      return true;
    }
    DoublingRound(r, h, pos, bh, next, prm, count, b2h);
    return false;
  }

  /** The suffix array of `text`: its positions, ordered by the suffixes
      starting there. `rounds` counts the doubling rounds. */
  method BuildSuffixArray(text: seq<byte>) returns (sa: seq<int>, ghost rounds: nat)
    requires |text| >= 1
    ensures IsSuffixArray(text, sa)
    ensures Pow2(rounds) < 2 * |text|
  {
    var n := |text|;
    var prm := new int[n];
    var bh := new bool[n];
    var count := new int[n];
    var b2h := new bool[n];
    var next := new int[n];
    var pos, r := BaseCase(text, bh, b2h);
    var h := 1;
    rounds := 0;
    while h < n
      invariant pos.Length == n
      invariant h == Pow2(rounds)
      invariant h < 2 * n
      invariant r.Valid() && r.t == text && r.h == h && r.pos == pos[..] && r.bh == bh[..]
      invariant forall s :: 0 <= s < n && b2h[s] ==> bh[s]
      decreases n - h
    {
      var sorted := Step(r, h, pos, bh, next, prm, count, b2h);
      if sorted {
        sa := pos[..];
        Finished(r, text, sa);
        return;
      }
      r := r.Next();
      h := h * 2;
      rounds := rounds + 1;
    }
    sa := pos[..];
    Finished(r, text, sa);
  }
}
