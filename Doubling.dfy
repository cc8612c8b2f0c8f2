/** One prefix-doubling round of the Manber–Myers construction, as a
    specification. A round starts from `pos` sorted by `h`-prefix, with `bh`
    marking the first position of every `h`-bucket. Every suffix `x` with
    `x + h <= n` is moved to the next free slot of its own bucket, in the order
    in which its successor `x + h` appears in `pos`; the suffix `n - h`, whose
    successor is empty, goes first. The result is sorted by `2h`-prefix. */
module Doubling {
  import opened Bytes
  import opened Lexicographic
  import opened SuffixOrder

  /** The state at the start of a round. */
  datatype Round = Round(t: seq<byte>, h: int, pos: seq<int>, inv: seq<int>, bh: seq<bool>)
  {
    ghost predicate WellFormed()
    {
      && |t| >= 1 && h >= 1
      && |pos| == |t| && |bh| == |t|
      && IsInverse(pos, inv) && bh[0]
    }

    /** The `h`-prefix of the suffix at position `s`. */
    ghost function Key(s: int): seq<byte>
      requires WellFormed() && 0 <= s < |t|
    {
      Pre(t, pos[s], h)
    }

    /** Positions `a` and `b` are in order of their `h`-prefixes. */
    ghost predicate KeysOrdered(a: int, b: int)
      requires WellFormed() && 0 <= a < |t| && 0 <= b < |t|
    {
      Leq(Key(a), Key(b))
    }

    /** `pos` is sorted by `h`-prefix. */
    ghost predicate Sorted()
      requires WellFormed()
    {
      forall a, b :: 0 <= a < b < |t| ==> KeysOrdered(a, b)
    }

    /** Position `s` is marked exactly when the `h`-prefix changes there. */
    ghost predicate MarkExact(s: int)
      requires WellFormed() && 0 < s < |t|
    {
      bh[s] <==> Key(s - 1) != Key(s)
    }

    /** `bh` marks exactly the positions where the `h`-prefix changes. */
    ghost predicate Marked()
      requires WellFormed()
    {
      forall s :: 0 < s < |t| ==> MarkExact(s)
    }

    ghost predicate Valid()
    {
      WellFormed() && Sorted() && Marked()
    }

    /** The start of the `h`-bucket of suffix `x`. */
    ghost function BucketOf(x: int): int
      requires WellFormed() && 0 <= x < |t|
    {
      BucketStart(bh, inv[x])
    }

    /** One past the last position of the bucket starting at `e`. */
    ghost function End(e: int): int
      requires WellFormed() && 0 <= e < |t|
    {
      NextStart(bh, e + 1)
    }

    /** Suffix `x` has `h` bytes, so it is moved this round. */
    ghost predicate Moved(x: int)
    {
      0 <= x && x + h <= |t|
    }

    /** When a moved suffix is placed: -1 for `n - h`, else the position of
        its successor `x + h`. */
    ghost function Ord(x: int): int
      requires WellFormed() && Moved(x)
    {
      if x + h == |t| then -1 else inv[x + h]
    }

    /** The bucket of the successor `x + h`, in which pass `x` is placed; -1
        when there is no successor. */
    ghost function Pass(x: int): int
      requires WellFormed() && 0 <= x
    {
      if x + h >= |t| then -1 else BucketStart(bh, inv[x + h])
    }

    /** The suffixes placed in bucket `e` once positions `[0, tau)` have been
        scanned, in placement order. */
    ghost function Landed(e: int, tau: int): seq<int>
      requires WellFormed() && h < |t| && 0 <= tau <= |t|
    {
      if tau == 0 then (if BucketOf(|t| - h) == e then [|t| - h] else [])
      else
        var x := pos[tau - 1] - h;
        Landed(e, tau - 1) + (if x >= 0 && BucketOf(x) == e then [x] else [])
    }

    /** Where suffix `x` ends up: its bucket start plus the number of suffixes
        placed in the bucket before it. An unmoved suffix stays put. */
    ghost function Slot(x: int): int
      requires WellFormed() && h < |t| && 0 <= x < |t|
    {
      if x + h <= |t| then BucketOf(x) + |Landed(BucketOf(x), Ord(x) + 1)| - 1
      else BucketOf(x)
    }

    /** Suffix `x` is placed once positions `[0, tau)` have been scanned. */
    ghost predicate Placed(x: int, tau: int)
      requires WellFormed()
    {
      Moved(x) && Ord(x) < tau
    }

    /** The slots of suffixes `[0, k)`. */
    ghost function SlotsUpTo(k: int): (r: seq<int>)
      requires WellFormed() && h < |t| && 0 <= k <= |t|
      ensures |r| == k
      decreases k
    {
      if k == 0 then [] else SlotsUpTo(k - 1) + [Slot(k - 1)]
    }

    /** The slot of every suffix: the new `prm`. */
    ghost function Slots(): (r: seq<int>)
      requires WellFormed() && h < |t|
      ensures |r| == |t|
    {
      SlotsUpTo(|t|)
    }

    lemma {:induction false} SlotsUpToAt(k: int, x: int)
      requires WellFormed() && h < |t| && 0 <= x < k <= |t|
      ensures SlotsUpTo(k)[x] == Slot(x)
      decreases k
    {
      if x < k - 1 { SlotsUpToAt(k - 1, x); }
    }

    lemma SlotsAt(x: int)
      requires WellFormed() && h < |t| && 0 <= x < |t|
      ensures Slots()[x] == Slot(x)
    {
      SlotsUpToAt(|t|, x);
    }

    /** The suffix that ends up at slot `s`: the new `pos`. */
    ghost function Occ(): (r: seq<int>)
      requires Valid() && h < |t|
      ensures |r| == |t|
    {
      SlotsOneToOne();
      seq(|t|, s requires 0 <= s < |t| => Preimage(Slots(), s))
    }

    /** `Occ()` and `Slots()` are inverse permutations. */
    lemma OccInverse()
      requires Valid() && h < |t|
      ensures IsInverse(Occ(), Slots())
    {
      SlotsOneToOne();
      var o, sl := Occ(), Slots();
      forall s | 0 <= s < |t| ensures 0 <= o[s] < |t| && sl[o[s]] == s {
        assert o[s] == Preimage(sl, s);
      }
      forall x | 0 <= x < |t| ensures o[sl[x]] == x {
        var y := o[sl[x]];
        assert sl[y] == sl[x];
      }
    }

    /** The occupant of the slot of `x` is `x`. */
    lemma OccOfSlot(x: int)
      requires Valid() && h < |t| && 0 <= x < |t|
      ensures 0 <= Slot(x) < |t| && Occ()[Slot(x)] == x
    {
      OccInverse();
      SlotsAt(x);
    }

    /** A slot opens a new `2h`-bucket inside its `h`-bucket when its
        occupant was placed in a different pass than the previous slot's. */
    ghost predicate FinalMark(s: int)
      requires Valid() && h < |t| && 0 < s < |t|
    {
      Pass(Occ()[s - 1]) != Pass(Occ()[s])
    }

    /** The new marks: the old ones and the new `2h`-bucket starts. */
    ghost function NextMarks(): (r: seq<bool>)
      requires Valid() && h < |t|
      ensures |r| == |t|
    {
      seq(|t|, s requires 0 <= s < |t| => bh[s] || FinalMark(s))
    }

    /** The state at the start of the next round. */
    ghost function Next(): Round
      requires Valid() && h < |t|
    {
      Round(t, 2 * h, Occ(), Slots(), NextMarks())
    }

    // -------------------------------------------------------------------
    // Buckets of a valid round

    lemma {:induction false} SameBucketSameKey(a: int, b: int)
      requires Valid() && 0 <= a <= b < |t|
      requires BucketStart(bh, a) == BucketStart(bh, b)
      ensures Key(a) == Key(b)
      decreases b - a
    {
      if a < b {
        assert !bh[b] && MarkExact(b);
        SameBucketSameKey(a, b - 1);
      }
    }

    lemma AcrossBucketsLess(a: int, b: int)
      requires Valid() && 0 <= a < b < |t|
      requires BucketStart(bh, a) != BucketStart(bh, b)
      ensures Less(Key(a), Key(b))
    {
      var r := BucketStart(bh, b);
      assert a < r;
      StartLess(r);
      if a < r - 1 { assert KeysOrdered(a, r - 1); LessLeqTrans(Key(a), Key(r - 1), Key(r)); }
      if r < b { assert KeysOrdered(r, b); LessLeqTrans(Key(a), Key(r), Key(b)); }
    }

    /** A bucket start holds a greater `h`-prefix than the position before it. */
    lemma StartLess(r: int)
      requires Valid() && 0 < r < |t| && bh[r]
      ensures Less(Key(r - 1), Key(r))
    {
      assert MarkExact(r) && KeysOrdered(r - 1, r);
    }

    /** Two suffixes share a bucket exactly when they share their `h`-prefix,
        and an earlier bucket holds a smaller `h`-prefix. */
    lemma BucketKeys(x: int, y: int)
      requires Valid() && 0 <= x < |t| && 0 <= y < |t|
      ensures BucketOf(x) == BucketOf(y) <==> Pre(t, x, h) == Pre(t, y, h)
      ensures BucketOf(x) < BucketOf(y) ==> Less(Pre(t, x, h), Pre(t, y, h))
    {
      var a, b := inv[x], inv[y];
      assert Key(a) == Pre(t, x, h) && Key(b) == Pre(t, y, h);
      if a < b {
        BucketStartMonotone(bh, a, b);
        if BucketOf(x) == BucketOf(y) { SameBucketSameKey(a, b); } else { AcrossBucketsLess(a, b); }
      } else if b < a {
        BucketStartMonotone(bh, b, a);
        if BucketOf(x) == BucketOf(y) { SameBucketSameKey(b, a); } else { AcrossBucketsLess(b, a); }
      }
    }

    /** A suffix shorter than `h` is alone in its bucket. */
    lemma ShortAlone(x: int, y: int)
      requires Valid() && 0 <= x < |t| && 0 <= y < |t|
      requires x + h > |t| && BucketOf(x) == BucketOf(y)
      ensures x == y
    {
      BucketKeys(x, y);
      PreShortUnique(t, x, y, h);
    }

    /** Bucket `e` is the interval `[e, End(e))`; buckets do not overlap. */
    lemma BucketInterval(e: int, q: int)
      requires WellFormed() && 0 <= e < |t| && bh[e] && 0 <= q < |t|
      ensures BucketStart(bh, q) == e <==> e <= q < End(e)
    {
      if e <= q { InBucket(bh, e, q); }
    }

    lemma BucketsApart(e1: int, e2: int)
      requires WellFormed() && 0 <= e1 < e2 < |t| && bh[e1] && bh[e2]
      ensures End(e1) <= e2
    {
    }

    // -------------------------------------------------------------------
    // Placement

    lemma OrdOneToOne(x: int, y: int)
      requires WellFormed() && Moved(x) && Moved(y) && Ord(x) == Ord(y)
      ensures x == y
    {
      if x + h < |t| && y + h < |t| {
        assert pos[inv[x + h]] == x + h && pos[inv[y + h]] == y + h;
      }
    }

    /** `x` is a moved member of bucket `e` placed before the scan reaches `tau`. */
    ghost predicate PlacedIn(e: int, tau: int, x: int)
      requires WellFormed()
    {
      0 <= x < |t| && Moved(x) && BucketOf(x) == e && Ord(x) < tau
    }

    /** Moved suffixes `x` and `y` are placed in that order. */
    ghost predicate PlacedBefore(x: int, y: int)
      requires WellFormed()
    {
      Moved(x) && Moved(y) && Ord(x) < Ord(y)
    }

    /** The placed suffixes of a bucket are moved members of it, placed in
        increasing order of their successors' positions. */
    lemma LandedFacts(e: int, tau: int)
      requires WellFormed() && h < |t| && 0 <= tau <= |t|
      ensures forall k :: 0 <= k < |Landed(e, tau)| ==> PlacedIn(e, tau, Landed(e, tau)[k])
      ensures forall k1, k2 :: 0 <= k1 < k2 < |Landed(e, tau)| ==>
        PlacedBefore(Landed(e, tau)[k1], Landed(e, tau)[k2])
    {
      LandedIn(e, tau);
      LandedOrdered(e, tau);
    }

    /** The placed suffixes of a bucket are moved members of it. */
    lemma {:induction false} LandedIn(e: int, tau: int)
      requires WellFormed() && h < |t| && 0 <= tau <= |t|
      ensures forall k :: 0 <= k < |Landed(e, tau)| ==> PlacedIn(e, tau, Landed(e, tau)[k])
    {
      if tau > 0 {
        LandedIn(e, tau - 1);
        var L0, L := Landed(e, tau - 1), Landed(e, tau);
        var x := pos[tau - 1] - h;
        if x >= 0 {
          assert inv[x + h] == tau - 1;
        }
        forall k | 0 <= k < |L| ensures PlacedIn(e, tau, L[k]) {
          if k < |L0| {
            assert L[k] == L0[k];
            assert PlacedIn(e, tau - 1, L0[k]);
          }
        }
      }
    }

    /** They are placed in increasing order of their successors' positions. */
    lemma {:induction false} LandedOrdered(e: int, tau: int)
      requires WellFormed() && h < |t| && 0 <= tau <= |t|
      ensures forall k1, k2 :: 0 <= k1 < k2 < |Landed(e, tau)| ==>
        PlacedBefore(Landed(e, tau)[k1], Landed(e, tau)[k2])
    {
      if tau > 0 {
        LandedOrdered(e, tau - 1);
        LandedIn(e, tau - 1);
        var L0, L := Landed(e, tau - 1), Landed(e, tau);
        var x := pos[tau - 1] - h;
        if x >= 0 {
          assert inv[x + h] == tau - 1;
        }
        forall k1, k2 | 0 <= k1 < k2 < |L| ensures PlacedBefore(L[k1], L[k2]) {
          assert L[k1] == L0[k1];
          assert PlacedIn(e, tau - 1, L0[k1]);
          if k2 < |L0| {
            assert L[k2] == L0[k2];
          } else {
            assert L[k2] == x;
          }
        }
      }
    }

    lemma {:induction false} LandedMonotone(e: int, tau1: int, tau2: int)
      requires WellFormed() && h < |t| && 0 <= tau1 <= tau2 <= |t|
      ensures |Landed(e, tau1)| <= |Landed(e, tau2)|
      decreases tau2
    {
      if tau1 < tau2 { LandedMonotone(e, tau1, tau2 - 1); }
    }

    /** The suffixes placed in bucket `e` sit at distinct positions of it. */
    lemma LandedPositions(e: int)
      requires WellFormed() && h < |t| && 0 <= e < |t| && bh[e]
      ensures forall k :: 0 <= k < |Landed(e, |t|)| ==>
        0 <= Landed(e, |t|)[k] < |t| && e <= inv[Landed(e, |t|)[k]] < End(e)
      ensures forall k1, k2 :: 0 <= k1 < k2 < |Landed(e, |t|)| ==>
        inv[Landed(e, |t|)[k1]] != inv[Landed(e, |t|)[k2]]
    {
      var L := Landed(e, |t|);
      LandedFacts(e, |t|);
      forall k | 0 <= k < |L| ensures 0 <= L[k] < |t| && e <= inv[L[k]] < End(e) {
        assert PlacedIn(e, |t|, L[k]);
        BucketInterval(e, inv[L[k]]);
      }
      forall k1, k2 | 0 <= k1 < k2 < |L| ensures inv[L[k1]] != inv[L[k2]] {
        assert PlacedBefore(L[k1], L[k2]);
        assert pos[inv[L[k1]]] == L[k1] && pos[inv[L[k2]]] == L[k2];
      }
    }

    /** A bucket receives no more suffixes than it has positions. */
    lemma LandedSize(e: int)
      requires WellFormed() && h < |t| && 0 <= e < |t| && bh[e]
      ensures |Landed(e, |t|)| <= End(e) - e
    {
      var L := Landed(e, |t|);
      LandedPositions(e);
      var g := seq(|L|, k requires 0 <= k < |L| => inv[L[k]] - e);
      assert forall k1, k2 :: 0 <= k1 < k2 < |g| ==> g[k1] != g[k2];
      Pigeonhole(g, End(e) - e);
    }

    /** A moved suffix is the last one placed in its bucket at its own turn. */
    lemma SlotLast(x: int)
      requires WellFormed() && h < |t| && Moved(x) && Ord(x) >= 0
      ensures Landed(BucketOf(x), Ord(x) + 1) == Landed(BucketOf(x), Ord(x)) + [x]
      ensures forall e :: e != BucketOf(x) ==> Landed(e, Ord(x) + 1) == Landed(e, Ord(x))
    {
      assert pos[inv[x + h]] == x + h;
    }

    /** Every suffix lands inside its own bucket. */
    lemma SlotRange(x: int)
      requires WellFormed() && h < |t| && 0 <= x < |t|
      ensures BucketOf(x) <= Slot(x) < End(BucketOf(x))
      ensures BucketStart(bh, Slot(x)) == BucketOf(x)
    {
      var e := BucketOf(x);
      if Moved(x) {
        var o := Ord(x);
        if o >= 0 { SlotLast(x); }
        LandedMonotone(e, o + 1, |t|);
        LandedSize(e);
      }
      BucketInterval(e, Slot(x));
    }

    /** Within a bucket, moved suffixes land in the order of their successors. */
    lemma SlotOrder(x: int, y: int)
      requires WellFormed() && h < |t| && Moved(x) && Moved(y) && x < |t| && y < |t|
      requires BucketOf(x) == BucketOf(y) && Ord(x) < Ord(y)
      ensures Slot(x) < Slot(y)
    {
      LandedMonotone(BucketOf(x), Ord(x) + 1, Ord(y));
      SlotLast(y);
    }

    /** A moved suffix is placed before the scan reaches `tau` exactly when
        its slot lies below the bucket's fill level at `tau`. */
    lemma SlotBelow(x: int, tau: int)
      requires WellFormed() && h < |t| && Moved(x) && x < |t| && 0 <= tau <= |t|
      ensures Ord(x) < tau <==> Slot(x) < BucketOf(x) + |Landed(BucketOf(x), tau)|
    {
      var e, o := BucketOf(x), Ord(x);
      if o < tau {
        LandedMonotone(e, o + 1, tau);
      } else {
        LandedMonotone(e, tau, o);
        SlotLast(x);
      }
    }

    lemma SlotsDiffer(x: int, y: int)
      requires Valid() && h < |t| && 0 <= x < |t| && 0 <= y < |t| && x != y
      ensures Slot(x) != Slot(y)
    {
      var e1, e2 := BucketOf(x), BucketOf(y);
      SlotRange(x);
      SlotRange(y);
      if e1 < e2 {
        BucketsApart(e1, e2);
      } else if e2 < e1 {
        BucketsApart(e2, e1);
      } else if !Moved(x) {
        ShortAlone(x, y);
      } else if !Moved(y) {
        ShortAlone(y, x);
      } else if Ord(x) < Ord(y) {
        SlotOrder(x, y);
      } else if Ord(y) < Ord(x) {
        SlotOrder(y, x);
      } else {
        OrdOneToOne(x, y);
      }
    }

    /** The slots form a permutation of `[0, n)`. */
    lemma SlotsOneToOne()
      requires Valid() && h < |t|
      ensures forall k :: 0 <= k < |Slots()| ==> 0 <= Slots()[k] < |Slots()|
      ensures forall k1, k2 :: 0 <= k1 < k2 < |Slots()| ==> Slots()[k1] != Slots()[k2]
    {
      forall k | 0 <= k < |t| ensures 0 <= Slots()[k] < |t| {
        SlotsAt(k);
        SlotRange(k);
      }
      forall k1, k2 | 0 <= k1 < k2 < |t| ensures Slots()[k1] != Slots()[k2] {
        SlotsAt(k1);
        SlotsAt(k2);
        SlotsDiffer(k1, k2);
      }
    }

    // -------------------------------------------------------------------
    // The next round

    /** Slot `s` is the slot of its occupant, which lies in the bucket of `s`. */
    lemma OccSlot(s: int)
      requires Valid() && h < |t| && 0 <= s < |t|
      ensures 0 <= Occ()[s] < |t| && Slot(Occ()[s]) == s
      ensures BucketOf(Occ()[s]) == BucketStart(bh, s)
    {
      OccInverse();
      var x := Occ()[s];
      assert Slots()[x] == s;
      SlotsAt(x);
      SlotRange(x);
    }

    /** Two suffixes of one bucket placed in this order end in this order of
        their `2h`-prefixes; the prefixes differ exactly when the suffixes
        were placed in different passes. */
    lemma SameBucketNextKeys(x: int, y: int)
      requires Valid() && h < |t| && 0 <= x < |t| && 0 <= y < |t|
      requires BucketOf(x) == BucketOf(y) && PlacedBefore(x, y)
      ensures Leq(Pre(t, x, 2 * h), Pre(t, y, 2 * h))
      ensures Pre(t, x, 2 * h) != Pre(t, y, 2 * h) <==> Pass(x) != Pass(y)
    {
      HalfKeys(x, y);
      JoinKeys(t, x, y, h, Pass(x) != Pass(y));
    }

    /** The two halves of the `2h`-prefixes of two suffixes of one bucket
        placed in this order. */
    lemma HalfKeys(x: int, y: int)
      requires Valid() && h < |t| && 0 <= x < |t| && 0 <= y < |t|
      requires BucketOf(x) == BucketOf(y) && PlacedBefore(x, y)
      ensures Pre(t, x, h) == Pre(t, y, h)
      ensures Leq(Pre(t, x + h, h), Pre(t, y + h, h))
      ensures Pre(t, x + h, h) != Pre(t, y + h, h) <==> Pass(x) != Pass(y)
    {
      BucketKeys(x, y);
      if x + h == |t| { LastPlacedFirst(x, y); } else { SuccessorKeys(x, y); }
    }

    /** The suffix `n - h`, placed first, has an empty successor key while
        every suffix placed after it has a non-empty one. */
    lemma LastPlacedFirst(x: int, y: int)
      requires WellFormed() && h < |t| && PlacedBefore(x, y) && x + h == |t|
      ensures Pre(t, x + h, h) == [] && Pre(t, y + h, h) != []
      ensures Leq(Pre(t, x + h, h), Pre(t, y + h, h))
      ensures Pass(x) != Pass(y)
    {
      assert y + h < |t|;
      assert Pre(t, y + h, h)[0] == t[y + h];
    }

    /** The successors of two suffixes placed in this order compare in this
        order, and share their `h`-prefix exactly when they share a bucket. */
    lemma SuccessorKeys(x: int, y: int)
      requires Valid() && h < |t| && PlacedBefore(x, y) && x + h < |t|
      ensures Leq(Pre(t, x + h, h), Pre(t, y + h, h))
      ensures Pre(t, x + h, h) != Pre(t, y + h, h) <==> Pass(x) != Pass(y)
    {
      SuccessorsOrdered(x, y);
      SuccessorsShareBucket(x, y);
    }

    /** The successors of two suffixes placed in this order compare in this
        order. */
    lemma SuccessorsOrdered(x: int, y: int)
      requires Valid() && h < |t| && PlacedBefore(x, y) && x + h < |t|
      ensures Leq(Pre(t, x + h, h), Pre(t, y + h, h))
    {
      var a, b := inv[x + h], inv[y + h];
      assert pos[a] == x + h && pos[b] == y + h;
      assert KeysOrdered(a, b);
    }

    /** The successors of two suffixes placed in this order share their
        `h`-prefix exactly when they share a bucket. */
    lemma SuccessorsShareBucket(x: int, y: int)
      requires Valid() && h < |t| && PlacedBefore(x, y) && x + h < |t|
      ensures Pre(t, x + h, h) != Pre(t, y + h, h) <==> Pass(x) != Pass(y)
    {
      assert Pass(x) == BucketOf(x + h) && Pass(y) == BucketOf(y + h);
      BucketKeys(x + h, y + h);
    }

    /** The next round's array is sorted by `2h`-prefix. */
    lemma NextOrdered(a: int, b: int)
      requires Valid() && h < |t| && 0 <= a < b < |t|
      ensures Leq(Pre(t, Occ()[a], 2 * h), Pre(t, Occ()[b], 2 * h))
    {
      var x, y := Occ()[a], Occ()[b];
      OccSlot(a);
      OccSlot(b);
      var e1, e2 := BucketOf(x), BucketOf(y);
      SlotRange(x);
      SlotRange(y);
      BucketStartMonotone(bh, a, b);
      if e1 != e2 {
        BucketKeys(x, y);
        PreLessExtends(t, x, y, h, 2 * h);
      } else {
        if !Moved(x) { ShortAlone(x, y); }
        if !Moved(y) { ShortAlone(y, x); }
        if Ord(y) < Ord(x) { SlotOrder(y, x); }
        if Ord(x) == Ord(y) { OrdOneToOne(x, y); }
        SameBucketNextKeys(x, y);
      }
    }

    /** The next round's marks are exact for `2h`-prefixes. */
    lemma NextMark(s: int)
      requires Valid() && h < |t| && 0 < s < |t|
      ensures NextMarks()[s] <==> Pre(t, Occ()[s - 1], 2 * h) != Pre(t, Occ()[s], 2 * h)
    {
      var x, y := Occ()[s - 1], Occ()[s];
      OccSlot(s - 1);
      OccSlot(s);
      if bh[s] {
        assert BucketStart(bh, s - 1) < s;
        BucketKeys(x, y);
        PreLessExtends(t, x, y, h, 2 * h);
      } else {
        assert BucketStart(bh, s - 1) == BucketStart(bh, s);
        if !Moved(x) { ShortAlone(x, y); }
        if !Moved(y) { ShortAlone(y, x); }
        if Ord(y) < Ord(x) { SlotOrder(y, x); }
        if Ord(x) == Ord(y) { OrdOneToOne(x, y); }
        SameBucketNextKeys(x, y);
      }
    }

    /** One round turns a valid `h`-state into a valid `2h`-state: the new
        `pos` is a permutation with the slots as its inverse, sorted by
        `2h`-prefix, with exact marks. */
    lemma NextRoundValid()
      requires Valid() && h < |t|
      ensures Next().Valid() && Next().h == 2 * h && Next().t == t
    {
      var r := Next();
      OccInverse();
      assert r.WellFormed();
      forall a, b | 0 <= a < b < |t| ensures r.KeysOrdered(a, b) {
        NextOrdered(a, b);
      }
      forall s | 0 < s < |t| ensures r.MarkExact(s) {
        NextMark(s);
      }
    }

    // -------------------------------------------------------------------
    // The arrays while a round is in progress. `tau` is how far the scan
    // of `pos` has placed suffixes, `i` the bucket being scanned and `cc`
    // how far its clearing scan has come.

    /** `prm[x]` is the slot of `x` once it is placed, its bucket start before. */
    ghost predicate PrmOk(prm: seq<int>, x: int, tau: int)
      requires WellFormed() && h < |t| && |prm| == |t| && 0 <= x < |t|
    {
      prm[x] == if Placed(x, tau) then Slot(x) else BucketOf(x)
    }

    ghost predicate PrmAt(prm: seq<int>, tau: int)
      requires WellFormed() && h < |t|
    {
      && |prm| == |t|
      && forall x :: 0 <= x < |t| ==> PrmOk(prm, x, tau)
    }

    /** `count[e]`, for a bucket start `e`, is the number of suffixes placed
        in that bucket. */
    ghost predicate CountOk(count: seq<int>, e: int, tau: int)
      requires WellFormed() && h < |t| && 0 <= tau <= |t| && |count| == |t| && 0 <= e < |t|
    {
      bh[e] ==> count[e] == |Landed(e, tau)|
    }

    ghost predicate CountAt(count: seq<int>, tau: int)
      requires WellFormed() && h < |t| && 0 <= tau <= |t|
    {
      && |count| == |t|
      && forall e :: 0 <= e < |t| ==> CountOk(count, e, tau)
    }

    /** The mark `v` of slot `s`: set on a filled bucket start; clear on an
        empty slot; on any other filled slot, its final value, except that
        the slots filled during the current pass stay set until the clearing
        scan has reached their bucket. */
    ghost predicate MarkOk(v: bool, s: int, tau: int, i: int, cc: int)
      requires Valid() && h < |t| && 0 <= s < |t| && 0 <= tau <= |t| && 0 <= i <= |t| && 0 <= cc <= |t|
    {
      var x := Occ()[s];
      if bh[s] then (Placed(x, tau) ==> v)
      else if !Placed(x, tau) then !v
      else v == (FinalMark(s) || (Pass(x) == i && |Landed(BucketStart(bh, s), cc)| == |Landed(BucketStart(bh, s), i)|))
    }

    ghost predicate MarkAt(b2h: seq<bool>, s: int, tau: int, i: int, cc: int)
      requires Valid() && h < |t| && 0 <= tau <= |t| && 0 <= i <= |t| && 0 <= cc <= |t|
      requires |b2h| == |t| && 0 <= s < |t|
    {
      MarkOk(b2h[s], s, tau, i, cc)
    }

    ghost predicate MarksAt(b2h: seq<bool>, tau: int, i: int, cc: int)
      requires Valid() && h < |t| && 0 <= tau <= |t| && 0 <= i <= |t| && 0 <= cc <= |t|
    {
      && |b2h| == |t|
      && forall s :: 0 <= s < |t| ==> MarkAt(b2h, s, tau, i, cc)
    }

    /** The occupant of a slot that does not start a bucket is a moved suffix
        of that bucket. */
    lemma OccInBucket(s: int)
      requires Valid() && h < |t| && 0 <= s < |t| && !bh[s]
      ensures Moved(Occ()[s]) && Occ()[s] < |t| && Slot(Occ()[s]) == s
      ensures BucketOf(Occ()[s]) == BucketStart(bh, s) < s
    {
      OccSlot(s);
    }

    /** Passing position `c` of the scan changes the status of one suffix
        only: the one `h` before `pos[c]`, which it places. */
    lemma ScanOne(c: int)
      requires WellFormed() && h < |t| && 0 <= c < |t|
      ensures forall x :: 0 <= x < |t| && x != pos[c] - h ==> (Placed(x, c + 1) <==> Placed(x, c))
      ensures pos[c] - h >= 0 ==> Moved(pos[c] - h) && Ord(pos[c] - h) == c
    {
      forall x | 0 <= x < |t| && Moved(x) && Ord(x) == c ensures x == pos[c] - h {
        assert pos[inv[x + h]] == x + h;
      }
      if pos[c] - h >= 0 { assert inv[pos[c]] == c; }
    }

    /** A position whose suffix has no predecessor `h` back places nothing. */
    lemma ScanSkip(prm: seq<int>, count: seq<int>, b2h: seq<bool>, c: int, i: int)
      requires Valid() && h < |t| && 0 <= c < |t| && 0 <= i <= |t| && pos[c] - h < 0
      requires PrmAt(prm, c) && CountAt(count, c) && MarksAt(b2h, c, i, i)
      ensures PrmAt(prm, c + 1) && CountAt(count, c + 1) && MarksAt(b2h, c + 1, i, i)
    {
      ScanOne(c);
      var c1 := c + 1;
      forall x | 0 <= x < |t| ensures PrmOk(prm, x, c1) {
        assert PrmOk(prm, x, c);
      }
      forall e | 0 <= e < |t| ensures CountOk(count, e, c1) {
        assert CountOk(count, e, c);
      }
      forall s | 0 <= s < |t| ensures MarkAt(b2h, s, c1, i, i) {
        assert MarkAt(b2h, s, c, i, i);
      }
    }

    /** Placing `d`, whose successor sits at position `c`: it goes to the
        first free slot of its bucket, `prm[d] + count[prm[d]]`. */
    lemma ScanPlace(prm: seq<int>, count: seq<int>, c: int)
      requires Valid() && h < |t| && 0 <= c < |t| && pos[c] - h >= 0
      requires PrmAt(prm, c) && CountAt(count, c)
      ensures var d := pos[c] - h;
        && 0 <= prm[d] < |t| && bh[prm[d]] && prm[d] + count[prm[d]] == Slot(d)
        && PrmAt(prm[d := Slot(d)], c + 1)
        && CountAt(count[prm[d] := count[prm[d]] + 1], c + 1)
    {
      var d := pos[c] - h;
      ScanOne(c);
      SlotLast(d);
      assert PrmOk(prm, d, c) && CountOk(count, BucketOf(d), c);
      ScanPrm(prm, c);
      ScanCount(count, c);
    }

    /** The whole of placing `d = pos[c] - h` in pass `i`: its bucket start
        `e = prm[d]` plus the count of that bucket is its slot, and the
        updated `prm`, `count` and marks are right for the next position. */
    lemma PlaceStep(prm: seq<int>, count: seq<int>, b2h: seq<bool>, c: int, i: int)
      requires Valid() && h < |t| && 0 <= i < |t| && bh[i] && i <= c < End(i) && pos[c] - h >= 0
      requires PrmAt(prm, c) && CountAt(count, c) && MarksAt(b2h, c, i, i)
      ensures var d := pos[c] - h;
        && 0 <= d < |t| && 0 <= prm[d] < |t| && 0 <= prm[d] + count[prm[d]] < |t|
        && PrmAt(prm[d := prm[d] + count[prm[d]]], c + 1)
        && CountAt(count[prm[d] := count[prm[d]] + 1], c + 1)
        && MarksAt(b2h[prm[d] + count[prm[d]] := true], c + 1, i, i)
    {
      var d := pos[c] - h;
      ScanPlace(prm, count, c);
      BucketInterval(i, c);
      SlotRange(d);
      ScanMark(b2h, c, i, Slot(d));
    }

    /** Placing `d` records its slot in `prm[d]`. */
    lemma ScanPrm(prm: seq<int>, c: int)
      requires Valid() && h < |t| && 0 <= c < |t| && pos[c] - h >= 0
      requires PrmAt(prm, c)
      ensures PrmAt(prm[pos[c] - h := Slot(pos[c] - h)], c + 1)
    {
      var d := pos[c] - h;
      ScanOne(c);
      var prm2 := prm[d := Slot(d)];
      var c1 := c + 1;
      forall x | 0 <= x < |t| ensures PrmOk(prm2, x, c1) {
        assert PrmOk(prm, x, c);
      }
    }

    /** Placing `d` counts it in its bucket. */
    lemma ScanCount(count: seq<int>, c: int)
      requires Valid() && h < |t| && 0 <= c < |t| && pos[c] - h >= 0
      requires CountAt(count, c)
      ensures var e := BucketOf(pos[c] - h); CountAt(count[e := count[e] + 1], c + 1)
    {
      var e := BucketOf(pos[c] - h);
      var count2 := count[e := count[e] + 1];
      var c1 := c + 1;
      forall e' | 0 <= e' < |t| ensures CountOk(count2, e', c1) {
        ScanCountAt(count, c, e');
      }
    }

    /** `ScanCount` for one bucket start `e'`. */
    lemma ScanCountAt(count: seq<int>, c: int, e': int)
      requires Valid() && h < |t| && 0 <= c < |t| && pos[c] - h >= 0
      requires |count| == |t| && 0 <= e' < |t| && CountOk(count, e', c)
      requires CountOk(count, BucketOf(pos[c] - h), c)
      ensures var e := BucketOf(pos[c] - h); CountOk(count[e := count[e] + 1], e', c + 1)
    {
      ScanOne(c);
    }

    /** The mark of a slot whose occupant the scan does not place keeps
        its meaning. */
    lemma MarkKeeps(v: bool, s: int, c: int, i: int, cc: int)
      requires Valid() && h < |t| && 0 <= s < |t| && 0 <= c < |t| && 0 <= i <= |t| && 0 <= cc <= |t|
      requires Occ()[s] != pos[c] - h && MarkOk(v, s, c, i, cc)
      ensures MarkOk(v, s, c + 1, i, cc)
    {
      ScanOne(c);
    }

    /** The slot of the suffix just placed is marked. */
    lemma MarkPlaced(c: int, i: int)
      requires Valid() && h < |t| && 0 <= c < |t| && pos[c] - h >= 0 && i == BucketStart(bh, c)
      ensures (SlotRange(pos[c] - h); MarkOk(true, Slot(pos[c] - h), c + 1, i, i))
    {
      var d := pos[c] - h;
      ScanOne(c);
      SlotRange(d);
      OccOfSlot(d);
      assert Pass(d) == i;
    }

    /** Placing `d` sets the mark of its slot. */
    lemma ScanMark(b2h: seq<bool>, c: int, i: int, p: int)
      requires Valid() && h < |t| && 0 <= c < |t| && pos[c] - h >= 0 && i == BucketStart(bh, c)
      requires p == Slot(pos[c] - h) && 0 <= p < |t|
      requires MarksAt(b2h, c, i, i)
      ensures MarksAt(b2h[p := true], c + 1, i, i)
    {
      var b2, c1 := b2h[p := true], c + 1;
      forall s | 0 <= s < |t| ensures MarkAt(b2, s, c1, i, i) {
        ScanMarkAt(b2h, c, i, p, s);
      }
    }

    /** `ScanMark` for one slot `s`. */
    lemma ScanMarkAt(b2h: seq<bool>, c: int, i: int, p: int, s: int)
      requires Valid() && h < |t| && 0 <= c < |t| && pos[c] - h >= 0 && i == BucketStart(bh, c)
      requires p == Slot(pos[c] - h) && 0 <= p < |t|
      requires |b2h| == |t| && 0 <= s < |t| && MarkAt(b2h, s, c, i, i)
      ensures MarkAt(b2h[p := true], s, c + 1, i, i)
    {
      if s != p {
        OccSlot(s);
        MarkKeeps(b2h[s], s, c, i, i);
      } else {
        MarkPlaced(c, i);
      }
    }

    // -------------------------------------------------------------------
    // The clearing scan of pass `i`: the whole pass is placed (the scan
    // time is `End(i)`) and positions `[i, c)` have been scanned again.

    /** Facts about the suffix `d` placed from position `c` of pass `i`,
        into bucket `e`. */
    lemma Placement(c: int, i: int, d: int, e: int)
      requires Valid() && h < |t| && 0 <= i < |t| && bh[i] && i <= c < End(i)
      requires d == pos[c] - h && d >= 0 && e == BucketOf(d)
      ensures Moved(d) && d < |t| && Ord(d) == c && Pass(d) == i && 0 <= e && bh[e]
      ensures Slots()[d] == Slot(d)
      ensures |Landed(e, i)| <= |Landed(e, c)| && |Landed(e, c + 1)| == |Landed(e, c)| + 1
      ensures Slot(d) == e + |Landed(e, c)| && Slot(d) < e + |Landed(e, End(i))| <= End(e) <= |t|
    {
      PlacementPass(c, i, d);
      SlotsAt(d);
      SlotLast(d);
      SlotBelow(d, End(i));
      LandedMonotone(e, i, c);
      LandedMonotone(e, End(i), |t|);
      LandedSize(e);
    }

    lemma PlacementPass(c: int, i: int, d: int)
      requires Valid() && h < |t| && 0 <= i < |t| && bh[i] && i <= c < End(i)
      requires d == pos[c] - h && d >= 0
      ensures Moved(d) && d < |t| && Ord(d) == c && Pass(d) == i
    {
      ScanOne(c);
      BucketInterval(i, c);
      assert d + h == pos[c] && inv[pos[c]] == c && BucketStart(bh, c) == i;
    }

    /** Placing `d` leaves the other buckets as they were. */
    lemma PlacementElsewhere(c: int, e: int)
      requires WellFormed() && h < |t| && 0 <= c < |t| && pos[c] - h >= 0 && BucketOf(pos[c] - h) != e
      ensures Landed(e, c + 1) == Landed(e, c)
    {
    }

    /** The slots a pass fills in a bucket hold suffixes of that pass. */
    lemma PassInBlock(s: int, e: int, i: int)
      requires Valid() && h < |t| && 0 <= s < |t| && 0 <= i < |t| && bh[i]
      requires e == BucketStart(bh, s) && e + |Landed(e, i)| <= s < e + |Landed(e, End(i))|
      ensures Pass(Occ()[s]) == i
    {
      var x := Occ()[s];
      OccSlot(s);
      if Moved(x) {
        SlotBelow(x, i);
        SlotBelow(x, End(i));
        BucketInterval(i, Ord(x));
      } else {
        LandedFacts(e, End(i));
        var y := Landed(e, End(i))[0];
        assert PlacedIn(e, End(i), y);
        ShortAlone(x, y);
      }
    }

    /** The slots filled before a pass hold suffixes of earlier passes. */
    lemma PassBeforeBlock(s: int, e: int, i: int)
      requires Valid() && h < |t| && 0 <= s < |t| && 0 <= i < |t| && bh[i]
      requires e == BucketStart(bh, s) && s < e + |Landed(e, i)|
      ensures Pass(Occ()[s]) < i
    {
      var x := Occ()[s];
      OccSlot(s);
      if Moved(x) {
        SlotBelow(x, i);
        if Ord(x) >= 0 { assert Pass(x) == BucketStart(bh, Ord(x)); }
      }
    }

    /** A suffix placed by position `c` of pass `i` does not change the
        meaning of the marks outside its bucket, nor that of bucket starts. */
    lemma ClearElsewhere(v: bool, s: int, c: int, i: int)
      requires Valid() && h < |t| && 0 <= i < |t| && bh[i] && i <= c < End(i) && 0 <= s < |t|
      requires pos[c] - h < 0 || bh[s] || BucketStart(bh, s) != BucketOf(pos[c] - h)
      requires MarkOk(v, s, End(i), i, c)
      ensures MarkOk(v, s, End(i), i, c + 1)
    {
      if pos[c] - h >= 0 && !bh[s] { PlacementElsewhere(c, BucketStart(bh, s)); }
    }

    /** The first suffix a pass places in a bucket finds its own slot marked,
        and the rest of the pass's block marked. */
    lemma BlockMarked(v: bool, s: int, c: int, i: int, d: int, e: int)
      requires Valid() && h < |t| && 0 <= i < |t| && bh[i] && i <= c < End(i)
      requires d == pos[c] - h && d >= 0 && e == BucketOf(d)
      requires |Landed(e, c)| == |Landed(e, i)|
      requires 0 <= s < |t| && Slot(d) <= s < e + |Landed(e, End(i))|
      requires MarkOk(v, s, End(i), i, c)
      ensures v && (s > Slot(d) ==> !bh[s])
    {
      Placement(c, i, d, e);
      BucketInterval(e, s);
      assert BucketStart(bh, s) == e;
      OccSlot(s);
      var x := Occ()[s];
      PassInBlock(s, e, i);
      if s == Slot(d) {
        OccOfSlot(d);
      } else {
        assert !bh[s];
        OccInBucket(s);
        SlotBelow(x, End(i));
        assert Placed(x, End(i));
      }
    }

    /** The slot just past a pass's block in a bucket is a bucket start or
        unmarked. */
    lemma BlockEnd(v: bool, c: int, i: int, d: int, e: int, hi: int)
      requires Valid() && h < |t| && 0 <= i < |t| && bh[i] && i <= c < End(i)
      requires d == pos[c] - h && d >= 0 && e == BucketOf(d)
      requires hi == e + |Landed(e, End(i))| && hi < |t|
      requires MarkOk(v, hi, End(i), i, c)
      ensures bh[hi] || !v
    {
      Placement(c, i, d, e);
      if !bh[hi] {
        BucketInterval(e, hi);
        assert BucketStart(bh, hi) == e;
        OccInBucket(hi);
        SlotBelow(Occ()[hi], End(i));
        assert !Placed(Occ()[hi], End(i));
      }
    }

    /** A slot of bucket `e` that does not start it is filled by the end of
        pass `i` exactly when it lies below the bucket's fill level then. */
    lemma SlotFilled(s: int, e: int, i: int)
      requires Valid() && h < |t| && 0 <= i < |t| && 0 <= s < |t| && !bh[s] && e == BucketStart(bh, s)
      ensures Placed(Occ()[s], End(i)) <==> s < e + |Landed(e, End(i))|
    {
      OccInBucket(s);
      SlotBelow(Occ()[s], End(i));
    }

    /** The first slot pass `i` fills in bucket `e` starts a new `2h`-bucket. */
    lemma HeadOfBlock(s: int, e: int, i: int)
      requires Valid() && h < |t| && 0 <= i < |t| && bh[i] && 0 <= s < |t| && !bh[s]
      requires e == BucketStart(bh, s) && e + |Landed(e, i)| == s < e + |Landed(e, End(i))|
      ensures Pass(Occ()[s]) == i && FinalMark(s)
    {
      PassInBlock(s, e, i);
      PassBeforeBlock(s - 1, e, i);
    }

    /** The other slots pass `i` fills in bucket `e` do not. */
    lemma InsideBlock(s: int, e: int, i: int)
      requires Valid() && h < |t| && 0 <= i < |t| && bh[i] && 0 <= s < |t| && !bh[s]
      requires e == BucketStart(bh, s) && e + |Landed(e, i)| < s < e + |Landed(e, End(i))|
      ensures Pass(Occ()[s]) == i && !FinalMark(s)
    {
      PassInBlock(s, e, i);
      PassInBlock(s - 1, e, i);
    }

    /** After the first suffix a pass places in a bucket, the marks of the
        bucket take their final values, the rest of its block being cleared. */
    lemma ClearedSlot(v: bool, s: int, c: int, i: int, e: int, p: int, hi: int)
      requires Valid() && h < |t| && 0 <= i < |t| && bh[i] && 0 <= c < |t|
      requires p == e + |Landed(e, i)| && hi == e + |Landed(e, End(i))|
      requires |Landed(e, c)| == |Landed(e, i)| && |Landed(e, c + 1)| != |Landed(e, i)|
      requires 0 <= s < |t| && !bh[s] && BucketStart(bh, s) == e
      requires MarkOk(v, s, End(i), i, c)
      ensures MarkOk(if p < s < hi then false else v, s, End(i), i, c + 1)
    {
      SlotFilled(s, e, i);
      if s < hi {
        if s < p {
          PassBeforeBlock(s, e, i);
        } else if s == p {
          HeadOfBlock(s, e, i);
        } else {
          InsideBlock(s, e, i);
        }
      }
    }

    /** A later suffix of a pass in a bucket finds its slot unmarked. */
    lemma LaterUnmarked(v: bool, c: int, i: int, d: int, e: int)
      requires Valid() && h < |t| && 0 <= i < |t| && bh[i] && i <= c < End(i)
      requires d == pos[c] - h && d >= 0 && e == BucketOf(d)
      requires |Landed(e, c)| != |Landed(e, i)|
      requires 0 <= Slot(d) < |t| && MarkOk(v, Slot(d), End(i), i, c)
      ensures !v
    {
      var p := Slot(d);
      Placement(c, i, d, e);
      BucketInterval(e, p);
      assert !bh[p];
      OccOfSlot(d);
      assert Placed(d, End(i));
      InsideBlock(p, e, i);
    }

    /** A later suffix of a pass changes no mark's meaning. */
    lemma LaterSlot(v: bool, s: int, c: int, i: int, d: int, e: int)
      requires Valid() && h < |t| && 0 <= i < |t| && bh[i] && i <= c < End(i)
      requires d == pos[c] - h && d >= 0 && e == BucketOf(d)
      requires |Landed(e, c + 1)| != |Landed(e, i)| && |Landed(e, c)| != |Landed(e, i)|
      requires 0 <= s < |t| && MarkOk(v, s, End(i), i, c)
      ensures MarkOk(v, s, End(i), i, c + 1)
    {
      if !bh[s] && BucketStart(bh, s) != e { PlacementElsewhere(c, BucketStart(bh, s)); }
    }

    /** All the marks keep their meaning past a later suffix of a pass. */
    lemma LaterMarks(b2h: seq<bool>, c: int, i: int, d: int, e: int)
      requires Valid() && h < |t| && 0 <= i < |t| && bh[i] && i <= c < End(i)
      requires d == pos[c] - h && d >= 0 && e == BucketOf(d)
      requires |Landed(e, c + 1)| != |Landed(e, i)| && |Landed(e, c)| != |Landed(e, i)|
      requires MarksAt(b2h, End(i), i, c)
      ensures MarksAt(b2h, End(i), i, c + 1)
    {
      var c1 := c + 1;
      forall s | 0 <= s < |t| ensures MarkAt(b2h, s, End(i), i, c1) {
        assert MarkAt(b2h, s, End(i), i, c);
        LaterSlot(b2h[s], s, c, i, d, e);
      }
    }

    /** The slots after the first one a pass fills in a bucket, up to the end
        of the pass's block, are marked non-starts. */
    lemma BlockInside(b2h: seq<bool>, c: int, i: int, d: int, e: int, p: int, hi: int)
      requires Valid() && h < |t| && 0 <= i < |t| && bh[i] && i <= c < End(i)
      requires d == pos[c] - h && d >= 0 && e == BucketOf(d)
      requires |Landed(e, c)| == |Landed(e, i)| && MarksAt(b2h, End(i), i, c)
      requires p == Slot(d) && hi == e + |Landed(e, End(i))| && hi <= |t|
      ensures forall q :: p + 1 <= q < hi ==> !bh[q] && b2h[q]
    {
      forall q | p + 1 <= q < hi ensures !bh[q] && b2h[q] {
        assert MarkAt(b2h, q, End(i), i, c);
        BlockMarked(b2h[q], q, c, i, d, e);
      }
    }

    /** The marked run the clearing scan meets after the first slot a pass
        fills in a bucket is exactly the rest of the pass's block. */
    lemma BlockRun(b2h: seq<bool>, c: int, i: int, d: int, e: int, p: int, hi: int)
      requires Valid() && h < |t| && 0 <= i < |t| && bh[i] && i <= c < End(i)
      requires d == pos[c] - h && d >= 0 && e == BucketOf(d)
      requires |Landed(e, c)| == |Landed(e, i)| && MarksAt(b2h, End(i), i, c)
      requires p == Slot(d) && hi == e + |Landed(e, End(i))|
      ensures 0 <= p < hi <= |t| && b2h[p]
      ensures bh[e] && p == e + |Landed(e, i)| && e <= p && hi <= End(e) && |Landed(e, c + 1)| != |Landed(e, i)|
      ensures forall q :: p + 1 <= q < hi ==> !bh[q] && b2h[q]
      ensures hi == |t| || bh[hi] || !b2h[hi]
    {
      Placement(c, i, d, e);
      assert MarkAt(b2h, p, End(i), i, c);
      BlockMarked(b2h[p], p, c, i, d, e);
      BlockInside(b2h, c, i, d, e, p, hi);
      if hi < |t| {
        assert MarkAt(b2h, hi, End(i), i, c);
        BlockEnd(b2h[hi], c, i, d, e, hi);
      }
    }

    /** The mark of one slot after the clearing scan from the first suffix
        a pass places in a bucket. */
    lemma ClearedAt(v: bool, w: bool, s: int, c: int, i: int, d: int, e: int, p: int, hi: int)
      requires Valid() && h < |t| && 0 <= i < |t| && bh[i] && i <= c < End(i)
      requires d == pos[c] - h && d >= 0 && e == BucketOf(d) && bh[e]
      requires p == e + |Landed(e, i)| && hi == e + |Landed(e, End(i))| && e <= p < hi <= End(e)
      requires |Landed(e, c)| == |Landed(e, i)| && |Landed(e, c + 1)| != |Landed(e, i)|
      requires 0 <= s < |t| && w == (if p + 1 <= s < hi then false else v)
      requires MarkOk(v, s, End(i), i, c)
      ensures MarkOk(w, s, End(i), i, c + 1)
    {
      if !bh[s] && BucketStart(bh, s) == e {
        ClearedSlot(v, s, c, i, e, p, hi);
      } else {
        if p < s < hi { BucketInterval(e, s); }
        ClearElsewhere(v, s, c, i);
      }
    }

    /** The marks after the clearing scan from the first suffix a pass
        places in a bucket, given pointwise as `b2`. */
    lemma ClearedMarks(b2h: seq<bool>, b2: seq<bool>, c: int, i: int, d: int, e: int, p: int, hi: int)
      requires Valid() && h < |t| && 0 <= i < |t| && bh[i] && i <= c < End(i)
      requires d == pos[c] - h && d >= 0 && e == BucketOf(d) && bh[e]
      requires p == e + |Landed(e, i)| && hi == e + |Landed(e, End(i))| && e <= p < hi <= End(e)
      requires |Landed(e, c)| == |Landed(e, i)| && |Landed(e, c + 1)| != |Landed(e, i)|
      requires MarksAt(b2h, End(i), i, c)
      requires |b2| == |t| && forall q :: 0 <= q < |t| ==> b2[q] == if p + 1 <= q < hi then false else b2h[q]
      ensures MarksAt(b2, End(i), i, c + 1)
    {
      var c1 := c + 1;
      forall s | 0 <= s < |t| ensures MarkAt(b2, s, End(i), i, c1) {
        assert MarkAt(b2h, s, End(i), i, c);
        ClearedAt(b2h[s], b2[s], s, c, i, d, e, p, hi);
      }
    }

    /** The first suffix a pass places in a bucket finds its slot marked,
        followed by a marked run of non-starts up to the end of the pass's
        block, which the clearing scan unmarks. */
    lemma ClearFirst(b2h: seq<bool>, c: int, i: int, d: int, e: int, p: int, hi: int)
      requires Valid() && h < |t| && 0 <= i < |t| && bh[i] && i <= c < End(i)
      requires d == pos[c] - h && d >= 0 && e == BucketOf(d) && p == Slot(d)
      requires hi == e + |Landed(e, End(i))|
      requires |Landed(e, c)| == |Landed(e, i)| && MarksAt(b2h, End(i), i, c)
      ensures 0 <= p < hi <= |t| && b2h[p]
      ensures ClearRun(bh, b2h, p + 1) == Unmark(b2h, p + 1, hi)
    {
      BlockRun(b2h, c, i, d, e, p, hi);
      ClearRunStops(bh, b2h, p + 1, hi);
    }

    /** Unmarking the rest of the block leaves the marks as `MarksAt`
        describes them one position later. */
    lemma ClearFirstMarks(b2h: seq<bool>, c: int, i: int, d: int, e: int, p: int, hi: int)
      requires Valid() && h < |t| && 0 <= i < |t| && bh[i] && i <= c < End(i)
      requires d == pos[c] - h && d >= 0 && e == BucketOf(d) && p == Slot(d)
      requires hi == e + |Landed(e, End(i))|
      requires |Landed(e, c)| == |Landed(e, i)| && MarksAt(b2h, End(i), i, c)
      ensures MarksAt(Unmark(b2h, p + 1, hi), End(i), i, c + 1)
    {
      Placement(c, i, d, e);
      ClearedMarks(b2h, Unmark(b2h, p + 1, hi), c, i, d, e, p, hi);
    }

    /** The clearing scan from the first suffix a pass places in a bucket
        unmarks exactly the rest of the pass's block there. */
    lemma ClearFirstRun(b2h: seq<bool>, c: int, i: int, d: int, e: int, p: int)
      requires Valid() && h < |t| && 0 <= i < |t| && bh[i] && i <= c < End(i)
      requires d == pos[c] - h && d >= 0 && e == BucketOf(d) && p == Slot(d)
      requires |Landed(e, c)| == |Landed(e, i)| && MarksAt(b2h, End(i), i, c)
      ensures 0 <= p < |t| && b2h[p]
      ensures MarksAt(ClearRun(bh, b2h, p + 1), End(i), i, c + 1)
    {
      var hi := e + |Landed(e, End(i))|;
      ClearFirst(b2h, c, i, d, e, p, hi);
      ClearFirstMarks(b2h, c, i, d, e, p, hi);
    }

    /** A later suffix of a pass finds its slot unmarked and leaves the
        marks alone. */
    lemma ClearLater(b2h: seq<bool>, c: int, i: int, d: int, e: int)
      requires Valid() && h < |t| && 0 <= i < |t| && bh[i] && i <= c < End(i)
      requires d == pos[c] - h && d >= 0 && e == BucketOf(d)
      requires |Landed(e, c)| != |Landed(e, i)| && MarksAt(b2h, End(i), i, c)
      ensures 0 <= Slot(d) < |t| && !b2h[Slot(d)]
      ensures MarksAt(b2h, End(i), i, c + 1)
    {
      Placement(c, i, d, e);
      assert MarkAt(b2h, Slot(d), End(i), i, c);
      LaterUnmarked(b2h[Slot(d)], c, i, d, e);
      LaterMarks(b2h, c, i, d, e);
    }

    /** One step of the clearing scan of pass `i`, at position `c`: the
        suffix `d` that `c` placed is found at `prm[d]`; if its slot is
        marked, the scan clears the slots after it. */
    lemma ClearStep(prm: seq<int>, b2h: seq<bool>, c: int, i: int)
      requires Valid() && h < |t| && 0 <= i < |t| && bh[i] && i <= c < End(i)
      requires PrmAt(prm, End(i)) && MarksAt(b2h, End(i), i, c)
      ensures pos[c] - h < 0 ==> MarksAt(b2h, End(i), i, c + 1)
      ensures pos[c] - h >= 0 ==>
          && 0 <= prm[pos[c] - h] < |t|
          && (b2h[prm[pos[c] - h]] ==> MarksAt(ClearRun(bh, b2h, prm[pos[c] - h] + 1), End(i), i, c + 1))
          && (!b2h[prm[pos[c] - h]] ==> MarksAt(b2h, End(i), i, c + 1))
    {
      if pos[c] - h < 0 {
        ClearStepNone(b2h, c, i);
      } else {
        PrmSlot(prm, c, i);
        ClearStepPlaced(b2h, c, i, prm[pos[c] - h]);
      }
    }

    /** `prm` gives the slot of the suffix that `c` places. */
    lemma PrmSlot(prm: seq<int>, c: int, i: int)
      requires Valid() && h < |t| && 0 <= i < |t| && bh[i] && i <= c < End(i)
      requires PrmAt(prm, End(i)) && pos[c] - h >= 0
      ensures pos[c] - h < |t| && prm[pos[c] - h] == Slot(pos[c] - h)
    {
      var d := pos[c] - h;
      PlacementPass(c, i, d);
      assert Placed(d, End(i)) && PrmOk(prm, d, End(i));
    }

    /** A position whose suffix has no predecessor `h` back clears nothing. */
    lemma ClearStepNone(b2h: seq<bool>, c: int, i: int)
      requires Valid() && h < |t| && 0 <= i < |t| && bh[i] && i <= c < End(i)
      requires MarksAt(b2h, End(i), i, c) && pos[c] - h < 0
      ensures MarksAt(b2h, End(i), i, c + 1)
    {
      var c1 := c + 1;
      forall s | 0 <= s < |t| ensures MarkAt(b2h, s, End(i), i, c1) {
        assert MarkAt(b2h, s, End(i), i, c);
        ClearElsewhere(b2h[s], s, c, i);
      }
    }

    lemma ClearStepPlaced(b2h: seq<bool>, c: int, i: int, p: int)
      requires Valid() && h < |t| && 0 <= i < |t| && bh[i] && i <= c < End(i)
      requires MarksAt(b2h, End(i), i, c) && 0 <= pos[c] - h < |t| && p == Slot(pos[c] - h)
      ensures 0 <= p < |t|
      ensures b2h[p] ==> MarksAt(ClearRun(bh, b2h, p + 1), End(i), i, c + 1)
      ensures !b2h[p] ==> MarksAt(b2h, End(i), i, c + 1)
    {
      var d := pos[c] - h;
      var e := BucketOf(d);
      if |Landed(e, c)| == |Landed(e, i)| {
        ClearFirstRun(b2h, c, i, d, e, p);
      } else {
        ClearLater(b2h, c, i, d, e);
      }
    }

    // -------------------------------------------------------------------
    // Between passes and at the ends of a round

    /** Once pass `i` is placed and cleared, the marks read the same for the
        next pass, which starts at `End(i)`. */
    lemma PassAdvanceAt(v: bool, s: int, i: int, next: int)
      requires Valid() && h < |t| && 0 <= i < |t| && bh[i] && next == End(i) && 0 <= s < |t|
      requires MarkOk(v, s, next, i, next)
      ensures MarkOk(v, s, next, next, next)
    {
      if !bh[s] {
        OccInBucket(s);
        var x, e := Occ()[s], BucketStart(bh, s);
        if Placed(x, next) && Ord(x) >= 0 {
          assert Pass(x) == BucketStart(bh, Ord(x));
          if Ord(x) >= i {
            SlotBelow(x, i);
            SlotBelow(x, next);
          }
        }
      }
    }

    lemma PassAdvance(b2h: seq<bool>, i: int, next: int)
      requires Valid() && h < |t| && 0 <= i < |t| && bh[i] && next == End(i)
      requires MarksAt(b2h, next, i, next)
      ensures MarksAt(b2h, next, next, next)
    {
      forall s | 0 <= s < |t| ensures MarkAt(b2h, s, next, next, next) {
        assert MarkAt(b2h, s, next, i, next);
        PassAdvanceAt(b2h[s], s, i, next);
      }
    }

    /** The suffix `n - h`, placed before the scan, lands at the start of its
        bucket. */
    lemma LastSuffix()
      requires WellFormed() && h < |t|
      ensures Moved(|t| - h) && Placed(|t| - h, 0) && bh[BucketOf(|t| - h)]
      ensures Slot(|t| - h) == BucketOf(|t| - h)
      ensures forall e :: |Landed(e, 0)| == if e == BucketOf(|t| - h) then 1 else 0
    {
    }

    /** `prm` before the scan: every suffix at its bucket start; placing
        `n - h` at that start gives `PrmAt(_, 0)`. */
    lemma StartPrm(prm: seq<int>)
      requires WellFormed() && h < |t|
      requires |prm| == |t| && forall x :: 0 <= x < |t| ==> prm[x] == BucketOf(x)
      ensures PrmAt(prm[|t| - h := Slot(|t| - h)], 0)
    {
      LastSuffix();
      var p := prm[|t| - h := Slot(|t| - h)];
      forall x | 0 <= x < |t| ensures PrmOk(p, x, 0) {
        if x != |t| - h { assert !Placed(x, 0); }
      }
    }

    /** `count` before the scan is zero on every bucket start; counting
        `n - h` gives `CountAt(_, 0)`. */
    lemma StartCount(count: seq<int>)
      requires WellFormed() && h < |t|
      requires |count| == |t| && forall e :: 0 <= e < |t| && bh[e] ==> count[e] == 0
      ensures var e := BucketOf(|t| - h); CountAt(count[e := count[e] + 1], 0)
    {
      LastSuffix();
      var e := BucketOf(|t| - h);
      var k := count[e := count[e] + 1];
      forall e' | 0 <= e' < |t| ensures CountOk(k, e', 0) {
      }
    }

    /** Marks left over from the previous round sit on bucket starts only;
        marking the slot of `n - h` gives `MarksAt(_, 0, 0, 0)`. */
    lemma StartMarks(b2h: seq<bool>)
      requires Valid() && h < |t|
      requires |b2h| == |t| && forall s :: 0 <= s < |t| && b2h[s] ==> bh[s]
      ensures MarksAt(b2h[Slot(|t| - h) := true], 0, 0, 0)
    {
      LastSuffix();
      var d := |t| - h;
      var b := b2h[Slot(d) := true];
      forall s | 0 <= s < |t| ensures MarkAt(b, s, 0, 0, 0) {
        if s != Slot(d) {
          OccSlot(s);
          assert Occ()[s] != d;
          assert !Placed(Occ()[s], 0);
        } else {
          OccOfSlot(d);
        }
      }
    }

    /** After the last pass, `prm` holds every suffix's slot. */
    lemma EndPrm(prm: seq<int>)
      requires WellFormed() && h < |t| && PrmAt(prm, |t|)
      ensures prm == Slots()
    {
      forall x | 0 <= x < |t| ensures prm[x] == Slots()[x] {
        assert PrmOk(prm, x, |t|);
        SlotsAt(x);
        if Moved(x) && x + h < |t| { assert 0 <= inv[x + h] < |t|; }
      }
    }

    /** After the last pass, the old marks joined with `b2h` are the next
        round's marks. */
    lemma EndMarks(b2h: seq<bool>)
      requires Valid() && h < |t| && MarksAt(b2h, |t|, |t|, |t|)
      ensures forall s :: 0 <= s < |t| ==> (bh[s] || b2h[s]) == NextMarks()[s]
    {
      forall s | 0 <= s < |t| ensures (bh[s] || b2h[s]) == NextMarks()[s] {
        if !bh[s] {
          assert MarkAt(b2h, s, |t|, |t|, |t|);
          OccInBucket(s);
          var x := Occ()[s];
          if x + h < |t| { assert 0 <= inv[x + h] < |t|; }
          assert Placed(x, |t|);
          assert Pass(x) < |t|;
        }
      }
    }

    // -------------------------------------------------------------------
    // The last round

    /** Once `h` covers every suffix, or every position starts its own
        bucket, `pos` is strictly sorted by suffix. */
    lemma FinalPair(a: int, b: int)
      requires Valid() && 0 <= a < b < |t|
      requires h >= |t| || forall s :: 0 <= s < |t| ==> bh[s]
      ensures Less(t[pos[a]..], t[pos[b]..])
    {
      var x, y := pos[a], pos[b];
      if h >= |t| {
        assert KeysOrdered(a, b);
        PreWhole(t, x, h);
        PreWhole(t, y, h);
        assert x != y;
        assert |t[x..]| != |t[y..]|;
      } else {
        assert bh[b];
        AcrossBucketsLess(a, b);
        PreLessExtends(t, x, y, h, h);
      }
    }

    lemma FinalOrder()
      requires Valid()
      requires h >= |t| || forall s :: 0 <= s < |t| ==> bh[s]
      ensures forall a, b :: 0 <= a < b < |t| ==> Less(t[pos[a]..], t[pos[b]..])
    {
      forall a, b | 0 <= a < b < |t| ensures Less(t[pos[a]..], t[pos[b]..]) {
        FinalPair(a, b);
      }
    }
  }

  /** The base case: positions sorted by first byte, marked where the first
      byte changes, form a valid round for `h = 1`. */
  lemma FirstByteRound(t: seq<byte>, pos: seq<int>, inv: seq<int>, bh: seq<bool>)
    requires |t| >= 1 && |bh| == |t| && IsInverse(pos, inv) && |pos| == |t| && bh[0]
    requires forall a, b :: 0 <= a < b < |t| ==> t[pos[a]] <= t[pos[b]]
    requires forall s :: 0 < s < |t| ==> (bh[s] <==> t[pos[s - 1]] != t[pos[s]])
    ensures Round(t, 1, pos, inv, bh).Valid()
  {
    var r := Round(t, 1, pos, inv, bh);
    assert r.WellFormed();
    forall s | 0 <= s < |t| ensures r.Key(s) == [t[pos[s]]] {
    }
    forall a, b | 0 <= a < b < |t| ensures r.KeysOrdered(a, b) {
      assert Leq(r.Key(a)[1..], r.Key(b)[1..]);
    }
    forall s | 0 < s < |t| ensures r.MarkExact(s) {
    }
  }

  /** Two `2h`-prefixes sharing their first half compare as their second
      halves do, and differ exactly when those do. */
  lemma JoinKeys(t: seq<byte>, x: int, y: int, h: int, differ: bool)
    requires 0 <= h && 0 <= x && x + h <= |t| && 0 <= y && y + h <= |t|
    requires Pre(t, x, h) == Pre(t, y, h) && Leq(Pre(t, x + h, h), Pre(t, y + h, h))
    requires Pre(t, x + h, h) != Pre(t, y + h, h) <==> differ
    ensures Leq(Pre(t, x, 2 * h), Pre(t, y, 2 * h))
    ensures Pre(t, x, 2 * h) != Pre(t, y, 2 * h) <==> differ
  {
    PreSplit(t, x, h);
    PreSplit(t, y, h);
    var k, a, b := Pre(t, x, h), Pre(t, x + h, h), Pre(t, y + h, h);
    ConcatSameStart(k, a, b);
    CommonPrefix(k, a, b);
  }

  /** The text "aa" after the first-byte sort: one bucket holding both
      suffixes. In the round for `h = 1`, suffix 0 is placed by the pass over
      that bucket (its successor 1 sits there) and lands in the last slot, so
      the clearing scan for it starts at `f = |t|`: the source's loop, which
      has no `f < n` bound, then tests `bh[n]`, one past the end. */
  lemma ClearScanOverrun()
    ensures var r := Round([97, 97], 1, [0, 1], [0, 1], [true, false]);
      && r.Valid() && r.Moved(0) && r.Pass(0) == 0
      && r.Slot(0) + 1 == |r.t|
  {
    var r := Round([97, 97], 1, [0, 1], [0, 1], [true, false]);
    assert r.WellFormed();
    assert r.Key(0) == [97] && r.Key(1) == [97];
    assert r.BucketOf(1) == 0 && r.BucketOf(0) == 0;
    assert r.Landed(0, 2) == [1, 0];
  }

  /** What the clearing scan leaves of the marks `b2h`: starting at `f`, it
      unmarks slots until it meets a bucket start, an unmarked slot or the
      end of the array. */
  function ClearRun(bh: seq<bool>, b2h: seq<bool>, f: int): (r: seq<bool>)
    requires |bh| == |b2h| && 0 <= f <= |bh|
    ensures |r| == |b2h|
    decreases |bh| - f
  {
    if f < |bh| && !bh[f] && b2h[f] then ClearRun(bh, b2h[f := false], f + 1) else b2h
  }

  /** `b` with the positions `[lo, hi)` unmarked. */
  function Unmark(b: seq<bool>, lo: int, hi: int): (r: seq<bool>)
    ensures |r| == |b|
    ensures forall q :: 0 <= q < |b| ==> r[q] == if lo <= q < hi then false else b[q]
  {
    seq(|b|, q requires 0 <= q < |b| => if lo <= q < hi then false else b[q])
  }

  /** The scan clears exactly the marked run of non-starts from `f`. */
  lemma {:induction false} ClearRunStops(bh: seq<bool>, b2h: seq<bool>, f: int, stop: int)
    requires |bh| == |b2h| && 0 <= f <= stop <= |bh|
    requires forall q :: f <= q < stop ==> !bh[q] && b2h[q]
    requires stop == |bh| || bh[stop] || !b2h[stop]
    ensures ClearRun(bh, b2h, f) == Unmark(b2h, f, stop)
    decreases stop - f
  {
    if f < stop {
      ClearRunStops(bh, b2h[f := false], f + 1, stop);
      assert Unmark(b2h[f := false], f + 1, stop) == Unmark(b2h, f, stop);
    } else {
      assert Unmark(b2h, f, stop) == b2h;
    }
  }
}
