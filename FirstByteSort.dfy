/** The base case of the suffix-array construction: the positions of a text
    sorted by their first byte, as unsigned values. */
module FirstByteSort {
  import opened Bytes
  import opened SuffixOrder
  import Lexicographic

  /** The value of a byte as a signed `char`, the type `text[i]` has in the
      base-case comparator of src/sufarray.cpp:26. */
  function SignedChar(b: byte): (r: int)
    ensures -128 <= r < 128
    ensures r % 256 == b
  {
    if b < 128 then b else b - 256
  }

  /** The comparator of src/sufarray.cpp:26 as written: `text[i] < text[j]`
      on signed `char`s. */
  predicate SignedCharLess(t: seq<byte>, i: int, j: int)
    requires 0 <= i < |t| && 0 <= j < |t|
  {
    SignedChar(t[i]) < SignedChar(t[j])
  }

  /** On the text [200, 65] the comparator as written puts position 0
      before position 1, while the suffix order that the search uses (and
      that `SortByFirstByte` follows) puts suffix 1 first. */
  lemma SignedCharOrderDiffers()
    ensures var t: seq<byte> := [200, 65];
      && SignedCharLess(t, 0, 1) && !SignedCharLess(t, 1, 0)
      && Lexicographic.Less(t[1..], t[0..])
      && Below(t, 256) == [1, 0]
  {
    var t: seq<byte> := [200, 65];
    assert t[1..] == [65];
    BelowExample(t);
  }

  lemma BelowExample(t: seq<byte>)
    requires t == [200, 65]
    ensures Below(t, 256) == [1, 0]
  {
    BelowExampleLow(t);
    HoldingExample(t);
    BelowSkip(t, 201, 256);
  }

  lemma BelowExampleLow(t: seq<byte>)
    requires t == [200, 65]
    ensures Below(t, 200) == [1]
  {
    BelowSkip(t, 0, 65);
    HoldingExample(t);
    BelowSkip(t, 66, 200);
  }

  lemma HoldingExample(t: seq<byte>)
    requires t == [200, 65]
    ensures Holding(t, 65, 2) == [1] && Holding(t, 200, 2) == [0]
  {
    assert Holding(t, 65, 1) == [];
    assert Holding(t, 200, 1) == [0];
  }

  /** Byte values that do not occur add no positions. */
  lemma {:induction false} BelowSkip(t: seq<byte>, lo: int, hi: int)
    requires 0 <= lo <= hi
    requires forall k :: 0 <= k < |t| ==> t[k] < lo || t[k] >= hi
    ensures Below(t, hi) == Below(t, lo)
    decreases hi
  {
    if lo < hi {
      BelowSkip(t, lo, hi - 1);
      HoldingNone(t, hi - 1, |t|);
    }
  }

  lemma {:induction false} HoldingNone(t: seq<byte>, v: int, i: int)
    requires 0 <= i <= |t| && forall k :: 0 <= k < i ==> t[k] != v
    ensures Holding(t, v, i) == []
  {
    if i > 0 { HoldingNone(t, v, i - 1); }
  }

  /** The positions below `i` that hold byte `v`, in increasing order. */
  function Holding(t: seq<byte>, v: int, i: int): (r: seq<int>)
    requires 0 <= i <= |t|
    decreases i
  {
    if i == 0 then [] else Holding(t, v, i - 1) + (if t[i - 1] == v then [i - 1] else [])
  }

  /** The positions holding a byte below `v`, ordered by byte and then by
      position. */
  function Below(t: seq<byte>, v: int): (r: seq<int>)
    requires 0 <= v
    decreases v
  {
    if v == 0 then [] else Below(t, v - 1) + Holding(t, v - 1, |t|)
  }

  /** The number of positions below `i` holding a byte below `v`. */
  function CountBelow(t: seq<byte>, v: int, i: int): (r: nat)
    requires 0 <= i <= |t|
    ensures r <= i
    decreases i
  {
    if i == 0 then 0 else CountBelow(t, v, i - 1) + (if t[i - 1] < v then 1 else 0)
  }

  lemma HoldingFacts(t: seq<byte>, v: int, i: int)
    requires 0 <= i <= |t|
    ensures forall k :: 0 <= k < |Holding(t, v, i)| ==> 0 <= Holding(t, v, i)[k] < i && t[Holding(t, v, i)[k]] == v
    ensures forall a, b :: 0 <= a < b < |Holding(t, v, i)| ==> Holding(t, v, i)[a] < Holding(t, v, i)[b]
    ensures forall x :: 0 <= x < i && t[x] == v ==> x in Holding(t, v, i)
  {
    HoldingIn(t, v, i);
    HoldingSorted(t, v, i);
    HoldingComplete(t, v, i);
  }

  /** The positions listed hold `v` and lie below `i`. */
  lemma {:induction false} HoldingIn(t: seq<byte>, v: int, i: int)
    requires 0 <= i <= |t|
    ensures forall k :: 0 <= k < |Holding(t, v, i)| ==> 0 <= Holding(t, v, i)[k] < i && t[Holding(t, v, i)[k]] == v
    decreases i
  {
    if i > 0 {
      HoldingIn(t, v, i - 1);
      var H0, H := Holding(t, v, i - 1), Holding(t, v, i);
      forall k | 0 <= k < |H| ensures 0 <= H[k] < i && t[H[k]] == v {
        if k < |H0| { assert H[k] == H0[k]; }
      }
    }
  }

  /** The positions are listed in increasing order. */
  lemma {:induction false} HoldingSorted(t: seq<byte>, v: int, i: int)
    requires 0 <= i <= |t|
    ensures forall a, b :: 0 <= a < b < |Holding(t, v, i)| ==> Holding(t, v, i)[a] < Holding(t, v, i)[b]
    decreases i
  {
    if i > 0 {
      HoldingSorted(t, v, i - 1);
      HoldingIn(t, v, i - 1);
      var H0, H := Holding(t, v, i - 1), Holding(t, v, i);
      forall a, b | 0 <= a < b < |H| ensures H[a] < H[b] {
        assert H[a] == H0[a];
        if b < |H0| { assert H[b] == H0[b]; } else { assert H[b] == i - 1; }
      }
    }
  }

  /** Every position below `i` holding `v` is listed. */
  lemma {:induction false} HoldingComplete(t: seq<byte>, v: int, i: int)
    requires 0 <= i <= |t|
    ensures forall x :: 0 <= x < i && t[x] == v ==> x in Holding(t, v, i)
    decreases i
  {
    if i > 0 {
      HoldingComplete(t, v, i - 1);
      var H0, H := Holding(t, v, i - 1), Holding(t, v, i);
      forall x | 0 <= x < i && t[x] == v ensures x in H {
        if x < i - 1 {
          var k :| 0 <= k < |H0| && H0[k] == x;
          assert H[k] == x;
        } else {
          assert H[|H| - 1] == x;
        }
      }
    }
  }

  lemma {:induction false} HoldingCount(t: seq<byte>, v: int, i: int)
    requires 0 <= i <= |t|
    ensures |Holding(t, v, i)| + CountBelow(t, v, i) == CountBelow(t, v + 1, i)
    decreases i
  {
    if i > 0 {
      HoldingCount(t, v, i - 1);
    }
  }

  lemma {:induction false} HoldingMonotone(t: seq<byte>, v: int, i: int, j: int)
    requires 0 <= i <= j <= |t|
    ensures |Holding(t, v, i)| <= |Holding(t, v, j)|
    decreases j
  {
    if i < j { HoldingMonotone(t, v, i, j - 1); }
  }

  /** `Below(t, v)` lists, without repetition and in order of their bytes,
      exactly the positions holding a byte below `v`. */
  lemma BelowFacts(t: seq<byte>, v: int)
    requires 0 <= v
    ensures forall k :: 0 <= k < |Below(t, v)| ==> 0 <= Below(t, v)[k] < |t| && t[Below(t, v)[k]] < v
    ensures forall a, b :: 0 <= a < b < |Below(t, v)| ==>
      t[Below(t, v)[a]] <= t[Below(t, v)[b]] && Below(t, v)[a] != Below(t, v)[b]
    ensures forall x :: 0 <= x < |t| && t[x] < v ==> x in Below(t, v)
  {
    BelowIn(t, v);
    BelowOrdered(t, v);
    BelowComplete(t, v);
  }

  /** The positions listed hold a byte below `v`. */
  lemma {:induction false} BelowIn(t: seq<byte>, v: int)
    requires 0 <= v
    ensures forall k :: 0 <= k < |Below(t, v)| ==> 0 <= Below(t, v)[k] < |t| && t[Below(t, v)[k]] < v
    decreases v
  {
    if v > 0 {
      BelowIn(t, v - 1);
      HoldingIn(t, v - 1, |t|);
      var B, H := Below(t, v - 1), Holding(t, v - 1, |t|);
      assert Below(t, v) == B + H;
      forall k | 0 <= k < |B + H| ensures 0 <= (B + H)[k] < |t| && t[(B + H)[k]] < v {
        if k < |B| { assert (B + H)[k] == B[k]; } else { assert (B + H)[k] == H[k - |B|]; }
      }
    }
  }

  /** The positions are listed by increasing byte, each once. */
  lemma {:induction false} BelowOrdered(t: seq<byte>, v: int)
    requires 0 <= v
    ensures forall k :: 0 <= k < |Below(t, v)| ==> 0 <= Below(t, v)[k] < |t|
    ensures forall a, b :: 0 <= a < b < |Below(t, v)| ==>
      t[Below(t, v)[a]] <= t[Below(t, v)[b]] && Below(t, v)[a] != Below(t, v)[b]
    decreases v
  {
    BelowIn(t, v);
    if v > 0 {
      BelowOrdered(t, v - 1);
      BelowIn(t, v - 1);
      HoldingIn(t, v - 1, |t|);
      HoldingSorted(t, v - 1, |t|);
      var B, H := Below(t, v - 1), Holding(t, v - 1, |t|);
      assert Below(t, v) == B + H;
      forall a, b | 0 <= a < b < |B + H|
        ensures t[(B + H)[a]] <= t[(B + H)[b]] && (B + H)[a] != (B + H)[b]
      {
        if b < |B| {
          assert (B + H)[a] == B[a] && (B + H)[b] == B[b];
        } else if a < |B| {
          assert (B + H)[a] == B[a] && (B + H)[b] == H[b - |B|];
          assert t[B[a]] < v - 1 && t[H[b - |B|]] == v - 1;
        } else {
          assert (B + H)[a] == H[a - |B|] && (B + H)[b] == H[b - |B|];
          assert H[a - |B|] < H[b - |B|];
        }
      }
    }
  }

  /** Every position holding a byte below `v` is listed. */
  lemma {:induction false} BelowComplete(t: seq<byte>, v: int)
    requires 0 <= v
    ensures forall x :: 0 <= x < |t| && t[x] < v ==> x in Below(t, v)
    decreases v
  {
    if v > 0 {
      BelowComplete(t, v - 1);
      HoldingComplete(t, v - 1, |t|);
      var B, H := Below(t, v - 1), Holding(t, v - 1, |t|);
      assert Below(t, v) == B + H;
      forall x | 0 <= x < |t| && t[x] < v ensures x in B + H {
        if t[x] < v - 1 { assert x in B; } else { assert x in H; }
      }
    }
  }

  lemma {:induction false} BelowCount(t: seq<byte>, v: int)
    requires 0 <= v
    ensures |Below(t, v)| == CountBelow(t, v, |t|)
    decreases v
  {
    if v > 0 {
      BelowCount(t, v - 1);
      HoldingCount(t, v - 1, |t|);
      assert Below(t, v) == Below(t, v - 1) + Holding(t, v - 1, |t|);
    } else {
      CountBelowNone(t, |t|);
    }
  }

  /** No byte is below 0. */
  lemma {:induction false} CountBelowNone(t: seq<byte>, i: int)
    requires 0 <= i <= |t|
    ensures CountBelow(t, 0, i) == 0
    decreases i
  {
    if i > 0 { CountBelowNone(t, i - 1); }
  }

  /** Every byte is below 256. */
  lemma {:induction false} CountBelowAll(t: seq<byte>, i: int)
    requires 0 <= i <= |t|
    ensures CountBelow(t, 256, i) == i
    decreases i
  {
    if i > 0 { CountBelowAll(t, i - 1); }
  }

  /** Before position `i` with byte `v` is written, there is room for it. */
  lemma RoomFor(t: seq<byte>, v: int, i: int)
    requires 0 <= v && 0 <= i < |t| && t[i] == v
    ensures |Below(t, v)| + |Holding(t, v, i)| < |t|
  {
    BelowCount(t, v);
    HoldingCount(t, v, |t|);
    HoldingMonotone(t, v, i + 1, |t|);
    assert |Holding(t, v, i + 1)| == |Holding(t, v, i)| + 1;
  }

  /** The base case's result: a permutation of the positions, sorted by
      first byte. */
  lemma SortedPermutation(t: seq<byte>)
    ensures |Below(t, 256)| == |t|
    ensures forall k :: 0 <= k < |t| ==> 0 <= Below(t, 256)[k] < |t|
    ensures forall a, b :: 0 <= a < b < |t| ==>
      t[Below(t, 256)[a]] <= t[Below(t, 256)[b]] && Below(t, 256)[a] != Below(t, 256)[b]
  {
    BelowFacts(t, 256);
    BelowCount(t, 256);
    CountBelowAll(t, |t|);
  }

  /** Lines the positions of `t` up by first byte: for each byte value in
      increasing order, the positions holding it, in increasing order. */
  method SortByFirstByte(t: seq<byte>) returns (pos: array<int>)
    ensures fresh(pos) && pos[..] == Below(t, 256)
  {
    pos := new int[|t|];
    var k, v := 0, 0;
    while v < 256
      invariant 0 <= v <= 256 && 0 <= k <= pos.Length
      invariant pos[..k] == Below(t, v)
    {
      var i := 0;
      while i < |t|
        invariant 0 <= i <= |t| && 0 <= k <= pos.Length
        invariant pos[..k] == Below(t, v) + Holding(t, v, i)
      {
        if t[i] == v {
          RoomFor(t, v, i);
          pos[k] := i;
          k := k + 1;
        }
        i := i + 1;
      }
      v := v + 1;
    }
    SortedPermutation(t);
    assert pos[..] == pos[..k];
  }
}
