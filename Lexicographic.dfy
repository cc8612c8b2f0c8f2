/** Lexicographic order on byte strings, bytes compared as unsigned values and
    a proper prefix ordered first: the order of `std::string::compare`. */
module Lexicographic {
  import opened Bytes

  /** `a` sorts at or before `b`. */
  predicate Leq(a: seq<byte>, b: seq<byte>)
    decreases |a|
  {
    |a| == 0 || (|b| > 0 && (a[0] < b[0] || (a[0] == b[0] && Leq(a[1..], b[1..]))))
  }

  /** `a` sorts strictly before `b`. */
  predicate Less(a: seq<byte>, b: seq<byte>)
  {
    Leq(a, b) && a != b
  }

  lemma {:induction false} LeqRefl(a: seq<byte>)
    ensures Leq(a, a)
  {
    if |a| > 0 { LeqRefl(a[1..]); }
  }

  lemma {:induction false} LeqAntisym(a: seq<byte>, b: seq<byte>)
    requires Leq(a, b) && Leq(b, a)
    ensures a == b
  {
    if |a| > 0 {
      LeqAntisym(a[1..], b[1..]);
      assert a == [a[0]] + a[1..] && b == [b[0]] + b[1..];
    }
  }

  lemma {:induction false} LeqTrans(a: seq<byte>, b: seq<byte>, c: seq<byte>)
    requires Leq(a, b) && Leq(b, c)
    ensures Leq(a, c)
  {
    if |a| > 0 && a[0] == b[0] && b[0] == c[0] {
      LeqTrans(a[1..], b[1..], c[1..]);
    }
  }

  lemma {:induction false} LeqTotal(a: seq<byte>, b: seq<byte>)
    ensures Leq(a, b) || Leq(b, a)
  {
    if |a| > 0 && |b| > 0 && a[0] == b[0] {
      LeqTotal(a[1..], b[1..]);
    }
  }

  /** The order is total and strict on distinct strings. */
  lemma LessOrGreater(a: seq<byte>, b: seq<byte>)
    requires a != b
    ensures Less(a, b) != Less(b, a)
  {
    LeqTotal(a, b);
    if Leq(a, b) && Leq(b, a) { LeqAntisym(a, b); }
  }

  lemma LessLeqTrans(a: seq<byte>, b: seq<byte>, c: seq<byte>)
    requires (Less(a, b) && Leq(b, c)) || (Leq(a, b) && Less(b, c))
    ensures Less(a, c)
  {
    LeqTrans(a, b, c);
    if a == c { LeqAntisym(a, b); }
  }

  /** A prefix sorts at or before the string it starts. */
  lemma {:induction false} PrefixLeq(a: seq<byte>, b: seq<byte>)
    requires a <= b
    ensures Leq(a, b)
  {
    if |a| > 0 { PrefixLeq(a[1..], b[1..]); }
  }

  /** A common prefix does not change the order. */
  lemma {:induction false} CommonPrefix(x: seq<byte>, a: seq<byte>, b: seq<byte>)
    requires Leq(a, b)
    ensures Leq(x + a, x + b)
  {
    if |x| > 0 {
      CommonPrefix(x[1..], a, b);
      assert (x + a)[1..] == x[1..] + a && (x + b)[1..] == x[1..] + b;
    } else {
      assert x + a == a && x + b == b;
    }
  }

  /** A strict order between `x1` and `x2` carries over to strings they start,
      as long as a proper prefix `x1` of `x2` is not extended. */
  lemma {:induction false} LessExtend(x1: seq<byte>, x2: seq<byte>, y1: seq<byte>, y2: seq<byte>)
    requires Less(x1, x2) && x1 <= y1 && x2 <= y2
    requires |x1| < |x2| ==> y1 == x1
    ensures Less(y1, y2)
  {
    if |x1| == 0 {
      assert |y2| > 0;
    } else if x1[0] < x2[0] {
      assert y1[0] == x1[0] && y2[0] == x2[0];
    } else {
      assert x1 == [x1[0]] + x1[1..] && x2 == [x2[0]] + x2[1..];
      LessExtend(x1[1..], x2[1..], y1[1..], y2[1..]);
      assert y1[0] == y2[0];
      assert y1 == [y1[0]] + y1[1..] && y2 == [y2[0]] + y2[1..];
    }
  }

  /** Strings with a common start are equal exactly when their rests are;
      and a string extends its own start. */
  lemma ConcatSameStart(k: seq<byte>, a: seq<byte>, b: seq<byte>)
    ensures k + a == k + b <==> a == b
    ensures a == [] ==> k + a <= k + b
  {
    assert (k + a)[|k|..] == a && (k + b)[|k|..] == b;
  }

  /** `std::string::compare`: negative, zero or positive as `a` sorts
      before, equal to or after `b`. */
  function Compare(a: seq<byte>, b: seq<byte>): (r: int)
    ensures -1 <= r <= 1
  {
    if |a| == 0 then (if |b| == 0 then 0 else -1)
    else if |b| == 0 then 1
    else if a[0] < b[0] then -1
    else if a[0] > b[0] then 1
    else Compare(a[1..], b[1..])
  }

  /** The sign of `Compare` is the order. */
  lemma {:induction false} CompareSign(a: seq<byte>, b: seq<byte>)
    ensures Compare(a, b) < 0 <==> Less(a, b)
    ensures Compare(a, b) > 0 <==> Less(b, a)
    ensures Compare(a, b) == 0 <==> a == b
  {
    if |a| > 0 && |b| > 0 {
      CompareSign(a[1..], b[1..]);
      assert a == [a[0]] + a[1..] && b == [b[0]] + b[1..];
    }
  }
}
