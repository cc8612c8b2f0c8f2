/** Indexing followed by searching: the suffix array built for a text, then
    queried for a pattern, yields every offset where the pattern occurs. */
module Query {
  import opened Bytes
  import opened Lexicographic
  import opened SuffixArray
  import opened Search

  /** A suffix array is sorted by suffix and lists every offset of the text. */
  lemma SuffixArrayFacts(text: seq<byte>, sa: seq<int>)
    requires IsSuffixArray(text, sa)
    ensures SortedBySuffix(text, sa)
    ensures forall x :: x in sa <==> 0 <= x < |text|
    ensures Distinct(sa)
  {
    forall x | 0 <= x < |text| ensures x in sa {
      SuffixOrder.Onto(sa, x);
    }
  }

  /** Builds the suffix array of `text` and looks `p` up in it: the result
      lists, in strictly ascending order, exactly the offsets where `p`
      occurs, each once. */
  method IndexAndSearch(text: seq<byte>, p: seq<byte>) returns (occ: seq<int>)
    requires |text| >= 1
    ensures forall a, b :: 0 <= a < b < |occ| ==> occ[a] < occ[b]
    ensures forall x :: x in occ <==> 0 <= x < |text| && p <= text[x..]
  {
    var sa;
    ghost var rounds;
    sa, rounds := BuildSuffixArray(text);
    SuffixArrayFacts(text, sa);
    occ := GetOccurrences(p, text, sa);
    StrictlyAscending(occ, sa);
    forall x ensures x in occ <==> 0 <= x < |text| && p <= text[x..] {
      if 0 <= x < |text| {
        MatchIsPrefix(text, x, p);
      }
    }
  }
}
