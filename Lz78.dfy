/** The LZ78 codec (Ziv and Lempel, 1978). The encoder and the decoder each
    grow a phrase dictionary, one phrase per emitted pair, in lock-step. */
module Lz78 {
  import opened Bytes

  /** One unit of code: a dictionary index and a literal byte. */
  datatype Pair = Pair(index: int, c: byte)

  // ---------------------------------------------------------------------
  // Decoder specification

  /** The phrase the decoder finds at `idx` among the bound phrases `P`; an
      index that is not bound reads as the empty phrase, because the
      decoder's map default-inserts "" on lookup. */
  function PhraseAt(P: seq<seq<byte>>, idx: int): seq<byte>
  {
    if 0 <= idx < |P| then P[idx] else []
  }

  /** The decoder's dictionary after `code`: index 0 holds the empty phrase,
      index k (k >= 1) the phrase decoded from pair k - 1. */
  function DecodePhrases(code: seq<Pair>): (P: seq<seq<byte>>)
    ensures |P| == |code| + 1 && P[0] == []
  {
    if code == [] then [[]]
    else
      var P' := DecodePhrases(code[..|code| - 1]);
      var p := code[|code| - 1];
      P' + [PhraseAt(P', p.index) + [p.c]]
  }

  /** The decoded text: the phrases bound at indices 1, 2, 3, ... in order. */
  function DecodeText(code: seq<Pair>): seq<byte>
  {
    if code == [] then []
    else DecodeText(code[..|code| - 1]) + DecodePhrases(code)[|code|]
  }

  /** `LZ78Decode`. */
  method LZ78Decode(code: seq<Pair>) returns (text: seq<byte>)
    ensures text == DecodeText(code)
  {
    text := [];
    var dict: map<int, seq<byte>> := map[];
    var d := 1;
    dict := dict[0 := []];
    for j := 0 to |code|
      invariant d == j + 1
      invariant forall k :: 0 <= k < d ==> k in dict && dict[k] == DecodePhrases(code[..j])[k]
      invariant forall k :: k in dict && !(0 <= k < d) ==> dict[k] == []
      invariant text == DecodeText(code[..j])
    {
      assert code[..j + 1][..j] == code[..j];
      var dictIndex := code[j].index;
      var decodedChar := code[j].c;
      if dictIndex !in dict {
        dict := dict[dictIndex := []];
      }
      var nextEntry := dict[dictIndex] + [decodedChar];
      dict := dict[d := nextEntry];
      d := d + 1;
      text := text + nextEntry;
    }
    assert code[..|code|] == code;
  }

  // ---------------------------------------------------------------------
  // Encoder specification

  /** The encoder's state: phrase dictionary, next index, pending phrase and
      the pairs emitted so far. */
  datatype Encoder = Encoder(dict: map<seq<byte>, int>, d: int, entry: seq<byte>, code: seq<Pair>)

  /** The state before the first byte: only the empty phrase, bound to 0. */
  function InitialEncoder(): Encoder
  {
    Encoder(map[[] := 0], 1, [], [])
  }

  /** One input byte: extend the pending phrase if the extension is known,
      otherwise emit (index of the pending phrase, byte), bind the extension
      to the next index and clear the pending phrase. */
  function EncodeStep(e: Encoder, c: byte): Encoder
    requires e.entry in e.dict
  {
    var w := e.entry + [c];
    if w in e.dict then e.(entry := w)
    else Encoder(e.dict[w := e.d], e.d + 1, [], e.code + [Pair(e.dict[e.entry], c)])
  }

  /** The encoder's dictionaries agree index for index with the decoder's
      after the pairs emitted so far, the pending phrase is always bound, and
      the decoded pairs followed by the pending phrase give back the input. */
  ghost predicate EncoderInvariant(e: Encoder, text: seq<byte>)
  {
    var P := DecodePhrases(e.code);
    && e.d == |P|
    && (forall k :: 0 <= k < |P| ==> P[k] in e.dict && e.dict[P[k]] == k)
    && (forall w :: w in e.dict ==> 0 <= e.dict[w] < |P| && P[e.dict[w]] == w)
    && e.entry in e.dict
    && DecodeText(e.code) + e.entry == text
  }

  /** The encoder's state after `text`. The pending phrase is always bound,
      so `dict[dict_entry]` never inserts. */
  function EncoderAfter(text: seq<byte>): (e: Encoder)
    ensures [] in e.dict && e.entry in e.dict
  {
    if text == [] then InitialEncoder()
    else EncodeStep(EncoderAfter(text[..|text| - 1]), text[|text| - 1])
  }

  /** The invariant holds after every input. */
  lemma {:induction false} EncoderAfterInvariant(text: seq<byte>)
    ensures EncoderInvariant(EncoderAfter(text), text)
  {
    if text == [] {
      assert DecodePhrases([]) == [[]];
    } else {
      var t' := text[..|text| - 1];
      var c := text[|text| - 1];
      EncoderAfterInvariant(t');
      StepKeepsInvariant(EncoderAfter(t'), t', c);
      assert t' + [c] == text;
    }
  }

  lemma StepKeepsInvariant(e: Encoder, text: seq<byte>, c: byte)
    requires EncoderInvariant(e, text)
    ensures EncoderInvariant(EncodeStep(e, c), text + [c])
  {
    var w := e.entry + [c];
    var P := DecodePhrases(e.code);
    if w !in e.dict {
      var e2 := EncodeStep(e, c);
      var p := Pair(e.dict[e.entry], c);
      assert e2.code[..|e2.code| - 1] == e.code;
      var P2 := DecodePhrases(e2.code);
      assert PhraseAt(P, p.index) == e.entry;
      assert P2 == P + [w];
      assert DecodeText(e2.code) == DecodeText(e.code) + w;
      forall k | 0 <= k < |P2| ensures P2[k] in e2.dict && e2.dict[P2[k]] == k {
        if k < |P| { assert P2[k] == P[k] && P[k] in e.dict && P[k] != w; }
      }
    }
  }

  /** `LZ78Encode`: appends the pairs for `text` to `code` (which is not
      cleared first). */
  method LZ78Encode(text: seq<byte>, code0: seq<Pair>) returns (code: seq<Pair>)
    ensures code == code0 + EncoderAfter(text).code
  {
    code := code0;
    var dict: map<seq<byte>, int> := map[];
    var d := 1;
    var dictEntry: seq<byte> := [];
    dict := dict[[] := 0];
    for i := 0 to |text|
      invariant |code| >= |code0| && code[..|code0|] == code0
      invariant EncoderAfter(text[..i]) == Encoder(dict, d, dictEntry, code[|code0|..])
    {
      assert text[..i + 1][..i] == text[..i];
      assert EncoderAfter(text[..i + 1]) == EncodeStep(EncoderAfter(text[..i]), text[i]);
      if dictEntry + [text[i]] in dict {
        dictEntry := dictEntry + [text[i]];
      } else {
        var p := Pair(dict[dictEntry], text[i]);
        assert (code + [p])[|code0|..] == code[|code0|..] + [p];
        code := code + [p];
        dict := dict[dictEntry + [text[i]] := d];
        d := d + 1;
        dictEntry := [];
      }
    }
    assert text[..|text|] == text;
  }

  // ---------------------------------------------------------------------
  // Properties

  /** The dictionary holds one phrase per emitted pair plus the empty phrase,
      and the next index is that size. */
  lemma {:induction false} DictionarySize(text: seq<byte>)
    ensures var e := EncoderAfter(text);
      |e.dict| == |e.code| + 1 == e.d
  {
    if text != [] {
      var t' := text[..|text| - 1];
      DictionarySize(t');
      assert t' + [text[|text| - 1]] == text;
    }
  }

  /** Each input byte either only extends the pending phrase, or emits
      exactly one pair, binds exactly one phrase at the next index and clears
      the pending phrase. */
  lemma OneStepEffect(text: seq<byte>, c: byte)
    ensures var e, e2 := EncoderAfter(text), EncoderAfter(text + [c]);
      || (e2.entry == e.entry + [c] && e2.code == e.code && e2.dict == e.dict && e2.d == e.d)
      || (e2.entry == [] && e2.code == e.code + [Pair(e.dict[e.entry], c)] && e2.d == e.d + 1
          && e.entry + [c] !in e.dict && e2.dict == e.dict[e.entry + [c] := e.d])
  {
    assert (text + [c])[..|text|] == text;
  }

  /** Every emitted index names a phrase that was already bound when the
      pair was emitted: pair j carries an index at most j. */
  lemma {:induction false} EmittedIndicesBound(text: seq<byte>)
    ensures var code := EncoderAfter(text).code;
      forall j :: 0 <= j < |code| ==> 0 <= code[j].index <= j
  {
    if text != [] {
      var t' := text[..|text| - 1];
      EmittedIndicesBound(t');
      assert t' + [text[|text| - 1]] == text;
      DictionarySize(t');
      EncoderAfterInvariant(t');
    }
  }

  /** Every pair consumes at least one input byte, so there are at most as
      many pairs as bytes. */
  lemma {:induction false} CodeNoLonger(text: seq<byte>)
    ensures |EncoderAfter(text).code| <= |text|
  {
    if text != [] {
      CodeNoLonger(text[..|text| - 1]);
    }
  }

  /** Round trip: decoding the code gives the input minus the pending phrase
      that the encoder never emits. It is a prefix of the input, and all of
      it exactly when the pending phrase is empty. */
  lemma RoundTrip(text: seq<byte>)
    ensures var e := EncoderAfter(text);
      DecodeText(e.code) + e.entry == text
      && DecodeText(e.code) == text[..|text| - |e.entry|]
      && (DecodeText(e.code) == text <==> e.entry == [])
  {
    EncoderAfterInvariant(text);
  }

  /** The encoder's and the decoder's dictionaries agree index for index. */
  lemma DictionariesAgree(text: seq<byte>)
    ensures var e := EncoderAfter(text);
      var P := DecodePhrases(e.code);
      |P| == |e.dict| && forall k :: 0 <= k < |P| ==> P[k] in e.dict && e.dict[P[k]] == k
  {
    DictionarySize(text);
    EncoderAfterInvariant(text);
  }

  /** Decoding one more pair appends the phrase at its index (the empty
      phrase for an unbound index) followed by its byte. */
  lemma {:induction false} DecodeAppend(code: seq<Pair>, p: Pair)
    ensures DecodeText(code + [p]) == DecodeText(code) + PhraseAt(DecodePhrases(code), p.index) + [p.c]
    ensures !(0 <= p.index <= |code|) ==> DecodeText(code + [p]) == DecodeText(code) + [p.c]
  {
    assert (code + [p])[..|code|] == code;
  }

  /** Empty text gives no pairs; no pairs decode to the empty text. */
  lemma EmptyCases()
    ensures EncoderAfter([]).code == []
    ensures DecodeText([]) == []
  {
  }

  /** "aa" leaves "a" pending and emits one pair; "aaa" emits two and loses
      nothing; "aabb" round-trips. */
  lemma Examples()
    ensures EncoderAfter([97, 97]).code == [Pair(0, 97)]
    ensures EncoderAfter([97, 97]).entry == [97]
    ensures EncoderAfter([97, 97, 97]).code == [Pair(0, 97), Pair(1, 97)]
    ensures EncoderAfter([97, 97, 98, 98]).code == [Pair(0, 97), Pair(1, 98), Pair(0, 98)]
    ensures DecodeText(EncoderAfter([97, 97, 98, 98]).code) == [97, 97, 98, 98]
  {
    AfterAA();
    AfterAAA();
    AfterAABB();
    RoundTrip([97, 97, 98, 98]);
  }

  lemma AfterA()
    ensures EncoderAfter([97]) == Encoder(map[[] := 0, [97] := 1], 2, [], [Pair(0, 97)])
  {
    AfterOne([], 97);
    assert [] + [97] == [97];
  }

  lemma AfterAA()
    ensures EncoderAfter([97, 97]) == Encoder(map[[] := 0, [97] := 1], 2, [97], [Pair(0, 97)])
  {
    AfterA();
    AfterOne([97], 97);
    assert [97] + [97] == [97, 97];
  }

  lemma AfterAAA()
    ensures EncoderAfter([97, 97, 97]).code == [Pair(0, 97), Pair(1, 97)]
  {
    AfterAA();
    AfterOne([97, 97], 97);
    assert [97, 97] + [97] == [97, 97, 97];
    assert [97] + [97] == [97, 97];
  }

  lemma AfterAAB()
    ensures EncoderAfter([97, 97, 98])
      == Encoder(map[[] := 0, [97] := 1, [97, 98] := 2], 3, [], [Pair(0, 97), Pair(1, 98)])
  {
    AfterAA();
    AfterOne([97, 97], 98);
    assert [97, 97] + [98] == [97, 97, 98];
    assert [97] + [98] == [97, 98];
    assert [97, 98] !in map[[] := 0, [97] := 1];
  }

  lemma AfterAABB()
    ensures EncoderAfter([97, 97, 98, 98]).code == [Pair(0, 97), Pair(1, 98), Pair(0, 98)]
    ensures EncoderAfter([97, 97, 98, 98]).entry == []
  {
    AfterAAB();
    AfterOne([97, 97, 98], 98);
    assert [97, 97, 98] + [98] == [97, 97, 98, 98];
    assert [] + [98] == [98];
    assert [98] !in map[[] := 0, [97] := 1, [97, 98] := 2];
  }

  lemma AfterOne(text: seq<byte>, c: byte)
    ensures EncoderAfter(text + [c]) == EncodeStep(EncoderAfter(text), c)
  {
    assert (text + [c])[..|text|] == text;
  }
}
