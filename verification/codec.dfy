/** The bit-stream codec: `encode_text` and the greedy accumulator decoder
    `decode_text`. */
module Codec {
  import opened Wrappers
  import opened BitString
  import opened Frequency
  import opened CodeGen

  /** Every symbol of the text has a code. */
  predicate Coded(text: string, codes: CodeTable) {
    forall i :: 0 <= i < |text| ==> text[i] in codes
  }

  /** The codes of the text's symbols, concatenated in text order. */
  function Encode(text: string, codes: CodeTable): (bits: Bits)
    requires Coded(text, codes)
    ensures NonEmptyCodes(codes) ==> |bits| >= |text|
  {
    if |text| == 0 then [] else codes[text[0]] + Encode(text[1..], codes)
  }

  /** `encode_text`: the encoding when every symbol has a code; otherwise
      the failure raised at the first symbol that has none. */
  function EncodeText(text: string, codes: CodeTable): (r: Result<Bits>)
    ensures r.Success? <==> Coded(text, codes)
    ensures r.Success? ==> Coded(text, codes) && r.value == Encode(text, codes)
    ensures r.Failure? ==>
      exists i :: (0 <= i < |text| && text[i] !in codes && r.error == UnknownSymbol(text[i])
                   && Coded(text[..i], codes))
  {
    if |text| == 0 then Success([])
    else if text[0] !in codes then
      assert Coded(text[..0], codes);
      Failure(UnknownSymbol(text[0]))
    else
      match EncodeText(text[1..], codes)
      case Failure(e) =>
        assert exists i :: (0 <= i < |text| && text[i] !in codes && e == UnknownSymbol(text[i])
                            && Coded(text[..i], codes)) by {
          var j :| 0 <= j < |text| - 1 && text[1..][j] !in codes
            && e == UnknownSymbol(text[1..][j]) && Coded(text[1..][..j], codes);
          assert text[..j + 1] == [text[0]] + text[1..][..j];
        }
        Failure(e)
      case Success(rest) => Success(codes[text[0]] + rest)
  }

  /** Encoding distributes over concatenation of texts. */
  lemma {:induction false} EncodeAppend(a: string, b: string, codes: CodeTable)
    requires Coded(a, codes) && Coded(b, codes)
    ensures Coded(a + b, codes)
    ensures Encode(a + b, codes) == Encode(a, codes) + Encode(b, codes)
  {
    assert Coded(a + b, codes);
    if |a| > 0 {
      assert (a + b)[1..] == a[1..] + b;
      EncodeAppend(a[1..], b, codes);
    } else {
      assert a + b == b;
    }
  }

  /** Symbol -> occurrences times code length. */
  function CostMap(freq: FreqTable, codes: CodeTable): FreqTable
    requires forall c :: c in freq ==> c in codes
  {
    map c | c in freq :: freq[c] * |codes[c]|
  }

  lemma CostMapUpdate(prev: FreqTable, c: char, v: nat, codes: CodeTable)
    requires forall k :: k in prev ==> k in codes
    requires c in codes
    ensures CostMap(prev[c := v], codes) == CostMap(prev, codes)[c := v * |codes[c]|]
  {
    var after := CostMap(prev[c := v], codes);
    var expected := CostMap(prev, codes)[c := v * |codes[c]|];
    assert after.Keys == expected.Keys;
    forall k | k in after
      ensures after[k] == expected[k]
    {
    }
  }

  lemma MulSucc(n: nat, len: nat)
    ensures (n + 1) * len == n * len + len
  {
  }

  /** Counting one more occurrence of `c` (seen `n` times so far) adds the
      length of its code to the sum of occurrence count times code length. */
  lemma CostStep(prev: FreqTable, c: char, n: nat, codes: CodeTable)
    requires forall k :: k in prev ==> k in codes
    requires c in codes
    requires n == if c in prev then prev[c] else 0
    ensures Total(CostMap(prev[c := n + 1], codes)) == Total(CostMap(prev, codes)) + |codes[c]|
  {
    var len := |codes[c]|;
    var before := CostMap(prev, codes);
    var big := (n + 1) * len;
    CostMapUpdate(prev, c, n + 1, codes);
    MulSucc(n, len);
    TotalUpdate(before, c, big);
  }

  /** The encoding is as long as the sum, over the distinct symbols, of
      occurrence count times code length. */
  lemma {:induction false} EncodedLength(text: string, codes: CodeTable)
    requires Coded(text, codes)
    ensures |Encode(text, codes)| == Total(CostMap(FrequencyTable(text), codes))
  {
    if |text| > 0 {
      var init := text[..|text| - 1];
      var c := text[|text| - 1];
      assert text == init + [c];
      assert Coded(init, codes);
      EncodedLength(init, codes);
      assert |Encode(text, codes)| == |Encode(init, codes)| + |codes[c]| by {
        EncodeAppend(init, [c], codes);
        assert [c][1..] == [];
      }
      var prev := FrequencyTable(init);
      CostStep(prev, c, if c in prev then prev[c] else 0, codes);
    }
  }

  /** `rev` inverts `codes`: its keys are exactly the codes, and it maps
      each code back to a symbol that has that code. */
  predicate IsReverse(rev: map<Bits, char>, codes: CodeTable) {
    && rev.Keys == codes.Values
    && (forall v :: v in rev ==> rev[v] in codes && codes[rev[v]] == v)
  }

  /** The reverse table `{v: k for k, v in codes.items()}`. The order in
      which keys are visited, which decides who wins when two symbols share
      a code, is left open. */
  method ReverseCodes(codes: CodeTable) returns (rev: map<Bits, char>)
    ensures IsReverse(rev, codes)
  {
    rev := map[];
    var rest := codes.Keys;
    while rest != {}
      invariant rest <= codes.Keys
      invariant forall v :: v in rev ==> rev[v] in codes && codes[rev[v]] == v
      invariant forall k :: k in codes && k !in rest ==> codes[k] in rev
      decreases |rest|
    {
      var k :| k in rest;
      rev := rev[codes[k] := k];
      rest := rest - {k};
    }
    forall v | v in codes.Values
      ensures v in rev
    {
      var k :| k in codes && codes[k] == v;
    }
  }

  /** A prefix-free table has exactly one reverse table, whatever order its
      keys are visited in. */
  lemma ReverseUnique(r1: map<Bits, char>, r2: map<Bits, char>, codes: CodeTable)
    requires PrefixFree(codes) && IsReverse(r1, codes) && IsReverse(r2, codes)
    ensures r1 == r2
  {
    forall v | v in r1
      ensures r1[v] == r2[v]
    {
      var c := r1[v];
      ReverseOfCode(r2, codes, c);
    }
  }

  /** In a prefix-free table each code reverses to its own symbol. */
  lemma ReverseOfCode(rev: map<Bits, char>, codes: CodeTable, c: char)
    requires PrefixFree(codes) && IsReverse(rev, codes) && c in codes
    ensures codes[c] in rev && rev[codes[c]] == c
  {
    assert codes[c] in codes.Values;
    var d := rev[codes[c]];
    if d != c {
      assert IsPrefix(codes[d], codes[c]);
    }
  }

  /** The decoding loop: append each bit to the accumulator and, whenever
      the accumulator is a code, emit its symbol and clear the accumulator.
      Bits left in the accumulator at the end are dropped. */
  function DecodeFrom(bits: Bits, rev: map<Bits, char>, current: Bits): (text: string)
    ensures |text| <= |bits|
    ensures forall i :: 0 <= i < |text| ==> text[i] in rev.Values
    decreases |bits|
  {
    if |bits| == 0 then []
    else
      var acc := current + [bits[0]];
      if acc in rev then [rev[acc]] + DecodeFrom(bits[1..], rev, [])
      else DecodeFrom(bits[1..], rev, acc)
  }

  function Decode(bits: Bits, rev: map<Bits, char>): string {
    DecodeFrom(bits, rev, [])
  }

  /** A proper, non-empty prefix of a code in a prefix-free table is not
      itself a code. */
  lemma NotACode(rev: map<Bits, char>, codes: CodeTable, c: char, p: Bits)
    requires PrefixFree(codes) && IsReverse(rev, codes) && c in codes
    requires IsPrefix(p, codes[c]) && |p| < |codes[c]|
    ensures p !in rev
  {

  }

  /** With `cur` already accumulated, reading the rest `x` of the code of
      `c` emits exactly `c` and clears the accumulator. */
  lemma {:induction false} DecodeOneCode(rev: map<Bits, char>, codes: CodeTable, c: char, cur: Bits, x: Bits, tail: Bits)
    requires PrefixFree(codes) && IsReverse(rev, codes) && c in codes
    requires codes[c] == cur + x && |x| > 0
    ensures DecodeFrom(x + tail, rev, cur) == [c] + DecodeFrom(tail, rev, [])
    decreases |x|
  {
    var bits := x + tail;
    var acc := cur + [x[0]];
    assert bits[0] == x[0] && bits[1..] == x[1..] + tail;
    if |x| == 1 {
      assert acc == codes[c];
      ReverseOfCode(rev, codes, c);
      assert x[1..] + tail == tail;
    } else {
      assert codes[c] == acc + x[1..];
      assert IsPrefix(acc, codes[c]) by {
        assert codes[c][..|acc|] == acc;
      }
      NotACode(rev, codes, c, acc);
      DecodeOneCode(rev, codes, c, acc, x[1..], tail);
    }
  }

  /** Decoding an encoded text followed by any tail yields the text, then
      whatever the tail decodes to. */
  lemma {:induction false} DecodeEncodeAppend(t: string, tail: Bits, codes: CodeTable, rev: map<Bits, char>)
    requires PrefixFree(codes) && NonEmptyCodes(codes) && IsReverse(rev, codes)
    requires Coded(t, codes)
    ensures Decode(Encode(t, codes) + tail, rev) == t + Decode(tail, rev)
  {
    if |t| > 0 {
      var c := t[0];
      var more := t[1..];
      var rest := Encode(more, codes) + tail;
      assert Encode(t, codes) + tail == codes[c] + rest;
      assert DecodeFrom(codes[c] + rest, rev, []) == [c] + Decode(rest, rev) by {
        assert codes[c] == [] + codes[c];
        DecodeOneCode(rev, codes, c, [], codes[c], rest);
      }
      assert Decode(rest, rev) == more + Decode(tail, rev) by {
        DecodeEncodeAppend(more, tail, codes, rev);
      }
      assert t == [c] + more;
    } else {
      assert Encode(t, codes) + tail == tail;
    }
  }

  /** A stream that ends part-way through a code: the part is dropped
      without complaint. */
  lemma {:induction false} DecodeIncomplete(rev: map<Bits, char>, codes: CodeTable, c: char, cur: Bits, x: Bits)
    requires PrefixFree(codes) && IsReverse(rev, codes) && c in codes
    requires IsPrefix(cur + x, codes[c]) && |cur + x| < |codes[c]|
    ensures DecodeFrom(x, rev, cur) == []
    decreases |x|
  {
    if |x| > 0 {
      var acc := cur + [x[0]];
      assert acc + x[1..] == cur + x;
      assert IsPrefix(acc, codes[c]) by {
        assert (cur + x)[..|acc|] == acc;
      }
      NotACode(rev, codes, c, acc);
      DecodeIncomplete(rev, codes, c, acc, x[1..]);
    }
  }

  /** Nothing, or a proper prefix of some code: the tail a stream cut off
      between or inside codes ends with. */
  predicate Incomplete(x: Bits, codes: CodeTable) {
    |x| == 0 || exists c :: c in codes && IsPrefix(x, codes[c]) && |x| < |codes[c]|
  }

  /** Decoding an encoded text cut off part-way through a further code gives
      back the text: the cut-off bits are silently dropped. */
  lemma DecodeTruncated(t: string, x: Bits, codes: CodeTable, rev: map<Bits, char>)
    requires PrefixFree(codes) && NonEmptyCodes(codes) && IsReverse(rev, codes)
    requires Coded(t, codes) && Incomplete(x, codes)
    ensures Decode(Encode(t, codes) + x, rev) == t
  {
    DecodeEncodeAppend(t, x, codes, rev);
    if |x| > 0 {
      var c :| c in codes && IsPrefix(x, codes[c]) && |x| < |codes[c]|;
      assert [] + x == x;
      DecodeIncomplete(rev, codes, c, [], x);
    } else {
      assert t + Decode(x, rev) == t;
    }
  }

  /** `decode_text`: build the reverse table, then run the accumulator loop
      over the bits. Every symbol emitted has a code, at most one symbol is
      emitted per bit, and for a prefix-free table of non-empty codes the
      encoding of a text, possibly cut off part-way through a further code,
      decodes back to that text. Whatever the stream, the result is the
      greedy decoding under a reverse table of `codes`; for a prefix-free
      table there is only one (`ReverseUnique`). */
  method DecodeText(data: Bits, codes: CodeTable) returns (text: string)
    ensures exists rev :: IsReverse(rev, codes) && text == Decode(data, rev)
    ensures Coded(text, codes)
    ensures |text| <= |data|
    ensures PrefixFree(codes) && NonEmptyCodes(codes) ==>
      forall t, x :: Coded(t, codes) && Incomplete(x, codes) && data == Encode(t, codes) + x ==> text == t
  {
    var rev := ReverseCodes(codes);
    var current: Bits := [];
    var decoded: string := [];
    var i := 0;
    while i < |data|
      invariant 0 <= i <= |data|
      invariant decoded + DecodeFrom(data[i..], rev, current) == Decode(data, rev)
    {
      assert data[i..][0] == data[i] && data[i..][1..] == data[i + 1..];
      current := current + [data[i]];
      if current in rev {
        decoded := decoded + [rev[current]];
        current := [];
      }
      i := i + 1;
    }
    text := decoded;
    assert text == Decode(data, rev) by {
      assert data[i..] == [];
    }
    DecodedAreCoded(data, rev, codes);
    if PrefixFree(codes) && NonEmptyCodes(codes) {
      DecodeEveryTruncation(data, codes, rev);
    }
  }

  /** Every symbol the decoder emits under a reverse table has a code. */
  lemma DecodedAreCoded(data: Bits, rev: map<Bits, char>, codes: CodeTable)
    requires IsReverse(rev, codes)
    ensures Coded(Decode(data, rev), codes)
  {
    var text := Decode(data, rev);
    forall k | 0 <= k < |text|
      ensures text[k] in codes
    {
      assert text[k] in rev.Values;
      var v :| v in rev && rev[v] == text[k];
    }
  }

  /** `DecodeTruncated`, for every way of reading the stream as an encoding
      followed by an incomplete remainder. */
  lemma DecodeEveryTruncation(data: Bits, codes: CodeTable, rev: map<Bits, char>)
    requires PrefixFree(codes) && NonEmptyCodes(codes) && IsReverse(rev, codes)
    ensures forall t, x :: Coded(t, codes) && Incomplete(x, codes) && data == Encode(t, codes) + x ==>
      Decode(data, rev) == t
  {
    forall t, x | Coded(t, codes) && Incomplete(x, codes) && data == Encode(t, codes) + x
      ensures Decode(data, rev) == t
    {
      DecodeTruncated(t, x, codes, rev);
    }
  }
}
