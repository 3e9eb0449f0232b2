/** The compress and decompress flows that the presentation layer runs:
    table, tree, codes, encoding and padding one way; padding removal and
    decoding the other. */
module Pipeline {
  import opened Wrappers
  import opened BitString
  import opened Frequency
  import opened HuffmanTree
  import opened CodeGen
  import opened Codec
  import opened Padding

  /** The code table for a text: count, build the tree, walk it. It codes
      exactly the text's symbols with prefix-free, non-empty codes; it is
      empty for the empty text and gives the lone symbol of a one-symbol
      text the code '0'. */
  method CodesFor(text: string) returns (codes: CodeTable)
    ensures forall c :: c in codes <==> c in text
    ensures PrefixFree(codes) && NonEmptyCodes(codes)
    ensures |text| == 0 ==> codes == map[]
    ensures |text| > 0 && (forall i :: 0 <= i < |text| ==> text[i] == text[0]) ==>
      codes == map[text[0] := [false]]
  {
    var freq := FrequencyTable(text);
    var root := BuildHuffmanTree(freq);
    codes := GenerateCodes(root);
    if |text| > 0 && (forall i :: 0 <= i < |text| ==> text[i] == text[0]) {
      OneSymbolTable(text);
      assert root.value.Leaf?;
      assert root.value.ch in LeafMap(root.value);
    }
  }

  /** Compress a text into the padded stream and the code table that are
      stored together. The table codes exactly the text's symbols with
      prefix-free, non-empty codes; the stream is well padded and its
      padding removes to the text's encoding, so its length (the
      compressed size reported) is a header byte, the encoding, and the pad
      amount. The empty text gives an empty
      table and a zero header alone; a text of one repeated symbol gives
      that symbol the code '0'. */
  method Compress(text: string) returns (padded: Bits, codes: CodeTable)
    ensures forall c :: c in codes <==> c in text
    ensures PrefixFree(codes) && NonEmptyCodes(codes) && Coded(text, codes)
    ensures WellPadded(padded)
    ensures RemovePadding(padded) == Success(Encode(text, codes))
    ensures |padded| == 8 + |Encode(text, codes)| + PadAmount(|Encode(text, codes)|)
    ensures |text| == 0 ==> codes == map[] && padded == Zeros(8)
    ensures |text| > 0 && (forall i :: 0 <= i < |text| ==> text[i] == text[0]) ==>
      codes == map[text[0] := [false]]
  {
    codes := CodesFor(text);
    var encoded := EncodeText(text, codes);
    padded := PadEncoded(encoded.value).0;
    RemovePaddingOfPad(encoded.value);
    if |text| == 0 {
      PadNothing();
    }
  }

  /** Padding the empty encoding leaves a zero header alone. */
  lemma PadNothing()
    ensures PadEncoded([]).0 == Zeros(8)
  {
    NatToBitsZero(8);
    assert PadEncoded([]).0 == NatToBits(0, 8) + [] + Zeros(0);
  }

  /** A text of one repeated symbol has a single-entry frequency table,
      keyed by that symbol. */
  lemma OneSymbolTable(text: string)
    requires |text| > 0 && forall i :: 0 <= i < |text| ==> text[i] == text[0]
    ensures FrequencyTable(text).Keys == {text[0]} && |FrequencyTable(text)| == 1
  {
    var freq := FrequencyTable(text);
    assert freq.Keys == {text[0]};
    assert |freq| == |freq.Keys|;
  }

  /** Recover a text from a stored stream and table: remove the padding,
      then decode. It fails only on an empty stream. Every recovered symbol
      has a code, and the text is the greedy decoding of the unpadded bits
      under a reverse table of the codes. With a prefix-free table of
      non-empty codes, a stream whose padding removes to the encoding of a
      text recovers that text. */
  method Decompress(padded: Bits, codes: CodeTable) returns (r: Result<string>)
    ensures r.Failure? <==> |padded| == 0
    ensures r.Success? ==>
      exists rev :: IsReverse(rev, codes) && r.value == Decode(RemovePadding(padded).value, rev)
    ensures r.Success? ==> Coded(r.value, codes)
    ensures PrefixFree(codes) && NonEmptyCodes(codes) ==>
      forall t :: Coded(t, codes) && RemovePadding(padded) == Success(Encode(t, codes)) ==> r == Success(t)
  {
    var unpadded :- RemovePadding(padded);
    var text := DecodeText(unpadded, codes);
    r := Success(text);
    if PrefixFree(codes) && NonEmptyCodes(codes) {
      forall t | Coded(t, codes) && RemovePadding(padded) == Success(Encode(t, codes))
        ensures text == t
      {
        assert Incomplete([], codes);
        assert unpadded == Encode(t, codes) + [];
      }
    }
  }

  /** Compressing and then decompressing gives back the text, whatever
      tie-break the heap applies. */
  method CompressDecompress(text: string) returns (r: Result<string>)
    ensures r == Success(text)
  {
    var padded, codes := Compress(text);
    r := Decompress(padded, codes);
  }
}
