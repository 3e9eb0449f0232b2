/** The padding manager: `pad_encoded` and `remove_padding`. A padded
    stream is an 8-bit header holding the pad amount, the stream, and that
    many zero bits, so that header and stream fill whole bytes. */
module Padding {
  import opened Wrappers
  import opened BitString

  /** `pad_encoded`: the padded stream and the pad amount. The pad amount
      is the only value below 8 that brings the stream to a multiple of 8
      bits; the header is its 8-bit binary form, followed by the stream
      unchanged and then the zero bits. */
  function PadEncoded(encoded: Bits): (r: (Bits, nat))
    ensures r.1 < 8 && (|encoded| + r.1) % 8 == 0
    ensures |r.0| == 8 + |encoded| + r.1 && |r.0| % 8 == 0
    ensures r.0[..8] == NatToBits(r.1, 8)
    ensures r.0[8..8 + |encoded|] == encoded
    ensures forall i :: 8 + |encoded| <= i < |r.0| ==> !r.0[i]
  {
    var extra := PadAmount(|encoded|);
    var padded := NatToBits(extra, 8) + encoded + Zeros(extra);
    assert padded[8..8 + |encoded|] == encoded;
    assert |padded| % 8 == 0 by {
      ByteAligned(|encoded|, extra);
    }
    (padded, extra)
  }

  /** `(8 - n % 8) % 8`: the number of bits that brings `n` bits up to a
      whole number of bytes. No other value below 8 does. */
  function PadAmount(n: nat): (extra: nat)
    ensures extra < 8 && (n + extra) % 8 == 0
  {
    (8 - n % 8) % 8
  }

  /** No other value below 8 brings `n` bits up to whole bytes. */
  lemma PadAmountUnique(n: nat, e: nat)
    requires e < 8 && (n + e) % 8 == 0
    ensures e == PadAmount(n)
  {
  }

  lemma DropHeaderByte(n: nat)
    requires n >= 8 && n % 8 == 0
    ensures (n - 8) % 8 == 0
  {
  }

  lemma ByteAligned(n: nat, extra: nat)
    requires (n + extra) % 8 == 0
    ensures (8 + n + extra) % 8 == 0
  {
  }

  /** Python's `s[:-k]` for k > 0: all but the last `k` bits, or nothing
      when there are at most `k`. */
  function DropLast(s: Bits, k: nat): (r: Bits)
    requires k > 0
    ensures IsPrefix(r, s)
    ensures |r| == if k >= |s| then 0 else |s| - k
  {
    if k >= |s| then [] else s[..|s| - k]
  }

  /** The bits after the header: everything past the eighth bit, or nothing
      for a stream of at most eight bits. */
  function Body(data: Bits): Bits {
    if |data| <= 8 then [] else data[8..]
  }

  /** `remove_padding`: read the pad amount from the first (up to) eight
      bits, drop the header, and drop that many bits from the end. Reading
      the header fails only when there is nothing to read; a short stream
      or a pad amount above 7 is taken as it comes. */
  function RemovePadding(data: Bits): (r: Result<Bits>)
    ensures r.Failure? <==> |data| == 0
    ensures r.Success? ==> IsPrefix(r.value, Body(data))
    ensures r.Success? && |data| >= 8 ==>
      |r.value| == if BitsToNat(data[..8]) <= |data| - 8 then |data| - 8 - BitsToNat(data[..8]) else 0
  {
    if |data| == 0 then Failure(MalformedPadding)
    else
      var header := if |data| < 8 then data else data[..8];
      var extra := BitsToNat(header);
      var body := Body(data);
      Success(if extra > 0 then DropLast(body, extra) else body)
  }

  /** A stream as `pad_encoded` leaves it: whole bytes, a header below 8
      that fits in the rest, and that many zero bits at the end. */
  predicate WellPadded(data: Bits) {
    && |data| >= 8 && |data| % 8 == 0
    && BitsToNat(data[..8]) < 8
    && BitsToNat(data[..8]) <= |data| - 8
    && forall i :: |data| - BitsToNat(data[..8]) <= i < |data| ==> !data[i]
  }

  /** Removing the padding of a padded stream gives back the stream, and
      every padded stream is well padded. */
  lemma RemovePaddingOfPad(s: Bits)
    ensures WellPadded(PadEncoded(s).0)
    ensures RemovePadding(PadEncoded(s).0) == Success(s)
  {
    var (padded, extra) := PadEncoded(s);
    BitsToNatOfNatToBits(extra, 8);
    assert BitsToNat(padded[..8]) == extra;
    assert Body(padded) == s + padded[8 + |s|..] by {
      assert padded[8..] == padded[8..8 + |s|] + padded[8 + |s|..];
    }
    if extra > 0 {
      assert DropLast(Body(padded), extra) == s;
    } else {
      assert padded[8 + |s|..] == [];
    }
  }

  /** Conversely, every well-padded stream is the padding of what removing
      its padding gives: well-padded streams are exactly the padded ones. */
  lemma PadOfRemovePadding(data: Bits)
    requires WellPadded(data)
    ensures RemovePadding(data).Success?
    ensures PadEncoded(RemovePadding(data).value) == (data, BitsToNat(data[..8]))
  {
    var h := BitsToNat(data[..8]);
    var v := UnpadWellPadded(data);
    assert |v| + h == |data| - 8;
    DropHeaderByte(|data|);
    PadAmountUnique(|v|, h);
    NatToBitsOfBitsToNat(data[..8]);
    SplitWellPadded(data, v);
  }

  /** The padding of a well-padded stream is everything between the header
      and its last `header` bits. */
  lemma UnpadWellPadded(data: Bits) returns (v: Bits)
    requires WellPadded(data)
    ensures v == data[8..|data| - BitsToNat(data[..8])]
    ensures RemovePadding(data) == Success(v)
  {
    var h := BitsToNat(data[..8]);
    v := data[8..|data| - h];
    if h > 0 {
      assert DropLast(Body(data), h) == v;
    } else {
      assert Body(data) == v;
    }
  }

  /** A well-padded stream is its header, its stream, and its zero bits. */
  lemma SplitWellPadded(data: Bits, v: Bits)
    requires WellPadded(data)
    requires v == data[8..|data| - BitsToNat(data[..8])]
    ensures data == data[..8] + v + Zeros(BitsToNat(data[..8]))
  {
    var h := BitsToNat(data[..8]);
    assert data[|data| - h..] == Zeros(h);
    assert data == data[..8] + v + data[|data| - h..];
  }
}
