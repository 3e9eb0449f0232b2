/** Bit strings and the 8-bit binary numerals used by the padding header. */
module BitString {

  /** A bit string: `false` stands for the character '0', `true` for '1'. */
  type Bits = seq<bool>

  /** `a` is a (not necessarily proper) prefix of `b`. */
  predicate IsPrefix(a: Bits, b: Bits) {
    |a| <= |b| && b[..|a|] == a
  }

  function Pow2(n: nat): (r: nat)
    ensures r >= 1
  {
    if n == 0 then 1 else 2 * Pow2(n - 1)
  }

  /** `k` zero bits. */
  function Zeros(k: nat): (z: Bits)
    ensures |z| == k
    ensures forall i :: 0 <= i < k ==> !z[i]
  {
    seq(k, _ => false)
  }

  /** The big-endian binary numeral of `n` in exactly `width` digits, as
      Python's format specification `0{width}b` writes it when n < 2^width. */
  function NatToBits(n: nat, width: nat): (r: Bits)
    ensures |r| == width
  {
    if width == 0 then [] else NatToBits(n / 2, width - 1) + [n % 2 == 1]
  }

  /** The value of a big-endian binary numeral, as Python's `int(s, 2)`
      reads a non-empty numeral of `0`s and `1`s; the empty string, on which
      `int` raises, is left to the caller. */
  function BitsToNat(b: Bits): (r: nat)
    ensures r < Pow2(|b|)
  {
    if |b| == 0 then 0 else 2 * BitsToNat(b[..|b| - 1]) + (if b[|b| - 1] then 1 else 0)
  }

  /** Writing a number that fits and reading it back gives the number. */
  lemma {:induction false} BitsToNatOfNatToBits(n: nat, width: nat)
    requires n < Pow2(width)
    ensures BitsToNat(NatToBits(n, width)) == n
  {
    if width > 0 {
      var half, bit := n / 2, n % 2 == 1;
      assert n == 2 * half + (if bit then 1 else 0);
      assert half < Pow2(width - 1);
      var r := NatToBits(n, width);
      assert r == NatToBits(half, width - 1) + [bit];
      assert r[..width - 1] == NatToBits(half, width - 1);
      BitsToNatOfNatToBits(half, width - 1);
      assert BitsToNat(r) == 2 * half + (if bit then 1 else 0);
    }
  }

  /** Zero written in `width` digits is `width` zero bits. */
  lemma {:induction false} NatToBitsZero(width: nat)
    ensures NatToBits(0, width) == Zeros(width)
  {
    if width > 0 {
      NatToBitsZero(width - 1);
      assert Zeros(width) == Zeros(width - 1) + [false];
    }
  }

  /** Reading a numeral and writing it back at the same width gives the
      numeral: every bit string is the binary form of its own value. */
  lemma {:induction false} NatToBitsOfBitsToNat(b: Bits)
    ensures NatToBits(BitsToNat(b), |b|) == b
  {
    if |b| > 0 {
      var init := b[..|b| - 1];
      NatToBitsOfBitsToNat(init);
      assert b == init + [b[|b| - 1]];
    }
  }
}
