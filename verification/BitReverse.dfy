/** stbi__bitreverse16 and stbi__bit_reverse: the mask-and-swap network reverses the low 16 bits. */
module BitReversal {
  import opened Bits

  // The network on a machine word: bit k of the result is bit 15 - k of the argument.
  function Swap16(n: bv16): (r: bv16)
    ensures (r & 0x0001 != 0) == (n & 0x8000 != 0)
    ensures (r & 0x0002 != 0) == (n & 0x4000 != 0)
    ensures (r & 0x0004 != 0) == (n & 0x2000 != 0)
    ensures (r & 0x0008 != 0) == (n & 0x1000 != 0)
    ensures (r & 0x0010 != 0) == (n & 0x0800 != 0)
    ensures (r & 0x0020 != 0) == (n & 0x0400 != 0)
    ensures (r & 0x0040 != 0) == (n & 0x0200 != 0)
    ensures (r & 0x0080 != 0) == (n & 0x0100 != 0)
    ensures (r & 0x0100 != 0) == (n & 0x0080 != 0)
    ensures (r & 0x0200 != 0) == (n & 0x0040 != 0)
    ensures (r & 0x0400 != 0) == (n & 0x0020 != 0)
    ensures (r & 0x0800 != 0) == (n & 0x0010 != 0)
    ensures (r & 0x1000 != 0) == (n & 0x0008 != 0)
    ensures (r & 0x2000 != 0) == (n & 0x0004 != 0)
    ensures (r & 0x4000 != 0) == (n & 0x0002 != 0)
    ensures (r & 0x8000 != 0) == (n & 0x0001 != 0)
  {
    var pairs := ((n & 0xAAAA) >> 1) | ((n & 0x5555) << 1);
    var nibbles := ((pairs & 0xCCCC) >> 2) | ((pairs & 0x3333) << 2);
    var bytes := ((nibbles & 0xF0F0) >> 4) | ((nibbles & 0x0F0F) << 4);
    ((bytes & 0xFF00) >> 8) | ((bytes & 0x00FF) << 8)
  }

  // The same on the numbers that the table code works with.
  function BitReverse16(n: nat): nat {
    BitsNat(Reverse(NatBits(n, 16)))
  }

  function BitReverse(v: nat, bits: nat): nat
    requires bits <= 16
  {
    Shr(BitReverse16(v), 16 - bits)
  }

  lemma ReverseTail(b: seq<bool>, n: nat)
    requires n <= |b|
    ensures Reverse(b)[|b| - n..] == Reverse(b[..n])
  {
  }

  // Reversing 16 bits and shifting the spare ones away reverses a code of the given length.
  lemma BitReverseReverses(v: nat, bits: nat)
    requires bits <= 16
    ensures NatBits(BitReverse(v, bits), bits) == Reverse(NatBits(v, bits))
    ensures BitReverse(v, bits) < Pow2(bits)
  {
    var r := BitReverse16(v);
    NatBitsOfBitsNat(Reverse(NatBits(v, 16)));
    NatBitsSplit(r, 16, 16 - bits);
    ShrBound(r, 16 - bits, bits);
    ReverseTail(NatBits(v, 16), bits);
    NatBitsPrefix(v, 16, bits);
  }
}
