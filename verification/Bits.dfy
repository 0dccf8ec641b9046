/** Bit strings in the order DEFLATE packs them (least significant bit first), and the shifts and
    masks of unsigned words written on natural numbers. */
module Bits {

  type byte = x: int | 0 <= x < 256

  function Pow2(n: nat): (p: nat)
    ensures p >= 1
  {
    if n == 0 then 1 else 2 * Pow2(n - 1)
  }

  // v << n
  function Shl(v: nat, n: nat): nat {
    if n == 0 then v else 2 * Shl(v, n - 1)
  }

  // v >> n
  function Shr(v: nat, n: nat): nat {
    if n == 0 then v else Shr(v / 2, n - 1)
  }

  // v & ((1 << n) - 1)
  function Low(v: nat, n: nat): (r: nat)
    ensures r < Pow2(n)
  {
    if n == 0 then 0 else v % 2 + 2 * Low(v / 2, n - 1)
  }

  // The n low bits of v, least significant first.
  function NatBits(v: nat, n: nat): (b: seq<bool>)
    ensures |b| == n
  {
    if n == 0 then [] else [v % 2 == 1] + NatBits(v / 2, n - 1)
  }

  // The number whose bits, least significant first, are b.
  function BitsNat(b: seq<bool>): (v: nat)
    ensures v < Pow2(|b|)
  {
    if b == [] then 0 else (if b[0] then 1 else 0) + 2 * BitsNat(b[1..])
  }

  function ByteBits(x: byte): (b: seq<bool>)
    ensures |b| == 8
  {
    NatBits(x, 8)
  }

  function BytesBits(s: seq<byte>): (b: seq<bool>)
    ensures |b| == 8 * |s|
  {
    if s == [] then [] else ByteBits(s[0]) + BytesBits(s[1..])
  }

  function Zeros(n: nat): (b: seq<bool>)
    ensures |b| == n
  {
    seq(n, i => false)
  }

  function ZeroBytes(n: nat): (b: seq<bool>)
    ensures |b| == 8 * n
  {
    Zeros(8 * n)
  }

  function Reverse(b: seq<bool>): (r: seq<bool>)
    ensures |r| == |b|
    ensures forall i :: 0 <= i < |b| ==> r[i] == b[|b| - 1 - i]
  {
    seq(|b|, i requires 0 <= i < |b| => b[|b| - 1 - i])
  }

  lemma {:induction false} Pow2Mono(m: nat, n: nat)
    requires m <= n
    ensures Pow2(m) <= Pow2(n)
    ensures m < n ==> 2 * Pow2(m) <= Pow2(n)
    decreases n
  {
    if m < n {
      Pow2Mono(m, n - 1);
    }
  }

  lemma Pow2Values()
    ensures Pow2(1) == 2 && Pow2(2) == 4 && Pow2(3) == 8 && Pow2(4) == 16 && Pow2(5) == 32
    ensures Pow2(6) == 64 && Pow2(7) == 128 && Pow2(8) == 256 && Pow2(9) == 512
    ensures Pow2(13) == 8192 && Pow2(15) == 32768 && Pow2(16) == 65536
    ensures Pow2(24) == 0x100_0000 && Pow2(25) == 0x200_0000 && Pow2(32) == 0x1_0000_0000
  {
    assert Pow2(9) == 512;
    assert Pow2(16) == 65536;
    assert Pow2(24) == 0x100_0000;
    assert Pow2(32) == 0x1_0000_0000;
  }

  // Shifting left is multiplying by a power of two.
  lemma {:induction false} ShlIsMul(v: nat, n: nat)
    ensures Shl(v, n) == v * Pow2(n)
  {
    if n != 0 {
      ShlIsMul(v, n - 1);
      assert v * Pow2(n) == 2 * (v * Pow2(n - 1));
    }
  }

  lemma {:induction false} ShlAdd(v: nat, m: nat, n: nat)
    ensures Shl(Shl(v, m), n) == Shl(v, m + n)
  {
    if n != 0 {
      ShlAdd(v, m, n - 1);
    }
  }

  lemma {:induction false} ShlLinear(v: nat, w: nat, n: nat)
    ensures Shl(v + w, n) == Shl(v, n) + Shl(w, n)
    ensures v <= w ==> Shl(v, n) <= Shl(w, n)
    ensures v < w ==> Shl(v, n) + Pow2(n) <= Shl(w, n)
  {
    if n != 0 {
      ShlLinear(v, w, n - 1);
    }
  }

  lemma {:induction false} ShlOne(n: nat)
    ensures Shl(1, n) == Pow2(n)
    ensures Shl(0, n) == 0
  {
    if n != 0 {
      ShlOne(n - 1);
    }
  }

  // A word is its low part or-ed with its shifted high part.
  lemma {:induction false} LowShr(v: nat, n: nat)
    ensures v == Low(v, n) + Shl(Shr(v, n), n)
  {
    if n != 0 {
      LowShr(v / 2, n - 1);
    }
  }

  lemma {:induction false} LowShrOfSum(lo: nat, hi: nat, n: nat)
    requires lo < Pow2(n)
    ensures Low(lo + Shl(hi, n), n) == lo
    ensures Shr(lo + Shl(hi, n), n) == hi
  {
    if n != 0 {
      var v := lo + Shl(hi, n);
      assert v % 2 == lo % 2 && v / 2 == lo / 2 + Shl(hi, n - 1);
      LowShrOfSum(lo / 2, hi, n - 1);
      LowShr(lo, n);
      LowOfSmall(lo, n);
    }
  }

  lemma {:induction false} LowOfSmall(v: nat, n: nat)
    requires v < Pow2(n)
    ensures Low(v, n) == v && Shr(v, n) == 0
  {
    if n != 0 {
      LowOfSmall(v / 2, n - 1);
    }
  }

  lemma {:induction false} ShrBound(v: nat, n: nat, m: nat)
    requires v < Pow2(n + m)
    ensures Shr(v, n) < Pow2(m)
  {
    if n != 0 {
      assert Pow2(n + m) == 2 * Pow2(n - 1 + m);
      ShrBound(v / 2, n - 1, m);
    }
  }

  lemma {:induction false} NatBitsOfBitsNat(b: seq<bool>)
    ensures NatBits(BitsNat(b), |b|) == b
  {
    if b != [] {
      NatBitsOfBitsNat(b[1..]);
      assert b == [b[0]] + b[1..];
    }
  }

  // NatBits and BitsNat are inverse: reading the n low bits back gives v masked to n bits.
  lemma {:induction false} BitsNatOfNatBits(v: nat, n: nat)
    ensures BitsNat(NatBits(v, n)) == Low(v, n)
  {
    if n != 0 {
      BitsNatOfNatBits(v / 2, n - 1);
      assert NatBits(v, n)[1..] == NatBits(v / 2, n - 1);
    }
  }

  lemma NatBitsInjective(v: nat, w: nat, n: nat)
    requires v < Pow2(n) && w < Pow2(n)
    requires NatBits(v, n) == NatBits(w, n)
    ensures v == w
  {
    BitsNatOfNatBits(v, n);
    BitsNatOfNatBits(w, n);
    LowOfSmall(v, n);
    LowOfSmall(w, n);
  }

  // Or-ing w in above the n bits of v appends its bits (the shift-or of both bit buffers).
  lemma {:induction false} NatBitsAppend(v: nat, n: nat, w: nat, m: nat)
    requires v < Pow2(n)
    ensures NatBits(v + Shl(w, n), n + m) == NatBits(v, n) + NatBits(w, m)
    ensures w < Pow2(m) ==> v + Shl(w, n) < Pow2(n + m)
  {
    if n != 0 {
      var t := v + Shl(w, n);
      assert t % 2 == v % 2 && t / 2 == v / 2 + Shl(w, n - 1);
      NatBitsAppend(v / 2, n - 1, w, m);
      assert Pow2(n + m) == 2 * Pow2(n - 1 + m);
    }
  }

  // Masking takes the first k bits, shifting right drops them.
  lemma {:induction false} NatBitsSplit(v: nat, n: nat, k: nat)
    requires k <= n
    ensures NatBits(v, n) == NatBits(Low(v, k), k) + NatBits(Shr(v, k), n - k)
  {
    if k != 0 {
      NatBitsSplit(v / 2, n - 1, k - 1);
      var lo := Low(v, k);
      assert lo % 2 == v % 2 && lo / 2 == Low(v / 2, k - 1);
    }
  }

  lemma {:induction false} NatBitsLow(v: nat, n: nat)
    ensures NatBits(Low(v, n), n) == NatBits(v, n)
  {
    NatBitsSplit(v, n, n);
  }

  lemma NatBitsPrefix(v: nat, n: nat, k: nat)
    requires k <= n
    ensures NatBits(v, n)[..k] == NatBits(v, k)
  {
    NatBitsSplit(v, n, k);
    NatBitsLow(v, k);
  }

  lemma {:induction false} NatBitsZero(n: nat)
    ensures NatBits(0, n) == Zeros(n)
  {
    if n != 0 {
      NatBitsZero(n - 1);
      assert Zeros(n) == [false] + Zeros(n - 1);
    }
  }

  lemma {:induction false} NatBitsIndex(v: nat, n: nat, k: nat)
    requires k < n
    ensures NatBits(v, n)[k] == (Shr(v, k) % 2 == 1)
  {
    if k != 0 {
      NatBitsIndex(v / 2, n - 1, k - 1);
    }
  }

  lemma BytesBitsCons(x: byte, t: seq<byte>)
    ensures BytesBits([x] + t) == ByteBits(x) + BytesBits(t)
  {
    assert ([x] + t)[1..] == t;
  }

  lemma {:induction false} BytesBitsConcat(s: seq<byte>, t: seq<byte>)
    ensures BytesBits(s + t) == BytesBits(s) + BytesBits(t)
  {
    if s == [] {
      assert s + t == t;
    } else {
      BytesBitsConcat(s[1..], t);
      BytesBitsCons(s[0], s[1..]);
      BytesBitsCons(s[0], s[1..] + t);
      assert s + t == [s[0]] + (s[1..] + t);
      assert s == [s[0]] + s[1..];
    }
  }

  lemma BytesBitsAt(s: seq<byte>, k: nat)
    requires k < |s|
    ensures BytesBits(s[k..]) == ByteBits(s[k]) + BytesBits(s[k + 1..])
  {
    assert s[k..][0] == s[k] && s[k..][1..] == s[k + 1..];
  }
}
