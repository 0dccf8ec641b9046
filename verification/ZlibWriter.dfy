/** stbi_zlib_compress: the bit packer, the hash-chain match finder with lazy matching, and the
    stored-block fallback. A location in the data is its offset. */
module ZlibWriter {
  import opened Bits
  import opened CanonicalCode
  import opened Inflate
  import opened FixedCode
  import opened Deflate

  const ZHASH: nat := 16384

  // ---- bit packing ----

  class BitWriter {
    var out: seq<byte>
    var bitbuf: nat
    var bitcount: nat

    ghost predicate Valid()
      reads this
    {
      bitcount < 8 && bitbuf < Pow2(bitcount)
    }

    // Everything written so far, as bits.
    ghost function Written(): seq<bool>
      reads this
    {
      BytesBits(out) + NatBits(bitbuf, bitcount)
    }

    constructor ()
      ensures Valid() && out == [] && bitbuf == 0 && bitcount == 0
    {
      out, bitbuf, bitcount := [], 0, 0;
    }

    // stbiw__zlib_flushf
    method Flush()
      requires bitbuf < Pow2(bitcount)
      modifies this
      ensures Valid() && Written() == old(Written())
      ensures out == old(out) || |out| > |old(out)|
    {
      hide BytesBits, NatBits, Pow2, Shr, Low;
      ghost var all := Written();
      while bitcount >= 8
        invariant bitbuf < Pow2(bitcount) && Written() == all
        invariant |out| >= |old(out)| && (|out| == |old(out)| ==> out == old(out))
        decreases bitcount
      {
        FlushByte();
      }
    }

    method FlushByte()
      requires bitbuf < Pow2(bitcount) && bitcount >= 8
      modifies this
      ensures bitcount == old(bitcount) - 8 && bitbuf < Pow2(bitcount)
      ensures Written() == old(Written()) && |out| == |old(out)| + 1
    {
      hide BytesBits, NatBits, Pow2, Shr, Low;
      assert Low(bitbuf, 8) < 256 by { Pow2Values(); }
      var x: byte := Low(bitbuf, 8);
      NatBitsSplit(bitbuf, bitcount, 8);
      ShrBound(bitbuf, 8, bitcount - 8);
      BytesBitsConcat(out, [x]);
      BytesBitsCons(x, []);
      assert [x] + [] == [x];
      NoBytesBits();
      Joined(BytesBits(out), ByteBits(x), NatBits(Shr(bitbuf, 8), bitcount - 8));
      out := out + [x];
      bitbuf := Shr(bitbuf, 8);
      bitcount := bitcount - 8;
    }

    // bitbuf |= code << bitcount, bitcount += codebits, then flush
    method Add(code: nat, codebits: nat)
      requires Valid() && code < Pow2(codebits) && codebits <= 16
      modifies this
      ensures Valid() && Written() == old(Written()) + NatBits(code, codebits)
    {
      hide BytesBits, NatBits, Pow2, Shl;
      NatBitsAppend(bitbuf, bitcount, code, codebits);
      Joined(BytesBits(out), NatBits(bitbuf, bitcount), NatBits(code, codebits));
      bitbuf := bitbuf + Shl(code, bitcount);
      bitcount := bitcount + codebits;
      Flush();
    }

    // stbiw__zlib_huffa: a code goes out most significant bit first
    method AddCode(code: nat, codebits: nat)
      requires Valid() && code < Pow2(codebits) && codebits <= 16
      modifies this
      ensures Valid() && Written() == old(Written()) + Reverse(NatBits(code, codebits))
    {
      var r := BitRev(code, codebits);
      Add(r, codebits);
    }

    // stbiw__zlib_huff
    method Huff(n: nat)
      requires Valid() && n < 288
      modifies this
      ensures Valid() && Written() == old(Written()) + SymbolBits(n)
    {
      hide BytesBits, NatBits, Pow2, Code;
      FixedCodes(n);
      if n <= 143 {
        AddCode(0x30 + n, 8);
      } else if n <= 255 {
        AddCode(0x190 + n - 144, 9);
      } else if n <= 279 {
        AddCode(0 + n - 256, 7);
      } else {
        AddCode(0xC0 + n - 280, 8);
      }
    }

    // One back reference: length code and extra bits, distance code and extra bits.
    method AddMatch(len: nat, dist: nat)
      requires Valid() && 3 <= len <= 258 && 1 <= dist <= 32767
      modifies this
      ensures Valid() && Written() == old(Written()) + MatchBits(len, dist)
    {
      hide BytesBits, NatBits, LengthBits, DistBits, Pow2;
      Joined(Written(), LengthBits(len), DistBits(dist));
      AddLength(len);
      AddDistance(dist);
    }

    method AddLength(len: nat)
      requires Valid() && 3 <= len <= 258
      modifies this
      ensures Valid() && Written() == old(Written()) + LengthBits(len)
    {
      hide BytesBits, NatBits, CodeBits, Search;
      LengthFits(len);
      var j := RunSearch(LENGTH_CODES, len);
      assert j == LengthIndex(len);
      Joined(Written(), SymbolBits(j + 257), NatBits(len - LENGTH_BASE[j], LENGTH_EXTRA[j]));
      Huff(j + 257);
      AddExtra(len - LENGTH_BASE[j], LENGTH_EXTRA[j]);
    }

    method AddDistance(dist: nat)
      requires Valid() && 1 <= dist <= 32767
      modifies this
      ensures Valid() && Written() == old(Written()) + DistBits(dist)
    {
      hide BytesBits, NatBits, CodeBits, Search;
      DistFits(dist);
      var d := RunSearch(DIST_CODES, dist);
      assert d == DistIndex(dist);
      Joined(Written(), CodeBits(FixedDistLens(), d), NatBits(dist - DIST_BASE[d], DIST_EXTRA[d]));
      AddDist(d);
      AddExtra(dist - DIST_BASE[d], DIST_EXTRA[d]);
    }

    // if (eb[j]) add(value - base, eb[j])
    method AddExtra(extra: nat, n: nat)
      requires Valid() && extra < Pow2(n) && n <= 16
      modifies this
      ensures Valid() && Written() == old(Written()) + NatBits(extra, n)
    {
      if n != 0 {
        Add(extra, n);
      } else {
        assert Written() + [] == Written();
      }
    }

    method AddDist(d: nat)
      requires Valid() && d < 30
      modifies this
      ensures Valid() && Written() == old(Written()) + CodeBits(FixedDistLens(), d)
    {
      hide BytesBits, NatBits, Pow2, Code;
      DistCodes(d);
      AddCode(d, 5);
    }

    // while (bitcount) stbiw__zlib_add(0,1)
    method PadToByte()
      requires Valid()
      modifies this
      ensures Valid() && bitcount == 0
      ensures exists p: nat :: p < 8 && Written() == old(Written()) + Zeros(p)
    {
      hide BytesBits, NatBits;
      ghost var start, p := Written(), 0;
      assert start + Zeros(0) == start;
      while bitcount != 0
        invariant Valid() && Written() == start + Zeros(p)
        invariant p + (if bitcount == 0 then 0 else 8 - bitcount) < 8
        decreases if bitcount == 0 then 0 else 8 - bitcount
      {
        AddZero();
        assert (start + Zeros(p)) + [false] == start + Zeros(p + 1);
        p := p + 1;
      }
    }

    method AddZero()
      requires Valid()
      modifies this
      ensures Valid() && Written() == old(Written()) + [false]
      ensures bitcount == if old(bitcount) == 7 then 0 else old(bitcount) + 1
    {
      assert NatBits(0, 1) == [false];
      ghost var n := |Written()|;
      Add(0, 1);
      assert 8 * |out| + bitcount == n + 1;
    }
  }

  lemma NoBytesBits()
    ensures BytesBits([]) == []
  {
  }

  lemma Joined(a: seq<bool>, b: seq<bool>, c: seq<bool>)
    ensures a + (b + c) == (a + b) + c
  {
  }

  lemma NextBit(v: nat, k: nat)
    ensures NatBits(v, k + 1) == NatBits(v, k) + [Shr(v, k) % 2 == 1]
    ensures Shr(v, k + 1) == Shr(v, k) / 2
  {
    hide Low;
    NatBitsSplit(v, k + 1, k);
    NatBitsLow(v, k);
    ShrNext(v, k);
  }

  lemma {:induction false} ShrNext(v: nat, k: nat)
    ensures Shr(v, k + 1) == Shr(v, k) / 2
  {
    if k != 0 {
      ShrNext(v / 2, k - 1);
    }
  }

  // stbiw__zlib_bitrev
  method BitRev(code: nat, codebits: nat) returns (res: nat)
    ensures res < Pow2(codebits) && NatBits(res, codebits) == Reverse(NatBits(code, codebits))
  {
    res := 0;
    var rest, k := code, 0;
    while k < codebits
      invariant 0 <= k <= codebits && rest == Shr(code, k)
      invariant res < Pow2(k) && NatBits(res, k) == Reverse(NatBits(code, k))
    {
      NextBit(code, k);
      ghost var before, bit := res, rest % 2;
      res := 2 * res + rest % 2;
      PushBit(before, k, bit);
      assert NatBits(res, k + 1) == Reverse(NatBits(code, k + 1));
      rest := rest / 2;
      k := k + 1;
    }
  }

  lemma PushBit(v: nat, k: nat, bit: nat)
    requires v < Pow2(k) && bit < 2
    ensures 2 * v + bit < Pow2(k + 1)
    ensures NatBits(2 * v + bit, k + 1) == [bit == 1] + NatBits(v, k)
  {
  }

  // for (j=0; v > table[j+1]-1; ++j); on integers
  method RunSearch(table: seq<nat>, v: nat) returns (j: nat)
    requires |table| >= 2 && v < table[|table| - 1]
    ensures j == Search(table, v, 0)
  {
    j := 0;
    while v >= table[j + 1]
      invariant 0 <= j < |table| - 1 && Search(table, v, j) == Search(table, v, 0)
      decreases |table| - j
    {
      j := j + 1;
    }
  }
}
