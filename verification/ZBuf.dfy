/** stbi__zbuf: the bit reader and the DEFLATE decoder of stb_image.h, proved against Inflate.
    Past the end of its input the reader supplies zero bits; the ghost results named pad count their bytes. */
module ZBufReader {
  import opened Bits
  import opened BitReversal
  import opened CanonicalCode
  import opened HuffmanTable
  import opened Inflate

  class ZBuf {
    const input: seq<byte>
    var pos: nat            // zbuffer
    var numBits: nat
    var codeBuffer: nat
    var hitZeofOnce: bool
    var zout: seq<byte>     // zout_start .. zout
    var zoutLimit: nat      // zout_end - zout_start
    const expandable: bool
    const zLength: ZHuffman
    const zDistance: ZHuffman

    ghost predicate Valid()
      reads this
    {
      && pos <= |input| && numBits <= 32 && codeBuffer < Pow2(numBits)
      && zLength.Shape() && zDistance.Shape() && zLength.Repr() !! zDistance.Repr()
      && |zout| <= zoutLimit <= 0xFFFF_FFFF && (expandable ==> zoutLimit >= 1)
    }

    // The bits still to be consumed.
    ghost function Rest(): seq<bool>
      requires pos <= |input|
      reads this
    {
      NatBits(codeBuffer, numBits) + BytesBits(input[pos..])
    }

    constructor (input: seq<byte>, limit: nat, expandable: bool)
      requires limit <= 0xFFFF_FFFF && (expandable ==> limit >= 1)
      ensures Valid() && fresh(zLength.Repr()) && fresh(zDistance.Repr())
      ensures this.input == input && pos == 0 && numBits == 0 && codeBuffer == 0
      ensures zout == [] && zoutLimit == limit && this.expandable == expandable
    {
      this.input := input;
      pos, numBits, codeBuffer, hitZeofOnce := 0, 0, 0, false;
      zout, zoutLimit := [], limit;
      this.expandable := expandable;
      var l := new ZHuffman();
      var d := new ZHuffman();
      zLength, zDistance := l, d;
    }

    predicate Zeof()
      reads this
    {
      pos >= |input|
    }

    method Get8() returns (b: byte)
      requires Valid()
      modifies `pos
      ensures Valid()
      ensures old(pos) < |input| ==> b == input[old(pos)] && pos == old(pos) + 1
      ensures old(pos) == |input| ==> b == 0 && pos == old(pos)
    {
      if Zeof() {
        b := 0;
      } else {
        b := input[pos];
        pos := pos + 1;
      }
    }

    // One byte enters the bit buffer; the guard on a corrupt buffer never fires under Valid.
    method FillByte() returns (ghost pad: nat)
      requires Valid() && numBits <= 24
      modifies `pos, `numBits, `codeBuffer
      ensures Valid() && numBits == old(numBits) + 8
      ensures Rest() == old(Rest()) + ZeroBytes(pad)
      ensures |old(Rest())| >= 32 ==> pad == 0
    {
      hide NatBits, BytesBits, Shl, Pow2, Zeros;
      ghost var n, c, at := numBits, codeBuffer, pos;
      var b := Get8();
      codeBuffer := codeBuffer + Shl(b, numBits);
      numBits := numBits + 8;
      Pow2Values();
      NatBitsAppend(c, n, b, 8);
      if at < |input| {
        pad := 0;
        BytesBitsAt(input, at);
        ByteEnters(NatBits(c, n), ByteBits(b), BytesBits(input[pos..]));
      } else {
        pad := 1;
        NatBitsZero(8);
        NoBytes(input[pos..]);
      }
    }

    method FillBits() returns (ghost pad: nat)
      requires Valid() && numBits <= 24
      modifies `pos, `numBits, `codeBuffer
      ensures Valid() && numBits >= 25
      ensures Rest() == old(Rest()) + ZeroBytes(pad)
      ensures |old(Rest())| >= 32 ==> pad == 0
    {
      ghost var start := Rest();
      pad := FillByte();
      while numBits <= 24
        invariant Valid()
        invariant Rest() == start + ZeroBytes(pad)
        invariant |start| >= 32 ==> pad == 0
        decreases 32 - numBits
      {
        ghost var more := FillByte();
        ZerosAdd(start, pad, more);
        pad := pad + more;
      }
    }

    method Receive(n: nat) returns (k: nat, ghost pad: nat)
      requires Valid() && n <= 16
      modifies `pos, `numBits, `codeBuffer
      ensures Valid()
      ensures Take(old(Rest()) + ZeroBytes(pad), n) == Some(Taken(k, Rest()))
      ensures |old(Rest())| >= 32 ==> pad == 0
    {
      pad := 0;
      assert old(Rest()) + ZeroBytes(0) == old(Rest());
      if numBits < n {
        pad := FillBits();
      }
      k := Low(codeBuffer, n);
      Drop(n);
    }

    // code_buffer >>= n; num_bits -= n
    method Drop(n: nat)
      requires Valid() && n <= numBits
      modifies `numBits, `codeBuffer
      ensures Valid() && numBits == old(numBits) - n
      ensures Take(old(Rest()), n) == Some(Taken(Low(old(codeBuffer), n), Rest()))
    {
      ghost var c, m := codeBuffer, numBits;
      codeBuffer := Shr(codeBuffer, n);
      numBits := numBits - n;
      NatBitsSplit(c, m, n);
      ShrBound(c, n, m - n);
      BitsNatOfNatBits(c, n);
      NatBitsLow(c, n);
      PrefixDropped(NatBits(Low(c, n), n), NatBits(codeBuffer, numBits), BytesBits(input[pos..]));
    }

    // The 16 bits at the front of a filled buffer are its low bits.
    lemma Window()
      requires Valid() && numBits >= 16
      ensures |Rest()| >= 16
      ensures Rest()[..16] == NatBits(codeBuffer, 16)
      ensures Rest()[..FAST_BITS] == NatBits(codeBuffer, FAST_BITS)
    {
      NatBitsPrefix(codeBuffer, numBits, 16);
      NatBitsPrefix(codeBuffer, numBits, FAST_BITS);
    }

    method HuffmanDecodeSlow(z: ZHuffman, ghost lens: seq<nat>) returns (sym: int)
      requires Valid() && z.Represents(lens) && numBits >= 16
      requires forall i :: 0 <= i < |lens| && 1 <= lens[i] <= FAST_BITS ==> !(CodeBits(lens, i) <= Rest())
      modifies `numBits, `codeBuffer
      ensures Valid()
      ensures sym >= 0 ==> TakeSymbol(lens, old(Rest())) == Some(Taken(sym, Rest()))
      ensures sym < 0 ==> sym == -1 && TakeSymbol(lens, old(Rest())) == None && Rest() == old(Rest())
    {
      hide NatBits, BytesBits, ZeroBytes, FastEntry, Accepts, Count, FirstCode, Shl, CodeBits, BitReverse, Symbol;
      ghost var bits := Rest();
      var k := BitReverse(codeBuffer, 16);
      Window();
      WindowTop(bits, codeBuffer);
      BeyondShortLevels(lens, bits, FAST_BITS);
      var s := FAST_BITS + 1;
      while k >= z.maxCode[s]
        invariant FAST_BITS + 1 <= s <= 16 && LevelEnd(lens, s - 1) <= k
        decreases 16 - s
      {
        s := s + 1;
      }
      if s >= 16 {
        BeyondAllLevels(lens, bits);
        return -1;
      }
      ghost var i := LevelSymbol(lens, bits, s);
      var b := Shr(k, 16 - s) - z.firstCode[s] + z.firstSymbol[s];
      PositionBound(lens, i);
      assert b < NSYMS && z.size[b] == s; // so neither corruption check of the slow path fires
      Drop(s);
      sym := z.value[b];
    }

    // Refilling before a symbol: at the first end of input sixteen zero bits are lent.
    method EnsureBits() returns (ghost pad: nat, ended: bool)
      requires Valid()
      modifies `pos, `numBits, `codeBuffer, `hitZeofOnce
      ensures Valid() && Rest() == old(Rest()) + ZeroBytes(pad)
      ensures !ended ==> numBits >= 16
      ensures |old(Rest())| >= 32 ==> pad == 0 && !ended
      ensures |old(Rest())| >= 32 ==> hitZeofOnce == old(hitZeofOnce)
      ensures ended ==> old(hitZeofOnce) && |old(Rest())| < 16
    {
      pad, ended := 0, false;
      assert old(Rest()) + ZeroBytes(0) == old(Rest());
      if numBits < 16 {
        if Zeof() {
          assert input[pos..] == [];
          if !hitZeofOnce {
            hitZeofOnce := true;
            PadBits();
            pad := 2;
          } else {
            ended := true;
          }
        } else {
          pad := FillBits();
        }
      }
    }

    // The fast table, then the slow path.
    method HuffmanLookup(z: ZHuffman, ghost lens: seq<nat>) returns (sym: int)
      requires Valid() && z.Represents(lens) && numBits >= 16
      modifies `numBits, `codeBuffer
      ensures Valid()
      ensures sym >= 0 ==> TakeSymbol(lens, old(Rest())) == Some(Taken(sym, Rest()))
      ensures sym < 0 ==> sym == -1 && TakeSymbol(lens, old(Rest())) == None && Rest() == old(Rest())
    {
      ghost var bits := Rest();
      Window();
      FastLookup(lens, bits, codeBuffer);
      FastEntryLow(lens, |lens|, codeBuffer);
      assert Low(codeBuffer, FAST_BITS) < FAST_SIZE by { Pow2Values(); }
      var b := z.fast[Low(codeBuffer, FAST_BITS)];
      if b != 0 {
        var s := b / 512;
        Drop(s);
        return b % 512;
      }
      sym := HuffmanDecodeSlow(z, lens);
    }

    // The next symbol is the one whose code starts the input, and exactly its code is consumed;
    // -1 means that no code matches, or that the lent zero bits are used up.
    method HuffmanDecode(z: ZHuffman, ghost lens: seq<nat>) returns (sym: int, ghost pad: nat, ghost ended: bool)
      requires Valid() && z.Represents(lens)
      modifies `pos, `numBits, `codeBuffer, `hitZeofOnce
      ensures Valid()
      ensures |old(Rest())| >= 32 ==> pad == 0 && !ended && hitZeofOnce == old(hitZeofOnce)
      ensures sym >= 0 ==> TakeSymbol(lens, old(Rest()) + ZeroBytes(pad)) == Some(Taken(sym, Rest()))
      ensures sym < 0 ==> sym == -1
      ensures sym < 0 && !ended ==> TakeSymbol(lens, old(Rest()) + ZeroBytes(pad)) == None
      ensures ended ==> sym < 0 && old(hitZeofOnce) && |old(Rest())| < 16
    {
      var over;
      pad, over := EnsureBits();
      ended := over;
      if over {
        return -1, pad, ended;
      }
      sym := HuffmanLookup(z, lens);
    }

    // num_bits += 16 at the end of the input: sixteen implicit zero bits
    method PadBits()
      requires Valid() && numBits < 16 && pos == |input|
      modifies `numBits
      ensures Valid() && numBits >= 16 && Rest() == old(Rest()) + Zeros(16)
    {
      assert input[pos..] == [];
      NatBitsAppend(codeBuffer, numBits, 0, 16);
      ShlOne(numBits);
      NatBitsZero(16);
      Pow2Mono(numBits, numBits + 16);
      numBits := numBits + 16;
    }

    // The output buffer can be made to hold n bytes.
    ghost predicate CanHold(n: nat)
      reads this
    {
      n <= zoutLimit || (expandable && n <= 0x7FFF_FFFF)
    }

    // Room for n more bytes: the limit doubles, unless it would pass the 32-bit range.
    method Expand(n: nat) returns (ok: bool)
      requires Valid()
      modifies `zoutLimit
      ensures Valid() && zoutLimit >= old(zoutLimit)
      ensures ok ==> |zout| + n <= zoutLimit
      ensures expandable && |zout| + n <= 0x7FFF_FFFF ==> ok
    {
      if !expandable {
        return false;
      }
      if 0xFFFF_FFFF - |zout| < n {
        return false;
      }
      var limit := zoutLimit;
      while |zout| + n > limit
        invariant zoutLimit <= limit <= 0xFFFF_FFFF
        decreases |zout| + n - limit
      {
        if limit > 0xFFFF_FFFF / 2 {
          return false;
        }
        limit := 2 * limit;
      }
      zoutLimit := limit;
      ok := true;
    }

    method EmitByte(b: byte) returns (ok: bool)
      requires Valid()
      modifies `zout, `zoutLimit
      ensures Valid() && zoutLimit >= old(zoutLimit)
      ensures ok ==> zout == old(zout) + [b]
      ensures old(CanHold(|zout| + 1)) ==> ok
    {
      if |zout| >= zoutLimit {
        ok := Expand(1);
        if !ok {
          return;
        }
      }
      zout := zout + [b];
      ok := true;
    }

    // The copy loops: a run of one byte when dist is 1, otherwise byte by byte.
    method EmitCopy(dist: nat, len: nat) returns (ok: bool)
      requires Valid() && 1 <= dist <= |zout|
      modifies `zout, `zoutLimit
      ensures Valid() && zoutLimit >= old(zoutLimit)
      ensures ok ==> zout == CopyBack(old(zout), dist, len)
      ensures old(CanHold(|zout| + len)) ==> ok
    {
      if len > zoutLimit - |zout| {
        ok := Expand(len);
        if !ok {
          return;
        }
      }
      ghost var goal := CopyBack(zout, dist, len);
      ghost var room := zoutLimit;
      var n := len;
      if dist == 1 {
        var v := zout[|zout| - 1];
        while n > 0
          invariant Valid() && zoutLimit == room && |zout| + n <= room && |zout| >= 1
          invariant zout[|zout| - 1] == v && goal == CopyBack(zout, 1, n)
        {
          zout := zout + [v];
          n := n - 1;
        }
      } else {
        while n > 0
          invariant Valid() && zoutLimit == room && |zout| + n <= room && dist <= |zout|
          invariant goal == CopyBack(zout, dist, n)
        {
          zout := zout + [zout[|zout| - dist]];
          n := n - 1;
        }
      }
      ok := true;
    }

    // Length extra bits, distance symbol, distance extra bits.
    method DecodeMatch(sym: nat, ghost distLens: seq<nat>) returns (ok: bool, len: nat, dist: nat, ghost pad: nat)
      requires Valid() && 257 <= sym < 286 && zDistance.Represents(distLens)
      modifies `pos, `numBits, `codeBuffer, `hitZeofOnce
      ensures Valid()
      ensures len >= 3
      ensures ok ==> TakeMatch(distLens, sym, old(Rest()) + ZeroBytes(pad)) == Some(Taken(BackRef(len, dist), Rest()))
      ensures var m := TakeMatch(distLens, sym, old(Rest()));
              m.Some? && |m.value.rest| >= 32 ==> ok && pad == 0 && hitZeofOnce == old(hitZeofOnce)
    {
      hide TakeLength, TakeDistance, NatBits, BytesBits, ZeroBytes, FastEntry, Accepts;
      ghost var start := Rest();
      ghost var first, second;
      NoZeros(start);
      len, first := DecodeLength(sym);
      ghost var middle := Rest();
      ok, dist, second := DecodeDistance(distLens);
      pad := first + second;
      if ok {
        ZerosAdd(start, first, second);
        MatchThen(distLens, sym, start + ZeroBytes(first), len, middle, ZeroBytes(second), dist, Rest());
      }
    }

    method DecodeLength(sym: nat) returns (len: nat, ghost pad: nat)
      requires Valid() && 257 <= sym < 286
      modifies `pos, `numBits, `codeBuffer
      ensures Valid()
      ensures len >= 3
      ensures TakeLength(sym, old(Rest()) + ZeroBytes(pad)) == Some(Taken(len, Rest()))
      ensures |old(Rest())| >= 32 ==> pad == 0
    {
      hide NatBits, BytesBits, ZeroBytes, Take;
      pad := 0;
      len := LENGTH_BASE[sym - 257];
      NoZeros(Rest());
      TakeNothing(Rest());
      if LENGTH_EXTRA[sym - 257] != 0 {
        var k;
        k, pad := Receive(LENGTH_EXTRA[sym - 257]);
        len := len + k;
      }
    }

    method DecodeDistance(ghost distLens: seq<nat>) returns (ok: bool, dist: nat, ghost pad: nat)
      requires Valid() && zDistance.Represents(distLens)
      modifies `pos, `numBits, `codeBuffer, `hitZeofOnce
      ensures Valid()
      ensures ok ==> TakeDistance(distLens, old(Rest()) + ZeroBytes(pad)) == Some(Taken(dist, Rest()))
      ensures var d := TakeDistance(distLens, old(Rest()));
              d.Some? && |d.value.rest| >= 32 ==> ok && pad == 0 && hitZeofOnce == old(hitZeofOnce)
    {
      hide TakeSymbol, TakeDistanceExtra, NatBits, BytesBits, ZeroBytes, FastEntry, Accepts;
      ghost var start := Rest();
      NoZeros(start);
      ok, dist := false, 0;
      var z;
      ghost var first, second, ended;
      z, first, ended := HuffmanDecode(zDistance, distLens);
      pad := first;
      if z < 0 || z >= 30 {
        BadDistance(z, Rest());
        return;
      }
      ghost var middle := Rest();
      dist, second := DecodeDistanceExtra(z);
      ok, pad := true, first + second;
      ZerosAdd(start, first, second);
      DistanceThen(distLens, start + ZeroBytes(first), z, middle, ZeroBytes(second), dist, Rest());
    }

    method DecodeDistanceExtra(z: nat) returns (dist: nat, ghost pad: nat)
      requires Valid() && z < 30
      modifies `pos, `numBits, `codeBuffer
      ensures Valid()
      ensures TakeDistanceExtra(z, old(Rest()) + ZeroBytes(pad)) == Some(Taken(dist, Rest()))
      ensures |old(Rest())| >= 32 ==> pad == 0
    {
      hide NatBits, BytesBits, ZeroBytes, Take;
      pad := 0;
      dist := DIST_BASE[z];
      NoZeros(Rest());
      TakeNothing(Rest());
      if DIST_EXTRA[z] != 0 {
        var k;
        k, pad := Receive(DIST_EXTRA[z]);
        dist := dist + k;
      }
    }
  }

  lemma NoZeros(r: seq<bool>)
    ensures r + ZeroBytes(0) == r
  {
  }

  lemma BadDistance(z: int, r: seq<bool>)
    ensures z >= 30 ==> TakeDistanceExtra(z, r) == None
  {
  }

  lemma DistanceThen(distLens: seq<nat>, x: seq<bool>, d: nat, r: seq<bool>, z: seq<bool>,
                  dist: nat, rest: seq<bool>)
    requires Usable(distLens) && TakeSymbol(distLens, x) == Some(Taken(d, r))
    requires TakeDistanceExtra(d, r + z) == Some(Taken(dist, rest))
    ensures TakeDistance(distLens, x + z) == Some(Taken(dist, rest))
  {
    SymbolStable(distLens, x, z);
  }

  lemma MatchThen(distLens: seq<nat>, sym: nat, x: seq<bool>, len: nat, r: seq<bool>, z: seq<bool>,
                  dist: nat, rest: seq<bool>)
    requires 257 <= sym < 286 && TakeLength(sym, x) == Some(Taken(len, r))
    requires TakeDistance(distLens, r + z) == Some(Taken(dist, rest))
    ensures TakeMatch(distLens, sym, x + z) == Some(Taken(BackRef(len, dist), rest))
  {
    LengthStable(sym, x, z);
  }

  lemma NoBytes(s: seq<byte>)
    requires s == []
    ensures BytesBits(s) == []
  {
  }

  lemma ByteEnters(low: seq<bool>, b: seq<bool>, rest: seq<bool>)
    ensures low + (b + rest) == (low + b) + rest
  {
  }

  lemma ZerosAdd(r: seq<bool>, m: nat, n: nat)
    ensures (r + ZeroBytes(m)) + ZeroBytes(n) == r + ZeroBytes(m + n)
  {
  }

  lemma PrefixDropped(a: seq<bool>, b: seq<bool>, c: seq<bool>)
    ensures ((a + b) + c)[..|a|] == a && ((a + b) + c)[|a|..] == b + c
  {
  }
}
