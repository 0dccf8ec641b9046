/** The other block kinds and the stream: stbi__parse_uncompressed_block,
    stbi__compute_huffman_codes, stbi__parse_zlib_header and stbi__parse_zlib. */
module ZlibStream {
  import opened Bits
  import opened CanonicalCode
  import opened HuffmanTable
  import opened Inflate
  import opened ZBufReader
  import opened ZlibDecoder
  import opened DynamicCodes
  import opened FixedCode
  import opened InflateProgress

  // ---- stored blocks ----

  lemma ByteNat(x: byte)
    ensures BitsNat(ByteBits(x)) == x
  {
    Pow2Values();
    BitsNatOfNatBits(x, 8);
    LowOfSmall(x, 8);
  }

  lemma {:induction false} BitsNatConcat(a: seq<bool>, b: seq<bool>)
    ensures BitsNat(a + b) == BitsNat(a) + Shl(BitsNat(b), |a|)
  {
    if a == [] {
      assert a + b == b;
    } else {
      assert (a + b)[1..] == a[1..] + b;
      BitsNatConcat(a[1..], b);
    }
  }

  function Word16(low: byte, high: byte): nat {
    var l: int, h: int := low, high;
    h * 256 + l
  }

  lemma TwoBytesNat(x: byte, y: byte)
    ensures BitsNat(ByteBits(x) + ByteBits(y)) == Word16(x, y)
  {
    ByteNat(x);
    ByteNat(y);
    BitsNatConcat(ByteBits(x), ByteBits(y));
    ShlIsMul(y, 8);
    Pow2Values();
  }

  lemma HeaderBits(h: seq<byte>)
    requires |h| == 4
    ensures BitsNat(BytesBits(h)[..16]) == Word16(h[0], h[1])
    ensures BitsNat(BytesBits(h)[16..32]) == Word16(h[2], h[3])
  {
    hide BitsNat, ByteBits, BytesBits;
    BytesBitsAt(h, 0);
    BytesBitsAt(h, 1);
    BytesBitsAt(h, 2);
    BytesBitsAt(h, 3);
    assert h[0..] == h;
    NoBytes(h[4..]);
    assert BytesBits(h)[..16] == ByteBits(h[0]) + ByteBits(h[1]);
    assert BytesBits(h)[16..32] == ByteBits(h[2]) + ByteBits(h[3]);
    TwoBytesNat(h[0], h[1]);
    TwoBytesNat(h[2], h[3]);
  }

  lemma {:induction false} BitsBytesOfBytesBits(s: seq<byte>)
    ensures BitsBytes(BytesBits(s)) == s
  {
    if s != [] {
      var b := BytesBits(s);
      BytesBitsAt(s, 0);
      assert s[0..] == s;
      assert b[..8] == ByteBits(s[0]) && b[8..] == BytesBits(s[1..]);
      ByteNat(s[0]);
      BitsBytesOfBytesBits(s[1..]);
    }
  }

  lemma BytesBitsSplit(s: seq<byte>, n: nat)
    requires n <= |s|
    ensures BytesBits(s)[..8 * n] == BytesBits(s[..n]) && BytesBits(s)[8 * n..] == BytesBits(s[n..])
  {
    hide BytesBits;
    BytesBitsConcat(s[..n], s[n..]);
    assert s == s[..n] + s[n..];
  }

  lemma StoredFields(b: seq<bool>, header: seq<byte>, rest: seq<byte>)
    requires |header| == 4 && b == BytesBits(header) + BytesBits(rest)
    ensures BitsNat(b[..16]) == Word16(header[0], header[1])
    ensures BitsNat(b[16..32]) == Word16(header[2], header[3])
    ensures b[32..] == BytesBits(rest)
  {
    hide BitsNat, BytesBits;
    HeaderBits(header);
    assert b[..16] == BytesBits(header)[..16] && b[16..32] == BytesBits(header)[16..32];
  }

  lemma StoredBytes(b: seq<bool>, rest: seq<byte>, len: nat)
    requires |b| >= 32 && b[32..] == BytesBits(rest) && len <= |rest|
    ensures BitsBytes(b[32..32 + 8 * len]) == rest[..len]
    ensures b[32 + 8 * len..] == BytesBits(rest[len..])
  {
    hide BytesBits, BitsBytes;
    BytesBitsSplit(rest, len);
    BitsBytesOfBytesBits(rest[..len]);
    assert b[32..32 + 8 * len] == BytesBits(rest)[..8 * len];
    assert b[32 + 8 * len..] == BytesBits(rest)[8 * len..];
  }

  // What a stored block means once its four header bytes are separated from the bytes after them.
  lemma StoredMeaning(b: seq<bool>, header: seq<byte>, rest: seq<byte>, out: seq<byte>)
    requires |header| == 4 && |b| % 8 == 0 && b == BytesBits(header) + BytesBits(rest)
    ensures var len, nlen := Word16(header[0], header[1]), Word16(header[2], header[3]);
            StoredBlock(b, out) ==
              if len + nlen != 0xFFFF || |rest| < len then None
              else Some(Progress(out + rest[..len], BytesBits(rest[len..])))
  {
    hide BitsNat, BytesBits, BitsBytes, Word16, Pow2;
    assert b[|b| % 8..] == b;
    StoredFields(b, header, rest);
    var len := Word16(header[0], header[1]);
    if len <= |rest| {
      StoredBytes(b, rest, len);
    }
  }

  lemma StoredAligned(bits: seq<bool>, out: seq<byte>)
    ensures StoredBlock(bits, out) == StoredBlock(bits[|bits| % 8..], out)
  {
    var b := bits[|bits| % 8..];
    assert |b| % 8 == 0;
    assert b[0..] == b;
  }

  method ParseUncompressedBlock(a: ZBuf) returns (ok: bool, ghost pad: nat)
    requires a.Valid()
    modifies a
    ensures a.Valid() && a.zoutLimit >= old(a.zoutLimit) && a.hitZeofOnce == old(a.hitZeofOnce)
    ensures ok ==> StoredBlock(old(a.Rest()) + ZeroBytes(pad), old(a.zout)) == Some(Progress(a.zout, a.Rest()))
    ensures var b := StoredBlock(old(a.Rest()), old(a.zout));
            b.Some? && old(a.CanHold(|b.value.out|)) ==> ok && pad == 0
  {
    hide StoredBlock, NatBits, BytesBits, ZeroBytes, FastEntry, Accepts, BitsBytes;
    ghost var start, out := a.Rest(), a.zout;
    var header;
    header, pad := StoredHeader(a);
    ghost var b := start[|start| % 8..] + ZeroBytes(pad);
    NoZeros(start[|start| % 8..]);
    StoredAligned(start, out);
    StoredAligned(start + ZeroBytes(pad), out);
    AlignedStable(start, pad);
    StoredMeaning(b, header, a.input[a.pos..], out);
    StoredNeeds(start, out);
    var len := Word16(header[0], header[1]);
    var nlen := Word16(header[2], header[3]);
    if nlen != 0xFFFF - len { // len ^ 0xffff, for a 16-bit len
      return false, pad;
    }
    if a.pos + len > |a.input| {
      return false, pad;
    }
    if |a.zout| + len > a.zoutLimit {
      ok := a.Expand(len);
      if !ok {
        return;
      }
    }
    a.zout := a.zout + a.input[a.pos..a.pos + len];
    assert a.input[a.pos..][..len] == a.input[a.pos..a.pos + len];
    assert a.input[a.pos..][len..] == a.input[a.pos + len..];
    a.pos := a.pos + len;
    NoBits(a);
    ok := true;
  }

  lemma StoredNeeds(bits: seq<bool>, out: seq<byte>)
    ensures StoredBlock(bits, out).Some? ==> |bits[|bits| % 8..]| >= 32
  {
  }

  // Discard to the byte boundary, drain the buffered bytes, then read the rest of the header.
  method StoredHeader(a: ZBuf) returns (header: seq<byte>, ghost pad: nat)
    requires a.Valid()
    modifies a`pos, a`numBits, a`codeBuffer
    ensures a.Valid() && a.numBits == 0 && |header| == 4
    ensures var b := old(a.Rest())[|old(a.Rest())| % 8..] + ZeroBytes(pad);
            b == BytesBits(header) + BytesBits(a.input[a.pos..])
    ensures |old(a.Rest())[|old(a.Rest())| % 8..]| >= 32 ==> pad == 0
  {
    hide NatBits, BytesBits, ZeroBytes, FastEntry, Accepts, BitsNat, Pow2, Shr, Low;
    DiscardToByte(a);
    ghost var aligned := a.Rest();
    header := [];
    NoBytes(header);
    while a.numBits > 0
      invariant a.Valid() && a.numBits == 8 * (a.numBits / 8) && |header| + a.numBits / 8 <= 4
      invariant aligned == BytesBits(header) + a.Rest()
      decreases a.numBits
    {
      var x := DrainByte(a, aligned, header);
      header := header + [x];
    }
    pad := 0;
    NoZeros(aligned);
    NoBits(a);
    while |header| < 4
      invariant a.Valid() && a.numBits == 0 && |header| <= 4
      invariant aligned + ZeroBytes(pad) == BytesBits(header) + BytesBits(a.input[a.pos..])
      invariant pad > 0 ==> a.pos == |a.input|
      decreases 4 - |header|
    {
      var x;
      ghost var more;
      x, more := HeaderByte(a, aligned, pad, header);
      header := header + [x];
      pad := pad + more;
    }
    NoBytesLeft(a, pad);
  }

  method DiscardToByte(a: ZBuf)
    requires a.Valid()
    modifies a`numBits, a`codeBuffer
    ensures a.Valid() && a.numBits == 8 * (a.numBits / 8) <= 32
    ensures a.Rest() == old(a.Rest())[|old(a.Rest())| % 8..]
  {
    hide NatBits, BytesBits, BitsNat;
    assert |a.Rest()| % 8 == a.numBits % 8;
    var n := a.numBits % 8;
    if n != 0 {
      a.Drop(n);
    }
  }

  lemma NoBits(a: ZBuf)
    requires a.Valid() && a.numBits == 0
    ensures a.Rest() == BytesBits(a.input[a.pos..])
  {
  }

  lemma NoBytesLeft(a: ZBuf, pad: nat)
    requires a.Valid() && (pad > 0 ==> a.pos == |a.input|)
    ensures pad > 0 ==> BytesBits(a.input[a.pos..]) == []
  {
  }

  // header[k++] = code_buffer & 255; code_buffer >>= 8; num_bits -= 8
  method DrainByte(a: ZBuf, ghost aligned: seq<bool>, ghost header: seq<byte>) returns (x: byte)
    requires a.Valid() && a.numBits >= 8
    requires aligned == BytesBits(header) + a.Rest()
    modifies a`numBits, a`codeBuffer
    ensures a.Valid() && a.numBits == old(a.numBits) - 8
    ensures aligned == BytesBits(header + [x]) + a.Rest()
  {
    hide NatBits, BytesBits, ZeroBytes;
    ghost var rest := a.Rest();
    Pow2Values();
    x := Low(a.codeBuffer, 8);
    a.Drop(8);
    TakenByte(x, rest, a.Rest());
    BytesBitsConcat(header, [x]);
    OneByte(x);
    ByteEnters(BytesBits(header), ByteBits(x), a.Rest());
  }

  lemma OneByte(x: byte)
    ensures BytesBits([x]) == ByteBits(x)
  {
  }

  lemma TakenByte(x: byte, bits: seq<bool>, rest: seq<bool>)
    requires Take(bits, 8) == Some(Taken(x, rest))
    ensures bits == ByteBits(x) + rest
  {
    NatBitsOfBitsNat(bits[..8]);
  }

  // header[k++] = stbi__zget8(a)
  method HeaderByte(a: ZBuf, ghost aligned: seq<bool>, ghost pad: nat, ghost header: seq<byte>)
    returns (x: byte, ghost more: nat)
    requires a.Valid() && a.numBits == 0
    requires aligned + ZeroBytes(pad) == BytesBits(header) + BytesBits(a.input[a.pos..])
    requires pad > 0 ==> a.pos == |a.input|
    modifies a`pos
    ensures a.Valid()
    ensures aligned + ZeroBytes(pad + more) == BytesBits(header + [x]) + BytesBits(a.input[a.pos..])
    ensures pad + more > 0 ==> a.pos == |a.input|
  {
    hide NatBits, BytesBits, ZeroBytes;
    ghost var at := a.pos;
    x := a.Get8();
    BytesBitsConcat(header, [x]);
    OneByte(x);
    if at < |a.input| {
      more := 0;
      BytesBitsAt(a.input, at);
      ByteEnters(BytesBits(header), ByteBits(x), BytesBits(a.input[a.pos..]));
    } else {
      more := 1;
      NoBytes(a.input[a.pos..]);
      ZerosAdd(aligned, pad, 1);
      ZeroByte();
    }
  }

  lemma ZeroByte()
    ensures ByteBits(0) == ZeroBytes(1)
  {
    NatBitsZero(8);
  }

  // ---- the block loop ----

  lemma OneBlockStable(kind: nat, bits: seq<bool>, out: seq<byte>, n: nat)
    requires OneBlock(kind, bits, out).Some?
    ensures OneBlock(kind, bits + ZeroBytes(n), out)
            == Some(OneBlock(kind, bits, out).value.(rest := OneBlock(kind, bits, out).value.rest + ZeroBytes(n)))
  {
    hide StoredBlock, InflateBlock, DynamicLengths, Accepts;
    FixedUsable();
    DistUsable();
    if kind == 0 {
      StoredStable(bits, out, n);
    } else if kind == 1 {
      BlockStable(FixedLens(), FixedDistLens(), bits, out, ZeroBytes(n));
    } else {
      DynamicStable(bits, ZeroBytes(n));
      var d := DynamicLengths(bits).value;
      BlockStable(d.value.lens, d.value.distLens, d.rest, out, ZeroBytes(n));
    }
  }

  method ParseFixedBlock(a: ZBuf) returns (ok: bool, ghost pad: nat)
    requires a.Valid()
    modifies a, a.zLength.Repr(), a.zDistance.Repr()
    ensures a.Valid() && a.zoutLimit >= old(a.zoutLimit)
    ensures ok ==> OneBlock(1, old(a.Rest()) + ZeroBytes(pad), old(a.zout)) == Some(Progress(a.zout, a.Rest()))
    ensures var b := OneBlock(1, old(a.Rest()), old(a.zout));
            b.Some? && |b.value.rest| >= 32 && old(a.CanHold(|b.value.out|)) && !old(a.hitZeofOnce)
            ==> ok && pad == 0 && !a.hitZeofOnce
  {
    hide InflateBlock, Accepts, NatBits, BytesBits, ZeroBytes, FastEntry, FixedLens, FixedDistLens;
    FixedUsable();
    DistUsable();
    ok := a.zLength.Build(FixedLens());
    ok := a.zDistance.Build(FixedDistLens());
    ok, pad := ParseHuffmanBlock(a, FixedLens(), FixedDistLens());
  }

  method ParseDynamicBlock(a: ZBuf) returns (ok: bool, ghost pad: nat)
    requires a.Valid()
    modifies a, a.zLength.Repr(), a.zDistance.Repr()
    ensures a.Valid() && a.zoutLimit >= old(a.zoutLimit)
    ensures ok ==> OneBlock(2, old(a.Rest()) + ZeroBytes(pad), old(a.zout)) == Some(Progress(a.zout, a.Rest()))
    ensures var b := OneBlock(2, old(a.Rest()), old(a.zout));
            b.Some? && |b.value.rest| >= 32 && old(a.CanHold(|b.value.out|)) && !old(a.hitZeofOnce)
            ==> ok && pad == 0 && !a.hitZeofOnce
  {
    hide OneBlock, InflateBlock, DynamicLengths, Accepts, NatBits, BytesBits, ZeroBytes, FastEntry;
    ghost var lens, distLens;
    ghost var start, out := a.Rest(), a.zout;
    ghost var first, second;
    NoZeros(start);
    DynamicBlockNeeds(start, out);
    ok, lens, distLens, first := ComputeHuffmanCodes(a);
    pad := first;
    if !ok {
      return;
    }
    ghost var middle := a.Rest();
    NoZeros(middle);
    ok, second := ParseHuffmanBlock(a, lens, distLens);
    DynamicBlockThen(start + ZeroBytes(first), out, CodePair(lens, distLens), middle, ZeroBytes(second));
    ZerosAdd(start, first, second);
    pad := first + second;
  }

  method ParseBlock(a: ZBuf, kind: nat) returns (ok: bool, ghost pad: nat)
    requires a.Valid() && kind <= 3
    modifies a, a.zLength.Repr(), a.zDistance.Repr()
    ensures a.Valid() && a.zoutLimit >= old(a.zoutLimit)
    ensures ok ==> OneBlock(kind, old(a.Rest()) + ZeroBytes(pad), old(a.zout)) == Some(Progress(a.zout, a.Rest()))
    ensures var b := OneBlock(kind, old(a.Rest()), old(a.zout));
            b.Some? && |b.value.rest| >= 32 && old(a.CanHold(|b.value.out|)) && !old(a.hitZeofOnce)
            ==> ok && pad == 0 && !a.hitZeofOnce
  {
    hide StoredBlock, InflateBlock, DynamicLengths, Accepts, NatBits, BytesBits, ZeroBytes, FastEntry;
    if kind == 0 {
      ok, pad := ParseUncompressedBlock(a);
    } else if kind == 3 {
      ok, pad := false, 0;
    } else if kind == 1 {
      ok, pad := ParseFixedBlock(a);
    } else {
      ok, pad := ParseDynamicBlock(a);
    }
  }

  lemma DynamicBlockNeeds(bits: seq<bool>, out: seq<byte>)
    ensures var b := OneBlock(2, bits, out);
            b.Some? ==>
              var d := DynamicLengths(bits);
              && d.Some? && |d.value.rest| >= |b.value.rest|
              && InflateBlock(d.value.value.lens, d.value.value.distLens, d.value.rest, out) == b
  {
  }

  lemma DynamicBlockThen(bits: seq<bool>, out: seq<byte>, codes: CodePair, r: seq<bool>, z: seq<bool>)
    requires DynamicLengths(bits) == Some(Taken(codes, r))
    ensures OneBlock(2, bits + z, out) == InflateBlock(codes.lens, codes.distLens, r + z, out)
  {
    hide DynamicLengths, InflateBlock;
    DynamicStable(bits, z);
  }

  ghost predicate BlocksFollow(start: seq<bool>, out0: seq<byte>, pad: nat, rest: seq<bool>, out: seq<byte>) {
    forall n: nat ::
      InflateBlocks(start + ZeroBytes(pad + n), out0) == InflateBlocks(rest + ZeroBytes(n), out)
  }

  // One block header and its block, read with more lent bytes.
  lemma BlocksStep(start: seq<bool>, out0: seq<byte>, pad: nat, rest: seq<bool>, out: seq<byte>,
                   z: nat, head: seq<bool>, more: nat, rest': seq<bool>, out': seq<byte>)
    requires BlocksFollow(start, out0, pad, rest, out)
    requires head == rest + ZeroBytes(z) && |head| >= 3
    requires OneBlock(BitsNat(head[1..3]), head[3..] + ZeroBytes(more), out) == Some(Progress(out', rest'))
    ensures !head[0] ==> BlocksFollow(start, out0, pad + z + more, rest', out')
    ensures head[0] ==> InflateBlocks(start + ZeroBytes(pad + z + more), out0) == Some(Progress(out', rest'))
  {
    hide OneBlock, ZeroBytes, BitsNat;
    forall n: nat
      ensures InflateBlocks(start + ZeroBytes(pad + z + more + n), out0)
              == if head[0] then Some(Progress(out', rest' + ZeroBytes(n)))
                 else InflateBlocks(rest' + ZeroBytes(n), out')
    {
      assert pad + z + more + n == pad + (z + (more + n));
      ZerosAdd(rest, z, more + n);
      ZerosAdd(head, more, n);
      BlocksUnfold(head, more, n, out, out', rest');
    }
    NoZeros(rest');
    assert pad + z + more + 0 == pad + z + more;
  }

  lemma BlocksUnfold(head: seq<bool>, more: nat, n: nat, out: seq<byte>, out': seq<byte>, rest': seq<bool>)
    requires |head| >= 3
    requires OneBlock(BitsNat(head[1..3]), head[3..] + ZeroBytes(more), out) == Some(Progress(out', rest'))
    ensures InflateBlocks(head + ZeroBytes(more + n), out)
            == if head[0] then Some(Progress(out', rest' + ZeroBytes(n)))
               else InflateBlocks(rest' + ZeroBytes(n), out')
  {
    hide OneBlock, ZeroBytes, BitsNat;
    var x := head + ZeroBytes(more + n);
    assert x[1..3] == head[1..3] && x[0] == head[0];
    ZerosAdd(head[3..], more, n);
    assert x[3..] == head[3..] + ZeroBytes(more + n);
    OneBlockStable(BitsNat(head[1..3]), head[3..] + ZeroBytes(more), out, n);
  }

  method ReadBlockHeader(a: ZBuf) returns (final: nat, kind: nat, ghost head: seq<bool>, ghost pad: nat)
    requires a.Valid()
    modifies a`pos, a`numBits, a`codeBuffer
    ensures a.Valid() && kind <= 3
    ensures head == old(a.Rest()) + ZeroBytes(pad) && |head| >= 3 && a.Rest() == head[3..]
    ensures (final != 0) == head[0] && kind == BitsNat(head[1..3])
    ensures |old(a.Rest())| >= 33 ==> pad == 0
  {
    hide NatBits, BytesBits, ZeroBytes, BitsNat;
    ghost var start := a.Rest();
    ghost var first, second;
    NoZeros(start);
    final, first := a.Receive(1);
    ghost var middle := a.Rest();
    NoZeros(middle);
    kind, second := a.Receive(2);
    pad := first + second;
    head := start + ZeroBytes(pad);
    ZerosAdd(start, first, second);
    HeadBits(start + ZeroBytes(first), final, middle, ZeroBytes(second), kind, a.Rest());
  }

  lemma HeadBits(x: seq<bool>, final: nat, middle: seq<bool>, z: seq<bool>, kind: nat, rest: seq<bool>)
    requires Take(x, 1) == Some(Taken(final, middle)) && Take(middle + z, 2) == Some(Taken(kind, rest))
    ensures var head := x + z;
            && |head| >= 3 && rest == head[3..] && (final != 0) == head[0] && kind == BitsNat(head[1..3])
    ensures kind <= 3
  {
    var head := x + z;
    assert middle + z == head[1..];
    assert (middle + z)[..2] == head[1..3];
    assert (middle + z)[2..] == head[3..];
    assert x[..1] == [head[0]];
    assert BitsNat([head[0]]) == if head[0] then 1 else 0;
    Pow2Values();
  }

  // Section 2.2 of RFC 1950, as far as the reader checks it.
  predicate ZlibHeader(input: seq<byte>) {
    |input| > 2 && (Word16(input[1], input[0]) % 31 == 0) && input[1] / 32 % 2 == 0 && input[0] % 16 == 8
  }

  method ParseZlibHeader(a: ZBuf) returns (ok: bool)
    requires a.Valid() && a.pos == 0 && a.numBits == 0
    modifies a`pos
    ensures a.Valid() && ok == ZlibHeader(a.input)
    ensures ok ==> a.pos == 2
  {
    var cmf := a.Get8();
    var cm := cmf % 16;
    var flg := a.Get8();
    if a.Zeof() {
      return false;
    }
    if Word16(flg, cmf) % 31 != 0 {
      return false;
    }
    if flg / 32 % 2 != 0 {
      return false;
    }
    ok := cm == 8;
  }

  // The blocks loop. A stream that means something and is followed by its four check bytes is
  // decoded to what it means; and whatever is accepted means what was returned.
  method ParseBlocks(a: ZBuf) returns (ok: bool, ghost pad: nat)
    requires a.Valid() && a.numBits == 0 && a.codeBuffer == 0
    modifies a, a.zLength.Repr(), a.zDistance.Repr()
    ensures a.Valid()
    ensures ok ==> InflateBlocks(old(a.Rest()) + ZeroBytes(pad), old(a.zout)) == Some(Progress(a.zout, a.Rest()))
    ensures var b := InflateBlocks(old(a.Rest()), old(a.zout));
            b.Some? && |b.value.rest| >= 32 && old(a.CanHold(|b.value.out|)) ==> ok && pad == 0
  {
    hide InflateBlocks, OneBlock, Accepts, NatBits, BytesBits, ZeroBytes, FastEntry, BitsNat, Ones;
    a.hitZeofOnce := false;
    ghost var start, out := a.Rest(), a.zout;
    ghost var whole := InflateBlocks(start, out);
    ghost var plain := whole.Some? && |whole.value.rest| >= 32 && a.CanHold(|whole.value.out|);
    ghost var room := a.zoutLimit;
    pad := 0;
    while true
      invariant a.Valid() && a.zoutLimit >= room
      invariant BlocksFollow(start, out, pad, a.Rest(), a.zout)
      invariant plain ==> pad == 0 && !a.hitZeofOnce
      decreases Ones(a.Rest())
    {
      ghost var rest, zout := a.Rest(), a.zout;
      if plain {
        BlocksPlain(start, out, rest, zout);
        BlocksNeed(rest, zout);
      }
      var final, kind;
      ghost var head, z, more;
      final, kind, head, z := ReadBlockHeader(a);
      NoZeros(rest);
      ghost var body := a.Rest();
      NoZeros(body);
      ok, more := ParseBlock(a, kind);
      if !ok {
        return false, pad;
      }
      BlocksStep(start, out, pad, rest, zout, z, head, more, a.Rest(), a.zout);
      pad := pad + z + more;
      if final != 0 {
        return true, pad;
      }
      NoOnesLent(more);
      BlockUsesOnes(head, ZeroBytes(more), zout);
      OnesConcat(rest, ZeroBytes(z));
      NoOnesLent(z);
    }
  }

  lemma NoOnesLent(n: nat)
    ensures Ones(ZeroBytes(n)) == 0
  {
    OnesZeros(8 * n);
  }

  lemma BlocksPlain(start: seq<bool>, out0: seq<byte>, rest: seq<bool>, out: seq<byte>)
    requires BlocksFollow(start, out0, 0, rest, out)
    ensures InflateBlocks(start, out0) == InflateBlocks(rest, out)
  {
    NoZeros(start);
    NoZeros(rest);
    assert ZeroBytes(0 + 0) == ZeroBytes(0);
  }

  lemma BlocksNeed(bits: seq<bool>, out: seq<byte>)
    requires InflateBlocks(bits, out).Some?
    ensures |bits| >= 3 + |InflateBlocks(bits, out).value.rest|
    ensures var b := OneBlock(BitsNat(bits[1..3]), bits[3..], out);
            && b.Some? && |b.value.rest| >= |InflateBlocks(bits, out).value.rest|
            && |b.value.out| <= |InflateBlocks(bits, out).value.out|
  {
  }

  // ---- stbi_zlib_decode_*: a whole buffer ----

  // What the bytes of a zlib buffer decode to.
  ghost function Decoded(input: seq<byte>, parseHeader: bool): Option<Progress> {
    if !parseHeader then InflateBlocks(BytesBits(input), [])
    else if ZlibHeader(input) then InflateBlocks(BytesBits(input[2..]), [])
    else None
  }

  method ZlibDecode(input: seq<byte>, initialSize: nat, expandable: bool, parseHeader: bool)
    returns (r: Option<seq<byte>>, ghost pad: nat)
    requires initialSize <= 0xFFFF_FFFF && (expandable ==> initialSize >= 1)
    ensures r.Some? ==>
      && (parseHeader ==> ZlibHeader(input))
      && var start := if parseHeader then BytesBits(input[2..]) else BytesBits(input);
         var b := InflateBlocks(start + ZeroBytes(pad), []);
         b.Some? && b.value.out == r.value
    ensures var b := Decoded(input, parseHeader);
            && b.Some? && |b.value.rest| >= 32
            && (|b.value.out| <= initialSize || (expandable && |b.value.out| <= 0x7FFF_FFFF))
            ==> r == Some(b.value.out) && pad == 0
  {
    hide InflateBlocks, NatBits, BytesBits, ZeroBytes;
    var a := new ZBuf(input, initialSize, expandable);
    pad := 0;
    assert input[0..] == input;
    if parseHeader {
      var ok := ParseZlibHeader(a);
      if !ok {
        return None, 0;
      }
    }
    NoBits(a);
    NoZeros(a.Rest());
    var ok;
    ok, pad := ParseBlocks(a);
    r := if ok then Some(a.zout) else None;
  }
}
