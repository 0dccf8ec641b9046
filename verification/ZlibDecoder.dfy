/** stbi__parse_huffman_block, stbi__parse_uncompressed_block, stbi__compute_huffman_codes and
    stbi__parse_zlib, proved against Inflate. Each method states two things: what it returns on
    success is what the stream (with any lent zero bytes) means, and a stream that means something
    and leaves four more bytes, as the check value does, is decoded without lending any. */
module ZlibDecoder {
  import opened Bits
  import opened CanonicalCode
  import opened HuffmanTable
  import opened Inflate
  import opened ZBufReader

  datatype Outcome = Failed | Emitted | Ended

  lemma StepOfLiteral(lens: seq<nat>, distLens: seq<nat>, x: seq<bool>, out: seq<byte>, sym: nat, rest: seq<bool>)
    requires TakeSymbol(lens, x) == Some(Taken(sym, rest)) && sym < 286 && sym <= 256
    ensures BlockStep(lens, distLens, x, out)
            == Some(if sym == 256 then EndOfBlock(rest) else Emit(out + [sym], rest))
  {
  }

  lemma StepOfMatch(lens: seq<nat>, distLens: seq<nat>, x: seq<bool>, out: seq<byte>, sym: nat,
                    middle: seq<bool>, z: seq<bool>, len: nat, dist: nat, rest: seq<bool>)
    requires Usable(lens) && TakeSymbol(lens, x) == Some(Taken(sym, middle)) && 257 <= sym < 286
    requires TakeMatch(distLens, sym, middle + z) == Some(Taken(BackRef(len, dist), rest))
    requires 1 <= dist <= |out|
    ensures BlockStep(lens, distLens, x + z, out) == Some(Emit(CopyBack(out, dist, len), rest))
  {
    SymbolStable(lens, x, z);
  }

  // What a step that leaves the input alone after the symbol can be.
  lemma StepNeeds(lens: seq<nat>, distLens: seq<nat>, x: seq<bool>, out: seq<byte>)
    requires BlockStep(lens, distLens, x, out).Some?
    ensures var s := BlockStep(lens, distLens, x, out).value;
            var t := TakeSymbol(lens, x);
            && t.Some? && t.value.value < 286 && |s.rest| <= |t.value.rest| < |x|
            && (t.value.value >= 257 ==>
                  var m := TakeMatch(distLens, t.value.value, t.value.rest);
                  && m.Some? && m.value.value.dist <= |out| && s.Emit? && s.rest == m.value.rest
                  && |s.out| == |out| + m.value.value.len)
  {
  }

  // One turn of the loop in stbi__parse_huffman_block.
  method DecodeStep(a: ZBuf, ghost lens: seq<nat>, ghost distLens: seq<nat>) returns (turn: Outcome, ghost pad: nat)
    requires a.Valid() && a.zLength.Represents(lens) && a.zDistance.Represents(distLens)
    modifies a
    ensures a.Valid() && a.zoutLimit >= old(a.zoutLimit)
    ensures turn.Emitted? ==> |a.zout| > |old(a.zout)|
    ensures turn.Emitted? ==>
      BlockStep(lens, distLens, old(a.Rest()) + ZeroBytes(pad), old(a.zout)) == Some(Emit(a.zout, a.Rest()))
    ensures turn.Ended? ==>
      && BlockStep(lens, distLens, old(a.Rest()) + ZeroBytes(pad), old(a.zout)) == Some(EndOfBlock(a.Rest()))
      && a.zout == old(a.zout)
    ensures var s := BlockStep(lens, distLens, old(a.Rest()), old(a.zout));
            s.Some? && |s.value.rest| >= 32 && (s.value.Emit? ==> old(a.CanHold(|s.value.out|)))
            ==> !turn.Failed? && pad == 0 && a.hitZeofOnce == old(a.hitZeofOnce)
  {
    hide TakeSymbol, TakeMatch, NatBits, BytesBits, ZeroBytes, FastEntry, Accepts, CopyBack, BlockStep;
    ghost var start, out := a.Rest(), a.zout;
    NoZeros(start);
    if BlockStep(lens, distLens, start, out).Some? {
      StepNeeds(lens, distLens, start, out);
    }
    turn := Failed;
    var z;
    ghost var first, second, ended;
    z, first, ended := a.HuffmanDecode(a.zLength, lens);
    pad := first;
    if z < 0 || z >= 286 {
      return;
    }
    ghost var middle := a.Rest();
    NoZeros(middle);
    if z <= 256 {
      StepOfLiteral(lens, distLens, start + ZeroBytes(first), out, z, middle);
      if z == 256 {
        turn := Ended;
      } else {
        var ok := a.EmitByte(z);
        if ok {
          turn := Emitted;
        }
      }
      return;
    }
    var ok, len, dist;
    ok, len, dist, second := a.DecodeMatch(z, distLens);
    if !ok || |a.zout| < dist {
      return;
    }
    pad := first + second;
    ok := a.EmitCopy(dist, len);
    if ok {
      turn := Emitted;
      ZerosAdd(start, first, second);
      StepOfMatch(lens, distLens, start + ZeroBytes(first), out, z, middle, ZeroBytes(second), len, dist, a.Rest());
    }
  }

  // Decoding the input with the lent bytes comes to the same as decoding on from here.
  ghost predicate Follows(lens: seq<nat>, distLens: seq<nat>, start: seq<bool>, out0: seq<byte>,
                          pad: nat, rest: seq<bool>, out: seq<byte>)
  {
    forall n: nat ::
      InflateBlock(lens, distLens, start + ZeroBytes(pad + n), out0)
      == InflateBlock(lens, distLens, rest + ZeroBytes(n), out)
  }

  lemma FollowsStep(lens: seq<nat>, distLens: seq<nat>, start: seq<bool>, out0: seq<byte>, pad: nat,
                    rest: seq<bool>, out: seq<byte>, more: nat, rest': seq<bool>, out': seq<byte>)
    requires Usable(lens) && Usable(distLens)
    requires Follows(lens, distLens, start, out0, pad, rest, out)
    requires BlockStep(lens, distLens, rest + ZeroBytes(more), out) == Some(Emit(out', rest'))
    ensures Follows(lens, distLens, start, out0, pad + more, rest', out')
  {
    hide BlockStep, ZeroBytes;
    forall n: nat
      ensures InflateBlock(lens, distLens, start + ZeroBytes(pad + more + n), out0)
              == InflateBlock(lens, distLens, rest' + ZeroBytes(n), out')
    {
      assert pad + more + n == pad + (more + n);
      ZerosAdd(rest, more, n);
      StepStable(lens, distLens, rest + ZeroBytes(more), out, ZeroBytes(n));
    }
  }

  lemma FollowsEnd(lens: seq<nat>, distLens: seq<nat>, start: seq<bool>, out0: seq<byte>, pad: nat,
                   rest: seq<bool>, out: seq<byte>, more: nat, rest': seq<bool>)
    requires Follows(lens, distLens, start, out0, pad, rest, out)
    requires BlockStep(lens, distLens, rest + ZeroBytes(more), out) == Some(EndOfBlock(rest'))
    ensures InflateBlock(lens, distLens, start + ZeroBytes(pad + more), out0) == Some(Progress(out, rest'))
  {
  }

  lemma FollowsPlain(lens: seq<nat>, distLens: seq<nat>, start: seq<bool>, out0: seq<byte>,
                     rest: seq<bool>, out: seq<byte>)
    requires Follows(lens, distLens, start, out0, 0, rest, out)
    ensures InflateBlock(lens, distLens, start, out0) == InflateBlock(lens, distLens, rest, out)
  {
    NoZeros(start);
    NoZeros(rest);
    assert ZeroBytes(0 + 0) == ZeroBytes(0);
  }

  lemma InflateUnfold(lens: seq<nat>, distLens: seq<nat>, bits: seq<bool>, out: seq<byte>)
    requires InflateBlock(lens, distLens, bits, out).Some?
    ensures var b, s := InflateBlock(lens, distLens, bits, out).value, BlockStep(lens, distLens, bits, out);
            && s.Some? && |s.value.rest| >= |b.rest|
            && (s.value.Emit? ==> |s.value.out| <= |b.out|)
            && (s.value.EndOfBlock? ==> s.value.rest == b.rest)
  {
  }

  // stbi__parse_huffman_block. It refuses a block whose end ate into the sixteen lent bits.
  method ParseHuffmanBlock(a: ZBuf, ghost lens: seq<nat>, ghost distLens: seq<nat>) returns (ok: bool, ghost pad: nat)
    requires a.Valid() && a.zLength.Represents(lens) && a.zDistance.Represents(distLens)
    modifies a
    ensures a.Valid() && a.zoutLimit >= old(a.zoutLimit)
    ensures ok ==> InflateBlock(lens, distLens, old(a.Rest()) + ZeroBytes(pad), old(a.zout))
                   == Some(Progress(a.zout, a.Rest()))
    ensures var b := InflateBlock(lens, distLens, old(a.Rest()), old(a.zout));
            b.Some? && |b.value.rest| >= 32 && old(a.CanHold(|b.value.out|)) && !old(a.hitZeofOnce)
            ==> ok && pad == 0 && !a.hitZeofOnce
  {
    hide InflateBlock, BlockStep, NatBits, BytesBits, ZeroBytes, FastEntry, Accepts;
    ghost var start, out := a.Rest(), a.zout;
    ghost var whole := InflateBlock(lens, distLens, start, out);
    ghost var plain := whole.Some? && |whole.value.rest| >= 32 && a.CanHold(|whole.value.out|) && !a.hitZeofOnce;
    ghost var room := a.zoutLimit;
    pad := 0;
    while true
      invariant a.Valid() && a.zoutLimit >= room
      invariant a.zLength.Represents(lens) && a.zDistance.Represents(distLens)
      invariant Follows(lens, distLens, start, out, pad, a.Rest(), a.zout)
      invariant plain ==> pad == 0 && !a.hitZeofOnce
      decreases 0xFFFF_FFFF - |a.zout|
    {
      ghost var rest, zout := a.Rest(), a.zout;
      if plain {
        FollowsPlain(lens, distLens, start, out, rest, zout);
        InflateUnfold(lens, distLens, rest, zout);
      }
      ghost var more;
      var turn;
      turn, more := DecodeStep(a, lens, distLens);
      match turn {
        case Failed =>
          return false, pad;
        case Ended =>
          FollowsEnd(lens, distLens, start, out, pad, rest, zout, more, a.Rest());
          pad := pad + more;
          if a.hitZeofOnce && a.numBits < 16 {
            return false, pad;
          }
          return true, pad;
        case Emitted =>
          FollowsStep(lens, distLens, start, out, pad, rest, zout, more, a.Rest(), a.zout);
          pad := pad + more;
      }
    }
  }
}
