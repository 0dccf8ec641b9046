/** Every block uses up at least one set bit of the stream, so zero bits lent past the end of the
    input cannot keep the block loop of stbi__parse_zlib going. */
module InflateProgress {
  import opened Bits
  import opened CanonicalCode
  import opened Inflate

  ghost function Ones(b: seq<bool>): nat {
    if b == [] then 0 else (if b[0] then 1 else 0) + Ones(b[1..])
  }

  lemma {:induction false} OnesConcat(a: seq<bool>, b: seq<bool>)
    ensures Ones(a + b) == Ones(a) + Ones(b)
  {
    if a == [] {
      assert a + b == b;
    } else {
      assert (a + b)[1..] == a[1..] + b;
      OnesConcat(a[1..], b);
    }
  }

  lemma OnesSplit(b: seq<bool>, n: nat)
    requires n <= |b|
    ensures Ones(b) == Ones(b[..n]) + Ones(b[n..])
  {
    assert b == b[..n] + b[n..];
    OnesConcat(b[..n], b[n..]);
  }

  lemma {:induction false} OnesZeros(n: nat)
    ensures Ones(Zeros(n)) == 0
  {
    if n != 0 {
      assert Zeros(n)[1..] == Zeros(n - 1);
      OnesZeros(n - 1);
    }
  }

  lemma {:induction false} NoOnesNat(b: seq<bool>)
    requires Ones(b) == 0
    ensures BitsNat(b) == 0
  {
    if b != [] {
      NoOnesNat(b[1..]);
    }
  }

  lemma TakeOnes(bits: seq<bool>, n: nat)
    requires Take(bits, n).Some?
    ensures Ones(Take(bits, n).value.rest) <= Ones(bits)
  {
    OnesSplit(bits, n);
  }

  lemma SymbolOnes(lens: seq<nat>, bits: seq<bool>)
    requires TakeSymbol(lens, bits).Some?
    ensures Ones(TakeSymbol(lens, bits).value.rest) <= Ones(bits)
  {
    OnesSplit(bits, lens[Symbol(lens, bits).value]);
  }

  lemma MatchOnes(distLens: seq<nat>, sym: nat, bits: seq<bool>)
    requires 257 <= sym < 286 && TakeMatch(distLens, sym, bits).Some?
    ensures Ones(TakeMatch(distLens, sym, bits).value.rest) <= Ones(bits)
  {
    hide Take, TakeSymbol, Ones;
    TakeOnes(bits, LENGTH_EXTRA[sym - 257]);
    var len := TakeLength(sym, bits).value;
    SymbolOnes(distLens, len.rest);
    var d := TakeSymbol(distLens, len.rest).value;
    TakeOnes(d.rest, DIST_EXTRA[d.value]);
  }

  lemma StepOnes(lens: seq<nat>, distLens: seq<nat>, bits: seq<bool>, out: seq<byte>)
    requires BlockStep(lens, distLens, bits, out).Some?
    ensures Ones(BlockStep(lens, distLens, bits, out).value.rest) <= Ones(bits)
  {
    hide TakeMatch, TakeSymbol, Ones;
    SymbolOnes(lens, bits);
    var t := TakeSymbol(lens, bits).value;
    if t.value >= 257 {
      MatchOnes(distLens, t.value, t.rest);
    }
  }

  lemma {:induction false} BlockOnes(lens: seq<nat>, distLens: seq<nat>, bits: seq<bool>, out: seq<byte>)
    requires InflateBlock(lens, distLens, bits, out).Some?
    ensures Ones(InflateBlock(lens, distLens, bits, out).value.rest) <= Ones(bits)
    decreases |bits|
  {
    hide BlockStep, Ones;
    StepOnes(lens, distLens, bits, out);
    var s := BlockStep(lens, distLens, bits, out).value;
    if s.Emit? {
      BlockOnes(lens, distLens, s.rest, s.out);
    }
  }

  // The header of a stored block holds a number and its complement, so it is not all zero.
  lemma StoredOnes(bits: seq<bool>, out: seq<byte>)
    requires StoredBlock(bits, out).Some?
    ensures Ones(StoredBlock(bits, out).value.rest) < Ones(bits)
  {
    hide Ones, BitsBytes, BitsNat;
    var b := bits[|bits| % 8..];
    OnesSplit(bits, |bits| % 8);
    OnesSplit(b, 32);
    OnesSplit(b[..32], 16);
    var len := BitsNat(b[..16]);
    OnesSplit(b[32..], 8 * len);
    assert b[..32][..16] == b[..16] && b[..32][16..] == b[16..32];
    assert b[32..][8 * len..] == b[32 + 8 * len..];
    if Ones(b[..32]) == 0 {
      NoOnesNat(b[..16]);
      NoOnesNat(b[16..32]);
    }
  }

  lemma {:induction false} SizesOnes(bits: seq<bool>, i: nat, hclen: nat, sizes: seq<nat>)
    requires i <= hclen <= 19 && |sizes| == 19
    requires forall k :: 0 <= k < 19 ==> sizes[k] <= 7
    requires CodeLengthSizes(bits, i, hclen, sizes).Some?
    ensures Ones(CodeLengthSizes(bits, i, hclen, sizes).value.rest) <= Ones(bits)
    decreases hclen - i
  {
    hide Take, Ones;
    if i < hclen {
      TakeOnes(bits, 3);
      var t := Take(bits, 3).value;
      TakeThree(t.value, bits);
      SizesOnes(t.rest, i + 1, hclen, sizes[DEZIGZAG[i] := t.value]);
    }
  }

  lemma CountsOnes(bits: seq<bool>)
    requires TakeCounts(bits).Some?
    ensures Ones(TakeCounts(bits).value.rest) <= Ones(bits)
  {
    hide Take, Ones;
    TakeOnes(bits, 5);
    var l := Take(bits, 5).value;
    TakeOnes(l.rest, 5);
    TakeOnes(Take(l.rest, 5).value.rest, 4);
  }

  lemma LengthStepOnes(cl: seq<nat>, bits: seq<bool>, acc: seq<nat>, total: nat)
    requires |cl| == 19 && |acc| < total
    requires forall k :: 0 <= k < |acc| ==> acc[k] <= MAX_LEN
    requires LengthStep(cl, bits, acc, total).Some?
    ensures Ones(LengthStep(cl, bits, acc, total).value.rest) <= Ones(bits)
  {
    hide Take, TakeSymbol, Ones;
    SymbolOnes(cl, bits);
    var c := TakeSymbol(cl, bits).value;
    if c.value >= 16 {
      TakeOnes(c.rest, if c.value == 16 then 2 else if c.value == 17 then 3 else 7);
    }
  }

  lemma {:induction false} LengthsOnes(cl: seq<nat>, bits: seq<bool>, acc: seq<nat>, total: nat)
    requires |cl| == 19 && |acc| <= total
    requires forall k :: 0 <= k < |acc| ==> acc[k] <= MAX_LEN
    requires Lengths(cl, bits, acc, total).Some?
    ensures Ones(Lengths(cl, bits, acc, total).value.rest) <= Ones(bits)
    decreases total - |acc|
  {
    hide LengthStep, Ones;
    if |acc| < total {
      LengthStepOnes(cl, bits, acc, total);
      var t := LengthStep(cl, bits, acc, total).value;
      LengthsOnes(cl, t.rest, t.value, total);
    }
  }

  lemma DynamicOnes(bits: seq<bool>)
    requires DynamicLengths(bits).Some?
    ensures Ones(DynamicLengths(bits).value.rest) <= Ones(bits)
  {
    hide TakeCounts, CodeLengthSizes, Lengths, Ones, Accepts;
    CountsOnes(bits);
    var h := TakeCounts(bits).value;
    SizesOnes(h.rest, 0, h.value.hclen, NoSizes());
    var s := CodeLengthSizes(h.rest, 0, h.value.hclen, NoSizes()).value;
    LengthsOnes(s.value, s.rest, [], h.value.hlit + h.value.hdist);
  }

  // A block header and its block use up a set bit: the kind, or the stored length, is not zero.
  lemma BlockUsesOnes(head: seq<bool>, z: seq<bool>, out: seq<byte>)
    requires |head| >= 3 && Ones(z) == 0
    requires OneBlock(BitsNat(head[1..3]), head[3..] + z, out).Some?
    ensures Ones(OneBlock(BitsNat(head[1..3]), head[3..] + z, out).value.rest) < Ones(head)
  {
    hide StoredBlock, InflateBlock, DynamicLengths, Ones, BitsNat;
    var kind, bits := BitsNat(head[1..3]), head[3..] + z;
    OnesSplit(head, 1);
    OnesSplit(head[1..], 2);
    assert head[1..][..2] == head[1..3] && head[1..][2..] == head[3..];
    OnesConcat(head[3..], z);
    if kind == 0 {
      StoredOnes(bits, out);
    } else {
      if Ones(head[1..3]) == 0 {
        NoOnesNat(head[1..3]);
      }
      if kind == 1 {
        BlockOnes(FixedLens(), FixedDistLens(), bits, out);
      } else {
        DynamicOnes(bits);
        var d := DynamicLengths(bits).value;
        BlockOnes(d.value.lens, d.value.distLens, d.rest, out);
      }
    }
  }
}
