/** stbi__compute_huffman_codes: the two codes that a dynamic block sends ahead of its data. */
module DynamicCodes {
  import opened Bits
  import opened CanonicalCode
  import opened HuffmanTable
  import opened Inflate
  import opened ZBufReader

  ghost predicate SmallLens(s: seq<nat>, bound: nat) {
    forall k :: 0 <= k < |s| ==> s[k] <= bound
  }

  ghost predicate SizesFollow(start: seq<bool>, hclen: nat, pad: nat, rest: seq<bool>, i: nat, sizes: seq<nat>)
    requires i <= hclen <= 19 && |sizes| == 19 && SmallLens(sizes, 7)
  {
    forall n: nat ::
      CodeLengthSizes(start + ZeroBytes(pad + n), 0, hclen, NoSizes())
      == CodeLengthSizes(rest + ZeroBytes(n), i, hclen, sizes)
  }

  lemma SizesStep(start: seq<bool>, hclen: nat, pad: nat, rest: seq<bool>, i: nat, sizes: seq<nat>,
                  more: nat, k: nat, rest': seq<bool>)
    requires i < hclen <= 19 && |sizes| == 19 && SmallLens(sizes, 7)
    requires SizesFollow(start, hclen, pad, rest, i, sizes)
    requires Take(rest + ZeroBytes(more), 3) == Some(Taken(k, rest'))
    ensures k <= 7 && SmallLens(sizes[DEZIGZAG[i] := k], 7)
    ensures SizesFollow(start, hclen, pad + more, rest', i + 1, sizes[DEZIGZAG[i] := k])
  {
    hide ZeroBytes;
    TakeThree(k, rest + ZeroBytes(more));
    var sizes' := sizes[DEZIGZAG[i] := k];
    forall n: nat
      ensures CodeLengthSizes(start + ZeroBytes(pad + more + n), 0, hclen, NoSizes())
              == CodeLengthSizes(rest' + ZeroBytes(n), i + 1, hclen, sizes')
    {
      assert pad + more + n == pad + (more + n);
      ZerosAdd(rest, more, n);
      TakeStable(rest + ZeroBytes(more), 3, ZeroBytes(n));
    }
  }

  lemma SizesNeed(bits: seq<bool>, i: nat, hclen: nat, sizes: seq<nat>)
    requires i < hclen <= 19 && |sizes| == 19 && SmallLens(sizes, 7)
    requires CodeLengthSizes(bits, i, hclen, sizes).Some?
    ensures |bits| >= |CodeLengthSizes(bits, i, hclen, sizes).value.rest|
  {
  }

  method ReadCodeLengthSizes(a: ZBuf, hclen: nat) returns (sizes: seq<nat>, ghost pad: nat)
    requires a.Valid() && hclen <= 19
    modifies a`pos, a`numBits, a`codeBuffer
    ensures a.Valid() && |sizes| == 19 && SmallLens(sizes, 7)
    ensures CodeLengthSizes(old(a.Rest()) + ZeroBytes(pad), 0, hclen, NoSizes()) == Some(Taken(sizes, a.Rest()))
    ensures var s := CodeLengthSizes(old(a.Rest()), 0, hclen, NoSizes());
            s.Some? && |s.value.rest| >= 32 ==> pad == 0
  {
    hide NatBits, BytesBits, ZeroBytes, Take, CodeLengthSizes;
    ghost var start := a.Rest();
    ghost var whole := CodeLengthSizes(start, 0, hclen, NoSizes());
    ghost var plain := whole.Some? && |whole.value.rest| >= 32;
    NoZeros(start);
    sizes, pad := NoSizes(), 0;
    var i := 0;
    while i < hclen
      invariant a.Valid() && 0 <= i <= hclen && |sizes| == 19 && SmallLens(sizes, 7)
      invariant SizesFollow(start, hclen, pad, a.Rest(), i, sizes)
      invariant plain ==> pad == 0
    {
      ghost var rest := a.Rest();
      if plain {
        SizesPlain(start, hclen, rest, i, sizes);
        SizesNeed(rest, i, hclen, sizes);
      }
      var k;
      ghost var more;
      k, more := a.Receive(3);
      SizesStep(start, hclen, pad, rest, i, sizes, more, k, a.Rest());
      sizes := sizes[DEZIGZAG[i] := k];
      pad := pad + more;
      i := i + 1;
    }
    SizesDone(start, hclen, pad, a.Rest(), sizes);
  }

  lemma SizesPlain(start: seq<bool>, hclen: nat, rest: seq<bool>, i: nat, sizes: seq<nat>)
    requires i <= hclen <= 19 && |sizes| == 19 && SmallLens(sizes, 7)
    requires SizesFollow(start, hclen, 0, rest, i, sizes)
    ensures CodeLengthSizes(start, 0, hclen, NoSizes()) == CodeLengthSizes(rest, i, hclen, sizes)
  {
    NoZeros(start);
    NoZeros(rest);
    assert ZeroBytes(0 + 0) == ZeroBytes(0);
  }

  lemma SizesDone(start: seq<bool>, hclen: nat, pad: nat, rest: seq<bool>, sizes: seq<nat>)
    requires hclen <= 19 && |sizes| == 19 && SmallLens(sizes, 7)
    requires SizesFollow(start, hclen, pad, rest, hclen, sizes)
    ensures CodeLengthSizes(start + ZeroBytes(pad), 0, hclen, NoSizes()) == Some(Taken(sizes, rest))
  {
    NoZeros(rest);
    assert ZeroBytes(pad + 0) == ZeroBytes(pad);
  }

  // ---- the run-length coded list ----

  ghost predicate LengthsFollow(cl: seq<nat>, total: nat, start: seq<bool>, pad: nat, rest: seq<bool>, acc: seq<nat>)
    requires |cl| == 19 && |acc| <= total && SmallLens(acc, MAX_LEN)
  {
    forall n: nat ::
      Lengths(cl, start + ZeroBytes(pad + n), [], total) == Lengths(cl, rest + ZeroBytes(n), acc, total)
  }

  lemma LengthsNext(cl: seq<nat>, total: nat, start: seq<bool>, pad: nat, rest: seq<bool>, acc: seq<nat>,
                    more: nat, acc': seq<nat>, rest': seq<bool>)
    requires Usable(cl) && |cl| == 19 && |acc| < total && SmallLens(acc, MAX_LEN)
    requires LengthsFollow(cl, total, start, pad, rest, acc)
    requires LengthStep(cl, rest + ZeroBytes(more), acc, total) == Some(Taken(acc', rest'))
    ensures |acc'| <= total && SmallLens(acc', MAX_LEN)
    ensures LengthsFollow(cl, total, start, pad + more, rest', acc')
  {
    hide ZeroBytes, LengthStep;
    forall n: nat
      ensures Lengths(cl, start + ZeroBytes(pad + more + n), [], total)
              == Lengths(cl, rest' + ZeroBytes(n), acc', total)
    {
      assert pad + more + n == pad + (more + n);
      ZerosAdd(rest, more, n);
      LengthStepStable(cl, rest + ZeroBytes(more), acc, total, ZeroBytes(n));
    }
  }

  lemma LengthsPlain(cl: seq<nat>, total: nat, start: seq<bool>, rest: seq<bool>, acc: seq<nat>)
    requires |cl| == 19 && |acc| <= total && SmallLens(acc, MAX_LEN)
    requires LengthsFollow(cl, total, start, 0, rest, acc)
    ensures Lengths(cl, start, [], total) == Lengths(cl, rest, acc, total)
  {
    NoZeros(start);
    NoZeros(rest);
    assert ZeroBytes(0 + 0) == ZeroBytes(0);
  }

  lemma LengthsDone(cl: seq<nat>, total: nat, start: seq<bool>, pad: nat, rest: seq<bool>, acc: seq<nat>)
    requires |cl| == 19 && |acc| == total && SmallLens(acc, MAX_LEN)
    requires LengthsFollow(cl, total, start, pad, rest, acc)
    ensures Lengths(cl, start + ZeroBytes(pad), [], total) == Some(Taken(acc, rest))
  {
    NoZeros(rest);
    assert ZeroBytes(pad + 0) == ZeroBytes(pad);
  }

  lemma LengthsUnfold(cl: seq<nat>, bits: seq<bool>, acc: seq<nat>, total: nat)
    requires |cl| == 19 && |acc| < total && SmallLens(acc, MAX_LEN)
    requires Lengths(cl, bits, acc, total).Some?
    ensures LengthStep(cl, bits, acc, total).Some?
    ensures |LengthStep(cl, bits, acc, total).value.rest| >= |Lengths(cl, bits, acc, total).value.rest|
  {
  }

  // What follows a run symbol: its repeat count, read from the given number of extra bits.
  lemma RunThen(cl: seq<nat>, x: seq<bool>, acc: seq<nat>, total: nat, c: nat, middle: seq<bool>, z: seq<bool>,
                k: nat, rest: seq<bool>)
    requires Usable(cl) && |cl| == 19 && |acc| < total && SmallLens(acc, MAX_LEN)
    requires TakeSymbol(cl, x) == Some(Taken(c, middle)) && 16 <= c < 19
    requires Take(middle + z, if c == 16 then 2 else if c == 17 then 3 else 7) == Some(Taken(k, rest))
    ensures var n := k + (if c == 18 then 11 else 3);
            LengthStep(cl, x + z, acc, total) ==
              if (c == 16 && acc == []) || total - |acc| < n then None
              else Some(Taken(acc + Repeat(if c == 16 then acc[|acc| - 1] else 0, n), rest))
  {
    hide Take;
    SymbolOfStep(cl, x);
    SymbolStable(cl, x, z);
  }

  lemma LiteralLength(cl: seq<nat>, x: seq<bool>, acc: seq<nat>, total: nat, c: nat, rest: seq<bool>)
    requires |cl| == 19 && |acc| < total && SmallLens(acc, MAX_LEN)
    requires TakeSymbol(cl, x) == Some(Taken(c, rest)) && c < 16
    ensures LengthStep(cl, x, acc, total) == Some(Taken(acc + [c], rest))
  {
  }

  lemma StepNeedsSymbol(cl: seq<nat>, x: seq<bool>, acc: seq<nat>, total: nat)
    requires |cl| == 19 && |acc| < total && SmallLens(acc, MAX_LEN)
    requires LengthStep(cl, x, acc, total).Some?
    ensures TakeSymbol(cl, x).Some?
    ensures |LengthStep(cl, x, acc, total).value.rest| <= |TakeSymbol(cl, x).value.rest| < |x|
  {
  }

  method DecodeLengthCode(a: ZBuf, z: ZHuffman, ghost cl: seq<nat>, acc: seq<nat>, total: nat)
    returns (ok: bool, acc': seq<nat>, ghost pad: nat)
    requires a.Valid() && z.Represents(cl) && |cl| == 19 && |acc| < total && SmallLens(acc, MAX_LEN)
    modifies a`pos, a`numBits, a`codeBuffer, a`hitZeofOnce
    ensures a.Valid()
    ensures ok ==> LengthStep(cl, old(a.Rest()) + ZeroBytes(pad), acc, total) == Some(Taken(acc', a.Rest()))
    ensures var s := LengthStep(cl, old(a.Rest()), acc, total);
            s.Some? && |s.value.rest| >= 32 ==> ok && pad == 0 && a.hitZeofOnce == old(a.hitZeofOnce)
  {
    hide TakeSymbol, Take, LengthStep, NatBits, BytesBits, ZeroBytes, FastEntry, Accepts;
    ghost var start := a.Rest();
    NoZeros(start);
    if LengthStep(cl, start, acc, total).Some? {
      StepNeedsSymbol(cl, start, acc, total);
    }
    acc' := acc;
    var c;
    ghost var first, second, ended;
    c, first, ended := a.HuffmanDecode(z, cl);
    pad := first;
    if c < 0 || c >= 19 {
      return false, acc', pad;
    }
    ghost var middle := a.Rest();
    if c < 16 {
      LiteralLength(cl, start + ZeroBytes(first), acc, total, c, middle);
      return true, acc + [c], pad;
    }
    var k;
    k, second := a.Receive(if c == 16 then 2 else if c == 17 then 3 else 7);
    pad := first + second;
    ZerosAdd(start, first, second);
    RunThen(cl, start + ZeroBytes(first), acc, total, c, middle, ZeroBytes(second), k, a.Rest());
    if c == 16 && |acc| == 0 {
      return false, acc', pad;
    }
    var n := k + (if c == 18 then 11 else 3);
    if total - |acc| < n {
      return false, acc', pad;
    }
    ok, acc' := true, acc + Repeat(if c == 16 then acc[|acc| - 1] else 0, n);
  }

  method ReadLengths(a: ZBuf, z: ZHuffman, ghost cl: seq<nat>, total: nat)
    returns (ok: bool, acc: seq<nat>, ghost pad: nat)
    requires a.Valid() && z.Represents(cl) && |cl| == 19
    modifies a`pos, a`numBits, a`codeBuffer, a`hitZeofOnce
    ensures a.Valid()
    ensures ok ==> |acc| == total && SmallLens(acc, MAX_LEN)
    ensures ok ==> Lengths(cl, old(a.Rest()) + ZeroBytes(pad), [], total) == Some(Taken(acc, a.Rest()))
    ensures var l := Lengths(cl, old(a.Rest()), [], total);
            l.Some? && |l.value.rest| >= 32 ==> ok && pad == 0 && a.hitZeofOnce == old(a.hitZeofOnce)
  {
    hide Lengths, LengthStep, NatBits, BytesBits, ZeroBytes, FastEntry, Accepts;
    ghost var start := a.Rest();
    ghost var whole := Lengths(cl, start, [], total);
    ghost var plain := whole.Some? && |whole.value.rest| >= 32;
    acc, pad := [], 0;
    while |acc| < total
      invariant a.Valid() && z.Represents(cl) && |acc| <= total && SmallLens(acc, MAX_LEN)
      invariant LengthsFollow(cl, total, start, pad, a.Rest(), acc)
      invariant plain ==> pad == 0 && a.hitZeofOnce == old(a.hitZeofOnce)
      decreases total - |acc|
    {
      ghost var rest := a.Rest();
      if plain {
        LengthsPlain(cl, total, start, rest, acc);
        LengthsUnfold(cl, rest, acc, total);
      }
      var fine, acc';
      ghost var more;
      fine, acc', more := DecodeLengthCode(a, z, cl, acc, total);
      if !fine {
        return false, acc, pad;
      }
      LengthsNext(cl, total, start, pad, rest, acc, more, acc', a.Rest());
      acc := acc';
      pad := pad + more;
    }
    LengthsDone(cl, total, start, pad, a.Rest(), acc);
    ok := true;
  }

  // ---- the whole header ----

  lemma CountsThen(bits: seq<bool>, l: Taken<nat>, z1: seq<bool>, d: Taken<nat>, z2: seq<bool>, c: Taken<nat>)
    requires Take(bits, 5) == Some(l) && Take(l.rest + z1, 5) == Some(d) && Take(d.rest + z2, 4) == Some(c)
    ensures TakeCounts((bits + z1) + z2) == Some(Taken(Counts(l.value + 257, d.value + 1, c.value + 4), c.rest))
  {
    hide Take;
    TakeStable(bits, 5, z1);
    TakeStable(bits + z1, 5, z2);
    TakeStable(l.rest + z1, 5, z2);
    TakeBound(bits, 5);
    TakeBound(l.rest + z1, 5);
  }

  lemma TakeBound(bits: seq<bool>, n: nat)
    ensures Take(bits, n).Some? ==> n <= |bits|
  {
  }

  lemma CountsNeed(bits: seq<bool>)
    requires TakeCounts(bits).Some?
    ensures |bits| >= |TakeCounts(bits).value.rest| + 14
  {
  }

  method ReadCounts(a: ZBuf) returns (h: Counts, ghost pad: nat)
    requires a.Valid()
    modifies a`pos, a`numBits, a`codeBuffer
    ensures a.Valid()
    ensures TakeCounts(old(a.Rest()) + ZeroBytes(pad)) == Some(Taken(h, a.Rest()))
    ensures |old(a.Rest())| >= 46 ==> pad == 0
  {
    hide NatBits, BytesBits, ZeroBytes, Take, TakeCounts;
    ghost var start := a.Rest();
    ghost var p0, p1, p2;
    var hlit, hdist, hclen;
    hlit, p0 := ReadField(a, 5);
    ghost var r1 := a.Rest();
    hdist, p1 := ReadField(a, 5);
    ghost var r2 := a.Rest();
    hclen, p2 := ReadField(a, 4);
    CountsThen(start + ZeroBytes(p0), Taken(hlit, r1), ZeroBytes(p1), Taken(hdist, r2), ZeroBytes(p2),
               Taken(hclen, a.Rest()));
    ZerosAdd(start, p0, p1);
    ZerosAdd(start, p0 + p1, p2);
    h, pad := Counts(hlit + 257, hdist + 1, hclen + 4), p0 + p1 + p2;
  }

  method ReadField(a: ZBuf, n: nat) returns (k: nat, ghost pad: nat)
    requires a.Valid() && n <= 16
    modifies a`pos, a`numBits, a`codeBuffer
    ensures a.Valid() && Take(old(a.Rest()) + ZeroBytes(pad), n) == Some(Taken(k, a.Rest()))
    ensures |old(a.Rest())| >= 32 ==> pad == 0 && |a.Rest()| == |old(a.Rest())| - n
  {
    hide NatBits, BytesBits, ZeroBytes, Take;
    ghost var start := a.Rest();
    NoZeros(start);
    k, pad := a.Receive(n);
    TakeLeaves(start + ZeroBytes(pad), n);
  }

  lemma TakeLeaves(bits: seq<bool>, n: nat)
    ensures Take(bits, n).Some? ==> |Take(bits, n).value.rest| == |bits| - n
  {
  }

  lemma HeaderThen(bits: seq<bool>, h: Counts, r: seq<bool>, z: seq<bool>, sizes: seq<nat>, rest: seq<bool>)
    requires TakeCounts(bits) == Some(Taken(h, r)) && h.hclen <= 19
    requires CodeLengthSizes(r + z, 0, h.hclen, NoSizes()) == Some(Taken(sizes, rest))
    ensures TakeHeader(bits + z) == Some(Taken(CodeHeader(h, sizes), rest))
  {
    hide TakeCounts, CodeLengthSizes;
    CountsStable(bits, z);
  }

  lemma HeaderNeeds(bits: seq<bool>)
    requires TakeHeader(bits).Some?
    ensures TakeCounts(bits).Some?
    ensures var h := TakeCounts(bits).value;
            var s := CodeLengthSizes(h.rest, 0, h.value.hclen, NoSizes());
            s.Some? && s.value.rest == TakeHeader(bits).value.rest && |s.value.rest| + 14 <= |bits|
  {
    hide TakeCounts, CodeLengthSizes;
    CountsNeed(bits);
  }

  method ReadHeader(a: ZBuf) returns (h: Counts, sizes: seq<nat>, ghost pad: nat)
    requires a.Valid()
    modifies a`pos, a`numBits, a`codeBuffer
    ensures a.Valid() && |sizes| == 19 && SmallLens(sizes, 7)
    ensures TakeHeader(old(a.Rest()) + ZeroBytes(pad)) == Some(Taken(CodeHeader(h, sizes), a.Rest()))
    ensures var t := TakeHeader(old(a.Rest()));
            t.Some? && |t.value.rest| >= 32 ==> pad == 0
  {
    hide TakeHeader, TakeCounts, CodeLengthSizes, NatBits, BytesBits, ZeroBytes;
    ghost var start := a.Rest();
    NoZeros(start);
    if TakeHeader(start).Some? {
      HeaderNeeds(start);
    }
    ghost var first, second;
    h, first := ReadCounts(a);
    ghost var middle := a.Rest();
    NoZeros(middle);
    sizes, second := ReadCodeLengthSizes(a, h.hclen);
    HeaderThen(start + ZeroBytes(first), h, middle, ZeroBytes(second), sizes, a.Rest());
    ZerosAdd(start, first, second);
    pad := first + second;
  }

  lemma ListThen(bits: seq<bool>, h: CodeHeader, r: seq<bool>, z: seq<bool>)
    requires TakeHeader(bits) == Some(Taken(h, r)) && |h.sizes| == 19 && Usable(h.sizes)
    ensures var l := Lengths(h.sizes, r + z, [], h.counts.hlit + h.counts.hdist);
            DynamicList(bits + z) ==
              if l.None? then None else Some(Taken(LengthList(h.counts.hlit, l.value.value), l.value.rest))
  {
    hide TakeHeader, Lengths, Accepts;
    HeaderStable(bits, z);
  }

  lemma ListNeeds(bits: seq<bool>)
    requires DynamicList(bits).Some?
    ensures TakeHeader(bits).Some?
    ensures var h := TakeHeader(bits).value;
            && Usable(h.value.sizes)
            && var l := Lengths(h.value.sizes, h.rest, [], h.value.counts.hlit + h.value.counts.hdist);
               l.Some? && l.value.rest == DynamicList(bits).value.rest && |l.value.rest| <= |h.rest|
  {
    hide TakeHeader, Lengths, Accepts;
  }

  method ReadList(a: ZBuf) returns (ok: bool, hlit: nat, all: seq<nat>, ghost pad: nat)
    requires a.Valid()
    modifies a`pos, a`numBits, a`codeBuffer, a`hitZeofOnce
    ensures a.Valid()
    ensures ok ==> DynamicList(old(a.Rest()) + ZeroBytes(pad)) == Some(Taken(LengthList(hlit, all), a.Rest()))
    ensures var d := DynamicList(old(a.Rest()));
            d.Some? && |d.value.rest| >= 32 ==> ok && pad == 0 && a.hitZeofOnce == old(a.hitZeofOnce)
  {
    hide DynamicList, Lengths, TakeHeader, NatBits, BytesBits, ZeroBytes, FastEntry, Accepts;
    ghost var start := a.Rest();
    NoZeros(start);
    if DynamicList(start).Some? {
      ListNeeds(start);
    }
    hlit, all := 0, [];
    var h, sizes;
    ghost var first, second;
    h, sizes, first := ReadHeader(a);
    pad := first;
    ghost var middle := a.Rest();
    var z := new ZHuffman();
    ok := z.Build(sizes);
    if !ok {
      return;
    }
    ok, all, second := ReadLengths(a, z, sizes, h.hlit + h.hdist);
    hlit, pad := h.hlit, first + second;
    if ok {
      ListThen(start + ZeroBytes(first), CodeHeader(h, sizes), middle, ZeroBytes(second));
      ZerosAdd(start, first, second);
    }
  }

  method ComputeHuffmanCodes(a: ZBuf) returns (ok: bool, ghost lens: seq<nat>, ghost distLens: seq<nat>, ghost pad: nat)
    requires a.Valid()
    modifies a`pos, a`numBits, a`codeBuffer, a`hitZeofOnce, a.zLength.Repr(), a.zDistance.Repr()
    ensures a.Valid()
    ensures ok ==> a.zLength.Represents(lens) && a.zDistance.Represents(distLens)
    ensures ok ==> DynamicLengths(old(a.Rest()) + ZeroBytes(pad)) == Some(Taken(CodePair(lens, distLens), a.Rest()))
    ensures var d := DynamicLengths(old(a.Rest()));
            d.Some? && |d.value.rest| >= 32 ==> ok && pad == 0 && a.hitZeofOnce == old(a.hitZeofOnce)
  {
    hide DynamicList, NatBits, BytesBits, ZeroBytes, FastEntry, Accepts;
    NoZeros(a.Rest());
    lens, distLens := [], [];
    var hlit, all;
    ok, hlit, all, pad := ReadList(a);
    if !ok {
      return;
    }
    ok := a.zLength.Build(all[..hlit]);
    if !ok {
      return;
    }
    lens := all[..hlit];
    ok := a.zDistance.Build(all[hlit..]);
    distLens := all[hlit..];
  }
}
