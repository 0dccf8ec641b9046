/** What a DEFLATE stream (RFC 1951) means, as functions on its bits: the specification of the
    reader in stb_image.h. A result of None is a refused stream. */
module Inflate {
  import opened Bits
  import opened CanonicalCode

  const LENGTH_BASE: seq<nat> :=
    [3, 4, 5, 6, 7, 8, 9, 10, 11, 13, 15, 17, 19, 23, 27, 31, 35, 43, 51, 59, 67, 83, 99, 115, 131, 163, 195, 227, 258]
  const LENGTH_EXTRA: seq<nat> :=
    [0, 0, 0, 0, 0, 0, 0, 0, 1, 1, 1, 1, 2, 2, 2, 2, 3, 3, 3, 3, 4, 4, 4, 4, 5, 5, 5, 5, 0]
  const DIST_BASE: seq<nat> :=
    [1, 2, 3, 4, 5, 7, 9, 13, 17, 25, 33, 49, 65, 97, 129, 193,
     257, 385, 513, 769, 1025, 1537, 2049, 3073, 4097, 6145, 8193, 12289, 16385, 24577]
  const DIST_EXTRA: seq<nat> :=
    [0, 0, 0, 0, 1, 1, 2, 2, 3, 3, 4, 4, 5, 5, 6, 6, 7, 7, 8, 8, 9, 9, 10, 10, 11, 11, 12, 12, 13, 13]
  // Order in which a dynamic block lists the lengths of its code-length code.
  const DEZIGZAG: seq<nat> := [16, 17, 18, 0, 8, 7, 9, 6, 10, 5, 11, 4, 12, 3, 13, 2, 14, 1, 15]

  datatype Taken<+T> = Taken(value: T, rest: seq<bool>)

  function Take(bits: seq<bool>, n: nat): (r: Option<Taken<nat>>)
    ensures r.Some? <==> n <= |bits|
    ensures r.Some? ==> |r.value.rest| == |bits| - n
  {
    if n <= |bits| then Some(Taken(BitsNat(bits[..n]), bits[n..])) else None
  }

  function TakeSymbol(lens: seq<nat>, bits: seq<bool>): (r: Option<Taken<nat>>)
    ensures r.Some? ==> r.value.value < |lens| && |r.value.rest| < |bits|
  {
    match Symbol(lens, bits)
    case None => None
    case Some(s) => Some(Taken(s, bits[lens[s]..]))
  }

  // A copy of len bytes from dist back; source and destination may overlap.
  function CopyBack(out: seq<byte>, dist: nat, len: nat): (r: seq<byte>)
    requires 1 <= dist <= |out|
    ensures |r| == |out| + len && out <= r
    decreases len
  {
    if len == 0 then out else CopyBack(out + [out[|out| - dist]], dist, len - 1)
  }

  datatype Step = Emit(out: seq<byte>, rest: seq<bool>) | EndOfBlock(rest: seq<bool>)

  function TakeLength(sym: nat, bits: seq<bool>): (r: Option<Taken<nat>>)
    requires 257 <= sym < 286
    ensures r.Some? ==> |r.value.rest| <= |bits|
  {
    match Take(bits, LENGTH_EXTRA[sym - 257])
    case None => None
    case Some(extra) => Some(Taken(LENGTH_BASE[sym - 257] + extra.value, extra.rest))
  }

  function TakeDistanceExtra(d: nat, bits: seq<bool>): (r: Option<Taken<nat>>)
    ensures r.Some? ==> |r.value.rest| <= |bits| && r.value.value >= 1
  {
    if d >= 30 then None
    else
      match Take(bits, DIST_EXTRA[d])
      case None => None
      case Some(extra) => Some(Taken(DIST_BASE[d] + extra.value, extra.rest))
  }

  function TakeDistance(distLens: seq<nat>, bits: seq<bool>): (r: Option<Taken<nat>>)
    ensures r.Some? ==> |r.value.rest| <= |bits| && r.value.value >= 1
  {
    match TakeSymbol(distLens, bits)
    case None => None
    case Some(d) => TakeDistanceExtra(d.value, d.rest)
  }

  datatype BackRef = BackRef(len: nat, dist: nat)

  // The length and distance of a match whose length symbol is already read.
  function TakeMatch(distLens: seq<nat>, sym: nat, bits: seq<bool>): (r: Option<Taken<BackRef>>)
    requires 257 <= sym < 286
    ensures r.Some? ==> r.value.value.dist >= 1 && |r.value.rest| <= |bits|
  {
    match TakeLength(sym, bits)
    case None => None
    case Some(len) =>
      match TakeDistance(distLens, len.rest)
      case None => None
      case Some(dist) => Some(Taken(BackRef(len.value, dist.value), dist.rest))
  }

  function BlockStep(lens: seq<nat>, distLens: seq<nat>, bits: seq<bool>, out: seq<byte>): (r: Option<Step>)
    ensures r.Some? ==> |r.value.rest| < |bits|
    ensures r.Some? && r.value.Emit? ==> |out| <= |r.value.out|
  {
    match TakeSymbol(lens, bits)
    case None => None
    case Some(t) =>
      if t.value < 256 then Some(Emit(out + [t.value], t.rest))
      else if t.value == 256 then Some(EndOfBlock(t.rest))
      else if t.value >= 286 then None
      else
        match TakeMatch(distLens, t.value, t.rest)
        case None => None
        case Some(m) =>
          if |out| < m.value.dist then None
          else Some(Emit(CopyBack(out, m.value.dist, m.value.len), m.rest))
  }

  datatype Progress = Progress(out: seq<byte>, rest: seq<bool>)

  function InflateBlock(lens: seq<nat>, distLens: seq<nat>, bits: seq<bool>, out: seq<byte>): (r: Option<Progress>)
    ensures r.Some? ==> |r.value.rest| < |bits| && |out| <= |r.value.out|
    decreases |bits|
  {
    match BlockStep(lens, distLens, bits, out)
    case None => None
    case Some(EndOfBlock(rest)) => Some(Progress(out, rest))
    case Some(Emit(out', rest)) => InflateBlock(lens, distLens, rest, out')
  }

  function BitsBytes(b: seq<bool>): (s: seq<byte>)
    requires |b| % 8 == 0
    ensures |s| == |b| / 8
  {
    if b == [] then []
    else
      assert BitsNat(b[..8]) < 256 by { Pow2Values(); }
      [BitsNat(b[..8])] + BitsBytes(b[8..])
  }

  // A stored block starts at the next byte boundary; the stream ends on one.
  function StoredBlock(bits: seq<bool>, out: seq<byte>): (r: Option<Progress>)
    ensures r.Some? ==> |r.value.rest| <= |bits| && |out| <= |r.value.out|
  {
    var b := bits[|bits| % 8..];
    if |b| < 32 then None
    else
      var len, nlen := BitsNat(b[..16]), BitsNat(b[16..32]);
      if len + nlen != 0xFFFF || |b| - 32 < 8 * len then None
      else Some(Progress(out + BitsBytes(b[32..32 + 8 * len]), b[32 + 8 * len..]))
  }

  function NoSizes(): (s: seq<nat>)
    ensures |s| == 19 && forall k :: 0 <= k < 19 ==> s[k] == 0
  {
    seq(19, _ => 0)
  }

  // Lengths of the code-length code: hclen fields of three bits.
  function CodeLengthSizes(bits: seq<bool>, i: nat, hclen: nat, sizes: seq<nat>): (r: Option<Taken<seq<nat>>>)
    requires i <= hclen <= 19 && |sizes| == 19
    requires forall k :: 0 <= k < 19 ==> sizes[k] <= 7
    ensures r.Some? ==> |r.value.rest| <= |bits| && |r.value.value| == 19
    ensures r.Some? ==> forall k :: 0 <= k < 19 ==> r.value.value[k] <= 7
    decreases hclen - i
  {
    if i == hclen then Some(Taken(sizes, bits))
    else
      match Take(bits, 3)
      case None => None
      case Some(t) =>
        assert t.value < 8 by { Pow2Values(); }
        CodeLengthSizes(t.rest, i + 1, hclen, sizes[DEZIGZAG[i] := t.value])
  }

  function Repeat(v: nat, n: nat): (s: seq<nat>)
    ensures |s| == n && forall k :: 0 <= k < n ==> s[k] == v
  {
    seq(n, _ => v)
  }

  // One code-length symbol: a literal length or a run.
  function LengthStep(cl: seq<nat>, bits: seq<bool>, acc: seq<nat>, total: nat): (r: Option<Taken<seq<nat>>>)
    requires |cl| == 19 && |acc| < total
    requires forall k :: 0 <= k < |acc| ==> acc[k] <= MAX_LEN
    ensures r.Some? ==> |r.value.rest| < |bits| && |acc| < |r.value.value| <= total
    ensures r.Some? ==> forall k :: 0 <= k < |r.value.value| ==> r.value.value[k] <= MAX_LEN
  {
    match TakeSymbol(cl, bits)
    case None => None
    case Some(c) =>
      if c.value < 16 then Some(Taken(acc + [c.value], c.rest))
      else if c.value == 16 && acc == [] then None
      else
        var fill := if c.value == 16 then acc[|acc| - 1] else 0;
        match Take(c.rest, if c.value == 16 then 2 else if c.value == 17 then 3 else 7)
        case None => None
        case Some(t) =>
          var n := t.value + (if c.value == 18 then 11 else 3);
          if total - |acc| < n then None else Some(Taken(acc + Repeat(fill, n), t.rest))
  }

  function Lengths(cl: seq<nat>, bits: seq<bool>, acc: seq<nat>, total: nat): (r: Option<Taken<seq<nat>>>)
    requires |cl| == 19 && |acc| <= total
    requires forall k :: 0 <= k < |acc| ==> acc[k] <= MAX_LEN
    ensures r.Some? ==> |r.value.rest| <= |bits| && |r.value.value| == total
    ensures r.Some? ==> forall k :: 0 <= k < total ==> r.value.value[k] <= MAX_LEN
    decreases total - |acc|
  {
    if |acc| == total then Some(Taken(acc, bits))
    else
      match LengthStep(cl, bits, acc, total)
      case None => None
      case Some(t) => Lengths(cl, t.rest, t.value, total)
  }

  ghost predicate Usable(lens: seq<nat>) {
    ValidLens(lens) && Accepts(lens)
  }

  datatype CodePair = CodePair(lens: seq<nat>, distLens: seq<nat>)

  datatype Counts = Counts(hlit: nat, hdist: nat, hclen: nat)

  function TakeCounts(bits: seq<bool>): (r: Option<Taken<Counts>>)
    ensures r.Some? ==> |r.value.rest| <= |bits|
    ensures r.Some? ==> r.value.value.hlit <= 288 && r.value.value.hdist <= 32 && r.value.value.hclen <= 19
    ensures r.Some? ==> r.value.value.hlit >= 257 && r.value.value.hdist >= 1
  {
    Pow2Values();
    match Take(bits, 5)
    case None => None
    case Some(l) =>
      match Take(l.rest, 5)
      case None => None
      case Some(d) =>
        match Take(d.rest, 4)
        case None => None
        case Some(c) => Some(Taken(Counts(l.value + 257, d.value + 1, c.value + 4), c.rest))
  }

  datatype CodeHeader = CodeHeader(counts: Counts, sizes: seq<nat>)

  function TakeHeader(bits: seq<bool>): (r: Option<Taken<CodeHeader>>)
    ensures r.Some? ==> |r.value.rest| <= |bits| && |r.value.value.sizes| == 19
    ensures r.Some? ==> forall k :: 0 <= k < 19 ==> r.value.value.sizes[k] <= 7
    ensures r.Some? ==> r.value.value.counts.hlit <= 288 && r.value.value.counts.hdist <= 32
    ensures r.Some? ==> r.value.value.counts.hlit >= 257
  {
    match TakeCounts(bits)
    case None => None
    case Some(h) =>
      match CodeLengthSizes(h.rest, 0, h.value.hclen, NoSizes())
      case None => None
      case Some(s) => Some(Taken(CodeHeader(h.value, s.value), s.rest))
  }

  datatype LengthList = LengthList(hlit: nat, all: seq<nat>)

  // The code lengths of a dynamic block, both codes in one list.
  ghost function DynamicList(bits: seq<bool>): (r: Option<Taken<LengthList>>)
    ensures r.Some? ==> |r.value.rest| <= |bits| && 257 <= r.value.value.hlit <= |r.value.value.all| <= 320
    ensures r.Some? ==> r.value.value.hlit <= 288 && |r.value.value.all| - r.value.value.hlit <= 32
    ensures r.Some? ==> forall k :: 0 <= k < |r.value.value.all| ==> r.value.value.all[k] <= MAX_LEN
  {
    match TakeHeader(bits)
    case None => None
    case Some(h) =>
      if !Usable(h.value.sizes) then None
      else
        match Lengths(h.value.sizes, h.rest, [], h.value.counts.hlit + h.value.counts.hdist)
        case None => None
        case Some(l) => Some(Taken(LengthList(h.value.counts.hlit, l.value), l.rest))
  }

  // The two codes of a dynamic block.
  ghost function DynamicLengths(bits: seq<bool>): (r: Option<Taken<CodePair>>)
    ensures r.Some? ==> |r.value.rest| <= |bits|
    ensures r.Some? ==> Usable(r.value.value.lens) && Usable(r.value.value.distLens)
  {
    match DynamicList(bits)
    case None => None
    case Some(l) =>
      var lens, distLens := l.value.all[..l.value.hlit], l.value.all[l.value.hlit..];
      if Usable(lens) && Usable(distLens) then Some(Taken(CodePair(lens, distLens), l.rest)) else None
  }

  // The codes of section 3.2.6 of RFC 1951.
  function FixedLens(): (l: seq<nat>)
    ensures |l| == 288
  {
    seq(288, i => if i <= 143 then 8 else if i <= 255 then 9 else if i <= 279 then 7 else 8)
  }

  function FixedDistLens(): (l: seq<nat>)
    ensures |l| == 32
  {
    seq(32, _ => 5)
  }

  ghost function OneBlock(kind: nat, bits: seq<bool>, out: seq<byte>): (r: Option<Progress>)
    ensures r.Some? ==> |r.value.rest| <= |bits| && |out| <= |r.value.out|
  {
    if kind == 0 then StoredBlock(bits, out)
    else if kind == 1 then InflateBlock(FixedLens(), FixedDistLens(), bits, out)
    else if kind == 2 then
      match DynamicLengths(bits)
      case None => None
      case Some(d) => InflateBlock(d.value.lens, d.value.distLens, d.rest, out)
    else None
  }

  // The blocks of a stream up to the one marked final.
  ghost function InflateBlocks(bits: seq<bool>, out: seq<byte>): (r: Option<Progress>)
    ensures r.Some? ==> |r.value.rest| <= |bits| && |out| <= |r.value.out|
    decreases |bits|
  {
    if |bits| < 3 then None
    else
      match OneBlock(BitsNat(bits[1..3]), bits[3..], out)
      case None => None
      case Some(p) => if bits[0] then Some(p) else InflateBlocks(p.rest, p.out)
  }

  // ---- a longer input does not change what was already decided ----

  lemma TakeNothing(bits: seq<bool>)
    ensures Take(bits, 0) == Some(Taken(0, bits))
  {
    assert bits[0..] == bits;
  }

  function Longer<T>(t: Taken<T>, z: seq<bool>): Taken<T> {
    Taken(t.value, t.rest + z)
  }

  lemma TakeStable(bits: seq<bool>, n: nat, z: seq<bool>)
    requires n <= |bits|
    ensures Take(bits + z, n) == Some(Longer(Take(bits, n).value, z))
  {
    assert (bits + z)[..n] == bits[..n];
    assert (bits + z)[n..] == bits[n..] + z;
  }

  lemma SymbolStable(lens: seq<nat>, bits: seq<bool>, z: seq<bool>)
    requires Usable(lens) && Symbol(lens, bits).Some?
    ensures Symbol(lens, bits + z) == Symbol(lens, bits)
    ensures TakeSymbol(lens, bits + z) == Some(Longer(TakeSymbol(lens, bits).value, z))
  {
    var s := Symbol(lens, bits).value;
    SymbolIff(lens, bits, s);
    SymbolIff(lens, bits + z, s);
    assert (bits + z)[lens[s]..] == bits[lens[s]..] + z;
  }

  lemma LengthStable(sym: nat, bits: seq<bool>, z: seq<bool>)
    requires 257 <= sym < 286 && TakeLength(sym, bits).Some?
    ensures TakeLength(sym, bits + z) == Some(Longer(TakeLength(sym, bits).value, z))
  {
    TakeStable(bits, LENGTH_EXTRA[sym - 257], z);
  }

  lemma DistanceStable(distLens: seq<nat>, bits: seq<bool>, z: seq<bool>)
    requires Usable(distLens) && TakeDistance(distLens, bits).Some?
    ensures TakeDistance(distLens, bits + z) == Some(Longer(TakeDistance(distLens, bits).value, z))
  {
    SymbolStable(distLens, bits, z);
    var d := TakeSymbol(distLens, bits).value;
    TakeStable(d.rest, DIST_EXTRA[d.value], z);
  }

  lemma MatchStable(distLens: seq<nat>, sym: nat, bits: seq<bool>, z: seq<bool>)
    requires Usable(distLens) && 257 <= sym < 286 && TakeMatch(distLens, sym, bits).Some?
    ensures TakeMatch(distLens, sym, bits + z) == Some(Longer(TakeMatch(distLens, sym, bits).value, z))
  {
    LengthStable(sym, bits, z);
    DistanceStable(distLens, TakeLength(sym, bits).value.rest, z);
  }

  lemma StepStable(lens: seq<nat>, distLens: seq<nat>, bits: seq<bool>, out: seq<byte>, z: seq<bool>)
    requires Usable(lens) && Usable(distLens) && BlockStep(lens, distLens, bits, out).Some?
    ensures BlockStep(lens, distLens, bits + z, out)
            == Some(BlockStep(lens, distLens, bits, out).value
                    .(rest := BlockStep(lens, distLens, bits, out).value.rest + z))
  {
    SymbolStable(lens, bits, z);
    var t := TakeSymbol(lens, bits).value;
    if 257 <= t.value < 286 {
      MatchStable(distLens, t.value, t.rest, z);
    }
  }

  lemma {:induction false} BlockStable(lens: seq<nat>, distLens: seq<nat>, bits: seq<bool>, out: seq<byte>, z: seq<bool>)
    requires Usable(lens) && Usable(distLens) && InflateBlock(lens, distLens, bits, out).Some?
    ensures InflateBlock(lens, distLens, bits + z, out)
            == Some(InflateBlock(lens, distLens, bits, out).value
                    .(rest := InflateBlock(lens, distLens, bits, out).value.rest + z))
    decreases |bits|
  {
    StepStable(lens, distLens, bits, out, z);
    var step := BlockStep(lens, distLens, bits, out).value;
    if step.Emit? {
      BlockStable(lens, distLens, step.rest, step.out, z);
    }
  }

  lemma AlignedStable(bits: seq<bool>, n: nat)
    ensures (bits + ZeroBytes(n))[|bits + ZeroBytes(n)| % 8..] == bits[|bits| % 8..] + ZeroBytes(n)
  {
    assert (|bits| + 8 * n) % 8 == |bits| % 8;
  }

  lemma StoredStable(bits: seq<bool>, out: seq<byte>, n: nat)
    requires StoredBlock(bits, out).Some?
    ensures StoredBlock(bits + ZeroBytes(n), out)
            == Some(StoredBlock(bits, out).value.(rest := StoredBlock(bits, out).value.rest + ZeroBytes(n)))
  {
    hide ZeroBytes;
    var b, z := bits[|bits| % 8..], ZeroBytes(n);
    AlignedStable(bits, n);
    var len := BitsNat(b[..16]);
    assert (b + z)[..16] == b[..16] && (b + z)[16..32] == b[16..32];
    assert (b + z)[32..32 + 8 * len] == b[32..32 + 8 * len];
    assert (b + z)[32 + 8 * len..] == b[32 + 8 * len..] + z;
  }

  lemma {:induction false} CodeLengthSizesStable(bits: seq<bool>, i: nat, hclen: nat, sizes: seq<nat>, z: seq<bool>)
    requires i <= hclen <= 19 && |sizes| == 19
    requires forall k :: 0 <= k < 19 ==> sizes[k] <= 7
    requires CodeLengthSizes(bits, i, hclen, sizes).Some?
    ensures CodeLengthSizes(bits + z, i, hclen, sizes)
            == Some(Longer(CodeLengthSizes(bits, i, hclen, sizes).value, z))
    decreases hclen - i
  {
    hide Take, BitsNat;
    if i < hclen {
      var t := Take(bits, 3).value;
      TakeThree(t.value, bits);
      TakeStable(bits, 3, z);
      CodeLengthSizesStable(t.rest, i + 1, hclen, sizes[DEZIGZAG[i] := t.value], z);
    }
  }

  lemma TakeThree(v: nat, bits: seq<bool>)
    requires |bits| >= 3 && v == Take(bits, 3).value.value
    ensures v <= 7
  {
    Pow2Values();
  }

  lemma LengthStepStable(cl: seq<nat>, bits: seq<bool>, acc: seq<nat>, total: nat, z: seq<bool>)
    requires Usable(cl) && |cl| == 19 && |acc| < total
    requires forall k :: 0 <= k < |acc| ==> acc[k] <= MAX_LEN
    requires LengthStep(cl, bits, acc, total).Some?
    ensures LengthStep(cl, bits + z, acc, total) == Some(Longer(LengthStep(cl, bits, acc, total).value, z))
  {
    hide Take, BitsNat, TakeSymbol, Symbol;
    SymbolOfStep(cl, bits);
    SymbolStable(cl, bits, z);
    var c := TakeSymbol(cl, bits).value;
    if c.value >= 16 {
      TakeStable(c.rest, if c.value == 16 then 2 else if c.value == 17 then 3 else 7, z);
    }
  }

  lemma SymbolOfStep(cl: seq<nat>, bits: seq<bool>)
    ensures TakeSymbol(cl, bits).Some? ==> Symbol(cl, bits).Some?
  {
  }

  lemma {:induction false} LengthsStable(cl: seq<nat>, bits: seq<bool>, acc: seq<nat>, total: nat, z: seq<bool>)
    requires Usable(cl) && |cl| == 19 && |acc| <= total
    requires forall k :: 0 <= k < |acc| ==> acc[k] <= MAX_LEN
    requires Lengths(cl, bits, acc, total).Some?
    ensures Lengths(cl, bits + z, acc, total) == Some(Longer(Lengths(cl, bits, acc, total).value, z))
    decreases total - |acc|
  {
    hide LengthStep;
    if |acc| < total {
      var t := LengthStep(cl, bits, acc, total).value;
      LengthStepStable(cl, bits, acc, total, z);
      LengthsStable(cl, t.rest, t.value, total, z);
    }
  }

  lemma CountsStable(bits: seq<bool>, z: seq<bool>)
    requires TakeCounts(bits).Some?
    ensures TakeCounts(bits + z) == Some(Longer(TakeCounts(bits).value, z))
  {
    hide Take;
    TakeStable(bits, 5, z);
    var l := Take(bits, 5).value;
    TakeStable(l.rest, 5, z);
    TakeStable(Take(l.rest, 5).value.rest, 4, z);
  }

  lemma HeaderStable(bits: seq<bool>, z: seq<bool>)
    requires TakeHeader(bits).Some?
    ensures TakeHeader(bits + z) == Some(Longer(TakeHeader(bits).value, z))
  {
    hide TakeCounts, CodeLengthSizes;
    CountsStable(bits, z);
    var h := TakeCounts(bits).value;
    CodeLengthSizesStable(h.rest, 0, h.value.hclen, NoSizes(), z);
  }

  lemma DynamicListStable(bits: seq<bool>, z: seq<bool>)
    requires DynamicList(bits).Some?
    ensures DynamicList(bits + z) == Some(Longer(DynamicList(bits).value, z))
  {
    hide TakeHeader, Lengths, Accepts;
    HeaderStable(bits, z);
    var h := TakeHeader(bits).value;
    LengthsStable(h.value.sizes, h.rest, [], h.value.counts.hlit + h.value.counts.hdist, z);
  }

  lemma DynamicStable(bits: seq<bool>, z: seq<bool>)
    requires DynamicLengths(bits).Some?
    ensures DynamicLengths(bits + z) == Some(Longer(DynamicLengths(bits).value, z))
  {
    hide DynamicList, Accepts;
    DynamicListStable(bits, z);
  }
}
