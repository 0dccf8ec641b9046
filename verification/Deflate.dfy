/** What the writer in stb_image_write.h sends: literals and back references in the fixed code, or
    stored blocks; and that reading either gives the data back. */
module Deflate {
  import opened Bits
  import opened CanonicalCode
  import opened Inflate
  import opened FixedCode

  // The writer's tables have one more entry, which ends its searches.
  const LENGTH_CODES: seq<nat> :=
    [3, 4, 5, 6, 7, 8, 9, 10, 11, 13, 15, 17, 19, 23, 27, 31,
     35, 43, 51, 59, 67, 83, 99, 115, 131, 163, 195, 227, 258, 259]
  const DIST_CODES: seq<nat> :=
    [1, 2, 3, 4, 5, 7, 9, 13, 17, 25, 33, 49, 65, 97, 129, 193, 257, 385, 513, 769, 1025, 1537, 2049, 3073,
     4097, 6145, 8193, 12289, 16385, 24577, 32768]

  datatype Token = Literal(b: byte) | Match(len: nat, dist: nat)

  ghost predicate ValidToken(t: Token) {
    t.Match? ==> 3 <= t.len <= 258 && 1 <= t.dist <= 32767
  }

  // for (j=0; v > table[j+1]-1; ++j);
  function Search(table: seq<nat>, v: nat, j: nat): (r: nat)
    requires |table| >= 1 && j < |table| - 1 && v < table[|table| - 1]
    ensures j <= r < |table| - 1 && v < table[r + 1]
    ensures table[j] <= v ==> table[r] <= v
    decreases |table| - j
  {
    if v >= table[j + 1] then Search(table, v, j + 1) else j
  }

  function LengthIndex(len: nat): nat
    requires 3 <= len <= 258
  {
    Search(LENGTH_CODES, len, 0)
  }

  function DistIndex(dist: nat): nat
    requires 1 <= dist <= 32767
  {
    Search(DIST_CODES, dist, 0)
  }

  lemma LengthFits(len: nat)
    requires 3 <= len <= 258
    ensures LengthIndex(len) <= 28 && LENGTH_BASE[LengthIndex(len)] <= len
    ensures len - LENGTH_BASE[LengthIndex(len)] < Pow2(LENGTH_EXTRA[LengthIndex(len)])
  {
    var j := LengthIndex(len);
    Pow2Values();
    assert LENGTH_CODES[j] <= len < LENGTH_CODES[j + 1];
    LengthGaps(j);
  }

  lemma LengthGaps(j: nat)
    requires j <= 28
    ensures LENGTH_CODES[j] == LENGTH_BASE[j]
    ensures LENGTH_CODES[j + 1] - LENGTH_CODES[j] <= Pow2(LENGTH_EXTRA[j])
  {
    Pow2Values();
    assert Pow2(0) == 1;
  }

  lemma DistFits(dist: nat)
    requires 1 <= dist <= 32767
    ensures DistIndex(dist) <= 29 && 1 <= DIST_BASE[DistIndex(dist)] <= dist
    ensures dist - DIST_BASE[DistIndex(dist)] < Pow2(DIST_EXTRA[DistIndex(dist)])
  {
    var j := DistIndex(dist);
    assert DIST_CODES[j] <= dist < DIST_CODES[j + 1];
    DistGaps(j);
  }

  lemma DistGaps(j: nat)
    requires j <= 29
    ensures 1 <= DIST_CODES[j] == DIST_BASE[j]
    ensures DIST_CODES[j + 1] - DIST_CODES[j] <= Pow2(DIST_EXTRA[j])
  {
    Pow2Values();
    assert Pow2(0) == 1 && Pow2(10) == 1024 && Pow2(11) == 2048 && Pow2(12) == 4096;
  }

  // The bits of one token, and of the end-of-block symbol.
  function SymbolBits(n: nat): seq<bool>
    requires n < 288
  {
    CodeBits(FixedLens(), n)
  }

  function LengthBits(len: nat): seq<bool>
    requires 3 <= len <= 258
  {
    LengthFits(len);
    var j := LengthIndex(len);
    SymbolBits(j + 257) + NatBits(len - LENGTH_BASE[j], LENGTH_EXTRA[j])
  }

  function DistBits(dist: nat): seq<bool>
    requires 1 <= dist <= 32767
  {
    DistFits(dist);
    var d := DistIndex(dist);
    CodeBits(FixedDistLens(), d) + NatBits(dist - DIST_BASE[d], DIST_EXTRA[d])
  }

  function MatchBits(len: nat, dist: nat): seq<bool>
    requires 3 <= len <= 258 && 1 <= dist <= 32767
  {
    LengthBits(len) + DistBits(dist)
  }

  function TokenBits(t: Token): seq<bool>
    requires ValidToken(t)
  {
    match t
    case Literal(b) => SymbolBits(b)
    case Match(len, dist) => MatchBits(len, dist)
  }

  function TokensBits(ts: seq<Token>): seq<bool>
    requires forall t :: t in ts ==> ValidToken(t)
  {
    if ts == [] then [] else TokensBits(ts[..|ts| - 1]) + TokenBits(ts[|ts| - 1])
  }

  // What tokens stand for; None when a match reaches back before the start.
  function Apply(t: Token, out: seq<byte>): Option<seq<byte>> {
    match t
    case Literal(b) => Some(out + [b])
    case Match(len, dist) => if 1 <= dist <= |out| then Some(CopyBack(out, dist, len)) else None
  }

  function Expand(ts: seq<Token>): Option<seq<byte>> {
    if ts == [] then Some([])
    else
      match Expand(ts[..|ts| - 1])
      case None => None
      case Some(out) => Apply(ts[|ts| - 1], out)
  }

  // ---- reading back ----

  lemma SymbolRead(lens: seq<nat>, n: nat, x: seq<bool>)
    requires Usable(lens) && n < |lens| && lens[n] > 0
    ensures TakeSymbol(lens, CodeBits(lens, n) + x) == Some(Taken(n, x))
  {
    hide Accepts, Code;
    SymbolIff(lens, CodeBits(lens, n) + x, n);
  }

  lemma NumberRead(v: nat, n: nat, x: seq<bool>)
    requires v < Pow2(n)
    ensures Take(NatBits(v, n) + x, n) == Some(Taken(v, x))
  {
    BitsNatOfNatBits(v, n);
    LowOfSmall(v, n);
    assert (NatBits(v, n) + x)[..n] == NatBits(v, n);
    assert (NatBits(v, n) + x)[n..] == x;
  }

  lemma LengthRead(j: nat, extra: nat, x: seq<bool>)
    requires j <= 28 && extra < Pow2(LENGTH_EXTRA[j])
    ensures TakeLength(j + 257, NatBits(extra, LENGTH_EXTRA[j]) + x) == Some(Taken(LENGTH_BASE[j] + extra, x))
  {
    hide NatBits, Take, Pow2;
    NumberRead(extra, LENGTH_EXTRA[j], x);
  }

  lemma DistanceRead(distLens: seq<nat>, d: nat, extra: nat, x: seq<bool>)
    requires Usable(distLens) && d < |distLens| && distLens[d] > 0 && d <= 29 && extra < Pow2(DIST_EXTRA[d])
    ensures TakeDistance(distLens, CodeBits(distLens, d) + (NatBits(extra, DIST_EXTRA[d]) + x))
            == Some(Taken(DIST_BASE[d] + extra, x))
  {
    hide NatBits, Take, TakeSymbol, CodeBits, Accepts, Pow2;
    SymbolRead(distLens, d, NatBits(extra, DIST_EXTRA[d]) + x);
    NumberRead(extra, DIST_EXTRA[d], x);
  }

  lemma Regroup(a: seq<bool>, b: seq<bool>, c: seq<bool>, d: seq<bool>, x: seq<bool>)
    ensures ((a + b) + (c + d)) + x == a + (b + (c + (d + x)))
  {
  }

  lemma StepRead(lens: seq<nat>, distLens: seq<nat>, sym: nat, middle: seq<bool>, bits: seq<bool>, len: nat,
                 tail: seq<bool>, dist: nat, x: seq<bool>, out: seq<byte>)
    requires TakeSymbol(lens, bits) == Some(Taken(sym, middle)) && 257 <= sym < 286
    requires TakeLength(sym, middle) == Some(Taken(len, tail))
    requires TakeDistance(distLens, tail) == Some(Taken(dist, x)) && dist <= |out|
    ensures dist >= 1 && BlockStep(lens, distLens, bits, out) == Some(Emit(CopyBack(out, dist, len), x))
  {
    hide TakeSymbol, TakeLength, TakeDistance, CopyBack;
  }

  // A back reference in any two codes: its length symbol, then middle with the rest of it, then tail with the distance.
  lemma PartsRead(lens: seq<nat>, distLens: seq<nat>, sym: nat, middle: seq<bool>, tail: seq<bool>, len: nat, dist: nat,
                  out: seq<byte>, x: seq<bool>)
    requires Usable(lens) && 257 <= sym < 286 && sym < |lens| && lens[sym] > 0 && dist <= |out|
    requires TakeLength(sym, middle + tail) == Some(Taken(len, tail))
    requires TakeDistance(distLens, tail) == Some(Taken(dist, x))
    ensures 1 <= dist && BlockStep(lens, distLens, CodeBits(lens, sym) + (middle + tail), out)
                         == Some(Emit(CopyBack(out, dist, len), x))
  {
    hide TakeSymbol, CodeBits, Usable, TakeLength, TakeDistance, CopyBack, BlockStep;
    SymbolRead(lens, sym, middle + tail);
    StepRead(lens, distLens, sym, middle + tail, CodeBits(lens, sym) + (middle + tail), len, tail, dist, x, out);
  }

  lemma FixedUsed(n: nat, d: nat)
    requires n < 288 && d < 32
    ensures FixedLens()[n] > 0 && FixedDistLens()[d] > 0
  {
  }

  // The parts of a match as sent: the length symbol, the rest of the length, and the distance.
  lemma MatchParts(len: nat, dist: nat, x: seq<bool>) returns (sym: nat, middle: seq<bool>, tail: seq<bool>)
    requires 3 <= len <= 258 && 1 <= dist <= 32767
    ensures 257 <= sym < 286 && MatchBits(len, dist) + x == CodeBits(FixedLens(), sym) + (middle + tail)
    ensures TakeLength(sym, middle + tail) == Some(Taken(len, tail))
    ensures TakeDistance(FixedDistLens(), tail) == Some(Taken(dist, x))
  {
    hide NatBits, DistIndex, LengthIndex, CodeBits, Pow2, FixedLens, FixedDistLens, Usable, TakeLength, TakeDistance;
    LengthFits(len);
    DistFits(dist);
    var j, d := LengthIndex(len), DistIndex(dist);
    var le, de := len - LENGTH_BASE[j], dist - DIST_BASE[d];
    sym, middle := j + 257, NatBits(le, LENGTH_EXTRA[j]);
    var e, f := CodeBits(FixedDistLens(), d), NatBits(de, DIST_EXTRA[d]);
    tail := e + (f + x);
    DistUsable();
    FixedUsed(0, d);
    LengthRead(j, le, tail);
    DistanceRead(FixedDistLens(), d, de, x);
    Regroup(CodeBits(FixedLens(), sym), middle, e, f, x);
  }

  lemma MatchRead(len: nat, dist: nat, out: seq<byte>, x: seq<bool>)
    requires 3 <= len <= 258 && 1 <= dist <= 32767 && dist <= |out|
    ensures BlockStep(FixedLens(), FixedDistLens(), MatchBits(len, dist) + x, out)
            == Some(Emit(CopyBack(out, dist, len), x))
  {
    hide CodeBits, BlockStep, CopyBack, FixedLens, FixedDistLens, Usable, TakeLength, TakeDistance, MatchBits;
    var sym, middle, tail := MatchParts(len, dist, x);
    FixedUsable();
    FixedUsed(sym, 0);
    PartsRead(FixedLens(), FixedDistLens(), sym, middle, tail, len, dist, out, x);
  }

  lemma TokenRead(t: Token, out: seq<byte>, x: seq<bool>)
    requires ValidToken(t) && Apply(t, out).Some?
    ensures BlockStep(FixedLens(), FixedDistLens(), TokenBits(t) + x, out) == Some(Emit(Apply(t, out).value, x))
  {
    hide CodeBits, TakeSymbol, Accepts, MatchBits, CopyBack;
    match t {
      case Literal(b) =>
        FixedUsable();
        SymbolRead(FixedLens(), b, x);
      case Match(len, dist) =>
        MatchRead(len, dist, out, x);
    }
  }

  // Tokens are read one after another, each extending the output by what it stands for.
  lemma {:induction false} TokensRead(ts: seq<Token>, x: seq<bool>)
    requires (forall t :: t in ts ==> ValidToken(t)) && Expand(ts).Some?
    ensures InflateBlock(FixedLens(), FixedDistLens(), TokensBits(ts) + x, [])
            == InflateBlock(FixedLens(), FixedDistLens(), x, Expand(ts).value)
  {
    hide TokenBits, BlockStep, Apply;
    if ts == [] {
      assert TokensBits(ts) + x == x;
    } else {
      var short, t := ts[..|ts| - 1], ts[|ts| - 1];
      TokensRead(short, TokenBits(t) + x);
      assert TokensBits(ts) + x == TokensBits(short) + (TokenBits(t) + x);
      TokenRead(t, Expand(short).value, x);
    }
  }

  // Section 3.2.6 of RFC 1951: one final block in the fixed code.
  function FixedBlock(ts: seq<Token>): seq<bool>
    requires forall t :: t in ts ==> ValidToken(t)
  {
    NatBits(1, 1) + NatBits(1, 2) + TokensBits(ts) + SymbolBits(256)
  }

  lemma EndRead(out: seq<byte>, x: seq<bool>)
    ensures InflateBlock(FixedLens(), FixedDistLens(), SymbolBits(256) + x, out) == Some(Progress(out, x))
  {
    hide CodeBits, Accepts, TakeSymbol;
    FixedUsable();
    SymbolRead(FixedLens(), 256, x);
  }

  lemma FixedHeader(x: seq<bool>, out: seq<byte>)
    ensures InflateBlocks(NatBits(1, 1) + NatBits(1, 2) + x, out) == InflateBlock(FixedLens(), FixedDistLens(), x, out)
  {
    hide InflateBlock;
    var bits := NatBits(1, 1) + NatBits(1, 2) + x;
    assert NatBits(1, 1) == [true] && NatBits(1, 2) == [true, false];
    assert bits[1..3] == [true, false] && bits[3..] == x && bits[0];
    assert BitsNat([true, false]) == 1;
  }

  // The fixed block decodes to what its tokens stand for, and leaves what follows it.
  lemma FixedBlockRead(ts: seq<Token>, x: seq<bool>)
    requires (forall t :: t in ts ==> ValidToken(t)) && Expand(ts).Some?
    ensures InflateBlocks(FixedBlock(ts) + x, []) == Some(Progress(Expand(ts).value, x))
  {
    hide InflateBlocks, InflateBlock, NatBits, TokensBits, SymbolBits, Expand;
    var h, b, e := NatBits(1, 1) + NatBits(1, 2), TokensBits(ts), SymbolBits(256);
    assert FixedBlock(ts) + x == h + (b + (e + x));
    FixedHeader(b + (e + x), []);
    TokensRead(ts, e + x);
    EndRead(Expand(ts).value, x);
  }

  // ---- the stored-block fallback (section 3.2.4 of RFC 1951) ----

  // BFINAL and BTYPE = 0, LEN, NLEN, then the bytes.
  function StoredChunk(data: seq<byte>, final: bool): (r: seq<byte>)
    requires |data| <= 32767
    ensures |r| == |data| + 5
  {
    [if final then 1 else 0, |data| % 256, |data| / 256, 255 - |data| % 256, 255 - |data| / 256] + data
  }

  function StoredChunks(data: seq<byte>): (r: seq<byte>)
    ensures |r| == |data| + 5 * ((|data| + 32766) / 32767)
  {
    if data == [] then []
    else if |data| <= 32767 then StoredChunk(data, true)
    else StoredChunk(data[..32767], false) + StoredChunks(data[32767..])
  }
}
