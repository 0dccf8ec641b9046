/** An independent writer of whole DEFLATE streams, block kind by block kind after section 3.2 of RFC 1951, and that the
    reader accepts exactly what it writes and returns what it stands for. */
module DeflateStream {
  import opened Bits
  import opened CanonicalCode
  import opened Inflate
  import opened Deflate
  import opened DynamicHeader
  import opened FixedCode
  import opened ZlibStream

  // ---- lengths and distances (section 3.2.5 of RFC 1951) ----

  // Extra bits of the length codes: none for the first eight, then one more every four codes.
  function LengthExtra(j: nat): nat
    requires j <= 28
  {
    if j < 8 || j == 28 then 0 else j / 4 - 1
  }

  // The codes cover the lengths from 3 on without a gap, but 258 has a code of its own.
  function LengthBase(j: nat): nat
    requires j <= 28
  {
    if j == 0 then 3 else if j == 28 then 258 else LengthBase(j - 1) + Pow2(LengthExtra(j - 1))
  }

  // Extra bits of the distance codes: none for the first four, then one more every two codes.
  function DistExtra(d: nat): nat
    requires d <= 29
  {
    if d < 4 then 0 else d / 2 - 1
  }

  function DistBase(d: nat): nat
    requires d <= 29
  {
    if d == 0 then 1 else DistBase(d - 1) + Pow2(DistExtra(d - 1))
  }

  lemma LengthExtraTable(j: nat)
    requires j <= 28
    ensures LENGTH_EXTRA[j] == LengthExtra(j)
  {
  }

  lemma Powers()
    ensures Pow2(0) == 1 && Pow2(1) == 2 && Pow2(2) == 4 && Pow2(3) == 8 && Pow2(4) == 16 && Pow2(5) == 32
    ensures Pow2(6) == 64 && Pow2(7) == 128 && Pow2(8) == 256 && Pow2(9) == 512
    ensures Pow2(10) == 1024 && Pow2(11) == 2048 && Pow2(12) == 4096 && Pow2(13) == 8192
  {
    Pow2Values();
  }

  lemma LengthGap(j: nat)
    requires j < 27
    ensures LENGTH_BASE[j + 1] == LENGTH_BASE[j] + Pow2(LENGTH_EXTRA[j])
  {
    hide Pow2;
    Powers();
  }

  /** The tables are these: every base is the one before it plus two to the power of its extra bits. */
  lemma {:induction false} LengthTable(j: nat)
    requires j <= 28
    ensures LENGTH_EXTRA[j] == LengthExtra(j) && LENGTH_BASE[j] == LengthBase(j)
  {
    hide Pow2, LengthExtra;
    LengthExtraTable(j);
    if 0 < j < 28 {
      LengthExtraTable(j - 1);
      LengthGap(j - 1);
      LengthTable(j - 1);
    }
  }

  lemma DistExtraTable(d: nat)
    requires d <= 29
    ensures DIST_EXTRA[d] == DistExtra(d)
  {
  }

  lemma DistGap(d: nat)
    requires d < 29
    ensures DIST_BASE[d + 1] == DIST_BASE[d] + Pow2(DIST_EXTRA[d])
  {
    hide Pow2;
    Powers();
  }

  lemma {:induction false} DistTable(d: nat)
    requires d <= 29
    ensures DIST_EXTRA[d] == DistExtra(d) && DIST_BASE[d] == DistBase(d)
  {
    hide Pow2, DistExtra;
    DistExtraTable(d);
    if 0 < d {
      DistExtraTable(d - 1);
      DistGap(d - 1);
      DistTable(d - 1);
    }
  }

  // ---- commands ----

  // A byte, or a copy given by its two codes and the values of their extra bits.
  datatype Command = Byte(b: byte) | Copy(j: nat, lengthMore: nat, d: nat, distMore: nat)

  predicate CommandOk(c: Command, codes: CodePair) {
    match c
    case Byte(b) => b < |codes.lens| && codes.lens[b] > 0
    case Copy(j, lengthMore, d, distMore) =>
      && j <= 28 && 257 + j < |codes.lens| && codes.lens[257 + j] > 0 && lengthMore < Pow2(LengthExtra(j))
      && d <= 29 && d < |codes.distLens| && codes.distLens[d] > 0 && distMore < Pow2(DistExtra(d))
  }

  function CommandBits(c: Command, codes: CodePair): seq<bool>
    requires CommandOk(c, codes)
  {
    match c
    case Byte(b) => CodeBits(codes.lens, b)
    case Copy(j, lengthMore, d, distMore) =>
      CodeBits(codes.lens, 257 + j) + (NatBits(lengthMore, LengthExtra(j))
      + (CodeBits(codes.distLens, d) + NatBits(distMore, DistExtra(d))))
  }

  // What a command does to the bytes so far; a copy from before the start means nothing.
  function Done(c: Command, out: seq<byte>): Option<seq<byte>> {
    match c
    case Byte(b) => Some(out + [b])
    case Copy(j, lengthMore, d, distMore) =>
      if j > 28 || d > 29 then None
      else
        var dist, len := DistBase(d) + distMore, LengthBase(j) + lengthMore;
        if 1 <= dist <= |out| then Some(CopyBack(out, dist, len)) else None
  }

  function AllDone(cs: seq<Command>, out: seq<byte>): Option<seq<byte>> {
    if cs == [] then Some(out)
    else
      match Done(cs[0], out)
      case None => None
      case Some(more) => AllDone(cs[1..], more)
  }

  predicate CommandsOk(cs: seq<Command>, codes: CodePair) {
    && |codes.lens| > 256 && codes.lens[256] > 0
    && forall k :: 0 <= k < |cs| ==> CommandOk(cs[k], codes)
  }

  // The commands and the end-of-block symbol.
  function CommandsBits(cs: seq<Command>, codes: CodePair): seq<bool>
    requires CommandsOk(cs, codes)
  {
    if cs == [] then CodeBits(codes.lens, 256) else CommandBits(cs[0], codes) + CommandsBits(cs[1..], codes)
  }

  ghost predicate CodesUsable(codes: CodePair) {
    Usable(codes.lens) && Usable(codes.distLens)
  }

  // The parts of a copy as sent: the rest of its length, and its distance.
  lemma CopyParts(c: Command, codes: CodePair, x: seq<bool>) returns (middle: seq<bool>, tail: seq<bool>)
    requires CodesUsable(codes) && CommandOk(c, codes) && c.Copy?
    ensures CommandBits(c, codes) + x == CodeBits(codes.lens, 257 + c.j) + (middle + tail)
    ensures TakeLength(257 + c.j, middle + tail) == Some(Taken(LengthBase(c.j) + c.lengthMore, tail))
    ensures TakeDistance(codes.distLens, tail) == Some(Taken(DistBase(c.d) + c.distMore, x))
  {
    hide NatBits, TakeLength, TakeDistance, CodeBits, Usable, Pow2, LengthBase, DistBase, LengthExtra, DistExtra;
    LengthTable(c.j);
    DistTable(c.d);
    middle := NatBits(c.lengthMore, LengthExtra(c.j));
    var e, f := CodeBits(codes.distLens, c.d), NatBits(c.distMore, DistExtra(c.d));
    tail := e + (f + x);
    Regrouped(CodeBits(codes.lens, 257 + c.j), middle, e, f, x);
    LengthRead(c.j, c.lengthMore, tail);
    DistanceRead(codes.distLens, c.d, c.distMore, x);
  }

  lemma CopyRead(c: Command, codes: CodePair, out: seq<byte>, x: seq<bool>)
    requires CodesUsable(codes) && CommandOk(c, codes) && c.Copy? && Done(c, out).Some?
    ensures BlockStep(codes.lens, codes.distLens, CommandBits(c, codes) + x, out) == Some(Emit(Done(c, out).value, x))
  {
    hide CommandBits, TakeLength, TakeDistance, CodeBits, Usable, Pow2, CopyBack, BlockStep, LengthBase, DistBase;
    var middle, tail := CopyParts(c, codes, x);
    PartsRead(codes.lens, codes.distLens, 257 + c.j, middle, tail, LengthBase(c.j) + c.lengthMore,
              DistBase(c.d) + c.distMore, out, x);
  }

  lemma CommandRead(c: Command, codes: CodePair, out: seq<byte>, x: seq<bool>)
    requires CodesUsable(codes) && CommandOk(c, codes) && Done(c, out).Some?
    ensures BlockStep(codes.lens, codes.distLens, CommandBits(c, codes) + x, out) == Some(Emit(Done(c, out).value, x))
  {
    if c.Byte? {
      hide CodeBits, Accepts, TakeSymbol;
      SymbolRead(codes.lens, c.b, x);
    } else {
      CopyRead(c, codes, out, x);
    }
  }

  lemma {:induction false} CommandsRead(cs: seq<Command>, codes: CodePair, out: seq<byte>, x: seq<bool>)
    requires CodesUsable(codes) && CommandsOk(cs, codes) && AllDone(cs, out).Some?
    ensures InflateBlock(codes.lens, codes.distLens, CommandsBits(cs, codes) + x, out)
            == Some(Progress(AllDone(cs, out).value, x))
    decreases |cs|
  {
    hide CommandBits, CodeBits, Accepts, TakeSymbol, CommandOk, Done;
    if cs == [] {
      SymbolRead(codes.lens, 256, x);
    } else {
      var first, tail := CommandBits(cs[0], codes), CommandsBits(cs[1..], codes);
      assert (first + tail) + x == first + (tail + x);
      hide BlockStep;
      CommandRead(cs[0], codes, out, tail + x);
      CommandsRead(cs[1..], codes, Done(cs[0], out).value, x);
    }
  }

  lemma LengthWritten(j: nat, bits: seq<bool>) returns (more: nat)
    requires j <= 28 && TakeLength(257 + j, bits).Some?
    ensures more < Pow2(LengthExtra(j))
    ensures var t := TakeLength(257 + j, bits).value;
            t.value == LengthBase(j) + more && bits == NatBits(more, LengthExtra(j)) + t.rest
  {
    hide NatBits, Take, Pow2, LengthBase, LengthExtra;
    LengthTable(j);
    NumberWritten(bits, LengthExtra(j));
    more := Take(bits, LengthExtra(j)).value.value;
  }

  lemma DistanceWritten(distLens: seq<nat>, bits: seq<bool>) returns (d: nat, more: nat)
    requires Usable(distLens) && TakeDistance(distLens, bits).Some?
    ensures d <= 29 && d < |distLens| && distLens[d] > 0 && more < Pow2(DistExtra(d))
    ensures var t := TakeDistance(distLens, bits).value;
            t.value == DistBase(d) + more && bits == CodeBits(distLens, d) + (NatBits(more, DistExtra(d)) + t.rest)
  {
    hide NatBits, Take, TakeSymbol, CodeBits, Usable, Pow2, DistBase, DistExtra;
    SymbolWritten(distLens, bits);
    var t := TakeSymbol(distLens, bits).value;
    d := t.value;
    DistTable(d);
    NumberWritten(t.rest, DistExtra(d));
    more := Take(t.rest, DistExtra(d)).value.value;
  }

  lemma CopyWritten(codes: CodePair, sym: nat, bits: seq<bool>) returns (c: Command)
    requires CodesUsable(codes) && 257 <= sym < 286 && sym < |codes.lens| && codes.lens[sym] > 0
    requires TakeMatch(codes.distLens, sym, bits).Some?
    ensures c.Copy? && c.j == sym - 257 && CommandOk(c, codes)
    ensures var m := TakeMatch(codes.distLens, sym, bits).value;
            && CodeBits(codes.lens, sym) + bits == CommandBits(c, codes) + m.rest
            && m.value == BackRef(LengthBase(c.j) + c.lengthMore, DistBase(c.d) + c.distMore)
  {
    hide NatBits, TakeLength, TakeDistance, CodeBits, Usable, Pow2, LengthBase, DistBase, LengthExtra, DistExtra;
    var j := sym - 257;
    var lengthMore := LengthWritten(j, bits);
    var l := TakeLength(sym, bits).value;
    var d, distMore := DistanceWritten(codes.distLens, l.rest);
    var m := TakeDistance(codes.distLens, l.rest).value;
    c := Copy(j, lengthMore, d, distMore);
    Regrouped(CodeBits(codes.lens, sym), NatBits(lengthMore, LengthExtra(j)), CodeBits(codes.distLens, d),
              NatBits(distMore, DistExtra(d)), m.rest);
  }

  lemma CommandWritten(codes: CodePair, bits: seq<bool>, out: seq<byte>) returns (c: Command)
    requires CodesUsable(codes) && BlockStep(codes.lens, codes.distLens, bits, out).Some?
    requires BlockStep(codes.lens, codes.distLens, bits, out).value.Emit?
    ensures var t := BlockStep(codes.lens, codes.distLens, bits, out).value;
            CommandOk(c, codes) && Done(c, out) == Some(t.out) && bits == CommandBits(c, codes) + t.rest
  {
    hide CodeBits, Accepts, TakeSymbol, TakeMatch, CopyBack, LengthBase, DistBase, Pow2, NatBits;
    SymbolWritten(codes.lens, bits);
    var t := TakeSymbol(codes.lens, bits).value;
    if t.value < 256 {
      c := Byte(t.value);
    } else {
      c := CopyWritten(codes, t.value, t.rest);
    }
  }

  lemma EndWritten(codes: CodePair, bits: seq<bool>, out: seq<byte>)
    requires CodesUsable(codes) && BlockStep(codes.lens, codes.distLens, bits, out).Some?
    requires BlockStep(codes.lens, codes.distLens, bits, out).value.EndOfBlock?
    ensures |codes.lens| > 256 && codes.lens[256] > 0
    ensures bits == CodeBits(codes.lens, 256) + BlockStep(codes.lens, codes.distLens, bits, out).value.rest
  {
    hide CodeBits, Accepts, TakeSymbol, TakeMatch;
    SymbolWritten(codes.lens, bits);
  }

  lemma {:induction false} CommandsWritten(codes: CodePair, bits: seq<bool>, out: seq<byte>) returns (cs: seq<Command>)
    requires CodesUsable(codes) && InflateBlock(codes.lens, codes.distLens, bits, out).Some?
    ensures CommandsOk(cs, codes)
    ensures var t := InflateBlock(codes.lens, codes.distLens, bits, out).value;
            AllDone(cs, out) == Some(t.out) && bits == CommandsBits(cs, codes) + t.rest
    decreases |bits|
  {
    hide BlockStep, CommandOk, CommandBits, CodeBits, CodesUsable, Done;
    var step := BlockStep(codes.lens, codes.distLens, bits, out).value;
    if step.EndOfBlock? {
      EndWritten(codes, bits, out);
      cs := [];
    } else {
      var c := CommandWritten(codes, bits, out);
      var more := CommandsWritten(codes, step.rest, step.out);
      cs := [c] + more;
      assert cs[1..] == more;
    }
  }

  // ---- blocks ----

  // A stored block with the bits that fill up its byte, or commands in the fixed or in a described code.
  datatype Block =
    | Stored(fill: seq<bool>, data: seq<byte>)
    | Fixed(cs: seq<Command>)
    | Dynamic(h: Header, codes: CodePair, cs: seq<Command>)

  function FixedPair(): CodePair {
    CodePair(FixedLens(), FixedDistLens())
  }

  // After the fill bits of a stored block only whole bytes are left; left is how many bits follow the block.
  ghost predicate BlockOk(b: Block, left: nat) {
    match b
    case Stored(fill, data) => |fill| < 8 && |data| <= 0xFFFF && left % 8 == 0
    case Fixed(cs) => CommandsOk(cs, FixedPair())
    case Dynamic(h, codes, cs) =>
      Describes(h, codes.lens, codes.distLens) && CodesUsable(codes) && CommandsOk(cs, codes)
  }

  function BlockKind(b: Block): nat {
    match b
    case Stored(_, _) => 0
    case Fixed(_) => 1
    case Dynamic(_, _, _) => 2
  }

  ghost function BlockBits(b: Block, left: nat): seq<bool>
    requires BlockOk(b, left)
  {
    match b
    case Stored(fill, data) =>
      fill + (NatBits(|data|, 16) + (NatBits(0xFFFF - |data|, 16) + BytesBits(data)))
    case Fixed(cs) => CommandsBits(cs, FixedPair())
    case Dynamic(h, codes, cs) => DescriptionBits(h, |codes.lens|, |codes.distLens|) + CommandsBits(cs, codes)
  }

  function BlockDone(b: Block, out: seq<byte>): Option<seq<byte>> {
    match b
    case Stored(_, data) => Some(out + data)
    case Fixed(cs) => AllDone(cs, out)
    case Dynamic(_, _, cs) => AllDone(cs, out)
  }

  lemma FourBack(l: seq<bool>, n: seq<bool>, d: seq<bool>, x: seq<bool>)
    requires |l| == 16 && |n| == 16
    ensures var b := l + (n + (d + x));
            b[..16] == l && b[16..32] == n && b[32..32 + |d|] == d && b[32 + |d|..] == x
  {
  }

  // The two words of a stored block agree on this length.
  ghost predicate LengthWords(l: seq<bool>, n: seq<bool>, len: nat) {
    |l| == 16 && |n| == 16 && BitsNat(l) == len && BitsNat(n) + len == 0xFFFF
  }

  lemma StoredAt(bits: seq<bool>, w: seq<bool>, d: seq<bool>, len: nat, x: seq<bool>, out: seq<byte>)
    requires |d| % 8 == 0 && w == bits[|bits| % 8..] && |w| == 32 + |d| + |x| && |d| == 8 * len
    requires LengthWords(w[..16], w[16..32], len) && w[32..32 + |d|] == d && w[32 + |d|..] == x
    ensures StoredBlock(bits, out) == Some(Progress(out + BitsBytes(d), x))
  {
    hide BitsNat, BitsBytes, Pow2;
  }

  lemma SkipFill(fill: seq<bool>, w: seq<bool>)
    requires |fill| < 8 && |w| % 8 == 0
    ensures (fill + w)[|fill + w| % 8..] == w
  {
    assert |fill + w| % 8 == |fill|;
  }

  lemma StoredMeans(fill: seq<bool>, l: seq<bool>, n: seq<bool>, d: seq<bool>, len: nat, x: seq<bool>, out: seq<byte>)
    requires |d| % 8 == 0 && |fill| < 8 && |x| % 8 == 0 && LengthWords(l, n, len) && |d| == 8 * len
    ensures StoredBlock(fill + (l + (n + (d + x))), out) == Some(Progress(out + BitsBytes(d), x))
  {
    hide BitsNat, BitsBytes, Pow2, StoredBlock;
    var w := l + (n + (d + x));
    FourBack(l, n, d, x);
    SkipFill(fill, w);
    hide LengthWords;
    StoredAt(fill + w, w, d, len, x, out);
  }

  lemma WordRead(v: nat)
    requires v <= 0xFFFF
    ensures BitsNat(NatBits(v, 16)) == v
  {
    hide Pow2, NatBits, BitsNat;
    Pow2Values();
    BitsNatOfNatBits(v, 16);
    LowOfSmall(v, 16);
  }

  lemma StoredRead(fill: seq<bool>, data: seq<byte>, out: seq<byte>, x: seq<bool>)
    requires BlockOk(Stored(fill, data), |x|)
    ensures StoredBlock(BlockBits(Stored(fill, data), |x|) + x, out) == Some(Progress(out + data, x))
  {
    hide NatBits, BitsNat, BytesBits, BitsBytes, Pow2, StoredBlock;
    var l, n, d := NatBits(|data|, 16), NatBits(0xFFFF - |data|, 16), BytesBits(data);
    WordRead(|data|);
    WordRead(0xFFFF - |data|);
    BitsBytesOfBytesBits(data);
    Regrouped(fill, l, n, d, x);
    StoredMeans(fill, l, n, d, |data|, x, out);
  }

  lemma FixedPairUsable()
    ensures CodesUsable(FixedPair())
  {
    FixedUsable();
    DistUsable();
  }

  lemma BlockRead(b: Block, out: seq<byte>, x: seq<bool>)
    requires BlockOk(b, |x|) && BlockDone(b, out).Some?
    ensures OneBlock(BlockKind(b), BlockBits(b, |x|) + x, out) == Some(Progress(BlockDone(b, out).value, x))
  {
    hide StoredBlock, DynamicLengths, InflateBlock, DescriptionBits, CommandsBits, CommandsOk, AllDone, HeaderOk, Usable,
      FixedLens, FixedDistLens, AllExtended;
    match b {
      case Stored(fill, data) =>
        StoredRead(fill, data, out, x);
      case Fixed(cs) =>
        FixedPairUsable();
        CommandsRead(cs, FixedPair(), out, x);
      case Dynamic(h, codes, cs) =>
        var header, body := DescriptionBits(h, |codes.lens|, |codes.distLens|), CommandsBits(cs, codes);
        assert (header + body) + x == header + (body + x);
        HeaderRoundTrip(h, codes.lens, codes.distLens, body + x);
        CommandsRead(cs, codes, out, x);
    }
  }

  lemma {:induction false} BytesOfBits(b: seq<bool>)
    requires |b| % 8 == 0
    ensures BytesBits(BitsBytes(b)) == b
  {
    if b != [] {
      BytesOfBits(b[8..]);
      NatBitsOfBitsNat(b[..8]);
      BytesBitsCons(BitsNat(b[..8]), BitsBytes(b[8..]));
      assert b == b[..8] + b[8..];
    }
  }

  lemma FourCut(w: seq<bool>, n: nat)
    requires 32 + n <= |w|
    ensures w == w[..16] + (w[16..32] + (w[32..32 + n] + w[32 + n..]))
  {
  }

  lemma StoredAccepted(bits: seq<bool>, out: seq<byte>)
    requires StoredBlock(bits, out).Some?
    ensures var w := bits[|bits| % 8..];
            |w| >= 32 && 8 * BitsNat(w[..16]) <= |w| - 32 && LengthWords(w[..16], w[16..32], BitsNat(w[..16]))
  {
    hide BitsNat, BitsBytes, Pow2;
  }

  // The parts of a stored block that was accepted.
  lemma StoredParts(bits: seq<bool>, out: seq<byte>)
    returns (fill: seq<bool>, l: seq<bool>, n: seq<bool>, d: seq<bool>, len: nat, rest: seq<bool>)
    requires StoredBlock(bits, out).Some?
    ensures bits == fill + (l + (n + (d + rest))) && |fill| < 8 && |rest| % 8 == 0
    ensures |d| % 8 == 0 && LengthWords(l, n, len) && |d| == 8 * len
    ensures StoredBlock(bits, out) == Some(Progress(out + BitsBytes(d), rest))
  {
    hide BitsNat, BitsBytes, Pow2, StoredBlock, LengthWords;
    StoredAccepted(bits, out);
    var k := |bits| % 8;
    var w := bits[k..];
    len := BitsNat(w[..16]);
    fill, l, n, d, rest := bits[..k], w[..16], w[16..32], w[32..32 + 8 * len], w[32 + 8 * len..];
    FourCut(w, 8 * len);
    FillFirst(bits, k);
    StoredAt(bits, w, d, len, rest, out);
  }

  lemma StoredWritten(bits: seq<bool>, out: seq<byte>) returns (b: Block)
    requires StoredBlock(bits, out).Some?
    ensures var t := StoredBlock(bits, out).value;
            && b.Stored? && BlockOk(b, |t.rest|) && BlockDone(b, out) == Some(t.out)
            && bits == BlockBits(b, |t.rest|) + t.rest
  {
    hide NatBits, BitsNat, BytesBits, BitsBytes, Pow2, StoredBlock;
    var fill, l, n, d, len, rest := StoredParts(bits, out);
    NatBitsOfBitsNat(l);
    NatBitsOfBitsNat(n);
    BytesOfBits(d);
    b := Stored(fill, BitsBytes(d));
    Regrouped(fill, l, n, d, rest);
  }

  lemma FillFirst(bits: seq<bool>, k: nat)
    requires k <= |bits|
    ensures bits == bits[..k] + bits[k..]
  {
  }

  lemma Regrouped(a: seq<bool>, b: seq<bool>, c: seq<bool>, d: seq<bool>, x: seq<bool>)
    ensures (a + (b + (c + d))) + x == a + (b + (c + (d + x)))
  {
  }

  lemma BlockWritten(kind: nat, bits: seq<bool>, out: seq<byte>) returns (b: Block)
    requires OneBlock(kind, bits, out).Some?
    ensures var t := OneBlock(kind, bits, out).value;
            && BlockKind(b) == kind && BlockOk(b, |t.rest|) && BlockDone(b, out) == Some(t.out)
            && bits == BlockBits(b, |t.rest|) + t.rest
  {
    hide StoredBlock, DynamicLengths, InflateBlock, DescriptionBits, CommandsBits, CommandsOk, AllDone, HeaderOk, Usable,
      FixedLens, FixedDistLens, AllExtended;
    if kind == 0 {
      b := StoredWritten(bits, out);
    } else if kind == 1 {
      FixedPairUsable();
      var cs := CommandsWritten(FixedPair(), bits, out);
      b := Fixed(cs);
    } else {
      var d := DynamicLengths(bits).value;
      var h := HeaderWritten(bits);
      var cs := CommandsWritten(d.value, d.rest, out);
      b := Dynamic(h, d.value, cs);
      var t := InflateBlock(d.value.lens, d.value.distLens, d.rest, out).value;
      var header, body := DescriptionBits(h, |d.value.lens|, |d.value.distLens|), CommandsBits(cs, d.value);
      assert (header + body) + t.rest == header + (body + t.rest);
    }
  }

  // ---- streams ----

  // At least one block; the last one, and no other, is marked final. x is what follows the stream.
  ghost predicate StreamOk(bs: seq<Block>, x: seq<bool>)
    decreases |bs|, 0
  {
    && bs != []
    && (|bs| > 1 ==> StreamOk(bs[1..], x))
    && BlockOk(bs[0], if |bs| > 1 then |StreamBits(bs[1..], x)| else |x|)
  }

  // The bits of a stream and what follows it.
  ghost function StreamBits(bs: seq<Block>, x: seq<bool>): seq<bool>
    requires StreamOk(bs, x)
    decreases |bs|, 1
  {
    var rest := if |bs| > 1 then StreamBits(bs[1..], x) else x;
    [|bs| == 1] + (NatBits(BlockKind(bs[0]), 2) + (BlockBits(bs[0], |rest|) + rest))
  }

  function StreamDone(bs: seq<Block>, out: seq<byte>): Option<seq<byte>> {
    if bs == [] then Some(out)
    else
      match BlockDone(bs[0], out)
      case None => None
      case Some(more) => StreamDone(bs[1..], more)
  }

  lemma KindBits(final: bool, kind: nat, y: seq<bool>)
    requires kind <= 2
    ensures var bits := [final] + (NatBits(kind, 2) + y);
            |bits| >= 3 && bits[0] == final && BitsNat(bits[1..3]) == kind && bits[3..] == y
  {
    var bits := [final] + (NatBits(kind, 2) + y);
    Pow2Values();
    BitsNatOfNatBits(kind, 2);
    LowOfSmall(kind, 2);
    assert bits[1..3] == NatBits(kind, 2);
  }

  lemma {:induction false} StreamRead(bs: seq<Block>, out: seq<byte>, x: seq<bool>)
    requires StreamOk(bs, x) && StreamDone(bs, out).Some?
    ensures InflateBlocks(StreamBits(bs, x), out) == Some(Progress(StreamDone(bs, out).value, x))
    decreases |bs|
  {
    hide OneBlock, BlockOk, BlockBits, NatBits, BitsNat, BlockDone;
    var rest := if |bs| > 1 then StreamBits(bs[1..], x) else x;
    KindBits(|bs| == 1, BlockKind(bs[0]), BlockBits(bs[0], |rest|) + rest);
    BlockRead(bs[0], out, rest);
    if |bs| > 1 {
      StreamRead(bs[1..], BlockDone(bs[0], out).value, x);
    }
  }

  lemma KindWritten(bits: seq<bool>)
    requires |bits| >= 3
    ensures bits == [bits[0]] + (NatBits(BitsNat(bits[1..3]), 2) + bits[3..])
  {
    NatBitsOfBitsNat(bits[1..3]);
  }

  lemma {:induction false} StreamWritten(bits: seq<bool>, out: seq<byte>) returns (bs: seq<Block>)
    requires InflateBlocks(bits, out).Some?
    ensures var t := InflateBlocks(bits, out).value;
            StreamOk(bs, t.rest) && StreamDone(bs, out) == Some(t.out) && bits == StreamBits(bs, t.rest)
    decreases |bits|
  {
    hide OneBlock, BlockOk, BlockBits, NatBits, BitsNat, BlockDone;
    KindWritten(bits);
    var kind := BitsNat(bits[1..3]);
    var p := OneBlock(kind, bits[3..], out).value;
    var b := BlockWritten(kind, bits[3..], out);
    if bits[0] {
      bs := [b];
    } else {
      var more := StreamWritten(p.rest, p.out);
      bs := [b] + more;
      assert bs[1..] == more;
    }
  }

  ghost predicate Encodes(bs: seq<Block>, bits: seq<bool>, out: seq<byte>, x: seq<bool>) {
    StreamOk(bs, x) && bits == StreamBits(bs, x) && StreamDone(bs, []) == Some(out)
  }

  /** What the reader makes of a bit string: the bytes come out and the rest is left exactly when the bit string is a
      stream of stored, fixed and dynamic blocks that stands for these bytes, followed by that rest. */
  lemma StreamReadIff(bits: seq<bool>, out: seq<byte>, x: seq<bool>)
    ensures InflateBlocks(bits, []) == Some(Progress(out, x)) <==> exists bs :: Encodes(bs, bits, out, x)
  {
    hide InflateBlocks, StreamOk, StreamBits, StreamDone;
    if InflateBlocks(bits, []) == Some(Progress(out, x)) {
      var bs := StreamWritten(bits, []);
      assert Encodes(bs, bits, out, x);
    }
    if exists bs :: Encodes(bs, bits, out, x) {
      var bs :| Encodes(bs, bits, out, x);
      StreamRead(bs, [], x);
    }
  }
}
