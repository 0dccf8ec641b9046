/** The reader accepts no other files than those that are put together from a header, pieces and an end: whatever the
    chunk loop of stbi__parse_png_file finishes with can be read off the file's own bytes. */
module PngScan {
  import opened Arithmetic
  import opened Bits
  import opened CanonicalCode
  import opened PngFile

  // ---- nothing is found at the end of the buffer ----

  lemma NothingLeft(bytes: seq<byte>, pos: nat, st: State)
    requires pos >= |bytes|
    ensures ScanFrom(bytes, pos, st) == Refused
  {
    assert U32(bytes, pos) == 0 && Advance(bytes, pos, 4) == pos;
  }

  // A turn that starts too near to the end leaves nothing for the next.
  lemma TurnNearEnd(bytes: seq<byte>, pos: nat, st: State)
    requires pos + 8 > |bytes| && ChunkStep(bytes, pos, st).More?
    ensures ChunkStep(bytes, pos, st).pos >= |bytes|
  {
    hide U32;
  }

  lemma EndHasBytes(bytes: seq<byte>, pos: nat)
    requires U32(bytes, Advance(bytes, pos, 4)) == TYPE_IEND
    ensures pos + 8 <= |bytes| && EndMark(bytes[pos..])
  {
    var p := Advance(bytes, pos, 4);
    BytesOfNumber(ByteAt(bytes, p), ByteAt(bytes, p + 1), ByteAt(bytes, p + 2), ByteAt(bytes, p + 3));
    assert Be32(TYPE_IEND) == IEND;
    assert ByteAt(bytes, p + 3) == 0x44 && ByteAt(bytes, p) == 0x49 && ByteAt(bytes, p + 1) == 0x45
           && ByteAt(bytes, p + 2) == 0x4E;
    var t := bytes[pos..];
    assert t[4..8] == [t[4], t[5], t[6], t[7]];
  }

  // Reading and writing a big-endian number, the other way round.
  lemma BytesOfNumber(a: byte, b: byte, c: byte, d: byte)
    ensures Be32(FromBe(a, b, c, d)) == [a, b, c, d]
  {
    var w: int, x: int, y: int, z: int := a, b, c, d;
    var v := FromBe(a, b, c, d);
    DivUnique(v, 0x100, 0x1_0000 * w + 0x100 * x + y, z);
    DivUnique(v, 0x1_0000, 0x100 * w + x, 0x100 * y + z);
    DivUnique(v, 0x100_0000, w, 0x1_0000 * x + 0x100 * y + z);
  }

  // ---- a turn that goes on to something has a whole chunk ----

  lemma FinishedInside(bytes: seq<byte>, pos: nat, st: State)
    requires ScanFrom(bytes, pos, st).Finished?
    ensures pos + 8 <= |bytes|
  {
    hide ChunkStep, U32, Advance;
    StepAdvances(bytes, pos, st);
    if pos + 8 > |bytes| {
      var r := ChunkStep(bytes, pos, st);
      if r.More? {
        TurnNearEnd(bytes, pos, st);
        NothingLeft(bytes, r.pos, r.st);
      } else {
        FinishedAtEnd(bytes, pos, st);
        EndHasBytes(bytes, pos);
      }
    }
  }

  lemma FinishedAtEnd(bytes: seq<byte>, pos: nat, st: State)
    requires ChunkStep(bytes, pos, st).Finished?
    ensures U32(bytes, Advance(bytes, pos, 4)) == TYPE_IEND && ChunkStep(bytes, pos, st).st == st && st.idata.Some?
  {
    hide U32;
  }

  // The chunk at a place: its length, its four type bytes, its data and its check value.
  lemma ChunkThere(bytes: seq<byte>, pos: nat, length: nat)
    requires length == U32(bytes, pos) && pos + 12 + length <= |bytes|
    ensures Advance(bytes, pos, 4) == pos + 4 && Advance(bytes, pos, 8) == pos + 8
    ensures var tag, data, crc := bytes[pos + 4..pos + 8], bytes[pos + 8..pos + 8 + length],
                                  bytes[pos + 8 + length..pos + 12 + length];
            && U32(bytes, pos + 4) == FromBe(tag[0], tag[1], tag[2], tag[3])
            && bytes[pos..] == Chunk(tag, data, crc) + bytes[pos + 12 + length..]
  {
    hide FromBe;
    BytesOfNumber(bytes[pos], bytes[pos + 1], bytes[pos + 2], bytes[pos + 3]);
    var t := bytes[pos..];
    assert t[..4] == [t[0], t[1], t[2], t[3]];
    hide Be32;
    FiveParts(bytes, pos, length);
  }

  lemma FiveParts(bytes: seq<byte>, pos: nat, length: nat)
    requires pos + 12 + length <= |bytes|
    ensures bytes[pos..] == bytes[pos..][..4] + bytes[pos + 4..pos + 8] + bytes[pos + 8..pos + 8 + length]
                            + bytes[pos + 8 + length..pos + 12 + length] + bytes[pos + 12 + length..]
  {
  }

  // Where a data or ancillary chunk ends, when the scan finishes later.
  lemma TurnInside(bytes: seq<byte>, pos: nat, st: State)
    requires !st.first && ScanFrom(bytes, pos, st).Finished? && ChunkStep(bytes, pos, st).More?
    ensures var length := U32(bytes, pos);
            pos + 12 + length <= |bytes| && ChunkStep(bytes, pos, st).pos == pos + 12 + length
    ensures U32(bytes, pos + 4) == TYPE_IDAT || U32(bytes, pos) < 0x8000_0000
  {
    hide U32;
    StepAdvances(bytes, pos, st);
    var r := ChunkStep(bytes, pos, st);
    FinishedInside(bytes, pos, st);
    FinishedInside(bytes, r.pos, r.st);
    assert Advance(bytes, pos, 4) == pos + 4 && Advance(bytes, pos, 8) == pos + 8;
  }

  // The piece found by a turn.
  lemma PieceThere(bytes: seq<byte>, pos: nat, st: State) returns (p: Piece)
    requires !st.first && ScanFrom(bytes, pos, st).Finished? && ChunkStep(bytes, pos, st).More?
    ensures PieceOk(p) && pos + 12 + |p.bytes| <= |bytes|
    ensures bytes[pos..] == PieceBytes(p) + bytes[pos + 12 + |p.bytes|..]
    ensures ChunkStep(bytes, pos, st).pos == pos + 12 + |p.bytes|
    ensures p.Data? ==> |p.bytes| <= 0x4000_0000 && |Sofar(st)| + |p.bytes| <= 0x7FFF_FFFF
    ensures ChunkStep(bytes, pos, st).st == if p.Data? then st.(idata := Some(Sofar(st) + p.bytes)) else st
  {
    hide ChunkStep, ScanFrom, U32, Advance, FromBe, Chunk;
    var length := U32(bytes, pos);
    TurnInside(bytes, pos, st);
    ChunkThere(bytes, pos, length);
    var tag, data, crc := bytes[pos + 4..pos + 8], bytes[pos + 8..pos + 8 + length],
                          bytes[pos + 8 + length..pos + 12 + length];
    var kind := U32(bytes, pos + 4);
    BytesOfNumber(tag[0], tag[1], tag[2], tag[3]);
    assert tag == [tag[0], tag[1], tag[2], tag[3]];
    TurnKind(bytes, pos, st);
    if kind == TYPE_IDAT {
      DataTag();
      p := Data(data, crc);
      DataTaken(bytes, pos, st, data);
    } else {
      p := Other(tag, data, crc);
      OtherTag(tag);
      OtherSkipped(bytes, pos, st);
    }
  }

  lemma DataTag()
    ensures Be32(TYPE_IDAT) == IDAT
  {
  }

  lemma TurnKind(bytes: seq<byte>, pos: nat, st: State)
    requires !st.first && Advance(bytes, pos, 4) == pos + 4 && ChunkStep(bytes, pos, st).More?
    ensures var kind := U32(bytes, pos + 4);
            kind == TYPE_IDAT || (kind / 0x2000_0000 % 2 == 1 && kind != TYPE_TRNS)
  {
    hide U32;
  }

  lemma DataTaken(bytes: seq<byte>, pos: nat, st: State, data: seq<byte>)
    requires !st.first && Advance(bytes, pos, 4) == pos + 4 && Advance(bytes, pos, 8) == pos + 8
    requires U32(bytes, pos + 4) == TYPE_IDAT && ChunkStep(bytes, pos, st).More? && |data| == U32(bytes, pos)
    requires pos + 8 + |data| <= |bytes| && data == bytes[pos + 8..pos + 8 + |data|]
    ensures |data| <= 0x4000_0000 && |Sofar(st)| + |data| <= 0x7FFF_FFFF
    ensures ChunkStep(bytes, pos, st).st == st.(idata := Some(Sofar(st) + data))
  {
    hide U32;
  }

  lemma OtherSkipped(bytes: seq<byte>, pos: nat, st: State)
    requires !st.first && Advance(bytes, pos, 4) == pos + 4 && ChunkStep(bytes, pos, st).More?
    requires U32(bytes, pos + 4) != TYPE_IDAT
    ensures ChunkStep(bytes, pos, st).st == st
  {
    hide U32;
  }

  lemma OtherTag(tag: seq<byte>)
    requires |tag| == 4
    requires var kind := FromBe(tag[0], tag[1], tag[2], tag[3]); kind / 0x2000_0000 % 2 == 1 && kind != TYPE_TRNS
    ensures tag[0] / 32 % 2 == 1 && tag != [0x74, 0x52, 0x4E, 0x53]
  {
    var w: int, x: int, y: int, z: int := tag[0], tag[1], tag[2], tag[3];
    assert (w * 0x100_0000 + x * 0x1_0000 + y * 0x100 + z) / 0x2000_0000 == w / 32;
  }

  lemma {:induction false} PiecesThere(bytes: seq<byte>, pos: nat, st: State) returns (ps: seq<Piece>, tail: seq<byte>)
    requires !st.first && ScanFrom(bytes, pos, st).Finished?
    ensures PiecesOk(ps) && EndMark(tail) && pos <= |bytes| && bytes[pos..] == PiecesBytes(ps) + tail
    decreases Left(bytes, pos)
  {
    hide ChunkStep, U32, Advance, PieceBytes, EndMark, Left;
    StepAdvances(bytes, pos, st);
    var r := ChunkStep(bytes, pos, st);
    if r.More? {
      var p := PieceThere(bytes, pos, st);
      var rest;
      rest, tail := PiecesThere(bytes, r.pos, r.st);
      ps := [p] + rest;
      assert ps[1..] == rest;
      assert bytes[pos..] == PieceBytes(p) + (PiecesBytes(rest) + tail);
    } else {
      FinishedAtEnd(bytes, pos, st);
      EndHasBytes(bytes, pos);
      ps, tail := [], bytes[pos..];
      assert [] + tail == tail;
    }
  }

  // ---- the header ----

  lemma HeaderThere(bytes: seq<byte>)
    requires ScanFrom(bytes, 8, START).Finished?
    ensures |bytes| >= 33 && U32(bytes, 8) == 13 && U32(bytes, 12) == TYPE_IHDR
    ensures HeaderChunk(bytes, 16, 13, START).More? && ChunkStep(bytes, 8, START).More?
    ensures ChunkStep(bytes, 8, START) == More(33, HeaderChunk(bytes, 16, 13, START).st)
  {
    hide U32, ByteAt;
    FinishedInside(bytes, 8, START);
    StepAdvances(bytes, 8, START);
    var r := ChunkStep(bytes, 8, START);
    FirstIsHeader(bytes);
    if r.More? {
      FinishedInside(bytes, r.pos, r.st);
    }
  }

  lemma FirstIsHeader(bytes: seq<byte>)
    requires |bytes| >= 16 && (ChunkStep(bytes, 8, START).More? || ChunkStep(bytes, 8, START).Finished?)
    ensures U32(bytes, 8) == 13 && U32(bytes, 12) == TYPE_IHDR && HeaderChunk(bytes, 16, 13, START).More?
    ensures ChunkStep(bytes, 8, START)
            == More(Advance(bytes, Advance(bytes, 16, 13), 4), HeaderChunk(bytes, 16, 13, START).st)
  {
    hide U32, ByteAt;
  }

  // The header's bytes say its size and channels.
  lemma HeaderSays(bytes: seq<byte>, st: State)
    requires |bytes| >= 29 && HeaderChunk(bytes, 16, 13, START).More? && st == HeaderChunk(bytes, 16, 13, START).st
    ensures st == State(false, st.x, st.y, st.n, None) && WithinLimits(st.x, st.y, st.n)
    ensures bytes[16..29] == HeaderData(st.x, st.y, st.n)
  {
    hide FromBe, Be32;
    BytesOfNumber(bytes[16], bytes[17], bytes[18], bytes[19]);
    BytesOfNumber(bytes[20], bytes[21], bytes[22], bytes[23]);
    ColourOf(bytes[25], st.n);
    var h := bytes[16..29];
    assert h == [h[0], h[1], h[2], h[3]] + [h[4], h[5], h[6], h[7]] + [h[8], h[9], h[10], h[11], h[12]];
  }

  lemma ColourOf(color: byte, n: nat)
    requires color <= 6 && color != 3 && color % 2 == 0
    requires n == (if color / 2 % 2 == 1 then 3 else 1) + (if color / 4 % 2 == 1 then 1 else 0)
    ensures 1 <= n <= 4 && CTYPE[n] == color
  {
  }

  // ---- the whole file ----

  ghost predicate MadeOf(f: seq<byte>, ps: seq<Piece>, header: seq<byte>, tail: seq<byte>, st: State) {
    && 1 <= st.n <= 4 && WithinLimits(st.x, st.y, st.n) && PiecesOk(ps) && |header| == 4 && EndMark(tail)
    && SomeData(ps) && DataFits(ps, 0) && st == State(false, st.x, st.y, st.n, Some(Joined(ps)))
    && f == PiecesFile(st.x, st.y, st.n, ps, header, tail)
  }

  lemma FileThere(f: seq<byte>) returns (ps: seq<Piece>, header: seq<byte>, tail: seq<byte>)
    requires ScanFile(f).Finished?
    ensures MadeOf(f, ps, header, tail, ScanFile(f).st)
  {
    hide U32, HeaderChunk, ChunkStep, PiecesOk, PiecesBytes, EndMark, FromBe, Be32, HeaderData, SomeData, DataFits,
      Joined, WithinLimits;
    SignatureThere(f);
    HeaderThere(f);
    StepAdvances(f, 8, START);
    var st := HeaderChunk(f, 16, 13, START).st;
    HeaderSays(f, st);
    ps, tail := PiecesThere(f, 33, st);
    header := f[29..33];
    ChunkThere(f, 8, 13);
    assert Be32(TYPE_IHDR) == IHDR by {
      HeaderTag();
    }
    BytesOfNumber(f[12], f[13], f[14], f[15]);
    assert f[12..16] == [f[12], f[13], f[14], f[15]];
    ChannelsOf(st);
    assert f == f[..8] + f[8..];
    assert f == PiecesFile(st.x, st.y, st.n, ps, header, tail);
    PiecesRead(st.x, st.y, st.n, ps, header, tail);
  }

  lemma HeaderTag()
    ensures Be32(TYPE_IHDR) == IHDR
  {
  }

  lemma ChannelsOf(st: State)
    requires WithinLimits(st.x, st.y, st.n)
    ensures 1 <= st.n <= 4 && 1 <= st.x < 0x1_0000_0000 && 1 <= st.y < 0x1_0000_0000
  {
  }

  lemma SignatureThere(f: seq<byte>)
    requires ScanFile(f).Finished?
    ensures |f| >= 8 && f[..8] == SIGNATURE && ScanFile(f) == ScanFrom(f, 8, START)
  {
    hide ScanFrom;
    assert forall i :: 0 <= i < 8 ==> ByteAt(f, i) == PNG_SIG[i];
    assert ByteAt(f, 7) == 10;
  }

  /** The scan of a file finishes with a size, a number of channels and data exactly when the file is the signature, the
      header of that size and those channels, pieces whose data joined in order is that data, and an end, all within the
      reader's limits. */
  lemma ScanIff(f: seq<byte>, st: State)
    ensures ScanFile(f) == Finished(st) <==> exists ps, header, tail :: MadeOf(f, ps, header, tail, st)
  {
    if ScanFile(f) == Finished(st) {
      hide ScanFile, MadeOf;
      var ps, header, tail := FileThere(f);
      assert MadeOf(f, ps, header, tail, st);
    }
    if exists ps, header, tail :: MadeOf(f, ps, header, tail, st) {
      hide ScanFile, PiecesFile, PiecesOk, EndMark, SomeData, DataFits, Joined, WithinLimits;
      var ps, header, tail :| MadeOf(f, ps, header, tail, st);
      ChannelsOf(st);
      PiecesRead(st.x, st.y, st.n, ps, header, tail);
    }
  }
}
