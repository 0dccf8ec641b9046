/** The PNG file around the image: stbi_write_png_to_mem's chunks and stbi__parse_png_file. */
module PngFile {
  import opened Bits
  import opened CanonicalCode

  // The writer's signature, and the reader's.
  const SIGNATURE: seq<byte> := [137, 80, 78, 71, 13, 10, 26, 10]
  const PNG_SIG: seq<byte> := [137, 80, 78, 71, 13, 10, 26, 10]
  const IHDR: seq<byte> := [0x49, 0x48, 0x44, 0x52]
  const IDAT: seq<byte> := [0x49, 0x44, 0x41, 0x54]
  const IEND: seq<byte> := [0x49, 0x45, 0x4E, 0x44]

  const TYPE_CGBI: nat := 0x4367_4249
  const TYPE_IHDR: nat := 0x4948_4452
  const TYPE_PLTE: nat := 0x504C_5445
  const TYPE_TRNS: nat := 0x7452_4E53
  const TYPE_IDAT: nat := 0x4944_4154
  const TYPE_IEND: nat := 0x4945_4E44

  const MAX_DIMENSIONS: nat := 0x100_0000
  // Colour types for 1 to 4 channels.
  const CTYPE: seq<byte> := [0, 0, 4, 2, 6]

  // stbiw__wp32
  function Be32(v: nat): (r: seq<byte>)
    requires v < 0x1_0000_0000
    ensures |r| == 4
  {
    [v / 0x100_0000, v / 0x1_0000 % 256, v / 0x100 % 256, v % 256]
  }

  function FromBe(a: byte, b: byte, c: byte, d: byte): (v: nat)
    ensures v < 0x1_0000_0000
  {
    var w: int, x: int, y: int, z: int := a, b, c, d;
    w * 0x100_0000 + x * 0x1_0000 + y * 0x100 + z
  }

  lemma BeRoundTrip(v: nat)
    requires v < 0x1_0000_0000
    ensures FromBe(Be32(v)[0], Be32(v)[1], Be32(v)[2], Be32(v)[3]) == v
  {
    var p, q, r := v / 0x100, v / 0x1_0000, v / 0x100_0000;
    assert v == 0x100 * p + v % 0x100;
    assert p == 0x100 * q + p % 0x100;
    assert q == 0x100 * r + q % 0x100;
  }

  function Chunk(tag: seq<byte>, data: seq<byte>, crc: seq<byte>): seq<byte>
    requires |data| < 0x1_0000_0000
  {
    Be32(|data|) + tag + data + crc
  }

  function HeaderData(x: nat, y: nat, n: nat): (r: seq<byte>)
    requires x < 0x1_0000_0000 && y < 0x1_0000_0000 && 1 <= n <= 4
    ensures |r| == 13
  {
    Be32(x) + Be32(y) + [8, CTYPE[n], 0, 0, 0]
  }

  datatype Crcs = Crcs(header: seq<byte>, data: seq<byte>, end: seq<byte>)

  // The file that stbi_write_png_to_mem builds around the compressed rows.
  function File(x: nat, y: nat, n: nat, zlib: seq<byte>, crcs: Crcs): seq<byte>
    requires x < 0x1_0000_0000 && y < 0x1_0000_0000 && 1 <= n <= 4 && |zlib| < 0x1_0000_0000
  {
    SIGNATURE + Chunk(IHDR, HeaderData(x, y, n), crcs.header) + Chunk(IDAT, zlib, crcs.data)
    + Chunk(IEND, [], crcs.end)
  }

  // ---- reading: past the end of the buffer every byte is zero ----

  function ByteAt(bytes: seq<byte>, pos: nat): byte {
    if pos < |bytes| then bytes[pos] else 0
  }

  function Advance(bytes: seq<byte>, pos: nat, n: nat): nat {
    if pos >= |bytes| then pos else if pos + n <= |bytes| then pos + n else |bytes|
  }

  function U32(bytes: seq<byte>, pos: nat): (v: nat)
    ensures v < 0x1_0000_0000
  {
    FromBe(ByteAt(bytes, pos), ByteAt(bytes, pos + 1), ByteAt(bytes, pos + 2), ByteAt(bytes, pos + 3))
  }

  // stbi__skip; a length of 2^31 or more is negative as an int
  function Skip(bytes: seq<byte>, pos: nat, n: nat): nat {
    if n >= 0x8000_0000 then |bytes| else pos + n
  }

  datatype State = State(first: bool, x: nat, y: nat, n: nat, idata: Option<seq<byte>>)

  datatype Scan = Refused | OutsideModel | Finished(st: State) | More(pos: nat, st: State)

  // IHDR, up to and including the limits on the size; only 8-bit images without palette and
  // interlacing are followed further.
  function HeaderChunk(bytes: seq<byte>, pos: nat, length: nat, st: State): Scan {
    if !st.first then Refused
    else if length != 13 then Refused
    else
      var x, y := U32(bytes, pos), U32(bytes, pos + 4);
      var depth, color := ByteAt(bytes, pos + 8), ByteAt(bytes, pos + 9);
      var comp, filter, interlace := ByteAt(bytes, pos + 10), ByteAt(bytes, pos + 11), ByteAt(bytes, pos + 12);
      if y > MAX_DIMENSIONS || x > MAX_DIMENSIONS then Refused
      else if depth !in {1, 2, 4, 8, 16} then Refused
      else if color > 6 || (color == 3 && depth == 16) || (color != 3 && color % 2 == 1) then Refused
      else if comp != 0 || filter != 0 || interlace > 1 then Refused
      else if x == 0 || y == 0 then Refused
      else if color == 3 || depth != 8 || interlace != 0 then OutsideModel
      else
        var n := (if color / 2 % 2 == 1 then 3 else 1) + (if color / 4 % 2 == 1 then 1 else 0);
        if 0x4000_0000 / x / n < y then Refused
        else More(Advance(bytes, pos, 13), State(false, x, y, n, None))
  }

  function DataChunk(bytes: seq<byte>, pos: nat, length: nat, st: State): Scan {
    if st.first then Refused
    else if length > 0x4000_0000 then Refused
    else
      var sofar := if st.idata.Some? then st.idata.value else [];
      if |sofar| + length > 0x7FFF_FFFF then Refused
      else if pos + length > |bytes| then Refused
      else More(pos + length, st.(idata := Some(sofar + bytes[pos..pos + length])))
  }

  // One turn of the chunk loop, including the skipped CRC.
  function ChunkStep(bytes: seq<byte>, pos: nat, st: State): Scan {
    var length := U32(bytes, pos);
    var kind := U32(bytes, Advance(bytes, pos, 4));
    var body := Advance(bytes, pos, 8);
    if kind == TYPE_CGBI then OutsideModel
    else if kind == TYPE_IEND then
      if st.first || st.idata.None? then Refused else Finished(st)
    else
      var r :=
        if kind == TYPE_IHDR then HeaderChunk(bytes, body, length, st)
        else if kind == TYPE_PLTE || kind == TYPE_TRNS then (if st.first then Refused else OutsideModel)
        else if kind == TYPE_IDAT then DataChunk(bytes, body, length, st)
        else if st.first then Refused
        else if kind / 0x2000_0000 % 2 == 0 then Refused
        else More(Skip(bytes, body, length), st);
      if r.More? then More(Advance(bytes, r.pos, 4), r.st) else r
  }

  function Left(bytes: seq<byte>, pos: nat): nat {
    if pos < |bytes| then |bytes| - pos else 0
  }

  lemma StepAdvances(bytes: seq<byte>, pos: nat, st: State)
    ensures ChunkStep(bytes, pos, st).More? ==> Left(bytes, ChunkStep(bytes, pos, st).pos) < Left(bytes, pos)
  {
    if pos >= |bytes| {
      assert U32(bytes, pos) == 0;
    }
  }

  // The chunks up to IEND; never More.
  function ScanFrom(bytes: seq<byte>, pos: nat, st: State): (r: Scan)
    ensures !r.More?
    decreases Left(bytes, pos)
  {
    StepAdvances(bytes, pos, st);
    var r := ChunkStep(bytes, pos, st);
    if r.More? then ScanFrom(bytes, r.pos, r.st) else r
  }

  const START: State := State(true, 0, 0, 0, None)

  function ScanFile(bytes: seq<byte>): Scan {
    if exists i :: 0 <= i < 8 && ByteAt(bytes, i) != PNG_SIG[i] then Refused else ScanFrom(bytes, 8, START)
  }

  method Parse(bytes: seq<byte>) returns (r: Scan)
    ensures r == ScanFile(bytes)
  {
    hide ChunkStep, U32;
    for i := 0 to 8
      invariant forall k :: 0 <= k < i ==> ByteAt(bytes, k) == PNG_SIG[k]
    {
      if ByteAt(bytes, i) != PNG_SIG[i] {
        return Refused;
      }
    }
    var pos, st := 8, START;
    while true
      invariant ScanFrom(bytes, 8, START) == ScanFrom(bytes, pos, st)
      decreases Left(bytes, pos)
    {
      StepAdvances(bytes, pos, st);
      r := ChunkStep(bytes, pos, st);
      match r {
        case More(p, s) => pos, st := p, s;
        case _ => return;
      }
    }
  }

  // ---- reading back what was written ----

  // The limits that the reader puts on an image, and on its compressed data.
  predicate WithinLimits(x: nat, y: nat, n: nat) {
    && 1 <= x <= MAX_DIMENSIONS && 1 <= y <= MAX_DIMENSIONS && 1 <= n <= 4
    && 0x4000_0000 / x / n >= y
  }

  lemma ChunkFields(bytes: seq<byte>, pos: nat, tag: seq<byte>, data: seq<byte>, crc: seq<byte>)
    requires |tag| == 4 && |crc| == 4 && |data| < 0x1_0000_0000
    requires pos + 12 + |data| <= |bytes|
    requires bytes[pos..pos + 12 + |data|] == Chunk(tag, data, crc)
    ensures U32(bytes, pos) == |data|
    ensures Advance(bytes, pos, 4) == pos + 4 && Advance(bytes, pos, 8) == pos + 8
    ensures U32(bytes, pos + 4) == FromBe(tag[0], tag[1], tag[2], tag[3])
    ensures bytes[pos + 8..pos + 8 + |data|] == data
    ensures Advance(bytes, pos + 8 + |data|, 4) == pos + 12 + |data|
  {
    hide FromBe, Be32;
    var c := bytes[pos..pos + 12 + |data|];
    BeRoundTrip(|data|);
    assert forall k :: 0 <= k < 12 + |data| ==> bytes[pos + k] == c[k];
    assert c[8..8 + |data|] == data;
  }

  ghost predicate GoodCrcs(c: Crcs) {
    |c.header| == 4 && |c.data| == 4 && |c.end| == 4
  }

  lemma Tags()
    ensures FromBe(IHDR[0], IHDR[1], IHDR[2], IHDR[3]) == TYPE_IHDR
    ensures FromBe(IDAT[0], IDAT[1], IDAT[2], IDAT[3]) == TYPE_IDAT
    ensures FromBe(IEND[0], IEND[1], IEND[2], IEND[3]) == TYPE_IEND
  {
  }

  lemma HeaderFields(bytes: seq<byte>, pos: nat, x: nat, y: nat, n: nat)
    requires x < 0x1_0000_0000 && y < 0x1_0000_0000 && 1 <= n <= 4
    requires pos + 13 <= |bytes| && bytes[pos..pos + 13] == HeaderData(x, y, n)
    ensures U32(bytes, pos) == x && U32(bytes, pos + 4) == y
    ensures ByteAt(bytes, pos + 8) == 8 && ByteAt(bytes, pos + 9) == CTYPE[n]
    ensures ByteAt(bytes, pos + 10) == 0 && ByteAt(bytes, pos + 11) == 0 && ByteAt(bytes, pos + 12) == 0
  {
    hide FromBe, Be32;
    var h := HeaderData(x, y, n);
    BeRoundTrip(x);
    BeRoundTrip(y);
    var c := bytes[pos..pos + 13];
    assert forall k :: 0 <= k < 13 ==> bytes[pos + k] == c[k];
    assert forall k :: 0 <= k < 4 ==> h[k] == Be32(x)[k] && h[4 + k] == Be32(y)[k];
  }

  lemma HeaderRead(bytes: seq<byte>, pos: nat, x: nat, y: nat, n: nat)
    requires 1 <= x < 0x1_0000_0000 && 1 <= y < 0x1_0000_0000 && 1 <= n <= 4
    requires pos + 13 <= |bytes| && bytes[pos..pos + 13] == HeaderData(x, y, n)
    ensures HeaderChunk(bytes, pos, 13, START)
            == if WithinLimits(x, y, n) then More(pos + 13, State(false, x, y, n, None)) else Refused
  {
    hide U32, ByteAt, HeaderData;
    HeaderFields(bytes, pos, x, y, n);
    assert CTYPE[n] == if n == 1 then 0 else if n == 2 then 4 else if n == 3 then 2 else 6;
  }

  lemma SignatureRead(f: seq<byte>)
    requires |f| >= 8 && f[..8] == SIGNATURE
    ensures ScanFile(f) == ScanFrom(f, 8, START)
  {
    hide ScanFrom;
    assert forall i :: 0 <= i < 8 ==> f[i] == f[..8][i];
  }

  lemma FirstStep(f: seq<byte>)
    requires U32(f, 8) == 13 && Advance(f, 8, 4) == 12 && Advance(f, 8, 8) == 16 && U32(f, 12) == TYPE_IHDR
    requires Advance(f, 29, 4) == 33
    requires var h := HeaderChunk(f, 16, 13, START); h == Refused || (h.More? && h.pos == 29)
    ensures var h := HeaderChunk(f, 16, 13, START);
            ScanFrom(f, 8, START) == if h == Refused then Refused else ScanFrom(f, 33, h.st)
  {
    hide U32, HeaderChunk, Advance;
  }

  // ---- files with any number of data chunks, and ancillary chunks among them ----

  // One chunk between header and end: a piece of the compressed data, or something the reader does not know.
  datatype Piece =
    | Data(bytes: seq<byte>, crc: seq<byte>)
    | Other(tag: seq<byte>, bytes: seq<byte>, crc: seq<byte>)

  // The lower-case first letter of an ancillary chunk is bit 5 of its first byte; tRNS is outside the model.
  ghost predicate PieceOk(p: Piece) {
    && |p.crc| == 4
    && match p
       case Data(bytes, _) => |bytes| < 0x1_0000_0000
       case Other(tag, bytes, _) =>
         |bytes| < 0x8000_0000 && |tag| == 4 && tag[0] / 32 % 2 == 1 && tag != [0x74, 0x52, 0x4E, 0x53]
  }

  ghost predicate PiecesOk(ps: seq<Piece>) {
    forall k :: 0 <= k < |ps| ==> PieceOk(ps[k])
  }

  function PieceBytes(p: Piece): seq<byte>
    requires |p.bytes| < 0x1_0000_0000
  {
    Chunk(if p.Data? then IDAT else p.tag, p.bytes, p.crc)
  }

  ghost function PiecesBytes(ps: seq<Piece>): seq<byte>
    requires PiecesOk(ps)
  {
    if ps == [] then [] else PieceBytes(ps[0]) + PiecesBytes(ps[1..])
  }

  // The data of all pieces, first to last.
  function Joined(ps: seq<Piece>): seq<byte> {
    if ps == [] then [] else (if ps[0].Data? then ps[0].bytes else []) + Joined(ps[1..])
  }

  predicate SomeData(ps: seq<Piece>) {
    exists k :: 0 <= k < |ps| && ps[k].Data?
  }

  // No data chunk above 2^30 bytes, and all of them together within an int.
  predicate DataFits(ps: seq<Piece>, sofar: nat) {
    && sofar + |Joined(ps)| <= 0x7FFF_FFFF
    && forall k :: 0 <= k < |ps| && ps[k].Data? ==> |ps[k].bytes| <= 0x4000_0000
  }

  // The end chunk; its length field and whatever follows its type are not looked at.
  predicate EndMark(tail: seq<byte>) {
    |tail| >= 8 && tail[4..8] == IEND
  }

  ghost function PiecesFile(x: nat, y: nat, n: nat, ps: seq<Piece>, header: seq<byte>, tail: seq<byte>): seq<byte>
    requires x < 0x1_0000_0000 && y < 0x1_0000_0000 && 1 <= n <= 4 && PiecesOk(ps)
  {
    SIGNATURE + (Chunk(IHDR, HeaderData(x, y, n), header) + (PiecesBytes(ps) + tail))
  }

  lemma ChunkAt(bytes: seq<byte>, pos: nat, tag: seq<byte>, data: seq<byte>, crc: seq<byte>, tail: seq<byte>)
    requires |tag| == 4 && |crc| == 4 && |data| < 0x1_0000_0000
    requires pos <= |bytes| && bytes[pos..] == Chunk(tag, data, crc) + tail
    ensures pos + 12 + |data| <= |bytes| && bytes[pos + 12 + |data|..] == tail
    ensures bytes[pos..pos + 12 + |data|] == Chunk(tag, data, crc)
  {
    hide Be32;
    var c, rest := Chunk(tag, data, crc), bytes[pos..];
    assert |c| == 12 + |data|;
    assert rest[|c|..] == tail && rest[..|c|] == c;
    assert bytes[pos + |c|..] == rest[|c|..];
  }

  // The data taken so far.
  function Sofar(st: State): seq<byte> {
    if st.idata.Some? then st.idata.value else []
  }

  // What the reader sees at the start of a chunk.
  ghost predicate ChunkSeen(bytes: seq<byte>, pos: nat, kind: nat, data: seq<byte>) {
    && pos + 12 + |data| <= |bytes|
    && U32(bytes, pos) == |data| && U32(bytes, pos + 4) == kind
    && Advance(bytes, pos, 4) == pos + 4 && Advance(bytes, pos, 8) == pos + 8
    && bytes[pos + 8..pos + 8 + |data|] == data
    && Advance(bytes, pos + 8 + |data|, 4) == pos + 12 + |data|
  }

  lemma SeesChunk(bytes: seq<byte>, pos: nat, tag: seq<byte>, data: seq<byte>, crc: seq<byte>, tail: seq<byte>)
    requires |tag| == 4 && |crc| == 4 && |data| < 0x1_0000_0000
    requires pos <= |bytes| && bytes[pos..] == Chunk(tag, data, crc) + tail
    ensures ChunkSeen(bytes, pos, FromBe(tag[0], tag[1], tag[2], tag[3]), data)
    ensures pos + 12 + |data| <= |bytes| && bytes[pos + 12 + |data|..] == tail
  {
    hide U32, Advance, FromBe, Chunk;
    ChunkAt(bytes, pos, tag, data, crc, tail);
    ChunkFields(bytes, pos, tag, data, crc);
  }

  lemma DataTurn(bytes: seq<byte>, pos: nat, st: State, data: seq<byte>)
    requires ChunkSeen(bytes, pos, TYPE_IDAT, data) && !st.first
    ensures ScanFrom(bytes, pos, st)
            == if |data| > 0x4000_0000 || |Sofar(st)| + |data| > 0x7FFF_FFFF then Refused
               else ScanFrom(bytes, pos + 12 + |data|, st.(idata := Some(Sofar(st) + data)))
  {
    hide U32, HeaderChunk, Advance;
  }

  lemma OtherTurn(bytes: seq<byte>, pos: nat, st: State, kind: nat, data: seq<byte>)
    requires ChunkSeen(bytes, pos, kind, data) && !st.first && |data| < 0x8000_0000
    requires kind !in {TYPE_CGBI, TYPE_IEND, TYPE_IHDR, TYPE_PLTE, TYPE_TRNS, TYPE_IDAT} && kind / 0x2000_0000 % 2 == 1
    ensures ScanFrom(bytes, pos, st) == ScanFrom(bytes, pos + 12 + |data|, st)
  {
    hide U32, HeaderChunk, DataChunk, Advance;
  }

  lemma EndSeen(bytes: seq<byte>, pos: nat)
    requires pos + 8 <= |bytes| && EndMark(bytes[pos..])
    ensures Advance(bytes, pos, 4) == pos + 4 && U32(bytes, pos + 4) == TYPE_IEND
  {
    var t := bytes[pos..];
    var tag := t[4..8];
    assert tag[0] == bytes[pos + 4] && tag[1] == bytes[pos + 5] && tag[2] == bytes[pos + 6] && tag[3] == bytes[pos + 7];
    Tags();
  }

  lemma EndTurn(bytes: seq<byte>, pos: nat, st: State)
    requires Advance(bytes, pos, 4) == pos + 4 && U32(bytes, pos + 4) == TYPE_IEND && !st.first
    ensures ScanFrom(bytes, pos, st) == if st.idata.None? then Refused else Finished(st)
  {
    hide U32, HeaderChunk, DataChunk, Advance;
  }

  lemma OtherKind(tag: seq<byte>)
    requires |tag| == 4 && tag[0] / 32 % 2 == 1 && tag != [0x74, 0x52, 0x4E, 0x53]
    ensures var kind := FromBe(tag[0], tag[1], tag[2], tag[3]);
            && kind !in {TYPE_CGBI, TYPE_IEND, TYPE_IHDR, TYPE_PLTE, TYPE_TRNS, TYPE_IDAT}
            && kind / 0x2000_0000 % 2 == 1
  {
    var w: int, x: int, y: int, z: int := tag[0], tag[1], tag[2], tag[3];
    assert (w * 0x100_0000 + x * 0x1_0000 + y * 0x100 + z) / 0x2000_0000 == w / 32;
    assert tag == [tag[0], tag[1], tag[2], tag[3]];
  }

  lemma PiecesFrom(p: Piece, rest: seq<Piece>, sofar: nat)
    ensures Joined([p] + rest) == (if p.Data? then p.bytes else []) + Joined(rest)
    ensures SomeData([p] + rest) <==> p.Data? || SomeData(rest)
    ensures DataFits([p] + rest, sofar)
            <==> (p.Data? ==> |p.bytes| <= 0x4000_0000) && DataFits(rest, sofar + if p.Data? then |p.bytes| else 0)
  {
    var ps := [p] + rest;
    assert ps[0] == p && ps[1..] == rest;
    assert forall k :: 0 <= k < |rest| ==> ps[k + 1] == rest[k];
    if SomeData(rest) {
      var k :| 0 <= k < |rest| && rest[k].Data?;
      assert ps[k + 1].Data?;
    }
  }

  lemma NoPieces(sofar: nat)
    ensures Joined([]) == [] && !SomeData([]) && (sofar <= 0x7FFF_FFFF ==> DataFits([], sofar))
  {
  }

  lemma TooMuch(ps: seq<Piece>, sofar: nat)
    ensures sofar > 0x7FFF_FFFF ==> !DataFits(ps, sofar)
  {
  }

  lemma {:induction false} NoMore(ps: seq<Piece>)
    ensures !SomeData(ps) ==> Joined(ps) == []
  {
    if ps != [] {
      assert ps == [ps[0]] + ps[1..];
      PiecesFrom(ps[0], ps[1..], 0);
      NoMore(ps[1..]);
    }
  }

  // How a scan ends that still has these pieces before it.
  function After(st: State, ps: seq<Piece>): Scan {
    if (st.idata.Some? || SomeData(ps)) && DataFits(ps, |Sofar(st)|)
    then Finished(if SomeData(ps) then st.(idata := Some(Sofar(st) + Joined(ps))) else st)
    else Refused
  }

  lemma AfterData(st: State, p: Piece, rest: seq<Piece>)
    requires p.Data?
    ensures var more := st.(idata := Some(Sofar(st) + p.bytes));
            After(st, [p] + rest)
            == if |p.bytes| > 0x4000_0000 || |Sofar(st)| + |p.bytes| > 0x7FFF_FFFF then Refused else After(more, rest)
  {
    hide SomeData, DataFits, Joined;
    var more := st.(idata := Some(Sofar(st) + p.bytes));
    PiecesFrom(p, rest, |Sofar(st)|);
    TooMuch(rest, |Sofar(more)|);
    NoMore(rest);
    assert Sofar(more) + [] == Sofar(more);
    assert Sofar(st) + (p.bytes + Joined(rest)) == Sofar(more) + Joined(rest);
  }

  lemma AfterOther(st: State, p: Piece, rest: seq<Piece>)
    requires p.Other?
    ensures After(st, [p] + rest) == After(st, rest)
  {
    hide SomeData, DataFits, Joined;
    PiecesFrom(p, rest, |Sofar(st)|);
    assert [] + Joined(rest) == Joined(rest);
  }

  lemma {:induction false} PiecesScan(bytes: seq<byte>, pos: nat, st: State, ps: seq<Piece>, tail: seq<byte>)
    requires PiecesOk(ps) && EndMark(tail) && !st.first && |Sofar(st)| <= 0x7FFF_FFFF
    requires pos <= |bytes| && bytes[pos..] == PiecesBytes(ps) + tail
    ensures ScanFrom(bytes, pos, st) == After(st, ps)
    decreases |ps|
  {
    hide ScanFrom, Chunk, After, FromBe, ChunkSeen;
    if ps == [] {
      assert [] + tail == tail;
      AfterNone(st);
      EndSeen(bytes, pos);
      EndTurn(bytes, pos, st);
    } else {
      var p, rest := ps[0], ps[1..];
      assert ps == [p] + rest;
      assert bytes[pos..] == PieceBytes(p) + (PiecesBytes(rest) + tail);
      SeesChunk(bytes, pos, if p.Data? then IDAT else p.tag, p.bytes, p.crc, PiecesBytes(rest) + tail);
      if p.Data? {
        Tags();
        DataTurn(bytes, pos, st, p.bytes);
        AfterData(st, p, rest);
        var more := st.(idata := Some(Sofar(st) + p.bytes));
        if |p.bytes| <= 0x4000_0000 && |Sofar(more)| <= 0x7FFF_FFFF {
          PiecesScan(bytes, pos + 12 + |p.bytes|, more, rest, tail);
        }
      } else {
        OtherKind(p.tag);
        OtherTurn(bytes, pos, st, FromBe(p.tag[0], p.tag[1], p.tag[2], p.tag[3]), p.bytes);
        AfterOther(st, p, rest);
        PiecesScan(bytes, pos + 12 + |p.bytes|, st, rest, tail);
      }
    }
  }

  lemma AfterNone(st: State)
    requires |Sofar(st)| <= 0x7FFF_FFFF
    ensures After(st, []) == if st.idata.None? then Refused else Finished(st)
  {
    NoPieces(|Sofar(st)|);
  }

  /** Whatever number of data chunks the compressed data is cut into, and whatever ancillary chunks stand among them,
      the reader finds the size and the data in the order of the file, exactly when they are within its limits. */
  lemma PiecesRead(x: nat, y: nat, n: nat, ps: seq<Piece>, header: seq<byte>, tail: seq<byte>)
    requires 1 <= x < 0x1_0000_0000 && 1 <= y < 0x1_0000_0000 && 1 <= n <= 4
    requires PiecesOk(ps) && |header| == 4 && EndMark(tail)
    ensures ScanFile(PiecesFile(x, y, n, ps, header, tail))
            == if WithinLimits(x, y, n) && SomeData(ps) && DataFits(ps, 0)
               then Finished(State(false, x, y, n, Some(Joined(ps)))) else Refused
  {
    hide U32, FromBe, HeaderChunk, HeaderData, Be32, WithinLimits, ScanFrom, SomeData, DataFits, Joined, PiecesBytes;
    var f := PiecesFile(x, y, n, ps, header, tail);
    var after := PiecesBytes(ps) + tail;
    assert f[..8] == SIGNATURE && f[8..] == Chunk(IHDR, HeaderData(x, y, n), header) + after;
    SignatureRead(f);
    Tags();
    ChunkAt(f, 8, IHDR, HeaderData(x, y, n), header, after);
    hide Chunk;
    ChunkFields(f, 8, IHDR, HeaderData(x, y, n), header);
    HeaderRead(f, 16, x, y, n);
    FirstStep(f);
    if WithinLimits(x, y, n) {
      PiecesScan(f, 33, State(false, x, y, n, None), ps, tail);
      assert [] + Joined(ps) == Joined(ps);
    }
  }

  // The writer's file has all of the data in one chunk.
  lemma FileInPieces(x: nat, y: nat, n: nat, zlib: seq<byte>, crcs: Crcs)
    requires x < 0x1_0000_0000 && y < 0x1_0000_0000 && 1 <= n <= 4 && |zlib| < 0x1_0000_0000 && GoodCrcs(crcs)
    ensures PiecesOk([Data(zlib, crcs.data)])
    ensures EndMark(Chunk(IEND, [], crcs.end))
    ensures File(x, y, n, zlib, crcs)
            == PiecesFile(x, y, n, [Data(zlib, crcs.data)], crcs.header, Chunk(IEND, [], crcs.end))
    ensures |File(x, y, n, zlib, crcs)| == 57 + |zlib|
  {
    hide Be32, HeaderData;
    var p := Data(zlib, crcs.data);
    assert [p][1..] == [];
    assert PiecesBytes([p]) == PieceBytes(p) + [];
  }

  lemma {:induction false} OnePiece(p: Piece)
    requires p.Data?
    ensures Joined([p]) == p.bytes && SomeData([p]) && (DataFits([p], 0) <==> |p.bytes| <= 0x4000_0000)
  {
    assert [p] + [] == [p];
    PiecesFrom(p, [], 0);
    NoPieces(0);
    assert p.bytes + [] == p.bytes;
  }

  // The reader finds the image's size and its compressed rows in the file, exactly when they are
  // within its limits.
  lemma FileRead(x: nat, y: nat, n: nat, zlib: seq<byte>, crcs: Crcs)
    requires 1 <= x < 0x1_0000_0000 && 1 <= y < 0x1_0000_0000 && 1 <= n <= 4
    requires |zlib| < 0x1_0000_0000 && GoodCrcs(crcs)
    ensures ScanFile(File(x, y, n, zlib, crcs))
            == if WithinLimits(x, y, n) && |zlib| <= 0x4000_0000
               then Finished(State(false, x, y, n, Some(zlib))) else Refused
  {
    hide File, PiecesFile, ScanFile, WithinLimits, Joined, SomeData, DataFits, Chunk, EndMark;
    var p := Data(zlib, crcs.data);
    FileInPieces(x, y, n, zlib, crcs);
    PiecesRead(x, y, n, [p], crcs.header, Chunk(IEND, [], crcs.end));
    OnePiece(p);
  }

  // Once the header is read, the limits hold.
  ghost predicate StateOk(st: State) {
    st.first || WithinLimits(st.x, st.y, st.n)
  }

  lemma StepOk(bytes: seq<byte>, pos: nat, st: State)
    requires StateOk(st)
    ensures var r := ChunkStep(bytes, pos, st);
            && (r.More? ==> StateOk(r.st)) && (r.Finished? ==> r.st.idata.Some? && WithinLimits(r.st.x, r.st.y, r.st.n))
  {
    hide U32;
  }

  lemma {:induction false} ScanOk(bytes: seq<byte>, pos: nat, st: State)
    requires StateOk(st)
    ensures var r := ScanFrom(bytes, pos, st);
            r.Finished? ==> r.st.idata.Some? && WithinLimits(r.st.x, r.st.y, r.st.n)
    decreases Left(bytes, pos)
  {
    hide ChunkStep, Left;
    StepOk(bytes, pos, st);
    StepAdvances(bytes, pos, st);
    var r := ChunkStep(bytes, pos, st);
    if r.More? {
      ScanOk(bytes, r.pos, r.st);
    }
  }
}
