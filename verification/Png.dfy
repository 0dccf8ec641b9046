/** stbi_write_png_to_mem and the loader on its output: the image comes back, pixel for pixel. */
module Png {
  import opened Bits
  import opened CanonicalCode
  import opened Inflate
  import opened PngFilter
  import opened PngImage
  import PngFile
  import opened ZlibStream
  import opened ZlibCompress

  datatype Image = Image(x: nat, y: nat, channels: nat, pixels: seq<byte>)

  // One channel more than the file has, when the caller asks for it and it would be an alpha.
  function OutChannels(n: nat, reqComp: nat): (outN: nat)
    requires 1 <= n <= 4 && reqComp <= 4
    ensures outN == n || (outN == n + 1 && n in {1, 3})
  {
    if reqComp == n + 1 && reqComp != 3 then n + 1 else n
  }

  // What the caller handed in: rows of w bytes, stride bytes apart, last row first when flipped.
  ghost predicate ValidInput(pixels: seq<byte>, stride: nat, x: nat, y: nat, n: nat) {
    && 1 <= x < 0x1_0000_0000 && 1 <= y < 0x1_0000_0000 && 1 <= n <= 4
    && (x * n + 1) * y <= 0x7FFF_FFFF
    && Fits(pixels, if stride == 0 then x * n else stride, y, x * n)
  }

  function Stride(stride: nat, x: nat, n: nat): nat {
    if stride == 0 then x * n else stride
  }

  // What the zlib stream inside the file decodes to.
  ghost predicate HoldsRows(zlib: seq<byte>, pixels: seq<byte>, stride: nat, x: nat, y: nat, n: nat, flip: bool,
                            filters: seq<byte>, rest: seq<bool>)
    requires ValidInput(pixels, stride, x, y, n)
  {
    && |filters| == y && (forall j :: 0 <= j < y ==> filters[j] <= 4) && |rest| >= 32
    && Decoded(zlib, true)
       == Some(Progress(FilteredImage(PixelRows(pixels, Stride(stride, x, n), y, x * n, flip, y), filters, x * n, n),
                         rest))
  }

  method WritePngToMem(pixels: seq<byte>, strideIn: nat, x: nat, y: nat, n: nat, force: int, flip: bool,
                       quality: int, check: seq<byte>, crcs: PngFile.Crcs)
    returns (out: seq<byte>, ghost zlib: seq<byte>, ghost filters: seq<byte>, ghost rest: seq<bool>)
    requires ValidInput(pixels, strideIn, x, y, n) && |check| == 4 && PngFile.GoodCrcs(crcs)
    ensures HoldsRows(zlib, pixels, strideIn, x, y, n, flip, filters, rest)
    ensures 0 <= force < 5 ==> forall j :: 0 <= j < y ==> filters[j] == force
    ensures !(0 <= force < 5) ==> BestRows(filters, pixels, Stride(strideIn, x, n), y, x * n, n, flip)
    ensures |zlib| < 0x1_0000_0000 && out == PngFile.File(x, y, n, zlib, crcs)
  {
    hide FilteredImage, PixelRows, Decoded, Fits, PngFile.File, BestRows;
    var stride := if strideIn == 0 then x * n else strideIn;
    var filt;
    filt, filters := FilterImage(pixels, stride, x, y, n, force, flip);
    RowsExist(pixels, stride, x, y, n, flip, filters);
    var z := Compress(filt, quality, check);
    zlib := z;
    rest :| |rest| >= 32 && Decoded(zlib, true) == Some(Progress(filt, rest));
    out := PngFile.File(x, y, n, z, crcs);
  }

  lemma RowsExist(pixels: seq<byte>, stride: nat, x: nat, y: nat, n: nat, flip: bool, filters: seq<byte>)
    requires Fits(pixels, stride, y, x * n) && |filters| == y && y >= 1 && n >= 1
    ensures |FilteredImage(PixelRows(pixels, stride, y, x * n, flip, y), filters, x * n, n)| == y * (x * n + 1)
    ensures y * (x * n + 1) >= 1
  {
    assert y * (x * n + 1) == (x * n + 1) + (y - 1) * (x * n + 1);
  }

  datatype Loaded = Failed | Outside | Loaded(image: Image)

  lemma LimitProduct(x: nat, y: nat, n: nat)
    requires PngFile.WithinLimits(x, y, n)
    ensures x * n * y <= 0x4000_0000 && x * y * n == x * n * y && n * x == x * n
  {
    var q := 0x4000_0000 / x;
    assert q * x <= 0x4000_0000;
    assert (q / n) * n <= q;
    Triple(x, y, n, q);
  }

  lemma Triple(x: nat, y: nat, n: nat, q: nat)
    requires y * n <= q && q * x <= 0x4000_0000
    ensures x * n * y <= 0x4000_0000 && x * y * n == x * n * y
  {
    assert (y * n) * x <= q * x;
  }

  // The image that decompressed rows stand for.
  ghost function ImageOf(raw: seq<byte>, x: nat, y: nat, n: nat, outN: nat): Loaded
    requires 1 <= n && (outN == n || (outN == n + 1 && n in {1, 3}))
  {
    match ImagePixels(raw, x, y, n, outN)
    case None => Failed
    case Some(pixels) => Loaded(Image(x, y, outN, pixels))
  }

  // What a file loads as, once its chunks are read; None leaves it open.
  ghost function Meaning(st: PngFile.State, outN: nat): Option<Loaded>
    requires 1 <= st.n && (outN == st.n || (outN == st.n + 1 && st.n in {1, 3})) && st.idata.Some?
  {
    match Decoded(st.idata.value, true)
    case None => None
    case Some(p) =>
      if |p.rest| >= 32 && |p.out| <= 0x7FFF_FFFF then Some(ImageOf(p.out, st.x, st.y, st.n, outN)) else None
  }

  // stbi__parse_png_file in load mode, for the images that the model follows; stbi__do_png has
  // already refused a reqComp above 4.
  method LoadPng(bytes: seq<byte>, reqComp: nat) returns (r: Loaded)
    requires reqComp <= 4
    ensures PngFile.ScanFile(bytes).Refused? ==> r == Failed
    ensures var s := PngFile.ScanFile(bytes);
            s.Finished? && s.st.idata.Some? && PngFile.WithinLimits(s.st.x, s.st.y, s.st.n) ==>
              var m := Meaning(s.st, OutChannels(s.st.n, reqComp));
              m.Some? ==> r == m.value
  {
    hide PngFile.ScanFrom, PngFile.WithinLimits, Decoded, DecodedRows, Meaning, OutChannels;
    var s := PngFile.Parse(bytes);
    if s.Refused? {
      return Failed;
    }
    if s.OutsideModel? {
      return Outside;
    }
    PngFile.ScanOk(bytes, 8, PngFile.START);
    ChannelsWithin(s.st);
    r := LoadParsed(s.st, reqComp);
  }

  lemma ChannelsWithin(st: PngFile.State)
    requires PngFile.WithinLimits(st.x, st.y, st.n)
    ensures 1 <= st.n <= 4
  {
  }

  method LoadParsed(st: PngFile.State, reqComp: nat) returns (r: Loaded)
    requires reqComp <= 4 && st.idata.Some? && PngFile.WithinLimits(st.x, st.y, st.n)
    ensures var m := Meaning(st, OutChannels(st.n, reqComp));
            m.Some? ==> r == m.value
  {
    hide Decoded, ImagePixels;
    LimitProduct(st.x, st.y, st.n);
    var rawLen := st.x * st.y * st.n + st.y;
    var expanded;
    ghost var pad;
    expanded, pad := ZlibDecode(st.idata.value, rawLen, true, true);
    if expanded.None? {
      return Failed;
    }
    var outN := if reqComp == st.n + 1 && reqComp != 3 then st.n + 1 else st.n;
    var out := CreateImageRaw(expanded.value, st.x, st.y, st.n, outN);
    r := if out.None? then Failed else Loaded(Image(st.x, st.y, outN, out.value));
  }

  // ---- the round trip ----

  lemma DivBound(a: nat, b: nat, m: nat)
    requires b >= 1
    ensures a <= m / b <==> a * b <= m
  {
    var q := m / b;
    assert q * b <= m < q * b + b;
    if a <= q {
      assert a * b <= q * b;
    } else {
      assert a * b >= (q + 1) * b;
    }
  }

  lemma SmallProduct(n: nat, x: nat)
    requires n <= 4 && x <= 0x100_0000
    ensures n * x <= 0x400_0000
  {
  }

  // Within the limits, all of the size checks come down to the delivered image fitting in an int.
  lemma SizesFitIff(x: nat, y: nat, n: nat, outN: nat)
    requires PngFile.WithinLimits(x, y, n) && outN >= 1
    ensures SizesFit(x, y, n, outN) <==> x * y * outN <= 0x7FFF_FFFF
  {
    LimitProduct(x, y, n);
    SmallProduct(n, x);
    DivBound(x, y, 0x7FFF_FFFF);
    DivBound(x * y, outN, 0x7FFF_FFFF);
    DivBound(n, x, 0x7FFF_FFFF);
    DivBound(n * x, y, 0x7FFF_FFFF);
    ProductGrows(x, y, n);
    ProductGrows(x * y, outN, 1);
  }

  lemma ProductGrows(a: nat, b: nat, c: nat)
    requires b >= 1 && c >= 1
    ensures a * b * c >= a * b && a * b >= a
  {
    assert a * b * c == a * b + a * b * (c - 1);
    assert a * b == a + a * (b - 1);
  }

  lemma RowTotal(a: nat, b: nat)
    ensures a * b == b * a
  {
  }

  // The rows in the order written.
  ghost function RowsOf(pixels: seq<byte>, stride: nat, x: nat, y: nat, n: nat, flip: bool): (r: seq<seq<byte>>)
    requires ValidInput(pixels, stride, x, y, n)
    ensures |r| == y && Rectangular(r, n * x)
  {
    var w := x * n;
    assert n * x == w by {
      RowTotal(n, x);
    }
    PixelRows(pixels, Stride(stride, x, n), y, w, flip, y)
  }

  // The file's rows, in the order written, with the channels asked for.
  ghost function Expected(pixels: seq<byte>, stride: nat, x: nat, y: nat, n: nat, flip: bool, outN: nat): Image
    requires ValidInput(pixels, stride, x, y, n) && (outN == n || (outN == n + 1 && n in {1, 3}))
  {
    Image(x, y, outN, OutPixels(RowsOf(pixels, stride, x, y, n, flip), x, n, outN))
  }

  lemma RowsMeaning(zlib: seq<byte>, pixels: seq<byte>, stride: nat, x: nat, y: nat, n: nat, flip: bool,
                    filters: seq<byte>, rest: seq<bool>, outN: nat)
    requires ValidInput(pixels, stride, x, y, n) && PngFile.WithinLimits(x, y, n)
    requires outN == n || (outN == n + 1 && n in {1, 3})
    requires HoldsRows(zlib, pixels, stride, x, y, n, flip, filters, rest)
    ensures Meaning(PngFile.State(false, x, y, n, Some(zlib)), outN)
            == Some(if x * y * outN <= 0x7FFF_FFFF then Loaded(Expected(pixels, stride, x, y, n, flip, outN)) else Failed)
  {
    hide Decoded, FilteredImage, PixelRows, OutPixels, DecodedRows, Fits, SizesFit, PngFile.WithinLimits;
    var rows := PixelRows(pixels, Stride(stride, x, n), y, x * n, flip, y);
    assert n * x == x * n;
    SizesFitIff(x, y, n, outN);
    RowsReadBack(rows, filters, x * n, n);
    RowTotal(x * n + 1, y);
  }

  /** Loading any file that holds the filtered rows of an image, in however many data chunks: the image comes back if
      and only if the reader's limits hold of it, otherwise loading fails. The filters chosen do not matter. */
  method LoadRows(bytes: seq<byte>, reqComp: nat, ghost ps: seq<PngFile.Piece>, ghost header: seq<byte>,
                  ghost tail: seq<byte>, ghost pixels: seq<byte>, ghost stride: nat, ghost x: nat, ghost y: nat,
                  ghost n: nat, ghost flip: bool, ghost filters: seq<byte>, ghost rest: seq<bool>)
    returns (r: Loaded)
    requires ValidInput(pixels, stride, x, y, n) && reqComp <= 4
    requires PngFile.PiecesOk(ps) && |header| == 4 && PngFile.EndMark(tail)
    requires bytes == PngFile.PiecesFile(x, y, n, ps, header, tail)
    requires HoldsRows(PngFile.Joined(ps), pixels, stride, x, y, n, flip, filters, rest)
    ensures var outN := OutChannels(n, reqComp);
            r == if PngFile.WithinLimits(x, y, n) && PngFile.SomeData(ps) && PngFile.DataFits(ps, 0)
                    && x * y * outN <= 0x7FFF_FFFF
                 then Loaded(Expected(pixels, stride, x, y, n, flip, outN)) else Failed
  {
    hide HoldsRows, PngFile.ScanFile, PngFile.WithinLimits, PngFile.PiecesFile, PngFile.PiecesOk, PngFile.Joined,
      PngFile.SomeData, PngFile.DataFits, Meaning, Fits;
    PngFile.PiecesRead(x, y, n, ps, header, tail);
    r := LoadPng(bytes, reqComp);
    if PngFile.WithinLimits(x, y, n) {
      RowsMeaning(PngFile.Joined(ps), pixels, stride, x, y, n, flip, filters, rest, OutChannels(n, reqComp));
    }
  }

  // Writing an image and loading the result gives the image back if and only if the reader's
  // limits hold of it; otherwise loading fails.
  method RoundTrip(pixels: seq<byte>, stride: nat, x: nat, y: nat, n: nat, force: int, flip: bool, quality: int,
                   check: seq<byte>, crcs: PngFile.Crcs, reqComp: nat)
    returns (file: seq<byte>, r: Loaded)
    requires ValidInput(pixels, stride, x, y, n) && |check| == 4 && PngFile.GoodCrcs(crcs) && reqComp <= 4
    ensures var outN := OutChannels(n, reqComp);
            r == if PngFile.WithinLimits(x, y, n) && |file| <= 0x4000_0000 + 57 && x * y * outN <= 0x7FFF_FFFF
                 then Loaded(Expected(pixels, stride, x, y, n, flip, outN)) else Failed
  {
    hide HoldsRows, PngFile.PiecesFile, PngFile.PiecesOk, PngFile.Joined, PngFile.SomeData, PngFile.DataFits,
      PngFile.WithinLimits, Fits;
    ghost var zlib, filters, rest;
    file, zlib, filters, rest := WritePngToMem(pixels, stride, x, y, n, force, flip, quality, check, crcs);
    ghost var p := PngFile.Data(zlib, crcs.data);
    PngFile.FileInPieces(x, y, n, zlib, crcs);
    PngFile.OnePiece(p);
    ghost var tail := PngFile.Chunk(PngFile.IEND, [], crcs.end);
    r := LoadRows(file, reqComp, [p], crcs.header, tail, pixels, stride, x, y, n, flip, filters, rest);
  }

  // The byte at a place of the delivered pixels is the one at a place of the caller's, or an opaque alpha.
  predicate SameByte(e: seq<byte>, to: nat, pixels: seq<byte>, from: nat, alpha: bool) {
    to < |e| && if alpha then e[to] == 255 else from < |pixels| && e[to] == pixels[from]
  }

  /** Byte for byte: channel c of pixel i of row j, as delivered, is that of the row written at that place, the last row
      first when flipped, and the channel that was only asked for is opaque. */
  lemma ExpectedByte(pixels: seq<byte>, stride: nat, x: nat, y: nat, n: nat, flip: bool, outN: nat,
                     j: nat, i: nat, c: nat, w: nat)
    requires ValidInput(pixels, stride, x, y, n) && (outN == n || (outN == n + 1 && n in {1, 3}))
    requires j < y && i < x && c < outN && w == outN * x
    ensures var e := Expected(pixels, stride, x, y, n, flip, outN).pixels;
            && |e| == y * w
            && SameByte(e, At(j, w, At(i, outN, c)),
                        pixels, At(if flip then y - 1 - j else j, Stride(stride, x, n), At(i, n, c)), c == n)
  {
    hide Fits, OutPixels, RowStart, At, Stride;
    var s := Stride(stride, x, n);
    StrideIs(stride, x, n);
    RowTotal(n, x);
    var rows := PixelRows(pixels, s, y, x * n, flip, y);
    OutPixelByte(rows, x, n, outN, j, i, c, w);
    if c < n {
      RowFits(pixels, s, y, x * n, j, flip);
      StartOfRow(s, y, j, flip, At(i, n, c));
    }
  }

  lemma StrideIs(stride: nat, x: nat, n: nat)
    ensures Stride(stride, x, n) == if stride == 0 then x * n else stride
  {
  }

  lemma StartOfRow(stride: nat, height: nat, j: nat, flip: bool, k: nat)
    requires j < height
    ensures RowStart(stride, height, j, flip) + k == At(if flip then height - 1 - j else j, stride, k)
  {
    RowTotal(stride, if flip then height - 1 - j else j);
  }

  lemma {:induction false} PackedRows(pixels: seq<byte>, w: nat, y: nat, x: nat, n: nat, k: nat)
    requires Fits(pixels, w, y, w) && k <= y && w == n * x && k * w <= |pixels|
    ensures OutPixels(PixelRows(pixels, w, y, w, false, k), x, n, n) == pixels[..k * w]
  {
    hide PixelRow, Fits;
    var rows := PixelRows(pixels, w, y, w, false, k);
    if k != 0 {
      assert k * w == (k - 1) * w + w;
      PackedRows(pixels, w, y, x, n, k - 1);
      assert rows[..k - 1] == PixelRows(pixels, w, y, w, false, k - 1);
      PackedRow(pixels, w, y, k - 1);
      assert pixels[..k * w] == pixels[..(k - 1) * w] + pixels[(k - 1) * w..k * w];
    }
  }

  lemma PackedRow(pixels: seq<byte>, w: nat, y: nat, j: nat)
    requires Fits(pixels, w, y, w) && j < y && (j + 1) * w <= |pixels|
    ensures PixelRow(pixels, w, y, w, j, false) == pixels[j * w..(j + 1) * w]
  {
    assert (j + 1) * w == j * w + w && w * j == j * w;
  }

  // For a packed image written in order, what is loaded is the very buffer that was written.
  lemma PackedIsSame(pixels: seq<byte>, x: nat, y: nat, n: nat)
    requires ValidInput(pixels, 0, x, y, n) && |pixels| == y * (x * n)
    ensures Expected(pixels, 0, x, y, n, false, n).pixels == pixels
  {
    assert n * x == x * n;
    PackedRows(pixels, x * n, y, x, n, y);
  }
}
