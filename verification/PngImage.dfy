/** A whole image as filtered rows: the row loop of stbi_write_png_to_mem, and
    stbi__create_png_image_raw for 8-bit samples. */
module PngImage {
  import opened Bits
  import opened CanonicalCode
  import opened PngFilter

  ghost predicate Rectangular(rows: seq<seq<byte>>, w: nat) {
    forall j :: 0 <= j < |rows| ==> |rows[j]| == w
  }

  function Above(rows: seq<seq<byte>>, j: nat, w: nat): seq<byte>
    requires j <= |rows|
  {
    if j == 0 then ZeroRow(w) else rows[j - 1]
  }

  // Each row is preceded by the byte that names its filter.
  function FilteredImage(rows: seq<seq<byte>>, filters: seq<byte>, w: nat, n: nat): (r: seq<byte>)
    requires Rectangular(rows, w) && |filters| == |rows| && n >= 1
    ensures |r| == |rows| * (w + 1)
  {
    if rows == [] then []
    else
      var k := |rows| - 1;
      assert |rows| * (w + 1) == k * (w + 1) + (w + 1);
      FilteredImage(rows[..k], filters[..k], w, n) + [filters[k]] + EncodedRow(filters[k], rows[k], Above(rows, k, w), n)
  }

  // The rows of a filtered image; None when a filter byte is not a filter.
  function DecodedRows(raw: seq<byte>, w: nat, n: nat, j: nat): (r: Option<seq<seq<byte>>>)
    requires n >= 1 && j * (w + 1) <= |raw|
    ensures r.Some? ==> |r.value| == j && Rectangular(r.value, w)
    decreases j
  {
    if j == 0 then Some([])
    else
      assert (j - 1) * (w + 1) + (w + 1) == j * (w + 1);
      var at := (j - 1) * (w + 1);
      match DecodedRows(raw, w, n, j - 1)
      case None => None
      case Some(rows) =>
        if raw[at] > 4 then None
        else Some(rows + [DecodedRow(raw[at], raw[at + 1..at + 1 + w], Above(rows, j - 1, w), n)])
  }

  lemma Slices(raw: seq<byte>, raw': seq<byte>, at: nat, w: nat)
    requires raw <= raw' && at + 1 + w <= |raw|
    ensures raw'[at] == raw[at] && raw'[at + 1..at + 1 + w] == raw[at + 1..at + 1 + w]
  {
  }

  lemma {:induction false} SameStart(raw: seq<byte>, raw': seq<byte>, w: nat, n: nat, j: nat)
    requires n >= 1 && j * (w + 1) <= |raw| && raw <= raw'
    ensures DecodedRows(raw', w, n, j) == DecodedRows(raw, w, n, j)
    decreases j
  {
    hide DecodedRow, Above;
    if j != 0 {
      var at := (j - 1) * (w + 1);
      assert at + (w + 1) == j * (w + 1);
      SameStart(raw, raw', w, n, j - 1);
      Slices(raw, raw', at, w);
    }
  }

  // One more filtered row at the end of the input is one more decoded row.
  lemma LastRow(short: seq<byte>, f: byte, rows: seq<seq<byte>>, row: seq<byte>, w: nat, n: nat)
    requires n >= 1 && f <= 4 && |row| == w && Rectangular(rows, w) && |short| == |rows| * (w + 1)
    requires DecodedRows(short, w, n, |rows|) == Some(rows)
    ensures var raw := short + [f] + EncodedRow(f, row, Above(rows, |rows|, w), n);
            |raw| == (|rows| + 1) * (w + 1) && DecodedRows(raw, w, n, |rows| + 1) == Some(rows + [row])
  {
    hide EncodedRow, DecodedRow, DecodedRows;
    var k := |rows|;
    var last := EncodedRow(f, row, Above(rows, k, w), n);
    var raw := short + [f] + last;
    NextMultiple(k, w + 1);
    SameStart(short, raw, w, n, k);
    assert raw[|short|] == f && raw[|short| + 1..|short| + 1 + w] == last;
    DecodeEncode(f, row, Above(rows, k, w), n);
    NextRows(raw, w, n, k, |short|, rows);
  }

  // Undoing the filters gives the rows back, for any choice of filter in each row.
  lemma {:induction false} RowsReadBack(rows: seq<seq<byte>>, filters: seq<byte>, w: nat, n: nat)
    requires Rectangular(rows, w) && |filters| == |rows| && n >= 1
    requires forall j :: 0 <= j < |filters| ==> filters[j] <= 4
    ensures DecodedRows(FilteredImage(rows, filters, w, n), w, n, |rows|) == Some(rows)
  {
    hide EncodedRow, DecodedRow, DecodedRows;
    if rows != [] {
      var k := |rows| - 1;
      RowsReadBack(rows[..k], filters[..k], w, n);
      assert Above(rows[..k], k, w) == Above(rows, k, w);
      LastRow(FilteredImage(rows[..k], filters[..k], w, n), filters[k], rows[..k], rows[k], w, n);
      assert rows == rows[..k] + [rows[k]];
    } else {
      NoRows(w, n);
    }
  }

  lemma NoRows(w: nat, n: nat)
    requires n >= 1
    ensures DecodedRows([], w, n, 0) == Some([])
  {
  }

  // ---- the writer's rows ----

  function PixelRows(pixels: seq<byte>, stride: nat, height: nat, w: nat, flip: bool, k: nat): (r: seq<seq<byte>>)
    requires Fits(pixels, stride, height, w) && k <= height
    ensures |r| == k && Rectangular(r, w)
  {
    seq(k, j requires 0 <= j < k => PixelRow(pixels, stride, height, w, j, flip))
  }

  // abs((signed char) b)
  function Magnitude(b: byte): nat {
    if b < 128 then b else 256 - b
  }

  // The sum of the magnitudes of a filtered row.
  function Weight(line: seq<byte>): nat {
    if line == [] then 0 else Weight(line[..|line| - 1]) + Magnitude(line[|line| - 1])
  }

  method Estimate(line: array<byte>) returns (est: nat)
    ensures est == Weight(line[..])
  {
    est := 0;
    for i := 0 to line.Length
      invariant est == Weight(line[..i])
    {
      assert line[..i + 1][..i] == line[..i];
      var b: int := line[i];
      est := est + Abs(if b < 128 then b else b - 256);
    }
    assert line[..line.Length] == line[..];
  }

  const NO_ESTIMATE := 0x7FFF_FFFF

  // What the search compares: the weight of the row under a filter, as far as it is below the starting value.
  function Cost(filter: nat, cur: seq<byte>, prior: seq<byte>, n: nat): nat
    requires |cur| == |prior| && n >= 1
  {
    var w := Weight(EncodedRow(filter, cur, prior, n));
    if w < NO_ESTIMATE then w else NO_ESTIMATE
  }

  // The first filter of least cost.
  predicate Best(filter: nat, cur: seq<byte>, prior: seq<byte>, n: nat)
    requires |cur| == |prior| && n >= 1
  {
    && filter <= 4
    && (forall f :: 0 <= f <= 4 ==> Cost(filter, cur, prior, n) <= Cost(f, cur, prior, n))
    && (forall f :: 0 <= f < filter ==> Cost(filter, cur, prior, n) < Cost(f, cur, prior, n))
  }

  lemma {:induction false} WeightBound(line: seq<byte>)
    ensures Weight(line) <= 128 * |line|
  {
    if line != [] {
      WeightBound(line[..|line| - 1]);
    }
  }

  /** For rows of less than 2^24 bytes nothing is cut off: the search compares the weights themselves. */
  lemma CostIsWeight(filter: nat, cur: seq<byte>, prior: seq<byte>, n: nat)
    requires |cur| == |prior| < 0x100_0000 && n >= 1
    ensures Cost(filter, cur, prior, n) == Weight(EncodedRow(filter, cur, prior, n))
  {
    WeightBound(EncodedRow(filter, cur, prior, n));
  }

  // The filter of one row: the forced one, or the one with the smallest estimate.
  method FilterRow(pixels: seq<byte>, stride: nat, width: nat, height: nat, y: nat, n: nat, force: int,
                   flip: bool, line: array<byte>) returns (filter: byte)
    requires 1 <= n && y < height && force < 5 && 1 <= width
    requires line.Length == width * n && Fits(pixels, stride, height, width * n)
    modifies line
    ensures filter <= 4 && (force > -1 ==> filter == force)
    ensures force <= -1 ==> Best(filter, PixelRow(pixels, stride, height, width * n, y, flip),
                                 PriorRow(pixels, stride, height, width * n, y, flip), n)
    ensures line[..] == EncodedRow(filter, PixelRow(pixels, stride, height, width * n, y, flip),
                                   PriorRow(pixels, stride, height, width * n, y, flip), n)
  {
    hide EncodedRow, PixelRow, PriorRow, Fits, Weight;
    if force > -1 {
      filter := force;
      EncodeLine(pixels, stride, width, height, y, n, filter, flip, line);
    } else {
      ghost var cur := PixelRow(pixels, stride, height, width * n, y, flip);
      ghost var prior := PriorRow(pixels, stride, height, width * n, y, flip);
      var best, bestVal := 0, 0x7FFF_FFFF;
      filter := 0;
      while filter < 5
        invariant filter <= 5 && best <= 4 && bestVal <= NO_ESTIMATE
        invariant filter == 0 ==> best == 0 && bestVal == NO_ESTIMATE
        invariant filter > 0 ==> best < filter && bestVal == Cost(best, cur, prior, n)
        invariant forall f :: 0 <= f < filter ==> bestVal <= Cost(f, cur, prior, n)
        invariant forall f :: 0 <= f < best ==> bestVal < Cost(f, cur, prior, n)
      {
        EncodeLine(pixels, stride, width, height, y, n, filter, flip, line);
        var est := Estimate(line);
        if est < bestVal {
          best, bestVal := filter, est;
        }
        filter := filter + 1;
      }
      if filter != best { // always so: the loop ends with 5
        EncodeLine(pixels, stride, width, height, y, n, best, flip, line);
        filter := best;
      }
    }
  }

  // Every row chosen so far has its best filter.
  ghost predicate BestRows(filters: seq<byte>, pixels: seq<byte>, stride: nat, height: nat, w: nat, n: nat, flip: bool)
    requires n >= 1 && |filters| <= height && Fits(pixels, stride, height, w)
  {
    forall j :: 0 <= j < |filters| ==>
      Best(filters[j], PixelRow(pixels, stride, height, w, j, flip), PriorRow(pixels, stride, height, w, j, flip), n)
  }

  method FilterImage(pixels: seq<byte>, stride: nat, width: nat, height: nat, n: nat, forceIn: int, flip: bool)
    returns (filt: seq<byte>, ghost filters: seq<byte>)
    requires 1 <= n && 1 <= width && Fits(pixels, stride, height, width * n)
    ensures |filters| == height && forall j :: 0 <= j < height ==> filters[j] <= 4
    ensures 0 <= forceIn < 5 ==> forall j :: 0 <= j < height ==> filters[j] == forceIn
    ensures !(0 <= forceIn < 5) ==> BestRows(filters, pixels, stride, height, width * n, n, flip)
    ensures filt == FilteredImage(PixelRows(pixels, stride, height, width * n, flip, height), filters, width * n, n)
  {
    hide EncodedRow, PixelRow, PriorRow, Fits, FilteredImage, PixelRows, Best;
    var force := if forceIn >= 5 then -1 else forceIn;
    var line := new byte[width * n](_ => 0);
    filt, filters := [], [];
    NoneWritten(pixels, stride, height, width * n, flip, n);
    var j := 0;
    while j < height
      invariant 0 <= j <= height && |filters| == j && fresh(line) && line.Length == width * n
      invariant forall k :: 0 <= k < j ==> filters[k] <= 4
      invariant 0 <= forceIn < 5 ==> forall k :: 0 <= k < j ==> filters[k] == forceIn
      invariant !(0 <= forceIn < 5) ==> BestRows(filters, pixels, stride, height, width * n, n, flip)
      invariant filt == FilteredImage(PixelRows(pixels, stride, height, width * n, flip, j), filters, width * n, n)
    {
      var f := FilterRow(pixels, stride, width, height, j, n, force, flip, line);
      MoreRows(pixels, stride, height, width * n, flip, j, filters, f, n);
      filt := filt + [f] + line[..];
      filters := filters + [f];
      j := j + 1;
    }
  }

  lemma NoneWritten(pixels: seq<byte>, stride: nat, height: nat, w: nat, flip: bool, n: nat)
    requires Fits(pixels, stride, height, w) && n >= 1
    ensures FilteredImage(PixelRows(pixels, stride, height, w, flip, 0), [], w, n) == []
  {
  }

  lemma MoreRows(pixels: seq<byte>, stride: nat, height: nat, w: nat, flip: bool, j: nat, filters: seq<byte>,
                 f: byte, n: nat)
    requires Fits(pixels, stride, height, w) && j < height && |filters| == j && n >= 1
    ensures FilteredImage(PixelRows(pixels, stride, height, w, flip, j + 1), filters + [f], w, n)
            == FilteredImage(PixelRows(pixels, stride, height, w, flip, j), filters, w, n) + [f]
               + EncodedRow(f, PixelRow(pixels, stride, height, w, j, flip),
                            PriorRow(pixels, stride, height, w, j, flip), n)
  {
    hide EncodedRow, PixelRow, Fits;
    var rows, all := PixelRows(pixels, stride, height, w, flip, j), PixelRows(pixels, stride, height, w, flip, j + 1);
    assert all[..j] == rows;
    assert (filters + [f])[..j] == filters;
    assert Above(all, j, w) == PriorRow(pixels, stride, height, w, j, flip);
  }

  // ---- the reader's rows ----

  // An opaque alpha after each gray or RGB pixel.
  function GrayAlpha(row: seq<byte>): (r: seq<byte>)
    ensures |r| == 2 * |row|
  {
    seq(2 * |row|, k requires 0 <= k < 2 * |row| => if k % 2 == 1 then 255 else row[k / 2])
  }

  function RgbAlpha(row: seq<byte>, x: nat): (r: seq<byte>)
    requires |row| == 3 * x
    ensures |r| == 4 * x
  {
    seq(4 * x, k requires 0 <= k < 4 * x => if k % 4 == 3 then 255 else row[k / 4 * 3 + k % 4])
  }

  // A row as delivered: unchanged, or with one more channel.
  function OutRow(row: seq<byte>, x: nat, n: nat, outN: nat): (r: seq<byte>)
    requires outN == n || (outN == n + 1 && n in {1, 3} && |row| == n * x)
    ensures outN == n ==> |r| == |row|
    ensures outN != n ==> |r| == outN * x
  {
    if outN == n then row else if n == 1 then GrayAlpha(row) else RgbAlpha(row, x)
  }

  function OutPixels(rows: seq<seq<byte>>, x: nat, n: nat, outN: nat): seq<byte>
    requires Rectangular(rows, n * x) && (outN == n || (outN == n + 1 && n in {1, 3}))
  {
    if rows == [] then []
    else OutPixels(rows[..|rows| - 1], x, n, outN) + OutRow(rows[|rows| - 1], x, n, outN)
  }

  // Place c within group i of groups of n.
  function At(i: nat, n: nat, c: nat): nat {
    i * n + c
  }

  lemma AtInside(i: nat, x: nat, n: nat, c: nat)
    requires i < x && c < n
    ensures At(i, n, c) < x * n == n * x
  {
    RowEnds(i, x, n);
  }

  // Channel c of pixel i of a row as delivered: the row's own byte, or an opaque alpha after the last channel.
  function DeliveredByte(row: seq<byte>, n: nat, i: nat, c: nat): byte
    requires c == n || At(i, n, c) < |row|
  {
    if c == n then 255 else row[At(i, n, c)]
  }

  lemma OutRowByte(row: seq<byte>, x: nat, n: nat, outN: nat, i: nat, c: nat)
    requires |row| == n * x && i < x && c < outN && (outN == n || (outN == n + 1 && n in {1, 3}))
    ensures At(i, outN, c) < outN * x == |OutRow(row, x, n, outN)| && (c < n ==> At(i, n, c) < |row|)
    ensures OutRow(row, x, n, outN)[At(i, outN, c)] == DeliveredByte(row, n, i, c)
  {
    hide At, GrayAlpha, RgbAlpha;
    AtInside(i, x, outN, c);
    if c < n {
      AtInside(i, x, n, c);
    }
    if outN == n {
      assert OutRow(row, x, n, outN) == row;
    } else {
      AlphaByte(row, x, n, i, c);
    }
  }

  lemma AlphaByte(row: seq<byte>, x: nat, n: nat, i: nat, c: nat)
    requires n in {1, 3} && |row| == n * x && i < x && c <= n && At(i, n + 1, c) < (n + 1) * x
    requires c < n ==> At(i, n, c) < |row|
    ensures OutRow(row, x, n, n + 1)[At(i, n + 1, c)] == DeliveredByte(row, n, i, c)
  {
    hide At, GrayAlpha, RgbAlpha, DeliveredByte;
    if n == 1 {
      GrayByte(row, i, c);
    } else {
      RgbByte(row, x, i, c);
    }
  }

  lemma GrayByte(row: seq<byte>, i: nat, c: nat)
    requires c <= 1 && i < |row|
    ensures At(i, 2, c) < 2 * |row| && (c < 1 ==> At(i, 1, c) < |row|)
    ensures GrayAlpha(row)[At(i, 2, c)] == DeliveredByte(row, 1, i, c)
  {
    assert At(i, 2, c) == 2 * i + c && At(i, 1, c) == i + c;
  }

  lemma RgbByte(row: seq<byte>, x: nat, i: nat, c: nat)
    requires |row| == 3 * x && c <= 3 && i < x
    ensures At(i, 4, c) < 4 * x && (c < 3 ==> At(i, 3, c) < |row|)
    ensures RgbAlpha(row, x)[At(i, 4, c)] == DeliveredByte(row, 3, i, c)
  {
    assert At(i, 4, c) == 4 * i + c && At(i, 3, c) == 3 * i + c;
    assert (4 * i + c) / 4 == i && (4 * i + c) % 4 == c;
  }

  lemma {:induction false} OutPixelByte(rows: seq<seq<byte>>, x: nat, n: nat, outN: nat, j: nat, i: nat, c: nat,
                                        w: nat)
    requires Rectangular(rows, n * x) && (outN == n || (outN == n + 1 && n in {1, 3}))
    requires j < |rows| && i < x && c < outN && w == outN * x
    ensures At(i, outN, c) < w && At(j, w, At(i, outN, c)) < |rows| * w == |OutPixels(rows, x, n, outN)|
    ensures c < n ==> At(i, n, c) < |rows[j]|
    ensures OutPixels(rows, x, n, outN)[At(j, w, At(i, outN, c))] == DeliveredByte(rows[j], n, i, c)
  {
    hide At, OutRow, DeliveredByte;
    var k := |rows| - 1;
    OutRowByte(rows[j], x, n, outN, i, c);
    AtInside(j, |rows|, w, At(i, outN, c));
    OutPixelsSize(rows, x, n, outN, w);
    OutPixelsSize(rows[..k], x, n, outN, w);
    if j < k {
      OutPixelByte(rows[..k], x, n, outN, j, i, c, w);
    } else {
      AtLast(k, w, At(i, outN, c));
    }
  }

  lemma AtLast(k: nat, w: nat, c: nat)
    ensures At(k, w, c) == k * w + c
  {
  }

  lemma {:induction false} OutPixelsSize(rows: seq<seq<byte>>, x: nat, n: nat, outN: nat, w: nat)
    requires Rectangular(rows, n * x) && (outN == n || (outN == n + 1 && n in {1, 3})) && w == outN * x
    ensures |OutPixels(rows, x, n, outN)| == |rows| * w
  {
    hide OutRow;
    if rows != [] {
      var k := |rows| - 1;
      OutPixelsSize(rows[..k], x, n, outN, w);
      NextMultiple(k, w);
      OutRowSize(rows[k], x, n, outN, w);
    }
  }

  lemma OutRowSize(row: seq<byte>, x: nat, n: nat, outN: nat, w: nat)
    requires |row| == n * x && (outN == n || (outN == n + 1 && n in {1, 3})) && w == outN * x
    ensures |OutRow(row, x, n, outN)| == w
  {
  }

  lemma NextMultiple(k: nat, w: nat)
    ensures (k + 1) * w == k * w + w
  {
  }

  // stbi__create_png_alpha_expand8, from the last pixel to the first
  method AlphaExpand8(src: seq<byte>, x: nat, n: nat) returns (dest: array<byte>)
    requires n in {1, 3} && |src| == n * x
    ensures fresh(dest) && dest[..] == OutRow(src, x, n, n + 1)
  {
    dest := new byte[(n + 1) * x](_ => 0);
    if n == 1 {
      ExpandGray(src, x, dest);
    } else {
      ExpandRgb(src, x, dest);
    }
  }

  method ExpandGray(src: seq<byte>, x: nat, dest: array<byte>)
    requires |src| == x && dest.Length == 2 * x
    modifies dest
    ensures dest[..] == GrayAlpha(src)
  {
    var i := x;
    while i > 0
      invariant 0 <= i <= x
      invariant forall k :: 2 * i <= k < 2 * x ==> dest[k] == GrayAlpha(src)[k]
    {
      i := i - 1;
      dest[i * 2 + 1] := 255;
      dest[i * 2 + 0] := src[i];
    }
  }

  method ExpandRgb(src: seq<byte>, x: nat, dest: array<byte>)
    requires |src| == 3 * x && dest.Length == 4 * x
    modifies dest
    ensures dest[..] == RgbAlpha(src, x)
  {
    var i := x;
    while i > 0
      invariant 0 <= i <= x
      invariant forall k :: 4 * i <= k < 4 * x ==> dest[k] == RgbAlpha(src, x)[k]
    {
      i := i - 1;
      dest[i * 4 + 3] := 255;
      dest[i * 4 + 2] := src[i * 3 + 2];
      dest[i * 4 + 1] := src[i * 3 + 1];
      dest[i * 4 + 0] := src[i * 3 + 0];
    }
  }

  // stbi__mul2sizes_valid and stbi__mad3sizes_valid on values that are never negative
  predicate Mul2Valid(a: nat, b: nat) {
    b == 0 || a <= 0x7FFF_FFFF / b
  }

  predicate Mad3Valid(a: nat, b: nat, c: nat, add: nat) {
    Mul2Valid(a, b) && Mul2Valid(a * b, c) && a * b * c <= 0x7FFF_FFFF - add
  }

  ghost predicate SizesFit(x: nat, y: nat, n: nat, outN: nat) {
    Mad3Valid(x, y, outN, 0) && Mad3Valid(n, x, 8, 7) && Mul2Valid(n * x, y) && n * x * y <= 0x7FFF_FFFF - n * x
  }

  // What the reader makes of the decompressed rows of an 8-bit image.
  ghost function ImagePixels(raw: seq<byte>, x: nat, y: nat, n: nat, outN: nat): Option<seq<byte>>
    requires n >= 1 && (outN == n || (outN == n + 1 && n in {1, 3}))
  {
    if !SizesFit(x, y, n, outN) || |raw| < y * (n * x + 1) then None
    else
      match DecodedRows(raw, n * x, n, y)
      case None => None
      case Some(rows) => Some(OutPixels(rows, x, n, outN))
  }

  // stbi__create_png_image_raw for depth 8
  method CreateImageRaw(raw: seq<byte>, x: nat, y: nat, n: nat, outN: nat) returns (out: Option<seq<byte>>)
    requires n >= 1 && x >= 1 && (outN == n || (outN == n + 1 && n in {1, 3}))
    ensures out == ImagePixels(raw, x, y, n, outN)
  {
    hide DecodedRow, EncodedRow, DecodedRows, OutPixels;
    if !Mad3Valid(x, y, outN, 0) {
      return None;
    }
    if !Mad3Valid(n, x, 8, 7) {
      return None;
    }
    var w := n * x;
    if !(Mul2Valid(w, y) && w * y <= 0x7FFF_FFFF - w) {
      return None;
    }
    assert (w + 1) * y == y * (w + 1);
    if |raw| < (w + 1) * y {
      return None;
    }
    out := DecodeImage(raw, x, y, n, outN, w);
  }

  // Half a workspace holds the row last decoded, the other half the one before.
  function Half(j: nat, w: nat): nat {
    if j % 2 == 1 then w else 0
  }

  ghost predicate Decoding(raw: seq<byte>, w: nat, n: nat, j: nat, at: nat, rows: seq<seq<byte>>, buf: array<byte>)
    requires n >= 1
    reads buf
  {
    && at == j * (w + 1) <= |raw| && buf.Length == 2 * w
    && DecodedRows(raw, w, n, j) == Some(rows)
    && (j > 0 ==> buf[Half(j - 1, w)..Half(j - 1, w) + w] == rows[j - 1])
  }

  method DecodeImage(raw: seq<byte>, x: nat, y: nat, n: nat, outN: nat, w: nat) returns (out: Option<seq<byte>>)
    requires n >= 1 && x >= 1 && (outN == n || (outN == n + 1 && n in {1, 3}))
    requires w == n * x && y * (w + 1) <= |raw|
    ensures var rows := DecodedRows(raw, w, n, y);
            out == if rows.None? then None else Some(OutPixels(rows.value, x, n, outN))
  {
    hide DecodedRow, EncodedRow, OutRow, DecodedRows, Decoding, OutPixels;
    PixelInRow(x, n);
    var buf := new byte[2 * w](_ => 0);
    ghost var rows: seq<seq<byte>> := [];
    var pixels: seq<byte> := [];
    var j: nat, at: nat := 0, 0;
    StartDecoding(raw, w, x, n, outN, buf);
    while j < y
      invariant 0 <= j <= y && Decoding(raw, w, n, j, at, rows, buf)
      invariant Rectangular(rows, n * x) && pixels == OutPixels(rows, x, n, outN)
    {
      RowInside(raw, w, n, j, y, at, rows, buf);
      var filter := raw[at];
      if filter > 4 {
        BadFilter(raw, w, n, j, y, at, rows, buf);
        return None;
      }
      DecodeNext(raw, w, n, j, at, rows, buf);
      ghost var row := buf[Half(j, w)..Half(j, w) + w];
      var cur := buf[Half(j, w)..Half(j, w) + w];
      OneMoreRow(rows, row, x, n, outN);
      if n == outN {
        pixels := pixels + cur;
      } else {
        var dest := AlphaExpand8(cur, x, n);
        pixels := pixels + dest[..];
      }
      rows := rows + [row];
      at := at + 1 + w;
      j := j + 1;
    }
    EndDecoding(raw, w, n, y, at, rows, buf);
    out := Some(pixels);
  }

  lemma PixelInRow(x: nat, n: nat)
    requires x >= 1
    ensures n <= n * x
  {
    assert n * x == n + n * (x - 1);
  }

  lemma StartDecoding(raw: seq<byte>, w: nat, x: nat, n: nat, outN: nat, buf: array<byte>)
    requires n >= 1 && buf.Length == 2 * w && (outN == n || (outN == n + 1 && n in {1, 3}))
    ensures Decoding(raw, w, n, 0, 0, [], buf) && Rectangular([], n * x) && OutPixels([], x, n, outN) == []
  {
  }

  lemma RowInside(raw: seq<byte>, w: nat, n: nat, j: nat, y: nat, at: nat, rows: seq<seq<byte>>, buf: array<byte>)
    requires n >= 1 && j < y && y * (w + 1) <= |raw| && Decoding(raw, w, n, j, at, rows, buf)
    ensures at + 1 + w <= |raw| && buf.Length == 2 * w && |rows| == j && at == j * (w + 1)
    ensures (j + 1) * (w + 1) == at + 1 + w
  {
    hide DecodedRows;
    RowEnds(j, y, w + 1);
  }

  lemma RowEnds(j: nat, y: nat, d: nat)
    requires j < y
    ensures (j + 1) * d == j * d + d <= y * d
  {
    var r := y - j - 1;
    assert r * d >= 0;
    assert y * d == (j + 1 + r) * d == (j + 1) * d + r * d;
  }

  lemma {:induction false} NoneStays(raw: seq<byte>, w: nat, n: nat, j: nat, k: nat)
    requires n >= 1 && j <= k && k * (w + 1) <= |raw|
    requires j * (w + 1) <= |raw| && DecodedRows(raw, w, n, j).None?
    ensures DecodedRows(raw, w, n, k).None?
    decreases k
  {
    if j < k {
      assert (k - 1) * (w + 1) + (w + 1) == k * (w + 1);
      NoneStays(raw, w, n, j, k - 1);
    }
  }

  lemma BadFilter(raw: seq<byte>, w: nat, n: nat, j: nat, y: nat, at: nat, rows: seq<seq<byte>>, buf: array<byte>)
    requires n >= 1 && j < y && y * (w + 1) <= |raw| && Decoding(raw, w, n, j, at, rows, buf)
    requires at < |raw| && raw[at] > 4
    ensures DecodedRows(raw, w, n, y).None?
  {
    RowInside(raw, w, n, j, y, at, rows, buf);
    NoneStays(raw, w, n, j + 1, y);
  }

  lemma EndDecoding(raw: seq<byte>, w: nat, n: nat, y: nat, at: nat, rows: seq<seq<byte>>, buf: array<byte>)
    requires n >= 1 && Decoding(raw, w, n, y, at, rows, buf)
    ensures y * (w + 1) <= |raw| && DecodedRows(raw, w, n, y) == Some(rows)
  {
  }

  lemma OneMoreRow(rows: seq<seq<byte>>, row: seq<byte>, x: nat, n: nat, outN: nat)
    requires Rectangular(rows, n * x) && |row| == n * x && (outN == n || (outN == n + 1 && n in {1, 3}))
    ensures Rectangular(rows + [row], n * x)
    ensures OutPixels(rows + [row], x, n, outN) == OutPixels(rows, x, n, outN) + OutRow(row, x, n, outN)
    ensures outN == n ==> OutRow(row, x, n, outN) == row
  {
    assert (rows + [row])[..|rows|] == rows;
  }

  // The row at this offset, into its half of the workspace.
  method DecodeNext(raw: seq<byte>, w: nat, n: nat, j: nat, at: nat, ghost rows: seq<seq<byte>>, buf: array<byte>)
    requires 1 <= n <= w && Decoding(raw, w, n, j, at, rows, buf)
    requires at + 1 + w <= |raw| && raw[at] <= 4 && buf.Length == 2 * w && |rows| == j
    requires at == j * (w + 1) && (j + 1) * (w + 1) == at + 1 + w
    modifies buf
    ensures Decoding(raw, w, n, j + 1, at + 1 + w, rows + [buf[Half(j, w)..Half(j, w) + w]], buf)
  {
    hide DecodedRow, EncodedRow, DecodedRows;
    var cur, prior := Half(j, w), Half(j + 1, w);
    OtherHalf(j, w);
    NextRows(raw, w, n, j, at, rows);
    PngFilter.DecodeLine(raw, at + 1, buf, cur, prior, w, n, raw[at], j == 0);
  }

  lemma OtherHalf(j: nat, w: nat)
    ensures Half(j, w) == 0 ==> Half(j + 1, w) == w
    ensures Half(j, w) != 0 ==> Half(j, w) == w && Half(j + 1, w) == 0
    ensures Half(j, w) + Half(j + 1, w) == w
    ensures j > 0 ==> Half(j - 1, w) == Half(j + 1, w)
  {
  }

  lemma NextRows(raw: seq<byte>, w: nat, n: nat, j: nat, at: nat, rows: seq<seq<byte>>)
    requires n >= 1 && at == j * (w + 1) && (j + 1) * (w + 1) == at + 1 + w <= |raw| && raw[at] <= 4
    requires DecodedRows(raw, w, n, j) == Some(rows)
    ensures |rows| == j && |Above(rows, j, w)| == w
    ensures DecodedRows(raw, w, n, j + 1)
            == Some(rows + [DecodedRow(raw[at], raw[at + 1..at + 1 + w], Above(rows, j, w), n)])
  {
    hide DecodedRow;
  }
}
