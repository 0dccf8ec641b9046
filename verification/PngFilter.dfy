/** PNG row filters (section 9 of the W3C PNG specification): the specification, the writer's
    stbiw__encode_png_line and the row loop of the reader's stbi__create_png_image_raw. */
module PngFilter {
  import opened Bits

  function Sub(x: byte, p: byte): byte {
    if x >= p then x - p else x - p + 256
  }

  function Add(x: byte, p: byte): byte {
    if x + p < 256 then x + p else x + p - 256
  }

  function Abs(x: int): int {
    if x < 0 then -x else x
  }

  // The specification's form, which is also the writer's stbiw__paeth.
  function Paeth(a: int, b: int, c: int): (r: int)
    ensures r == a || r == b || r == c
  {
    var p := a + b - c;
    var pa, pb, pc := Abs(p - a), Abs(p - b), Abs(p - c);
    if pa <= pb && pa <= pc then a else if pb <= pc then b else c
  }

  // The reader's branch-free stbi__paeth.
  function PaethReader(a: int, b: int, c: int): int {
    var thresh := c * 3 - (a + b);
    var lo := if a < b then a else b;
    var hi := if a < b then b else a;
    var t0 := if hi <= thresh then lo else c;
    if thresh <= lo then hi else t0
  }

  // The reader's form always selects the value that the specification's form selects.
  lemma PaethFormsAgree(a: int, b: int, c: int)
    ensures PaethReader(a, b, c) == Paeth(a, b, c)
  {
    var p := a + b - c;
    if a < b {
      assert c * 3 - (a + b) <= a <==> p - c >= c - a;
    } else {
      assert c * 3 - (a + b) <= b <==> p - c >= c - b;
    }
  }

  // What filter types 0 to 4 predict from the bytes to the left, above, and above left.
  function Predict(filter: nat, a: byte, b: byte, c: byte): byte {
    if filter == 1 then a
    else if filter == 2 then b
    else if filter == 3 then (a + b) / 2
    else if filter == 4 then Paeth(a, b, c)
    else 0
  }

  // The byte one pixel to the left, zero in the first pixel.
  function LeftOf(row: seq<byte>, n: nat, i: nat): byte
    requires n >= 1 && i <= |row|
  {
    if i >= n then row[i - n] else 0
  }

  function EncodedRow(filter: nat, cur: seq<byte>, prior: seq<byte>, n: nat): (r: seq<byte>)
    requires |cur| == |prior| && n >= 1
    ensures |r| == |cur|
  {
    seq(|cur|, i requires 0 <= i < |cur| =>
      Sub(cur[i], Predict(filter, LeftOf(cur, n, i), prior[i], LeftOf(prior, n, i))))
  }

  // The first k reconstructed bytes of a row.
  function Reconstructed(filter: nat, raw: seq<byte>, prior: seq<byte>, n: nat, k: nat): (r: seq<byte>)
    requires |raw| == |prior| && n >= 1 && k <= |raw|
    ensures |r| == k
  {
    if k == 0 then []
    else
      var done := Reconstructed(filter, raw, prior, n, k - 1);
      done + [Add(raw[k - 1], Predict(filter, LeftOf(done, n, k - 1), prior[k - 1], LeftOf(prior, n, k - 1)))]
  }

  function DecodedRow(filter: nat, raw: seq<byte>, prior: seq<byte>, n: nat): (r: seq<byte>)
    requires |raw| == |prior| && n >= 1
    ensures |r| == |raw|
  {
    Reconstructed(filter, raw, prior, n, |raw|)
  }

  lemma {:induction false} ReconstructPrefix(filter: nat, cur: seq<byte>, prior: seq<byte>, n: nat, k: nat)
    requires |cur| == |prior| && n >= 1 && k <= |cur|
    ensures Reconstructed(filter, EncodedRow(filter, cur, prior, n), prior, n, k) == cur[..k]
  {
    if k != 0 {
      ReconstructPrefix(filter, cur, prior, n, k - 1);
      assert cur[..k] == cur[..k - 1] + [cur[k - 1]];
    }
  }

  // Every filter is undone, whatever the row above.
  lemma DecodeEncode(filter: nat, cur: seq<byte>, prior: seq<byte>, n: nat)
    requires |cur| == |prior| && n >= 1
    ensures DecodedRow(filter, EncodedRow(filter, cur, prior, n), prior, n) == cur
  {
    ReconstructPrefix(filter, cur, prior, n, |cur|);
  }

  lemma EncodedPrefix(filter: nat, row: seq<byte>, prior: seq<byte>, n: nat, k: nat)
    requires |row| == |prior| && n >= 1 && k <= |row|
    ensures EncodedRow(filter, row, prior, n)[..k] == EncodedRow(filter, row[..k], prior[..k], n)
  {
    hide Predict;
  }

  lemma SubAdd(x: byte, p: byte)
    ensures Sub(Add(x, p), p) == x && Add(Sub(x, p), p) == x
  {
  }

  lemma {:induction false} EncodeReconstructed(filter: nat, raw: seq<byte>, prior: seq<byte>, n: nat, k: nat)
    requires |raw| == |prior| && n >= 1 && k <= |raw|
    ensures EncodedRow(filter, Reconstructed(filter, raw, prior, n, k), prior[..k], n) == raw[..k]
  {
    hide Predict, Add, Sub;
    if k != 0 {
      EncodeReconstructed(filter, raw, prior, n, k - 1);
      var done, all := Reconstructed(filter, raw, prior, n, k - 1), Reconstructed(filter, raw, prior, n, k);
      EncodedPrefix(filter, all, prior[..k], n, k - 1);
      assert all[..k - 1] == done && prior[..k][..k - 1] == prior[..k - 1];
      var guess := Predict(filter, LeftOf(done, n, k - 1), prior[k - 1], LeftOf(prior, n, k - 1));
      SubAdd(raw[k - 1], guess);
      assert EncodedRow(filter, all, prior[..k], n)[k - 1] == Sub(Add(raw[k - 1], guess), guess);
      assert raw[..k] == raw[..k - 1] + [raw[k - 1]];
    }
  }

  // And every row of bytes is the filtered form of exactly what it decodes to.
  lemma EncodeDecode(filter: nat, raw: seq<byte>, prior: seq<byte>, n: nat)
    requires |raw| == |prior| && n >= 1
    ensures EncodedRow(filter, DecodedRow(filter, raw, prior, n), prior, n) == raw
  {
    EncodeReconstructed(filter, raw, prior, n, |raw|);
    assert prior[..|raw|] == prior && raw[..|raw|] == raw;
  }

  // ---- the writer ----

  // Types 5 and 6 are the first-row forms of average and Paeth.
  const MAPPING: seq<nat> := [0, 1, 2, 3, 4]
  const FIRST_MAP: seq<nat> := [0, 1, 0, 5, 6]

  // The first loop of stbiw__encode_png_line, over the first pixel.
  function FirstPixelByte(kind: nat, x: byte, up: byte): byte {
    match kind
    case 2 => Sub(x, up)
    case 3 => Sub(x, up / 2)
    case 4 => Sub(x, Paeth(0, up, 0))
    case _ => x
  }

  // The loops over the other pixels.
  function LaterByte(kind: nat, x: byte, left: byte, up: byte, upLeft: byte): byte {
    match kind
    case 1 => Sub(x, left)
    case 2 => Sub(x, up)
    case 3 => Sub(x, (left + up) / 2)
    case 4 => Sub(x, Paeth(left, up, upLeft))
    case 5 => Sub(x, left / 2)
    case 6 => Sub(x, Paeth(left, 0, 0))
    case _ => x
  }

  // Where the row written y-th starts.
  function RowStart(stride: nat, height: nat, y: nat, flip: bool): nat
    requires y < height
  {
    stride * (if flip then height - 1 - y else y)
  }

  ghost predicate Fits(pixels: seq<byte>, stride: nat, height: nat, w: nat) {
    height >= 1 && w <= stride && stride * (height - 1) + w <= |pixels|
  }

  lemma RowFits(pixels: seq<byte>, stride: nat, height: nat, w: nat, y: nat, flip: bool)
    requires Fits(pixels, stride, height, w) && y < height
    ensures RowStart(stride, height, y, flip) + w <= |pixels|
  {
    Scaled(stride, if flip then height - 1 - y else y, height - 1);
  }

  lemma Scaled(s: nat, a: nat, b: nat)
    requires a <= b
    ensures s * a <= s * b
  {
    var d := b - a;
    assert s * (a + d) == s * a + s * d;
  }

  function PixelRow(pixels: seq<byte>, stride: nat, height: nat, w: nat, y: nat, flip: bool): (r: seq<byte>)
    requires Fits(pixels, stride, height, w) && y < height
    ensures |r| == w
  {
    RowFits(pixels, stride, height, w, y, flip);
    pixels[RowStart(stride, height, y, flip)..RowStart(stride, height, y, flip) + w]
  }

  function ZeroRow(w: nat): (r: seq<byte>)
    ensures |r| == w
  {
    seq(w, _ => 0)
  }

  // The row above in writing order; above the first row, zeros.
  function PriorRow(pixels: seq<byte>, stride: nat, height: nat, w: nat, y: nat, flip: bool): (r: seq<byte>)
    requires Fits(pixels, stride, height, w) && y < height
    ensures |r| == w
  {
    if y == 0 then ZeroRow(w) else PixelRow(pixels, stride, height, w, y - 1, flip)
  }

  function SignedStride(stride: nat, flip: bool): int {
    if flip then -(stride as int) else stride
  }

  lemma RowAbove(stride: nat, height: nat, y: nat, flip: bool)
    requires 0 < y < height
    ensures RowStart(stride, height, y, flip) - SignedStride(stride, flip) == RowStart(stride, height, y - 1, flip)
  {
    if flip {
      assert stride * (height - 1 - (y - 1)) == stride * (height - 1 - y) + stride;
    } else {
      assert stride * y == stride * (y - 1) + stride;
    }
  }

  // The cases of both switches, first-row variants included, are the specification's filters.
  lemma KindsAgree(filter: nat, first: bool, kind: nat, x: byte, left: byte, up: byte, upLeft: byte)
    requires filter <= 4 && kind == (if first then FIRST_MAP[filter] else MAPPING[filter])
    requires first ==> up == 0 && upLeft == 0
    ensures FirstPixelByte(kind, x, up) == Sub(x, Predict(filter, 0, up, 0))
    ensures LaterByte(kind, x, left, up, upLeft) == Sub(x, Predict(filter, left, up, upLeft))
  {
    assert filter == 0 || filter == 1 || filter == 2 || filter == 3 || filter == 4;
  }

  lemma OnePixelFits(width: nat, n: nat)
    requires width >= 1
    ensures n <= width * n
  {
    assert width * n == n + (width - 1) * n;
  }

  method EncodeLine(pixels: seq<byte>, stride: nat, width: nat, height: nat, y: nat, n: nat, filter: nat,
                    flip: bool, line: array<byte>)
    requires 1 <= n && y < height && filter <= 4 && 1 <= width
    requires line.Length == width * n && Fits(pixels, stride, height, width * n)
    modifies line
    ensures line[..] == EncodedRow(filter, PixelRow(pixels, stride, height, width * n, y, flip),
                                   PriorRow(pixels, stride, height, width * n, y, flip), n)
  {
    OnePixelFits(width, n);
    EncodeLineOf(pixels, stride, width * n, height, y, n, filter, flip, line);
  }

  method EncodeLineOf(pixels: seq<byte>, stride: nat, w: nat, height: nat, y: nat, n: nat, filter: nat,
                      flip: bool, line: array<byte>)
    requires 1 <= n <= w && y < height && filter <= 4
    requires line.Length == w && Fits(pixels, stride, height, w)
    modifies line
    ensures line[..] == EncodedRow(filter, PixelRow(pixels, stride, height, w, y, flip),
                                   PriorRow(pixels, stride, height, w, y, flip), n)
  {
    hide RowStart, EncodedRow, Fits;
    RowFits(pixels, stride, height, w, y, flip);
    var kind := if y != 0 then MAPPING[filter] else FIRST_MAP[filter];
    var z := RowStart(stride, height, y, flip);
    var above := z;
    if y != 0 {
      RowAbove(stride, height, y, flip);
      RowFits(pixels, stride, height, w, y - 1, flip);
      above := z - SignedStride(stride, flip);
    }
    EncodePixels(pixels, z, above, w, n, filter, y == 0, kind, line);
  }

  ghost predicate LineInput(pixels: seq<byte>, z: nat, above: nat, w: nat, n: nat, filter: nat, first: bool, kind: nat) {
    && 1 <= n <= w && filter <= 4 && z + w <= |pixels| && above + w <= |pixels|
    && kind == if first then FIRST_MAP[filter] else MAPPING[filter]
  }

  // The filtered row at z, with the row above at the given place unless this is the first row.
  function LineGoal(pixels: seq<byte>, z: nat, above: nat, w: nat, n: nat, filter: nat, first: bool): (r: seq<byte>)
    requires 1 <= n && z + w <= |pixels| && above + w <= |pixels|
    ensures |r| == w
  {
    EncodedRow(filter, pixels[z..z + w], if first then ZeroRow(w) else pixels[above..above + w], n)
  }

  method FirstPixelAt(pixels: seq<byte>, z: nat, above: nat, w: nat, n: nat, filter: nat, first: bool, kind: nat, i: nat)
    returns (b: byte)
    requires LineInput(pixels, z, above, w, n, filter, first, kind) && i < n
    ensures b == LineGoal(pixels, z, above, w, n, filter, first)[i]
  {
    hide Predict, FirstPixelByte, LaterByte;
    var up := if first then 0 else pixels[above + i];
    KindsAgree(filter, first, kind, pixels[z + i], 0, up, 0);
    b := FirstPixelByte(kind, pixels[z + i], up);
  }

  method LaterAt(pixels: seq<byte>, z: nat, above: nat, w: nat, n: nat, filter: nat, first: bool, kind: nat, i: nat)
    returns (b: byte)
    requires LineInput(pixels, z, above, w, n, filter, first, kind) && n <= i < w
    ensures b == LineGoal(pixels, z, above, w, n, filter, first)[i]
  {
    hide Predict, FirstPixelByte, LaterByte;
    var up, upLeft := if first then 0 else pixels[above + i], if first then 0 else pixels[above + i - n];
    KindsAgree(filter, first, kind, pixels[z + i], pixels[z + i - n], up, upLeft);
    b := LaterByte(kind, pixels[z + i], pixels[z + i - n], up, upLeft);
  }

  // Both loops; the row above is not read when this is the first row.
  method EncodePixels(pixels: seq<byte>, z: nat, above: nat, w: nat, n: nat, filter: nat, first: bool, kind: nat,
                      line: array<byte>)
    requires LineInput(pixels, z, above, w, n, filter, first, kind) && line.Length == w
    modifies line
    ensures line[..] == LineGoal(pixels, z, above, w, n, filter, first)
  {
    hide LineGoal;
    ghost var goal := LineGoal(pixels, z, above, w, n, filter, first);
    var i := 0;
    while i < n
      invariant 0 <= i <= n && forall k :: 0 <= k < i ==> line[k] == goal[k]
    {
      line[i] := FirstPixelAt(pixels, z, above, w, n, filter, first, kind, i);
      i := i + 1;
    }
    while i < w
      invariant n <= i <= w && forall k :: 0 <= k < i ==> line[k] == goal[k]
    {
      line[i] := LaterAt(pixels, z, above, w, n, filter, first, kind, i);
      i := i + 1;
    }
  }

  // ---- the reader ----

  // 5 is the synthetic average filter of a first row.
  const FIRST_ROW_FILTER: seq<nat> := [0, 1, 0, 5, 1]

  // The bytes of the first pixel, and of the others, in the reader's switch.
  function FirstPixelRecon(filter: nat, raw: byte, prior: byte): byte {
    match filter
    case 2 => Add(raw, prior)
    case 3 => Add(raw, prior / 2)
    case 4 => Add(raw, prior) // prior == stbi__paeth(0,prior,0)
    case _ => raw
  }

  function LaterRecon(filter: nat, raw: byte, left: byte, up: byte, upLeft: byte): byte {
    match filter
    case 1 => Add(raw, left)
    case 2 => Add(raw, up)
    case 3 => Add(raw, (up + left) / 2)
    case 4 =>
      PaethFormsAgree(left, up, upLeft);
      Add(raw, PaethReader(left, up, upLeft))
    case 5 => Add(raw, left / 2)
    case _ => raw
  }

  lemma PaethOfTwoZeros(v: byte)
    ensures Paeth(0, v, 0) == v && Paeth(v, 0, 0) == v
  {
  }

  lemma ReconAgrees(filter: nat, first: bool, kind: nat, raw: byte, left: byte, up: byte, upLeft: byte)
    requires filter <= 4 && kind == (if first then FIRST_ROW_FILTER[filter] else filter)
    ensures var u, ul := if first then 0 else up, if first then 0 else upLeft;
            && FirstPixelRecon(kind, raw, up) == Add(raw, Predict(filter, 0, u, 0))
            && LaterRecon(kind, raw, left, up, upLeft) == Add(raw, Predict(filter, left, u, ul))
  {
    hide Paeth, PaethReader;
    PaethOfTwoZeros(up);
    PaethOfTwoZeros(left);
    PaethOfTwoZeros(0);
    PaethFormsAgree(left, up, upLeft);
    assert filter == 0 || filter == 1 || filter == 2 || filter == 3 || filter == 4;
  }

  // One more reconstructed byte.
  lemma ReconStep(filter: nat, raw: seq<byte>, prior: seq<byte>, n: nat, k: nat, b: byte)
    requires |raw| == |prior| && n >= 1 && k < |raw|
    requires var done := Reconstructed(filter, raw, prior, n, k);
             b == Add(raw[k], Predict(filter, LeftOf(done, n, k), prior[k], LeftOf(prior, n, k)))
    ensures Reconstructed(filter, raw, prior, n, k + 1) == Reconstructed(filter, raw, prior, n, k) + [b]
  {
  }

  ghost predicate Halves(buf: array<byte>, cur: nat, prior: nat, w: nat) {
    cur + w <= buf.Length && prior + w <= buf.Length && (cur + w <= prior || prior + w <= cur)
  }

  // The row above, as the reader's workspace holds it.
  ghost function Above(buf: array<byte>, prior: nat, w: nat, first: bool): (r: seq<byte>)
    requires prior + w <= buf.Length
    reads buf
    ensures |r| == w
  {
    if first then ZeroRow(w) else buf[prior..prior + w]
  }

  method ReconByte(raw: seq<byte>, at: nat, buf: array<byte>, cur: nat, prior: nat, w: nat, n: nat,
                   filter: nat, first: bool, kind: nat, k: nat)
    requires 1 <= n <= w && filter <= 4 && at + w <= |raw| && k < w
    requires kind == if first then FIRST_ROW_FILTER[filter] else filter
    requires Halves(buf, cur, prior, w)
    requires buf[cur..cur + k] == Reconstructed(filter, raw[at..at + w], Above(buf, prior, w, first), n, k)
    modifies buf
    ensures buf[prior..prior + w] == old(buf[prior..prior + w])
    ensures buf[cur..cur + k + 1] == Reconstructed(filter, raw[at..at + w], Above(buf, prior, w, first), n, k + 1)
  {
    hide Predict, FirstPixelRecon, LaterRecon, Reconstructed;
    ghost var done, above := buf[cur..cur + k], Above(buf, prior, w, first);
    var b;
    if k < n {
      ReconAgrees(filter, first, kind, raw[at + k], 0, buf[prior + k], 0);
      b := FirstPixelRecon(kind, raw[at + k], buf[prior + k]);
    } else {
      assert done[k - n] == buf[cur + k - n];
      ReconAgrees(filter, first, kind, raw[at + k], buf[cur + k - n], buf[prior + k], buf[prior + k - n]);
      b := LaterRecon(kind, raw[at + k], buf[cur + k - n], buf[prior + k], buf[prior + k - n]);
    }
    ReconStep(filter, raw[at..at + w], above, n, k, b);
    buf[cur + k] := b;
    assert buf[cur..cur + k] == done;
    assert buf[cur..cur + k + 1] == done + [b];
  }

  // One row of stbi__create_png_image_raw: undo the filter into one half of the workspace,
  // reading the row above from the other half. In a first row that half is not yet written.
  method DecodeLine(raw: seq<byte>, at: nat, buf: array<byte>, cur: nat, prior: nat, w: nat, n: nat,
                    filter: nat, first: bool)
    requires 1 <= n <= w && filter <= 4 && at + w <= |raw| && Halves(buf, cur, prior, w)
    modifies buf
    ensures buf[prior..prior + w] == old(buf[prior..prior + w])
    ensures buf[cur..cur + w] == DecodedRow(filter, raw[at..at + w], Above(buf, prior, w, first), n)
  {
    hide Reconstructed;
    var kind := if first then FIRST_ROW_FILTER[filter] else filter;
    NothingYet(filter, raw[at..at + w], Above(buf, prior, w, first), n);
    for k := 0 to w
      invariant buf[cur..cur + k] == Reconstructed(filter, raw[at..at + w], Above(buf, prior, w, first), n, k)
      invariant buf[prior..prior + w] == old(buf[prior..prior + w])
    {
      ReconByte(raw, at, buf, cur, prior, w, n, filter, first, kind, k);
    }
  }

  lemma NothingYet(filter: nat, raw: seq<byte>, prior: seq<byte>, n: nat)
    requires |raw| == |prior| && n >= 1
    ensures Reconstructed(filter, raw, prior, n, 0) == []
  {
  }
}
