/** YangImageConvert::plusYuy2: a YUY2 overlay is copied into one corner of an image, in place. */
module ImageOverlay {
  import opened Basics

  /* ---- positions: row r of a buffer with rows of stride bytes starts at Times(stride, r) ---- */

  // A position lies in a written row exactly when its row and column do.
  lemma InRow(row: nat, left: nat, stride: nat, n: nat, r: nat, c: nat)
    requires left + n <= stride && c < stride
    ensures Times(stride, row) + left <= Times(stride, r) + c < Times(stride, row) + left + n
       <==> r == row && left <= c < left + n
  {
    if r < row {
      TimesLess(stride, r, row);
    } else if row < r {
      TimesLess(stride, row, r);
    }
  }

  /* ---- the corner rectangles ---- */

  datatype Sizes = Sizes(srcWidth: nat, srcHeight: nat, destWidth: nat, destHeight: nat)

  // The overlay is no larger than the image, and both buffers hold their pixels.
  predicate Fits(z: Sizes, img: nat, overlay: nat) {
    && z.destWidth <= z.srcWidth && z.destHeight <= z.srcHeight
    && Times(2 * z.srcWidth, z.srcHeight) <= img && Times(2 * z.destWidth, z.destHeight) <= overlay
  }

  // The top row and the left byte column of the rectangle: models 1 to 4 are the corners top left,
  // top right, bottom left and bottom right.
  function Top(z: Sizes, model: int): int {
    if model == 3 || model == 4 then z.srcHeight - z.destHeight else 0
  }

  function Left(z: Sizes, model: int): int {
    if model == 2 || model == 4 then 2 * (z.srcWidth - z.destWidth) else 0
  }

  predicate InCorner(z: Sizes, model: int, r: nat, c: nat) {
    && 1 <= model <= 4
    && Top(z, model) <= r < Top(z, model) + z.destHeight
    && Left(z, model) <= c < Left(z, model) + 2 * z.destWidth
  }

  // Where the code starts writing.
  function Start(z: Sizes, model: int): int {
    if model == 4 then (z.srcHeight - z.destHeight + 1) * z.srcWidth * 2 - z.destWidth * 2
    else if model == 3 then 2 * z.srcWidth * (z.srcHeight - z.destHeight)
    else if model == 2 then 2 * z.srcWidth - 2 * z.destWidth
    else 0
  }

  // The code's start is the rectangle's first byte; the rectangle touches the two edges of its corner.
  lemma StartIsCorner(z: Sizes, model: int)
    requires 1 <= model <= 4 && z.destWidth <= z.srcWidth && z.destHeight <= z.srcHeight
    ensures Top(z, model) >= 0 && Start(z, model) == Times(2 * z.srcWidth, Top(z, model)) + Left(z, model)
    ensures if model <= 2 then Top(z, model) == 0 else Top(z, model) + z.destHeight == z.srcHeight
    ensures if model == 1 || model == 3 then Left(z, model) == 0
            else Left(z, model) + 2 * z.destWidth == 2 * z.srcWidth
  {
    var h, w := z.srcHeight - z.destHeight, z.srcWidth;
    TimesIs(2 * w, Top(z, model));
    assert (h + 1) * w * 2 == h * (2 * w) + 2 * w;
    assert 2 * w * h == h * (2 * w);
  }

  /* ---- rows written one after the other ---- */

  // data written over an image from position at on.
  function Put(img: seq<byte>, at: nat, data: seq<byte>): (r: seq<byte>)
    ensures |r| == |img|
  {
    seq(|img|, k requires 0 <= k < |img| => if at <= k < at + |data| then data[k - at] else img[k])
  }

  lemma PutByte(img: seq<byte>, at: nat, data: seq<byte>, k: nat)
    requires at + |data| <= |img| && k < |img|
    ensures Put(img, at, data)[k] == if at <= k < at + |data| then data[k - at] else img[k]
  {
  }

  // Row i of an overlay whose rows have n bytes.
  function Line(overlay: seq<byte>, i: nat, n: nat): seq<byte> {
    if Times(n, i) + n <= |overlay| then overlay[Times(n, i)..Times(n, i) + n] else []
  }

  function PutRows(img: seq<byte>, overlay: seq<byte>, start: nat, stride: nat, n: nat, rows: nat): (r: seq<byte>)
    ensures |r| == |img|
    decreases rows
  {
    if rows == 0 then img
    else
      var before := PutRows(img, overlay, start, stride, n, rows - 1);
      Put(before, start + Times(stride, rows - 1), Line(overlay, rows - 1, n))
  }

  // The overlay's byte in row i, column j.
  function ByteOf(overlay: seq<byte>, i: nat, j: nat, n: nat): byte {
    if Times(n, i) + j < |overlay| then overlay[Times(n, i) + j] else 0
  }

  lemma PixelStep(before: seq<byte>, overlay: seq<byte>, p: nat, n: nat, i: nat, dr: int, dc: int, k: nat)
    requires p + n <= |before| && k < |before| && Times(n, i) + n <= |overlay|
    requires p <= k < p + n <==> dr == i && 0 <= dc < n
    requires dr == i ==> k - p == dc
    ensures Put(before, p, Line(overlay, i, n))[k]
         == if dr == i && 0 <= dc < n then ByteOf(overlay, i, dc, n) else before[k]
  {
    PutByte(before, p, Line(overlay, i, n), k);
  }

  // Among the rows written from start on, position k is column dc of row dr and of no other.
  ghost predicate Locates(start: nat, stride: nat, n: nat, rows: nat, dr: int, dc: int, k: nat) {
    forall i :: 0 <= i < rows ==> var p := start + Times(stride, i);
      (p <= k < p + n <==> dr == i && 0 <= dc < n) && (dr == i ==> k - p == dc)
  }

  ghost predicate RowsFit(start: nat, stride: nat, n: nat, rows: nat, img: nat, overlay: nat) {
    forall i :: 0 <= i < rows ==> start + Times(stride, i) + n <= img && Times(n, i) + n <= overlay
  }

  // What stands there afterwards.
  lemma {:induction false} RowsPixel(img: seq<byte>, overlay: seq<byte>, start: nat, stride: nat, n: nat, rows: nat,
                                     dr: int, dc: int, k: nat)
    requires RowsFit(start, stride, n, rows, |img|, |overlay|)
    requires Locates(start, stride, n, rows, dr, dc, k) && k < |img|
    ensures PutRows(img, overlay, start, stride, n, rows)[k]
         == if 0 <= dr < rows && 0 <= dc < n then ByteOf(overlay, dr, dc, n) else img[k]
    decreases rows
  {
    if rows == 0 {
    } else {
      var i := rows - 1;
      var before, p := PutRows(img, overlay, start, stride, n, i), start + Times(stride, i);
      assert p <= k < p + n <==> dr == i && 0 <= dc < n;
      assert p + n <= |img| && Times(n, i) + n <= |overlay|;
      RowsPixel(img, overlay, start, stride, n, i, dr, dc, k);
      PixelStep(before, overlay, p, n, i, dr, dc, k);
    }
  }

  lemma Located(start: nat, top: nat, left: nat, stride: nat, n: nat, rows: nat, r: nat, c: nat, k: nat)
    requires left + n <= stride && c < stride
    requires k == Times(stride, r) + c && start == Times(stride, top) + left
    ensures Locates(start, stride, n, rows, r - top, c - left, k)
  {
    forall i | 0 <= i < rows
      ensures var p := start + Times(stride, i);
              (p <= k < p + n <==> r - top == i && 0 <= c - left < n) && (r - top == i ==> k - p == c - left)
    {
      TimesSum(stride, top, i);
      InRow(top + i, left, stride, n, r, c);
    }
  }

  /* ---- plusYuy2 ---- */

  function Placed(img: seq<byte>, overlay: seq<byte>, z: Sizes, model: int): (r: seq<byte>)
    requires Fits(z, |img|, |overlay|)
    ensures |r| == |img|
  {
    if 1 <= model <= 4 then
      StartIsCorner(z, model);
      PutRows(img, overlay, Start(z, model), 2 * z.srcWidth, 2 * z.destWidth, z.destHeight)
    else img
  }

  // Inside the rectangle, ByteOf is the overlay's byte at the position the code reads.
  lemma OverlayByte(overlay: seq<byte>, z: Sizes, i: nat, j: nat)
    requires Times(2 * z.destWidth, z.destHeight) <= |overlay| && i < z.destHeight && j < 2 * z.destWidth
    ensures i * 2 * z.destWidth + j < |overlay|
    ensures ByteOf(overlay, i, j, 2 * z.destWidth) == overlay[i * 2 * z.destWidth + j]
  {
    TimesLess(2 * z.destWidth, i, z.destHeight);
    RowProducts(i, z.destWidth);
  }

  // Every row of the rectangle lies in the image.
  lemma RowsInside(z: Sizes, model: int, start: nat, img: nat, overlay: nat)
    requires 1 <= model <= 4 && Fits(z, img, overlay)
    requires start == Times(2 * z.srcWidth, Top(z, model)) + Left(z, model)
    ensures RowsFit(start, 2 * z.srcWidth, 2 * z.destWidth, z.destHeight, img, overlay)
  {
    var top := Top(z, model);
    forall i | 0 <= i < z.destHeight
      ensures start + Times(2 * z.srcWidth, i) + 2 * z.destWidth <= img
      ensures Times(2 * z.destWidth, i) + 2 * z.destWidth <= overlay
    {
      TimesSum(2 * z.srcWidth, top, i);
      TimesLess(2 * z.srcWidth, top + i, z.srcHeight);
      TimesLess(2 * z.destWidth, i, z.destHeight);
    }
  }

  // Every byte of the image afterwards: the overlay's byte inside the chosen corner's rectangle,
  // the old byte everywhere else.
  lemma PlacedPixel(img: seq<byte>, overlay: seq<byte>, z: Sizes, model: int, r: nat, c: nat, k: nat)
    requires Fits(z, |img|, |overlay|)
    requires c < 2 * z.srcWidth && k == r * (2 * z.srcWidth) + c < |img|
    ensures Placed(img, overlay, z, model)[k] ==
            if InCorner(z, model, r, c) then ByteOf(overlay, r - Top(z, model), c - Left(z, model), 2 * z.destWidth)
            else img[k]
  {
    TimesIs(2 * z.srcWidth, r);
    if 1 <= model <= 4 {
      StartIsCorner(z, model);
      CornerPixel(img, overlay, z, model, r, c, k, Start(z, model), r - Top(z, model), c - Left(z, model));
    }
  }

  lemma CornerPixel(img: seq<byte>, overlay: seq<byte>, z: Sizes, model: int, r: nat, c: nat, k: nat, start: nat,
                    dr: int, dc: int)
    requires Fits(z, |img|, |overlay|) && 1 <= model <= 4
    requires c < 2 * z.srcWidth && k == Times(2 * z.srcWidth, r) + c < |img|
    requires start == Times(2 * z.srcWidth, Top(z, model)) + Left(z, model)
    requires dr == r - Top(z, model) && dc == c - Left(z, model)
    ensures PutRows(img, overlay, start, 2 * z.srcWidth, 2 * z.destWidth, z.destHeight)[k]
         == if 0 <= dr < z.destHeight && 0 <= dc < 2 * z.destWidth then ByteOf(overlay, dr, dc, 2 * z.destWidth)
            else img[k]
  {
    var stride, n := 2 * z.srcWidth, 2 * z.destWidth;
    RowsInside(z, model, start, |img|, |overlay|);
    Located(start, Top(z, model), Left(z, model), stride, n, z.destHeight, r, c, k);
    RowsPixel(img, overlay, start, stride, n, z.destHeight, dr, dc, k);
  }

  // The code computes the start of row i by a product.
  lemma RowProducts(i: nat, width: nat)
    ensures Times(2 * width, i) == 2 * i * width == i * 2 * width
  {
    TimesIs(2 * width, i);
    assert i * (2 * width) == 2 * (i * width) == (2 * i) * width;
  }

  // The inner loop: one row of the overlay, two bytes at a time.
  method CopyRow(src: array<byte>, dest: array<byte>, at: nat, from: nat, width: nat)
    requires src != dest && at + 2 * width <= src.Length && from + 2 * width <= dest.Length
    modifies src
    ensures src[..] == Put(old(src[..]), at, dest[from..from + 2 * width])
  {
    var j := 0;
    while j < width * 2
      invariant 0 <= j <= 2 * width && j % 2 == 0
      invariant forall k :: at <= k < at + j ==> src[k] == dest[from + (k - at)]
      invariant forall k :: (0 <= k < at || at + j <= k < src.Length) ==> src[k] == old(src[k])
    {
      src[at + j] := dest[from + j];
      src[at + j + 1] := dest[from + j + 1];
      j := j + 2;
    }
    ghost var img, line := old(src[..]), dest[from..from + 2 * width];
    forall k | 0 <= k < src.Length
      ensures src[..][k] == Put(img, at, line)[k]
    {
      PutByte(img, at, line, k);
    }
  }

  // Row i, at the positions the code computes.
  method CopyLine(src: array<byte>, dest: array<byte>, z: Sizes, start: nat, i: nat)
    requires src != dest
    requires start + Times(2 * z.srcWidth, i) + 2 * z.destWidth <= src.Length
    requires Times(2 * z.destWidth, i) + 2 * z.destWidth <= dest.Length
    modifies src
    ensures src[..] == Put(old(src[..]), start + Times(2 * z.srcWidth, i), Line(dest[..], i, 2 * z.destWidth))
  {
    RowProducts(i, z.srcWidth);
    RowProducts(i, z.destWidth);
    var from := i * 2 * z.destWidth;
    CopyRow(src, dest, start + 2 * i * z.srcWidth, from, z.destWidth);
    assert dest[from..from + 2 * z.destWidth] == Line(dest[..], i, 2 * z.destWidth);
  }

  // The outer loop.
  method CopyRows(src: array<byte>, dest: array<byte>, z: Sizes, start: nat)
    requires src != dest
    requires RowsFit(start, 2 * z.srcWidth, 2 * z.destWidth, z.destHeight, src.Length, dest.Length)
    modifies src
    ensures src[..] == PutRows(old(src[..]), dest[..], start, 2 * z.srcWidth, 2 * z.destWidth, z.destHeight)
  {
    for i := 0 to z.destHeight
      invariant src[..] == PutRows(old(src[..]), dest[..], start, 2 * z.srcWidth, 2 * z.destWidth, i)
    {
      CopyLine(src, dest, z, start, i);
    }
  }

  method PlusYuy2(src: array<byte>, dest: array<byte>, z: Sizes, model: int)
    requires src != dest && Fits(z, src.Length, dest.Length)
    modifies src
    ensures src[..] == Placed(old(src[..]), dest[..], z, model)
  {
    if model < 1 || 4 < model {
      return;
    }
    StartIsCorner(z, model);
    var start := Start(z, model);
    RowsInside(z, model, start, src.Length, dest.Length);
    CopyRows(src, dest, z, start);
  }
}
