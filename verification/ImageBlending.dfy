/** YangImageConvert::YUVBlending with an alpha foreground: pairs of pixels blended in place. */
module ImageBlending {
  import opened Basics
  import opened Blending
  import opened ImageOverlay

  /* ---- one pair of pixels ---- */

  type Quad = s: seq<byte> | |s| == 4 witness [0, 0, 0, 0]

  // A way of blending a pair of the image with six bytes of the foreground.
  type Blend = (seq<byte>, seq<byte>) -> Quad

  // The pair at p blended with the foreground at q, where both are there.
  function BlendPair(f: Blend, img: seq<byte>, fg: seq<byte>, p: nat, q: nat): (r: seq<byte>)
    ensures |r| == |img|
  {
    if p + 4 <= |img| && q + 6 <= |fg| then Put(img, p, f(img[p..p + 4], fg[q..q + 6])) else img
  }

  lemma PairElsewhere(f: Blend, img: seq<byte>, fg: seq<byte>, p: nat, q: nat, k: nat)
    requires k < |img| && (k < p || p + 4 <= k)
    ensures BlendPair(f, img, fg, p, q)[k] == img[k]
  {
  }

  lemma PairIs(f: Blend, img: seq<byte>, fg: seq<byte>, p: nat, q: nat, d: nat)
    requires p + 4 <= |img| && q + 6 <= |fg| && d < 4
    ensures BlendPair(f, img, fg, p, q)[p + d] == f(img[p..p + 4], fg[q..q + 6])[d]
  {
  }

  /* ---- a row of pairs, step bytes apart; rows, stride bytes apart ---- */

  function BlendRow(f: Blend, img: seq<byte>, fg: seq<byte>, at: nat, from: nat, step: nat, n: nat): (r: seq<byte>)
    ensures |r| == |img|
    decreases n
  {
    if n == 0 then img
    else
      BlendPair(f, BlendRow(f, img, fg, at, from, step, n - 1), fg, at + Times(step, n - 1), from + Times(6, n - 1))
  }

  // The layout of an image: rows of stride bytes in the image and fstride bytes in the foreground,
  // of which the first pairs * step bytes hold pixels.
  datatype Layout = Layout(stride: nat, fstride: nat, step: nat, pairs: nat)

  predicate WellLaid(l: Layout) {
    4 <= l.step && Times(l.step, l.pairs) <= l.stride && Times(6, l.pairs) <= l.fstride
  }

  function BlendRows(f: Blend, img: seq<byte>, fg: seq<byte>, l: Layout, rows: nat): (r: seq<byte>)
    ensures |r| == |img|
    decreases rows
  {
    if rows == 0 then img
    else
      var before := BlendRows(f, img, fg, l, rows - 1);
      BlendRow(f, before, fg, Times(l.stride, rows - 1), Times(l.fstride, rows - 1), l.step, l.pairs)
  }

  /* ---- what a row changes ---- */

  lemma {:induction false} RowFrame(f: Blend, img: seq<byte>, fg: seq<byte>, at: nat, from: nat, step: nat, n: nat,
                                    k: nat)
    requires 4 <= step && k < |img| && (k < at || at + Times(step, n) <= k)
    ensures BlendRow(f, img, fg, at, from, step, n)[k] == img[k]
    decreases n
  {
    if n == 0 {
    } else {
      RowFrame(f, img, fg, at, from, step, n - 1, k);
      PairElsewhere(f, BlendRow(f, img, fg, at, from, step, n - 1), fg, at + Times(step, n - 1),
                    from + Times(6, n - 1), k);
    }
  }

  // Byte d of the pair at p, blended with the foreground at q: new for the first four, kept for
  // the others.
  predicate PairDone(f: Blend, img: seq<byte>, result: seq<byte>, fg: seq<byte>, p: nat, q: nat, step: nat, d: nat) {
    && p + 4 <= |img| && q + 6 <= |fg| && d < step && p + d < |img| == |result|
    && result[p + d] == if d < 4 then f(img[p..p + 4], fg[q..q + 6])[d] else img[p + d]
  }

  lemma PairStays(f: Blend, img: seq<byte>, before: seq<byte>, after: seq<byte>, fg: seq<byte>, p: nat, q: nat,
                  step: nat, d: nat)
    requires PairDone(f, img, before, fg, p, q, step, d) && |after| == |before| && after[p + d] == before[p + d]
    ensures PairDone(f, img, after, fg, p, q, step, d)
  {
  }

  lemma SamePair(f: Blend, img: seq<byte>, before: seq<byte>, after: seq<byte>, fg: seq<byte>, p: nat, q: nat,
                 step: nat, d: nat)
    requires PairDone(f, before, after, fg, p, q, step, d) && |img| == |before|
    requires before[p..p + 4] == img[p..p + 4] && before[p + d] == img[p + d]
    ensures PairDone(f, img, after, fg, p, q, step, d)
  {
  }

  lemma {:induction false} RowPair(f: Blend, img: seq<byte>, fg: seq<byte>, at: nat, from: nat, step: nat, n: nat,
                                   j: nat, d: nat, p: nat, q: nat)
    requires 4 <= step && j < n && d < step
    requires at + Times(step, n) <= |img| && from + Times(6, n) <= |fg|
    requires p == at + Times(step, j) && q == from + Times(6, j)
    ensures PairDone(f, img, BlendRow(f, img, fg, at, from, step, n), fg, p, q, step, d)
    decreases n
  {
    var before, after := BlendRow(f, img, fg, at, from, step, n - 1), BlendRow(f, img, fg, at, from, step, n);
    var p1, q1 := at + Times(step, n - 1), from + Times(6, n - 1);
    assert after == BlendPair(f, before, fg, p1, q1);
    if j < n - 1 {
      TimesLess(step, j, n - 1);
      RowPair(f, img, fg, at, from, step, n - 1, j, d, p, q);
      PairElsewhere(f, before, fg, p1, q1, p + d);
      PairStays(f, img, before, after, fg, p, q, step, d);
    } else {
      assert p == p1 && q == q1;
      PairKept(f, img, before, fg, at, from, step, j, p, d);
      LastPair(f, img, before, after, fg, p, q, step, d);
    }
  }

  // Before its turn a pair is still the old one.
  lemma PairKept(f: Blend, img: seq<byte>, before: seq<byte>, fg: seq<byte>, at: nat, from: nat, step: nat, n: nat,
                 p: nat, d: nat)
    requires 4 <= step && d < step && before == BlendRow(f, img, fg, at, from, step, n)
    requires p == at + Times(step, n) && p + step <= |img|
    ensures before[p..p + 4] == img[p..p + 4] && before[p + d] == img[p + d]
  {
    forall k | p <= k < p + step
      ensures before[k] == img[k]
    {
      RowFrame(f, img, fg, at, from, step, n, k);
    }
  }

  lemma LastPair(f: Blend, img: seq<byte>, before: seq<byte>, after: seq<byte>, fg: seq<byte>, p: nat, q: nat,
                 step: nat, d: nat)
    requires after == BlendPair(f, before, fg, p, q)
    requires 4 <= step && d < step && p + step <= |img| == |before| && q + 6 <= |fg|
    requires before[p..p + 4] == img[p..p + 4] && before[p + d] == img[p + d]
    ensures PairDone(f, img, after, fg, p, q, step, d)
  {
    if d < 4 {
      PairIs(f, before, fg, p, q, d);
    } else {
      PairElsewhere(f, before, fg, p, q, p + d);
    }
  }

  /* ---- what all rows change ---- */

  lemma {:induction false} RowsFrame(f: Blend, img: seq<byte>, fg: seq<byte>, l: Layout, rows: nat, k: nat)
    requires WellLaid(l) && k < |img| && Times(l.stride, rows) <= k
    ensures BlendRows(f, img, fg, l, rows)[k] == img[k]
    decreases rows
  {
    if rows == 0 {
    } else {
      RowsFrame(f, img, fg, l, rows - 1, k);
      RowFrame(f, BlendRows(f, img, fg, l, rows - 1), fg, Times(l.stride, rows - 1), Times(l.fstride, rows - 1),
               l.step, l.pairs, k);
    }
  }

  // Past the pixels of a row nothing changes.
  lemma {:induction false} RowsGap(f: Blend, img: seq<byte>, fg: seq<byte>, l: Layout, rows: nat, i: nat, x: nat,
                                   k: nat)
    requires WellLaid(l) && Times(l.step, l.pairs) <= x < l.stride && k == Times(l.stride, i) + x < |img|
    ensures BlendRows(f, img, fg, l, rows)[k] == img[k]
    decreases rows
  {
    if rows == 0 {
    } else {
      var h := rows - 1;
      RowsGap(f, img, fg, l, h, i, x, k);
      if h < i {
        TimesLess(l.stride, h, i);
      } else if i < h {
        TimesLess(l.stride, i, h);
      }
      RowFrame(f, BlendRows(f, img, fg, l, h), fg, Times(l.stride, h), Times(l.fstride, h), l.step, l.pairs, k);
    }
  }

  lemma {:induction false} RowsPair(f: Blend, img: seq<byte>, fg: seq<byte>, l: Layout, rows: nat, i: nat, j: nat,
                                    d: nat, p: nat, q: nat)
    requires WellLaid(l) && i < rows && j < l.pairs && d < l.step
    requires Times(l.stride, rows) <= |img| && Times(l.fstride, rows) <= |fg|
    requires p == Times(l.stride, i) + Times(l.step, j) && q == Times(l.fstride, i) + Times(6, j)
    ensures PairDone(f, img, BlendRows(f, img, fg, l, rows), fg, p, q, l.step, d)
    decreases rows
  {
    var h := rows - 1;
    var before, after := BlendRows(f, img, fg, l, h), BlendRows(f, img, fg, l, rows);
    var at, from := Times(l.stride, h), Times(l.fstride, h);
    assert after == BlendRow(f, before, fg, at, from, l.step, l.pairs);
    assert Times(l.stride, rows) == at + l.stride && Times(l.fstride, rows) == from + l.fstride;
    TimesLess(l.step, j, l.pairs);
    if i < h {
      TimesLess(l.stride, i, h);
      RowsPair(f, img, fg, l, h, i, j, d, p, q);
      RowFrame(f, before, fg, at, from, l.step, l.pairs, p + d);
      PairStays(f, img, before, after, fg, p, q, l.step, d);
    } else {
      RowPair(f, before, fg, at, from, l.step, l.pairs, j, d, p, q);
      RowsKept(f, img, before, fg, l, h, p, d);
      SamePair(f, img, before, after, fg, p, q, l.step, d);
    }
  }

  // Before its turn a row is still the old one.
  lemma RowsKept(f: Blend, img: seq<byte>, before: seq<byte>, fg: seq<byte>, l: Layout, h: nat, p: nat, d: nat)
    requires WellLaid(l) && before == BlendRows(f, img, fg, l, h) && Times(l.stride, h) <= p && p + l.step <= |img|
    requires d < l.step
    ensures before[p..p + 4] == img[p..p + 4] && before[p + d] == img[p + d]
  {
    forall k | p <= k < p + l.step
      ensures before[k] == img[k]
    {
      RowsFrame(f, img, fg, l, h, k);
    }
  }

  /* ---- YUVBlending ---- */

  // A blended pair: Y1, U, Y2 and V; the foreground's fifth and sixth byte are the alphas.
  function BlendedPair(img: seq<byte>, fg: seq<byte>): Quad {
    if |img| == 4 && |fg| == 6 then
      [Luma(img[0], fg[0], fg[4]), Chroma(img[1], fg[1], fg[4], fg[5]),
       Luma(img[2], fg[2], fg[5]), Chroma(img[3], fg[3], fg[4], fg[5])]
    else [0, 0, 0, 0]
  }

  // Pixels of an image take two bytes without and three with alpha, those of the foreground three.
  function LayoutOf(width: nat, alphaBG: bool): Layout {
    Layout(width * (if alphaBG then 3 else 2), width * 3, if alphaBG then 6 else 4, width / 2)
  }

  lemma LayoutIsWell(width: nat, alphaBG: bool)
    ensures WellLaid(LayoutOf(width, alphaBG))
  {
    TimesIs(if alphaBG then 6 else 4, width / 2);
    TimesIs(6, width / 2);
  }

  function Blended(img: seq<byte>, fg: seq<byte>, width: nat, height: nat, alphaBG: bool): seq<byte> {
    BlendRows(BlendedPair, img, fg, LayoutOf(width, alphaBG), height)
  }

  predicate HoldsPixels(img: nat, fg: nat, width: nat, height: nat, alphaBG: bool) {
    Times(width * (if alphaBG then 3 else 2), height) <= img && Times(width * 3, height) <= fg
  }

  lemma Position(stride: nat, step: nat, i: nat, j: nat, p: nat)
    requires p == i * stride + j * step
    ensures p == Times(stride, i) + Times(step, j)
  {
    TimesIs(stride, i);
    TimesIs(step, j);
  }

  // Byte d of pair j in row i of the result: the blend of the old byte with the foreground's, or,
  // for a background alpha, the old byte.
  lemma BlendedByte(img: seq<byte>, fg: seq<byte>, width: nat, height: nat, alphaBG: bool,
                    i: nat, j: nat, d: nat, p: nat, q: nat)
    requires HoldsPixels(|img|, |fg|, width, height, alphaBG) && i < height && j < width / 2
    requires d < if alphaBG then 6 else 4
    requires p == i * (width * (if alphaBG then 3 else 2)) + j * (if alphaBG then 6 else 4)
    requires q == i * (width * 3) + j * 6
    ensures PairDone(BlendedPair, img, Blended(img, fg, width, height, alphaBG), fg, p, q,
                     if alphaBG then 6 else 4, d)
  {
    LayoutIsWell(width, alphaBG);
    Position(width * (if alphaBG then 3 else 2), if alphaBG then 6 else 4, i, j, p);
    Position(width * 3, 6, i, j, q);
    RowsPair(BlendedPair, img, fg, LayoutOf(width, alphaBG), height, i, j, d, p, q);
  }

  // The bytes of a pair by the arithmetic of the code: the first luma under the first alpha, the
  // second under the second, both chromas under both.
  function CodeByte(img: seq<byte>, fg: seq<byte>, p: nat, q: nat, d: nat): int
    requires p + 4 <= |img| && q + 6 <= |fg| && d < 4
  {
    if d == 0 then LumaCode(img[p], fg[q], fg[q + 4])
    else if d == 1 then ChromaCode(img[p + 1], fg[q + 1], fg[q + 4], fg[q + 5])
    else if d == 2 then LumaCode(img[p + 2], fg[q + 2], fg[q + 5])
    else ChromaCode(img[p + 3], fg[q + 3], fg[q + 4], fg[q + 5])
  }

  lemma PairIsCode(img: seq<byte>, fg: seq<byte>, d: nat)
    requires |img| == 4 && |fg| == 6 && d < 4
    ensures BlendedPair(img, fg)[d] == CodeByte(img, fg, 0, 0, d)
  {
    if d == 0 {
      LumaFormula(img[0], fg[0], fg[4]);
    } else if d == 1 {
      ChromaFormula(img[1], fg[1], fg[4], fg[5]);
    } else if d == 2 {
      LumaFormula(img[2], fg[2], fg[5]);
    } else {
      ChromaFormula(img[3], fg[3], fg[4], fg[5]);
    }
  }

  lemma SameCode(img: seq<byte>, fg: seq<byte>, p: nat, q: nat, d: nat)
    requires p + 4 <= |img| && q + 6 <= |fg| && d < 4
    ensures CodeByte(img[p..p + 4], fg[q..q + 6], 0, 0, d) == CodeByte(img, fg, p, q, d)
  {
  }

  // Every pixel byte of the result is what the code's arithmetic makes of the old one.
  lemma PairFormula(img: seq<byte>, fg: seq<byte>, width: nat, height: nat, alphaBG: bool,
                    i: nat, j: nat, d: nat, p: nat, q: nat)
    requires HoldsPixels(|img|, |fg|, width, height, alphaBG) && i < height && j < width / 2 && d < 4
    requires p == i * (width * (if alphaBG then 3 else 2)) + j * (if alphaBG then 6 else 4)
    requires q == i * (width * 3) + j * 6
    ensures p + 4 <= |img| && q + 6 <= |fg|
    ensures Blended(img, fg, width, height, alphaBG)[p + d] == CodeByte(img, fg, p, q, d)
  {
    BlendedByte(img, fg, width, height, alphaBG, i, j, d, p, q);
    PairIsCode(img[p..p + 4], fg[q..q + 6], d);
    SameCode(img, fg, p, q, d);
  }

  // So every pixel byte ends within one of the interval between background and foreground. A luma is
  // the foreground's where its own alpha is 255 and the background's where it is 0, whatever the other
  // alpha is; a chroma where both are.
  lemma BlendedBetween(img: seq<byte>, fg: seq<byte>, width: nat, height: nat, alphaBG: bool,
                       i: nat, j: nat, d: nat, p: nat, q: nat)
    requires HoldsPixels(|img|, |fg|, width, height, alphaBG) && i < height && j < width / 2 && d < 4
    requires p == i * (width * (if alphaBG then 3 else 2)) + j * (if alphaBG then 6 else 4)
    requires q == i * (width * 3) + j * 6
    ensures p + 4 <= |img| && q + 6 <= |fg|
    ensures var v := Blended(img, fg, width, height, alphaBG)[p + d];
            && Min(img[p + d], fg[q + d]) - 1 <= v <= Max(img[p + d], fg[q + d]) + 1
            && (d != 2 && fg[q + 4] == 255 && (d == 0 || fg[q + 5] == 255) ==> v == fg[q + d])
            && (d == 2 && fg[q + 5] == 255 ==> v == fg[q + d])
            && (d != 2 && fg[q + 4] == 0 && (d == 0 || fg[q + 5] == 0) ==> v == img[p + d])
            && (d == 2 && fg[q + 5] == 0 ==> v == img[p + d])
  {
    BlendedByte(img, fg, width, height, alphaBG, i, j, d, p, q);
    PairBetween(img[p..p + 4], fg[q..q + 6], d);
  }

  lemma PairBetween(img: seq<byte>, fg: seq<byte>, d: nat)
    requires |img| == 4 && |fg| == 6 && d < 4
    ensures var v := BlendedPair(img, fg)[d];
            && Min(img[d], fg[d]) - 1 <= v <= Max(img[d], fg[d]) + 1
            && (d != 2 && fg[4] == 255 && (d == 0 || fg[5] == 255) ==> v == fg[d])
            && (d == 2 && fg[5] == 255 ==> v == fg[d])
            && (d != 2 && fg[4] == 0 && (d == 0 || fg[5] == 0) ==> v == img[d])
            && (d == 2 && fg[5] == 0 ==> v == img[d])
  {
    if d == 0 {
      LumaBetween(img[0], fg[0], fg[4]);
    } else if d == 1 {
      ChromaBetween(img[1], fg[1], fg[4], fg[5]);
    } else if d == 2 {
      LumaBetween(img[2], fg[2], fg[5]);
    } else {
      ChromaBetween(img[3], fg[3], fg[4], fg[5]);
    }
  }

  lemma LaidFrame(f: Blend, img: seq<byte>, fg: seq<byte>, l: Layout, rows: nat, i: nat, x: nat, k: nat)
    requires WellLaid(l) && x < l.stride && k == Times(l.stride, i) + x < |img|
    requires rows <= i || Times(l.step, l.pairs) <= x
    ensures BlendRows(f, img, fg, l, rows)[k] == img[k]
  {
    if rows <= i {
      if rows < i {
        TimesLess(l.stride, rows, i);
      }
      RowsFrame(f, img, fg, l, rows, k);
    } else {
      RowsGap(f, img, fg, l, rows, i, x, k);
    }
  }

  // Outside the pairs nothing changes: the odd pixel of a row, and what follows the last row.
  lemma BlendedFrame(img: seq<byte>, fg: seq<byte>, width: nat, height: nat, alphaBG: bool, i: nat, x: nat, k: nat)
    requires x < width * (if alphaBG then 3 else 2) && k == i * (width * (if alphaBG then 3 else 2)) + x < |img|
    requires height <= i || width / 2 * (if alphaBG then 6 else 4) <= x
    ensures Blended(img, fg, width, height, alphaBG)[k] == img[k]
  {
    LayoutIsWell(width, alphaBG);
    TimesIs(width * (if alphaBG then 3 else 2), i);
    TimesIs(if alphaBG then 6 else 4, width / 2);
    LaidFrame(BlendedPair, img, fg, LayoutOf(width, alphaBG), height, i, x, k);
  }

  lemma PutPair(now: seq<byte>, img: seq<byte>, p: nat, quad: Quad)
    requires p + 4 <= |img| == |now|
    requires now[p] == quad[0] && now[p + 1] == quad[1] && now[p + 2] == quad[2] && now[p + 3] == quad[3]
    requires forall k :: (0 <= k < p || p + 4 <= k < |img|) ==> now[k] == img[k]
    ensures now == Put(img, p, quad)
  {
  }

  // The body of the loops: the bytes of a pair read, blended and written back.
  method BlendInPlace(blend: Blend, bg: array<byte>, fg: array<byte>, p: nat, q: nat)
    requires bg != fg && p + 4 <= bg.Length && q + 6 <= fg.Length
    modifies bg
    ensures bg[..] == BlendPair(blend, old(bg[..]), fg[..], p, q)
  {
    ghost var img := bg[..];
    var quad := blend(bg[p..p + 4], fg[q..q + 6]);
    assert img[p..p + 4] == bg[p..p + 4] && fg[..][q..q + 6] == fg[q..q + 6];
    bg[p] := quad[0];
    bg[p + 1] := quad[1];
    bg[p + 3] := quad[3];
    bg[p + 2] := quad[2];
    PutPair(bg[..], img, p, quad);
  }

  lemma PairPositions(j: nat)
    ensures Times(4, j) == j * 4 && Times(6, j) == j * 6
  {
    TimesIs(4, j);
    TimesIs(6, j);
  }

  // Pair j of a row, at the positions the code computes.
  method BlendNth(blend: Blend, bg: array<byte>, fg: array<byte>, at: nat, from: nat, step: nat, j: nat)
    requires bg != fg && (step == 4 || step == 6)
    requires at + Times(step, j) + step <= bg.Length && from + Times(6, j) + 6 <= fg.Length
    modifies bg
    ensures bg[..] == BlendPair(blend, old(bg[..]), fg[..], at + Times(step, j), from + Times(6, j))
  {
    PairPositions(j);
    BlendInPlace(blend, bg, fg, at + (if step == 4 then j * 4 else j * 6), from + j * 6);
  }

  // The inner loop.
  method BlendOneRow(blend: Blend, bg: array<byte>, fg: array<byte>, at: nat, from: nat, step: nat, pairs: nat)
    requires bg != fg && (step == 4 || step == 6)
    requires at + Times(step, pairs) <= bg.Length && from + Times(6, pairs) <= fg.Length
    modifies bg
    ensures bg[..] == BlendRow(blend, old(bg[..]), fg[..], at, from, step, pairs)
  {
    for j := 0 to pairs
      invariant bg[..] == BlendRow(blend, old(bg[..]), fg[..], at, from, step, j)
    {
      assert at + Times(step, j) + step <= bg.Length && from + Times(6, j) + 6 <= fg.Length by {
        TimesLess(step, j, pairs);
        TimesLess(6, j, pairs);
      }
      BlendNth(blend, bg, fg, at, from, step, j);
    }
  }

  // Row i, at the positions the code computes.
  method BlendRowNth(blend: Blend, bg: array<byte>, fg: array<byte>, l: Layout, i: nat)
    requires bg != fg && WellLaid(l) && (l.step == 4 || l.step == 6)
    requires Times(l.stride, i) + l.stride <= bg.Length && Times(l.fstride, i) + l.fstride <= fg.Length
    modifies bg
    ensures bg[..] == BlendRow(blend, old(bg[..]), fg[..], Times(l.stride, i), Times(l.fstride, i), l.step, l.pairs)
  {
    TimesIs(l.stride, i);
    TimesIs(l.fstride, i);
    BlendOneRow(blend, bg, fg, i * l.stride, i * l.fstride, l.step, l.pairs);
  }

  // YUVBlending with alphaFG.
  method YuvBlending(bg: array?<byte>, fg: array?<byte>, width: nat, height: nat, alphaBG: bool) returns (ret: int)
    requires bg == null || fg == null
          || (bg != fg && HoldsPixels(bg.Length, fg.Length, width, height, alphaBG))
    modifies if bg == null then {} else {bg}
    ensures ret == if bg == null || fg == null then -1 else 0
    ensures bg != null ==> bg[..] == if fg == null then old(bg[..])
                                     else Blended(old(bg[..]), fg[..], width, height, alphaBG)
  {
    if bg == null || fg == null {
      return -1;
    }
    var l := LayoutOf(width, alphaBG);
    LayoutIsWell(width, alphaBG);
    for i := 0 to height
      invariant bg[..] == BlendRows(BlendedPair, old(bg[..]), fg[..], l, i)
    {
      TimesLess(l.stride, i, height);
      TimesLess(l.fstride, i, height);
      BlendRowNth(BlendedPair, bg, fg, l, i);
    }
    ret := 0;
  }
}
