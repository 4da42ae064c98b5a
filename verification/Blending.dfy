/** The arithmetic of YUVBlending: weighted means with C's truncating division. */
module Blending {
  import opened Basics

  // x * a / 255 + y * (255 - a) / 255.
  function Mix(x: int, y: int, a: byte): int {
    CDiv(Times(x, a), 255) + CDiv(Times(y, 255 - a), 255)
  }

  lemma MixFormula(x: int, y: int, a: byte)
    ensures Mix(x, y, a) == CDiv(x * a, 255) + CDiv(y * (255 - a), 255)
  {
    TimesIs(x, a);
    TimesIs(y, 255 - a);
  }

  lemma WeightedBounds(x: int, y: int, a: byte, p: int, q: int)
    requires p == x * a && q == y * (255 - a)
    ensures 255 * Min(x, y) <= p + q <= 255 * Max(x, y)
    ensures (0 <= x ==> 0 <= p) && (x <= 0 ==> p <= 0) && (0 <= y ==> 0 <= q) && (y <= 0 ==> q <= 0)
  {
    var lo, hi := Min(x, y), Max(x, y);
    Monotone(lo, x, a);
    Monotone(x, hi, a);
    Monotone(lo, y, 255 - a);
    Monotone(y, hi, 255 - a);
    Whole(lo, a);
    Whole(hi, a);
    Sign(x, a);
    Sign(y, 255 - a);
  }

  lemma Monotone(x: int, y: int, a: nat)
    requires x <= y
    ensures x * a <= y * a
  {
    assert (y - x) * a >= 0;
  }

  lemma Whole(x: int, a: byte)
    ensures x * a + x * (255 - a) == 255 * x
  {
  }

  lemma Sign(x: int, a: nat)
    ensures (0 <= x ==> 0 <= x * a) && (x <= 0 ==> x * a <= 0)
  {
    Monotone(if x <= 0 then x else 0, if x <= 0 then 0 else x, a);
  }

  // A mean is within one of the interval between its two values, and never leaves the interval on
  // the side away from zero.
  lemma MixBounds(x: int, y: int, a: byte)
    ensures Min(x, y) - 1 <= Mix(x, y, a) <= Max(x, y) + 1
    ensures Min(Min(x, y), 0) <= Mix(x, y, a) <= Max(Max(x, y), 0)
  {
    MixFormula(x, y, a);
    WeightedBounds(x, y, a, x * a, y * (255 - a));
    SumOfQuotients(x * a, y * (255 - a), Min(x, y), Max(x, y), (0 <= x && 0 <= y), (x <= 0 && y <= 0));
  }

  lemma SumOfQuotients(p: int, q: int, lo: int, hi: int, above: bool, below: bool)
    requires 255 * lo <= p + q <= 255 * hi
    requires above ==> 0 <= p && 0 <= q
    requires below ==> p <= 0 && q <= 0
    requires above || below || lo <= 0 <= hi
    requires above ==> 0 <= lo
    requires below ==> hi <= 0
    ensures lo - 1 <= CDiv(p, 255) + CDiv(q, 255) <= hi + 1
    ensures Min(lo, 0) <= CDiv(p, 255) + CDiv(q, 255) <= Max(hi, 0)
  {
  }

  lemma MixEnds(x: int, y: int)
    ensures Mix(x, y, 255) == x && Mix(x, y, 0) == y
  {
    MixFormula(x, y, 255);
    MixFormula(x, y, 0);
  }

  /* ---- luma and chroma ---- */

  function Luma(bg: byte, fg: byte, a: byte): byte {
    MixBounds(fg - 16, bg - 16, a);
    Mix(fg - 16, bg - 16, a) + 16
  }

  function Chroma(bg: byte, fg: byte, a1: byte, a2: byte): byte {
    MixBounds(fg - 128, bg - 128, a1);
    MixBounds(fg - 128, bg - 128, a2);
    CDiv(Mix(fg - 128, bg - 128, a1) + Mix(fg - 128, bg - 128, a2), 2) + 128
  }

  // The formulas as the code has them.
  function LumaCode(bg: int, fg: int, a: int): int {
    CDiv((fg - 16) * a, 255) + CDiv((bg - 16) * (255 - a), 255) + 16
  }

  function ChromaCode(bg: int, fg: int, a1: int, a2: int): int {
    CDiv(CDiv((fg - 128) * a1, 255) + CDiv((bg - 128) * (255 - a1), 255)
         + CDiv((fg - 128) * a2, 255) + CDiv((bg - 128) * (255 - a2), 255), 2) + 128
  }

  lemma LumaFormula(bg: byte, fg: byte, a: byte)
    ensures Luma(bg, fg, a) == LumaCode(bg, fg, a)
  {
    MixFormula(fg - 16, bg - 16, a);
  }

  lemma ChromaFormula(bg: byte, fg: byte, a1: byte, a2: byte)
    ensures Chroma(bg, fg, a1, a2) == ChromaCode(bg, fg, a1, a2)
  {
    MixFormula(fg - 128, bg - 128, a1);
    MixFormula(fg - 128, bg - 128, a2);
  }

  // Blended luma and chroma are bytes, within one of the interval between the two inputs, and
  // exactly the foreground at alpha 255 and the background at alpha 0.
  lemma LumaBetween(bg: byte, fg: byte, a: byte)
    ensures Min(bg, fg) - 1 <= Luma(bg, fg, a) <= Max(bg, fg) + 1
    ensures (a == 255 ==> Luma(bg, fg, a) == fg) && (a == 0 ==> Luma(bg, fg, a) == bg)
  {
    MixBounds(fg - 16, bg - 16, a);
    MixEnds(fg - 16, bg - 16);
  }

  lemma ChromaBetween(bg: byte, fg: byte, a1: byte, a2: byte)
    ensures Min(bg, fg) - 1 <= Chroma(bg, fg, a1, a2) <= Max(bg, fg) + 1
    ensures (a1 == a2 == 255 ==> Chroma(bg, fg, a1, a2) == fg) && (a1 == a2 == 0 ==> Chroma(bg, fg, a1, a2) == bg)
  {
    var m1, m2 := Mix(fg - 128, bg - 128, a1), Mix(fg - 128, bg - 128, a2);
    MixBounds(fg - 128, bg - 128, a1);
    MixBounds(fg - 128, bg - 128, a2);
    MixEnds(fg - 128, bg - 128);
    HalfSum(m1, m2, Min(bg, fg) - 128, Max(bg, fg) - 128);
    assert Chroma(bg, fg, a1, a2) == CDiv(m1 + m2, 2) + 128;
  }

  lemma HalfSum(m1: int, m2: int, lo: int, hi: int)
    requires lo - 1 <= m1 <= hi + 1 && lo - 1 <= m2 <= hi + 1
    ensures lo - 1 <= CDiv(m1 + m2, 2) <= hi + 1
    ensures m1 == m2 ==> CDiv(m1 + m2, 2) == m1
  {
  }

  // A mean of equal values is the value, or one nearer to zero.
  lemma MixOfEqual(x: int, a: byte)
    ensures Mix(x, x, a) == x <==> x * a % 255 == 0
    ensures 0 <= x ==> x - 1 <= Mix(x, x, a) <= x
    ensures x <= 0 ==> x <= Mix(x, x, a) <= x + 1
  {
    MixFormula(x, x, a);
    MixBounds(x, x, a);
    Sign(x, a);
    Sign(x, 255 - a);
    Whole(x, a);
    SplitWhole(x, x * a);
  }

  // Blending a value with itself gives it back exactly when the weighted value has no remainder;
  // 17 with itself at alpha 128 gives 16.
  lemma LumaOfEqual(v: byte, a: byte)
    ensures Luma(v, v, a) == v <==> (v - 16) * a % 255 == 0
    ensures Luma(17, 17, 128) == 16
  {
    MixOfEqual(v - 16, a);
    LumaFormula(17, 17, 128);
  }

  // Chroma comes back exactly when neither of its two weighted values has a remainder.
  lemma ChromaOfEqual(v: byte, a1: byte, a2: byte)
    ensures Chroma(v, v, a1, a2) == v <==> (v - 128) * a1 % 255 == 0 && (v - 128) * a2 % 255 == 0
  {
    MixOfEqual(v - 128, a1);
    MixOfEqual(v - 128, a2);
  }

  lemma SplitWhole(x: int, p: int)
    requires (0 <= p && 0 <= 255 * x - p) || (p <= 0 && 255 * x - p <= 0)
    ensures CDiv(p, 255) + CDiv(255 * x - p, 255) == x <==> p % 255 == 0
  {
  }
}
