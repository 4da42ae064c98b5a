/** The machine words the bit reader computes with: powers of two, C's shifts and
    conversions on 32-bit words, and C's bitwise operators given digit by digit.
    Everything is defined by doubling and halving, so that proofs stay linear. */
module Words {

  type u32 = x: int | 0 <= x < 0x1_0000_0000
  type i32 = x: int | -0x8000_0000 <= x < 0x8000_0000

  const WORD: nat := 0x1_0000_0000
  const ONES: u32 := 0xFFFF_FFFF

  // a * 2^k: a followed by k zero digits.
  function ScaleUp(a: nat, k: nat): nat {
    if k == 0 then a else 2 * ScaleUp(a, k - 1)
  }

  // floor(x / 2^k): x without its last k digits.
  function ScaleDown(x: int, k: nat): int
    decreases k, x
  {
    if k == 0 then x else ScaleDown(x / 2, k - 1)
  }

  lemma {:induction false} UpPositive(k: nat)
    ensures 0 < ScaleUp(1, k)
  {
    if k == 0 {
    } else {
      UpPositive(k - 1);
    }
  }

  function Pow2(k: nat): (r: nat)
    ensures 0 < r
  {
    UpPositive(k);
    ScaleUp(1, k)
  }

  // C's & on unsigned operands.
  function And(a: nat, b: nat): nat
    decreases a + b
  {
    if a == 0 && b == 0 then 0
    else 2 * And(a / 2, b / 2) + (if a % 2 == 1 && b % 2 == 1 then 1 else 0)
  }

  // C's | on unsigned operands.
  function Or(a: nat, b: nat): nat
    decreases a + b
  {
    if a == 0 && b == 0 then 0
    else 2 * Or(a / 2, b / 2) + (if a % 2 == 1 || b % 2 == 1 then 1 else 0)
  }

  // C's ^ on unsigned operands.
  function Xor(a: nat, b: nat): nat
    decreases a + b
  {
    if a == 0 && b == 0 then 0
    else 2 * Xor(a / 2, b / 2) + (if a % 2 != b % 2 then 1 else 0)
  }

  // C's << on uint32_t: the digits pushed past the word are lost.
  function Shl(x: u32, k: nat): u32 {
    ScaleUp(x, k) % WORD
  }

  // C's >> on uint32_t.
  function Shr(x: u32, k: nat): u32 {
    DownBounds(x, k);
    ScaleDown(x, k)
  }

  // C's >> on int32_t, which copies the sign.
  function Sar(x: i32, k: nat): i32 {
    DownBounds(x, k);
    ScaleDown(x, k)
  }

  // uint32_t addition and subtraction wrap around.
  function Add(x: u32, y: u32): u32 {
    if x + y < WORD then x + y else x + y - WORD
  }

  function Sub(x: u32, y: u32): u32 {
    if y <= x then x - y else x - y + WORD
  }

  // Conversions between uint32_t and int32_t.
  function ToSigned(x: u32): i32 {
    if x < 0x8000_0000 then x else x - WORD
  }

  /* ---- scaling ---- */

  lemma {:induction false} DownBounds(x: int, k: nat)
    ensures 0 <= x ==> 0 <= ScaleDown(x, k) <= x
    ensures x < 0 ==> x <= ScaleDown(x, k) < 0
    decreases k
  {
    if k == 0 {
    } else {
      DownBounds(x / 2, k - 1);
    }
  }

  lemma {:induction false} UpAdd(a: nat, b: nat, k: nat)
    ensures ScaleUp(a + b, k) == ScaleUp(a, k) + ScaleUp(b, k)
  {
    if k == 0 {
    } else {
      UpAdd(a, b, k - 1);
    }
  }

  lemma {:induction false} UpUp(a: nat, j: nat, k: nat)
    ensures ScaleUp(ScaleUp(a, j), k) == ScaleUp(a, j + k)
  {
    if k == 0 {
    } else {
      UpUp(a, j, k - 1);
    }
  }

  lemma {:induction false} UpMono(a: nat, b: nat, k: nat)
    ensures a < b ==> ScaleUp(a, k) + Pow2(k) <= ScaleUp(b, k)
  {
    if k == 0 {
    } else {
      UpMono(a, b, k - 1);
    }
  }

  lemma {:induction false} Pow2Mono(a: nat, b: nat)
    requires a < b
    ensures 2 * Pow2(a) <= Pow2(b)
  {
    if a + 1 < b {
      Pow2Mono(a, b - 1);
    }
  }

  // Scaling down undoes scaling up, whatever the low digits were.
  lemma {:induction false} DownUp(q: int, r: nat, k: nat)
    requires 0 <= q && r < Pow2(k)
    ensures ScaleDown(ScaleUp(q, k) + r, k) == q
  {
    if k == 0 {
    } else {
      DownUp(q, r / 2, k - 1);
    }
  }

  // What halving k times leaves out is below 2^k.
  lemma {:induction false} LowDigits(x: nat, k: nat)
    ensures 0 <= ScaleDown(x, k) && 0 <= x - ScaleUp(ScaleDown(x, k), k) < Pow2(k)
  {
    DownBounds(x, k);
    if k == 0 {
    } else {
      LowDigits(x / 2, k - 1);
    }
  }

  // Scaling a number with low digits w scales both parts.
  lemma UpSplit(v: nat, w: nat, j: nat, k: nat)
    requires w < Pow2(j)
    ensures ScaleUp(ScaleUp(v, j) + w, k) == ScaleUp(v, j + k) + ScaleUp(w, k)
    ensures ScaleUp(w, k) < Pow2(j + k)
  {
    UpAdd(ScaleUp(v, j), w, k);
    UpUp(v, j, k);
    UpMono(w, Pow2(j), k);
    UpUp(1, j, k);
  }

  lemma Nibble(a: nat)
    ensures ScaleUp(a, 4) == 16 * a
  {
    assert ScaleUp(a, 1) == 2 * a;
    assert ScaleUp(2 * a, 1) == 4 * a;
    UpUp(a, 1, 1);
    assert ScaleUp(4 * a, 1) == 8 * a;
    assert ScaleUp(8 * a, 1) == 16 * a;
    UpUp(4 * a, 1, 1);
    UpUp(a, 2, 2);
  }

  lemma Byte(a: nat)
    ensures ScaleUp(a, 8) == 0x100 * a
  {
    Nibble(a);
    Nibble(16 * a);
    UpUp(a, 4, 4);
  }

  lemma Scales(a: nat)
    ensures ScaleUp(a, 8) == 0x100 * a && ScaleUp(a, 16) == 0x1_0000 * a
    ensures ScaleUp(a, 24) == 0x100_0000 * a && ScaleUp(a, 32) == WORD * a
  {
    Byte(a);
    Byte(0x100 * a);
    Byte(0x1_0000 * a);
    Byte(0x100_0000 * a);
    UpUp(a, 8, 8);
    UpUp(a, 16, 8);
    UpUp(a, 24, 8);
  }

  // << drops what lies above the low 32 - k digits.
  lemma ShlDrops(hi: nat, lo: nat, k: nat)
    requires k <= 32 && lo < Pow2(32 - k) && ScaleUp(hi, 32 - k) + lo < WORD
    ensures Shl(ScaleUp(hi, 32 - k) + lo, k) == ScaleUp(lo, k) < WORD
  {
    UpSplit(hi, lo, 32 - k, k);
    Scales(hi);
    Scales(1);
    DropsWord(hi, ScaleUp(lo, k));
  }

  lemma DropsWord(h: nat, low: nat)
    requires low < WORD
    ensures (WORD * h + low) % WORD == low
  {
  }

  /* ---- bitwise operators on numbers split at a digit ---- */

  lemma OrZero(a: nat)
    ensures Or(a, 0) == a && Or(0, a) == a
  {
  }

  lemma OrSelf(a: nat)
    ensures Or(a, a) == a
  {
  }

  lemma XorZero(a: nat)
    ensures Xor(a, 0) == a && Xor(0, a) == a
  {
  }

  lemma AndZero(a: nat)
    ensures And(a, 0) == 0 && And(0, a) == 0
  {
  }

  lemma AndOne(x: nat)
    ensures And(x, 1) == x % 2
  {
    AndZero(x / 2);
  }

  lemma Halves(p: nat, x: nat)
    ensures (2 * p + x) / 2 == p + x / 2 && (2 * p + x) % 2 == x % 2
  {
  }

  lemma OrHalf(u: nat, v: nat)
    ensures Or(u, v) == 2 * Or(u / 2, v / 2) + (if u % 2 == 1 || v % 2 == 1 then 1 else 0)
  {
  }

  lemma AndHalf(u: nat, v: nat)
    ensures And(u, v) == 2 * And(u / 2, v / 2) + (if u % 2 == 1 && v % 2 == 1 then 1 else 0)
  {
  }

  lemma OrStep(p: nat, x: nat, q: nat, y: nat, s: nat, u: nat, v: nat)
    requires u == 2 * p + x && v == 2 * q + y
    requires Or(p + x / 2, q + y / 2) == s + Or(x / 2, y / 2)
    ensures Or(u, v) == 2 * s + Or(x, y) && Or(x, y) <= 2 * Or(x / 2, y / 2) + 1
  {
    Halves(p, x);
    Halves(q, y);
    OrHalf(u, v);
    OrHalf(x, y);
  }

  lemma {:induction false} OrSplit(a: nat, x: nat, b: nat, y: nat, k: nat)
    requires x < Pow2(k) && y < Pow2(k)
    ensures Or(ScaleUp(a, k) + x, ScaleUp(b, k) + y) == ScaleUp(Or(a, b), k) + Or(x, y)
    ensures Or(x, y) < Pow2(k)
  {
    if k == 0 {
    } else {
      OrSplit(a, x / 2, b, y / 2, k - 1);
      OrStep(ScaleUp(a, k - 1), x, ScaleUp(b, k - 1), y, ScaleUp(Or(a, b), k - 1),
             ScaleUp(a, k) + x, ScaleUp(b, k) + y);
    }
  }

  // | of numbers with no digit in common is +.
  lemma OrDisjoint(a: nat, y: nat, k: nat)
    requires y < Pow2(k)
    ensures Or(ScaleUp(a, k), y) == ScaleUp(a, k) + y
  {
    UpAdd(0, 0, k);
    OrSplit(a, 0, 0, y, k);
    OrZero(a);
    OrZero(y);
  }

  lemma AndStep(p: nat, x: nat, q: nat, y: nat, s: nat, u: nat, v: nat)
    requires u == 2 * p + x && v == 2 * q + y
    requires And(p + x / 2, q + y / 2) == s + And(x / 2, y / 2)
    ensures And(u, v) == 2 * s + And(x, y) && And(x, y) <= 2 * And(x / 2, y / 2) + 1
  {
    Halves(p, x);
    Halves(q, y);
    AndHalf(u, v);
    AndHalf(x, y);
  }

  lemma {:induction false} AndSplit(a: nat, x: nat, b: nat, y: nat, k: nat)
    requires x < Pow2(k) && y < Pow2(k)
    ensures And(ScaleUp(a, k) + x, ScaleUp(b, k) + y) == ScaleUp(And(a, b), k) + And(x, y)
    ensures And(x, y) < Pow2(k)
  {
    if k == 0 {
    } else {
      AndSplit(a, x / 2, b, y / 2, k - 1);
      AndStep(ScaleUp(a, k - 1), x, ScaleUp(b, k - 1), y, ScaleUp(And(a, b), k - 1),
              ScaleUp(a, k) + x, ScaleUp(b, k) + y);
    }
  }

  // & with 2^k - 1 keeps the low k digits.
  lemma {:induction false} AndLow(x: nat, k: nat)
    requires x < Pow2(k)
    ensures And(x, Pow2(k) - 1) == x
  {
    if k == 0 {
    } else {
      assert (Pow2(k) - 1) / 2 == Pow2(k - 1) - 1 && (Pow2(k) - 1) % 2 == 1;
      AndLow(x / 2, k - 1);
    }
  }

  // ^ with 2^k - 1 complements the low k digits.
  lemma {:induction false} XorLow(x: nat, k: nat)
    requires x < Pow2(k)
    ensures Xor(x, Pow2(k) - 1) == Pow2(k) - 1 - x
  {
    if k == 0 {
    } else {
      assert (Pow2(k) - 1) / 2 == Pow2(k - 1) - 1 && (Pow2(k) - 1) % 2 == 1;
      XorLow(x / 2, k - 1);
    }
  }
}
