/** Interleaved exp-Golomb codes read bit by bit, as the read_uint process of Annex A.4.3
    of SMPTE ST 2042-1 describes them, and the 8-bit tables of the fast decoders. */
module InterleavedCodes {
  import opened Basics
  import opened Words
  import opened BitStream
  import opened ExpGolomb

  // Start at 1; a 0 stop bit announces a data bit to shift in; a 1 ends the code.
  function ReadUint(s: seq<bit>, p: nat, value: nat): Option<(int, nat)>
    decreases |s| - p
  {
    if p >= |s| then None
    else if s[p] == 1 then Some((value - 1, p + 1))
    else if p + 1 >= |s| then None
    else ReadUint(s, p + 2, 2 * value + s[p + 1])
  }

  // The code at p has value r and ends at q.
  ghost predicate UintAt(s: seq<bit>, p: nat, r: int, q: int) {
    0 <= q && ReadUint(s, p, 1) == Some((r, q))
  }

  // The i-th stop bit and the i-th data bit of a code at p.
  function Stop(s: seq<bit>, p: nat, i: nat): (b: int)
    requires p + 2 * i < |s|
    ensures 0 <= b <= 1
  {
    s[p + 2 * i]
  }

  function Data(s: seq<bit>, p: nat, i: nat): (b: int)
    requires p + 2 * i + 1 < |s|
    ensures 0 <= b <= 1
  {
    s[p + 2 * i + 1]
  }

  ghost predicate ZeroStops(s: seq<bit>, p: nat, j: nat)
    requires p + 2 * j <= |s|
  {
    forall i: nat :: i < j ==> Stop(s, p, i) == 0
  }

  // The number of data bits before the stop.
  function Pairs(s: seq<bit>, p: nat): (j: nat)
    requires p <= |s|
    ensures p + 2 * j <= |s| && ZeroStops(s, p, j)
    ensures p + 2 * j + 1 < |s| ==> Stop(s, p, j) == 1
    decreases |s| - p
  {
    if p + 1 < |s| && s[p] == 0 then
      var r := Pairs(s, p + 2);
      ShiftStops(s, p, r);
      1 + r
    else 0
  }

  lemma ShiftStops(s: seq<bit>, p: nat, r: nat)
    requires p + 2 + 2 * r <= |s| && s[p] == 0 && ZeroStops(s, p + 2, r)
    ensures ZeroStops(s, p, r + 1)
  {
    forall i: nat | i < r + 1
      ensures Stop(s, p, i) == 0
    {
      if i != 0 {
        assert Stop(s, p, i) == Stop(s, p + 2, i - 1);
      }
    }
  }

  // The value accumulated from j data bits.
  function Acc(s: seq<bit>, p: nat, j: nat): nat
    requires p + 2 * j <= |s|
  {
    if j == 0 then 1 else 2 * Acc(s, p, j - 1) + Data(s, p, j - 1)
  }

  lemma {:induction false} ReadUintFrom(s: seq<bit>, p: nat, t: nat)
    requires p <= |s| && t <= Pairs(s, p)
    ensures var j := Pairs(s, p);
            p + 2 * j < |s| && Stop(s, p, j) == 1 ==>
              ReadUint(s, p + 2 * t, Acc(s, p, t)) == Some((Acc(s, p, j) - 1, p + 2 * j + 1))
    decreases Pairs(s, p) - t
  {
    if t < Pairs(s, p) {
      assert Stop(s, p, t) == 0;
      ReadUintFrom(s, p, t + 1);
      assert p + 2 * (t + 1) == p + 2 * t + 2;
    }
  }

  // The bit-by-bit reader returns the accumulated value less one, just past the stop.
  lemma ReadUintIs(s: seq<bit>, p: nat)
    requires p <= |s|
    ensures var j := Pairs(s, p);
            p + 2 * j < |s| && Stop(s, p, j) == 1 ==> UintAt(s, p, Acc(s, p, j) - 1, p + 2 * j + 1)
  {
    ReadUintFrom(s, p, 0);
  }

  lemma {:induction false} AccRange(s: seq<bit>, p: nat, j: nat)
    requires p + 2 * j <= |s|
    ensures Pow2(j) <= Acc(s, p, j) < Pow2(j + 1)
  {
    if j == 0 {
    } else {
      AccRange(s, p, j - 1);
    }
  }

  // Accumulating t and then j data bits.
  lemma {:induction false} AccSplit(s: seq<bit>, p: nat, t: nat, j: nat)
    requires p + 2 * t + 2 * j <= |s|
    ensures Acc(s, p, t + j) == ScaleUp(Acc(s, p, t), j) + (Acc(s, p + 2 * t, j) - Pow2(j))
    ensures 0 <= Acc(s, p + 2 * t, j) - Pow2(j) < Pow2(j)
  {
    AccRange(s, p + 2 * t, j);
    if j == 0 {
    } else {
      AccSplit(s, p, t, j - 1);
      assert Data(s, p, t + j - 1) == Data(s, p + 2 * t, j - 1);
    }
  }

  /* ---- the tables, by rows of sixteen ---- */

  // A row whose columns 2-3, 6-7 and 8-15 repeat one entry each.
  function Columns(col: nat, c0: int, c1: int, c2: int, c4: int, c5: int, c6: int, c8: int): int {
    if col < 1 then c0 else if col < 2 then c1 else if col < 4 then c2
    else if col < 5 then c4 else if col < 6 then c5 else if col < 8 then c6 else c8
  }

  // yang_interleaved_golomb_vlc_len.
  function InterleavedLen(i: nat): nat
    requires i < 256
  {
    var row, col := i / 16, i % 16;
    if row >= 8 then 1
    else if row in {2, 3, 6, 7} then 3
    else Columns(col, 9, 9, 7, 9, 9, 7, 5)
  }

  // yang_interleaved_ue_golomb_vlc_code.
  function InterleavedUeCode(i: nat): nat
    requires i < 256
  {
    var row, col := i / 16, i % 16;
    if row >= 8 then 0
    else if row in {2, 3} then 1
    else if row in {6, 7} then 2
    else if row == 0 then Columns(col, 15, 16, 7, 17, 18, 8, 3)
    else if row == 1 then Columns(col, 19, 20, 9, 21, 22, 10, 4)
    else if row == 4 then Columns(col, 23, 24, 11, 25, 26, 12, 5)
    else Columns(col, 27, 28, 13, 29, 30, 14, 6)
  }

  // yang_interleaved_se_golomb_vlc_code.
  function InterleavedSeCode(i: nat): int
    requires i < 256
  {
    var row, col := i / 16, i % 16;
    if row >= 8 then 0
    else if row in {2, 3} then 1
    else if row in {6, 7} then -1
    else if row == 0 then Columns(col, 8, -8, 4, 9, -9, -4, 2)
    else if row == 1 then Columns(col, 10, -10, 5, 11, -11, -5, -2)
    else if row == 4 then Columns(col, 12, -12, 6, 13, -13, -6, 3)
    else Columns(col, 14, -14, 7, 15, -15, -7, -3)
  }

  // yang_interleaved_dirac_golomb_vlc_code.
  function InterleavedDiracCode(i: nat): nat
    requires i < 256
  {
    var row, col := i / 16, i % 16;
    if row >= 8 then 0
    else if row in {2, 3} then 0
    else if row in {6, 7} then 1
    else if row == 0 then Columns(col, 0, 1, 0, 2, 3, 1, 0)
    else if row == 1 then Columns(col, 4, 5, 2, 6, 7, 3, 1)
    else if row == 4 then Columns(col, 8, 9, 4, 10, 11, 5, 2)
    else Columns(col, 12, 13, 6, 14, 15, 7, 3)
  }

  lemma ByteOf(s: seq<bit>, p: nat)
    requires p + 8 <= |s|
    ensures Val(s, p, 8) < 256
    ensures Val(s, p, 8) / 16 == 8 * Stop(s, p, 0) + 4 * Data(s, p, 0) + 2 * Stop(s, p, 1) + Data(s, p, 1)
    ensures Val(s, p, 8) % 16 == 8 * Stop(s, p, 2) + 4 * Data(s, p, 2) + 2 * Stop(s, p, 3) + Data(s, p, 3)
  {
    ValSplit(s, p, 4, 4);
    Nibble(Val(s, p, 4));
    NibbleOf(s, p, 0);
    NibbleOf(s, p, 2);
  }

  lemma NibbleOf(s: seq<bit>, p: nat, i: nat)
    requires p + 2 * i + 4 <= |s|
    ensures Val(s, p + 2 * i, 4) == 8 * Stop(s, p, i) + 4 * Data(s, p, i) + 2 * Stop(s, p, i + 1) + Data(s, p, i + 1)
  {
    var q := p + 2 * i;
    assert Val(s, q, 2) == 2 * Val(s, q, 1) + Data(s, p, i);
    assert Val(s, q, 4) == 2 * Val(s, q, 3) + Data(s, p, i + 1);
    assert Val(s, q, 3) == 2 * Val(s, q, 2) + Stop(s, p, i + 1);
  }

  lemma AccSmall(s: seq<bit>, p: nat)
    requires p + 8 <= |s|
    ensures Acc(s, p, 0) == 1 && Acc(s, p, 1) == 2 + Data(s, p, 0)
    ensures Acc(s, p, 2) == 4 + 2 * Data(s, p, 0) + Data(s, p, 1)
    ensures Acc(s, p, 3) == 8 + 4 * Data(s, p, 0) + 2 * Data(s, p, 1) + Data(s, p, 2)
    ensures Acc(s, p, 4) == 16 + 8 * Data(s, p, 0) + 4 * Data(s, p, 1) + 2 * Data(s, p, 2) + Data(s, p, 3)
  {
  }

  // A slot whose index has row 8a+4b+2c+d and column 8e+4f+2g+h.
  ghost predicate Slot(i: nat, len: nat, acc: nat) {
    i < 256 && 0 < acc && InterleavedLen(i) == len && InterleavedUeCode(i) == acc - 1
    && InterleavedSeCode(i) == SeMap(acc - 1)
  }

  lemma Slots01(i: nat, b: bit, d: bit)
    requires i < 256
    ensures 8 <= i / 16 ==> Slot(i, 1, 1) && InterleavedDiracCode(i) == 0
    ensures i / 16 == 4 * b + 2 + d ==> Slot(i, 3, 2 + b) && InterleavedDiracCode(i) == b
  {
  }

  // In rows 4b+d the entries grow with the data bits b, d, f, h.
  lemma UeRow(i: nat, b: bit, d: bit, f: bit, h: bit)
    requires i < 256 && i / 16 == 4 * b + d
    ensures 8 <= i % 16 ==> InterleavedUeCode(i) == 3 + 2 * b + d
    ensures i % 16 == 4 * f + 2 + h ==> InterleavedUeCode(i) == 7 + 4 * b + 2 * d + f
    ensures i % 16 == 4 * f + h ==> InterleavedUeCode(i) == 15 + 8 * b + 4 * d + 2 * f + h
  {
    assert b == 0 || b == 1;
    assert d == 0 || d == 1;
  }

  lemma DiracRow(i: nat, b: bit, d: bit, f: bit, h: bit)
    requires i < 256 && i / 16 == 4 * b + d
    ensures 8 <= i % 16 ==> InterleavedDiracCode(i) == 2 * b + d
    ensures i % 16 == 4 * f + 2 + h ==> InterleavedDiracCode(i) == 4 * b + 2 * d + f
    ensures i % 16 == 4 * f + h ==> InterleavedDiracCode(i) == 8 * b + 4 * d + 2 * f + h
  {
    assert b == 0 || b == 1;
    assert d == 0 || d == 1;
  }

  lemma LenRow(i: nat)
    requires i < 256 && i / 16 in {0, 1, 4, 5}
    ensures InterleavedLen(i) == if 8 <= i % 16 then 5 else if i % 4 < 2 then 9 else 7
  {
  }

  // The signed table is the unsigned one under the signed mapping.
  lemma SeRow(i: nat)
    requires i < 256
    ensures InterleavedSeCode(i) == SeMap(InterleavedUeCode(i))
  {
    if i / 16 == 0 {
    } else if i / 16 == 1 {
    } else if i / 16 == 4 {
    } else if i / 16 == 5 {
    }
  }

  lemma SlotsLong(i: nat, b: bit, d: bit, f: bit, h: bit)
    requires i < 256 && i / 16 == 4 * b + d
    ensures 8 <= i % 16 ==> Slot(i, 5, 4 + 2 * b + d) && InterleavedDiracCode(i) == 2 * b + d
    ensures i % 16 == 4 * f + 2 + h ==>
              Slot(i, 7, 8 + 4 * b + 2 * d + f) && InterleavedDiracCode(i) == 4 * b + 2 * d + f
    ensures i % 16 == 4 * f + h ==>
              Slot(i, 9, 16 + 8 * b + 4 * d + 2 * f + h) && InterleavedDiracCode(i) == 8 * b + 4 * d + 2 * f + h
  {
    UeRow(i, b, d, f, h);
    DiracRow(i, b, d, f, h);
    LenRow(i);
    SeRow(i);
  }

  // The row and the column of a window, and what it accumulates.
  lemma WindowPattern(s: seq<bit>, p: nat, j: nat, i: nat)
    requires p + 8 <= |s| && j <= 4 && i == Val(s, p, 8)
    requires ZeroStops(s, p, j) && (j < 4 ==> Stop(s, p, j) == 1)
    ensures i < 256
    ensures j == 0 ==> 8 <= i / 16 && Acc(s, p, 0) == 1
    ensures j == 1 ==> i / 16 == 4 * Data(s, p, 0) + 2 + Data(s, p, 1) && Acc(s, p, 1) == 2 + Data(s, p, 0)
    ensures 2 <= j ==> i / 16 == 4 * Data(s, p, 0) + Data(s, p, 1)
    ensures j == 2 ==> 8 <= i % 16
    ensures j == 3 ==> i % 16 == 4 * Data(s, p, 2) + 2 + Data(s, p, 3)
    ensures j == 4 ==> i % 16 == 4 * Data(s, p, 2) + Data(s, p, 3)
  {
    ByteOf(s, p);
    AccSmall(s, p);
    if 0 < j { assert Stop(s, p, 0) == 0; }
    if 1 < j { assert Stop(s, p, 1) == 0; }
    if 2 < j { assert Stop(s, p, 2) == 0; }
    if 3 < j { assert Stop(s, p, 3) == 0; }
  }

  // What the slot of the next eight bits holds when j data bits precede the first stop in them.
  lemma SlotIsInterleaved(s: seq<bit>, p: nat, j: nat, i: nat)
    requires p + 8 <= |s| && j <= 4 && i == Val(s, p, 8)
    requires ZeroStops(s, p, j) && (j < 4 ==> Stop(s, p, j) == 1)
    ensures Slot(i, 2 * j + 1, Acc(s, p, j))
    ensures InterleavedDiracCode(i) == Acc(s, p, j) - Pow2(j)
  {
    var b, d, f, h := Data(s, p, 0), Data(s, p, 1), Data(s, p, 2), Data(s, p, 3);
    WindowPattern(s, p, j, i);
    AccSmall(s, p);
    SmallPow2();
    if j < 2 {
      Slots01(i, b, d);
    } else {
      SlotsLong(i, b, d, f, h);
    }
  }

  lemma SmallPow2()
    ensures Pow2(0) == 1 && Pow2(1) == 2 && Pow2(2) == 4 && Pow2(3) == 8 && Pow2(4) == 16
  {
    Nibble(1);
  }
}
