/** The constant tables of the Exp-Golomb fast paths, by their index ranges, and what
    they mean: slot i of a 9-bit table belongs to the code that starts the 9 bits i. */
module GolombTables {
  import opened Words
  import opened ExpGolomb

  // yang_golomb_vlc_len.
  function GolombVlcLen(i: nat): nat
    requires i < 512
  {
    if i < 1 then 19 else if i < 2 then 17 else if i < 4 then 15 else if i < 8 then 13
    else if i < 16 then 11 else if i < 32 then 9 else if i < 64 then 7
    else if i < 128 then 5 else if i < 256 then 3 else 1
  }

  // yang_ue_golomb_vlc_code.
  function UeGolombVlcCode(i: nat): nat
    requires i < 512
  {
    if i < 8 then 32 else if i < 9 then 31 else if i < 16 then 32
    else if i < 32 then 15 + (i - 16) else if i < 64 then 7 + (i - 32) / 4
    else if i < 128 then 3 + (i - 64) / 16 else if i < 256 then 1 + (i - 128) / 64 else 0
  }

  // yang_se_golomb_vlc_code: runs of equal entries whose signs alternate.
  function SeGolombVlcCode(i: nat): int
    requires i < 512
  {
    if i < 8 then 17 else if i < 9 then 16 else if i < 16 then 17
    else if i < 32 then SignedRun(8, i - 16) else if i < 64 then SignedRun(4, (i - 32) / 4)
    else if i < 128 then SignedRun(2, (i - 64) / 16) else if i < 256 then SignedRun(1, (i - 128) / 64) else 0
  }

  function SignedRun(first: nat, run: nat): int {
    if run % 2 == 0 then first + run / 2 else -(first + run / 2)
  }

  // yang_log2_tab.
  function Log2Tab(v: nat): nat
    requires v < 256
  {
    if v < 2 then 0 else if v < 4 then 1 else if v < 8 then 2 else if v < 16 then 3
    else if v < 32 then 4 else if v < 64 then 5 else if v < 128 then 6 else 7
  }

  // A slot with z leading zeros, z at most 4, holds the length, value and signed value of its code.
  lemma SlotIsCode(i: nat, z: nat)
    requires z <= 4 && Pow2(8 - z) <= i < Pow2(9 - z)
    ensures i < 512 && GolombVlcLen(i) == 2 * z + 1
    ensures 0 < ScaleDown(i, 8 - 2 * z)
    ensures UeGolombVlcCode(i) == ScaleDown(i, 8 - 2 * z) - 1
    ensures SeGolombVlcCode(i) == SeMap(ScaleDown(i, 8 - 2 * z) - 1)
  {
    SmallPowers();
    SmallHalvings(i);
  }

  lemma SmallPowers()
    ensures Pow2(0) == 1 && Pow2(1) == 2 && Pow2(2) == 4 && Pow2(3) == 8 && Pow2(4) == 16
    ensures Pow2(5) == 32 && Pow2(6) == 64 && Pow2(7) == 128 && Pow2(8) == 256 && Pow2(9) == 512
  {
    Nibble(1);
    Byte(1);
  }

  lemma SmallHalvings(x: int)
    ensures ScaleDown(x, 0) == x && ScaleDown(x, 2) == x / 4 && ScaleDown(x, 4) == x / 16
    ensures ScaleDown(x, 6) == x / 64 && ScaleDown(x, 8) == x / 256
  {
    Quarter(x, 2);
    Quarter(x, 4);
    Quarter(x, 6);
    Quarter(x, 8);
    Quarter(x / 4, 2);
    Quarter(x / 4, 4);
    Quarter(x / 4, 6);
    Quarter(x / 16, 2);
    Quarter(x / 16, 4);
    Quarter(x / 64, 2);
  }

  lemma Quarter(x: int, k: nat)
    requires 2 <= k
    ensures ScaleDown(x, k) == ScaleDown(x / 4, k - 2)
  {
    assert ScaleDown(x, k) == ScaleDown(x / 2, k - 1) == ScaleDown(x / 2 / 2, k - 2);
  }

  /* ---- yang_log2 ---- */

  function Log2(v: u32): nat {
    var (v1, n1) := if And(v, 0xFFFF_0000) != 0 then (Shr(v, 16), 16) else (v, 0);
    var (v2, n2) := if And(v1, 0xFF00) != 0 then (Shr(v1, 8), n1 + 8) else (v1, n1);
    Log2Steps(v);
    n2 + Log2Tab(v2)
  }

  // The masks test whether the value reaches 2^16 and 2^8.
  lemma MaskTest(v: nat, k: nat)
    requires v < Pow2(2 * k)
    ensures And(v, ScaleUp(Pow2(k) - 1, k)) != 0 <==> Pow2(k) <= v
    ensures ScaleDown(v, k) < Pow2(k)
  {
    var a := ScaleDown(v, k);
    LowDigits(v, k);
    UpMono(a, Pow2(k), k);
    UpMono(Pow2(k), a, k);
    UpUp(1, k, k);
    AndSplit(a, v - ScaleUp(a, k), Pow2(k) - 1, 0, k);
    AndZero(v - ScaleUp(a, k));
    AndLow(a, k);
    UpMono(0, a, k);
    UpMono(0, 1, k);
    UpAdd(0, 0, k);
  }

  lemma Log2Steps(v: u32)
    ensures And(v, 0xFFFF_0000) != 0 <==> 0x1_0000 <= v
    ensures var v1 := if 0x1_0000 <= v then Shr(v, 16) else v;
            v1 < 0x1_0000 && (And(v1, 0xFF00) != 0 <==> 0x100 <= v1)
            && (if 0x100 <= v1 then Shr(v1, 8) else v1) < 256
  {
    Scales(1);
    Scales(0xFFFF);
    Scales(0xFF);
    MaskTest(v, 16);
    MaskTest(if 0x1_0000 <= v then Shr(v, 16) else v, 8);
  }

  // yang_log2 is the place of the leading one.
  lemma Log2IsFloor(v: u32, r: nat)
    requires Pow2(r) <= v < Pow2(r + 1)
    ensures Log2(v) == r
  {
    Log2Steps(v);
    DownRange(v, r, 16);
    var v1 := if 0x1_0000 <= v then Shr(v, 16) else v;
    var r1 := if 0x1_0000 <= v then r - 16 else r;
    DownRange(v1, r1, 8);
    var v2 := if 0x100 <= v1 then Shr(v1, 8) else v1;
    var r2 := if 0x100 <= v1 then r1 - 8 else r1;
    assert Log2(v) == r - r2 + Log2Tab(v2);
    SmallLog(v2, r2);
  }

  // Dropping k digits moves the leading one down by k.
  lemma DownRange(v: nat, r: nat, k: nat)
    requires Pow2(r) <= v < Pow2(r + 1)
    ensures Pow2(k) <= v <==> k <= r
    ensures k <= r ==> Pow2(r - k) <= ScaleDown(v, k) < Pow2(r - k + 1)
    ensures k == 16 ==> Pow2(k) == 0x1_0000
    ensures k == 8 ==> Pow2(k) == 0x100
  {
    Scales(1);
    if r < k {
      if r + 1 < k {
        Pow2Mono(r + 1, k);
      }
    } else {
      if k < r {
        Pow2Mono(k, r);
      }
      var a := ScaleDown(v, k);
      LowDigits(v, k);
      UpUp(1, r - k, k);
      UpUp(1, r - k + 1, k);
      UpMono(a, Pow2(r - k), k);
      UpMono(Pow2(r - k + 1) - 1, a, k);
      UpAdd(Pow2(r - k + 1) - 1, 1, k);
    }
  }

  lemma SmallLog(v: nat, r: nat)
    requires v < 256 && Pow2(r) <= v < Pow2(r + 1)
    ensures Log2Tab(v) == r
  {
    SmallPowers();
    if 8 < r {
      Pow2Mono(8, r);
    }
  }
}
