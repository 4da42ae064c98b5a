/** The Exp-Golomb decoders over the bit reader: the table-driven fast paths and the
    arithmetic slow paths, proved against the bit-by-bit codes of module ExpGolomb. */
module GolombReader {
  import opened Basics
  import opened Words
  import opened BitStream
  import opened BitReader
  import opened ExpGolomb
  import opened GolombTables

  // The code at p of stream s has value r and ends at q.
  ghost predicate UeAt(s: seq<bit>, p: nat, r: int, q: int) {
    HasCode(s, p) && r == UeValue(s, p) && q == p + UeLength(s, p)
  }

  // The same under the signed mapping.
  ghost predicate SeAt(s: seq<bit>, p: nat, r: int, q: int) {
    HasCode(s, p) && r == SeMap(UeValue(s, p)) && q == p + UeLength(s, p)
  }

  /* ---- what a cache load says about the code that starts there ---- */

  lemma CacheZeros(buf: seq<byte>, p: nat)
    requires CanLoad(buf, p)
    ensures var z := LeadingZeros(Bits(buf), p);
            if z < 32 - p % 8 then Pow2(31 - z) <= LoadCache(buf, p) < Pow2(32 - z)
            else LoadCache(buf, p) == 0
  {
    CacheIsWindow(buf, p);
    WindowZeros(Bits(buf), p, p % 8, LoadCache(buf, p));
  }

  lemma WindowZeros(s: seq<bit>, p: nat, k: nat, c: nat)
    requires k < 8 && p + 32 - k <= |s| && c == ScaleUp(Val(s, p, 32 - k), k)
    ensures var z := LeadingZeros(s, p);
            if z < 32 - k then Pow2(31 - z) <= c < Pow2(32 - z) else c == 0
  {
    var z := LeadingZeros(s, p);
    if z < 32 - k {
      WindowRange(s, p, 32 - k);
      ScaledRange(Val(s, p, 32 - k), 31 - k - z, k);
    } else {
      ZerosVal(s, p, 32 - k);
      UpAdd(0, 0, k);
    }
  }

  lemma ScaledRange(v: nat, a: nat, k: nat)
    requires Pow2(a) <= v < Pow2(a + 1)
    ensures Pow2(a + k) <= ScaleUp(v, k) < Pow2(a + 1 + k)
  {
    UpUp(1, a, k);
    UpUp(1, a + 1, k);
    UpMono(Pow2(a), v, k);
    UpMono(v, Pow2(a + 1), k);
  }

  // yang_log2 of the cache counts the leading zeros, as long as the load reaches the one.
  lemma CacheLog2(buf: seq<byte>, p: nat)
    requires CanLoad(buf, p)
    ensures var z := LeadingZeros(Bits(buf), p);
            Log2(LoadCache(buf, p)) == if z < 32 - p % 8 then 31 - z else 0
  {
    CacheZeros(buf, p);
    var z := LeadingZeros(Bits(buf), p);
    if z < 32 - p % 8 {
      Log2IsFloor(LoadCache(buf, p), 31 - z);
    } else {
      Log2Zero();
    }
  }

  lemma Log2Zero()
    ensures Log2(0) == 0
  {
    Log2Steps(0);
  }

  // The fast path is taken exactly for codes with at most four leading zeros.
  lemma FastPathGuard(buf: seq<byte>, p: nat)
    requires CanLoad(buf, p)
    ensures 0x800_0000 <= LoadCache(buf, p) <==> LeadingZeros(Bits(buf), p) <= 4
  {
    var z := LeadingZeros(Bits(buf), p);
    CacheZeros(buf, p);
    Pow2Of27();
    if z <= 4 {
      if z < 4 { Pow2Mono(27, 31 - z); }
    } else if z < 32 - p % 8 {
      if z > 5 { Pow2Mono(32 - z, 27); }
    }
  }

  lemma Pow2Of27()
    ensures Pow2(27) == 0x800_0000
  {
    Scales(1);
    assert Pow2(27) == 2 * Pow2(26) == 4 * Pow2(25);
    assert Pow2(25) == 2 * Pow2(24);
  }

  // The slot addressed by the top nine bits.
  lemma FastSlot(buf: seq<byte>, p: nat, i: nat)
    requires CanLoad(buf, p) && LeadingZeros(Bits(buf), p) <= 4 && i == Shr(LoadCache(buf, p), 23)
    ensures i < 512
    ensures UeAt(Bits(buf), p, UeGolombVlcCode(i), p + GolombVlcLen(i))
    ensures SeAt(Bits(buf), p, SeGolombVlcCode(i), p + GolombVlcLen(i))
  {
    CacheShow(buf, p, 9, 23);
    WindowSlot(Bits(buf), p);
  }

  lemma WindowSlot(s: seq<bit>, p: nat)
    requires p + 9 <= |s| && LeadingZeros(s, p) <= 4
    ensures HasCode(s, p)
    ensures var i := Val(s, p, 9);
            i < 512 && GolombVlcLen(i) == UeLength(s, p) && UeGolombVlcCode(i) == UeValue(s, p)
            && SeGolombVlcCode(i) == SeMap(UeValue(s, p))
  {
    var z := LeadingZeros(s, p);
    WindowRange(s, p, 9);
    SlotIsCode(Val(s, p, 9), z);
    TopOfWindow(s, p, 2 * z + 1, 8 - 2 * z);
    CodeIsNumber(s, p);
  }

  lemma TopOfWindow(s: seq<bit>, p: nat, a: nat, b: nat)
    requires p + a + b <= |s|
    ensures ScaleDown(Val(s, p, a + b), b) == Val(s, p, a)
  {
    ValSplit(s, p, a, b);
    DownUp(Val(s, p, a), Val(s, p + a, b), b);
  }

  // The top bits of the cache, up to the end of the code, are the code.
  lemma SlowSlot(buf: seq<byte>, p: nat, log: nat, c: nat)
    requires CanLoad(buf, p) && LeadingZeros(Bits(buf), p) <= 12
    requires log == 31 - 2 * LeadingZeros(Bits(buf), p) && c == Shr(LoadCache(buf, p), log)
    ensures 0 < c < 0x8000_0000 && UeAt(Bits(buf), p, c - 1, p + (32 - log))
  {
    var n := UeLength(Bits(buf), p);
    CacheShow(buf, p, n, log);
    ShortCode(Bits(buf), p, n, c);
  }

  lemma ShortCode(s: seq<bit>, p: nat, n: nat, c: nat)
    requires HasCode(s, p) && n == UeLength(s, p) <= 25 && c == Val(s, p, n)
    ensures 0 < c < 0x8000_0000 && UeAt(s, p, c - 1, p + n)
  {
    CodeIsNumber(s, p);
    ValBound(s, p, n);
    Pow2Bound(n);
  }

  /* ---- ue(v) ---- */

  // Where yang_get_ue_golomb leaves the index: behind the code if the load sees its leading one.
  function SkippedTo(p: nat, z: nat): nat {
    if z < 32 - p % 8 then p + 2 * z + 1 else p + 63
  }

  // yang_get_ue_golomb.
  method GetUeGolomb(gb: GetBitContext) returns (r: i32)
    requires gb.Room(32)
    modifies gb`index
    ensures LeadingZeros(gb.Stream(), old(gb.index)) <= 12 ==> UeAt(gb.Stream(), old(gb.index), r, gb.index)
    ensures 12 < LeadingZeros(gb.Stream(), old(gb.index)) ==>
              r == INVALIDDATA && gb.index == SkippedTo(old(gb.index), LeadingZeros(gb.Stream(), old(gb.index)))
  {
    ghost var data, p := gb.buffer[..], gb.index;
    var buf := LoadCache(gb.buffer[..], gb.index);
    FastPathGuard(data, p);
    if buf >= 0x800_0000 {
      buf := Shr(buf, 23);
      FastSlot(data, p, buf);
      gb.SkipBits(GolombVlcLen(buf));
      return UeGolombVlcCode(buf);
    }
    CacheLog2(data, p);
    var log := 2 * Log2(buf) - 31;
    gb.SkipBits(32 - log);
    if log < 7 {
      return INVALIDDATA;
    }
    buf := Shr(buf, log);
    SlowSlot(data, p, log, buf);
    r := buf - 1;
  }

  // yang_get_ue_golomb_31: the 9-bit table alone.
  method GetUeGolomb31(gb: GetBitContext) returns (r: i32)
    requires gb.Room(32)
    modifies gb`index
    ensures HasCode(gb.Stream(), old(gb.index)) ==>
              (r == UeValue(gb.Stream(), old(gb.index)) <==> UeValue(gb.Stream(), old(gb.index)) <= 31)
    ensures HasCode(gb.Stream(), old(gb.index)) && UeValue(gb.Stream(), old(gb.index)) <= 31 ==>
              gb.index == old(gb.index) + UeLength(gb.Stream(), old(gb.index))
    ensures Val(gb.Stream(), old(gb.index), 9) < 512 && r == UeGolombVlcCode(Val(gb.Stream(), old(gb.index), 9))
  {
    ghost var data, p := gb.buffer[..], gb.index;
    var buf := LoadCache(gb.buffer[..], gb.index);
    CacheShow(data, p, 9, 23);
    buf := Shr(buf, 23);
    NineBits(Bits(data), p);
    gb.SkipBits(GolombVlcLen(buf));
    if HasCode(Bits(data), p) {
      ShortSlot(Bits(data), p);
    }
    r := UeGolombVlcCode(buf);
  }

  lemma NineBits(s: seq<bit>, p: nat)
    requires p + 9 <= |s|
    ensures Val(s, p, 9) < 512
  {
    ValBound(s, p, 9);
    SmallPowers();
  }

  // Slots 5 to 15 stand for four values each and slots 0 to 4 for longer codes: only 31 is right.
  lemma ShortSlot(s: seq<bit>, p: nat)
    requires p + 9 <= |s| && HasCode(s, p)
    ensures Val(s, p, 9) < 512
    ensures UeGolombVlcCode(Val(s, p, 9)) == UeValue(s, p) <==> UeValue(s, p) <= 31
    ensures UeValue(s, p) <= 31 ==> GolombVlcLen(Val(s, p, 9)) == UeLength(s, p)
  {
    var z, i := LeadingZeros(s, p), Val(s, p, 9);
    NineBits(s, p);
    SmallPowers();
    if z <= 4 {
      WindowSlot(s, p);
      CodeIsNumber(s, p);
      ValBound(s, p, 2 * z + 1);
      if z < 4 { Pow2Mono(2 * z + 1, 9); }
      FourZeros(s, p);
    } else if z == 5 {
      WindowRange(s, p, 9);
      CodeIsNumber(s, p);
      ValSplit(s, p, 9, 2);
      assert ScaleUp(i, 2) == 2 * ScaleUp(i, 1) == 4 * i;
    } else {
      if z < 9 {
        WindowRange(s, p, 9);
      } else {
        ZerosVal(s, p, 9);
      }
      if z > 6 { Pow2Mono(6, z); }
    }
  }

  // The least value it misses: the code of 32 reads as 31.
  lemma ThirtyTwoMissed(s: seq<bit>, p: nat)
    requires Holds(s, p, EncodeUe(32))
    ensures p + 9 <= |s| && HasCode(s, p) && UeValue(s, p) == 32
    ensures Val(s, p, 9) == 8 && UeGolombVlcCode(Val(s, p, 9)) == 31
  {
    DecodeEncode(s, p, 32);
    CodeIsNumber(s, p);
    FiveZeros();
    ElevenBits(s, p, Val(s, p, 9));
  }

  lemma FiveZeros()
    ensures FloorLog2(33) == 5
  {
    SmallPowers();
    assert FloorLog2(33) == 1 + FloorLog2(16) == 2 + FloorLog2(8) == 3 + FloorLog2(4);
  }

  lemma ElevenBits(s: seq<bit>, p: nat, i: nat)
    requires p + 11 <= |s| && i == Val(s, p, 9) && Val(s, p, 11) == 33
    ensures i == 8
  {
    ValSplit(s, p, 9, 2);
    SmallPowers();
    assert ScaleUp(i, 2) == 2 * ScaleUp(i, 1) == 4 * i;
  }

  lemma FourZeros(s: seq<bit>, p: nat)
    requires HasCode(s, p) && LeadingZeros(s, p) <= 4
    ensures UeValue(s, p) <= 30
  {
    var z := LeadingZeros(s, p);
    ValBound(s, p + z + 1, z);
    SmallPowers();
  }

  // r is v - 1 in uint32_t.
  predicate LessOne(v: nat, r: u32) {
    r + 1 == v || (v == 0 && r == ONES)
  }

  // yang_get_ue_golomb_long.
  method GetUeGolombLong(gb: GetBitContext) returns (r: u32)
    requires gb.Room(95)
    modifies gb`index
    ensures LeadingZeros(gb.Stream(), old(gb.index)) <= 31 ==> UeAt(gb.Stream(), old(gb.index), r, gb.index) && r < ONES
    ensures 31 < LeadingZeros(gb.Stream(), old(gb.index)) ==>
              gb.index == old(gb.index) + 63 && LessOne(Val(gb.Stream(), old(gb.index) + 31, 32), r)
    ensures HasCode(gb.Stream(), old(gb.index)) && r == UeValue(gb.Stream(), old(gb.index)) ==>
              LeadingZeros(gb.Stream(), old(gb.index)) <= 31
  {
    ghost var s, p := gb.Stream(), gb.index;
    var buf := gb.ShowBitsLong(32);
    var log := 31 - Log2(buf);
    ShowLog(s, p);
    gb.SkipBits(log);
    ghost var one := gb.index;
    var v := gb.GetBitsLong(log + 1);
    r := Sub(v, 1);
    LongResult(s, p, one, v);
  }

  lemma LongResult(s: seq<bit>, p: nat, one: nat, v: u32)
    requires p + 63 <= |s| && one == p + (if LeadingZeros(s, p) <= 31 then LeadingZeros(s, p) else 31)
    requires v == Val(s, one, one - p + 1)
    ensures LeadingZeros(s, p) <= 31 ==> UeAt(s, p, Sub(v, 1), one + (one - p) + 1) && Sub(v, 1) < ONES
    ensures HasCode(s, p) && Sub(v, 1) == UeValue(s, p) ==> LeadingZeros(s, p) <= 31
    ensures LessOne(v, Sub(v, 1))
  {
    if LeadingZeros(s, p) <= 31 {
      LongCode(s, p);
    } else if HasCode(s, p) {
      LongMiss(s, p);
    }
  }

  lemma ShowLog(s: seq<bit>, p: nat)
    requires p + 32 <= |s|
    ensures 0 <= Val(s, p, 32) < WORD
    ensures Log2(Val(s, p, 32)) == if LeadingZeros(s, p) <= 31 then 31 - LeadingZeros(s, p) else 0
  {
    ValWord(s, p, 32);
    if LeadingZeros(s, p) <= 31 {
      WindowRange(s, p, 32);
      Log2IsFloor(Val(s, p, 32), 31 - LeadingZeros(s, p));
    } else {
      ZerosVal(s, p, 32);
      Log2Zero();
    }
  }

  lemma LongCode(s: seq<bit>, p: nat)
    requires p + 63 <= |s| && LeadingZeros(s, p) <= 31
    ensures HasCode(s, p)
    ensures Val(s, p + LeadingZeros(s, p), LeadingZeros(s, p) + 1) == UeValue(s, p) + 1 < WORD
  {
    var z := LeadingZeros(s, p);
    CodeFromOne(s, p, p + z);
    ValWord(s, p + z, z + 1);
  }

  // With 32 or more zeros the 32 bits read after skipping 31 cannot give the value back.
  lemma LongMiss(s: seq<bit>, p: nat)
    requires HasCode(s, p) && 32 <= LeadingZeros(s, p)
    ensures ONES <= UeValue(s, p)
    ensures 0 <= Val(s, p + 31, 32) < WORD && Sub(Val(s, p + 31, 32), 1) != UeValue(s, p)
  {
    var z := LeadingZeros(s, p);
    Scales(1);
    ValWord(s, p + 31, 32);
    if z == 32 {
      ValSplit(s, p + 31, 2, 30);
      UpMono(0, Val(s, p + 31, 2), 30);
      assert s[p + 31] == 0 && s[p + 32] == 1;
      assert Val(s, p + 31, 1) == 0;
    } else {
      Pow2Mono(32, z);
    }
  }

  /* ---- te(v) ---- */

  // yang_get_te_golomb: range is the number of values the element can take.
  method GetTeGolomb(gb: GetBitContext, range: int) returns (r: i32)
    requires gb.Room(32)
    modifies gb`index
    ensures range == 2 ==> r == 1 - gb.Stream()[old(gb.index)] && gb.index == old(gb.index) + 1
    ensures range != 2 && LeadingZeros(gb.Stream(), old(gb.index)) <= 12 ==>
              UeAt(gb.Stream(), old(gb.index), r, gb.index)
    ensures range != 2 && 12 < LeadingZeros(gb.Stream(), old(gb.index)) ==>
              r == INVALIDDATA && gb.index == SkippedTo(old(gb.index), LeadingZeros(gb.Stream(), old(gb.index)))
  {
    if range == 2 {
      var b := gb.GetBits1();
      r := Xor(b, 1);
    } else {
      r := GetUeGolomb(gb);
    }
  }

  // yang_get_te0_golomb.
  method GetTe0Golomb(gb: GetBitContext, range: int) returns (r: i32)
    requires gb.Room(32)
    modifies gb`index
    ensures range == 1 ==> r == 0 && gb.index == old(gb.index)
    ensures range == 2 ==> r == 1 - gb.Stream()[old(gb.index)] && gb.index == old(gb.index) + 1
    ensures range !in {1, 2} && LeadingZeros(gb.Stream(), old(gb.index)) <= 12 ==>
              UeAt(gb.Stream(), old(gb.index), r, gb.index)
    ensures range !in {1, 2} && 12 < LeadingZeros(gb.Stream(), old(gb.index)) ==>
              r == INVALIDDATA && gb.index == SkippedTo(old(gb.index), LeadingZeros(gb.Stream(), old(gb.index)))
  {
    if range == 1 {
      r := 0;
    } else {
      r := GetTeGolomb(gb, range);
    }
  }

  /* ---- se(v) ---- */

  // The sign trick of yang_get_se_golomb acts on codeNum + 1.
  function SignOfCode(buf: u32): i32 {
    AndOne(buf);
    var sign := Sub(0, And(buf, 1));
    XorWord(sign, Shr(buf, 1));
    ToSigned(Sub(Xor(Shr(buf, 1), sign), sign))
  }

  // The sign trick of yang_get_se_golomb_long acts on codeNum.
  function SignOfNumber(buf: u32): i32 {
    AndOne(buf);
    var sign := Sub(And(buf, 1), 1);
    XorWord(sign, Shr(buf, 1));
    ToSigned(Add(Xor(Shr(buf, 1), sign), 1))
  }

  lemma SignOfCodeIs(buf: u32)
    requires 0 < buf
    ensures SignOfCode(buf) == SeMap(buf - 1)
  {
    AndOne(buf);
    HalfWord(buf);
    if buf % 2 == 0 {
      XorWord(0, buf / 2);
    } else {
      XorWord(ONES, buf / 2);
    }
  }

  lemma SignOfNumberIs(buf: u32)
    requires buf < ONES
    ensures SignOfNumber(buf) == SeMap(buf)
  {
    AndOne(buf);
    HalfWord(buf);
    XorWord(Sub(buf % 2, 1), buf / 2);
  }

  lemma HalfWord(buf: u32)
    ensures Shr(buf, 1) == buf / 2
  {
    assert ScaleDown(buf, 1) == ScaleDown(buf / 2, 0);
  }

  // Of the z + 1 bits from one on, those past the end of a cache load there are all zero.
  predicate PastIsZero(s: seq<bit>, one: nat, z: nat)
    requires z <= 31 && one + z + 1 <= |s|
  {
    one % 8 + z <= 31 || Val(s, one + 32 - one % 8, one % 8 + z - 31) == 0
  }

  // The two loads of yang_get_se_golomb, one at the code and one at its leading one, give the code.
  predicate LoadsReach(s: seq<bit>, p: nat, z: nat) {
    z <= 31 && (p % 8 + z < 32 || z == 31) && p + 2 * z + 1 <= |s| && PastIsZero(s, p + z, z)
  }

  lemma ShortReach(s: seq<bit>, p: nat, z: nat)
    requires z <= 24 && p + 2 * z + 1 <= |s|
    ensures LoadsReach(s, p, z)
  {
  }

  // yang_get_se_golomb is exact when the loads reach the code and only then; they always do with
  // at most 24 leading zeros.
  method GetSeGolomb(gb: GetBitContext) returns (r: i32)
    requires gb.Room(63)
    modifies gb`index
    ensures SeAt(gb.Stream(), old(gb.index), r, gb.index)
       <==> LoadsReach(gb.Stream(), old(gb.index), LeadingZeros(gb.Stream(), old(gb.index)))
    ensures LeadingZeros(gb.Stream(), old(gb.index)) <= 24 ==> SeAt(gb.Stream(), old(gb.index), r, gb.index)
  {
    ghost var data, p := gb.buffer[..], gb.index;
    if LeadingZeros(Bits(data), p) <= 24 {
      ShortReach(Bits(data), p, LeadingZeros(Bits(data), p));
    }
    var buf := LoadCache(gb.buffer[..], gb.index);
    FastPathGuard(data, p);
    if buf >= 0x800_0000 {
      buf := Shr(buf, 23);
      FastSlot(data, p, buf);
      gb.SkipBits(GolombVlcLen(buf));
      return SeGolombVlcCode(buf);
    }
    var reIndex;
    r, reIndex := ReadFromOne(gb.buffer[..], gb.index, buf);
    gb.index := reIndex;
  }

  // A code the loads do not reach: read from bit 7 on, 25 zeros and a one at bit 32, which the first
  // load does not see.
  lemma LateOneMissed(buf: seq<byte>)
    requires 9 <= |buf| && buf[0] == buf[1] == buf[2] == buf[3] == 0 && 128 <= buf[4]
    ensures LeadingZeros(Bits(buf), 7) == 25 && HasCode(Bits(buf), 7)
    ensures !LoadsReach(Bits(buf), 7, LeadingZeros(Bits(buf), 7))
  {
    var s := Bits(buf);
    forall i | 7 <= i < 32
      ensures s[i] == 0
    {
      DownBounds(0, 7 - i % 8);
      assert buf[i / 8] == 0;
    }
    ByteVal(buf, 4, 1);
    assert Val(s, 32, 1) == 2 * Val(s, 32, 0) + s[32];
    Halved(buf[4]);
    LeadingZerosIs(s, 7, 25);
  }

  lemma Halved(b: byte)
    ensures ScaleDown(b, 7) == b / 128
  {
    SmallHalvings(b);
    SmallHalvings(b / 2);
    assert ScaleDown(b, 7) == ScaleDown(b / 2, 6);
  }

  // The other branch of yang_get_se_golomb: load again at the leading one.
  method ReadFromOne(data: seq<byte>, p: nat, buf: u32) returns (r: i32, reIndex: nat)
    requires p + 63 <= 8 * |data| && buf == LoadCache(data, p)
    ensures SeAt(Bits(data), p, r, reIndex) <==> LoadsReach(Bits(data), p, LeadingZeros(Bits(data), p))
  {
    var log := Log2(buf);
    Log2Small(buf);
    CacheLog2(data, p);
    reIndex := p + 31 - log;
    ghost var one := reIndex;
    var code := Shr(LoadCache(data, reIndex), log);
    reIndex := reIndex + 32 - log;
    r := SignOfCode(code);
    SecondLoad(data, p, LeadingZeros(Bits(data), p), one, log, code);
  }

  lemma Log2Small(v: u32)
    ensures Log2(v) <= 31
  {
    Log2Steps(v);
  }

  lemma SecondLoad(data: seq<byte>, p: nat, z: nat, one: nat, log: nat, code: u32)
    requires p + 63 <= 8 * |data| && CanLoad(data, one) && z == LeadingZeros(Bits(data), p)
    requires log == (if p % 8 + z < 32 then 31 - z else 0) && one == p + 31 - log
    requires code == Shr(LoadCache(data, one), log)
    ensures SeAt(Bits(data), p, SignOfCode(code), one + 32 - log) <==> LoadsReach(Bits(data), p, z)
  {
    if z <= 31 && (p % 8 + z < 32 || z == 31) {
      LoadFromOne(data, one, z, code);
      SignedCode(Bits(data), p, one, z, code);
    }
  }

  lemma LoadFromOne(data: seq<byte>, one: nat, z: nat, code: u32)
    requires CanLoad(data, one) && z <= 31 && one + z + 1 <= |Bits(data)| && Bits(data)[one] == 1
    requires code == Shr(LoadCache(data, one), 31 - z)
    ensures 0 < code && (code == Val(Bits(data), one, z + 1) <==> PastIsZero(Bits(data), one, z))
  {
    if one % 8 + z <= 31 {
      CacheShow(data, one, z + 1, 31 - z);
      OneIsPositive(Bits(data), one, z + 1);
    } else {
      CacheIsWindow(data, one);
      WindowEnds(Bits(data), one, z, one % 8, LoadCache(data, one), code);
    }
  }

  // A window that ends before the code does gives the code's first bits over zeros.
  lemma WindowEnds(s: seq<bit>, one: nat, z: nat, k: nat, cache: nat, code: nat)
    requires k < 8 && z <= 31 && 31 < k + z && one + z + 1 <= |s| && s[one] == 1
    requires cache == ScaleUp(Val(s, one, 32 - k), k) && code == ScaleDown(cache, 31 - z)
    ensures 0 < code && (code == Val(s, one, z + 1) <==> Val(s, one + 32 - k, k + z - 31) == 0)
  {
    OneIsPositive(s, one, 32 - k);
    ShiftedPast(Val(s, one, 32 - k), k, 31 - z, code);
    ValJoin(s, one, 32 - k, one + 32 - k, k + z - 31, z + 1);
  }

  lemma OneIsPositive(s: seq<bit>, one: nat, n: nat)
    requires 0 < n && one + n <= |s| && s[one] == 1
    ensures 0 < Val(s, one, n)
  {
    WindowRange(s, one, n);
    UpPositive(n - 1);
  }

  lemma ShiftedPast(v: nat, k: nat, log: nat, code: nat)
    requires 0 < v && log <= k && code == ScaleDown(ScaleUp(v, k), log)
    ensures 0 < code == ScaleUp(v, k - log)
  {
    UpUp(v, k - log, log);
    UpPositive(log);
    DownUp(ScaleUp(v, k - log), 0, log);
    UpMono(0, v, k - log);
  }

  // The sign trick gives the signed value exactly when it is given the code.
  lemma SignedCode(s: seq<bit>, p: nat, one: nat, z: nat, code: u32)
    requires HasCode(s, p) && z == LeadingZeros(s, p) && one == p + z && 0 < code
    ensures SeAt(s, p, SignOfCode(code), one + z + 1) <==> code == Val(s, one, z + 1)
  {
    CodeFromOne(s, p, one);
    SignOfCodeIs(code);
    SeMapInjective(code - 1, UeValue(s, p));
  }

  lemma SeMapInjective(a: nat, b: nat)
    ensures SeMap(a) == SeMap(b) ==> a == b
  {
  }

  // The code read from its leading one.
  lemma CodeFromOne(s: seq<bit>, p: nat, one: nat)
    requires HasCode(s, p) && one == p + LeadingZeros(s, p)
    ensures Val(s, one, one - p + 1) == UeValue(s, p) + 1
  {
    CodeIsNumber(s, p);
    ZeroPrefix(s, p, one - p, one - p + 1);
  }

  // yang_get_se_golomb_long.
  method GetSeGolombLong(gb: GetBitContext) returns (r: i32)
    requires gb.Room(95)
    modifies gb`index
    ensures SeAt(gb.Stream(), old(gb.index), r, gb.index) <==> LeadingZeros(gb.Stream(), old(gb.index)) <= 31
    ensures HasCode(gb.Stream(), old(gb.index)) && r == SeMap(UeValue(gb.Stream(), old(gb.index))) ==>
              LeadingZeros(gb.Stream(), old(gb.index)) <= 31
    ensures old(gb.index) <= gb.index <= old(gb.index) + 63
  {
    ghost var s, p := gb.Stream(), gb.index;
    var buf := GetUeGolombLong(gb);
    if buf < ONES {
      SignOfNumberIs(buf);
    }
    r := SignOfNumber(buf);
    if HasCode(s, p) && 31 < LeadingZeros(s, p) {
      SignedLongMiss(s, p, buf);
    }
  }

  // Nor can the sign trick, applied to those bits, give the signed value back.
  lemma SignedLongMiss(s: seq<bit>, p: nat, buf: u32)
    requires HasCode(s, p) && 32 <= LeadingZeros(s, p) && LessOne(Val(s, p + 31, 32), buf)
    ensures SignOfNumber(buf) != SeMap(UeValue(s, p))
  {
    LongMiss(s, p);
    if buf < ONES {
      SignOfNumberIs(buf);
      SeMapInjective(buf, UeValue(s, p));
    } else {
      ValZeros(s, p + 31, 32);
      assert s[p + 32] == 0;
      Pow2Mono(32, LeadingZeros(s, p));
      Scales(1);
    }
  }
}
