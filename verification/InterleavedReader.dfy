/** The interleaved exp-Golomb decoders over the bit reader: the chunked unsigned decoder
    and the bit-twiddling signed one, proved against the bit-by-bit reader. */
module InterleavedReader {
  import opened Basics
  import opened Words
  import opened BitStream
  import opened BitReader
  import opened ExpGolomb
  import opened InterleavedCodes

  const INVALID_VLC: i32 := -0x8000_0000

  // The data bits that yang_get_interleaved_ue_golomb reads at most, in seven turns.
  const MAX_DATA_BITS: nat := 28

  /* ---- the masks that look for a stop bit ---- */

  // Ones at every second digit: 1, 0x5, 0x15, ...
  function Alternating(m: nat): nat {
    if m == 0 then 1 else 4 * Alternating(m - 1) + 1
  }

  // Masking with alternating ones sees the stop bits and nothing else.
  lemma {:induction false} MaskSeesStops(s: seq<bit>, p: nat, m: nat)
    requires p + 2 * m + 1 <= |s|
    ensures And(Val(s, p, 2 * m + 1), Alternating(m)) == 0 <==> ZeroStops(s, p, m) && Stop(s, p, m) == 0
  {
    var v, a := Val(s, p, 2 * m + 1), Alternating(m);
    if m == 0 {
      assert Val(s, p, 0) == 0;
      assert v == 2 * Val(s, p, 0) + Stop(s, p, 0);
      AndBit(v);
    } else {
      MaskSeesStops(s, p, m - 1);
      var u := Val(s, p, 2 * m - 1);
      assert Val(s, p, 2 * m) == 2 * u + Data(s, p, m - 1);
      AndTwo(u, Data(s, p, m - 1), Stop(s, p, m), Alternating(m - 1));
      assert ZeroStops(s, p, m) <==> ZeroStops(s, p, m - 1) && Stop(s, p, m - 1) == 0;
    }
  }

  lemma AndBit(v: nat)
    requires v < 2
    ensures And(v, 1) == v
  {
    AndZero(0);
  }

  lemma AndTwo(u: nat, d: nat, t: nat, a: nat)
    requires d < 2 && t < 2
    ensures And(4 * u + 2 * d + t, 4 * a + 1) == 4 * And(u, a) + t
  {
    assert (4 * u + 2 * d + t) / 2 == 2 * u + d;
    assert And(2 * u + d, 2 * a) == 2 * And(u, a);
  }

  lemma StopsCount(s: seq<bit>, p: nat, m: nat)
    requires p + 2 * m + 1 < |s|
    ensures ZeroStops(s, p, m) && Stop(s, p, m) == 0 <==> m < Pairs(s, p)
  {
    var j := Pairs(s, p);
    if j < m {
      assert Stop(s, p, j) == 1;
    }
  }

  // The fast-path guard: a stop among the first nine bits.
  lemma FastGuard(data: seq<byte>, p: nat)
    requires CanLoad(data, p)
    ensures And(LoadCache(data, p), 0xAA80_0000) != 0 <==> Pairs(Bits(data), p) <= 4
  {
    var s := Bits(data);
    var rest := CacheSplit(data, p, 9);
    GuardMask(LoadCache(data, p), Val(s, p, 9), rest);
    MaskSeesStops(s, p, 4);
    StopsCount(s, p, 4);
  }

  lemma GuardMask(c: nat, v: nat, rest: nat)
    requires rest < Pow2(23) && c == ScaleUp(v, 23) + rest
    ensures And(c, 0xAA80_0000) == 0 <==> And(v, Alternating(4)) == 0
  {
    assert Alternating(2) == 21;
    assert Alternating(4) == 0x155;
    Scales(0x155);
    assert ScaleUp(0x155, 24) == 2 * ScaleUp(0x155, 23);
    AndSplit(v, rest, 0x155, 0, 23);
    AndZero(rest);
    UpAdd(0, 0, 23);
    UpMono(0, And(v, 0x155), 23);
  }

  // The code at p has the signed value r and ends at q.
  ghost predicate SintAt(s: seq<bit>, p: nat, r: int, q: int) {
    exists k: nat :: UintAt(s, p, k, q) && r == SeMap(k)
  }

  // The slot of a code whose stop lies in the first nine bits.
  lemma FastInterleaved(data: seq<byte>, p: nat, i: nat)
    requires CanLoad(data, p) && Pairs(Bits(data), p) <= 4 && i == Shr(LoadCache(data, p), 24)
    ensures i < 256
    ensures UintAt(Bits(data), p, InterleavedUeCode(i), p + InterleavedLen(i))
    ensures SintAt(Bits(data), p, InterleavedSeCode(i), p + InterleavedLen(i))
  {
    CacheShow(data, p, 8, 24);
    WindowInterleaved(Bits(data), p, i);
  }

  lemma WindowInterleaved(s: seq<bit>, p: nat, i: nat)
    requires p + 9 < |s| && Pairs(s, p) <= 4 && i == Val(s, p, 8)
    ensures i < 256 && UintAt(s, p, InterleavedUeCode(i), p + InterleavedLen(i))
    ensures SintAt(s, p, InterleavedSeCode(i), p + InterleavedLen(i))
  {
    SlotIsInterleaved(s, p, Pairs(s, p), i);
    ReadUintIs(s, p);
    assert UintAt(s, p, InterleavedUeCode(i), p + InterleavedLen(i));
  }

  /* ---- the unsigned decoder ---- */

  // After 4t data bits the next eight bits hold m more.
  lemma ChunkSlot(s: seq<bit>, p: nat, t: nat, q: nat, i: nat, m: nat)
    requires p + 64 <= |s| && 4 * t <= Pairs(s, p) && q == p + 2 * (4 * t) && q + 8 <= |s|
    requires i == Val(s, q, 8) && m == Min(Pairs(s, p) - 4 * t, 4)
    ensures i < 256 && InterleavedLen(i) == 2 * m + 1 && InterleavedDiracCode(i) == Acc(s, q, m) - Pow2(m)
  {
    forall k: nat | k < m
      ensures Stop(s, q, k) == 0
    {
      assert Stop(s, q, k) == Stop(s, p, 4 * t + k);
    }
    if m < 4 {
      assert Stop(s, q, m) == Stop(s, p, 4 * t + m);
    }
    SlotIsInterleaved(s, q, m, i);
  }

  // Shifting the accumulator and or-ing the slot in accumulates them.
  lemma ChunkValue(s: seq<bit>, p: nat, t: nat, q: nat, ret: u32, d: nat, m: nat)
    requires t <= 6 && m <= 4 && q == p + 2 * (4 * t) && q + 2 * m <= |s|
    requires ret == Acc(s, p, 4 * t) && d == Acc(s, q, m) - Pow2(m)
    ensures Or(Shl(ret, m), d) == Acc(s, p, 4 * t + m) < 0x2000_0000
  {
    AccSplit(s, p, 4 * t, m);
    AccRange(s, p, 4 * t + m);
    PowerBound(4 * t + m + 1, 29);
    ShlOr(ret, d, m);
  }

  lemma ChunkLength(s: seq<bit>, p: nat, t: nat, q: nat, i: nat)
    requires t <= 6 && p + 64 <= |s| && q == p + 8 * t && 4 * t <= Pairs(s, p)
    requires i == Val(s, q, 8)
    ensures i < 256 && 0 < InterleavedLen(i) <= 9 && (InterleavedLen(i) != 9 <==> Pairs(s, p) < 4 * t + 4)
  {
    ChunkSlot(s, p, t, q, i, Min(Pairs(s, p) - 4 * t, 4));
  }

  // A turn that meets the stop ends the code.
  lemma StopTurn(s: seq<bit>, p: nat, t: nat, n: nat, q: nat, ret: u32, i: nat, r: nat)
    requires n == 4 * t
    requires t <= 6 && p + 64 <= |s| && q == p + 8 * t && 4 * t <= Pairs(s, p) < 4 * t + 4
    requires ret == Acc(s, p, n) && i < 256 && i == Val(s, q, 8)
    requires 0 < InterleavedLen(i)
    requires r == Or(Shl(ret, (InterleavedLen(i) - 1) / 2), InterleavedDiracCode(i))
    ensures InterleavedLen(i) < 9 && 0 < r < WORD && UintAt(s, p, r - 1, q + InterleavedLen(i))
  {
    var m := Pairs(s, p) - 4 * t;
    ChunkSlot(s, p, t, q, i, m);
    assert (InterleavedLen(i) - 1) / 2 == m;
    ChunkValue(s, p, t, q, ret, InterleavedDiracCode(i), m);
    LastValue(s, p, r);
  }

  lemma LastValue(s: seq<bit>, p: nat, r: nat)
    requires p <= |s| && p + 2 * Pairs(s, p) + 1 < |s| && r == Acc(s, p, Pairs(s, p))
    ensures 0 < r && UintAt(s, p, r - 1, p + 2 * Pairs(s, p) + 1)
  {
    AccRange(s, p, Pairs(s, p));
    ReadUintIs(s, p);
  }

  // A turn without a stop takes four data bits and stays below the bound for six turns.
  lemma FullTurn(s: seq<bit>, p: nat, t: nat, m: nat, q: nat, ret: u32, i: nat, r: nat, n: nat)
    requires t <= 6 && p + 64 <= |s| && q == p + 8 * t && m == 4 * t && n == 4 * t + 4 <= Pairs(s, p)
    requires ret == Acc(s, p, m) && i < 256 && i == Val(s, q, 8)
    requires r == Or(Shl(ret, 4), InterleavedDiracCode(i))
    ensures 0 < r == Acc(s, p, n) < WORD && (r < 0x800_0000 <==> t < 6)
  {
    ChunkSlot(s, p, t, q, i, 4);
    ChunkValue(s, p, t, q, ret, InterleavedDiracCode(i), 4);
    AccRange(s, p, n);
    GrownBound(r, n, t);
  }

  lemma GrownBound(a: nat, n: nat, t: nat)
    requires t <= 6 && n == 4 * t + 4 && Pow2(n) <= a < Pow2(n + 1)
    ensures 0 < a && (a < 0x800_0000 <==> t < 6)
  {
    PowerBound(if t < 6 then n + 1 else 25, 25);
  }

  lemma PowerBound(a: nat, b: nat)
    requires a <= b
    ensures Pow2(a) <= Pow2(b) && Pow2(29) == 0x2000_0000 && Pow2(25) == 0x200_0000 && Pow2(28) == 0x1000_0000
  {
    if a < b {
      Pow2Mono(a, b);
    }
    Scales(1);
    assert Pow2(25) == 2 * Pow2(24);
    assert Pow2(27) == 2 * Pow2(26) == 4 * Pow2(25);
    assert Pow2(29) == 2 * Pow2(28) == 4 * Pow2(27);
  }

  // yang_get_interleaved_ue_golomb.
  method GetInterleavedUeGolomb(gb: GetBitContext) returns (r: u32)
    requires gb.Room(88)
    modifies gb`index
    ensures Pairs(gb.Stream(), old(gb.index)) <= 27 ==> UintAt(gb.Stream(), old(gb.index), r, gb.index)
    ensures 27 < Pairs(gb.Stream(), old(gb.index)) ==>
              r == Acc(gb.Stream(), old(gb.index), MAX_DATA_BITS) - 1 && gb.index == old(gb.index) + 56
  {
    ghost var data, p := gb.buffer[..], gb.index;
    var buf := LoadCache(gb.buffer[..], gb.index);
    FastGuard(data, p);
    if And(buf, 0xAA80_0000) != 0 {
      buf := Shr(buf, 24);
      FastInterleaved(data, p, buf);
      gb.index := gb.index + InterleavedLen(buf);
      return InterleavedUeCode(buf);
    }
    var q;
    r, q := ReadChunks(gb.buffer[..], gb.index);
    gb.index := q;
  }

  // One turn of the loop of yang_get_interleaved_ue_golomb, for the eight bits at q; it stops where
  // it meets a stop bit among them.
  method ReadSlot(ghost s: seq<bit>, ghost p: nat, q: nat, buf: u32, ret: u32, ghost t: nat, ghost n: nat)
      returns (stop: bool, next: u32, reIndex: nat)
    requires t <= 6 && n == 4 * t && q == p + 8 * t && p + 64 <= |s| && buf == Val(s, q, 8)
    requires n <= Pairs(s, p) && 0 < ret == Acc(s, p, n)
    ensures 0 < next && (stop <==> Pairs(s, p) < n + 4)
    ensures stop ==> UintAt(s, p, next - 1, reIndex)
    ensures !stop ==> next == Acc(s, p, n + 4) && reIndex == q + 8 && (next < 0x800_0000 <==> t < 6)
  {
    ChunkLength(s, p, t, q, buf);
    var len, dirac := InterleavedLen(buf), InterleavedDiracCode(buf);
    reIndex := q + Min(len, 8);
    stop := len != 9;
    if stop {
      var last := Or(Shl(ret, (len - 1) / 2), dirac);
      StopTurn(s, p, t, n, q, ret, buf, last);
      next := last;
    } else {
      var grown := Or(Shl(ret, 4), dirac);
      FullTurn(s, p, t, n, q, ret, buf, grown, n + 4);
      next := grown;
    }
  }

  // The loop of yang_get_interleaved_ue_golomb.
  method ReadChunks(data: seq<byte>, p: nat) returns (r: u32, reIndex: nat)
    requires p + 88 <= 8 * |data|
    ensures Pairs(Bits(data), p) <= 27 ==> UintAt(Bits(data), p, r, reIndex)
    ensures 27 < Pairs(Bits(data), p) ==> r == Acc(Bits(data), p, MAX_DATA_BITS) - 1 && reIndex == p + 56
  {
    ghost var s := Bits(data);
    reIndex := p;
    var ret: u32, stop, again := 1, false, true;
    ghost var t, n := 0, 0;
    while again
      invariant t <= 7 && n == 4 * t && 0 < ret
      invariant !stop ==> reIndex == p + 8 * t && n <= Pairs(s, p) && ret == Acc(s, p, n)
      invariant stop ==> Pairs(s, p) <= 27 && UintAt(s, p, ret - 1, reIndex)
      invariant again <==> !stop && t < 7
      decreases again, 7 - t
    {
      var buf := ShowUbits(data, reIndex, 8);
      assert buf < WORD by { ValWord(s, reIndex, 8); }
      stop, ret, reIndex := ReadSlot(s, p, reIndex, buf, ret, t, n);
      again := !stop && ret < 0x800_0000;
      if !stop {
        t, n := t + 1, n + 4;
      }
    }
    r := ret - 1;
  }

  /* ---- the signed decoder ---- */

  // Two loads eight bits apart, joined by |, give 31 stream bits and a final one.
  lemma JoinedLoads(data: seq<byte>, p: nat)
    requires CanLoad(data, p) && CanLoad(data, p + 8)
    ensures Or(LoadCache(data, p), Or(1, Shr(LoadCache(data, p + 8), 8))) == 2 * Val(Bits(data), p, 31) + 1
  {
    var s, w := Bits(data), Min(32 - p % 8, 31);
    CacheShow(data, p + 8, 24, 8);
    LowOne(Val(s, p + 8, 24), Val(s, p + 8, 23));
    TopThirtyOne(data, p, w);
    OverlapIs(s, p, w);
    OrLowOne(LoadCache(data, p), Val(s, p + 8, 23));
  }

  lemma LowOne(y: nat, half: nat)
    requires y / 2 == half
    ensures Or(1, y) == 2 * half + 1
  {
    OrZero(half);
  }

  lemma OrLowOne(c: nat, y: nat)
    ensures Or(c, 2 * y + 1) == 2 * Or(c / 2, y) + 1
  {
  }

  lemma TopThirtyOne(data: seq<byte>, p: nat, w: nat)
    requires CanLoad(data, p) && w == Min(32 - p % 8, 31)
    ensures LoadCache(data, p) / 2 == ScaleUp(Val(Bits(data), p, w), 31 - w)
  {
    CacheIsWindow(data, p);
    if p % 8 == 0 {
      assert ScaleUp(Val(Bits(data), p, 31), 0) == Val(Bits(data), p, 31);
    }
  }

  // Or-ing a window with a later window that overlaps it extends the first.
  lemma OverlapIs(s: seq<bit>, p: nat, w: nat)
    requires 8 <= w <= 31 && p + 31 <= |s|
    ensures Or(ScaleUp(Val(s, p, w), 31 - w), Val(s, p + 8, 23)) == Val(s, p, 31)
  {
    Overlapping(s, p, 8, p + 8, w - 8, p + w, 31 - w, w, 23, 31);
  }

  // A window of w bits in two parts, and a later one of v bits that shares the second part.
  lemma Overlapping(s: seq<bit>, p: nat, t: nat, q: nat, a: nat, r: nat, b: nat, w: nat, v: nat, n: nat)
    requires q == p + t && r == q + a && w == t + a && v == a + b && n == w + b && p + n <= |s|
    ensures Or(ScaleUp(Val(s, p, w), b), Val(s, q, v)) == Val(s, p, n)
  {
    ValJoin(s, p, t, q, a, w);
    ValJoin(s, q, a, r, b, v);
    ValJoin(s, p, w, r, b, n);
    OrOverlap(Val(s, p, t), Val(s, q, a), Val(s, r, b), a, b, Val(s, p, w), Val(s, q, v));
  }

  lemma OrOverlap(top: nat, shared: nat, tail: nat, a: nat, b: nat, x: nat, y: nat)
    requires shared < Pow2(a) && tail < Pow2(b)
    requires x == ScaleUp(top, a) + shared && y == ScaleUp(shared, b) + tail
    ensures Or(ScaleUp(x, b), y) == ScaleUp(x, b) + tail
  {
    OrShared(top, shared, a, x);
    OrSplit(x, 0, shared, tail, b);
    OrZero(tail);
  }

  lemma OrShared(top: nat, shared: nat, a: nat, x: nat)
    requires shared < Pow2(a) && x == ScaleUp(top, a) + shared
    ensures Or(x, shared) == x
  {
    OrSplit(top, shared, 0, shared, a);
    UpAdd(0, 0, a);
    OrZero(top);
    OrSelf(shared);
  }

  // No stop at any of the sixteen positions.
  lemma NoStopMask(s: seq<bit>, p: nat, buf: nat)
    requires p + 32 < |s| && buf == 2 * Val(s, p, 31) + 1
    ensures And(buf, 0xAAAA_AAAA) == 0 <==> 15 < Pairs(s, p)
  {
    AlternatingWord();
    AndOdd(Val(s, p, 31), Alternating(15));
    MaskSeesStops(s, p, 15);
    StopsCount(s, p, 15);
  }

  lemma AndOdd(a: nat, m: nat)
    ensures And(2 * a + 1, 2 * m) == 2 * And(a, m)
  {
  }

  lemma AlternatingStep(m: nat)
    ensures Alternating(m + 2) == 16 * Alternating(m) + 5
  {
    assert Alternating(m + 2) == 4 * Alternating(m + 1) + 1;
  }

  lemma AlternatingWord()
    ensures Alternating(15) == 0x5555_5555
  {
    assert Alternating(1) == 5;
    AlternatingStep(1);
    AlternatingStep(3);
    AlternatingStep(5);
    AlternatingStep(7);
    AlternatingStep(9);
    AlternatingStep(11);
    AlternatingStep(13);
  }

  // After t turns: the stream from the t-th pair on, left-aligned, over the accumulated value.
  ghost predicate Shifted(s: seq<bit>, p: nat, t: nat, buf: nat)
    requires t <= 15 && p + 31 <= |s|
  {
    buf == ScaleUp(Val(s, p + 2 * t, 31 - 2 * t), 2 * t + 1) + Acc(s, p, t)
  }

  lemma ShiftedBounds(s: seq<bit>, p: nat, t: nat, buf: nat)
    requires t <= 15 && p + 31 <= |s| && Shifted(s, p, t, buf)
    ensures 0 < Acc(s, p, t) < Pow2(t + 1) <= Pow2(2 * t + 1)
    ensures buf < WORD
  {
    AccRange(s, p, t);
    if 0 < t {
      Pow2Mono(t + 1, 2 * t + 1);
    }
    ValBound(s, p + 2 * t, 31 - 2 * t);
    UpMono(Val(s, p + 2 * t, 31 - 2 * t), Pow2(31 - 2 * t), 2 * t + 1);
    UpUp(1, 31 - 2 * t, 2 * t + 1);
    Scales(1);
  }

  // buf & 0x80000000 looks at the t-th stop.
  lemma TopBitIsStop(s: seq<bit>, p: nat, t: nat, buf: nat)
    requires t <= 15 && p + 31 <= |s| && Shifted(s, p, t, buf)
    ensures And(buf, 0x8000_0000) == 0 <==> Stop(s, p, t) == 0
  {
    var b, rest := Stop(s, p, t), Val(s, p + 2 * t + 1, 30 - 2 * t);
    ShiftedBounds(s, p, t, buf);
    ValSplit(s, p + 2 * t, 1, 30 - 2 * t);
    assert Val(s, p + 2 * t, 1) == 2 * Val(s, p + 2 * t, 0) + b == b;
    TopBit(b, rest, Acc(s, p, t), t, buf);
  }

  lemma TopBit(b: nat, rest: nat, a: nat, t: nat, buf: nat)
    requires t <= 15 && b <= 1 && rest < Pow2(30 - 2 * t) && a < Pow2(2 * t + 1)
    requires buf == ScaleUp(ScaleUp(b, 30 - 2 * t) + rest, 2 * t + 1) + a
    ensures And(buf, 0x8000_0000) == 0 <==> b == 0
  {
    UpSplit(b, rest, 30 - 2 * t, 2 * t + 1);
    LowPart(rest, a, 30 - 2 * t, 2 * t + 1);
    TopBitMask(b, ScaleUp(rest, 2 * t + 1) + a);
  }

  lemma LowPart(v: nat, a: nat, j: nat, k: nat)
    requires v < Pow2(j) && a < Pow2(k)
    ensures ScaleUp(v, k) + a < Pow2(j + k)
  {
    UpMono(v, Pow2(j), k);
    UpUp(1, j, k);
  }

  lemma TopBitMask(b: nat, rest: nat)
    requires b <= 1 && rest < Pow2(31)
    ensures And(ScaleUp(b, 31) + rest, 0x8000_0000) == 0 <==> b == 0
  {
    Scales(1);
    assert Pow2(32) == 2 * Pow2(31);
    AndSplit(b, rest, 1, 0, 31);
    AndZero(rest);
    AndBit(b);
    UpAdd(0, 0, 31);
  }

  // One turn of the loop body.
  function Twiddle(buf: u32, log: nat): u32
    requires 1 <= log
  {
    Add(Sub(Shl(buf, 2), Shr(Shl(buf, log), log - 1)), Shr(buf, 30))
  }

  // The low 32 - log digits, moved to the top, are the accumulated value.
  lemma LowToTop(v: nat, a: nat, t: nat, buf: u32)
    requires t <= 15 && a < Pow2(t + 1) && buf == ScaleUp(v, 2 * t + 1) + a
    ensures Shl(buf, 31 - t) == ScaleUp(a, 31 - t) < WORD
  {
    UpUp(v, t, t + 1);
    ShlDrops(ScaleUp(v, t), a, 31 - t);
  }

  lemma HighPair(x: nat, rest: nat, a: nat, t: nat, buf: u32)
    requires t < 15 && x <= 1 && rest < Pow2(29 - 2 * t) && a < Pow2(2 * t + 1)
    requires buf == ScaleUp(ScaleUp(x, 29 - 2 * t) + rest, 2 * t + 1) + a
    ensures Shr(buf, 30) == x
    ensures Shl(buf, 2) == ScaleUp(rest, 2 * t + 3) + 4 * a < WORD
  {
    var low := ScaleUp(rest, 2 * t + 1) + a;
    UpSplit(x, rest, 29 - 2 * t, 2 * t + 1);
    LowPart(rest, a, 29 - 2 * t, 2 * t + 1);
    DownUp(x, low, 30);
    ShlDrops(x, low, 2);
    UpAdd(ScaleUp(rest, 2 * t + 1), a, 2);
    UpUp(rest, 2 * t + 1, 2);
    Quadruple(a);
  }

  lemma Quadruple(a: nat)
    ensures ScaleUp(a, 2) == 4 * a
  {
    assert ScaleUp(a, 1) == 2 * a;
  }

  lemma DoubleDown(a: nat, log: nat)
    requires 1 <= log && ScaleUp(a, log) < WORD
    ensures Shr(ScaleUp(a, log), log - 1) == 2 * a
  {
    UpUp(a, 1, log - 1);
    assert ScaleUp(a, 1) == 2 * a;
    DownUp(2 * a, 0, log - 1);
  }

  lemma TwiddleIs(x: nat, rest: nat, a: nat, t: nat, buf: u32)
    requires t < 15 && x <= 1 && rest < Pow2(29 - 2 * t) && 0 < a < Pow2(t + 1) <= Pow2(2 * t + 1)
    requires buf == ScaleUp(ScaleUp(x, 29 - 2 * t) + rest, 2 * t + 1) + a
    ensures Twiddle(buf, 31 - t) == ScaleUp(rest, 2 * t + 3) + (2 * a + x)
  {
    LowToTop(ScaleUp(x, 29 - 2 * t) + rest, a, t, buf);
    DoubleDown(a, 31 - t);
    HighPair(x, rest, a, t, buf);
    Sums(ScaleUp(rest, 2 * t + 3), a, x);
  }

  lemma Sums(high: nat, a: nat, x: nat)
    requires high + 4 * a < WORD && x <= 1 && 0 < a
    ensures Add(Sub(high + 4 * a, 2 * a), x) == high + (2 * a + x)
  {
  }

  lemma TwiddleStep(s: seq<bit>, p: nat, t: nat, buf: u32)
    requires t < 15 && p + 31 <= |s| && Shifted(s, p, t, buf) && Stop(s, p, t) == 0
    ensures Shifted(s, p, t + 1, Twiddle(buf, 31 - t))
  {
    var q, x, rest := p + 2 * t, Data(s, p, t), Val(s, p + 2 * t + 2, 29 - 2 * t);
    ShiftedBounds(s, p, t, buf);
    ValSplit(s, q, 2, 29 - 2 * t);
    assert Val(s, q, 1) == 2 * Val(s, q, 0) + Stop(s, p, t) == 0;
    assert Val(s, q, 2) == x;
    TwiddleIs(x, rest, Acc(s, p, t), t, buf);
    assert q + 2 == p + 2 * (t + 1);
  }

  // The final expression: the signed mapping of the accumulated value less one.
  function Finish(buf: u32, log: nat): i32 {
    var low := Shr(Shl(buf, log), log);
    AndOne(buf);
    var sign := Sub(0, And(buf, 1));
    XorWord(sign, Sub(low, 1));
    Sar(ToSigned(Add(Xor(Sub(low, 1), sign), 1)), 1)
  }

  lemma FinishIs(v: nat, a: nat, t: nat, buf: u32)
    requires t <= 15 && 0 < a < Pow2(t + 1) && buf == ScaleUp(v, 2 * t + 1) + a
    ensures Finish(buf, 31 - t) == SeMap(a - 1)
  {
    LowToTop(v, a, t, buf);
    DownUp(a, 0, 31 - t);
    assert buf % 2 == a % 2 by { assert ScaleUp(v, 2 * t + 1) == 2 * ScaleUp(v, 2 * t); }
    PowerBound(t + 1, 25);
    FinishFrom(buf, 31 - t, a);
  }

  lemma FinishFrom(buf: u32, log: nat, a: u32)
    requires Shr(Shl(buf, log), log) == a && buf % 2 == a % 2 && 0 < a < 0x200_0000
    ensures Finish(buf, log) == SeMap(a - 1)
  {
    AndOne(buf);
    assert Sub(a, 1) == a - 1;
    FinishSign(a);
  }

  lemma FinishSign(a: u32)
    requires 0 < a < 0x200_0000
    ensures var sign := Sub(0, a % 2);
            0 <= Xor(a - 1, sign) < WORD && Sar(ToSigned(Add(Xor(a - 1, sign), 1)), 1) == SeMap(a - 1)
  {
    if a % 2 == 0 {
      assert Sub(0, a % 2) == 0;
      FinishEven(a);
    } else {
      assert Sub(0, a % 2) == ONES;
      FinishOdd(a);
    }
  }

  lemma FinishEven(a: u32)
    requires 0 < a < 0x200_0000 && a % 2 == 0
    ensures Xor(a - 1, 0) == a - 1 && Sar(ToSigned(Add(a - 1, 1)), 1) == SeMap(a - 1)
  {
    XorWord(0, a - 1);
    Half(a);
  }

  lemma FinishOdd(a: u32)
    requires 0 < a < 0x200_0000 && a % 2 == 1
    ensures 0 <= Xor(a - 1, ONES) < WORD && Sar(ToSigned(Add(Xor(a - 1, ONES), 1)), 1) == SeMap(a - 1)
  {
    XorWord(ONES, a - 1);
    NegatedWord(a - 1);
    Half(1 - a);
  }

  lemma NegatedWord(x: nat)
    requires x < 0x200_0000
    ensures ToSigned(Add(ONES - x, 1)) == 0 - x
  {
  }

  lemma Half(a: int)
    ensures ScaleDown(a, 1) == a / 2
  {
    assert ScaleDown(a, 1) == ScaleDown(a / 2, 0);
  }

  lemma FinishStep(s: seq<bit>, p: nat, t: nat, buf: u32, log: nat, q: nat)
    requires t <= 15 && p + 32 < |s| && Shifted(s, p, t, buf) && t == Pairs(s, p) && log == 31 - t
    requires q == p + 2 * t + 1
    ensures SintAt(s, p, Finish(buf, log), q)
  {
    ShiftedBounds(s, p, t, buf);
    FinishIs(Val(s, p + 2 * t, 31 - 2 * t), Acc(s, p, t), t, buf);
    ReadUintIs(s, p);
    assert UintAt(s, p, Acc(s, p, t) - 1, p + 2 * t + 1);
  }

  // yang_get_interleaved_se_golomb.
  method GetInterleavedSeGolomb(gb: GetBitContext) returns (r: i32)
    requires gb.Room(40)
    modifies gb`index
    ensures Pairs(gb.Stream(), old(gb.index)) <= 15 ==> SintAt(gb.Stream(), old(gb.index), r, gb.index)
    ensures 15 < Pairs(gb.Stream(), old(gb.index)) ==> r == INVALID_VLC && gb.index == old(gb.index)
  {
    ghost var data, p := gb.buffer[..], gb.index;
    var reIndex := gb.index;
    var buf := LoadCache(gb.buffer[..], reIndex);
    FastGuard(data, p);
    if And(buf, 0xAA80_0000) != 0 {
      buf := Shr(buf, 24);
      FastInterleaved(data, p, buf);
      gb.index := reIndex + InterleavedLen(buf);
      return InterleavedSeCode(buf);
    }
    r, reIndex := ReadSigned(gb.buffer[..], reIndex);
    gb.index := reIndex;
  }

  // The other branch of yang_get_interleaved_se_golomb.
  method ReadSigned(data: seq<byte>, p: nat) returns (r: i32, reIndex: nat)
    requires p + 40 <= 8 * |data|
    ensures Pairs(Bits(data), p) <= 15 ==> SintAt(Bits(data), p, r, reIndex)
    ensures 15 < Pairs(Bits(data), p) ==> r == INVALID_VLC && reIndex == p
  {
    var buf := LoadCache(data, p);
    var joined := Or(buf, Or(1, Shr(LoadCache(data, p + 8), 8)));
    JoinedWord(data, p, buf, joined);
    buf := joined;
    if And(buf, 0xAAAA_AAAA) == 0 {
      return INVALID_VLC, p;
    }
    var log;
    buf, log := Untwiddle(Bits(data), p, buf);
    reIndex := p + 8;
    reIndex := reIndex + 63 - 2 * log - 8;
    r := Finish(buf, log);
    FinishStep(Bits(data), p, 31 - log, buf, log, reIndex);
  }

  lemma JoinedWord(data: seq<byte>, p: nat, cache: u32, buf: nat)
    requires CanLoad(data, p) && CanLoad(data, p + 8) && cache == LoadCache(data, p)
    requires buf == Or(cache, Or(1, Shr(LoadCache(data, p + 8), 8)))
    ensures 0 < buf < WORD && Shifted(Bits(data), p, 0, buf)
    ensures And(buf, 0xAAAA_AAAA) == 0 <==> 15 < Pairs(Bits(data), p)
  {
    JoinedLoads(data, p);
    NoStopMask(Bits(data), p, buf);
    JoinedShape(Bits(data), p, buf);
  }

  lemma JoinedShape(s: seq<bit>, p: nat, buf: nat)
    requires p + 31 <= |s| && buf == 2 * Val(s, p, 31) + 1
    ensures 0 < buf < WORD && Shifted(s, p, 0, buf)
  {
    assert ScaleUp(Val(s, p, 31), 1) == 2 * Val(s, p, 31);
    ShiftedBounds(s, p, 0, buf);
  }

  // The loop of yang_get_interleaved_se_golomb: two stream bits a turn.
  method Untwiddle(ghost s: seq<bit>, ghost p: nat, buf0: u32) returns (buf: u32, log: nat)
    requires p + 32 < |s| && Pairs(s, p) <= 15 && Shifted(s, p, 0, buf0)
    ensures log == 31 - Pairs(s, p) && Shifted(s, p, Pairs(s, p), buf)
  {
    buf, log := buf0, 31;
    TopBitIsStop(s, p, 0, buf);
    while And(buf, 0x8000_0000) == 0
      invariant 16 <= log <= 31 && 31 - log <= Pairs(s, p)
      invariant Shifted(s, p, 31 - log, buf)
      invariant And(buf, 0x8000_0000) == 0 <==> Stop(s, p, 31 - log) == 0
      decreases log
    {
      TwiddleStep(s, p, 31 - log, buf);
      buf := Twiddle(buf, log);
      log := log - 1;
      TopBitIsStop(s, p, 31 - log, buf);
    }
  }
}
