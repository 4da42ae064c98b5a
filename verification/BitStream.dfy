/** A byte buffer read as a stream of bits, most significant bit first, and the
    32-bit window that Yang_UPDATE_CACHE_BE loads at an arbitrary bit offset. */
module BitStream {
  import opened Basics
  import opened Words

  type bit = b: int | 0 <= b <= 1

  function BitAt(b: byte, i: nat): bit
    requires i < 8
  {
    ScaleDown(b, 7 - i) % 2
  }

  // The bits of a buffer in reading order.
  function Bits(buf: seq<byte>): (s: seq<bit>)
    ensures |s| == 8 * |buf|
  {
    seq(8 * |buf|, i requires 0 <= i < 8 * |buf| => BitAt(buf[i / 8], i % 8))
  }

  // The big-endian number held by the n bits from position p.
  function Val(s: seq<bit>, p: nat, n: nat): nat
    requires p + n <= |s|
  {
    if n == 0 then 0 else 2 * Val(s, p, n - 1) + s[p + n - 1]
  }

  lemma OrPair(a: nat, b: nat, k: nat, u: nat, v: nat)
    requires b < 0x100
    requires u == ScaleUp(0x100 * a, k) && v == ScaleUp(b, k)
    ensures Or(u, v) == ScaleUp(0x100 * a + b, k)
  {
    Byte(a);
    Byte(1);
    UpUp(a, 8, k);
    UpUp(1, 8, k);
    UpMono(b, 0x100, k);
    UpAdd(0x100 * a, b, k);
    OrDisjoint(a, v, 8 + k);
  }

  lemma ShlBytes(a: byte)
    ensures Shl(a, 24) == ScaleUp(0x100 * a, 16) && Shl(a, 16) == ScaleUp(a, 16)
    ensures Shl(a, 8) == ScaleUp(a, 8)
  {
    Scales(a);
    Scales(0x100 * a);
  }

  lemma Regroup(a: nat)
    ensures ScaleUp(a, 16) == ScaleUp(0x100 * a, 8) && ScaleUp(a, 8) == 0x100 * a == ScaleUp(0x100 * a, 0)
  {
    Scales(a);
    Scales(0x100 * a);
  }

  lemma RB32Is(a: byte, b: byte, c: byte, d: byte)
    ensures Or(Or(Or(Shl(a, 24), Shl(b, 16)), Shl(c, 8)), d)
         == a * 0x100_0000 + b * 0x1_0000 + c * 0x100 + d
  {
    var ab, abc := 0x100 * a + b, 0x1_0000 * a + 0x100 * b + c;
    ShlBytes(a);
    ShlBytes(b);
    ShlBytes(c);
    Regroup(ab);
    Regroup(abc);
    OrPair(a, b, 16, Shl(a, 24), Shl(b, 16));
    OrPair(ab, c, 8, ScaleUp(ab, 16), Shl(c, 8));
    OrPair(abc, d, 0, ScaleUp(abc, 8), d);
  }

  // Yang_RB32: four bytes as a big-endian word.
  function RB32(buf: seq<byte>, q: nat): u32
    requires q + 4 <= |buf|
  {
    RB32Is(buf[q], buf[q + 1], buf[q + 2], buf[q + 3]);
    Or(Or(Or(Shl(buf[q], 24), Shl(buf[q + 1], 16)), Shl(buf[q + 2], 8)), buf[q + 3])
  }

  // A load at bit position p touches four bytes of the buffer.
  predicate CanLoad(buf: seq<byte>, p: int) {
    0 <= p && p / 8 + 4 <= |buf|
  }

  // Yang_UPDATE_CACHE_BE.
  function LoadCache(buf: seq<byte>, p: nat): u32
    requires CanLoad(buf, p)
  {
    Shl(RB32(buf, p / 8), p % 8)
  }

  /* ---- windows of a stream ---- */

  lemma {:induction false} ValBound(s: seq<bit>, p: nat, n: nat)
    requires p + n <= |s|
    ensures Val(s, p, n) < Pow2(n)
  {
    if n == 0 {
    } else {
      ValBound(s, p, n - 1);
    }
  }

  // Reading a + b bits is reading a bits and then b bits.
  lemma {:induction false} ValSplit(s: seq<bit>, p: nat, a: nat, b: nat)
    requires p + a + b <= |s|
    ensures Val(s, p, a + b) == ScaleUp(Val(s, p, a), b) + Val(s, p + a, b)
    ensures Val(s, p + a, b) < Pow2(b)
  {
    ValBound(s, p + a, b);
    if b == 0 {
    } else {
      ValSplit(s, p, a, b - 1);
    }
  }

  // The same with the middle and the total named.
  lemma ValJoin(s: seq<bit>, p: nat, a: nat, q: nat, b: nat, n: nat)
    requires p + n <= |s| && q == p + a && n == a + b
    ensures Val(s, p, n) == ScaleUp(Val(s, p, a), b) + Val(s, q, b)
    ensures Val(s, q, b) < Pow2(b)
  {
    ValSplit(s, p, a, b);
  }

  // The first n bits of a byte.
  lemma {:induction false} ByteVal(buf: seq<byte>, q: nat, n: nat)
    requires q < |buf| && n <= 8
    ensures Val(Bits(buf), 8 * q, n) == ScaleDown(buf[q], 8 - n)
  {
    if n != 0 {
      ByteVal(buf, q, n - 1);
      var i := 8 * q + n - 1;
      assert i / 8 == q && i % 8 == n - 1;
      assert Bits(buf)[i] == ScaleDown(buf[q], 8 - n) % 2;
      DownStep(buf[q], 8 - n);
    } else {
      assert ScaleDown(buf[q], 8) == 0 by {
        DownUp(0, buf[q], 8);
        Scales(1);
        UpAdd(0, 0, 8);
      }
    }
  }

  lemma {:induction false} DownStep(x: nat, k: nat)
    ensures ScaleDown(x, k) == 2 * ScaleDown(x, k + 1) + ScaleDown(x, k) % 2
  {
    assert ScaleDown(x, k + 1) == ScaleDown(x / 2, k);
    if k == 0 {
      assert ScaleDown(x / 2, 0) == x / 2;
    } else {
      DownStep(x / 2, k - 1);
    }
  }

  lemma NextByte(buf: seq<byte>, q: nat, n: nat)
    requires q + n < |buf|
    ensures Val(Bits(buf), 8 * q, 8 * n + 8) == 0x100 * Val(Bits(buf), 8 * q, 8 * n) + buf[q + n]
  {
    ValSplit(Bits(buf), 8 * q, 8 * n, 8);
    Byte(Val(Bits(buf), 8 * q, 8 * n));
    assert 8 * q + 8 * n == 8 * (q + n);
    ByteVal(buf, q + n, 8);
  }

  lemma WordVal(buf: seq<byte>, q: nat)
    requires q + 4 <= |buf|
    ensures Val(Bits(buf), 8 * q, 32) == RB32(buf, q)
  {
    var s := Bits(buf);
    var a: int, b: int, c: int := buf[q], buf[q + 1], buf[q + 2];
    assert Val(s, 8 * q, 8) == a by { NextByte(buf, q, 0); }
    assert Val(s, 8 * q, 16) == 0x100 * a + b by { NextByte(buf, q, 1); }
    assert Val(s, 8 * q, 24) == 0x1_0000 * a + 0x100 * b + c by { NextByte(buf, q, 2); }
    NextByte(buf, q, 3);
    RB32Is(buf[q], buf[q + 1], buf[q + 2], buf[q + 3]);
  }

  // The cache loaded at p holds the 32 - p%8 stream bits from p, left-aligned, then zeros.
  lemma CacheIsWindow(buf: seq<byte>, p: nat)
    requires CanLoad(buf, p)
    ensures LoadCache(buf, p) == ScaleUp(Val(Bits(buf), p, 32 - p % 8), p % 8)
  {
    var s, q, k := Bits(buf), p / 8, p % 8;
    WordVal(buf, q);
    ValSplit(s, 8 * q, k, 32 - k);
    ShlDrops(Val(s, 8 * q, k), Val(s, p, 32 - k), k);
  }

  lemma WindowSplit(s: seq<bit>, p: nat, k: nat, n: nat, c: nat) returns (rest: nat)
    requires k + n <= 32 && p + 32 - k <= |s|
    requires c == ScaleUp(Val(s, p, 32 - k), k)
    ensures rest < Pow2(32 - n)
    ensures c == ScaleUp(Val(s, p, n), 32 - n) + rest
  {
    ValSplit(s, p, n, 32 - k - n);
    var w := Val(s, p + n, 32 - k - n);
    UpSplit(Val(s, p, n), w, 32 - k - n, k);
    rest := ScaleUp(w, k);
  }

  // The cache as its top n bits, the next n bits of the stream, and a remainder below them.
  lemma CacheSplit(buf: seq<byte>, p: nat, n: nat) returns (rest: nat)
    requires CanLoad(buf, p) && n <= 32 - p % 8
    ensures rest < Pow2(32 - n)
    ensures LoadCache(buf, p) == ScaleUp(Val(Bits(buf), p, n), 32 - n) + rest
  {
    CacheIsWindow(buf, p);
    rest := WindowSplit(Bits(buf), p, p % 8, n, LoadCache(buf, p));
  }

  // Yang_SHOW_UBITS: the top n bits of the cache are the next n bits of the stream.
  lemma CacheShow(buf: seq<byte>, p: nat, n: nat, k: nat)
    requires CanLoad(buf, p) && n <= 32 - p % 8 && n + k == 32
    ensures Shr(LoadCache(buf, p), k) == Val(Bits(buf), p, n)
  {
    var rest := CacheSplit(buf, p, n);
    DownUp(Val(Bits(buf), p, n), rest, k);
  }
}
