/** The big-endian, unchecked bit reader: a context over a padded byte buffer whose
    methods return windows of the bit stream and advance the bit index. */
module BitReader {
  import opened Basics
  import opened Words
  import opened BitStream

  const INT_MAX: int := 0x7FFF_FFFF
  const INVALIDDATA: i32 := -0x4144_4E49
  const PADDING_BYTES: nat := 64
  const MIN_CACHE_BITS: nat := 25

  type u64 = x: int | 0 <= x < 0x1_0000_0000_0000_0000

  /* ---- the signed readings of an n-bit field ---- */

  // The two's complement value of the n-bit field v.
  function TwosComplement(v: nat, n: nat): int
    requires 0 < n
  {
    if v < Pow2(n - 1) then v else v - Pow2(n)
  }

  // The MPEG-1 dc reading: a leading 1 is positive, a leading 0 stands for v - (2^n - 1).
  function DcValue(v: nat, n: nat): int
    requires 0 < n
  {
    if v < Pow2(n - 1) then v - (Pow2(n) - 1) else v
  }

  // yang_sign_extend.
  function SignExtend(val: u32, bits: nat): i32
    requires 1 <= bits <= 32
  {
    Sar(ToSigned(Shl(val, 32 - bits)), 32 - bits)
  }

  lemma {:induction false} DownBelowZero(x: int, m: nat, k: nat)
    requires k <= m
    ensures ScaleDown(x - Pow2(m), k) == ScaleDown(x, k) - Pow2(m - k)
    decreases k
  {
    if k == 0 {
    } else {
      DownBelowZero(x / 2, m - 1, k - 1);
    }
  }

  // The arithmetic shift of a word sign-extends its top n bits.
  lemma SarIsTwosComplement(v: nat, rest: nat, n: nat)
    requires 1 <= n <= 32 && v < Pow2(n) && rest < Pow2(32 - n)
    ensures 0 <= ScaleUp(v, 32 - n) + rest < WORD
    ensures Sar(ToSigned(ScaleUp(v, 32 - n) + rest), 32 - n) == TwosComplement(v, n)
    ensures ToSigned(ScaleUp(v, 32 - n) + rest) < 0 <==> Pow2(n - 1) <= v
  {
    TopDigit(v, rest, n);
    DownUp(v, rest, 32 - n);
    Scales(1);
    DownBelowZero(ScaleUp(v, 32 - n) + rest, 32, 32 - n);
  }

  lemma TopDigit(v: nat, rest: nat, n: nat)
    requires 1 <= n <= 32 && v < Pow2(n) && rest < Pow2(32 - n)
    ensures ScaleUp(v, 32 - n) + rest < WORD
    ensures 0x8000_0000 <= ScaleUp(v, 32 - n) + rest <==> Pow2(n - 1) <= v
  {
    Scales(1);
    UpUp(1, n, 32 - n);
    UpUp(1, n - 1, 32 - n);
    UpMono(v, Pow2(n), 32 - n);
    UpMono(v, Pow2(n - 1), 32 - n);
    UpMono(Pow2(n - 1), v, 32 - n);
    assert Pow2(32) == 2 * Pow2(31);
  }

  lemma SignExtendIs(v: u32, n: nat)
    requires 1 <= n <= 32 && v < Pow2(n)
    ensures SignExtend(v, n) == TwosComplement(v, n)
  {
    SarIsTwosComplement(v, 0, n);
  }

  // The xor-and-subtract trick of yang_get_xbits.
  function XbitsOf(cache: u32, n: nat): i32
    requires 1 <= n <= 25
  {
    var sign: u32 := if ToSigned(cache) < 0 then 0 else ONES;  // ~cache >> 31
    XorWord(sign, cache);
    var mantissa := Shr(Xor(sign, cache), 32 - n);
    XorWord(sign, mantissa);
    ToSigned(Sub(Xor(mantissa, sign), sign))
  }

  lemma XorWord(sign: u32, x: u32)
    requires sign == 0 || sign == ONES
    ensures Xor(sign, x) == Xor(x, sign) == if sign == 0 then x else ONES - x
  {
    XorZero(x);
    Scales(1);
    XorLow(x, 32);
    XorSwap(x, sign);
  }

  lemma XorSwap(a: nat, b: nat)
    ensures Xor(a, b) == Xor(b, a)
    decreases a + b
  {
  }

  lemma XbitsIs(v: nat, rest: nat, n: nat)
    requires 1 <= n <= 25 && v < Pow2(n) && rest < Pow2(32 - n)
    ensures 0 <= ScaleUp(v, 32 - n) + rest < WORD
    ensures XbitsOf(ScaleUp(v, 32 - n) + rest, n) == DcValue(v, n)
  {
    TopDigit(v, rest, n);
    Pow2Bound(n);
    if Pow2(n - 1) <= v {
      XbitsPositive(ScaleUp(v, 32 - n) + rest, n);
      DownUp(v, rest, 32 - n);
    } else {
      Complement(v, rest, n);
      DownUp(Pow2(n) - 1 - v, Pow2(32 - n) - 1 - rest, 32 - n);
      XbitsNegative(ScaleUp(v, 32 - n) + rest, n);
    }
  }

  lemma XbitsPositive(cache: u32, n: nat)
    requires 1 <= n <= 25 && ToSigned(cache) < 0
    ensures XbitsOf(cache, n) == ToSigned(Shr(cache, 32 - n))
  {
    XorWord(0, cache);
    XorWord(0, Shr(cache, 32 - n));
  }

  lemma XbitsNegative(cache: u32, n: nat)
    requires 1 <= n <= 25 && 0 <= ToSigned(cache)
    requires Shr(ONES - cache, 32 - n) <= 0x8000_0000
    ensures XbitsOf(cache, n) as int + Shr(ONES - cache, 32 - n) as int == 0
  {
    XorWord(ONES, cache);
    XorWord(ONES, Shr(ONES - cache, 32 - n));
  }

  lemma Complement(v: nat, rest: nat, n: nat)
    requires 1 <= n <= 32 && v < Pow2(n) && rest < Pow2(32 - n)
    ensures ONES - (ScaleUp(v, 32 - n) + rest) == ScaleUp(Pow2(n) - 1 - v, 32 - n) + (Pow2(32 - n) - 1 - rest)
  {
    Scales(1);
    UpAdd(v, Pow2(n) - 1 - v, 32 - n);
    UpAdd(Pow2(n) - 1, 1, 32 - n);
    UpUp(1, n, 32 - n);
  }

  lemma Pow2Bound(n: nat)
    requires n <= 31
    ensures Pow2(n) <= 0x8000_0000
  {
    Scales(1);
    assert Pow2(32) == 2 * Pow2(31);
    Pow2Mono(n, 32);
  }

  lemma Pow2Word(n: nat)
    requires n <= 32
    ensures Pow2(n) <= WORD
  {
    Scales(1);
    if n < 32 {
      Pow2Mono(n, 32);
    }
  }

  // yang_get_bits1 shifts one byte left, within uint8_t, and then right.
  lemma OneBit(b: byte, k: nat)
    requires k < 8
    ensures ScaleDown(ScaleUp(b, k) % 256, 7) == BitAt(b, k)
  {
    var t := ScaleDown(b, 7 - k);
    LowDigits(b, 7 - k);
    var low := b - ScaleUp(t, 7 - k);
    UpSplit(t, low, 7 - k, k);
    SplitTop(t, ScaleUp(low, k));
  }

  lemma SplitTop(t: nat, low: nat)
    requires low < Pow2(7)
    ensures ScaleDown((ScaleUp(t, 7) + low) % 256, 7) == t % 2
  {
    var h, c := t / 2, t % 2;
    Seven(t);
    Seven(c);
    Seven(1);
    assert ScaleUp(t, 7) + low == 0x100 * h + (ScaleUp(c, 7) + low);
    Remainder(h, ScaleUp(c, 7) + low);
    DownUp(c, low, 7);
  }

  lemma Remainder(h: nat, y: nat)
    requires y < 0x100
    ensures (0x100 * h + y) % 256 == y
  {
  }

  lemma Seven(a: nat)
    ensures ScaleUp(a, 7) == 0x80 * a
  {
    Byte(a);
    assert ScaleUp(a, 8) == 2 * ScaleUp(a, 7);
  }

  // A cache load followed by Yang_SHOW_UBITS.
  function ShowUbits(data: seq<byte>, p: nat, n: nat): (v: nat)
    requires 1 <= n <= MIN_CACHE_BITS && CanLoad(data, p)
    ensures v == Val(Bits(data), p, n) < Pow2(n)
  {
    CacheShow(data, p, n, 32 - n);
    ValBound(Bits(data), p, n);
    Shr(LoadCache(data, p), 32 - n)
  }

  /* ---- two reads joined by << and | ---- */

  lemma ValWord(s: seq<bit>, p: nat, n: nat)
    requires n <= 32 && p + n <= |s|
    ensures Val(s, p, n) < WORD
  {
    ValBound(s, p, n);
    Pow2Word(n);
  }

  lemma Glue(s: seq<bit>, p: nat, a: nat, b: nat)
    requires a + b <= 32 && p + a + b <= |s|
    ensures Val(s, p, a) < WORD && Val(s, p + a, b) < WORD && Val(s, p, a + b) < WORD
    ensures Or(Shl(Val(s, p, a), b), Val(s, p + a, b)) == Val(s, p, a + b)
  {
    ValWord(s, p, a);
    ValWord(s, p + a, b);
    ValWord(s, p, a + b);
    ValSplit(s, p, a, b);
    ShlOr(Val(s, p, a), Val(s, p + a, b), b);
  }

  lemma ShlOr(x: u32, y: u32, k: nat)
    requires y < Pow2(k) && ScaleUp(x, k) + y < WORD
    ensures Or(Shl(x, k), y) == ScaleUp(x, k) + y
  {
    ShlFits(x, k);
    OrDisjoint(x, y, k);
  }

  lemma ShlFits(x: u32, k: nat)
    requires ScaleUp(x, k) < WORD
    ensures Shl(x, k) == ScaleUp(x, k)
  {
  }

  lemma GlueWide(s: seq<bit>, p: nat, a: nat)
    requires a <= 32 && p + a + 32 <= |s|
    ensures Val(s, p, a) < WORD && Val(s, p + a, 32) < WORD
    ensures Or(ScaleUp(Val(s, p, a), 32), Val(s, p + a, 32)) == Val(s, p, a + 32) < WORD * WORD
  {
    var hi, lo := Val(s, p, a), Val(s, p + a, 32);
    ValWord(s, p, a);
    ValWord(s, p + a, 32);
    ValSplit(s, p, a, 32);
    OrDisjoint(hi, lo, 32);
    Scales(hi);
  }

  /* ---- padding ---- */

  // A context set up by a successful yang_init_get_bits over size bits of data in buf.
  predicate Padded(buf: seq<byte>, size: int) {
    0 <= size < INT_MAX - 8 * PADDING_BYTES && (size + 7) / 8 + PADDING_BYTES <= |buf|
  }

  // Any load up to 480 bits past the end of the data stays in the padding, and no such
  // index leaves int32_t.
  lemma PaddingCoversLoads(buf: seq<byte>, size: int, p: int)
    requires Padded(buf, size) && 0 <= p <= size + 8 * PADDING_BYTES - 32
    ensures CanLoad(buf, p) && p <= 8 * |buf| - 32 && p + 32 <= INT_MAX
  {
  }

  /* ---- the stop-bit chain of yang_skip_1stop_8data_bits ---- */

  // The k-th stop bit from p lies in the data and is zero.
  ghost predicate ZeroStop(s: seq<bit>, p: int, size: int, k: nat) {
    0 <= p + 9 * k < size <= |s| && s[p + 9 * k] == 0
  }

  /** The bit reader's context. */
  class GetBitContext {
    var buffer: array?<byte>
    var bufferEnd: int
    var index: int
    var sizeInBits: int
    var sizeInBitsPlus8: int

    constructor ()
      ensures buffer == null && index == 0 && sizeInBits == 0
    {
      buffer, bufferEnd, index, sizeInBits, sizeInBitsPlus8 := null, 0, 0, 0, 0;
    }

    // A struct copy.
    constructor Copy(other: GetBitContext)
      ensures buffer == other.buffer && index == other.index && sizeInBits == other.sizeInBits
    {
      buffer, bufferEnd, index := other.buffer, other.bufferEnd, other.index;
      sizeInBits, sizeInBitsPlus8 := other.sizeInBits, other.sizeInBitsPlus8;
    }

    ghost function Stream(): seq<bit>
      requires buffer != null
      reads this`buffer, buffer
    {
      Bits(buffer[..])
    }

    // At least n bits of buffer, padding included, lie beyond the index.
    ghost predicate Room(n: int)
      reads this`buffer, this`index
    {
      buffer != null && 0 <= index && index + n <= 8 * buffer.Length
    }

    // yang_init_get_bits.
    method Init(buf: array?<byte>, bitSize: i32) returns (ret: i32)
      modifies this
      ensures index == 0
      ensures 0 <= bitSize < INT_MAX - 8 * PADDING_BYTES && buf != null
          ==> ret == 0 && buffer == buf && sizeInBits == bitSize && sizeInBitsPlus8 == bitSize + 8
      ensures !(0 <= bitSize < INT_MAX - 8 * PADDING_BYTES && buf != null)
          ==> ret == INVALIDDATA && buffer == null && sizeInBits == 0 && sizeInBitsPlus8 == 8
      ensures 0 <= bufferEnd && 8 * bufferEnd - 7 <= sizeInBits <= 8 * bufferEnd
    {
      var size: int, data := bitSize, buf;
      ret := 0;
      if size >= INT_MAX - (if 7 > 8 * PADDING_BYTES then 7 else 8 * PADDING_BYTES) || size < 0 || data == null {
        size := 0;
        data := null;
        ret := INVALIDDATA;
      }
      buffer := data;
      sizeInBits := size;
      sizeInBitsPlus8 := size + 8;
      bufferEnd := (size + 7) / 8;
      index := 0;
    }

    // yang_init_get_bits8.
    method InitBytes(buf: array?<byte>, byteSize: i32) returns (ret: i32)
      modifies this
      ensures index == 0
      ensures ret == 0 <==> 0 <= 8 * byteSize < INT_MAX - 8 * PADDING_BYTES && buf != null
      ensures ret == 0 ==> buffer == buf && sizeInBits == 8 * byteSize
      ensures ret != 0 ==> ret == INVALIDDATA && buffer == null && sizeInBits == 0
    {
      var size: int := byteSize;
      if size > INT_MAX / 8 || size < 0 {
        size := -1;
      }
      ret := Init(buf, size * 8);
    }

    // yang_show_bits.
    method ShowBits(n: nat) returns (tmp: u32)
      requires 1 <= n <= MIN_CACHE_BITS && Room(32)
      ensures tmp == Val(Stream(), index, n)
    {
      var cache := LoadCache(buffer[..], index);
      tmp := Shr(cache, 32 - n);
      CacheShow(buffer[..], index, n, 32 - n);
    }

    // yang_get_bits.
    method GetBits(n: nat) returns (tmp: u32)
      requires 1 <= n <= MIN_CACHE_BITS && Room(32)
      modifies this`index
      ensures index == old(index) + n
      ensures tmp == Val(Stream(), old(index), n)
    {
      var reIndex := index;
      var cache := LoadCache(buffer[..], reIndex);
      tmp := Shr(cache, 32 - n);
      CacheShow(buffer[..], reIndex, n, 32 - n);
      reIndex := reIndex + n;
      index := reIndex;
    }

    // yang_get_bits1.
    method GetBits1() returns (result: bit)
      requires Room(1)
      modifies this`index
      ensures index == old(index) + 1
      ensures result == Stream()[old(index)]
    {
      var b := buffer[index / 8];
      OneBit(b, index % 8);
      result := ScaleDown(ScaleUp(b, index % 8) % 256, 7);
      index := index + 1;
    }

    // yang_skip_bits and yang_skip_bits_long.
    method SkipBits(n: int)
      modifies this`index
      ensures index == old(index) + n
    {
      index := index + n;
    }

    // yang_get_sbits.
    method GetSbits(n: nat) returns (tmp: i32)
      requires 1 <= n <= MIN_CACHE_BITS && Room(32)
      modifies this`index
      ensures index == old(index) + n
      ensures tmp == TwosComplement(Val(Stream(), old(index), n), n)
    {
      var cache := LoadCache(buffer[..], index);
      ghost var rest := CacheSplit(buffer[..], index, n);
      ValBound(Stream(), index, n);
      SarIsTwosComplement(Val(Stream(), index, n), rest, n);
      tmp := Sar(ToSigned(cache), 32 - n);
      index := index + n;
    }

    // yang_get_xbits.
    method GetXbits(n: nat) returns (r: i32)
      requires 1 <= n <= MIN_CACHE_BITS && Room(32)
      modifies this`index
      ensures index == old(index) + n
      ensures r == DcValue(Val(Stream(), old(index), n), n)
    {
      var cache := LoadCache(buffer[..], index);
      ghost var rest := CacheSplit(buffer[..], index, n);
      ValBound(Stream(), index, n);
      XbitsIs(Val(Stream(), index, n), rest, n);
      r := XbitsOf(cache, n);
      index := index + n;
    }

    // yang_get_bits_long.
    method GetBitsLong(n: nat) returns (r: u32)
      requires n <= 32 && Room(n + 32)
      modifies this`index
      ensures index == old(index) + n
      ensures r == Val(Stream(), old(index), n)
    {
      if n == 0 {
        r := 0;
      } else if n <= MIN_CACHE_BITS {
        r := GetBits(n);
      } else {
        ghost var p := index;
        var hi := GetBits(16);
        var lo := GetBits(n - 16);
        Glue(Stream(), p, 16, n - 16);
        r := Or(Shl(hi, n - 16), lo);
      }
    }

    // yang_get_bits64.
    method GetBits64(n: nat) returns (r: u64)
      requires n <= 64 && Room(n + 32)
      modifies this`index
      ensures index == old(index) + n
      ensures r == Val(Stream(), old(index), n)
    {
      if n <= 32 {
        r := GetBitsLong(n);
      } else {
        ghost var p := index;
        var hi := GetBitsLong(n - 32);
        var lo := GetBitsLong(32);
        GlueWide(Stream(), p, n - 32);
        r := Or(ScaleUp(hi, 32), lo);
      }
    }

    // yang__get_sbits_long.
    method GetSbitsLong(n: nat) returns (r: i32)
      requires n <= 32 && Room(n + 32)
      modifies this`index
      ensures index == old(index) + n
      ensures r == if n == 0 then 0 else TwosComplement(Val(Stream(), old(index), n), n)
    {
      if n == 0 {
        return 0;
      }
      var v := GetBitsLong(n);
      ValBound(Stream(), old(index), n);
      SignExtendIs(v, n);
      r := SignExtend(v, n);
    }

    // yang_show_bits_long reads through a copy of the context.
    method ShowBitsLong(n: nat) returns (r: u32)
      requires 1 <= n <= 32 && Room(n + 32)
      ensures r == Val(Stream(), index, n)
    {
      if n <= MIN_CACHE_BITS {
        r := ShowBits(n);
      } else {
        var gb := new GetBitContext.Copy(this);
        r := gb.GetBitsLong(n);
      }
    }

    // yang_get_bits_left.
    function BitsLeft(): int
      reads this`sizeInBits, this`index
    {
      sizeInBits - index
    }

    // yang_skip_1stop_8data_bits.
    method Skip1Stop8DataBits() returns (ret: i32)
      requires buffer != null && 0 <= index && sizeInBits <= 8 * buffer.Length
      modifies this`index
      ensures ret == 0 || ret == INVALIDDATA
      ensures ret == 0 ==> exists k: nat ::
        ZeroStop(Stream(), old(index), sizeInBits, k) && index == old(index) + 9 * k + 1
        && forall i: nat :: i < k ==> !ZeroStop(Stream(), old(index), sizeInBits, i)
      ensures ret != 0 ==> forall k: nat :: !ZeroStop(Stream(), old(index), sizeInBits, k)
    {
      if BitsLeft() <= 0 {
        return INVALIDDATA;
      }
      ghost var p, k: nat := index, 0;
      var stop := GetBits1();
      while stop == 1
        invariant index == p + 9 * k + 1 && p + 9 * k < sizeInBits
        invariant stop == Stream()[p + 9 * k]
        invariant forall i: nat :: i < k ==> !ZeroStop(Stream(), p, sizeInBits, i)
        decreases BitsLeft()
      {
        SkipBits(8);
        if BitsLeft() <= 0 {
          forall i: nat ensures !ZeroStop(Stream(), p, sizeInBits, i) {
            if k < i {
              assert p + 9 * i >= p + 9 * k + 9;
            }
          }
          return INVALIDDATA;
        }
        k := k + 1;
        stop := GetBits1();
      }
      assert ZeroStop(Stream(), p, sizeInBits, k);
      return 0;
    }
  }
}
