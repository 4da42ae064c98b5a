/** Exp-Golomb codes as sections 9.1 and 9.1.1 of ITU-T H.264 define them, bit by bit. */
module ExpGolomb {
  import opened Words
  import opened BitStream

  // The zeros before the first one.
  function LeadingZeros(s: seq<bit>, p: nat): (z: nat)
    requires p <= |s|
    ensures p + z <= |s|
    ensures forall i :: p <= i < p + z ==> s[i] == 0
    ensures p + z < |s| ==> s[p + z] == 1
    decreases |s| - p
  {
    if p == |s| || s[p] == 1 then 0 else 1 + LeadingZeros(s, p + 1)
  }

  // A whole code starts at p.
  predicate HasCode(s: seq<bit>, p: nat) {
    p <= |s| && p + 2 * LeadingZeros(s, p) + 1 <= |s|
  }

  // codeNum = 2^leadingZeroBits - 1 + read_bits(leadingZeroBits).
  function UeValue(s: seq<bit>, p: nat): nat
    requires HasCode(s, p)
  {
    var z := LeadingZeros(s, p);
    Pow2(z) - 1 + Val(s, p + z + 1, z)
  }

  function UeLength(s: seq<bit>, p: nat): nat
    requires p <= |s|
  {
    2 * LeadingZeros(s, p) + 1
  }

  // Table 9-3: the signed reading of codeNum.
  function SeMap(k: nat): int {
    if k % 2 == 1 then (k + 1) / 2 else -(k / 2)
  }

  // The same count, from what the stream holds.
  lemma {:induction false} LeadingZerosIs(s: seq<bit>, p: nat, z: nat)
    requires p + z < |s| && s[p + z] == 1
    requires forall i :: p <= i < p + z ==> s[i] == 0
    ensures LeadingZeros(s, p) == z
    decreases z
  {
    if z == 0 {
    } else {
      assert s[p] == 0;
      LeadingZerosIs(s, p + 1, z - 1);
    }
  }

  lemma {:induction false} ZerosVal(s: seq<bit>, p: nat, n: nat)
    requires p + n <= |s|
    requires forall i :: p <= i < p + n ==> s[i] == 0
    ensures Val(s, p, n) == 0
  {
    if n == 0 {
    } else {
      ZerosVal(s, p, n - 1);
    }
  }

  lemma {:induction false} ValZeros(s: seq<bit>, p: nat, n: nat)
    requires p + n <= |s| && Val(s, p, n) == 0
    ensures forall i :: p <= i < p + n ==> s[i] == 0
  {
    if n == 0 {
    } else {
      ValZeros(s, p, n - 1);
    }
  }

  // The next n bits are not all zero exactly when the leading one is among them.
  lemma {:induction false} NotAllZero(s: seq<bit>, p: nat, n: nat)
    requires p + n <= |s|
    ensures Val(s, p, n) != 0 <==> LeadingZeros(s, p) < n
  {
    if Val(s, p, n) == 0 {
      ValZeros(s, p, n);
    } else if n <= LeadingZeros(s, p) {
      ZerosVal(s, p, n);
    }
  }

  // The whole code, read as one number, is codeNum + 1.
  lemma CodeIsNumber(s: seq<bit>, p: nat)
    requires HasCode(s, p)
    ensures Val(s, p, UeLength(s, p)) == UeValue(s, p) + 1
  {
    var z := LeadingZeros(s, p);
    ZerosVal(s, p, z);
    assert Val(s, p, z + 1) == 1;
    ValSplit(s, p, z + 1, z);
  }

  // A window reaching past the first one is as large as the place of that one.
  lemma WindowRange(s: seq<bit>, p: nat, n: nat)
    requires p + n <= |s| && LeadingZeros(s, p) < n
    ensures Pow2(n - 1 - LeadingZeros(s, p)) <= Val(s, p, n) < Pow2(n - LeadingZeros(s, p))
  {
    var z := LeadingZeros(s, p);
    ZerosVal(s, p, z);
    assert Val(s, p, z + 1) == 1;
    ValSplit(s, p, z + 1, n - 1 - z);
  }

  /* ---- encoding, the partner of the decoders ---- */

  function FloorLog2(x: nat): (l: nat)
    requires 0 < x
    ensures Pow2(l) <= x < Pow2(l + 1)
  {
    if x == 1 then 0 else 1 + FloorLog2(x / 2)
  }

  // The low n digits of x, most significant first.
  function Digits(x: nat, n: nat): (d: seq<bit>)
    ensures |d| == n
  {
    if n == 0 then [] else Digits(x / 2, n - 1) + [x % 2]
  }

  function Zeros(n: nat): (d: seq<bit>)
    ensures |d| == n
  {
    seq(n, i => 0)
  }

  function EncodeUe(k: nat): seq<bit> {
    var z := FloorLog2(k + 1);
    Zeros(z) + Digits(k + 1, z + 1)
  }

  function SeUnmap(v: int): (k: nat)
    ensures SeMap(k) == v
  {
    if v > 0 then 2 * v - 1 else -2 * v
  }

  // w stands in s at p.
  ghost predicate Holds(s: seq<bit>, p: nat, w: seq<bit>) {
    p + |w| <= |s| && forall i :: p <= i < p + |w| ==> s[i] == w[i - p]
  }

  lemma HoldsCat(s: seq<bit>, p: nat, u: seq<bit>, v: seq<bit>)
    ensures Holds(s, p, u + v) <==> Holds(s, p, u) && Holds(s, p + |u|, v)
  {
    if Holds(s, p, u) && Holds(s, p + |u|, v) {
      assert forall i :: p <= i < p + |u + v| ==> s[i] == (u + v)[i - p];
    }
    if Holds(s, p, u + v) {
      assert forall i :: p <= i < p + |u| ==> s[i] == (u + v)[i - p] == u[i - p];
      assert forall i :: p + |u| <= i < p + |u + v| ==> s[i] == (u + v)[i - p] == v[i - p - |u|];
    }
  }

  lemma {:induction false} DigitsVal(s: seq<bit>, p: nat, x: nat, n: nat)
    requires Holds(s, p, Digits(x, n)) && x < Pow2(n)
    ensures Val(s, p, n) == x
  {
    if n == 0 {
    } else {
      HoldsCat(s, p, Digits(x / 2, n - 1), [x % 2]);
      DigitsVal(s, p, x / 2, n - 1);
      assert s[p + n - 1] == Digits(x, n)[n - 1];
    }
  }

  lemma {:induction false} TopDigitOne(x: nat, n: nat)
    requires Pow2(n) <= x < Pow2(n + 1)
    ensures Digits(x, n + 1)[0] == 1
  {
    if n == 0 {
    } else {
      TopDigitOne(x / 2, n - 1);
    }
  }

  // Wherever the code of k stands in a stream, decoding there returns k and its length.
  lemma DecodeEncode(s: seq<bit>, p: nat, k: nat)
    requires Holds(s, p, EncodeUe(k))
    ensures HasCode(s, p) && UeValue(s, p) == k && UeLength(s, p) == |EncodeUe(k)|
    ensures LeadingZeros(s, p) == FloorLog2(k + 1)
  {
    var z := FloorLog2(k + 1);
    EncodedBits(s, p, k, z);
    LeadingZerosIs(s, p, z);
    ZeroPrefix(s, p, z, z + 1);
    CodeIsNumber(s, p);
  }

  lemma EncodedBits(s: seq<bit>, p: nat, k: nat, z: nat)
    requires z == FloorLog2(k + 1) && Holds(s, p, EncodeUe(k))
    ensures p + 2 * z + 1 <= |s| && s[p + z] == 1
    ensures forall i :: p <= i < p + z ==> s[i] == 0
    ensures Val(s, p + z, z + 1) == k + 1
  {
    var d := Digits(k + 1, z + 1);
    HoldsCat(s, p, Zeros(z), d);
    assert forall i :: p <= i < p + z ==> s[i] == Zeros(z)[i - p] == 0;
    TopDigitOne(k + 1, z);
    DigitsVal(s, p + z, k + 1, z + 1);
  }

  lemma ZeroPrefix(s: seq<bit>, p: nat, z: nat, n: nat)
    requires p + z + n <= |s|
    requires forall i :: p <= i < p + z ==> s[i] == 0
    ensures Val(s, p, z + n) == Val(s, p + z, n)
  {
    ZerosVal(s, p, z);
    ValSplit(s, p, z, n);
    UpAdd(0, 0, n);
  }

  // The signed reading of the code of v's codeNum is v, and no other codeNum reads as v.
  lemma SignedDecodeEncode(s: seq<bit>, p: nat, v: int)
    requires Holds(s, p, EncodeUe(SeUnmap(v)))
    ensures HasCode(s, p) && SeMap(UeValue(s, p)) == v
    ensures forall k: nat :: SeMap(k) == v ==> k == UeValue(s, p)
  {
    DecodeEncode(s, p, SeUnmap(v));
  }

  function EncodeAll(ks: seq<nat>): seq<bit> {
    if ks == [] then [] else EncodeUe(ks[0]) + EncodeAll(ks[1..])
  }
}
