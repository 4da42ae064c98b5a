/** Lists of Exp-Golomb codes written one after the other and read back with the long readers. */
module GolombLists {
  import opened Words
  import opened BitStream
  import opened BitReader
  import opened ExpGolomb
  import opened GolombReader

  // codeNum + 1 fits a word: the codes the long readers can return.
  predicate Short(k: nat) {
    k + 1 < WORD
  }

  predicate AllShort(ks: seq<nat>) {
    forall i :: 0 <= i < |ks| ==> Short(ks[i])
  }

  // Codes of at most 31 leading zeros are exactly those of short numbers.
  lemma ShortIs(k: nat)
    ensures Short(k) <==> FloorLog2(k + 1) <= 31
  {
    var z := FloorLog2(k + 1);
    Scales(1);
    if z < 31 {
      Pow2Mono(z + 1, 32);
    } else if 32 < z {
      Pow2Mono(32, z);
    }
  }

  lemma OneMore(ks: seq<nat>, i: nat)
    requires i < |ks|
    ensures ks[..i + 1] == ks[..i] + [ks[i]]
    ensures ks[i..][0] == ks[i] && ks[i..][1..] == ks[i + 1..]
    ensures AllShort(ks[..i + 1]) <==> AllShort(ks[..i]) && Short(ks[i])
  {
    var more := ks[..i + 1];
    assert more[i] == ks[i];
    assert forall j :: 0 <= j < i ==> more[j] == ks[..i][j];
  }

  // The codes of the numbers from i on stand at index, and end at end.
  ghost predicate Ahead(s: seq<bit>, index: int, ks: seq<nat>, i: nat, end: int)
    requires i <= |ks|
  {
    0 <= index && Holds(s, index, EncodeAll(ks[i..])) && index + |EncodeAll(ks[i..])| == end
  }

  lemma AheadStep(s: seq<bit>, index: int, ks: seq<nat>, i: nat, end: int)
    requires i < |ks| && Ahead(s, index, ks, i, end)
    ensures Holds(s, index, EncodeUe(ks[i])) && Ahead(s, index + |EncodeUe(ks[i])|, ks, i + 1, end)
  {
    OneMore(ks, i);
    HoldsCat(s, index, EncodeUe(ks[i]), EncodeAll(ks[i + 1..]));
  }

  // A list and a number against one more of ks.
  lemma Appended(list: seq<int>, ks: seq<int>, i: nat, r: int)
    requires i < |ks| && |list| == i
    ensures list + [r] == ks[..i + 1] <==> list == ks[..i] && r == ks[i]
  {
    var now, more := list + [r], ks[..i + 1];
    assert now[..i] == list && more[..i] == ks[..i] && now[i] == r && more[i] == ks[i];
  }

  // After i reads: in step with the list as long as its numbers were short, and never again after.
  ghost predicate Progress(s: seq<bit>, index: int, ks: seq<nat>, ws: seq<int>, i: nat, end: int, list: seq<int>)
    requires i <= |ks| == |ws|
  {
    && |list| == i
    && (AllShort(ks[..i]) ==> list == ws[..i] && Ahead(s, index, ks, i, end))
    && (!AllShort(ks[..i]) ==> list != ws[..i])
  }

  lemma ProgressStep(s: seq<bit>, index: int, ks: seq<nat>, ws: seq<int>, i: nat, end: int, list: seq<int>,
                     r: int, next: int)
    requires i < |ks| == |ws| && Progress(s, index, ks, ws, i, end, list)
    requires AllShort(ks[..i]) ==> (r == ws[i] <==> Short(ks[i]))
    requires AllShort(ks[..i]) && Short(ks[i]) ==> next == index + |EncodeUe(ks[i])|
    ensures Progress(s, next, ks, ws, i + 1, end, list + [r])
  {
    OneMore(ks, i);
    Appended(list, ws, i, r);
    if AllShort(ks[..i]) {
      AheadStep(s, index, ks, i, end);
    }
  }

  lemma RoomAhead(s: seq<bit>, index: int, ks: seq<nat>, i: nat, end: int)
    requires i < |ks|
    ensures Ahead(s, index, ks, i, end) ==> Holds(s, index, EncodeUe(ks[i])) && index <= end
    ensures AllShort(ks) ==> AllShort(ks[..i])
  {
    if Ahead(s, index, ks, i, end) {
      AheadStep(s, index, ks, i, end);
    }
    assert forall j :: 0 <= j < i ==> ks[..i][j] == ks[j];
  }

  lemma ProgressEnds(s: seq<bit>, index: int, ks: seq<nat>, ws: seq<int>, end: int, list: seq<int>)
    requires |ks| == |ws| && Progress(s, index, ks, ws, |ks|, end, list)
    ensures list == ws <==> AllShort(ks)
    ensures AllShort(ks) ==> index == end
  {
    assert ks[..|ks|] == ks && ws[..|ws|] == ws && EncodeAll(ks[|ks|..]) == [];
  }

  // yang_get_ue_golomb_long where the code of k stands: k and its length, if and only if k is short.
  method ReadUe(gb: GetBitContext, ghost k: nat, ghost stands: bool) returns (r: u32)
    requires gb.Room(95) && (stands ==> Holds(gb.Stream(), gb.index, EncodeUe(k)))
    modifies gb`index
    ensures stands ==> (r == k <==> Short(k)) && (Short(k) ==> gb.index == old(gb.index) + |EncodeUe(k)|)
    ensures old(gb.index) <= gb.index <= old(gb.index) + 63
  {
    if stands {
      DecodeEncode(gb.Stream(), gb.index, k);
      ShortIs(k);
    }
    r := GetUeGolombLong(gb);
  }

  // yang_get_ue_golomb_long called n times where the codes of ks stand one after the other: the list
  // that was written, if and only if all its numbers are short, ending where the last code ends.
  method ReadUeList(gb: GetBitContext, n: nat, ghost ks: seq<nat>) returns (list: seq<int>)
    requires n == |ks| && gb.Room(|EncodeAll(ks)| + 95) && Holds(gb.Stream(), gb.index, EncodeAll(ks))
    requires AllShort(ks) || gb.Room(63 * n + 95)
    modifies gb`index
    ensures list == ks <==> AllShort(ks)
    ensures AllShort(ks) ==> gb.index == old(gb.index) + |EncodeAll(ks)|
  {
    ghost var s, end := gb.Stream(), gb.index + |EncodeAll(ks)|;
    list := [];
    assert ks[0..] == ks;
    for i := 0 to n
      invariant 0 <= gb.index <= old(gb.index) + 63 * i
      invariant Progress(s, gb.index, ks, ks, i, end, list)
    {
      ghost var index, stands := gb.index, AllShort(ks[..i]);
      RoomAhead(s, index, ks, i, end);
      var r := ReadUe(gb, ks[i], stands);
      ProgressStep(s, index, ks, ks, i, end, list, r, gb.index);
      list := list + [r];
    }
    ProgressEnds(s, gb.index, ks, ks, end, list);
  }

  /* ---- the same for signed numbers ---- */

  function SeCodes(vs: seq<int>): (ks: seq<nat>)
    ensures |ks| == |vs| && forall i :: 0 <= i < |ks| ==> ks[i] == SeUnmap(vs[i])
  {
    seq(|vs|, i requires 0 <= i < |vs| => SeUnmap(vs[i]))
  }

  // The int32_t values, the least one apart.
  predicate InRange(v: int) {
    -0x8000_0000 < v < 0x8000_0000
  }

  predicate AllInRange(vs: seq<int>) {
    forall i :: 0 <= i < |vs| ==> InRange(vs[i])
  }

  lemma ShortSigned(v: int)
    ensures Short(SeUnmap(v)) <==> InRange(v)
  {
  }

  lemma AllShortSigned(vs: seq<int>)
    ensures AllShort(SeCodes(vs)) <==> AllInRange(vs)
  {
    var ks := SeCodes(vs);
    forall i | 0 <= i < |vs|
      ensures Short(ks[i]) <==> InRange(vs[i])
    {
      ShortSigned(vs[i]);
    }
    assert AllInRange(vs) ==> forall i :: 0 <= i < |ks| ==> InRange(vs[i]);
    assert AllShort(ks) ==> forall i :: 0 <= i < |vs| ==> Short(ks[i]);
  }

  // What the reader's contract says of the code of v.
  lemma SignedStands(s: seq<bit>, p: nat, v: int, r: int, q: int)
    requires Holds(s, p, EncodeUe(SeUnmap(v)))
    requires SeAt(s, p, r, q) <==> LeadingZeros(s, p) <= 31
    requires HasCode(s, p) && r == SeMap(UeValue(s, p)) ==> LeadingZeros(s, p) <= 31
    ensures r == v <==> Short(SeUnmap(v))
    ensures Short(SeUnmap(v)) ==> q == p + |EncodeUe(SeUnmap(v))|
  {
    SignedDecodeEncode(s, p, v);
    DecodeEncode(s, p, SeUnmap(v));
    ShortIs(SeUnmap(v));
  }

  // yang_get_se_golomb_long where the code of v stands: v and its length, if and only if v is in range.
  method ReadSe(gb: GetBitContext, ghost v: int, ghost stands: bool) returns (r: i32)
    requires gb.Room(95) && (stands ==> Holds(gb.Stream(), gb.index, EncodeUe(SeUnmap(v))))
    modifies gb`index
    ensures stands ==> (r == v <==> InRange(v))
    ensures stands && InRange(v) ==> gb.index == old(gb.index) + |EncodeUe(SeUnmap(v))|
    ensures old(gb.index) <= gb.index <= old(gb.index) + 63
  {
    ghost var s, p := gb.Stream(), gb.index;
    r := GetSeGolombLong(gb);
    ShortSigned(v);
    if stands {
      SignedStands(s, p, v, r, gb.index);
    }
  }

  // yang_get_se_golomb_long called n times where the codes of vs stand one after the other: the list
  // that was written, if and only if all its numbers are in range.
  method ReadSeList(gb: GetBitContext, n: nat, ghost vs: seq<int>) returns (list: seq<int>)
    requires n == |vs| && gb.Room(|EncodeAll(SeCodes(vs))| + 95)
    requires Holds(gb.Stream(), gb.index, EncodeAll(SeCodes(vs)))
    requires AllInRange(vs) || gb.Room(63 * n + 95)
    modifies gb`index
    ensures list == vs <==> AllInRange(vs)
    ensures AllInRange(vs) ==> gb.index == old(gb.index) + |EncodeAll(SeCodes(vs))|
  {
    ghost var ks := SeCodes(vs);
    ghost var s, end := gb.Stream(), gb.index + |EncodeAll(ks)|;
    AllShortSigned(vs);
    list := [];
    assert ks[0..] == ks;
    for i := 0 to n
      invariant 0 <= gb.index <= old(gb.index) + 63 * i
      invariant Progress(s, gb.index, ks, vs, i, end, list)
    {
      ghost var index, stands := gb.index, AllShort(ks[..i]);
      RoomAhead(s, index, ks, i, end);
      ShortSigned(vs[i]);
      var r := ReadSe(gb, vs[i], stands);
      ProgressStep(s, index, ks, vs, i, end, list, r, gb.index);
      list := list + [r];
    }
    ProgressEnds(s, gb.index, ks, vs, end, list);
  }
}
