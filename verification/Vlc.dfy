/** Variable-length codes read through lookup tables of up to three levels, where an
    entry of negative length -n points to a sub-table of 2^n entries. */
module Vlc {
  import opened Basics
  import opened Words
  import opened BitStream
  import opened BitReader
  import opened ExpGolomb

  // table[i][0] and table[i][1].
  datatype Entry = Entry(sym: int, len: int)

  type Word = seq<bit>

  // A code book: no codeword begins another.
  ghost predicate PrefixFree(code: map<Word, int>) {
    forall u, v :: u in code && v in code && u <= v ==> u == v
  }

  // The 2^bits entries from base on decide every continuation of the bits read so far.
  ghost predicate WellFormed(table: seq<Entry>, base: int, bits: int, read: Word, code: map<Word, int>, depth: nat)
    decreases depth, 1
  {
    && 1 <= bits <= MIN_CACHE_BITS
    && 0 <= base && base + Pow2(bits) <= |table|
    && forall i: nat :: i < Pow2(bits) ==> Decided(table, base + i, Digits(i, bits), read, code, depth)
  }

  // Entry i, reached after the bits read and then w.
  ghost predicate Decided(table: seq<Entry>, i: nat, w: Word, read: Word, code: map<Word, int>, depth: nat)
    decreases depth, 0
  {
    && i < |table|
    && var e := table[i];
       if e.len > 0 then
         e.len <= |w| && read + w[..e.len] in code && code[read + w[..e.len]] == e.sym
       else if e.len < 0 then
         1 < depth && WellFormed(table, e.sym, -e.len, read + w, code, depth - 1)
       else
         e.sym == -1 && forall u :: u in code ==> !(u <= read + w) && !(read + w <= u)
  }

  // The symbol r whose codeword starts the stream at p, and q just past it; -1 if there is none.
  ghost predicate Decodes(code: map<Word, int>, s: seq<bit>, p: nat, r: int, q: int) {
    && (forall u :: u in code && Holds(s, p, u) ==> r == code[u] && q == p + |u|)
    && ((forall u :: u in code ==> !Holds(s, p, u)) ==> r == -1)
  }

  // Two words at one place of a stream are comparable.
  lemma Comparable(s: seq<bit>, p: nat, u: Word, v: Word)
    requires Holds(s, p, u) && Holds(s, p, v) && |u| <= |v|
    ensures u <= v
  {
    forall i | 0 <= i < |u|
      ensures u[i] == v[i]
    {
      assert s[p + i] == u[p + i - p] == v[p + i - p];
    }
  }

  lemma {:induction false} DigitsOfVal(s: seq<bit>, q: nat, n: nat)
    requires q + n <= |s|
    ensures Holds(s, q, Digits(Val(s, q, n), n))
  {
    if n == 0 {
    } else {
      DigitsOfVal(s, q, n - 1);
      HoldsCat(s, q, Digits(Val(s, q, n - 1), n - 1), [s[q + n - 1]]);
    }
  }

  // The look-up of 2^bits entries at base happens at q, with the bits read so far before it.
  ghost predicate Reached(table: seq<Entry>, base: int, bits: int, read: Word, code: map<Word, int>, depth: nat,
                          s: seq<bit>, p: nat, q: int)
  {
    PrefixFree(code) && WellFormed(table, base, bits, read, code, depth) && Holds(s, p, read) && q == p + |read|
  }

  lemma InTable(table: seq<Entry>, base: nat, bits: nat, read: Word, code: map<Word, int>, depth: nat,
                s: seq<bit>, p: nat, q: nat, v: nat)
    requires Reached(table, base, bits, read, code, depth, s, p, q) && v < Pow2(bits)
    ensures base + v < |table|
  {
  }

  // What one look-up settles.
  lemma LookUp(table: seq<Entry>, base: nat, bits: nat, read: Word, code: map<Word, int>, depth: nat,
               s: seq<bit>, p: nat, q: nat, v: nat, e: Entry)
    requires Reached(table, base, bits, read, code, depth, s, p, q)
    requires q + bits <= |s| && v == Val(s, q, bits) < Pow2(bits) && base + v < |table| && e == table[base + v]
    ensures 0 <= e.len ==> e.len <= bits && Decodes(code, s, p, e.sym, q + e.len)
    ensures 0 < e.len ==> exists u :: u in code && Holds(s, p, u)
    ensures e.len < 0 ==> 1 < depth && 0 <= e.sym && -e.len <= MIN_CACHE_BITS
    ensures e.len < 0 ==> Reached(table, e.sym, -e.len, read + Digits(v, bits), code, depth - 1, s, p, q + bits)
  {
    var w := Digits(v, bits);
    DigitsOfVal(s, q, bits);
    HoldsCat(s, p, read, w);
    assert Decided(table, base + v, w, read, code, depth);
    if 0 < e.len {
      Found(s, p, read, w, e.len, code);
    } else if e.len == 0 {
      Missing(s, p, read + w, code);
    }
  }

  lemma Found(s: seq<bit>, p: nat, read: Word, w: Word, n: nat, code: map<Word, int>)
    requires PrefixFree(code) && Holds(s, p, read + w) && n <= |w| && read + w[..n] in code
    ensures Decodes(code, s, p, code[read + w[..n]], p + |read| + n)
    ensures exists u :: u in code && Holds(s, p, u)
  {
    var u0 := read + w[..n];
    assert read + w == u0 + w[n..];
    HoldsCat(s, p, u0, w[n..]);
    forall u | u in code && Holds(s, p, u)
      ensures u == u0
    {
      if |u| <= |u0| { Comparable(s, p, u, u0); } else { Comparable(s, p, u0, u); }
    }
  }

  lemma Missing(s: seq<bit>, p: nat, v: Word, code: map<Word, int>)
    requires Holds(s, p, v) && forall u :: u in code ==> !(u <= v) && !(v <= u)
    ensures forall u :: u in code ==> !Holds(s, p, u)
  {
    forall u | u in code
      ensures !Holds(s, p, u)
    {
      if Holds(s, p, u) {
        if |u| <= |v| { Comparable(s, p, u, v); } else { Comparable(s, p, v, u); }
      }
    }
  }

  // Yang_GET_VLC.
  method GetVlc(data: seq<byte>, p: nat, table: seq<Entry>, bits: nat, maxDepth: nat, ghost code: map<Word, int>)
      returns (r: int, reIndex: int)
    requires 1 <= maxDepth <= 3 && PrefixFree(code) && WellFormed(table, 0, bits, [], code, maxDepth)
    requires p + 2 * MIN_CACHE_BITS + 32 <= 8 * |data|
    ensures Decodes(code, Bits(data), p, r, reIndex)
    ensures maxDepth == 1 && (forall u :: u in code ==> !Holds(Bits(data), p, u)) ==> reIndex == p
  {
    ghost var s, read: Word := Bits(data), [];
    reIndex := p;
    assert Reached(table, 0, bits, read, code, maxDepth, s, p, reIndex);
    var index := ShowUbits(data, reIndex, bits);
    InTable(table, 0, bits, read, code, maxDepth, s, p, reIndex, index);
    r := table[index].sym;
    var n := table[index].len;
    LookUp(table, 0, bits, read, code, maxDepth, s, p, reIndex, index, table[index]);
    if maxDepth > 1 && n < 0 {
      reIndex := reIndex + bits;
      read := read + Digits(index, bits);
      r, n, reIndex := GetSubCode(data, p, reIndex, table, r, -n, maxDepth - 1, read, code);
    }
    reIndex := reIndex + n;
  }

  // The nested levels of Yang_GET_VLC.
  method GetSubCode(data: seq<byte>, ghost p: nat, q: nat, table: seq<Entry>, base: nat, bits: nat, maxDepth: nat,
                    ghost read: Word, ghost code: map<Word, int>)
      returns (r: int, n: int, reIndex: int)
    requires 1 <= maxDepth <= 2 && bits <= MIN_CACHE_BITS
    requires q + (maxDepth - 1) * MIN_CACHE_BITS + 32 <= 8 * |data|
    requires Reached(table, base, bits, read, code, maxDepth, Bits(data), p, q)
    ensures 0 <= n && Decodes(code, Bits(data), p, r, reIndex + n)
    decreases maxDepth
  {
    reIndex := q;
    var v := ShowUbits(data, reIndex, bits);
    InTable(table, base, bits, read, code, maxDepth, Bits(data), p, q, v);
    var index := base + v;
    r := table[index].sym;
    n := table[index].len;
    LookUp(table, base, bits, read, code, maxDepth, Bits(data), p, q, v, table[index]);
    if maxDepth > 1 && n < 0 {
      reIndex := reIndex + bits;
      r, n, reIndex := GetSubCode(data, p, reIndex, table, r, -n, maxDepth - 1, read + Digits(v, bits), code);
    }
  }

  // Yang_GET_VLC2.
  method GetVlc2(gb: GetBitContext, table: seq<Entry>, bits: nat, maxDepth: nat, ghost code: map<Word, int>)
      returns (r: int)
    requires 1 <= maxDepth <= 3 && PrefixFree(code) && WellFormed(table, 0, bits, [], code, maxDepth)
    requires gb.Room(2 * MIN_CACHE_BITS + 32)
    modifies gb`index
    ensures Decodes(code, gb.Stream(), old(gb.index), r, gb.index)
    ensures maxDepth == 1 && (forall u :: u in code ==> !Holds(gb.Stream(), old(gb.index), u)) ==>
              gb.index == old(gb.index)
  {
    var reIndex;
    r, reIndex := GetVlc(gb.buffer[..], gb.index, table, bits, maxDepth, code);
    gb.index := reIndex;
  }

  /* ---- every code book has a table ---- */

  // The entries of a table of the given depth with an index of bits bits at every level.
  function Size(bits: nat, depth: nat): nat {
    if depth == 0 then 0 else Pow2(bits) + Times(Size(bits, depth - 1), Pow2(bits))
  }

  ghost predicate NoWordIn(code: map<Word, int>, v: Word) {
    forall u :: u in code ==> !(u <= v)
  }

  // The entry for the bits read and then w: a codeword that ends within w, else a link to the
  // sub-table at sub, else nothing.
  ghost function TreeEntry(code: map<Word, int>, read: Word, w: Word, bits: nat, depth: nat, sub: nat): Entry {
    if !NoWordIn(code, read + w) then
      var u :| u in code && u <= read + w;
      Entry(code[u], |u| - |read|)
    else if 1 < depth then Entry(sub, 0 - bits)
    else Entry(-1, 0)
  }

  // Where the i-th sub-table of a table at base starts.
  function SubBase(bits: nat, depth: nat, base: nat, i: nat): nat
    requires 0 < depth
  {
    base + Pow2(bits) + Times(Size(bits, depth - 1), i)
  }

  // A table at base for the continuations of read: its own entries, then its sub-tables in order.
  ghost function Tree(code: map<Word, int>, read: Word, bits: nat, depth: nat, base: nat): (t: seq<Entry>)
    ensures |t| == Size(bits, depth)
    decreases depth, Pow2(bits) + 1
  {
    if depth == 0 then []
    else
      seq(Pow2(bits), i requires 0 <= i < Pow2(bits) =>
            TreeEntry(code, read, Digits(i, bits), bits, depth, SubBase(bits, depth, base, i)))
      + SubTrees(code, read, bits, depth, base, Pow2(bits))
  }

  ghost function SubTrees(code: map<Word, int>, read: Word, bits: nat, depth: nat, base: nat, n: nat): (t: seq<Entry>)
    requires 0 < depth && n <= Pow2(bits)
    ensures |t| == Times(Size(bits, depth - 1), n)
    decreases depth, n
  {
    if n == 0 then []
    else
      SubTrees(code, read, bits, depth, base, n - 1)
      + Tree(code, read + Digits(n - 1, bits), bits, depth - 1, SubBase(bits, depth, base, n - 1))
  }

  // t stands in a table at base.
  ghost predicate Placed(table: seq<Entry>, base: nat, t: seq<Entry>) {
    base + |t| <= |table| && forall k :: 0 <= k < |t| ==> table[base + k] == t[k]
  }

  lemma PlacedCat(table: seq<Entry>, base: nat, t: seq<Entry>, u: seq<Entry>)
    requires Placed(table, base, t + u)
    ensures Placed(table, base, t) && Placed(table, base + |t|, u)
  {
    assert forall k :: 0 <= k < |t| ==> t[k] == (t + u)[k];
    assert forall k :: 0 <= k < |u| ==> u[k] == (t + u)[|t| + k];
  }

  lemma {:induction false} SubPlaced(table: seq<Entry>, code: map<Word, int>, read: Word, bits: nat, depth: nat,
                                     base: nat, n: nat, i: nat)
    requires 0 < depth && i < n <= Pow2(bits)
    requires Placed(table, base + Pow2(bits), SubTrees(code, read, bits, depth, base, n))
    ensures Placed(table, SubBase(bits, depth, base, i),
                   Tree(code, read + Digits(i, bits), bits, depth - 1, SubBase(bits, depth, base, i)))
    decreases n
  {
    PlacedCat(table, base + Pow2(bits), SubTrees(code, read, bits, depth, base, n - 1),
              Tree(code, read + Digits(n - 1, bits), bits, depth - 1, SubBase(bits, depth, base, n - 1)));
    if i < n - 1 {
      SubPlaced(table, code, read, bits, depth, base, n - 1, i);
    }
  }

  // No codeword has ended yet, and those that go on end within depth more look-ups.
  ghost predicate Reach(code: map<Word, int>, read: Word, bits: nat, depth: nat) {
    forall u :: u in code ==> !(u <= read) && (read <= u ==> |u| <= |read| + Times(bits, depth))
  }

  // Wherever a tree stands in a table, it is well formed.
  lemma {:induction false} TreeWellFormed(table: seq<Entry>, code: map<Word, int>, read: Word, bits: nat, depth: nat,
                                          base: nat)
    requires 1 <= bits <= MIN_CACHE_BITS && 0 < depth && Reach(code, read, bits, depth)
    requires Placed(table, base, Tree(code, read, bits, depth, base))
    ensures WellFormed(table, base, bits, read, code, depth)
    decreases depth, 1
  {
    TreeFits(table, code, read, bits, depth, base);
    forall i: nat | i < Pow2(bits)
      ensures Decided(table, base + i, Digits(i, bits), read, code, depth)
    {
      TreeDecides(table, code, read, bits, depth, base, i, Digits(i, bits), SubBase(bits, depth, base, i));
    }
  }

  lemma TreeFits(table: seq<Entry>, code: map<Word, int>, read: Word, bits: nat, depth: nat, base: nat)
    requires 0 < depth && Placed(table, base, Tree(code, read, bits, depth, base))
    ensures base + Pow2(bits) <= |table|
  {
  }

  lemma {:induction false} TreeDecides(table: seq<Entry>, code: map<Word, int>, read: Word, bits: nat, depth: nat,
                                       base: nat, i: nat, w: Word, sub: nat)
    requires 1 <= bits <= MIN_CACHE_BITS && 0 < depth && Reach(code, read, bits, depth)
    requires Placed(table, base, Tree(code, read, bits, depth, base)) && i < Pow2(bits)
    requires w == Digits(i, bits) && sub == SubBase(bits, depth, base, i)
    ensures Decided(table, base + i, w, read, code, depth)
    decreases depth, 0
  {
    TreeParts(table, code, read, bits, depth, base, i);
    if 1 < depth && NoWordIn(code, read + w) {
      LinkWellFormed(table, code, read, w, bits, depth, sub);
    }
    EntryDecides(table, code, read, w, bits, depth, sub, base + i);
  }

  lemma {:induction false} LinkWellFormed(table: seq<Entry>, code: map<Word, int>, read: Word, w: Word, bits: nat,
                                          depth: nat, sub: nat)
    requires 1 <= bits <= MIN_CACHE_BITS && 1 < depth && Reach(code, read, bits, depth)
    requires |w| == bits && NoWordIn(code, read + w)
    requires Placed(table, sub, Tree(code, read + w, bits, depth - 1, sub))
    ensures WellFormed(table, sub, bits, read + w, code, depth - 1)
    decreases depth - 1, 2
  {
    Onwards(code, read, w, bits, depth);
    TreeWellFormed(table, code, read + w, bits, depth - 1, sub);
  }

  // A tree in a table: its i-th entry, and its i-th sub-tree.
  lemma TreeParts(table: seq<Entry>, code: map<Word, int>, read: Word, bits: nat, depth: nat, base: nat, i: nat)
    requires 0 < depth && i < Pow2(bits) && Placed(table, base, Tree(code, read, bits, depth, base))
    ensures base + Pow2(bits) <= |table|
    ensures table[base + i]
         == TreeEntry(code, read, Digits(i, bits), bits, depth, SubBase(bits, depth, base, i))
    ensures Placed(table, SubBase(bits, depth, base, i),
                   Tree(code, read + Digits(i, bits), bits, depth - 1, SubBase(bits, depth, base, i)))
  {
    var own := seq(Pow2(bits), j requires 0 <= j < Pow2(bits) =>
                     TreeEntry(code, read, Digits(j, bits), bits, depth, SubBase(bits, depth, base, j)));
    PlacedCat(table, base, own, SubTrees(code, read, bits, depth, base, Pow2(bits)));
    assert table[base + i] == own[i];
    SubPlaced(table, code, read, bits, depth, base, Pow2(bits), i);
  }

  // A tree's entry decides its continuation, given that the sub-table it links to, if any, does.
  lemma EntryDecides(table: seq<Entry>, code: map<Word, int>, read: Word, w: Word, bits: nat, depth: nat, sub: nat,
                     k: nat)
    requires 1 <= bits && 0 < depth && |w| == bits && Reach(code, read, bits, depth) && k < |table|
    requires table[k] == TreeEntry(code, read, w, bits, depth, sub)
    requires 1 < depth && NoWordIn(code, read + w) ==>
               WellFormed(table, sub, bits, read + w, code, depth - 1)
    ensures Decided(table, k, w, read, code, depth)
  {
    if !NoWordIn(code, read + w) {
      WordEnds(code, read, w, bits, depth, sub, table[k]);
    } else if depth == 1 {
      Onwards(code, read, w, bits, depth);
    }
  }

  lemma WordEnds(code: map<Word, int>, read: Word, w: Word, bits: nat, depth: nat, sub: nat, e: Entry)
    requires Reach(code, read, bits, depth) && e == TreeEntry(code, read, w, bits, depth, sub)
    requires !NoWordIn(code, read + w)
    ensures 0 < e.len <= |w| && read + w[..e.len] in code && code[read + w[..e.len]] == e.sym
  {
    var u :| u in code && u <= read + w && e == Entry(code[u], |u| - |read|);
    ShortPrefix(u, read, w);
    assert read + w[..e.len] == (read + w)[..|u|] == u;
  }

  // Where no word ends, the words that go on are one look-up nearer to their ends.
  lemma Onwards(code: map<Word, int>, read: Word, w: Word, bits: nat, depth: nat)
    requires 0 < depth && Reach(code, read, bits, depth) && |w| == bits
    requires NoWordIn(code, read + w)
    ensures Reach(code, read + w, bits, depth - 1)
    ensures depth == 1 ==> forall u :: u in code ==> !(u <= read + w) && !(read + w <= u)
  {
    forall u | u in code && read + w <= u
      ensures |u| <= |read + w| + Times(bits, depth - 1)
      ensures depth != 1
    {
      assert read == (read + w)[..|read|] == u[..|read|];
      SamePrefix(read + w, u);
    }
  }

  lemma ShortPrefix(u: Word, v: Word, w: Word)
    ensures u <= v + w && |u| <= |v| ==> u <= v
  {
  }

  lemma SamePrefix(v: Word, u: Word)
    ensures v <= u && |u| <= |v| ==> u <= v
  {
  }

  // Every code book whose words fit depth look-ups of bits bits has a well-formed table of that depth.
  lemma TableExists(code: map<Word, int>, bits: nat, depth: nat)
    requires 1 <= bits <= MIN_CACHE_BITS && 0 < depth
    requires forall u :: u in code ==> 1 <= |u| <= bits * depth
    ensures WellFormed(Tree(code, [], bits, depth, 0), 0, bits, [], code, depth)
  {
    TimesIs(bits, depth);
    TreeWellFormed(Tree(code, [], bits, depth, 0), code, [], bits, depth, 0);
  }
}
