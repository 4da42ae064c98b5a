/** YangAudioCaptureData: captured frames of any size are cut into chunks of inBytes bytes. */
module AudioCapture {
  import opened Basics
  import Memory

  const CACHE_LEN: nat := 16384

  // What the device hands over: nb may be announced without a payload.
  datatype Frame = Frame(payload: Option<seq<byte>>, nb: int)

  predicate ValidFrame(f: Frame) {
    f.payload.Some? ==> f.nb <= |f.payload.value|
  }

  function Bytes(f: Frame): seq<byte>
    requires ValidFrame(f)
  {
    if f.payload.Some? && f.nb > 0 then f.payload.value[..f.nb] else []
  }

  /* ---- the queue behind the cache ---- */

  // The chunks passed on so far, and the bytes waiting.
  datatype Queue = Queue(sent: seq<seq<byte>>, residue: seq<byte>)

  // Passing on chunks of n bytes while there are any.
  function Cut(q: Queue, n: nat): Queue
    requires 0 < n
    decreases |q.residue|
  {
    if |q.residue| < n then q else Cut(Queue(q.sent + [q.residue[..n]], q.residue[n..]), n)
  }

  predicate Accepts(q: Queue, f: Frame) {
    |q.residue| + f.nb <= CACHE_LEN
  }

  function Capture(q: Queue, f: Frame, n: nat): Queue
    requires 0 < n && ValidFrame(f)
  {
    if Accepts(q, f) then Cut(Queue(q.sent, q.residue + Bytes(f)), n) else q
  }

  function Run(frames: seq<Frame>, n: nat): Queue
    requires 0 < n && forall i :: 0 <= i < |frames| ==> ValidFrame(frames[i])
    decreases |frames|
  {
    if frames == [] then Queue([], [])
    else Capture(Run(frames[..|frames| - 1], n), frames[|frames| - 1], n)
  }

  // The audio that was let in, and all the audio that came.
  function Accepted(frames: seq<Frame>, n: nat): seq<byte>
    requires 0 < n && forall i :: 0 <= i < |frames| ==> ValidFrame(frames[i])
    decreases |frames|
  {
    if frames == [] then []
    else
      var before, f := frames[..|frames| - 1], frames[|frames| - 1];
      Accepted(before, n) + (if Accepts(Run(before, n), f) then Bytes(f) else [])
  }

  function Everything(frames: seq<Frame>): seq<byte>
    requires forall i :: 0 <= i < |frames| ==> ValidFrame(frames[i])
    decreases |frames|
  {
    if frames == [] then []
    else Everything(frames[..|frames| - 1]) + Bytes(frames[|frames| - 1])
  }

  function Concat(chunks: seq<seq<byte>>): seq<byte>
    decreases |chunks|
  {
    if chunks == [] then [] else Concat(chunks[..|chunks| - 1]) + chunks[|chunks| - 1]
  }

  predicate Even(chunks: seq<seq<byte>>, n: nat) {
    forall i :: 0 <= i < |chunks| ==> |chunks[i]| == n
  }

  /* ---- conservation ---- */

  lemma ConcatOneMore(chunks: seq<seq<byte>>, c: seq<byte>)
    ensures Concat(chunks + [c]) == Concat(chunks) + c
  {
    assert (chunks + [c])[..|chunks|] == chunks;
  }

  lemma Regroup(a: seq<byte>, b: seq<byte>, n: nat)
    requires n <= |b|
    ensures (a + b[..n]) + b[n..] == a + b
  {
  }

  lemma {:induction false} CutConserves(q: Queue, n: nat)
    requires 0 < n && Even(q.sent, n)
    ensures var r := Cut(q, n);
            && Concat(r.sent) + r.residue == Concat(q.sent) + q.residue
            && Even(r.sent, n) && |r.residue| < n
    decreases |q.residue|
  {
    if n <= |q.residue| {
      var c, rest := q.residue[..n], q.residue[n..];
      ConcatOneMore(q.sent, c);
      CutConserves(Queue(q.sent + [c], rest), n);
      Regroup(Concat(q.sent), q.residue, n);
    }
  }

  // Over any run: the chunks all have n bytes, chunks and residue together are the accepted
  // audio, and less than a chunk is waiting.
  lemma {:induction false} EveryRunConserves(frames: seq<Frame>, n: nat)
    requires 0 < n && forall i :: 0 <= i < |frames| ==> ValidFrame(frames[i])
    ensures var q := Run(frames, n);
            && Concat(q.sent) + q.residue == Accepted(frames, n)
            && Even(q.sent, n) && |q.residue| < n
    decreases |frames|
  {
    if frames == [] {
    } else {
      var before, f := frames[..|frames| - 1], frames[|frames| - 1];
      EveryRunConserves(before, n);
      var q := Run(before, n);
      if Accepts(q, f) {
        CutConserves(Queue(q.sent, q.residue + Bytes(f)), n);
        assert Concat(q.sent) + (q.residue + Bytes(f)) == (Concat(q.sent) + q.residue) + Bytes(f);
      }
    }
  }

  lemma {:induction false} ConcatLength(chunks: seq<seq<byte>>, n: nat)
    requires Even(chunks, n)
    ensures |Concat(chunks)| == Times(n, |chunks|)
    decreases |chunks|
  {
    if chunks == [] {
    } else {
      ConcatLength(chunks[..|chunks| - 1], n);
    }
  }

  lemma WholeChunks(n: nat, k: nat, r: nat)
    requires r < n
    ensures (Times(n, k) + r) % n == r
  {
    var x := Times(n, k) + r;
    Divided(x, n);
    SameQuotient(n, k, r, x / n, x % n);
  }

  lemma Divided(x: nat, n: nat)
    requires 0 < n
    ensures 0 <= x / n && 0 <= x % n < n && x == Times(n, x / n) + x % n
  {
    TimesIs(n, x / n);
  }

  lemma SameQuotient(n: nat, k: nat, r: nat, q: nat, m: nat)
    requires r < n && m < n && Times(n, k) + r == Times(n, q) + m
    ensures m == r
  {
    if k < q {
      TimesLess(n, k, q);
    } else if q < k {
      TimesLess(n, q, k);
    }
  }

  // A frame is dropped exactly when it does not fit beside the last, incomplete chunk of all the
  // audio let in before it.
  lemma AcceptsExactly(frames: seq<Frame>, n: nat, f: Frame)
    requires 0 < n && forall i :: 0 <= i < |frames| ==> ValidFrame(frames[i])
    ensures Accepts(Run(frames, n), f) <==> |Accepted(frames, n)| % n + f.nb <= CACHE_LEN
  {
    var q := Run(frames, n);
    EveryRunConserves(frames, n);
    ConcatLength(q.sent, n);
    WholeChunks(n, |q.sent|, |q.residue|);
  }

  /* ---- the accepted audio, byte by byte ---- */

  // The bytes a frame brings: nb of them if there is a payload, none if nb is not positive.
  function Length(f: Frame): nat {
    if f.payload.None? || f.nb < 0 then 0 else f.nb
  }

  function Total(frames: seq<Frame>): nat
    decreases |frames|
  {
    if frames == [] then 0 else Total(frames[..|frames| - 1]) + Length(frames[|frames| - 1])
  }

  // All the audio is the payloads one after the other, each cut to its nb: it is as long as they are
  // together, and byte k of frame i stands k places after the frames before it.
  lemma {:induction false} EverythingIs(frames: seq<Frame>)
    requires forall i :: 0 <= i < |frames| ==> ValidFrame(frames[i])
    ensures |Everything(frames)| == Total(frames)
    decreases |frames|
  {
    if frames == [] {
    } else {
      EverythingIs(frames[..|frames| - 1]);
    }
  }

  lemma {:induction false} ByteStands(frames: seq<Frame>, i: nat, k: nat)
    requires forall j :: 0 <= j < |frames| ==> ValidFrame(frames[j])
    requires i < |frames| && k < Length(frames[i])
    ensures Total(frames[..i]) + k < |Everything(frames)|
    ensures Everything(frames)[Total(frames[..i]) + k] == frames[i].payload.value[k]
    decreases |frames|
  {
    var before, f := frames[..|frames| - 1], frames[|frames| - 1];
    EverythingIs(before);
    if i < |frames| - 1 {
      ByteStands(before, i, k);
      assert before[..i] == frames[..i];
    }
  }

  // The frames let in: those that fit beside the incomplete chunk of the ones let in before.
  function Kept(frames: seq<Frame>, n: nat): seq<Frame>
    requires 0 < n
    decreases |frames|
  {
    if frames == [] then []
    else
      var before, f := Kept(frames[..|frames| - 1], n), frames[|frames| - 1];
      if Total(before) % n + f.nb <= 16384 then before + [f] else before
  }

  // The accepted audio is all the audio of the frames let in.
  lemma {:induction false} AcceptedIsKept(frames: seq<Frame>, n: nat)
    requires 0 < n && forall i :: 0 <= i < |frames| ==> ValidFrame(frames[i])
    ensures forall i :: 0 <= i < |Kept(frames, n)| ==> ValidFrame(Kept(frames, n)[i])
    ensures Accepted(frames, n) == Everything(Kept(frames, n))
    decreases |frames|
  {
    if frames == [] {
    } else {
      var before, f := frames[..|frames| - 1], frames[|frames| - 1];
      AcceptedIsKept(before, n);
      EverythingIs(Kept(before, n));
      AcceptsExactly(before, n, f);
      assert (Kept(before, n) + [f])[..|Kept(before, n)|] == Kept(before, n);
    }
  }

  // Byte k of frame i stands in out, k places after the frames before it.
  ghost predicate ByteAt(out: seq<byte>, frames: seq<Frame>, i: nat, k: nat)
    requires i < |frames| && k < Length(frames[i]) && ValidFrame(frames[i])
  {
    Total(frames[..i]) + k < |out| && out[Total(frames[..i]) + k] == frames[i].payload.value[k]
  }

  // out is the payloads of the frames, each cut to its nb, one after the other.
  ghost predicate Payloads(out: seq<byte>, frames: seq<Frame>)
    requires forall i :: 0 <= i < |frames| ==> ValidFrame(frames[i])
  {
    && |out| == Total(frames)
    && forall i, k :: 0 <= i < |frames| && 0 <= k < Length(frames[i]) ==> ByteAt(out, frames, i, k)
  }

  lemma EverythingIsPayloads(frames: seq<Frame>)
    requires forall i :: 0 <= i < |frames| ==> ValidFrame(frames[i])
    ensures Payloads(Everything(frames), frames)
  {
    EverythingIs(frames);
    forall i, k | 0 <= i < |frames| && 0 <= k < Length(frames[i])
      ensures ByteAt(Everything(frames), frames, i, k)
    {
      ByteStands(frames, i, k);
    }
  }

  // So in every run, the chunks and the residue are the payloads of the frames let in, byte by byte.
  lemma EveryByteComesOut(frames: seq<Frame>, n: nat)
    requires 0 < n && forall j :: 0 <= j < |frames| ==> ValidFrame(frames[j])
    ensures forall i :: 0 <= i < |Kept(frames, n)| ==> ValidFrame(Kept(frames, n)[i])
    ensures Payloads(Concat(Run(frames, n).sent) + Run(frames, n).residue, Kept(frames, n))
  {
    EveryRunConserves(frames, n);
    AcceptedIsKept(frames, n);
    EverythingIsPayloads(Kept(frames, n));
  }

  // Frames of at most CACHE_LEN - n bytes are never dropped.
  lemma {:induction false} SmallFramesKept(frames: seq<Frame>, n: nat)
    requires 0 < n && forall i :: 0 <= i < |frames| ==> ValidFrame(frames[i])
    requires forall i :: 0 <= i < |frames| ==> frames[i].nb <= CACHE_LEN - n
    ensures Accepted(frames, n) == Everything(frames) && Payloads(Accepted(frames, n), frames)
    decreases |frames|
  {
    if frames == [] {
    } else {
      var before := frames[..|frames| - 1];
      SmallFramesKept(before, n);
      EveryRunConserves(before, n);
    }
    EverythingIsPayloads(frames);
  }

  // If no frame exceeds the cache length less n, all are let in.
  lemma {:induction false} AllKept(frames: seq<Frame>, n: nat)
    requires 0 < n && forall i :: 0 <= i < |frames| ==> frames[i].nb <= 16384 - n
    ensures Kept(frames, n) == frames
    decreases |frames|
  {
    if frames == [] {
    } else {
      var before := frames[..|frames| - 1];
      AllKept(before, n);
      BelowDivisor(Total(before), n);
    }
  }

  lemma BelowDivisor(a: nat, n: nat)
    requires 0 < n
    ensures a % n < n
  {
  }

  /* ---- cutting does not depend on how the audio was framed ---- */

  lemma {:induction false} CutAppend(q: Queue, more: seq<byte>, n: nat)
    requires 0 < n
    ensures var r := Cut(q, n);
            Cut(Queue(q.sent, q.residue + more), n) == Cut(Queue(r.sent, r.residue + more), n)
    decreases |q.residue|
  {
    if n <= |q.residue| {
      var c, rest := q.residue[..n], q.residue[n..];
      CutAppend(Queue(q.sent + [c], rest), more, n);
      var long := q.residue + more;
      assert long[..n] == c && long[n..] == rest + more;
    }
  }

  // The chunks are those of cutting all accepted audio in one go.
  lemma {:induction false} FramingIsInvisible(frames: seq<Frame>, n: nat)
    requires 0 < n && forall i :: 0 <= i < |frames| ==> ValidFrame(frames[i])
    ensures Run(frames, n) == Cut(Queue([], Accepted(frames, n)), n)
    decreases |frames|
  {
    if frames == [] {
    } else {
      var before, f := frames[..|frames| - 1], frames[|frames| - 1];
      FramingIsInvisible(before, n);
      if Accepts(Run(before, n), f) {
        CutAppend(Queue([], Accepted(before, n)), Bytes(f), n);
      } else {
        assert Accepted(frames, n) == Accepted(before, n);
      }
    }
  }

  /* ---- the cache ---- */

  class AudioCaptureData {
    const cache: array<byte>
    const inBytes: nat
    var pos: nat
    var size: nat
    var sent: seq<seq<byte>> // what the callback has been given

    ghost predicate Valid()
      reads this
    {
      cache.Length == CACHE_LEN && 0 < inBytes && pos + size <= CACHE_LEN
    }

    ghost function Abs(): Queue
      requires Valid()
      reads this, cache
    {
      Queue(sent, cache[pos..pos + size])
    }

    constructor (inBytes: nat)
      requires 0 < inBytes
      ensures Valid() && Abs() == Queue([], []) && this.inBytes == inBytes && fresh(cache)
    {
      cache := new byte[CACHE_LEN];
      this.inBytes, pos, size, sent := inBytes, 0, 0, [];
    }

    // The waiting bytes moved to the start of the cache.
    method Compact()
      requires Valid()
      modifies this`pos, cache
      ensures Valid() && Abs() == old(Abs()) && pos == 0
    {
      Memory.MoveDown(cache, 0, pos, size);
      pos := 0;
    }

    // captureData and the lines after it.
    method CaptureData()
      requires Valid() && inBytes <= size
      modifies this`pos, this`size, this`sent
      ensures Valid() && size == old(size) - inBytes
      ensures Abs() == Queue(old(Abs()).sent + [old(Abs()).residue[..inBytes]], old(Abs()).residue[inBytes..])
    {
      ghost var was := cache[pos..pos + size];
      sent := sent + [cache[pos..pos + inBytes]];
      assert was[..inBytes] == cache[pos..pos + inBytes];
      assert was[inBytes..] == cache[pos + inBytes..pos + size];
      pos := pos + inBytes;
      size := size - inBytes;
      if size == 0 {
        pos := 0;
      }
    }

    // caputure.
    method CaptureFrame(f: Frame)
      requires Valid() && ValidFrame(f)
      modifies this, cache
      ensures Valid() && Abs() == Capture(old(Abs()), f, inBytes)
      ensures var q := old(Abs());
              |q.residue| + f.nb <= 16384 && f.payload.Some? && f.nb > 0 ==>
                Abs() == Cut(Queue(q.sent, q.residue + f.payload.value[..f.nb]), inBytes)
      ensures var q := old(Abs());
              |q.residue| + f.nb <= 16384 && (f.payload.None? || f.nb <= 0) ==> Abs() == Cut(q, inBytes)
      ensures var q := old(Abs());
              |q.residue| + f.nb > 16384 ==> Abs() == q
    {
      ghost var before := Abs();
      if size + f.nb > CACHE_LEN {
        return;
      }
      if pos + size + f.nb >= CACHE_LEN {
        Compact();
      }
      if f.payload.Some? && f.nb > 0 {
        Append(f.payload.value[..f.nb]);
      }
      ghost var q := Queue(before.sent, before.residue + Bytes(f));
      assert Abs().residue == q.residue;
      while size >= inBytes
        invariant Valid() && Cut(Abs(), inBytes) == Cut(q, inBytes)
        decreases size
      {
        if pos + inBytes >= CACHE_LEN {
          Compact();
        }
        CaptureData();
      }
    }

    method Append(data: seq<byte>)
      requires Valid() && pos + size + |data| <= CACHE_LEN
      modifies this`size, cache
      ensures Valid() && Abs() == Queue(old(Abs()).sent, old(Abs()).residue + data)
    {
      Memory.CopyIn(cache, pos + size, data);
      size := size + |data|;
    }
  }
}
