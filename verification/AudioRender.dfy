/** YangAudioRenderData: played audio is taken in blocks of any length from a cache that fetched
    frames fill; for echo cancelling, what was fetched is kept in a second buffer. */
module AudioRender {
  import opened Basics
  import Memory

  const CACHE_LEN: nat := 40960
  const MIX_BUF_LEN: nat := 4096

  // One fetch: what the ring buffers returned, and what resampling made of it. Nothing was
  // fetched when there is no raw audio.
  datatype Fetched = Fetched(raw: Option<seq<byte>>, resampled: seq<byte>)

  // The resampler of the player: bytes of one input and of one output frame.
  datatype Format = Format(inBytes: nat, outBytes: nat)

  /* ---- the two queues behind the buffers ---- */

  datatype State = State(queue: seq<byte>, echo: seq<byte>, renderLen: int, hasAec: bool)

  predicate Fetches(st: State, len: nat) {
    |st.queue| + 2 * len < CACHE_LEN
  }

  // What echo cancelling keeps of a fetch.
  function Heard(st: State, f: Fetched, fmt: Format): seq<byte> {
    if st.hasAec && f.raw.Some? && fmt.inBytes <= |f.raw.value| then f.raw.value[..fmt.inBytes] else []
  }

  // getRenderAudioData, up to the frame put into the cache.
  function Feed(st: State, len: nat, f: Fetched, fmt: Format): State
    requires Fits(st, len, f, fmt)
  {
    if !Fetches(st, len) then st
    else
      st.(queue := st.queue + f.resampled, echo := st.echo + Heard(st, f, fmt))
  }

  // What the memcpy calls demand of a fetched frame.
  predicate Fits(st: State, len: nat, f: Fetched, fmt: Format) {
    Fetches(st, len) ==>
      && |st.queue| + |f.resampled| <= CACHE_LEN
      && (st.hasAec && f.raw.Some? ==>
            fmt.inBytes <= |f.raw.value| && |st.echo| + fmt.inBytes <= MIX_BUF_LEN)
  }

  datatype Event =
    | Play(len: nat, fetched: Fetched) // getRenderAudioData
    | TakeEcho                         // getAecAudioData
    | Rendered(plen: int)              // setRenderLen
    | SetAec

  // An operation's new state and the block it returns, None for NULL.
  datatype Outcome = Outcome(now: State, block: Option<seq<byte>>)

  predicate Allowed(st: State, e: Event, fmt: Format) {
    && (e.Play? ==> Fits(st, e.len, e.fetched, fmt))
    && (e.Rendered? ==> 0 < fmt.outBytes)
  }

  function Step(st: State, e: Event, fmt: Format): Outcome
    requires Allowed(st, e, fmt)
  {
    match e
    case Play(len, f) =>
      var fed := Feed(st, len, f, fmt);
      if len > |fed.queue| then Outcome(fed, None)
      else Outcome(fed.(queue := fed.queue[len..]), Some(fed.queue[..len]))
    case TakeEcho =>
      if st.renderLen < fmt.inBytes || |st.echo| < fmt.inBytes then Outcome(st, None)
      else Outcome(st.(echo := st.echo[fmt.inBytes..], renderLen := 0), Some(st.echo[..fmt.inBytes]))
    case Rendered(plen) =>
      Outcome(st.(renderLen := st.renderLen + CDiv(fmt.inBytes * plen, fmt.outBytes)), None)
    case SetAec => Outcome(st.(hasAec := true), None)
  }

  /* ---- runs ---- */

  // A run so far: all audio put in the cache and played from it, and the same for the echo.
  datatype Log = Log(now: State, ok: bool, fed: seq<byte>, played: seq<byte>, heard: seq<byte>, taken: seq<byte>)

  function Block(o: Outcome): seq<byte> {
    if o.block.Some? then o.block.value else []
  }

  function Run(events: seq<Event>, fmt: Format): Log
    decreases |events|
  {
    if events == [] then Log(State([], [], 0, false), true, [], [], [], [])
    else
      var r, e := Run(events[..|events| - 1], fmt), events[|events| - 1];
      if !r.ok || !Allowed(r.now, e, fmt) then r.(ok := false)
      else
        var o := Step(r.now, e, fmt);
        match e
        case Play(len, f) =>
          var took := Fetches(r.now, len);
          Log(o.now, true, r.fed + (if took then f.resampled else []), r.played + Block(o),
              r.heard + (if took && r.now.hasAec && f.raw.Some? then f.raw.value[..fmt.inBytes] else []), r.taken)
        case TakeEcho => r.(now := o.now, taken := r.taken + Block(o))
        case Rendered(_) => r.(now := o.now)
        case SetAec => r.(now := o.now)
  }

  predicate Conserved(r: Log) {
    r.played + r.now.queue == r.fed && r.taken + r.now.echo == r.heard
  }

  lemma Pop(done: seq<byte>, q: seq<byte>, n: nat)
    requires n <= |q|
    ensures (done + q[..n]) + q[n..] == done + q
  {
  }

  // Over any run, the blocks played and the waiting bytes are the frames put in, in order, and the
  // same holds of the echo.
  lemma {:induction false} EveryRunConserves(events: seq<Event>, fmt: Format)
    ensures Conserved(Run(events, fmt))
    decreases |events|
  {
    if events == [] {
    } else {
      var r, e := Run(events[..|events| - 1], fmt), events[|events| - 1];
      EveryRunConserves(events[..|events| - 1], fmt);
      if r.ok && Allowed(r.now, e, fmt) {
        var o := Step(r.now, e, fmt);
        match e
        case Play(len, f) =>
          PlayConserves(r, len, f, fmt);
        case TakeEcho =>
          if o.block.Some? {
            Pop(r.taken, r.now.echo, fmt.inBytes);
          }
        case Rendered(_) =>
        case SetAec =>
      }
    }
  }

  lemma PlayConserves(r: Log, len: nat, f: Fetched, fmt: Format)
    requires Conserved(r) && Fits(r.now, len, f, fmt)
    ensures var o := Step(r.now, Play(len, f), fmt);
            var took := Fetches(r.now, len);
            && (r.played + Block(o)) + o.now.queue == r.fed + (if took then f.resampled else [])
            && r.taken + o.now.echo
               == r.heard + (if took && r.now.hasAec && f.raw.Some? then f.raw.value[..fmt.inBytes] else [])
  {
    var fed := Feed(r.now, len, f, fmt);
    if len <= |fed.queue| {
      Pop(r.played, fed.queue, len);
    }
  }

  // A block has the length asked for; a NULL loses nothing.
  lemma BlocksAreWhole(st: State, e: Event, fmt: Format)
    requires Allowed(st, e, fmt) && (e.Play? || e.TakeEcho?)
    ensures var o := Step(st, e, fmt);
            && (o.block.Some? ==> |o.block.value| == if e.Play? then e.len else fmt.inBytes)
            && (o.block.None? ==> o.now == if e.Play? then Feed(st, e.len, e.fetched, fmt) else st)
  {
  }

  // A frame is fetched exactly while twice the length asked for fits the cache beside what waits; a
  // block is returned exactly if enough waits then. What is played is the front of the queue.
  lemma PlayIs(st: State, len: nat, f: Fetched, fmt: Format)
    requires Fits(st, len, f, fmt)
    ensures var fed := if |st.queue| + 2 * len < 40960 then st.queue + f.resampled else st.queue;
            var o := Step(st, Play(len, f), fmt);
            && (o.block.Some? <==> len <= |fed|)
            && (o.block.Some? ==> o.block.value == fed[..len] && o.now.queue == fed[len..])
            && (o.block.None? ==> o.now.queue == fed)
            && o.now.renderLen == st.renderLen && o.now.hasAec == st.hasAec
    ensures var o := Step(st, Play(len, f), fmt);
            o.now.echo == st.echo + (if |st.queue| + 2 * len < 40960 && st.hasAec && f.raw.Some?
                                     then f.raw.value[..fmt.inBytes] else [])
  {
  }

  // Echo is returned exactly if a block has been rendered since the last time and a block waits; then
  // it is the front of the queue, and rendering is counted anew.
  lemma TakeEchoIs(st: State, fmt: Format)
    ensures var o := Step(st, TakeEcho, fmt);
            && o.now.queue == st.queue && o.now.hasAec == st.hasAec
            && (o.block.Some? <==> fmt.inBytes <= st.renderLen && fmt.inBytes <= |st.echo|)
            && (o.block.Some? ==> o.block.value == st.echo[..fmt.inBytes] && o.now.echo == st.echo[fmt.inBytes..]
                                  && o.now.renderLen == 0)
            && (o.block.None? ==> o.now == st)
  {
  }

  // The rendered bytes, scaled to the input format and truncated, add to the count; after enough of
  // them, a waiting block of echo is returned.
  lemma RenderedIs(st: State, plen: int, fmt: Format)
    requires 0 < fmt.outBytes
    ensures var r := Step(st, Rendered(plen), fmt).now;
            var gained := r.renderLen - st.renderLen;
            var rest := fmt.inBytes * plen - gained * fmt.outBytes;
            && r == st.(renderLen := r.renderLen)
            && 0 - fmt.outBytes < rest < fmt.outBytes && (0 <= plen ==> 0 <= rest) && (plen <= 0 ==> rest <= 0)
            && (fmt.inBytes <= r.renderLen && fmt.inBytes <= |r.echo| ==>
                  Step(r, TakeEcho, fmt).block == Some(st.echo[..fmt.inBytes]))
  {
    CDivTruncates(fmt.inBytes * plen, fmt.outBytes);
    if 0 <= plen {
      assert 0 <= fmt.inBytes * plen;
    }
    if plen <= 0 {
      assert fmt.inBytes * plen <= 0;
    }
  }

  // setAec changes nothing that waits; from then on every fetch is kept for the echo.
  lemma SetAecIs(st: State, len: nat, f: Fetched, fmt: Format)
    requires |st.queue| + 2 * len < 40960 && f.raw.Some? && Fits(Step(st, SetAec, fmt).now, len, f, fmt)
    ensures var on := Step(st, SetAec, fmt).now;
            && on == State(st.queue, st.echo, st.renderLen, true)
            && fmt.inBytes <= |f.raw.value|
            && Step(on, Play(len, f), fmt).now.echo == st.echo + f.raw.value[..fmt.inBytes]
  {
  }

  // The obligation of the echo buffer: room for one more block whenever one is stored.
  predicate EchoRoom(st: State, e: Event, fmt: Format) {
    e.Play? && st.hasAec && e.fetched.raw.Some? ==>
      fmt.inBytes <= |e.fetched.raw.value| && |st.echo| + fmt.inBytes <= MIX_BUF_LEN
  }

  // A resampled frame of at most twice the length asked for fits the cache.
  predicate Double(e: Event) {
    e.Play? ==> |e.fetched.resampled| <= 2 * e.len
  }

  lemma DoubleStep(st: State, e: Event, fmt: Format)
    requires |st.queue| <= CACHE_LEN && 0 < fmt.outBytes && Double(e) && EchoRoom(st, e, fmt)
    ensures Allowed(st, e, fmt) && |Step(st, e, fmt).now.queue| <= CACHE_LEN
  {
  }

  // So no call of such a run overruns the cache: a run can only fail at the echo buffer.
  lemma {:induction false} DoubleFramesFit(events: seq<Event>, fmt: Format)
    requires 0 < fmt.outBytes && forall k :: 0 <= k < |events| ==> Double(events[k])
    requires forall k :: 0 <= k < |events| ==> EchoRoom(Run(events[..k], fmt).now, events[k], fmt)
    ensures Run(events, fmt).ok && |Run(events, fmt).now.queue| <= CACHE_LEN
    decreases |events|
  {
    if events == [] {
    } else {
      var n := |events| - 1;
      var before := events[..n];
      forall k | 0 <= k < n
        ensures EchoRoom(Run(before[..k], fmt).now, before[k], fmt)
      {
        assert before[..k] == events[..k];
      }
      DoubleFramesFit(before, fmt);
      DoubleStep(Run(before, fmt).now, events[n], fmt);
    }
  }

  ghost predicate WholeBlocks(n: nat, size: nat) {
    exists k: nat :: n == k * size
  }

  lemma OneBlockMore(n: nat, size: nat, m: int)
    requires WholeBlocks(n, size) && 0 <= m && (m == n || m == n + size || m == n - size)
    ensures WholeBlocks(m, size)
  {
    var k: nat :| n == k * size;
    assert (k + 1) * size == n + size;
    if m == n - size && m != n {
      assert 1 <= k;
      assert (k - 1) * size == n - size;
    }
  }

  lemma EchoStep(st: State, e: Event, fmt: Format)
    requires Allowed(st, e, fmt)
    ensures var n, m := |st.echo|, |Step(st, e, fmt).now.echo|;
            m == n || m == n + fmt.inBytes || m == n - fmt.inBytes
  {
  }

  // The echo waits in whole blocks: every store adds inBytes and every take removes as many.
  lemma {:induction false} EchoIsWholeBlocks(events: seq<Event>, fmt: Format)
    ensures WholeBlocks(|Run(events, fmt).now.echo|, fmt.inBytes)
    decreases |events|
  {
    if events == [] {
      assert |Run(events, fmt).now.echo| == 0 * fmt.inBytes;
    } else {
      var r, e := Run(events[..|events| - 1], fmt), events[|events| - 1];
      EchoIsWholeBlocks(events[..|events| - 1], fmt);
      if r.ok && Allowed(r.now, e, fmt) {
        EchoStep(r.now, e, fmt);
        OneBlockMore(|r.now.echo|, fmt.inBytes, |Step(r.now, e, fmt).now.echo|);
      }
    }
  }

  /* ---- the buffers ---- */

  class AudioRenderData {
    const cache: array<byte>
    var aecBuf: array?<byte> // NULL until setAec
    const format: Format
    var pos: nat
    var size: nat
    var mixPos: nat
    var aecBufLen: nat
    var renderLen: int
    var hasAec: bool

    ghost predicate Valid()
      reads this
    {
      && 0 < format.inBytes && cache != aecBuf && cache.Length == CACHE_LEN
      && pos + size <= CACHE_LEN && mixPos + aecBufLen <= MIX_BUF_LEN
      && (if aecBuf == null then !hasAec && aecBufLen == 0 else aecBuf.Length == MIX_BUF_LEN)
    }

    ghost function Echo(): seq<byte>
      requires Valid()
      reads this, aecBuf
    {
      if aecBuf == null then [] else aecBuf[mixPos..mixPos + aecBufLen]
    }

    ghost function Abs(): State
      requires Valid()
      reads this, cache, aecBuf
    {
      State(cache[pos..pos + size], Echo(), renderLen, hasAec)
    }

    constructor (format: Format)
      requires 0 < format.inBytes
      ensures Valid() && Abs() == State([], [], 0, false) && this.format == format && fresh(cache) && aecBuf == null
    {
      cache := new byte[CACHE_LEN];
      aecBuf := null;
      this.format, pos, size, mixPos, aecBufLen, renderLen, hasAec := format, 0, 0, 0, 0, 0, false;
    }

    method CompactCache()
      requires Valid()
      modifies this`pos, cache
      ensures Valid() && Abs() == old(Abs()) && pos == 0
    {
      Memory.MoveDown(cache, 0, pos, size);
      pos := 0;
    }

    method CompactEcho()
      requires Valid() && aecBuf != null
      modifies this`mixPos, aecBuf
      ensures Valid() && Abs() == old(Abs()) && mixPos == 0
    {
      Memory.MoveDown(aecBuf, 0, mixPos, aecBufLen);
      mixPos := 0;
    }

    // getAudioData, for what the ring buffers returned.
    method GetAudioData(raw: Option<seq<byte>>)
      requires Valid()
      requires hasAec && raw.Some? ==>
                 format.inBytes <= |raw.value| && aecBufLen + format.inBytes <= MIX_BUF_LEN
      modifies this`mixPos, this`aecBufLen, aecBuf
      ensures Valid()
      ensures Abs() == old(Abs()).(echo := old(Abs()).echo + old(Heard(Abs(), Fetched(raw, []), format)))
    {
      if hasAec && raw.Some? {
        if mixPos + aecBufLen + format.inBytes >= MIX_BUF_LEN {
          CompactEcho();
        }
        AppendEcho(raw.value[..format.inBytes]);
      }
    }

    method AppendEcho(data: seq<byte>)
      requires Valid() && aecBuf != null && mixPos + aecBufLen + |data| <= MIX_BUF_LEN
      modifies this`aecBufLen, aecBuf
      ensures Valid() && Abs() == old(Abs()).(echo := old(Abs()).echo + data)
    {
      Memory.CopyIn(aecBuf, mixPos + aecBufLen, data);
      aecBufLen := aecBufLen + |data|;
    }

    method AppendCache(data: seq<byte>)
      requires Valid() && pos + size + |data| <= CACHE_LEN
      modifies this`size, cache
      ensures Valid() && Abs() == old(Abs()).(queue := old(Abs()).queue + data)
    {
      Memory.CopyIn(cache, pos + size, data);
      size := size + |data|;
    }

    // The block of getRenderAudioData that stores a resampled frame.
    method Store(data: seq<byte>)
      requires Valid() && size + |data| <= CACHE_LEN
      modifies this`pos, this`size, cache
      ensures Valid() && Abs() == old(Abs()).(queue := old(Abs()).queue + data)
    {
      if |data| > 0 {
        if pos + size + |data| >= CACHE_LEN {
          CompactCache();
        }
        AppendCache(data);
      }
    }

    // The end of getRenderAudioData: the block taken from the front of the cache.
    method Take(len: nat) returns (block: Option<seq<byte>>)
      requires Valid()
      modifies this`pos, this`size
      ensures Valid() && block.Some? == (len <= |old(Abs()).queue|)
      ensures block.Some? ==> block.value == old(Abs()).queue[..len]
                              && Abs() == old(Abs()).(queue := old(Abs()).queue[len..])
      ensures block.None? ==> Abs() == old(Abs())
    {
      if len > size {
        return None;
      }
      ghost var was := cache[pos..pos + size];
      block := Some(cache[pos..pos + len]);
      assert was[..len] == cache[pos..pos + len] && was[len..] == cache[pos + len..pos + size];
      size := size - len;
      if size == 0 {
        pos := 0;
      } else {
        pos := pos + len;
      }
    }

    // getRenderAudioData.
    method GetRenderAudioData(len: nat, fetched: Fetched) returns (block: Option<seq<byte>>)
      requires Valid() && Fits(Abs(), len, fetched, format)
      modifies this, cache, aecBuf
      ensures Valid() && aecBuf == old(aecBuf)
      ensures Outcome(Abs(), block) == Step(old(Abs()), Play(len, fetched), format)
    {
      if pos + size + len >= CACHE_LEN {
        CompactCache();
      }
      if size + 2 * len < CACHE_LEN {
        GetAudioData(fetched.raw);
        Store(fetched.resampled);
      }
      block := Take(len);
    }

    // getAecAudioData.
    method GetAecAudioData() returns (block: Option<seq<byte>>)
      requires Valid()
      modifies this`mixPos, this`aecBufLen, this`renderLen, aecBuf
      ensures Valid() && Outcome(Abs(), block) == Step(old(Abs()), TakeEcho, format)
    {
      if renderLen < format.inBytes || aecBufLen < format.inBytes {
        return None;
      }
      if mixPos + format.inBytes >= MIX_BUF_LEN {
        CompactEcho();
      }
      assert Abs() == old(Abs());
      var p := PopEcho();
      block := Some(p);
    }

    // Its last lines: a block off the front of the echo buffer.
    method PopEcho() returns (p: seq<byte>)
      requires Valid() && format.inBytes <= aecBufLen
      modifies this`mixPos, this`aecBufLen, this`renderLen
      ensures Valid() && p == old(Abs()).echo[..format.inBytes]
      ensures Abs() == old(Abs()).(echo := old(Abs()).echo[format.inBytes..], renderLen := 0)
    {
      ghost var was, n := aecBuf[mixPos..mixPos + aecBufLen], format.inBytes;
      assert was[..n] == aecBuf[mixPos..mixPos + n] && was[n..] == aecBuf[mixPos + n..mixPos + aecBufLen];
      p := aecBuf[mixPos..mixPos + format.inBytes];
      aecBufLen := aecBufLen - format.inBytes;
      mixPos := mixPos + format.inBytes;
      renderLen := 0;
    }

    // setAec: the buffer is allocated by the first call and kept by later ones.
    method EnableAec()
      requires Valid()
      modifies this`hasAec, this`aecBuf
      ensures Valid() && Abs() == Step(old(Abs()), SetAec, format).now
      ensures aecBuf != null && if old(aecBuf) == null then fresh(aecBuf) else aecBuf == old(aecBuf)
    {
      if aecBuf == null {
        aecBuf := new byte[MIX_BUF_LEN];
      }
      hasAec := true;
    }

    // setRenderLen.
    method SetRenderLen(plen: int)
      requires Valid() && 0 < format.outBytes
      modifies this`renderLen
      ensures Valid() && Abs() == Step(old(Abs()), Rendered(plen), format).now
    {
      renderLen := renderLen + CDiv(format.inBytes * plen, format.outBytes);
    }
  }
}
