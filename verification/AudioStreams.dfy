/** What the audio decoder thread means: the outputs that are playing, the decoders, and the
    remembered parameters, with the invariant that ties them together in every run. */
module AudioStreams {
  import opened Basics

  datatype Frame = Frame(uid: int, payload: seq<byte>)

  datatype AudioParam = AudioParam(encode: int, sample: int, channel: int, fec: bool)

  // An output buffer, with its play buffer attached, and a decoder.
  datatype Output = Output(uid: int, frames: seq<Frame>)
  datatype Decoder = Decoder(uid: int, param: AudioParam)

  datatype State = State(outs: seq<Output>, decs: seq<Decoder>, params: map<int, AudioParam>)

  // First matches, or -1.
  function FindOut(outs: seq<Output>, uid: int): (i: int)
    ensures -1 <= i < |outs|
    ensures 0 <= i ==> outs[i].uid == uid && forall k :: 0 <= k < i ==> outs[k].uid != uid
    ensures i < 0 ==> forall k :: 0 <= k < |outs| ==> outs[k].uid != uid
  {
    First(outs, (x: Output) => x.uid, uid)
  }

  function FindDec(decs: seq<Decoder>, uid: int): (i: int)
    ensures -1 <= i < |decs|
    ensures 0 <= i ==> decs[i].uid == uid && forall k :: 0 <= k < i ==> decs[k].uid != uid
    ensures i < 0 ==> forall k :: 0 <= k < |decs| ==> decs[k].uid != uid
  {
    First(decs, (x: Decoder) => x.uid, uid)
  }

  // setRemoteParam: fec comes from the local configuration.
  function SetRemoteParam(st: State, uid: int, encode: int, sample: int, channel: int, fec: bool): State {
    st.(params := st.params[uid := AudioParam(encode, sample, channel, fec)])
  }

  function DropOut(outs: seq<Output>, uid: int): seq<Output> {
    var o := FindOut(outs, uid);
    if o < 0 then outs else Delete(outs, o)
  }

  function DropDec(decs: seq<Decoder>, uid: int): seq<Decoder> {
    var d := FindDec(decs, uid);
    if d < 0 then decs else Delete(decs, d)
  }

  // removeAudioStream: the parameters are dropped only when there was no output.
  function Remove(st: State, uid: int): State {
    State(DropOut(st.outs, uid), DropDec(st.decs, uid),
          if FindOut(st.outs, uid) < 0 then st.params - {uid} else st.params)
  }

  // onAudioData: the first frame of a user opens the output.
  function PutAudio(outs: seq<Output>, f: Frame): seq<Output> {
    var i := FindOut(outs, f.uid);
    if i < 0 then outs + [Output(f.uid, [f])] else outs[i := Output(f.uid, outs[i].frames + [f])]
  }

  function PutAll(outs: seq<Output>, fs: seq<Frame>): seq<Output>
    decreases |fs|
  {
    if fs == [] then outs else PutAudio(PutAll(outs, fs[..|fs| - 1]), fs[|fs| - 1])
  }

  // A decoder for the user, created if missing with the remembered or the default parameters.
  function WithDecoder(st: State, uid: int, default: AudioParam): State {
    if 0 <= FindDec(st.decs, uid) then st
    else if uid in st.params then st.(decs := st.decs + [Decoder(uid, st.params[uid])])
    else State(st.outs, st.decs + [Decoder(uid, default)], st.params[uid := default])
  }

  datatype Event =
    | SetParam(uid: int, encode: int, sample: int, channel: int, fec: bool)
    | RemoveStream(uid: int)
    | RemoveAll
    | Turn(uid: int, default: AudioParam, decoded: seq<Frame>)

  // The decoder calls back with audio of the user whose frame it was given.
  predicate Honest(e: Event) {
    e.Turn? ==> forall i :: 0 <= i < |e.decoded| ==> e.decoded[i].uid == e.uid
  }

  function Step(st: State, e: Event): State {
    match e
    case SetParam(uid, encode, sample, channel, fec) => SetRemoteParam(st, uid, encode, sample, channel, fec)
    case RemoveStream(uid) => Remove(st, uid)
    case RemoveAll => State([], [], map[])
    case Turn(uid, default, decoded) =>
      var r := WithDecoder(st, uid, default);
      r.(outs := PutAll(r.outs, decoded))
  }

  function Run(st: State, es: seq<Event>): State
    decreases |es|
  {
    if es == [] then st else Run(Step(st, es[0]), es[1..])
  }

  /* ---- safety over every run ---- */

  ghost predicate DistinctOuts(outs: seq<Output>) {
    forall i, j :: 0 <= i < j < |outs| ==> outs[i].uid != outs[j].uid
  }

  ghost predicate DistinctDecs(decs: seq<Decoder>) {
    forall i, j :: 0 <= i < j < |decs| ==> decs[i].uid != decs[j].uid
  }

  ghost predicate Good(st: State) {
    && DistinctOuts(st.outs) && DistinctDecs(st.decs)
    && (forall i :: 0 <= i < |st.outs| ==> 0 <= FindDec(st.decs, st.outs[i].uid))
    && (forall i :: 0 <= i < |st.decs| ==> st.decs[i].uid in st.params)
    && (forall i, k :: 0 <= i < |st.outs| && 0 <= k < |st.outs[i].frames| ==>
          st.outs[i].frames[k].uid == st.outs[i].uid)
  }

  lemma FindDecIs(decs: seq<Decoder>, i: nat)
    requires i < |decs|
    ensures 0 <= FindDec(decs, decs[i].uid)
  {
  }

  // Dropping a user leaves everyone else, once each.
  lemma DropOutIs(outs: seq<Output>, uid: int)
    requires DistinctOuts(outs)
    ensures var r := DropOut(outs, uid);
            DistinctOuts(r) && FindOut(r, uid) < 0
            && (forall k :: 0 <= k < |r| ==> r[k] in outs && r[k].uid != uid)
  {
    var r, o := DropOut(outs, uid), FindOut(outs, uid);
    if 0 <= o {
      assert forall k :: 0 <= k < |r| ==> r[k] == outs[if k < o then k else k + 1];
    }
  }

  lemma DropDecIs(decs: seq<Decoder>, uid: int)
    requires DistinctDecs(decs)
    ensures var r := DropDec(decs, uid);
            DistinctDecs(r) && FindDec(r, uid) < 0
            && (forall k :: 0 <= k < |r| ==> r[k] in decs && r[k].uid != uid)
  {
    var r, d := DropDec(decs, uid), FindDec(decs, uid);
    if 0 <= d {
      assert forall k :: 0 <= k < |r| ==> r[k] == decs[if k < d then k else k + 1];
    }
  }

  lemma DropDecKeeps(decs: seq<Decoder>, uid: int, other: int)
    requires uid != other && 0 <= FindDec(decs, other)
    ensures 0 <= FindDec(DropDec(decs, uid), other)
  {
    var i, d := FindDec(decs, other), FindDec(decs, uid);
    if 0 <= d {
      DeleteAt(decs, d, if i < d then i else i - 1);
    }
  }

  lemma DropOutKeeps(outs: seq<Output>, uid: int, other: int)
    requires uid != other && DistinctOuts(outs)
    ensures var r, i := DropOut(outs, uid), FindOut(outs, other);
            if i < 0 then FindOut(r, other) < 0
            else 0 <= FindOut(r, other) && r[FindOut(r, other)] == outs[i]
  {
    var r, i, o := DropOut(outs, uid), FindOut(outs, other), FindOut(outs, uid);
    DropOutIs(outs, uid);
    if 0 <= o && 0 <= i {
      DeleteAt(outs, o, if i < o then i else i - 1);
    }
    var k := FindOut(r, other);
    if 0 <= k {
      assert r[k] in outs;
    }
  }

  lemma RemoveIsGood(st: State, uid: int)
    requires Good(st)
    ensures Good(Remove(st, uid))
  {
    var r := Remove(st, uid);
    DropOutIs(st.outs, uid);
    DropDecIs(st.decs, uid);
    forall i | 0 <= i < |r.outs|
      ensures 0 <= FindDec(r.decs, r.outs[i].uid)
    {
      DropDecKeeps(st.decs, uid, r.outs[i].uid);
    }
  }

  lemma {:induction false} PutAllIsGood(st: State, fs: seq<Frame>, uid: int)
    requires Good(st) && 0 <= FindDec(st.decs, uid)
    requires forall i :: 0 <= i < |fs| ==> fs[i].uid == uid
    ensures Good(st.(outs := PutAll(st.outs, fs)))
    decreases |fs|
  {
    if fs == [] {
    } else {
      PutAllIsGood(st, fs[..|fs| - 1], uid);
      PutAudioIsGood(st.(outs := PutAll(st.outs, fs[..|fs| - 1])), fs[|fs| - 1]);
    }
  }

  lemma PutAudioIsGood(st: State, f: Frame)
    requires Good(st) && 0 <= FindDec(st.decs, f.uid)
    ensures Good(st.(outs := PutAudio(st.outs, f)))
  {
  }

  lemma StepIsGood(st: State, e: Event)
    requires Good(st) && Honest(e)
    ensures Good(Step(st, e))
  {
    match e
    case SetParam(_, _, _, _, _) =>
    case RemoveAll =>
    case RemoveStream(uid) => RemoveIsGood(st, uid);
    case Turn(uid, default, decoded) =>
      WithDecoderIsGood(st, uid, default);
      PutAllIsGood(WithDecoder(st, uid, default), decoded, uid);
  }

  lemma WithDecoderIsGood(st: State, uid: int, default: AudioParam)
    requires Good(st)
    ensures Good(WithDecoder(st, uid, default)) && 0 <= FindDec(WithDecoder(st, uid, default).decs, uid)
  {
    var r := WithDecoder(st, uid, default);
    if FindDec(st.decs, uid) < 0 {
      FindDecIs(r.decs, |st.decs|);
      forall i | 0 <= i < |r.outs|
        ensures 0 <= FindDec(r.decs, r.outs[i].uid)
      {
        FindDecIs(r.decs, FindDec(st.decs, st.outs[i].uid));
      }
    }
  }

  // In every run the tables stay tied: distinct users, a decoder behind every output, and
  // parameters behind every decoder.
  lemma {:induction false} EveryRunIsGood(st: State, es: seq<Event>)
    requires Good(st) && forall i :: 0 <= i < |es| ==> Honest(es[i])
    ensures Good(Run(st, es))
    decreases |es|
  {
    if es == [] {
    } else {
      StepIsGood(st, es[0]);
      EveryRunIsGood(Step(st, es[0]), es[1..]);
    }
  }

  // A removed user has neither output nor decoder, but keeps remembered parameters exactly
  // when there was an output to remove.
  lemma RemoveForgets(st: State, uid: int)
    requires Good(st)
    ensures FindOut(Remove(st, uid).outs, uid) < 0 && FindDec(Remove(st, uid).decs, uid) < 0
    ensures uid in Remove(st, uid).params <==> 0 <= FindOut(st.outs, uid)
  {
    DropOutIs(st.outs, uid);
    DropDecIs(st.decs, uid);
    var o := FindOut(st.outs, uid);
    if 0 <= o {
      assert 0 <= FindDec(st.decs, st.outs[o].uid);
    }
  }

  // Other users are untouched by a removal and by a turn.
  lemma OthersUntouched(st: State, e: Event, other: int)
    requires Good(st) && Honest(e)
    requires (e.RemoveStream? || e.Turn?) && e.uid != other
    ensures OutputOf(Step(st, e), other) == OutputOf(st, other)
  {
    if e.RemoveStream? {
      DropOutKeeps(st.outs, e.uid, other);
    } else {
      PutAllKeepsOutput(WithDecoder(st, e.uid, e.default).outs, e.decoded, e.uid, other);
    }
  }

  /* ---- what a turn and the control calls do ---- */

  function DecoderOf(st: State, uid: int): Option<Decoder> {
    var i := FindDec(st.decs, uid);
    if i < 0 then None else Some(st.decs[i])
  }

  // The audio waiting in a user's output.
  function Waiting(st: State, uid: int): seq<Frame> {
    var o := OutputOf(st, uid);
    if o.None? then [] else o.value.frames
  }

  lemma {:induction false} PutAllAppends(outs: seq<Output>, fs: seq<Frame>, uid: int)
    requires fs != [] && forall i :: 0 <= i < |fs| ==> fs[i].uid == uid
    ensures var i, r := FindOut(outs, uid), PutAll(outs, fs);
            if i < 0 then r == outs + [Output(uid, fs)]
            else r == outs[..i] + [Output(uid, outs[i].frames + fs)] + outs[i + 1..]
    decreases |fs|
  {
    var before, f, i := fs[..|fs| - 1], fs[|fs| - 1], FindOut(outs, uid);
    assert fs == before + [f];
    if before == [] {
      PutAudioAppends(outs, f, uid, i);
    } else {
      PutAllAppends(outs, before, uid);
      var mid := PutAll(outs, before);
      var j := if i < 0 then |outs| else i;
      OutputAt(outs, mid, uid, i, j, if i < 0 then before else outs[i].frames + before);
      PutAudioAppends(mid, f, uid, j);
      if 0 <= i {
        assert (outs[i].frames + before) + [f] == outs[i].frames + fs;
      }
    }
  }

  lemma PutAudioAppends(outs: seq<Output>, f: Frame, uid: int, i: int)
    requires f.uid == uid && i == FindOut(outs, uid)
    ensures var r := PutAudio(outs, f);
            if i < 0 then r == outs + [Output(uid, [f])]
            else r == outs[..i] + [Output(uid, outs[i].frames + [f])] + outs[i + 1..]
  {
  }

  // Where the changed or the new output is found.
  lemma OutputAt(outs: seq<Output>, mid: seq<Output>, uid: int, i: int, j: nat, frames: seq<Frame>)
    requires i == FindOut(outs, uid) && j == if i < 0 then |outs| else i
    requires mid == if i < 0 then outs + [Output(uid, frames)] else outs[..i] + [Output(uid, frames)] + outs[i + 1..]
    ensures FindOut(mid, uid) == j && mid[j] == Output(uid, frames) && |mid| == if i < 0 then |outs| + 1 else |outs|
    ensures mid[..j] == outs[..j] && (0 <= i ==> mid[j + 1..] == outs[j + 1..])
  {
    assert mid[j] == Output(uid, frames);
    assert forall k :: 0 <= k < j ==> mid[k] == outs[k];
  }

  // A turn appends what was decoded to the user's own output, opening it at the end if there is none,
  // and changes no other output.
  lemma TurnDelivers(st: State, uid: int, default: AudioParam, decoded: seq<Frame>)
    requires forall i :: 0 <= i < |decoded| ==> decoded[i].uid == uid
    ensures var i, r := FindOut(st.outs, uid), Step(st, Turn(uid, default, decoded));
            && r.outs == (if decoded == [] then st.outs
                          else if i < 0 then st.outs + [Output(uid, decoded)]
                          else st.outs[..i] + [Output(uid, st.outs[i].frames + decoded)] + st.outs[i + 1..])
            && Waiting(r, uid) == Waiting(st, uid) + decoded
            && (decoded != [] ==> OutputOf(r, uid).Some?)
  {
    if decoded != [] {
      PutAllAppends(st.outs, decoded, uid);
      FoundAgain(st.outs, Step(st, Turn(uid, default, decoded)).outs, decoded, uid, FindOut(st.outs, uid));
    } else {
      assert Waiting(st, uid) + [] == Waiting(st, uid);
    }
  }

  lemma FoundAgain(outs: seq<Output>, r: seq<Output>, decoded: seq<Frame>, uid: int, i: int)
    requires i == FindOut(outs, uid)
    requires r == if i < 0 then outs + [Output(uid, decoded)]
                  else outs[..i] + [Output(uid, outs[i].frames + decoded)] + outs[i + 1..]
    ensures 0 <= FindOut(r, uid)
    ensures r[FindOut(r, uid)].frames == if i < 0 then decoded else outs[i].frames + decoded
  {
    OutputAt(outs, r, uid, i, if i < 0 then |outs| else i, if i < 0 then decoded else outs[i].frames + decoded);
  }

  // A user with a decoder keeps it; a new decoder gets the remembered parameters, or else the local
  // configuration, which is then remembered. Nobody else's decoder or parameters change.
  lemma TurnDecoder(st: State, uid: int, default: AudioParam, decoded: seq<Frame>, other: int)
    requires other != uid
    ensures var r, had := Step(st, Turn(uid, default, decoded)), DecoderOf(st, uid);
            && DecoderOf(r, uid)
               == Some(if had.Some? then had.value
                       else Decoder(uid, if uid in st.params then st.params[uid] else default))
            && (had.None? ==> uid in r.params && r.params[uid] == DecoderOf(r, uid).value.param)
            && (had.Some? ==> r.params == st.params && r.decs == st.decs)
            && DecoderOf(r, other) == DecoderOf(st, other)
            && (other in r.params <==> other in st.params)
            && (other in st.params ==> r.params[other] == st.params[other])
  {
    var r := Step(st, Turn(uid, default, decoded));
    if FindDec(st.decs, uid) < 0 {
      var d := Decoder(uid, if uid in st.params then st.params[uid] else default);
      assert r.decs == st.decs + [d];
      DecoderAdded(st.decs, d, other);
    }
  }

  lemma DecoderAdded(decs: seq<Decoder>, d: Decoder, other: int)
    requires FindDec(decs, d.uid) < 0 && other != d.uid
    ensures FindDec(decs + [d], d.uid) == |decs| && FindDec(decs + [d], other) == FindDec(decs, other)
  {
    var r, i := decs + [d], FindDec(decs, other);
    assert r[|decs|] == d;
    if 0 <= i {
      assert r[i].uid == other;
    }
    var j := FindDec(r, other);
    if 0 <= j {
      assert r[j] == decs[j];
    }
  }

  // The parameters a remote user announces are remembered field by field, fec from the local
  // configuration; a decoder created later is given exactly these.
  lemma AnnouncedIsUsed(st: State, uid: int, encode: int, sample: int, channel: int, fec: bool, default: AudioParam,
                        decoded: seq<Frame>, other: int)
    requires other != uid
    ensures var s := Step(st, SetParam(uid, encode, sample, channel, fec));
            && uid in s.params && s.params[uid].encode == encode && s.params[uid].sample == sample
            && s.params[uid].channel == channel && s.params[uid].fec == fec
            && s.outs == st.outs && s.decs == st.decs
            && (other in s.params <==> other in st.params)
            && (other in st.params ==> s.params[other] == st.params[other])
    ensures var s := Step(st, SetParam(uid, encode, sample, channel, fec));
            FindDec(st.decs, uid) < 0 ==>
              DecoderOf(Step(s, Turn(uid, default, decoded)), uid)
              == Some(Decoder(uid, AudioParam(encode, sample, channel, fec)))
  {
    var s := Step(st, SetParam(uid, encode, sample, channel, fec));
    TurnDecoder(s, uid, default, decoded, other);
  }

  // removeAudioStream changes nobody else's decoder or parameters.
  lemma RemoveSpares(st: State, uid: int, other: int)
    requires Good(st) && other != uid
    ensures var r := Step(st, RemoveStream(uid));
            && DecoderOf(r, other) == DecoderOf(st, other)
            && (other in r.params <==> other in st.params)
            && (other in st.params ==> r.params[other] == st.params[other])
            && (uid in r.params ==> r.params[uid] == st.params[uid])
  {
    DropDecSpares(st.decs, uid, other);
    ParamsKept(st, uid, other);
  }

  lemma ParamsKept(st: State, uid: int, other: int)
    requires other != uid
    ensures var r := Remove(st, uid).params;
            && (other in r <==> other in st.params) && (other in st.params ==> r[other] == st.params[other])
            && (uid in r ==> r[uid] == st.params[uid])
  {
  }

  lemma DropDecSpares(decs: seq<Decoder>, uid: int, other: int)
    requires uid != other && DistinctDecs(decs)
    ensures var r, i := DropDec(decs, uid), FindDec(decs, other);
            if i < 0 then FindDec(r, other) < 0
            else 0 <= FindDec(r, other) && r[FindDec(r, other)] == decs[i]
  {
    var r, i, d := DropDec(decs, uid), FindDec(decs, other), FindDec(decs, uid);
    DropDecIs(decs, uid);
    if 0 <= d && 0 <= i {
      DeleteAt(decs, d, if i < d then i else i - 1);
    }
    var k := FindDec(r, other);
    if 0 <= k {
      assert r[k] in decs;
    }
  }

  // removeAllStream forgets everybody.
  lemma RemoveAllForgets(st: State, uid: int)
    ensures var r := Step(st, RemoveAll);
            r.outs == [] && r.decs == [] && uid !in r.params && OutputOf(r, uid).None? && DecoderOf(r, uid).None?
  {
  }

  function OutputOf(st: State, uid: int): Option<Output> {
    var i := FindOut(st.outs, uid);
    if i < 0 then None else Some(st.outs[i])
  }

  lemma {:induction false} PutAllKeepsOutput(outs: seq<Output>, fs: seq<Frame>, uid: int, other: int)
    requires uid != other && forall i :: 0 <= i < |fs| ==> fs[i].uid == uid
    ensures FindOut(PutAll(outs, fs), other) == FindOut(outs, other)
    ensures 0 <= FindOut(outs, other) ==> PutAll(outs, fs)[FindOut(outs, other)] == outs[FindOut(outs, other)]
    decreases |fs|
  {
    if fs == [] {
    } else {
      PutAllKeepsOutput(outs, fs[..|fs| - 1], uid, other);
      PutAudioKeepsOutput(PutAll(outs, fs[..|fs| - 1]), fs[|fs| - 1], other);
    }
  }

  lemma PutAudioKeepsOutput(outs: seq<Output>, f: Frame, other: int)
    requires f.uid != other
    ensures FindOut(PutAudio(outs, f), other) == FindOut(outs, other)
    ensures 0 <= FindOut(outs, other) ==> PutAudio(outs, f)[FindOut(outs, other)] == outs[FindOut(outs, other)]
  {
    var r, i := PutAudio(outs, f), FindOut(outs, other);
    assert forall k :: 0 <= k < |outs| ==> r[k].uid == outs[k].uid;
    if 0 <= i {
      assert r[i].uid == other;
    }
  }
}
