/** YangAudioDecoderHandles: output buffers and the play buffers attached to them, decoders
    and parameters, kept together by every call so that they refine AudioStreams. */
module AudioHandles {
  import opened Basics
  import opened AudioStreams

  class AudioPlayBuffer {
    const uid: int
    var frames: seq<Frame>

    constructor (uid: int)
      ensures this.uid == uid && frames == []
    {
      this.uid, frames := uid, [];
    }

    method PutAudio(frame: Frame)
      modifies this
      ensures frames == old(frames) + [frame]
    {
      frames := frames + [frame];
    }
  }

  // A player's view of a user: the output buffer it reads from.
  class SynBuffer {
    const uid: int
    const inAudio: AudioPlayBuffer

    constructor (uid: int, inAudio: AudioPlayBuffer)
      ensures this.uid == uid && this.inAudio == inAudio
    {
      this.uid, this.inAudio := uid, inAudio;
    }
  }

  class AudioDecoder {
    const uid: int
    const param: AudioParam

    constructor (uid: int, param: AudioParam)
      ensures this.uid == uid && this.param == param
    {
      this.uid, this.param := uid, param;
    }
  }

  // The players list the outputs' users in the same order, each attached to its output.
  ghost predicate InStep(outs: seq<AudioPlayBuffer>, plays: seq<SynBuffer>) {
    && |outs| == |plays|
    && (forall i :: 0 <= i < |outs| ==> plays[i].uid == outs[i].uid && plays[i].inAudio == outs[i])
    && (forall i, j :: 0 <= i < j < |outs| ==> outs[i].uid != outs[j].uid)
  }

  ghost function Outputs(outs: seq<AudioPlayBuffer>): (r: seq<Output>)
    reads outs
    ensures |r| == |outs|
    ensures forall i :: 0 <= i < |r| ==> r[i] == Output(outs[i].uid, outs[i].frames)
  {
    seq(|outs|, i requires 0 <= i < |outs| reads outs => Output(outs[i].uid, outs[i].frames))
  }

  ghost function Decoders(decs: seq<AudioDecoder>): (r: seq<Decoder>)
    ensures |r| == |decs|
    ensures forall i :: 0 <= i < |r| ==> r[i] == Decoder(decs[i].uid, decs[i].param)
  {
    seq(|decs|, i requires 0 <= i < |decs| => Decoder(decs[i].uid, decs[i].param))
  }

  lemma OutputsDelete(outs: seq<AudioPlayBuffer>, i: nat)
    requires i < |outs|
    ensures Outputs(Delete(outs, i)) == Delete(Outputs(outs), i)
  {
  }

  lemma OutputsAppend(outs: seq<AudioPlayBuffer>, b: AudioPlayBuffer)
    ensures Outputs(outs + [b]) == Outputs(outs) + [Output(b.uid, b.frames)]
  {
  }

  lemma DecodersDelete(decs: seq<AudioDecoder>, i: nat)
    requires i < |decs|
    ensures Decoders(Delete(decs, i)) == Delete(Decoders(decs), i)
  {
  }

  lemma InStepDelete(outs: seq<AudioPlayBuffer>, plays: seq<SynBuffer>, i: nat)
    requires InStep(outs, plays) && i < |outs|
    ensures InStep(Delete(outs, i), Delete(plays, i))
  {
    var r, t := Delete(outs, i), Delete(plays, i);
    assert forall k :: 0 <= k < |r| ==> r[k] == outs[if k < i then k else k + 1];
    assert forall k :: 0 <= k < |t| ==> t[k] == plays[if k < i then k else k + 1];
  }

  class AudioDecoderHandles {
    var decs: seq<AudioDecoder>
    var outAudioBuffer: seq<AudioPlayBuffer>
    var playBuffers: seq<SynBuffer>
    var paramMap: map<int, AudioParam>
    // The local audio configuration.
    const config: AudioParam

    ghost predicate Valid()
      reads this
    {
      InStep(outAudioBuffer, playBuffers)
    }

    ghost function Abs(): State
      reads this, outAudioBuffer
    {
      State(Outputs(outAudioBuffer), Decoders(decs), paramMap)
    }

    ghost function Pointees(): set<object>
      reads this
    {
      set b | b in outAudioBuffer
    }

    constructor (config: AudioParam)
      ensures Valid() && Abs() == State([], [], map[]) && this.config == config
    {
      decs, outAudioBuffer, playBuffers, paramMap := [], [], [], map[];
      this.config := config;
    }

    // setRemoteParam.
    method SetRemoteParam(uid: int, encode: int, sample: int, channel: int)
      requires Valid()
      modifies this
      ensures Valid() && Abs() == Step(old(Abs()), SetParam(uid, encode, sample, channel, config.fec))
    {
      paramMap := paramMap[uid := AudioParam(encode, sample, channel, config.fec)];
    }

    // streams.getIndex.
    method GetIndex(uid: int) returns (ind: int)
      requires Valid()
      ensures ind == FindOut(Outputs(outAudioBuffer), uid)
    {
      for i := 0 to |playBuffers|
        invariant forall k :: 0 <= k < i ==> playBuffers[k].uid != uid
      {
        if playBuffers[i].uid == uid {
          return i;
        }
      }
      ind := -1;
    }

    // getDecoder.
    method GetDecoder(uid: int) returns (d: AudioDecoder?)
      ensures var i := FindDec(Decoders(decs), uid); if i < 0 then d == null else d == decs[i]
    {
      for i := 0 to |decs|
        invariant forall k :: 0 <= k < i ==> decs[k].uid != uid
      {
        if decs[i].uid == uid {
          return decs[i];
        }
      }
      d := null;
    }

    // getAudioBuffer.
    method GetAudioBuffer(uid: int) returns (b: AudioPlayBuffer?)
      ensures var i := FindOut(Outputs(outAudioBuffer), uid); if i < 0 then b == null else b == outAudioBuffer[i]
    {
      for i := 0 to |outAudioBuffer|
        invariant forall k :: 0 <= k < i ==> outAudioBuffer[k].uid != uid
      {
        if outAudioBuffer[i].uid == uid {
          return outAudioBuffer[i];
        }
      }
      b := null;
    }

    // removeAllStream.
    method RemoveAllStream()
      requires Valid()
      modifies this
      ensures Valid() && Abs() == Step(old(Abs()), RemoveAll)
    {
      if |playBuffers| > 0 {
        playBuffers := [];
      }
      if |decs| > 0 {
        decs := [];
      }
      if |outAudioBuffer| > 0 {
        outAudioBuffer := [];
      }
      paramMap := map[];
    }

    // The decoder loop of removeAudioStream.
    method EraseDecoder(uid: int)
      modifies this`decs
      ensures Decoders(decs) == DropDec(Decoders(old(decs)), uid)
    {
      var i := 0;
      while i < |decs|
        invariant 0 <= i <= |decs| && decs == old(decs)
        invariant forall k :: 0 <= k < i ==> decs[k].uid != uid
      {
        if decs[i].uid == uid {
          DecodersDelete(decs, i);
          decs := Delete(decs, i);
          return;
        }
        i := i + 1;
      }
    }

    // The output loop of removeAudioStream.
    method EraseOutput(uid: int) returns (found: bool)
      modifies this`outAudioBuffer
      ensures var i := old(FindOut(Outputs(outAudioBuffer), uid));
              found == (0 <= i)
              && outAudioBuffer == if i < 0 then old(outAudioBuffer) else Delete(old(outAudioBuffer), i)
      ensures Outputs(outAudioBuffer) == old(DropOut(Outputs(outAudioBuffer), uid))
    {
      var i := 0;
      while i < |outAudioBuffer|
        invariant 0 <= i <= |outAudioBuffer| && outAudioBuffer == old(outAudioBuffer)
        invariant forall k :: 0 <= k < i ==> outAudioBuffer[k].uid != uid
      {
        if outAudioBuffer[i].uid == uid {
          OutputsDelete(outAudioBuffer, i);
          outAudioBuffer := Delete(outAudioBuffer, i);
          return true;
        }
        i := i + 1;
      }
      return false;
    }

    // The play-buffer part of removeAudioStream.
    method ErasePlayBuffer(uid: int)
      requires Valid()
      modifies this`playBuffers
      ensures var i := FindOut(Outputs(outAudioBuffer), uid);
              if i < 0 then playBuffers == old(playBuffers)
              else playBuffers == Delete(old(playBuffers), i) && InStep(Delete(outAudioBuffer, i), playBuffers)
    {
      var ind := GetIndex(uid);
      if ind > -1 {
        InStepDelete(outAudioBuffer, playBuffers, ind);
        playBuffers := Delete(playBuffers, ind);
      }
    }

    // removeAudioStream.
    method RemoveAudioStream(uid: int)
      requires Valid()
      modifies this
      ensures Valid() && Abs() == Step(old(Abs()), RemoveStream(uid))
    {
      ghost var st := Abs();
      ErasePlayBuffer(uid);
      assert Outputs(outAudioBuffer) == st.outs;
      EraseDecoder(uid);
      assert Outputs(outAudioBuffer) == st.outs;
      var found := EraseOutput(uid);
      if found {
        return;
      }
      paramMap := paramMap - {uid};
    }

    // The first half of onAudioData, for a user without an output.
    method OpenOutput(uid: int) returns (b: AudioPlayBuffer)
      requires Valid() && FindOut(Outputs(outAudioBuffer), uid) < 0
      modifies this`outAudioBuffer, this`playBuffers
      ensures Valid() && fresh(b) && outAudioBuffer == old(outAudioBuffer) + [b]
      ensures b.uid == uid && b.frames == []
    {
      b := new AudioPlayBuffer(uid);
      var ind := GetIndex(uid);
      outAudioBuffer := outAudioBuffer + [b];
      if ind == -1 {
        var syn := new SynBuffer(uid, b);
        playBuffers := playBuffers + [syn];
      }
    }

    // onAudioData.
    method OnAudioData(frame: Frame)
      requires Valid()
      modifies this`outAudioBuffer, this`playBuffers, Pointees()
      ensures Valid()
      ensures Outputs(outAudioBuffer) == old(PutAudio(Outputs(outAudioBuffer), frame))
      ensures fresh(Pointees() - old(Pointees()))
    {
      ghost var outs, before := outAudioBuffer, Outputs(outAudioBuffer);
      var b := GetAudioBuffer(frame.uid);
      if b == null {
        b := OpenOutput(frame.uid);
        assert b !in outs && Outputs(outs) == before;
        b.PutAudio(frame);
        assert Outputs(outs) == before;
        OutputsAppend(outs, b);
        assert b.frames == [frame];
      } else {
        b.PutAudio(frame);
        assert Outputs(outAudioBuffer) == PutAudio(before, frame);
      }
    }

    // The part of a turn before decode: a decoder for the user, created if missing.
    method EnsureDecoder(uid: int)
      requires Valid()
      modifies this`decs, this`paramMap
      ensures Valid() && Abs() == WithDecoder(old(Abs()), uid, config)
    {
      var decoder := GetDecoder(uid);
      if decoder == null {
        var param;
        if uid in paramMap {
          param := paramMap[uid];
        } else {
          param := config;
          paramMap := paramMap[uid := param];
        }
        decoder := new AudioDecoder(uid, param);
        decs := decs + [decoder];
        assert Decoders(decs) == Decoders(old(decs)) + [Decoder(uid, param)];
      }
    }

    // One turn of startLoop that takes a frame of the user; decode calls back with audio.
    method LoopTurn(uid: int, decoded: seq<Frame>)
      requires Valid() && Honest(Turn(uid, config, decoded))
      modifies this, Pointees()
      ensures Valid() && Abs() == Step(old(Abs()), Turn(uid, config, decoded))
    {
      EnsureDecoder(uid);
      ghost var mid := Abs();
      ghost var ds, ps := decs, paramMap;
      assert decoded[..0] == [];
      for n := 0 to |decoded|
        invariant Valid() && decs == ds && paramMap == ps
        invariant Outputs(outAudioBuffer) == PutAll(mid.outs, decoded[..n])
        invariant fresh(Pointees() - old(Pointees()))
      {
        OnAudioData(decoded[n]);
        PutAllStep(mid.outs, decoded, n);
      }
      assert decoded[..|decoded|] == decoded;
    }
  }

  lemma PutAllStep(outs: seq<Output>, fs: seq<Frame>, n: nat)
    requires n < |fs|
    ensures PutAll(outs, fs[..n + 1]) == PutAudio(PutAll(outs, fs[..n]), fs[n])
  {
    assert fs[..n + 1][..n] == fs[..n];
  }
}
