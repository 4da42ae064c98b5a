/** YangVideoDecoderHandles: two parallel vectors, of decoders and of output buffers, that
    every call keeps in step and that refine the one list of streams of VideoStreams. */
module VideoHandles {
  import opened Basics
  import opened VideoStreams

  class VideoDecoder {
    const uid: int
    var state: int
    // What decode has been handed, in order.
    var received: seq<Frame>

    constructor (uid: int)
      ensures this.uid == uid && state == 0 && received == []
    {
      this.uid, state, received := uid, 0, [];
    }
  }

  class VideoBuffer {
    const uid: int
    var frames: seq<Frame>

    constructor (uid: int)
      ensures this.uid == uid && frames == []
    {
      this.uid, frames := uid, [];
    }

    method PutVideo(frame: Frame)
      modifies this
      ensures frames == old(frames) + [frame]
    {
      frames := frames + [frame];
    }
  }

  // The two vectors list the same users in the same order, each once.
  ghost predicate InStep(ds: seq<VideoDecoder>, bs: seq<VideoBuffer>) {
    && |ds| == |bs|
    && (forall i :: 0 <= i < |ds| ==> ds[i].uid == bs[i].uid)
    && (forall i, j :: 0 <= i < j < |ds| ==> ds[i].uid != ds[j].uid)
  }

  // The streams the two vectors stand for.
  ghost function Zip(ds: seq<VideoDecoder>, bs: seq<VideoBuffer>): (ss: seq<Stream>)
    requires InStep(ds, bs)
    reads ds, bs
    ensures |ss| == |ds| && Distinct(ss)
    ensures forall i :: 0 <= i < |ss| ==> ss[i] == Stream(ds[i].uid, ds[i].state, ds[i].received, bs[i].frames)
  {
    seq(|ds|, i requires 0 <= i < |ds| && InStep(ds, bs) reads ds, bs =>
      Stream(ds[i].uid, ds[i].state, ds[i].received, bs[i].frames))
  }

  lemma ZipDelete(ds: seq<VideoDecoder>, bs: seq<VideoBuffer>, i: nat)
    requires InStep(ds, bs) && i < |ds|
    ensures InStep(Delete(ds, i), Delete(bs, i))
    ensures Zip(Delete(ds, i), Delete(bs, i)) == Delete(Zip(ds, bs), i)
  {
    var es, cs := Delete(ds, i), Delete(bs, i);
    assert forall k :: 0 <= k < |es| ==> es[k] == ds[if k < i then k else k + 1];
    assert forall k :: 0 <= k < |cs| ==> cs[k] == bs[if k < i then k else k + 1];
  }

  lemma ZipFind(ds: seq<VideoDecoder>, bs: seq<VideoBuffer>, uid: int, i: nat)
    requires InStep(ds, bs) && i < |ds| && ds[i].uid == uid
    ensures Find(Zip(ds, bs), uid) == i
  {
    assert Zip(ds, bs)[i].uid == uid;
  }

  // Erasing the same position of both vectors, if any.
  lemma Removed(ds: seq<VideoDecoder>, bs: seq<VideoBuffer>, ss: seq<Stream>, i: int,
                es: seq<VideoDecoder>, cs: seq<VideoBuffer>)
    requires InStep(ds, bs) && ss == Zip(ds, bs) && i < |ss|
    requires es == if i < 0 then ds else Delete(ds, i)
    requires cs == if i < 0 then bs else Delete(bs, i)
    ensures InStep(es, cs) && Zip(es, cs) == if i < 0 then ss else Delete(ss, i)
    ensures forall d :: d in es ==> d in ds
    ensures forall b :: b in cs ==> b in bs
  {
    if 0 <= i {
      ZipDelete(ds, bs, i);
    }
  }

  class VideoDecoderHandles {
    var decs: seq<VideoDecoder>
    var outVideoBuffer: seq<VideoBuffer>
    var removeList: seq<int>

    ghost predicate Valid()
      reads this
    {
      InStep(decs, outVideoBuffer)
    }

    ghost function Streams(): seq<Stream>
      requires Valid()
      reads this, decs, outVideoBuffer
    {
      Zip(decs, outVideoBuffer)
    }

    ghost function Abs(): State
      requires Valid()
      reads this, decs, outVideoBuffer
    {
      State(Streams(), removeList)
    }

    // The objects the vectors point to.
    ghost function Pointees(): set<object>
      reads this
    {
      (set d | d in decs) + (set b | b in outVideoBuffer)
    }

    constructor ()
      ensures Valid() && Abs() == State([], []) && fresh(this)
    {
      decs, outVideoBuffer, removeList := [], [], [];
    }

    // getDecoderIndex.
    method GetDecoderIndex(uid: int) returns (index: int)
      requires Valid()
      ensures index == Find(Streams(), uid)
    {
      index := 0;
      while index < |decs|
        invariant 0 <= index <= |decs|
        invariant forall k :: 0 <= k < index ==> decs[k].uid != uid
      {
        if decs[index].uid == uid {
          return;
        }
        index := index + 1;
      }
      index := -1;
    }

    // getDecoder.
    method GetDecoder(uid: int) returns (d: VideoDecoder?)
      requires Valid()
      ensures var i := Find(Streams(), uid); if i < 0 then d == null else d == decs[i]
    {
      for i := 0 to |decs|
        invariant forall k :: 0 <= k < i ==> decs[k].uid != uid
      {
        if decs[i].uid == uid {
          return decs[i];
        }
      }
      d := null;
    }

    // getVideoBuffer.
    method GetVideoBuffer(uid: int) returns (b: VideoBuffer?)
      requires Valid()
      ensures var i := Find(Streams(), uid); if i < 0 then b == null else b == outVideoBuffer[i]
    {
      for i := 0 to |outVideoBuffer|
        invariant forall k :: 0 <= k < i ==> outVideoBuffer[k].uid != uid
      {
        if outVideoBuffer[i].uid == uid {
          return outVideoBuffer[i];
        }
      }
      b := null;
    }

    // removeAllStream.
    method RemoveAllStream()
      requires Valid()
      modifies this
      ensures Valid() && Abs() == Step(old(Abs()), RemoveAll)
    {
      if |outVideoBuffer| == 0 {
        return;
      }
      outVideoBuffer := [];
      if |decs| == 0 {
        return;
      }
      decs := [];
    }

    // The first loop of removeStream.
    method EraseBuffer(uid: int)
      requires Valid()
      modifies this`outVideoBuffer
      ensures var i := Find(old(Streams()), uid);
              outVideoBuffer == if i < 0 then old(outVideoBuffer) else Delete(old(outVideoBuffer), i)
    {
      var i := 0;
      while i < |outVideoBuffer|
        invariant 0 <= i <= |outVideoBuffer| && outVideoBuffer == old(outVideoBuffer)
        invariant forall k :: 0 <= k < i ==> outVideoBuffer[k].uid != uid
      {
        if outVideoBuffer[i].uid == uid {
          outVideoBuffer := Delete(outVideoBuffer, i);
          return;
        }
        i := i + 1;
      }
    }

    // The second loop of removeStream.
    method EraseDecoder(uid: int) returns (found: bool)
      modifies this`decs
      ensures !found ==> decs == old(decs) && forall k :: 0 <= k < |decs| ==> decs[k].uid != uid
      ensures found ==> exists i :: 0 <= i < |old(decs)| && old(decs)[i].uid == uid && decs == Delete(old(decs), i)
    {
      var i := 0;
      while i < |decs|
        invariant 0 <= i <= |decs| && decs == old(decs)
        invariant forall k :: 0 <= k < i ==> decs[k].uid != uid
      {
        if decs[i].uid == uid {
          decs := Delete(decs, i);
          return true;
        }
        i := i + 1;
      }
      return false;
    }

    // One turn of removeStream's loop, and whether it returns.
    method RemoveUser(uid: int) returns (done: bool)
      requires Valid()
      modifies this`outVideoBuffer, this`decs
      ensures var i := Find(old(Streams()), uid);
              && done == (old(decs) == [] || 0 <= i)
              && decs == (if i < 0 then old(decs) else Delete(old(decs), i))
              && outVideoBuffer == (if i < 0 then old(outVideoBuffer) else Delete(old(outVideoBuffer), i))
    {
      ghost var ds, bs := decs, outVideoBuffer;
      EraseBuffer(uid);
      if |decs| == 0 {
        return true;
      }
      done := EraseDecoder(uid);
      if done {
        ghost var i :| 0 <= i < |ds| && ds[i].uid == uid && decs == Delete(ds, i);
        ZipFind(ds, bs, uid, i);
      }
    }

    // removeStream.
    method RemoveStream()
      requires Valid()
      modifies this
      ensures Valid() && Abs() == DropRemovals(old(removeList), old(Streams()))
      ensures Pointees() <= old(Pointees())
    {
      ghost var ds, bs := decs, outVideoBuffer;
      ghost var ss, after := Streams(), DropRemovals(removeList, Streams());
      while |removeList| > 0
        invariant decs == ds && outVideoBuffer == bs && Zip(ds, bs) == ss
        invariant DropRemovals(removeList, ss) == after
        decreases |removeList|
      {
        var uid := removeList[0];
        removeList := removeList[1..];
        var done := RemoveUser(uid);
        Removed(ds, bs, ss, Find(ss, uid), decs, outVideoBuffer);
        if done {
          return;
        }
      }
    }

    // addVideoStream. A stream is added only by the loop, for a user without a decoder.
    method AddVideoStream(uid: int, isAdd: bool)
      requires Valid() && (isAdd ==> Find(Streams(), uid) < 0)
      modifies this
      ensures Valid()
      ensures isAdd ==> Abs() == old(Abs()).(streams := Open(old(Streams()), uid))
      ensures !isAdd ==> Abs() == Step(old(Abs()), RequestRemoval(uid))
    {
      if isAdd {
        var dec := new VideoDecoder(uid);
        decs := decs + [dec];
        var buf := new VideoBuffer(uid);
        outVideoBuffer := outVideoBuffer + [buf];
        assert Streams() == old(Streams()) + [Stream(uid, 0, [], [])];
      } else {
        removeList := removeList + [uid];
      }
    }

    // onVideoData.
    method OnVideoData(frame: Frame)
      requires Valid()
      modifies outVideoBuffer
      ensures Valid()
      ensures Streams() == PutOut(old(Streams()), frame.uid, [frame])
    {
      var b := GetVideoBuffer(frame.uid);
      if b != null {
        b.PutVideo(frame);
        assert Streams() == PutOut(old(Streams()), frame.uid, [frame]);
      }
    }

    // The callback for every picture of one decode call.
    method PutPictures(uid: int, pictures: seq<Frame>)
      requires Valid()
      requires forall k :: 0 <= k < |pictures| ==> pictures[k].uid == uid
      modifies outVideoBuffer
      ensures Valid() && Streams() == PutOut(old(Streams()), uid, pictures)
    {
      ghost var ss := Streams();
      PutOutNothing(ss, uid);
      for n := 0 to |pictures|
        invariant Valid() && Streams() == PutOut(ss, uid, pictures[..n])
      {
        OnVideoData(pictures[n]);
        PutOutTwice(ss, uid, pictures[..n], [pictures[n]]);
        assert pictures[..n + 1] == pictures[..n] + [pictures[n]];
      }
      assert pictures[..|pictures|] == pictures;
    }

    // The part of a turn that follows the parameter-set test.
    method DecodeFrame(input: Frame, pictures: seq<Frame>)
      requires Valid() && forall k :: 0 <= k < |pictures| ==> pictures[k].uid == input.uid
      modifies Pointees()
      ensures Valid() && Streams() == Deliver(old(Streams()), input, pictures)
    {
      var decoder := GetDecoder(input.uid);
      if decoder != null && decoder.state == 0 {
        if input.frametype == 0 {
          return;
        }
        decoder.state := 1;
      }
      var frame := StartCoded(input);
      if decoder != null {
        decoder.received := decoder.received + [frame];
        assert Streams() == Receive(old(Streams()), input);
        PutPictures(frame.uid, pictures);
      }
    }

    // One turn of startLoop; the pictures are what decode calls back with.
    method LoopTurn(input: Option<Frame>, pictures: seq<Frame>)
      requires Valid() && Honest(Turn(input, pictures))
      modifies this, Pointees()
      ensures Valid() && Abs() == Step(old(Abs()), Turn(input, pictures))
    {
      if |removeList| > 0 {
        RemoveStream();
      }
      if input.None? {
        return;
      }
      var frame := input.value;
      if frame.frametype == FRAMETYPE_SPSPPS {
        var index := GetDecoderIndex(frame.uid);
        if index == -1 {
          AddVideoStream(frame.uid, true);
        }
      } else {
        DecodeFrame(frame, pictures);
      }
    }
  }
}
