/** What the video decoder thread means: one list of streams, each with its own decoder
    history and output, and a queue of streams to remove. */
module VideoStreams {
  import opened Basics

  const FRAMETYPE_SPSPPS: int := 9

  datatype Frame = Frame(uid: int, frametype: int, payload: seq<byte>)

  // A user's stream: the decoder's m_state and the frames decoded, and the pictures put out.
  datatype Stream = Stream(uid: int, state: int, received: seq<Frame>, pictures: seq<Frame>)

  datatype State = State(streams: seq<Stream>, removals: seq<int>)

  // The stream of a user: the first match, or -1.
  function Find(ss: seq<Stream>, uid: int): (i: int)
    ensures -1 <= i < |ss|
    ensures 0 <= i ==> ss[i].uid == uid && forall k :: 0 <= k < i ==> ss[k].uid != uid
    ensures i < 0 ==> forall k :: 0 <= k < |ss| ==> ss[k].uid != uid
  {
    First(ss, (x: Stream) => x.uid, uid)
  }

  // One removeStream call: skip requests for absent users, remove at most one stream.
  function DropRemovals(removals: seq<int>, ss: seq<Stream>): (r: State)
    decreases |removals|
  {
    if removals == [] then State(ss, [])
    else if ss == [] then State(ss, removals[1..])
    else
      var i := Find(ss, removals[0]);
      if 0 <= i then State(Delete(ss, i), removals[1..]) else DropRemovals(removals[1..], ss)
  }

  // The decoder is handed the frame behind an Annex-B start code.
  function StartCoded(f: Frame): Frame {
    var n := if |f.payload| < 4 then |f.payload| else 4;
    f.(payload := [0, 0, 0, 1][..n] + f.payload[n..])
  }

  // The user's decoder is handed a frame, unless it still waits for a key frame.
  function Receive(ss: seq<Stream>, f: Frame): seq<Stream> {
    var i := Find(ss, f.uid);
    if i < 0 || (ss[i].state == 0 && f.frametype == 0) then ss
    else ss[i := ss[i].(state := if ss[i].state == 0 then 1 else ss[i].state,
                        received := ss[i].received + [StartCoded(f)])]
  }

  // Pictures go to their user's output.
  function PutOut(ss: seq<Stream>, uid: int, pictures: seq<Frame>): seq<Stream> {
    var i := Find(ss, uid);
    if i < 0 then ss else ss[i := ss[i].(pictures := ss[i].pictures + pictures)]
  }

  // A frame that is not a parameter set, and the pictures its decoding gives back.
  function Deliver(ss: seq<Stream>, f: Frame, pictures: seq<Frame>): seq<Stream> {
    var i := Find(ss, f.uid);
    if i < 0 || (ss[i].state == 0 && f.frametype == 0) then ss
    else PutOut(Receive(ss, f), f.uid, pictures)
  }

  // Changing a stream in place, user kept, does not change who is found where.
  lemma FindStable(ss: seq<Stream>, uid: int, i: nat, d: Stream)
    requires i < |ss| && d.uid == ss[i].uid
    ensures Find(ss[i := d], uid) == Find(ss, uid)
  {
    var t := ss[i := d];
    assert forall k :: 0 <= k < |ss| ==> t[k].uid == ss[k].uid;
    var a, b := Find(ss, uid), Find(t, uid);
    if 0 <= a { assert t[a].uid == uid; }
    if 0 <= b { assert ss[b].uid == uid; }
  }

  lemma PutOutTwice(ss: seq<Stream>, uid: int, a: seq<Frame>, b: seq<Frame>)
    ensures PutOut(PutOut(ss, uid, a), uid, b) == PutOut(ss, uid, a + b)
  {
    var i := Find(ss, uid);
    if 0 <= i {
      FindStable(ss, uid, i, ss[i].(pictures := ss[i].pictures + a));
      assert ss[i].pictures + a + b == ss[i].pictures + (a + b);
    }
  }

  lemma PutOutNothing(ss: seq<Stream>, uid: int)
    ensures PutOut(ss, uid, []) == ss
  {
    var i := Find(ss, uid);
    if 0 <= i {
      assert ss[i].pictures + [] == ss[i].pictures;
    }
  }

  // A parameter set opens the stream of a new user.
  function Open(ss: seq<Stream>, uid: int): seq<Stream> {
    if Find(ss, uid) < 0 then ss + [Stream(uid, 0, [], [])] else ss
  }

  // What can happen to the tables: a loop turn, a removal request, or removal of everything.
  datatype Event =
    | Turn(input: Option<Frame>, pictures: seq<Frame>)
    | RequestRemoval(uid: int)
    | RemoveAll

  function Step(st: State, e: Event): State {
    match e
    case Turn(input, pictures) =>
      var r := DropRemovals(st.removals, st.streams);
      (match input
       case None => r
       case Some(f) =>
         if f.frametype == FRAMETYPE_SPSPPS then r.(streams := Open(r.streams, f.uid))
         else r.(streams := Deliver(r.streams, f, pictures)))
    case RequestRemoval(uid) => st.(removals := st.removals + [uid])
    case RemoveAll => st.(streams := [])
  }

  // The decoder calls back with pictures of the user whose frame it was given.
  predicate Honest(e: Event) {
    e.Turn? && e.input.Some? ==> forall i :: 0 <= i < |e.pictures| ==> e.pictures[i].uid == e.input.value.uid
  }

  function Run(st: State, es: seq<Event>): State
    decreases |es|
  {
    if es == [] then st else Run(Step(st, es[0]), es[1..])
  }

  /* ---- safety over every run ---- */

  ghost predicate Distinct(ss: seq<Stream>) {
    forall i, j :: 0 <= i < j < |ss| ==> ss[i].uid != ss[j].uid
  }

  // A decoder has seen nothing before a frame of non-zero type, no parameter sets, and only
  // its own user's frames; its output holds only that user's pictures.
  ghost predicate Sound(d: Stream) {
    && (d.state == 0 <==> d.received == [])
    && (d.received != [] ==> d.received[0].frametype != 0)
    && (forall i :: 0 <= i < |d.received| ==>
          d.received[i].uid == d.uid && d.received[i].frametype != FRAMETYPE_SPSPPS)
    && (forall i :: 0 <= i < |d.pictures| ==> d.pictures[i].uid == d.uid)
  }

  ghost predicate Safe(ss: seq<Stream>) {
    Distinct(ss) && forall i :: 0 <= i < |ss| ==> Sound(ss[i])
  }

  lemma DeleteIsSafe(ss: seq<Stream>, i: nat)
    requires Safe(ss) && i < |ss|
    ensures Safe(Delete(ss, i))
  {
    var r := Delete(ss, i);
    assert forall k :: 0 <= k < |r| ==> r[k] == ss[if k < i then k else k + 1];
  }

  lemma {:induction false} DropIsSafe(removals: seq<int>, ss: seq<Stream>)
    requires Safe(ss)
    ensures Safe(DropRemovals(removals, ss).streams)
    decreases |removals|
  {
    if removals != [] && ss != [] {
      var i := Find(ss, removals[0]);
      if 0 <= i {
        DeleteIsSafe(ss, i);
      } else {
        DropIsSafe(removals[1..], ss);
      }
    }
  }

  lemma DeliverIsSafe(ss: seq<Stream>, f: Frame, pictures: seq<Frame>)
    requires Safe(ss) && f.frametype != FRAMETYPE_SPSPPS
    requires forall i :: 0 <= i < |pictures| ==> pictures[i].uid == f.uid
    ensures Safe(Deliver(ss, f, pictures))
  {
    var i := Find(ss, f.uid);
    if 0 <= i && !(ss[i].state == 0 && f.frametype == 0) {
      DeliverAt(ss, f, pictures, i);
      assert Sound(ss[i]);
      assert Sound(Deliver(ss, f, pictures)[i]);
    }
  }

  lemma DeliverAt(ss: seq<Stream>, f: Frame, pictures: seq<Frame>, i: nat)
    requires i == Find(ss, f.uid) && !(ss[i].state == 0 && f.frametype == 0)
    ensures Deliver(ss, f, pictures)
         == ss[i := Stream(ss[i].uid, if ss[i].state == 0 then 1 else ss[i].state,
                           ss[i].received + [StartCoded(f)], ss[i].pictures + pictures)]
  {
    FindStable(ss, f.uid, i, Receive(ss, f)[i]);
  }

  lemma StepIsSafe(st: State, e: Event)
    requires Safe(st.streams) && Honest(e)
    ensures Safe(Step(st, e).streams)
  {
    if e.Turn? {
      DropIsSafe(st.removals, st.streams);
      var r := DropRemovals(st.removals, st.streams);
      if e.input.Some? && e.input.value.frametype != FRAMETYPE_SPSPPS {
        DeliverIsSafe(r.streams, e.input.value, e.pictures);
      }
    }
  }

  // In every run from no streams, users are distinct and every decoder starts on a key frame.
  lemma {:induction false} EveryRunIsSafe(st: State, es: seq<Event>)
    requires Safe(st.streams) && forall i :: 0 <= i < |es| ==> Honest(es[i])
    ensures Safe(Run(st, es).streams)
    decreases |es|
  {
    if es == [] {
    } else {
      StepIsSafe(st, es[0]);
      EveryRunIsSafe(Step(st, es[0]), es[1..]);
    }
  }

  // With distinct users the first match is the only match.
  lemma FindIsLookup(ss: seq<Stream>, i: nat)
    requires Distinct(ss) && i < |ss|
    ensures Find(ss, ss[i].uid) == i
  {
  }

  // A frame touches its own user's stream and no other.
  lemma DeliverIsLocal(ss: seq<Stream>, f: Frame, pictures: seq<Frame>)
    ensures |Deliver(ss, f, pictures)| == |ss|
    ensures forall k :: 0 <= k < |ss| && ss[k].uid != f.uid ==> Deliver(ss, f, pictures)[k] == ss[k]
    ensures forall k :: 0 <= k < |ss| ==> Deliver(ss, f, pictures)[k].uid == ss[k].uid
  {
    var i := Find(ss, f.uid);
    if 0 <= i && !(ss[i].state == 0 && f.frametype == 0) {
      DeliverAt(ss, f, pictures, i);
    }
  }

  /* ---- what a turn does ---- */

  // c is f behind an Annex-B start code: its first bytes overwritten with 0, 0, 0, 1.
  ghost predicate Coded(f: Frame, c: Frame) {
    && c.uid == f.uid && c.frametype == f.frametype && |c.payload| == |f.payload|
    && forall k :: 0 <= k < |f.payload| ==> c.payload[k] == if k < 3 then 0 else if k == 3 then 1 else f.payload[k]
  }

  lemma StartCodedIs(f: Frame)
    ensures Coded(f, StartCoded(f))
  {
  }

  // d is was after one more frame and its pictures.
  ghost predicate Decoded(was: Stream, f: Frame, pictures: seq<Frame>, d: Stream) {
    && d.uid == was.uid && d.state == (if was.state == 0 then 1 else was.state)
    && |d.received| == |was.received| + 1 && d.received[..|was.received|] == was.received
    && Coded(f, d.received[|was.received|])
    && d.pictures == was.pictures + pictures
  }

  // A frame that is no parameter set: it is decoded by its own user's decoder and its pictures are put
  // out, unless there is none, or it still waits for a key frame and this is not one.
  lemma TurnDecodes(st: State, f: Frame, pictures: seq<Frame>)
    requires f.frametype != 9
    ensures var ss, r := DropRemovals(st.removals, st.streams).streams, Step(st, Turn(Some(f), pictures)).streams;
            var i := Find(ss, f.uid);
            if i < 0 || (ss[i].state == 0 && f.frametype == 0) then r == ss
            else |r| == |ss| && Decoded(ss[i], f, pictures, r[i]) && r[..i] == ss[..i] && r[i + 1..] == ss[i + 1..]
  {
    var ss := DropRemovals(st.removals, st.streams).streams;
    var i := Find(ss, f.uid);
    if 0 <= i && !(ss[i].state == 0 && f.frametype == 0) {
      DeliverAt(ss, f, pictures, i);
      StartCodedIs(f);
      var r := Deliver(ss, f, pictures);
      assert r[i].received[..|ss[i].received|] == ss[i].received;
    }
  }

  // A parameter set of an unknown user opens a stream at the end, with a waiting decoder and nothing
  // put out; one of a known user changes nothing.
  lemma TurnOpens(st: State, f: Frame, pictures: seq<Frame>)
    requires f.frametype == 9
    ensures var ss, r := DropRemovals(st.removals, st.streams).streams, Step(st, Turn(Some(f), pictures)).streams;
            if Find(ss, f.uid) < 0
            then r == ss + [Stream(f.uid, 0, [], [])] && Find(r, f.uid) == |ss|
            else r == ss
  {
    var ss := DropRemovals(st.removals, st.streams).streams;
    if Find(ss, f.uid) < 0 {
      LastFound(ss, Stream(f.uid, 0, [], []));
    }
  }

  lemma LastFound(ss: seq<Stream>, d: Stream)
    requires Find(ss, d.uid) < 0
    ensures Find(ss + [d], d.uid) == |ss|
  {
    assert (ss + [d])[|ss|] == d;
  }

  // The queue is worked off on every turn, with a frame or without.
  lemma TurnDrops(st: State, e: Event)
    requires e.Turn?
    ensures Step(st, e).removals == DropRemovals(st.removals, st.streams).removals
    ensures e.input.None? ==> Step(st, e).streams == DropRemovals(st.removals, st.streams).streams
  {
  }

  // A parameter set and then a key frame of a new user, with no removal queued: the key frame is the
  // one frame received, and its pictures are all that is put out.
  lemma NewUserIsDecoded(st: State, head: Frame, key: Frame, ignored: seq<Frame>, pictures: seq<Frame>)
    requires st.removals == [] && head.uid == key.uid && Find(st.streams, head.uid) < 0
    requires head.frametype == 9 && key.frametype !in {0, 9}
    ensures var r := Run(st, [Turn(Some(head), ignored), Turn(Some(key), pictures)]).streams;
            && |r| == |st.streams| + 1 && r[..|st.streams|] == st.streams
            && var d := r[|st.streams|];
               && d.uid == key.uid && d.state == 1 && d.pictures == pictures
               && |d.received| == 1 && Coded(key, d.received[0])
  {
    var e1, e2 := Turn(Some(head), ignored), Turn(Some(key), pictures);
    var st1 := Step(st, e1);
    TurnOpens(st, head, ignored);
    TurnDrops(st, e1);
    TurnDecodes(st1, key, pictures);
    RunTwo(st, e1, e2);
    assert st1.streams[..|st.streams|] == st.streams;
  }

  lemma RunTwo(st: State, e1: Event, e2: Event)
    ensures Run(st, [e1, e2]) == Step(Step(st, e1), e2)
  {
    assert [e1, e2][1..] == [e2] && [e2][1..] == [];
    assert Run(Step(st, e1), [e2]) == Step(Step(st, e1), e2);
  }

  // A waiting decoder discards frames of type zero, as many as come.
  lemma {:induction false} WaitingDiscards(st: State, es: seq<Event>, i: nat)
    requires st.removals == [] && i < |st.streams| && Find(st.streams, st.streams[i].uid) == i
    requires st.streams[i].state == 0
    requires forall k :: 0 <= k < |es| ==>
               es[k].Turn? && es[k].input.Some? && es[k].input.value.frametype == 0
               && es[k].input.value.uid == st.streams[i].uid
    ensures Run(st, es) == st
    decreases |es|
  {
    if es == [] {
    } else {
      TurnDecodes(st, es[0].input.value, es[0].pictures);
      TurnDrops(st, es[0]);
      WaitingDiscards(st, es[1..], i);
    }
  }

  /* ---- the removal queue ---- */

  // removeAllStream leaves no stream and the queue as it was.
  lemma RemoveAllIs(st: State, uid: int)
    ensures var r := Step(st, RemoveAll);
            r == State([], st.removals) && Find(r.streams, uid) < 0
  {
  }

  // The first request for a user who is there takes that user's stream out and is the last one
  // consumed; requests before it are dropped.
  lemma {:induction false} DropIs(removals: seq<int>, ss: seq<Stream>, n: nat)
    requires n < |removals| && 0 <= Find(ss, removals[n])
    requires forall k :: 0 <= k < n ==> Find(ss, removals[k]) < 0
    ensures var i := Find(ss, removals[n]);
            DropRemovals(removals, ss) == State(ss[..i] + ss[i + 1..], removals[n + 1..])
    decreases n
  {
    if n == 0 {
    } else {
      DropIs(removals[1..], ss, n - 1);
      assert removals[1..][n..] == removals[n + 1..];
    }
  }

  // Without such a request the streams stay, and the whole queue is dropped unless there was no
  // stream at all, when only its first request is.
  lemma {:induction false} DropNothing(removals: seq<int>, ss: seq<Stream>)
    requires forall k :: 0 <= k < |removals| ==> Find(ss, removals[k]) < 0
    ensures DropRemovals(removals, ss)
         == State(ss, if ss == [] && removals != [] then removals[1..] else [])
    decreases |removals|
  {
    if removals == [] {
    } else if ss != [] {
      DropNothing(removals[1..], ss);
    }
  }

  // r is ss, or ss without one stream whose removal was asked for.
  ghost predicate LosesAtMostOne(ss: seq<Stream>, removals: seq<int>, r: seq<Stream>) {
    r == ss || exists i :: 0 <= i < |ss| && ss[i].uid in removals && r == Delete(ss, i)
  }

  // One call consumes a non-empty prefix of the queue and removes at most one stream.
  lemma {:induction false} DropRemovesOne(removals: seq<int>, ss: seq<Stream>)
    requires removals != []
    ensures var r := DropRemovals(removals, ss);
            |r.removals| < |removals| && r.removals == removals[|removals| - |r.removals|..]
            && LosesAtMostOne(ss, removals, r.streams)
    decreases |removals|
  {
    if ss == [] {
    } else {
      var i, rest := Find(ss, removals[0]), removals[1..];
      if 0 <= i {
        assert ss[i].uid in removals;
      } else if rest != [] {
        DropRemovesOne(rest, ss);
        var r := DropRemovals(rest, ss);
        assert rest[|rest| - |r.removals|..] == removals[|removals| - |r.removals|..];
        assert forall x :: x in rest ==> x in removals;
      }
    }
  }

  ghost predicate Present(ss: seq<Stream>, uid: int) {
    exists i :: 0 <= i < |ss| && ss[i].uid == uid
  }

  // A request still queued, or a user already gone.
  ghost predicate Leaving(st: State, uid: int) {
    Present(st.streams, uid) ==> uid in st.removals
  }

  lemma {:induction false} DropKeepsLeaving(removals: seq<int>, ss: seq<Stream>, uid: int)
    requires Distinct(ss) && Leaving(State(ss, removals), uid)
    ensures Leaving(DropRemovals(removals, ss), uid)
    decreases |removals|
  {
    if removals != [] && ss != [] {
      var i := Find(ss, removals[0]);
      assert removals == [removals[0]] + removals[1..];
      if i < 0 {
        DropKeepsLeaving(removals[1..], ss, uid);
      } else if removals[0] != uid {
        assert Present(Delete(ss, i), uid) ==> Present(ss, uid);
      } else {
        assert !Present(Delete(ss, i), uid);
      }
    }
  }

  // Turns that do not open the user's stream again keep it leaving and drain the queue.
  lemma {:induction false} RemovalTakesEffect(st: State, es: seq<Event>, uid: int)
    requires Safe(st.streams) && Leaving(st, uid)
    requires forall i :: 0 <= i < |es| ==> es[i].Turn? && Honest(es[i]) && !Opens(es[i], uid)
    requires |st.removals| <= |es|
    ensures Run(st, es).removals == [] && !Present(Run(st, es).streams, uid)
    decreases |es|
  {
    if es == [] {
    } else {
      var next := Step(st, es[0]);
      StepIsSafe(st, es[0]);
      if st.removals != [] {
        DropRemovesOne(st.removals, st.streams);
      }
      TurnKeepsLeaving(st, es[0], uid);
      RemovalTakesEffect(next, es[1..], uid);
    }
  }

  // So a request takes effect: after it, as many turns as there are requests leave the user without a
  // stream, if none of them opens it again.
  lemma RequestTakesEffect(st: State, es: seq<Event>, uid: int)
    requires Safe(st.streams) && |st.removals| < |es|
    requires forall i :: 0 <= i < |es| ==> es[i].Turn? && Honest(es[i]) && !Opens(es[i], uid)
    ensures var asked := Step(st, RequestRemoval(uid));
            asked.streams == st.streams && asked.removals == st.removals + [uid]
            && Run(asked, es).removals == [] && !Present(Run(asked, es).streams, uid)
  {
    var asked := Step(st, RequestRemoval(uid));
    assert asked.removals[|st.removals|] == uid;
    RemovalTakesEffect(asked, es, uid);
  }

  ghost predicate Opens(e: Event, uid: int) {
    e.Turn? && e.input.Some? && e.input.value.frametype == FRAMETYPE_SPSPPS && e.input.value.uid == uid
  }

  lemma TurnKeepsLeaving(st: State, e: Event, uid: int)
    requires Safe(st.streams) && Leaving(st, uid) && e.Turn? && !Opens(e, uid)
    ensures Leaving(Step(st, e), uid)
  {
    DropKeepsLeaving(st.removals, st.streams, uid);
    var r := DropRemovals(st.removals, st.streams);
    var next := Step(st, e).streams;
    if e.input.Some? && e.input.value.frametype != FRAMETYPE_SPSPPS {
      DeliverIsLocal(r.streams, e.input.value, e.pictures);
    }
    if Present(next, uid) {
      var i :| 0 <= i < |next| && next[i].uid == uid;
      assert i < |r.streams| && r.streams[i].uid == uid;
    }
  }
}
