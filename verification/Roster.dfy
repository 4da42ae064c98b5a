/** The meeting roster: the users, and the derived lists of whom to hear and whom to see. */
module Roster {
  import opened Basics

  datatype Member = Member(userId: int, userName: seq<byte>, myId: int, roomAdmin: int, micFlag: int, camFlag: int)

  // me is the id of the local user; audio and video list the ids to play.
  datatype State = State(me: int, users: seq<Member>, audio: seq<int>, video: seq<int>)

  // getUserObjIndex and getIndex: first matches, or -1.
  function FindUser(users: seq<Member>, id: int): (i: int)
    ensures -1 <= i < |users|
    ensures 0 <= i ==> users[i].userId == id && forall k :: 0 <= k < i ==> users[k].userId != id
    ensures i < 0 ==> forall k :: 0 <= k < |users| ==> users[k].userId != id
  {
    First(users, (x: Member) => x.userId, id)
  }

  function FindId(v: seq<int>, id: int): (i: int)
    ensures -1 <= i < |v|
    ensures 0 <= i ==> v[i] == id && forall k :: 0 <= k < i ==> v[k] != id
    ensures i < 0 ==> id !in v
  {
    First(v, (x: int) => x, id)
  }

  // A list with an id added at the end if it is new, or its first occurrence erased.
  function Listed(v: seq<int>, id: int, isAdd: bool): seq<int> {
    var i := FindId(v, id);
    if isAdd then (if i < 0 then v + [id] else v) else (if 0 <= i then Delete(v, i) else v)
  }

  // handleAudioStream and handleVideoStream.
  function HandleAudio(st: State, id: int, isAdd: bool): State {
    var i := FindUser(st.users, id);
    if id == st.me || i < 0 then st
    else
      st.(users := st.users[i := st.users[i].(micFlag := if isAdd then 2 else 1)], audio := Listed(st.audio, id, isAdd))
  }

  function HandleVideo(st: State, id: int, isAdd: bool): State {
    var i := FindUser(st.users, id);
    if id == st.me || i < 0 then st
    else
      st.(users := st.users[i := st.users[i].(camFlag := if isAdd then 2 else 1)], video := Listed(st.video, id, isAdd))
  }

  // addUser, once the text is parsed: an id already known is not added again.
  function Add(st: State, u: Member): State {
    var s1 := if FindUser(st.users, u.userId) < 0 then st.(users := st.users + [u]) else st;
    var s2 := if u.micFlag == 2 then HandleAudio(s1, u.userId, true) else s1;
    if u.camFlag == 2 then HandleVideo(s2, u.userId, true) else s2
  }

  // removeVectorUid from position i on: the element after an erased one is skipped.
  function EraseFrom(v: seq<int>, i: nat, id: int): seq<int>
    decreases |v| - i
  {
    if i >= |v| then v
    else if v[i] == id then EraseFrom(Delete(v, i), i + 1, id)
    else EraseFrom(v, i + 1, id)
  }

  // delUser from position i on: likewise.
  function DelFrom(st: State, i: nat, id: int): State
    decreases |st.users| - i
  {
    if i >= |st.users| then st
    else if st.users[i].userId == id then
      var s := HandleVideo(HandleAudio(st, id, false), id, false);
      DelFrom(s.(users := Delete(s.users, i)), i + 1, id)
    else DelFrom(st, i + 1, id)
  }

  function DropIds(st: State, id: int): State {
    st.(audio := EraseFrom(st.audio, 0, id), video := EraseFrom(st.video, 0, id))
  }

  // vector::at throws when the index is out of range, and then nothing has changed.
  datatype Outcome = Done(st: State) | OutOfRange

  // loginHandle.
  function LoginHandle(st: State, ind: int, isAdd: bool): Outcome {
    if ind < 0 then Done(st)
    else if ind >= |st.users| then OutOfRange
    else if isAdd then Done(st)
    else Done(DropIds(st, st.users[ind].userId).(users := Delete(st.users, ind)))
  }

  // logout.
  function Logout(st: State, id: int): Outcome {
    var ind := FindUser(st.users, id);
    if id > -1 && ind < 0 then OutOfRange
    else Done(DropIds(st, id).(users := if id > -1 then Delete(st.users, ind) else st.users))
  }

  function LeaveRoom(st: State): State {
    st.(users := [])
  }

  datatype Event =
    | AddUser(user: Member)
    | DelUser(id: int)
    | Audio(id: int, isAdd: bool)
    | Video(id: int, isAdd: bool)
    | Login(ind: int, isAdd: bool)
    | Leave(id: int)
    | ClearData

  function Settled(st: State, r: Outcome): State {
    match r case Done(s) => s case OutOfRange => st
  }

  function Step(st: State, e: Event): State {
    match e
    case AddUser(u) => Add(st, u)
    case DelUser(id) => DelFrom(st, 0, id)
    case Audio(id, isAdd) => HandleAudio(st, id, isAdd)
    case Video(id, isAdd) => HandleVideo(st, id, isAdd)
    case Login(ind, isAdd) => Settled(st, LoginHandle(st, ind, isAdd))
    case Leave(id) => Settled(st, Logout(st, id))
    case ClearData => st.(users := [], audio := [], video := [])
  }

  function Run(st: State, es: seq<Event>): State
    decreases |es|
  {
    if es == [] then st else Run(Step(st, es[0]), es[1..])
  }

  /* ---- consistency ---- */

  ghost predicate DistinctUsers(users: seq<Member>) {
    forall i, j :: 0 <= i < j < |users| ==> users[i].userId != users[j].userId
  }

  ghost predicate Distinct(v: seq<int>) {
    forall i, j :: 0 <= i < j < |v| ==> v[i] != v[j]
  }

  function MemberOf(users: seq<Member>, id: int): Option<Member> {
    var i := FindUser(users, id);
    if i < 0 then None else Some(users[i])
  }

  // A roster user other than oneself whose microphone (camera) is on.
  predicate Heard(st: State, id: int) {
    var m := MemberOf(st.users, id);
    id != st.me && m.Some? && m.value.micFlag == 2
  }

  predicate Seen(st: State, id: int) {
    var m := MemberOf(st.users, id);
    id != st.me && m.Some? && m.value.camFlag == 2
  }

  // The lists are exactly the users heard and the users seen, each once.
  ghost predicate Consistent(st: State) {
    && DistinctUsers(st.users) && Distinct(st.audio) && Distinct(st.video)
    && (forall id :: id in st.audio <==> Heard(st, id))
    && (forall id :: id in st.video <==> Seen(st, id))
  }

  /* ---- id lists ---- */

  lemma ListedIs(v: seq<int>, id: int, isAdd: bool)
    requires Distinct(v)
    ensures Distinct(Listed(v, id, isAdd))
    ensures forall x :: x in Listed(v, id, isAdd) <==> if x == id then isAdd else x in v
  {
    var r, i := Listed(v, id, isAdd), FindId(v, id);
    if !isAdd && 0 <= i {
      assert forall k :: 0 <= k < |r| ==> r[k] == v[if k < i then k else k + 1];
      forall x | x in v && x != id
        ensures x in r
      {
        var k :| 0 <= k < |v| && v[k] == x;
        DeleteAt(v, i, if k < i then k else k - 1);
      }
    }
  }

  lemma {:induction false} EraseKeepsPrefix(v: seq<int>, i: nat, id: int)
    requires i <= |v|
    ensures i <= |EraseFrom(v, i, id)| && EraseFrom(v, i, id)[..i] == v[..i]
    decreases |v| - i
  {
    if i < |v| {
      if v[i] == id {
        if i < |v| - 1 {
          EraseKeepsPrefix(Delete(v, i), i + 1, id);
          assert Delete(v, i)[..i + 1][..i] == v[..i];
        }
      } else {
        EraseKeepsPrefix(v, i + 1, id);
        assert v[..i + 1][..i] == v[..i];
      }
      assert EraseFrom(v, i, id)[..i] == v[..i];
    }
  }

  // The id standing twice in a row, from position i on.
  ghost predicate Doubled(v: seq<int>, i: nat, id: int) {
    exists k :: i <= k < |v| - 1 && v[k] == id == v[k + 1]
  }

  ghost predicate HasFrom(v: seq<int>, i: nat, id: int) {
    exists k :: i <= k < |v| && v[k] == id
  }

  // Erasing while iterating leaves the id behind exactly when it stands twice in a row.
  lemma {:induction false} EraseMissesDoubled(v: seq<int>, i: nat, id: int)
    requires i <= |v|
    ensures HasFrom(EraseFrom(v, i, id), i, id) <==> Doubled(v, i, id)
    decreases |v| - i
  {
    if i < |v| {
      if v[i] == id {
        MissedAfterErase(v, i, id);
      } else {
        EraseMissesDoubled(v, i + 1, id);
        EraseKeepsPrefix(v, i + 1, id);
        var r := EraseFrom(v, i + 1, id);
        assert r[..i + 1][i] == v[..i + 1][i];
        assert HasFrom(r, i, id) <==> HasFrom(r, i + 1, id);
      }
    }
  }

  // An id standing twice in a row that survives its erasure.
  lemma DoubledSurvives()
    ensures EraseFrom([7, 7], 0, 7) == [7]
  {
    assert Delete([7, 7], 0) == [7];
  }

  lemma MissedAfterErase(v: seq<int>, i: nat, id: int)
    requires i < |v| && v[i] == id
    ensures HasFrom(EraseFrom(v, i, id), i, id) <==> Doubled(v, i, id)
    decreases |v| - i, 0
  {
    var w, r := Delete(v, i), EraseFrom(v, i, id);
    if i + 1 < |v| {
      EraseMissesDoubled(w, i + 1, id);
      EraseKeepsPrefix(w, i + 1, id);
      assert r[i] == r[..i + 1][i] == w[..i + 1][i] == v[i + 1];
      SplitFirst(r, i, id);
      DoubledAfterErase(v, i, id);
    }
  }

  lemma SplitFirst(r: seq<int>, i: nat, id: int)
    requires i < |r|
    ensures HasFrom(r, i, id) <==> r[i] == id || HasFrom(r, i + 1, id)
  {
  }

  lemma DoubledAfterErase(v: seq<int>, i: nat, id: int)
    requires i + 1 < |v| && v[i] == id
    ensures Doubled(v, i, id) <==> v[i + 1] == id || Doubled(Delete(v, i), i + 1, id)
  {
    var w := Delete(v, i);
    assert forall k :: i <= k < |w| ==> w[k] == v[k + 1];
    if Doubled(w, i + 1, id) {
      var k :| i + 1 <= k < |w| - 1 && w[k] == id == w[k + 1];
      assert v[k + 1] == id == v[k + 2];
    }
    if Doubled(v, i, id) && v[i + 1] != id {
      var k :| i <= k < |v| - 1 && v[k] == id == v[k + 1];
      assert w[k - 1] == id == w[k];
    }
  }

  lemma {:induction false} EraseAbsent(v: seq<int>, i: nat, id: int)
    requires i <= |v| && forall k :: i <= k < |v| ==> v[k] != id
    ensures EraseFrom(v, i, id) == v
    decreases |v| - i
  {
    if i < |v| {
      EraseAbsent(v, i + 1, id);
    }
  }

  // In a list without repetitions it erases the id and nothing else.
  lemma {:induction false} EraseIsListed(v: seq<int>, i: nat, id: int)
    requires Distinct(v) && i <= |v| && forall k :: 0 <= k < i ==> v[k] != id
    ensures EraseFrom(v, i, id) == Listed(v, id, false)
    decreases |v| - i
  {
    if i < |v| {
      if v[i] == id {
        var w := Delete(v, i);
        assert forall k :: 0 <= k < |w| ==> w[k] == v[if k < i then k else k + 1];
        if i + 1 <= |w| {
          EraseAbsent(w, i + 1, id);
        }
      } else {
        EraseIsListed(v, i + 1, id);
      }
    }
  }

  /* ---- rosters ---- */

  lemma FindUserIs(users: seq<Member>, i: nat)
    requires DistinctUsers(users) && i < |users|
    ensures FindUser(users, users[i].userId) == i
  {
  }

  lemma AppendMember(users: seq<Member>, u: Member, id: int)
    requires FindUser(users, u.userId) < 0
    ensures MemberOf(users + [u], id) == if id == u.userId then Some(u) else MemberOf(users, id)
    ensures DistinctUsers(users) ==> DistinctUsers(users + [u])
  {
    var r := users + [u];
    var a, b := FindUser(users, id), FindUser(r, id);
    if 0 <= a { assert r[a].userId == id; }
    assert r[|users|] == u;
  }

  lemma UpdateMember(users: seq<Member>, i: nat, u: Member, id: int)
    requires DistinctUsers(users) && i < |users| && u.userId == users[i].userId
    ensures DistinctUsers(users[i := u])
    ensures MemberOf(users[i := u], id) == if id == u.userId then Some(u) else MemberOf(users, id)
  {
    var r := users[i := u];
    assert forall k :: 0 <= k < |users| ==> r[k].userId == users[k].userId;
    var a, b := FindUser(users, id), FindUser(r, id);
    if 0 <= a { assert r[a].userId == id; }
    if 0 <= b { assert users[b].userId == id; }
  }

  lemma DeleteMember(users: seq<Member>, i: nat, id: int)
    requires DistinctUsers(users) && i < |users|
    ensures DistinctUsers(Delete(users, i))
    ensures MemberOf(Delete(users, i), id) == if id == users[i].userId then None else MemberOf(users, id)
  {
    var r := Delete(users, i);
    assert forall k :: 0 <= k < |r| ==> r[k] == users[if k < i then k else k + 1];
    var a := FindUser(users, id);
    if 0 <= a && a != i {
      DeleteAt(users, i, if a < i then a else a - 1);
      FindUserIs(r, if a < i then a else a - 1);
    }
  }

  lemma AudioConsistent(st: State, id: int, isAdd: bool)
    requires DistinctUsers(st.users) && Distinct(st.audio)
    requires forall x :: x != id ==> (x in st.audio <==> Heard(st, x))
    requires id == st.me || FindUser(st.users, id) < 0 ==> (id in st.audio <==> Heard(st, id))
    ensures var r := HandleAudio(st, id, isAdd);
            DistinctUsers(r.users) && Distinct(r.audio)
            && (forall x :: x in r.audio <==> Heard(r, x)) && (forall x :: Seen(r, x) == Seen(st, x))
  {
    var i, r := FindUser(st.users, id), HandleAudio(st, id, isAdd);
    if id != st.me && 0 <= i {
      ListedIs(st.audio, id, isAdd);
      forall x
        ensures Heard(r, x) == (if x == id then isAdd else Heard(st, x)) && Seen(r, x) == Seen(st, x)
      {
        UpdateMember(st.users, i, r.users[i], x);
      }
      UpdateMember(st.users, i, r.users[i], id);
    }
  }

  lemma VideoConsistent(st: State, id: int, isAdd: bool)
    requires DistinctUsers(st.users) && Distinct(st.video)
    requires forall x :: x != id ==> (x in st.video <==> Seen(st, x))
    requires id == st.me || FindUser(st.users, id) < 0 ==> (id in st.video <==> Seen(st, id))
    ensures var r := HandleVideo(st, id, isAdd);
            DistinctUsers(r.users) && Distinct(r.video)
            && (forall x :: x in r.video <==> Seen(r, x)) && (forall x :: Heard(r, x) == Heard(st, x))
  {
    var i, r := FindUser(st.users, id), HandleVideo(st, id, isAdd);
    if id != st.me && 0 <= i {
      ListedIs(st.video, id, isAdd);
      forall x
        ensures Seen(r, x) == (if x == id then isAdd else Seen(st, x)) && Heard(r, x) == Heard(st, x)
      {
        UpdateMember(st.users, i, r.users[i], x);
      }
      UpdateMember(st.users, i, r.users[i], id);
    }
  }

  // One user switched on or off the audio list, and nobody else moved on either list.
  ghost predicate AudioSwitched(st: State, r: State, userId: int, on: bool, id: int) {
    && Consistent(r) && (id in r.audio <==> if id == userId then on else id in st.audio)
    && (id in r.video <==> id in st.video)
  }

  ghost predicate VideoSwitched(st: State, r: State, userId: int, on: bool, id: int) {
    && Consistent(r) && (id in r.video <==> if id == userId then on else id in st.video)
    && (id in r.audio <==> id in st.audio)
  }

  lemma SwitchAudio(st: State, userId: int, on: bool, id: int)
    requires Consistent(st) && userId != st.me && 0 <= FindUser(st.users, userId)
    ensures AudioSwitched(st, HandleAudio(st, userId, on), userId, on, id)
  {
    AudioConsistent(st, userId, on);
    ListedIs(st.audio, userId, on);
  }

  lemma SwitchVideo(st: State, userId: int, on: bool, id: int)
    requires Consistent(st) && userId != st.me && 0 <= FindUser(st.users, userId)
    ensures VideoSwitched(st, HandleVideo(st, userId, on), userId, on, id)
  {
    VideoConsistent(st, userId, on);
    ListedIs(st.video, userId, on);
  }

  lemma AddConsistent(st: State, u: Member)
    requires Consistent(st)
    ensures Consistent(Add(st, u))
  {
    var id := u.userId;
    var s1 := if FindUser(st.users, id) < 0 then st.(users := st.users + [u]) else st;
    forall x
      ensures x != id ==> Heard(s1, x) == Heard(st, x) && Seen(s1, x) == Seen(st, x)
      ensures DistinctUsers(s1.users)
      ensures u.micFlag != 2 ==> Heard(s1, x) == Heard(st, x)
      ensures u.camFlag != 2 ==> Seen(s1, x) == Seen(st, x)
    {
      if FindUser(st.users, id) < 0 {
        AppendMember(st.users, u, x);
      }
    }
    AppendedUser(st, u, s1);
    if u.micFlag == 2 {
      AudioConsistent(s1, id, true);
    }
    var s2 := if u.micFlag == 2 then HandleAudio(s1, id, true) else s1;
    if u.camFlag == 2 {
      SameUsers(s1, id, true);
      VideoConsistent(s2, id, true);
    }
  }

  // After the push the id is on the roster, and oneself is never heard or seen.
  lemma AppendedUser(st: State, u: Member, s1: State)
    requires s1 == if FindUser(st.users, u.userId) < 0 then st.(users := st.users + [u]) else st
    ensures 0 <= FindUser(s1.users, u.userId)
  {
    if FindUser(st.users, u.userId) < 0 {
      AppendMember(st.users, u, u.userId);
    }
  }

  // Adding an unknown user appends exactly that user.
  lemma AddAppends(st: State, u: Member)
    requires FindUser(st.users, u.userId) < 0
    ensures Add(st, u).users == st.users + [u]
  {
    var s1 := st.(users := st.users + [u]);
    AppendedUser(st, u, s1);
    LastFound(s1.users, u);
    assert s1.users[|st.users| := u] == s1.users;
  }

  // An id at the end of a list, or taken out of it at its first place.
  ghost predicate PutOn(v: seq<int>, id: int, r: seq<int>) {
    r == if id in v then v else v + [id]
  }

  ghost predicate TakenOff(v: seq<int>, id: int, r: seq<int>) {
    if id !in v then r == v
    else exists j :: 0 <= j < |v| && v[j] == id && id !in v[..j] && r == v[..j] + v[j + 1..]
  }

  lemma ListedEffect(v: seq<int>, id: int, isAdd: bool)
    ensures if isAdd then PutOn(v, id, Listed(v, id, true)) else TakenOff(v, id, Listed(v, id, false))
  {
    var j := FindId(v, id);
    if 0 <= j {
      assert v[j] == id && id !in v[..j];
    }
  }

  // Switching a known user other than oneself on or off sets that user's flag to 2 or 1, and the id
  // joins or leaves the list; anything else leaves the roster as it was.
  lemma AudioEffect(st: State, id: int, isAdd: bool)
    ensures var i, r := FindUser(st.users, id), HandleAudio(st, id, isAdd);
            if id == st.me || i < 0 then r == st
            else
              && r.me == st.me && r.video == st.video
              && r.users == st.users[..i] + [st.users[i].(micFlag := if isAdd then 2 else 1)] + st.users[i + 1..]
              && (if isAdd then PutOn(st.audio, id, r.audio) else TakenOff(st.audio, id, r.audio))
  {
    ListedEffect(st.audio, id, isAdd);
    var i := FindUser(st.users, id);
    if 0 <= i {
      var u := st.users[i].(micFlag := if isAdd then 2 else 1);
      assert st.users[i := u] == st.users[..i] + [u] + st.users[i + 1..];
    }
  }

  lemma VideoEffect(st: State, id: int, isAdd: bool)
    ensures var i, r := FindUser(st.users, id), HandleVideo(st, id, isAdd);
            if id == st.me || i < 0 then r == st
            else
              && r.me == st.me && r.audio == st.audio
              && r.users == st.users[..i] + [st.users[i].(camFlag := if isAdd then 2 else 1)] + st.users[i + 1..]
              && (if isAdd then PutOn(st.video, id, r.video) else TakenOff(st.video, id, r.video))
  {
    ListedEffect(st.video, id, isAdd);
    var i := FindUser(st.users, id);
    if 0 <= i {
      var u := st.users[i].(camFlag := if isAdd then 2 else 1);
      assert st.users[i := u] == st.users[..i] + [u] + st.users[i + 1..];
    }
  }

  // What adding another user's record does to the lists: the flags of value 2 put the id on.
  ghost predicate Enlisted(st: State, r: State, u: Member) {
    && r.me == st.me
    && (if u.micFlag == 2 then PutOn(st.audio, u.userId, r.audio) else r.audio == st.audio)
    && (if u.camFlag == 2 then PutOn(st.video, u.userId, r.video) else r.video == st.video)
  }

  // The record of an unknown user other than oneself is appended and enlisted.
  lemma AddUnknown(st: State, u: Member)
    requires FindUser(st.users, u.userId) < 0 && u.userId != st.me
    ensures Add(st, u).users == st.users + [u] && Enlisted(st, Add(st, u), u)
  {
    var s1 := st.(users := st.users + [u]);
    AddAppends(st, u);
    LastFound(s1.users, u);
    AudioEffect(s1, u.userId, true);
    var s2 := if u.micFlag == 2 then HandleAudio(s1, u.userId, true) else s1;
    LastFound(s2.users, u);
    VideoEffect(s2, u.userId, true);
  }

  // The record of a known user other than oneself only switches on: the entry keeps everything but
  // the flags that come as 2.
  lemma AddKnown(st: State, u: Member, i: nat)
    requires i == FindUser(st.users, u.userId) && u.userId != st.me
    ensures Enlisted(st, Add(st, u), u)
    ensures var was := st.users[i];
            Add(st, u).users == st.users[i := was.(micFlag := if u.micFlag == 2 then 2 else was.micFlag,
                                                   camFlag := if u.camFlag == 2 then 2 else was.camFlag)]
  {
    var s2 := if u.micFlag == 2 then HandleAudio(st, u.userId, true) else st;
    AudioEffect(st, u.userId, true);
    FindKept(st.users, i, s2.users[i]);
    VideoEffect(s2, u.userId, true);
  }

  // Either way the roster stays consistent, and nobody else's place on a list changes.
  lemma AddListed(st: State, u: Member, id: int)
    requires Consistent(st) && u.userId != st.me
    ensures Consistent(Add(st, u))
    ensures FindUser(st.users, u.userId) < 0 ==> Add(st, u).users == st.users + [u]
    ensures id in Add(st, u).audio <==> id in st.audio || (id == u.userId && u.micFlag == 2)
    ensures id in Add(st, u).video <==> id in st.video || (id == u.userId && u.camFlag == 2)
    ensures FindUser(st.users, u.userId) < 0 ==> u.userId !in st.audio && u.userId !in st.video
  {
    AddConsistent(st, u);
    if FindUser(st.users, u.userId) < 0 {
      AddUnknown(st, u);
      assert !Heard(st, u.userId) && !Seen(st, u.userId);
    } else {
      AddKnown(st, u, FindUser(st.users, u.userId));
    }
  }

  lemma FindKept(users: seq<Member>, i: nat, u: Member)
    requires i == FindUser(users, u.userId)
    ensures FindUser(users[i := u], u.userId) == i
  {
    var r := users[i := u];
    assert forall k :: 0 <= k < |users| ==> r[k].userId == users[k].userId;
  }

  // One's own record is appended if it is missing, and never listed.
  lemma AddSelf(st: State, u: Member)
    requires u.userId == st.me
    ensures Add(st, u) == if FindUser(st.users, u.userId) < 0 then st.(users := st.users + [u]) else st
  {
  }

  lemma LastFound(users: seq<Member>, u: Member)
    requires users != [] && users[|users| - 1] == u && FindUser(users[..|users| - 1], u.userId) < 0
    ensures FindUser(users, u.userId) == |users| - 1
  {
    var i := FindUser(users, u.userId);
    assert forall k :: 0 <= k < |users| - 1 ==> users[k] == users[..|users| - 1][k];
  }

  lemma SameUsers(st: State, id: int, isAdd: bool)
    requires DistinctUsers(st.users)
    ensures forall x :: 0 <= FindUser(st.users, x) ==> 0 <= FindUser(HandleAudio(st, id, isAdd).users, x)
  {
    var i, r := FindUser(st.users, id), HandleAudio(st, id, isAdd);
    if id != st.me && 0 <= i {
      forall x | 0 <= FindUser(st.users, x)
        ensures 0 <= FindUser(r.users, x)
      {
        UpdateMember(st.users, i, r.users[i], x);
      }
    }
  }

  // The roster without one member, and the lists without that member's id.
  function Without(st: State, i: nat): State
    requires i < |st.users|
  {
    var id := st.users[i].userId;
    State(st.me, Delete(st.users, i), Listed(st.audio, id, false), Listed(st.video, id, false))
  }

  lemma WithoutConsistent(st: State, i: nat)
    requires Consistent(st) && i < |st.users|
    ensures Consistent(Without(st, i))
  {
    var r, id := Without(st, i), st.users[i].userId;
    ListedIs(st.audio, id, false);
    ListedIs(st.video, id, false);
    forall x
      ensures Heard(r, x) == (x != id && Heard(st, x)) && Seen(r, x) == (x != id && Seen(st, x))
      ensures DistinctUsers(r.users)
    {
      DeleteMember(st.users, i, x);
    }
  }

  lemma DropIdsIs(st: State, id: int)
    requires Consistent(st)
    ensures DropIds(st, id) == st.(audio := Listed(st.audio, id, false), video := Listed(st.video, id, false))
  {
    EraseIsListed(st.audio, 0, id);
    EraseIsListed(st.video, 0, id);
  }

  lemma ListedAbsent(v: seq<int>, id: int)
    requires id !in v
    ensures Listed(v, id, false) == v
  {
  }

  // delUser, which erases while iterating, removes the user and nobody else.
  lemma {:induction false} DelIsWithout(st: State, i: nat, id: int)
    requires Consistent(st) && i <= |st.users| && forall k :: 0 <= k < i ==> st.users[k].userId != id
    ensures var at := FindUser(st.users, id);
            DelFrom(st, i, id) == if at < 0 then st else Without(st, at)
    decreases |st.users| - i
  {
    if i < |st.users| {
      if st.users[i].userId == id {
        DelHere(st, i, id);
      } else {
        DelIsWithout(st, i + 1, id);
      }
    }
  }

  lemma DelHere(st: State, i: nat, id: int)
    requires Consistent(st) && i < |st.users| && st.users[i].userId == id
    ensures DelFrom(st, i, id) == Without(st, i)
  {
    var s := HandleVideo(HandleAudio(st, id, false), id, false);
    SilencedUser(st, i, id);
    var t := s.(users := Delete(s.users, i));
    DeletedUsers(st.users, s.users, i);
    if i + 1 <= |t.users| {
      DelAbsent(t, i + 1, id);
    }
  }

  // Switching a user off changes that user's entry and the lists.
  lemma SilencedUser(st: State, i: nat, id: int)
    requires Consistent(st) && i < |st.users| && st.users[i].userId == id
    ensures var s := HandleVideo(HandleAudio(st, id, false), id, false);
            |s.users| == |st.users| && s.users == st.users[i := s.users[i]]
            && s == State(st.me, s.users, Listed(st.audio, id, false), Listed(st.video, id, false))
  {
    FindUserIs(st.users, i);
    var a := HandleAudio(st, id, false);
    if id != st.me {
      UpdateMember(st.users, i, a.users[i], id);
      FindUserIs(a.users, i);
    } else {
      ListedAbsent(st.audio, id);
      ListedAbsent(st.video, id);
    }
  }

  lemma DeletedUsers(users: seq<Member>, changed: seq<Member>, i: nat)
    requires DistinctUsers(users) && i < |users| == |changed| && changed == users[i := changed[i]]
    ensures Delete(changed, i) == Delete(users, i)
    ensures forall k :: 0 <= k < |users| - 1 ==> Delete(users, i)[k].userId != users[i].userId
  {
    var t := Delete(users, i);
    assert forall k :: 0 <= k < |t| ==> t[k] == users[if k < i then k else k + 1];
  }

  lemma {:induction false} DelAbsent(st: State, i: nat, id: int)
    requires i <= |st.users| && forall k :: i <= k < |st.users| ==> st.users[k].userId != id
    ensures DelFrom(st, i, id) == st
    decreases |st.users| - i
  {
    if i < |st.users| {
      DelAbsent(st, i + 1, id);
    }
  }

  // logout leaves the lists true to the roster exactly when the id is not negative or not listed:
  // a negative id is struck from the lists but not from the roster.
  lemma LogoutConsistent(st: State, id: int)
    requires Consistent(st)
    ensures Consistent(Settled(st, Logout(st, id))) <==> 0 <= id || (id !in st.audio && id !in st.video)
  {
    var r := Settled(st, Logout(st, id));
    DropIdsIs(st, id);
    if id > -1 && 0 <= FindUser(st.users, id) {
      WithoutConsistent(st, FindUser(st.users, id));
    } else if id < 0 {
      ListedIs(st.audio, id, false);
      ListedIs(st.video, id, false);
      if id !in st.audio { ListedAbsent(st.audio, id); } else { assert Heard(r, id) && id !in r.audio; }
      if id !in st.video { ListedAbsent(st.video, id); } else { assert Seen(r, id) && id !in r.video; }
    }
  }

  // A known user with an id that is not negative is taken out of roster and lists, and nobody else
  // is touched; a negative id is struck from the lists, but the user stays on the roster.
  lemma LogoutIs(st: State, id: int)
    requires Consistent(st) && 0 <= FindUser(st.users, id)
    ensures 0 <= id ==> Logout(st, id) == Done(Without(st, FindUser(st.users, id)))
    ensures id < 0 ==>
              Logout(st, id) == Done(st.(audio := Listed(st.audio, id, false), video := Listed(st.video, id, false)))
              && 0 <= FindUser(Settled(st, Logout(st, id)).users, id)
  {
    DropIdsIs(st, id);
  }

  // loginHandle of a leaving user does the same, whatever the id; an arriving one changes nothing, a
  // negative index is ignored, and one past the end throws.
  lemma LoginHandleIs(st: State, ind: int, isAdd: bool)
    requires Consistent(st)
    ensures 0 <= ind < |st.users| && !isAdd ==> LoginHandle(st, ind, isAdd) == Done(Without(st, ind))
    ensures ind < 0 || (ind < |st.users| && isAdd) ==> LoginHandle(st, ind, isAdd) == Done(st)
    ensures |st.users| <= ind ==> LoginHandle(st, ind, isAdd) == OutOfRange
  {
    if 0 <= ind < |st.users| {
      DropIdsIs(st, st.users[ind].userId);
    }
  }

  // After clearData nobody is left, heard or seen.
  lemma ClearForgets(st: State, id: int)
    ensures var r := Step(st, ClearData);
            r == State(st.me, [], [], []) && Consistent(r) && !Heard(r, id) && !Seen(r, id)
  {
  }

  // A negative id for which logout breaks the roster.
  lemma NegativeLogoutBreaks()
    ensures var st := State(1, [Member(-5, [65], 0, 0, 2, 1)], [-5], []);
            Consistent(st) && !Consistent(Settled(st, Logout(st, -5)))
  {
    var u := Member(-5, [65], 0, 0, 2, 1);
    var st := State(1, [u], [-5], []);
    forall x
      ensures (x in st.audio <==> Heard(st, x)) && (x in st.video <==> Seen(st, x))
    {
      AppendMember([], u, x);
      assert [] + [u] == [u];
    }
    LogoutConsistent(st, -5);
  }

  // leaveRoom empties the roster but not the lists.
  lemma LeaveRoomConsistent(st: State)
    requires Consistent(st)
    ensures Consistent(LeaveRoom(st)) <==> st.audio == [] && st.video == []
    ensures LeaveRoom(st) == State(st.me, [], st.audio, st.video)
  {
    var r := LeaveRoom(st);
    assert st.audio != [] ==> st.audio[0] in r.audio && !Heard(r, st.audio[0]);
    assert st.video != [] ==> st.video[0] in r.video && !Seen(r, st.video[0]);
  }

  // A roster that leaveRoom breaks.
  lemma LeaveRoomBreaks()
    ensures var st := State(1, [Member(5, [65], 0, 0, 2, 1)], [5], []);
            Consistent(st) && !Consistent(LeaveRoom(st))
  {
    var u := Member(5, [65], 0, 0, 2, 1);
    var st := State(1, [u], [5], []);
    forall x
      ensures (x in st.audio <==> Heard(st, x)) && (x in st.video <==> Seen(st, x))
    {
      AppendMember([], u, x);
      assert [] + [u] == [u];
    }
    LeaveRoomConsistent(st);
  }

  predicate Harmless(st: State, e: Event) {
    e.Leave? ==> 0 <= e.id || (e.id !in st.audio && e.id !in st.video)
  }

  lemma StepConsistent(st: State, e: Event)
    requires Consistent(st) && Harmless(st, e)
    ensures Consistent(Step(st, e))
  {
    match e
    case AddUser(u) => AddConsistent(st, u);
    case DelUser(id) =>
      DelIsWithout(st, 0, id);
      if 0 <= FindUser(st.users, id) { WithoutConsistent(st, FindUser(st.users, id)); }
    case Audio(id, isAdd) => AudioConsistent(st, id, isAdd);
    case Video(id, isAdd) => VideoConsistent(st, id, isAdd);
    case Login(ind, isAdd) =>
      if 0 <= ind < |st.users| && !isAdd {
        DropIdsIs(st, st.users[ind].userId);
        WithoutConsistent(st, ind);
      }
    case Leave(id) => LogoutConsistent(st, id);
    case ClearData =>
  }

  // In every run without a logout of a listed negative id, the lists stay true to the roster.
  ghost predicate HarmlessRun(st: State, es: seq<Event>)
    decreases |es|
  {
    es != [] ==> Harmless(st, es[0]) && HarmlessRun(Step(st, es[0]), es[1..])
  }

  lemma {:induction false} EveryRunConsistent(st: State, es: seq<Event>)
    requires Consistent(st) && HarmlessRun(st, es)
    ensures Consistent(Run(st, es))
    decreases |es|
  {
    if es == [] {
    } else {
      StepConsistent(st, es[0]);
      EveryRunConsistent(Step(st, es[0]), es[1..]);
    }
  }
}
