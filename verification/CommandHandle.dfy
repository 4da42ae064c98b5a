/** YangCommandHandle and YangUserData: the loops that cut texts apart, the buffer that is
    filled byte by byte, and the dispatch of received messages to the roster. */
module CommandHandle {
  import opened Basics
  import opened Words
  import opened BitStream
  import opened CommandText
  import Roster
  import UserDataBase

  /* ---- what a received message does to the roster ---- */

  // handleCommand.
  function Obey(st: Roster.State, c: Parsed): Roster.State
    requires c.Command?
  {
    if c.userId == st.me then st
    else if c.commandId == COMMAND_LOGIN then Roster.Add(st, ParseUser(c.content))
    else if c.commandId == COMMAND_PUB_CAM then Roster.HandleVideo(st, c.userId, true)
    else if c.commandId == COMMAND_PUB_CAM_CLOSE then Roster.HandleVideo(st, c.userId, false)
    else if c.commandId == COMMAND_PUB_MIC then Roster.HandleAudio(st, c.userId, true)
    else if c.commandId == COMMAND_PUB_MIC_CLOSE then Roster.HandleAudio(st, c.userId, false)
    else st
  }

  // getConfUserInfosResult.
  function AddAll(st: Roster.State, records: seq<Text>): Roster.State
    decreases |records|
  {
    if records == [] then st
    else Roster.Add(AddAll(st, records[..|records| - 1]), ParseUser(records[|records| - 1]))
  }

  // handleMessage, on a payload of the announced length.
  function Deliver(st: Roster.State, messageType: byte, data: Text): Roster.State {
    if messageType == MESSAGE_ROOM_INFO_USERS then AddAll(st, Fields(data, BAR))
    else if messageType == MESSAGE_COMMAND then
      var c := ParseCommand(data, st.me);
      if c.Command? then Obey(st, c) else st
    else st
  }

  // Whatever arrives, the roster stays consistent.
  lemma DeliverConsistent(st: Roster.State, messageType: byte, data: Text)
    requires Roster.Consistent(st)
    ensures Roster.Consistent(Deliver(st, messageType, data))
  {
    if messageType == MESSAGE_ROOM_INFO_USERS {
      AddAllConsistent(st, Fields(data, BAR));
    } else if messageType == MESSAGE_COMMAND {
      var c := ParseCommand(data, st.me);
      if c.Command? {
        Roster.AddConsistent(st, ParseUser(c.content));
        Roster.AudioConsistent(st, c.userId, c.commandId == COMMAND_PUB_MIC);
        Roster.VideoConsistent(st, c.userId, c.commandId == COMMAND_PUB_CAM);
      }
    }
  }

  lemma {:induction false} AddAllConsistent(st: Roster.State, records: seq<Text>)
    requires Roster.Consistent(st)
    ensures Roster.Consistent(AddAll(st, records))
    decreases |records|
  {
    if records == [] {
    } else {
      AddAllConsistent(st, records[..|records| - 1]);
      Roster.AddConsistent(AddAll(st, records[..|records| - 1]), ParseUser(records[|records| - 1]));
    }
  }

  // What a peer makes of a command line inside an envelope.
  function Sent(st: Roster.State, meetingId: int, userId: int, commandId: int, content: Text): Roster.State {
    var line := CommandLine(meetingId, userId, commandId, content);
    if |line| < WORD then Deliver(st, MESSAGE_COMMAND, Payload(OpenEnvelope(Envelope(MESSAGE_COMMAND, line)))) else st
  }

  predicate CanSend(meetingId: int, userId: int, commandId: int, content: Text) {
    content != [] && COLON !in content && 0 !in content
    && |CommandLine(meetingId, userId, commandId, content)| < WORD
  }

  lemma SentIs(st: Roster.State, meetingId: int, userId: int, commandId: int, content: Text)
    requires CanSend(meetingId, userId, commandId, content)
    ensures Sent(st, meetingId, userId, commandId, content)
         == if userId == st.me then st else Obey(st, Command(userId, userId, commandId, content))
  {
    var line := CommandLine(meetingId, userId, commandId, content);
    EnvelopeRoundTrip(MESSAGE_COMMAND, line);
    assert line[..|line|] == line;
    ParseCommandLine(meetingId, userId, commandId, content, st.me);
    BeforeAll(content, COLON);
    BeforeAll(content, 0);
    assert content[..|content|] == content;
  }

  /* ---- a received login ---- */

  lemma LoginCanSend(meetingId: int, u: Roster.Member)
    requires Fits(meetingId, u) && PlainName(u.userName)
    ensures CanSend(meetingId, u.userId, COMMAND_LOGIN, LoginString(u)) && ParseUser(LoginString(u)) == u
  {
    LoginRoundTrip(u);
  }

  lemma LoginIsAdd(st: Roster.State, meetingId: int, u: Roster.Member)
    requires Fits(meetingId, u) && PlainName(u.userName) && u.userId != st.me
    ensures Sent(st, meetingId, u.userId, COMMAND_LOGIN, LoginString(u)) == Roster.Add(st, u)
  {
    LoginCanSend(meetingId, u);
    SentIs(st, meetingId, u.userId, COMMAND_LOGIN, LoginString(u));
  }

  // A login that reaches a peer who does not know the user appends exactly that record, and lists
  // the id exactly where its flag is 2; nobody else's place on a list changes.
  lemma LoginReaches(st: Roster.State, meetingId: int, u: Roster.Member, id: int)
    requires Roster.Consistent(st) && Fits(meetingId, u) && PlainName(u.userName)
    requires u.userId != st.me && Roster.FindUser(st.users, u.userId) < 0
    ensures var r := Deliver(st, MESSAGE_COMMAND, Payload(OpenEnvelope(Envelope(MESSAGE_COMMAND,
                               CommandLine(meetingId, u.userId, COMMAND_LOGIN, LoginString(u))))));
            && r.users == st.users + [u] && Roster.Consistent(r)
            && (id in r.audio <==> if id == u.userId then u.micFlag == 2 else id in st.audio)
            && (id in r.video <==> if id == u.userId then u.camFlag == 2 else id in st.video)
  {
    LoginIsAdd(st, meetingId, u);
    Roster.AddListed(st, u, id);
  }

  // A login of a known user changes no entry but that user's, and of that one only the flags that
  // come as 2, which also put the id on the lists.
  lemma LoginOfKnown(st: Roster.State, meetingId: int, u: Roster.Member, i: nat, id: int)
    requires Roster.Consistent(st) && Fits(meetingId, u) && PlainName(u.userName)
    requires u.userId != st.me && i == Roster.FindUser(st.users, u.userId)
    ensures var r, was := Sent(st, meetingId, u.userId, COMMAND_LOGIN, LoginString(u)), st.users[i];
            && Roster.Consistent(r)
            && r.users == st.users[i := was.(micFlag := if u.micFlag == 2 then 2 else was.micFlag,
                                             camFlag := if u.camFlag == 2 then 2 else was.camFlag)]
            && (id in r.audio <==> id in st.audio || (id == u.userId && u.micFlag == 2))
            && (id in r.video <==> id in st.video || (id == u.userId && u.camFlag == 2))
  {
    LoginIsAdd(st, meetingId, u);
    Roster.AddKnown(st, u, i);
    Roster.AddListed(st, u, id);
  }

  // Commands of oneself, and those that are neither a login nor one of the four publish commands,
  // leave the roster alone; so do messages of any other type.
  lemma OthersIgnored(st: Roster.State, meetingId: int, userId: int, commandId: int, content: Text)
    requires CanSend(meetingId, userId, commandId, content)
    requires userId == st.me || commandId !in {1001, 1019, 1020, 1022, 1023}
    ensures Sent(st, meetingId, userId, commandId, content) == st
  {
    SentIs(st, meetingId, userId, commandId, content);
  }

  lemma OtherTypesIgnored(st: Roster.State, messageType: byte, data: Text)
    requires messageType !in {0, 1}
    ensures Deliver(st, messageType, data) == st
  {
  }

  /* ---- a received publish command ---- */

  lemma ObeyMic(st: Roster.State, userId: int, on: bool, commandId: int, content: Text)
    requires userId != st.me && commandId == if on then COMMAND_PUB_MIC else COMMAND_PUB_MIC_CLOSE
    ensures Obey(st, Command(userId, userId, commandId, content)) == Roster.HandleAudio(st, userId, on)
  {
  }

  lemma ObeyCam(st: Roster.State, userId: int, on: bool, commandId: int, content: Text)
    requires userId != st.me && commandId == if on then COMMAND_PUB_CAM else COMMAND_PUB_CAM_CLOSE
    ensures Obey(st, Command(userId, userId, commandId, content)) == Roster.HandleVideo(st, userId, on)
  {
  }

  // A user known to a peer who publishes the microphone is on that peer's audio list, and off it
  // after closing; nobody else's place on either list changes.
  lemma PublishedIsHeard(st: Roster.State, meetingId: int, userId: int, on: bool, commandId: int, id: int)
    requires Roster.Consistent(st) && userId != st.me && 0 <= Roster.FindUser(st.users, userId)
    requires commandId == if on then COMMAND_PUB_MIC else COMMAND_PUB_MIC_CLOSE
    requires CanSend(meetingId, userId, commandId, [SPACE])
    ensures Roster.AudioSwitched(st, Sent(st, meetingId, userId, commandId, [SPACE]), userId, on, id)
  {
    SentIs(st, meetingId, userId, commandId, [SPACE]);
    ObeyMic(st, userId, on, commandId, [SPACE]);
    Roster.SwitchAudio(st, userId, on, id);
  }

  // The same for the camera.
  lemma PublishedIsSeen(st: Roster.State, meetingId: int, userId: int, on: bool, commandId: int, id: int)
    requires Roster.Consistent(st) && userId != st.me && 0 <= Roster.FindUser(st.users, userId)
    requires commandId == if on then COMMAND_PUB_CAM else COMMAND_PUB_CAM_CLOSE
    requires CanSend(meetingId, userId, commandId, [SPACE])
    ensures Roster.VideoSwitched(st, Sent(st, meetingId, userId, commandId, [SPACE]), userId, on, id)
  {
    SentIs(st, meetingId, userId, commandId, [SPACE]);
    ObeyCam(st, userId, on, commandId, [SPACE]);
    Roster.SwitchVideo(st, userId, on, id);
  }

  /* ---- a room list restores the roster it was made from ---- */

  // Every user's record, as a room list carries it.
  function Records(us: seq<Roster.Member>): (r: seq<Text>)
    ensures |r| == |us| && forall i :: 0 <= i < |us| ==> r[i] == LoginString(us[i])
  {
    seq(|us|, i requires 0 <= i < |us| => LoginString(us[i]))
  }

  predicate Listable(u: Roster.Member) {
    0 !in u.userName && PlainName(u.userName) && BAR !in u.userName
  }

  lemma RecordsSplit(us: seq<Roster.Member>)
    requires us != [] && forall i :: 0 <= i < |us| ==> Listable(us[i])
    ensures Fields(Join(Records(us), BAR), BAR) == Records(us)
  {
    var rs := Records(us);
    forall i | 0 <= i < |rs|
      ensures BAR !in rs[i] && rs[i] != []
    {
      LoginIsPlain(us[i], BAR);
      JoinIsPlain(LoginFields(us[i]), COMMA, BAR);
      LoginRoundTrip(us[i]);
    }
    var last := rs[|rs| - 1];
    assert rs == rs[..|rs| - 1] + [last];
    FieldsJoin(rs[..|rs| - 1], last, BAR);
    BeforeAll(last, BAR);
    assert last[..|last|] == last;
  }

  // Records of users who are not on the roster, in any number, append exactly those users.
  lemma {:induction false} RecordsAdd(st: Roster.State, us: seq<Roster.Member>)
    requires forall i :: 0 <= i < |us| ==> Listable(us[i]) && Roster.FindUser(st.users, us[i].userId) < 0
    requires Roster.DistinctUsers(us)
    ensures AddAll(st, Records(us)).users == st.users + us
    decreases |us|
  {
    if us == [] {
      assert st.users + us == st.users;
    } else {
      var before, u := us[..|us| - 1], us[|us| - 1];
      RecordsAdd(st, before);
      assert Records(us)[..|us| - 1] == Records(before);
      LoginRoundTrip(u);
      StillUnknown(st.users, before, u);
      Roster.AddAppends(AddAll(st, Records(before)), u);
      assert AddAll(st, Records(us)) == Roster.Add(AddAll(st, Records(before)), u);
      OneMore(st.users, us);
    }
  }

  // A record of a user who is already known, anywhere in a room list, only switches on.
  lemma RecordOfKnown(st: Roster.State, us: seq<Roster.Member>, i: nat)
    requires us != [] && Listable(us[|us| - 1])
    requires us[|us| - 1].userId != st.me == AddAll(st, Records(us[..|us| - 1])).me
    requires i == Roster.FindUser(AddAll(st, Records(us[..|us| - 1])).users, us[|us| - 1].userId)
    ensures var before, u := AddAll(st, Records(us[..|us| - 1])), us[|us| - 1];
            var r, was := AddAll(st, Records(us)), before.users[i];
            && Roster.Enlisted(before, r, u)
            && r.users == before.users[i := was.(micFlag := if u.micFlag == 2 then 2 else was.micFlag,
                                                 camFlag := if u.camFlag == 2 then 2 else was.camFlag)]
  {
    var before, u := us[..|us| - 1], us[|us| - 1];
    assert Records(us)[..|us| - 1] == Records(before);
    LoginRoundTrip(u);
    Roster.AddKnown(AddAll(st, Records(before)), u, i);
    assert AddAll(st, Records(us)) == Roster.Add(AddAll(st, Records(before)), u);
  }

  lemma OneMore(users: seq<Roster.Member>, us: seq<Roster.Member>)
    requires us != []
    ensures (users + us[..|us| - 1]) + [us[|us| - 1]] == users + us
  {
  }

  lemma StillUnknown(users: seq<Roster.Member>, before: seq<Roster.Member>, u: Roster.Member)
    requires Roster.FindUser(users, u.userId) < 0 && forall i :: 0 <= i < |before| ==> before[i].userId != u.userId
    ensures Roster.FindUser(users + before, u.userId) < 0
  {
    var r := users + before;
    assert forall k :: 0 <= k < |users| ==> r[k] == users[k];
    assert forall k :: |users| <= k < |r| ==> r[k] == before[k - |users|];
  }

  // A room list of plain-named users restores all of them, in order, on an empty roster.
  lemma RoomListRestores(st: Roster.State, us: seq<Roster.Member>)
    requires st.users == [] && us != [] && Roster.DistinctUsers(us)
    requires forall i :: 0 <= i < |us| ==> Listable(us[i])
    ensures Deliver(st, MESSAGE_ROOM_INFO_USERS, Join(Records(us), BAR)).users == us
  {
    RecordsSplit(us);
    RecordsAdd(st, us);
    assert st.users + us == us;
  }

  /* ---- cutting texts apart ---- */

  // split.
  method Split(s: Text, flag: byte) returns (sv: seq<Text>)
    ensures sv == Fields(s, flag)
  {
    sv := [];
    var rest := s;
    while rest != []
      invariant Fields(s, flag) == sv + Fields(rest, flag)
      decreases |rest|
    {
      var k := Before(rest, flag);
      sv := sv + [rest[..k]];
      rest := if k < |rest| then rest[k + 1..] else [];
    }
  }

  // One strtok call: the next token and what follows it.
  function StrTok(s: Text, c: byte): (r: Option<(Text, Text)>)
    ensures r.None? <==> Tokens(s, c) == []
    ensures r.Some? ==> Tokens(s, c) == [r.value.0] + Tokens(r.value.1, c) && |r.value.1| < |s|
    decreases |s|
  {
    if s == [] then None
    else if s[0] == c then StrTok(s[1..], c)
    else
      var k := Before(s, c);
      Some((s[..k], s[k..]))
  }

  // The field a token fills, by its position.
  function SetField(yu: Roster.Member, tcou: nat, token: Text): Roster.Member {
    if tcou == 0 then yu.(userId := Atoi(token))
    else if tcou == 1 then yu.(userName := token)
    else if tcou == 2 then yu.(myId := Atoi(token))
    else if tcou == 3 then yu.(roomAdmin := Atoi(token))
    else if tcou == 4 then yu.(micFlag := Atoi(token))
    else if tcou == 5 then yu.(camFlag := Atoi(token))
    else yu
  }

  lemma SetFieldIs(done: seq<Text>, token: Text)
    ensures UserOf(done + [token]) == SetField(UserOf(done), |done|, token)
  {
    var ts := done + [token];
    assert forall i :: 0 <= i < |done| ==> ts[i] == done[i];
  }

  // The tokens still to come, from the one just returned.
  function Pending(p: Option<(Text, Text)>): seq<Text> {
    if p.None? then [] else [p.value.0] + Tokens(p.value.1, COMMA)
  }

  lemma PendingStep(done: seq<Text>, p: Option<(Text, Text)>)
    requires p.Some?
    ensures done + Pending(p) == (done + [p.value.0]) + Pending(StrTok(p.value.1, COMMA))
  {
  }

  // The strtok loop of addUser.
  method ParseUserText(s: Text) returns (yu: Roster.Member)
    ensures yu == ParseUser(s)
  {
    ghost var all, done: seq<Text> := Tokens(CString(s), COMMA), [];
    yu := Roster.Member(0, [], 0, 0, 0, 0);
    var tcou := 0;
    var p := StrTok(CString(s), COMMA);
    while p.Some?
      invariant tcou == |done| && yu == UserOf(done)
      invariant all == done + Pending(p)
      decreases if p.None? then 0 else 1 + |p.value.1|
    {
      var token := p.value.0;
      SetFieldIs(done, token);
      PendingStep(done, p);
      yu := SetField(yu, tcou, token);
      done := done + [token];
      tcou := tcou + 1;
      p := StrTok(p.value.1, COMMA);
    }
    assert done == all;
  }

  /* ---- the envelope ---- */

  // yang_put_be32.
  method PutBe32(output: array<byte>, at: nat, n: u32)
    requires at + 4 <= output.Length
    modifies output
    ensures output[..] == old(output[..at]) + Be32(n) + old(output[at + 4..])
  {
    output[at + 3] := n % 0x100;
    output[at + 2] := n / 0x100 % 0x100;
    output[at + 1] := n / 0x1_0000 % 0x100;
    output[at] := n / 0x100_0000;
  }

  // putMessage: the bytes handed to the transport.
  method PutMessage(messageType: byte, p: Text) returns (r: Text)
    requires |p| < WORD
    ensures r == Envelope(messageType, p)
  {
    var s := new byte[|p| + 20];
    s[0] := messageType;
    PutBe32(s, 1, |p|);
    for i := 0 to |p|
      invariant s[..5] == [messageType] + Be32(|p|)
      invariant s[5..5 + i] == p[..i]
    {
      s[5 + i] := p[i];
    }
    assert p[..|p|] == p;
    r := s[..|p| + 5];
    assert r == s[..5] + s[5..5 + |p|];
  }

  // getMessage.
  method GetMessage(p: Text) returns (mes: Message)
    requires 5 <= |p|
    ensures mes == OpenEnvelope(p)
  {
    mes := Message(p[0], RB32(p, 1), p[5..]);
  }

  /* ---- received messages ---- */

  class CommandHandle {
    const userData: UserDataBase.UserDataBase

    constructor (userData: UserDataBase.UserDataBase)
      ensures this.userData == userData
    {
      this.userData := userData;
    }

    ghost predicate Valid()
      reads userData
    {
      userData.Valid()
    }

    // addUser.
    method AddUser(record: Text) returns (ret: int)
      requires Valid()
      modifies userData, userData.Pointees()
      ensures Valid() && userData.Abs() == Roster.Add(old(userData.Abs()), ParseUser(record))
      ensures fresh(userData.Pointees() - old(userData.Pointees()))
    {
      var yu := ParseUserText(record);
      ret := userData.AddMember(yu);
    }

    // getConfUserInfosResult.
    method GetConfUserInfosResult(result: Text)
      requires Valid()
      modifies userData, userData.Pointees()
      ensures Valid() && userData.Abs() == AddAll(old(userData.Abs()), Fields(result, BAR))
    {
      ghost var st := userData.Abs();
      var sb := Split(result, BAR);
      assert sb[..0] == [];
      for i := 0 to |sb|
        invariant Valid() && userData.Abs() == AddAll(st, sb[..i])
        invariant fresh(userData.Pointees() - old(userData.Pointees()))
      {
        var ret := AddUser(sb[i]);
        assert sb[..i + 1][..i] == sb[..i];
      }
      assert sb[..|sb|] == sb;
    }

    // handleCommand.
    method HandleCommand(userId: int, aimUserId: int, commandId: int, content: Text)
      requires Valid()
      modifies userData, userData.Pointees()
      ensures Valid() && userData.Abs() == Obey(old(userData.Abs()), Command(userId, aimUserId, commandId, content))
    {
      if userId == userData.me {
        return;
      }
      if commandId == COMMAND_LOGIN {
        var ret := AddUser(content);
      } else if commandId == COMMAND_PUB_CAM {
        userData.HandleVideoStream(userId, true);
      } else if commandId == COMMAND_PUB_CAM_CLOSE {
        userData.HandleVideoStream(userId, false);
      } else if commandId == COMMAND_PUB_MIC {
        userData.HandleAudioStream(userId, true);
      } else if commandId == COMMAND_PUB_MIC_CLOSE {
        userData.HandleAudioStream(userId, false);
      }
    }

    // parseCommand; false when vector::at throws.
    method ParseCommandText(s: Text) returns (ok: bool)
      requires Valid()
      modifies userData, userData.Pointees()
      ensures Valid() && ok == !ParseCommand(s, userData.me).OutOfRange?
      ensures userData.Abs() == Deliver(old(userData.Abs()), MESSAGE_COMMAND, s)
    {
      var sb := Split(s, COLON);
      if |sb| < 4 {
        return true;
      }
      var userId, aimUserId, commandId := Atoi(sb[1]), Atoi(sb[2]), Atoi(sb[3]);
      if userId == userData.me {
        return true;
      }
      if |sb| == 4 {
        return false;
      }
      HandleCommand(userId, aimUserId, commandId, CString(sb[4]));
      ok := true;
    }

    // handleMessage; the announced length must lie within the message.
    method HandleMessage(p: Text) returns (ok: bool)
      requires Valid() && 5 <= |p| && OpenEnvelope(p).len <= |p| - 5
      modifies userData, userData.Pointees()
      ensures Valid()
      ensures var m := OpenEnvelope(p);
              ok == !(m.messageType == MESSAGE_COMMAND && ParseCommand(Payload(m), userData.me).OutOfRange?)
      ensures var m := OpenEnvelope(p); userData.Abs() == Deliver(old(userData.Abs()), m.messageType, Payload(m))
    {
      var mdata := GetMessage(p);
      ok := true;
      if mdata.messageType == MESSAGE_ROOM_INFO_USERS {
        GetConfUserInfosResult(mdata.data[..mdata.len]);
      } else if mdata.messageType == MESSAGE_COMMAND {
        ok := ParseCommandText(mdata.data[..mdata.len]);
      }
    }
  }
}
