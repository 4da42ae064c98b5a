/** The text protocol of the meeting: decimal numbers, comma-separated user records,
    colon-separated commands, and the binary envelope around them. */
module CommandText {
  import opened Basics
  import opened Words
  import opened BitStream
  import opened Roster

  type Text = seq<byte>

  const COMMA: byte := 44
  const COLON: byte := 58
  const BAR: byte := 124
  const MINUS: byte := 45
  const SPACE: byte := 32
  const PLUS: byte := 43
  const MESSAGE_COMMAND: byte := 0
  const MESSAGE_ROOM_INFO_USERS: byte := 1
  const COMMAND_LOGIN: int := 1001
  const COMMAND_PUB_CAM: int := 1019
  const COMMAND_PUB_CAM_CLOSE: int := 1020
  const COMMAND_PUB_MIC: int := 1022
  const COMMAND_PUB_MIC_CLOSE: int := 1023

  /* ---- numbers ---- */

  predicate IsDigit(c: byte) {
    48 <= c <= 57
  }

  predicate IsSpace(c: byte) {
    c == 32 || 9 <= c <= 13
  }

  function Decimal(n: nat): (t: Text)
    ensures t != [] && forall i :: 0 <= i < |t| ==> IsDigit(t[i])
  {
    if n < 10 then [(48 + n) as byte] else Decimal(n / 10) + [(48 + n % 10) as byte]
  }

  // printf's %d.
  function Print(n: int): (t: Text)
    ensures t != []
  {
    if n < 0 then [MINUS] + Decimal(-n) else Decimal(n)
  }

  function ReadDigits(s: Text, acc: nat): nat
    decreases |s|
  {
    if s == [] || !IsDigit(s[0]) then acc else ReadDigits(s[1..], 10 * acc + (s[0] as int - 48))
  }

  // atoi: leading white space, an optional sign, then digits up to the first other character.
  function Atoi(s: Text): int
    decreases |s|
  {
    if s == [] then 0
    else if IsSpace(s[0]) then Atoi(s[1..])
    else if s[0] == MINUS then var d: int := ReadDigits(s[1..], 0); -d
    else if s[0] == PLUS then ReadDigits(s[1..], 0)
    else ReadDigits(s, 0)
  }

  /* ---- fields ---- */

  // The length of the part before the first c, all of it if there is none.
  function Before(s: Text, c: byte): (k: nat)
    ensures k <= |s| && c !in s[..k]
    ensures k < |s| ==> s[k] == c
  {
    if s == [] || s[0] == c then 0
    else
      var k := 1 + Before(s[1..], c);
      assert s[..k] == [s[0]] + s[1..][..k - 1];
      k
  }

  // What a char pointer shows: up to the first zero byte.
  function CString(s: Text): Text {
    s[..Before(s, 0)]
  }

  // getline on a string stream: empty fields count, except after a final delimiter.
  function Fields(s: Text, c: byte): seq<Text>
    decreases |s|
  {
    if s == [] then []
    else
      var k := Before(s, c);
      [s[..k]] + (if k < |s| then Fields(s[k + 1..], c) else [])
  }

  // strtok: runs of delimiters separate tokens, so no token is empty.
  function Tokens(s: Text, c: byte): seq<Text>
    decreases |s|
  {
    if s == [] then []
    else if s[0] == c then Tokens(s[1..], c)
    else
      var k := Before(s, c);
      [s[..k]] + Tokens(s[k..], c)
  }

  function NumberAt(ts: seq<Text>, i: nat): int {
    if i < |ts| then Atoi(ts[i]) else 0
  }

  // A user record, field by position, zero where a field is missing.
  function UserOf(ts: seq<Text>): Member {
    Member(NumberAt(ts, 0), if 1 < |ts| then ts[1] else [], NumberAt(ts, 2),
           NumberAt(ts, 3), NumberAt(ts, 4), NumberAt(ts, 5))
  }

  // addUser's parsing.
  function ParseUser(s: Text): Member {
    UserOf(Tokens(CString(s), COMMA))
  }

  // Fields written one after the other with c between them.
  function Join(fields: seq<Text>, c: byte): Text
    decreases |fields|
  {
    if fields == [] then []
    else if |fields| == 1 then fields[0]
    else fields[0] + ([c] + Join(fields[1..], c))
  }

  // getLoginstring: "%d,%s,%d,%d,%d,%d".
  function LoginFields(u: Member): seq<Text> {
    [Print(u.userId), u.userName, Print(u.myId), Print(u.roomAdmin), Print(u.micFlag), Print(u.camFlag)]
  }

  function LoginString(u: Member): Text {
    Join(LoginFields(u), COMMA)
  }

  // sendCommand: "%d:%d:%d:%d:%s".
  function CommandLine(meetingId: int, userId: int, commandId: int, content: Text): Text {
    Join([Print(meetingId), Print(userId), Print(userId), Print(commandId), content], COLON)
  }

  datatype Parsed = Ignored | OutOfRange | Command(userId: int, aimUserId: int, commandId: int, content: Text)

  // parseCommand at the user me: at least four fields are checked for, a fifth is read.
  function ParseCommand(s: Text, me: int): Parsed {
    var sb := Fields(s, COLON);
    if |sb| < 4 then Ignored
    else
      var userId, aim, commandId := Atoi(sb[1]), Atoi(sb[2]), Atoi(sb[3]);
      if userId == me then Ignored
      else if |sb| == 4 then Parsed.OutOfRange
      else Command(userId, aim, commandId, CString(sb[4]))
  }

  /* ---- the envelope ---- */

  // yang_put_be32.
  function Be32(n: u32): (t: Text)
    ensures |t| == 4
  {
    [n / 0x100_0000, n / 0x1_0000 % 0x100, n / 0x100 % 0x100, n % 0x100]
  }

  // putMessage.
  function Envelope(messageType: byte, data: Text): Text
    requires |data| < WORD
  {
    [messageType] + Be32(|data|) + data
  }

  // getMessage: the type, the announced length and the payload.
  datatype Message = Message(messageType: byte, len: u32, data: Text)

  function OpenEnvelope(p: Text): Message
    requires 5 <= |p|
  {
    Message(p[0], RB32(p, 1), p[5..])
  }

  // The part of the payload that the announced length covers.
  function Payload(m: Message): Text {
    if m.len <= |m.data| then m.data[..m.len] else m.data
  }

  /* ---- numbers print and parse back ---- */

  lemma {:induction false} ReadDigitsCat(a: Text, b: Text, acc: nat)
    requires forall i :: 0 <= i < |a| ==> IsDigit(a[i])
    ensures ReadDigits(a + b, acc) == ReadDigits(b, ReadDigits(a, acc))
    decreases |a|
  {
    if a == [] {
      assert a + b == b;
    } else {
      assert (a + b)[1..] == a[1..] + b;
      ReadDigitsCat(a[1..], b, 10 * acc + (a[0] as int - 48));
    }
  }

  lemma {:induction false} ReadDigitsOfDecimal(n: nat)
    ensures ReadDigits(Decimal(n), 0) == n
  {
    var d: Text := [(48 + n % 10) as byte];
    assert ReadDigits(d, n / 10) == ReadDigits(d[1..], 10 * (n / 10) + n % 10) == n;
    if 10 <= n {
      ReadDigitsOfDecimal(n / 10);
      ReadDigitsCat(Decimal(n / 10), d, 0);
    }
  }

  // atoi undoes %d, for negative numbers too.
  lemma AtoiPrint(n: int)
    ensures Atoi(Print(n)) == n
  {
    if n < 0 {
      ReadDigitsOfDecimal(-n);
      assert Print(n)[1..] == Decimal(-n);
    } else {
      ReadDigitsOfDecimal(n);
      assert IsDigit(Decimal(n)[0]);
    }
  }

  // atoi skips white space, takes a sign, and stops at the first other character.
  lemma {:induction false} AtoiReads(spaces: Text, n: nat, sign: Text, rest: Text)
    requires forall i :: 0 <= i < |spaces| ==> IsSpace(spaces[i])
    requires sign in {[], [PLUS], [MINUS]} && (rest == [] || !IsDigit(rest[0]))
    ensures Atoi(spaces + (sign + (Decimal(n) + rest))) == if sign == [MINUS] then 0 - n else n
    decreases |spaces|
  {
    var digits := Decimal(n) + rest;
    var s := spaces + (sign + digits);
    if spaces == [] {
      ReadDigitsOfDecimal(n);
      ReadDigitsCat(Decimal(n), rest, 0);
      assert ReadDigits(digits, 0) == n && digits[0] == Decimal(n)[0];
      assert s == sign + digits;
      if sign == [] {
        assert s == digits;
      } else {
        assert s[1..] == digits;
      }
    } else {
      assert s[0] == spaces[0] && s[1..] == spaces[1..] + (sign + digits);
      AtoiReads(spaces[1..], n, sign, rest);
    }
  }

  lemma PrintIsPlain(n: int, c: byte)
    requires !IsDigit(c) && c != MINUS
    ensures c !in Print(n)
  {
  }

  /* ---- fields and tokens read back ---- */

  lemma {:induction false} BeforeIs(a: Text, b: Text, c: byte)
    requires c !in a && (b == [] || b[0] == c)
    ensures Before(a + b, c) == |a|
    decreases |a|
  {
    if a != [] {
      assert (a + b)[0] == a[0] && (a + b)[1..] == a[1..] + b;
      BeforeIs(a[1..], b, c);
    } else {
      assert a + b == b;
    }
  }

  lemma BeforeAll(a: Text, c: byte)
    requires c !in a
    ensures Before(a, c) == |a|
  {
    BeforeIs(a, [], c);
    assert a + [] == a;
  }

  // A char pointer shows nothing past the first zero byte.
  lemma CStringEnds(a: Text, b: Text)
    requires 0 !in a
    ensures CString(a) == a && CString(a + ([0] + b)) == a
  {
    BeforeAll(a, 0);
    BeforeIs(a, [0] + b, 0);
    assert a[..|a|] == a && (a + ([0] + b))[..|a|] == a;
  }

  lemma FieldsStep(a: Text, b: Text, c: byte)
    requires c !in a
    ensures Fields(a + ([c] + b), c) == [a] + Fields(b, c)
  {
    var s := a + ([c] + b);
    BeforeIs(a, [c] + b, c);
    assert s[..|a|] == a && s[|a| + 1..] == b;
  }

  lemma TokensStep(a: Text, b: Text, c: byte)
    requires c !in a
    ensures Tokens(a + ([c] + b), c) == (if a == [] then [] else [a]) + Tokens(b, c)
  {
    var s := a + ([c] + b);
    assert Tokens([c] + b, c) == Tokens(b, c) by { assert ([c] + b)[1..] == b; }
    if a == [] {
      assert s == [c] + b;
    } else {
      BeforeIs(a, [c] + b, c);
      assert s[0] == a[0] && s[..|a|] == a && s[|a|..] == [c] + b;
    }
  }

  lemma TokensLast(a: Text, c: byte)
    requires a != [] && c !in a
    ensures Tokens(a, c) == [a]
  {
    BeforeAll(a, c);
    assert a[..|a|] == a && a[|a|..] == [];
  }

  function NonEmpty(fields: seq<Text>): seq<Text>
    decreases |fields|
  {
    if fields == [] then []
    else (if fields[0] == [] then [] else [fields[0]]) + NonEmpty(fields[1..])
  }

  // strtok over joined fields gives the fields back, without the empty ones.
  lemma {:induction false} TokensNonEmpty(fields: seq<Text>, c: byte)
    requires forall i :: 0 <= i < |fields| ==> c !in fields[i]
    ensures Tokens(Join(fields, c), c) == NonEmpty(fields)
    decreases |fields|
  {
    if fields == [] {
    } else if |fields| == 1 {
      if fields[0] != [] {
        TokensLast(fields[0], c);
      }
    } else {
      TokensNonEmpty(fields[1..], c);
      TokensStep(fields[0], Join(fields[1..], c), c);
    }
  }

  lemma {:induction false} NoneEmpty(fields: seq<Text>)
    requires forall i :: 0 <= i < |fields| ==> fields[i] != []
    ensures NonEmpty(fields) == fields
    decreases |fields|
  {
    if fields == [] {
    } else {
      NoneEmpty(fields[1..]);
    }
  }

  lemma TokensJoin(fields: seq<Text>, c: byte)
    requires forall i :: 0 <= i < |fields| ==> fields[i] != [] && c !in fields[i]
    ensures Tokens(Join(fields, c), c) == fields
  {
    TokensNonEmpty(fields, c);
    NoneEmpty(fields);
  }

  // A record's fields by position: a missing one counts as zero or empty, one too many is ignored,
  // and an empty one does not take a place.
  lemma RecordFields(fields: seq<Text>)
    requires forall i :: 0 <= i < |fields| ==> COMMA !in fields[i] && 0 !in fields[i]
    ensures var u, ts := ParseUser(Join(fields, COMMA)), NonEmpty(fields);
            && u.userId == (if 0 < |ts| then Atoi(ts[0]) else 0)
            && u.userName == (if 1 < |ts| then ts[1] else [])
            && u.myId == (if 2 < |ts| then Atoi(ts[2]) else 0)
            && u.roomAdmin == (if 3 < |ts| then Atoi(ts[3]) else 0)
            && u.micFlag == (if 4 < |ts| then Atoi(ts[4]) else 0)
            && u.camFlag == (if 5 < |ts| then Atoi(ts[5]) else 0)
  {
    var s := Join(fields, COMMA);
    JoinIsPlain(fields, COMMA, 0);
    BeforeAll(s, 0);
    assert s[..|s|] == s;
    TokensNonEmpty(fields, COMMA);
  }

  // A token is not empty, holds no delimiter, and is made of the text.
  lemma {:induction false} TokenIsPlain(s: Text, c: byte, i: nat)
    requires i < |Tokens(s, c)|
    ensures Tokens(s, c)[i] != [] && c !in Tokens(s, c)[i]
    ensures forall x :: x in Tokens(s, c)[i] ==> x in s
    decreases |s|
  {
    if s[0] == c {
      TokenIsPlain(s[1..], c, i);
    } else {
      var k := Before(s, c);
      if i != 0 {
        TokenIsPlain(s[k..], c, i - 1);
      }
    }
  }

  // getline over joined fields gives the fields back, then whatever the last one splits into.
  lemma {:induction false} FieldsJoin(fields: seq<Text>, last: Text, c: byte)
    requires forall i :: 0 <= i < |fields| ==> c !in fields[i]
    ensures Fields(Join(fields + [last], c), c) == fields + Fields(last, c)
    decreases |fields|
  {
    if fields == [] {
      assert fields + [last] == [last];
    } else {
      var a, rest := fields[0], fields[1..];
      FieldsJoin(rest, last, c);
      var joined := Join(rest + [last], c);
      HeadFirst(fields, [last]);
      JoinStep(a, rest + [last], c);
      FieldsStep(a, joined, c);
      HeadFirst(fields, Fields(last, c));
    }
  }

  lemma HeadFirst(fields: seq<Text>, t: seq<Text>)
    requires fields != []
    ensures fields + t == [fields[0]] + (fields[1..] + t)
  {
  }

  lemma JoinStep(a: Text, rest: seq<Text>, c: byte)
    requires rest != []
    ensures Join([a] + rest, c) == a + ([c] + Join(rest, c))
  {
    assert ([a] + rest)[1..] == rest;
  }

  lemma FieldsLast(last: Text, c: byte)
    requires c !in last
    ensures Fields(last, c) == if last == [] then [] else [last]
  {
    BeforeAll(last, c);
    assert last[..|last|] == last;
  }

  // A line of four numbers and a content: the numbers, and the content up to the next colon.
  lemma LineFields(room: int, userId: int, aim: int, commandId: int, content: Text)
    requires content != []
    ensures var sb := Fields(Join([Print(room), Print(userId), Print(aim), Print(commandId), content], COLON), COLON);
            5 <= |sb| && sb[0] == Print(room) && sb[1] == Print(userId) && sb[2] == Print(aim)
            && sb[3] == Print(commandId) && sb[4] == content[..Before(content, COLON)]
  {
    PrintIsPlain(room, COLON);
    PrintIsPlain(userId, COLON);
    PrintIsPlain(aim, COLON);
    PrintIsPlain(commandId, COLON);
    var numbers := [Print(room), Print(userId), Print(aim), Print(commandId)];
    FieldsJoin(numbers, content, COLON);
    assert numbers + [content] == [Print(room), Print(userId), Print(aim), Print(commandId), content];
  }

  // parseCommand reads the sender, the addressee, the command and the content from their places,
  // and ignores one's own lines.
  lemma ParseLine(room: int, userId: int, aim: int, commandId: int, content: Text, me: int)
    requires content != []
    ensures ParseCommand(Join([Print(room), Print(userId), Print(aim), Print(commandId), content], COLON), me)
         == if userId == me then Ignored
            else Command(userId, aim, commandId, CString(content[..Before(content, COLON)]))
  {
    LineFields(room, userId, aim, commandId, content);
    AtoiPrint(userId);
    AtoiPrint(aim);
    AtoiPrint(commandId);
  }

  // With four numbers and no content the fifth field is missing, and with fewer nothing happens.
  lemma ShortLines(room: int, userId: int, aim: int, commandId: int, me: int)
    ensures ParseCommand(Join([Print(room), Print(userId), Print(aim), Print(commandId)], COLON), me)
         == if userId == me then Ignored else Parsed.OutOfRange
    ensures ParseCommand(Join([Print(room), Print(userId), Print(aim)], COLON), me) == Ignored
  {
    PrintIsPlain(room, COLON);
    PrintIsPlain(userId, COLON);
    PrintIsPlain(aim, COLON);
    PrintIsPlain(commandId, COLON);
    FieldsJoin([Print(room), Print(userId), Print(aim)], Print(commandId), COLON);
    FieldsLast(Print(commandId), COLON);
    assert [Print(room), Print(userId), Print(aim)] + [Print(commandId)]
        == [Print(room), Print(userId), Print(aim), Print(commandId)];
    FieldsJoin([Print(room), Print(userId)], Print(aim), COLON);
    FieldsLast(Print(aim), COLON);
    assert [Print(room), Print(userId)] + [Print(aim)] == [Print(room), Print(userId), Print(aim)];
    AtoiPrint(userId);
  }

  // The formatted command line carries the room, the sender twice, the command and the content.
  lemma CommandLineFields(meetingId: int, userId: int, commandId: int, content: Text)
    requires content != []
    ensures var sb := Fields(CommandLine(meetingId, userId, commandId, content), COLON);
            5 <= |sb| && sb[..4] == [Print(meetingId), Print(userId), Print(userId), Print(commandId)]
            && sb[4] == content[..Before(content, COLON)]
  {
    LineFields(meetingId, userId, userId, commandId, content);
  }

  // parseCommand of a formatted command line.
  lemma ParseCommandLine(meetingId: int, userId: int, commandId: int, content: Text, me: int)
    requires content != []
    ensures ParseCommand(CommandLine(meetingId, userId, commandId, content), me)
         == if userId == me then Ignored
            else Command(userId, userId, commandId, CString(content[..Before(content, COLON)]))
  {
    ParseLine(meetingId, userId, userId, commandId, content, me);
  }

  /* ---- the envelope opens to what was put in ---- */

  lemma Be32RoundTrip(n: u32, rest: Text, first: byte)
    ensures RB32([first] + Be32(n) + rest, 1) == n
  {
    var p := [first] + Be32(n) + rest;
    var b := Be32(n);
    assert p[1] == b[0] && p[2] == b[1] && p[3] == b[2] && p[4] == b[3];
    RB32Is(p[1], p[2], p[3], p[4]);
    Base256(n);
  }

  lemma Base256(n: nat)
    ensures n == n / 0x100_0000 * 0x100_0000 + n / 0x1_0000 % 0x100 * 0x1_0000 + n / 0x100 % 0x100 * 0x100 + n % 0x100
  {
    assert n / 0x1_0000 == n / 0x100 / 0x100;
    assert n / 0x100_0000 == n / 0x1_0000 / 0x100;
  }

  lemma EnvelopeRoundTrip(messageType: byte, data: Text)
    requires |data| < WORD
    ensures OpenEnvelope(Envelope(messageType, data)) == Message(messageType, |data|, data)
  {
    Be32RoundTrip(|data|, data, messageType);
    assert Envelope(messageType, data)[5..] == data;
  }

  // The bytes of an envelope: the type, the length as a 32-bit big-endian number, the payload.
  lemma EnvelopeBytes(messageType: byte, data: Text)
    requires |data| < WORD
    ensures var e := Envelope(messageType, data);
            |e| == 5 + |data| && e[0] == messageType && Val(Bits(e), 8, 32) == |data| && e[5..] == data
  {
    Be32RoundTrip(|data|, data, messageType);
    WordVal(Envelope(messageType, data), 1);
  }

  /* ---- a login record survives all three layers ---- */

  // A name is a C string; it can stand in a record when it is not empty and has no separator.
  predicate PlainName(name: Text) {
    name != [] && COMMA !in name && COLON !in name
  }

  // The sender's buffers: 30 bytes for the name, 128 for the record and for the command line.
  predicate Fits(meetingId: int, u: Member) {
    && 0 !in u.userName && |u.userName| < 30
    && |LoginString(u)| < 128
    && |CommandLine(meetingId, u.userId, COMMAND_LOGIN, LoginString(u))| < 128
  }

  // The record parsed back out of its own text.
  lemma LoginRoundTrip(u: Member)
    requires 0 !in u.userName && PlainName(u.userName)
    ensures ParseUser(LoginString(u)) == u
    ensures LoginString(u) != [] && COLON !in LoginString(u) && 0 !in LoginString(u)
  {
    var fs := LoginFields(u);
    LoginIsPlain(u, COMMA);
    LoginIsPlain(u, COLON);
    LoginIsPlain(u, 0);
    TokensJoin(fs, COMMA);
    JoinIsPlain(fs, COMMA, COLON);
    JoinIsPlain(fs, COMMA, 0);
    BeforeAll(LoginString(u), 0);
    assert CString(LoginString(u)) == LoginString(u);
    AtoiPrint(u.userId);
    AtoiPrint(u.myId);
    AtoiPrint(u.roomAdmin);
    AtoiPrint(u.micFlag);
    AtoiPrint(u.camFlag);
  }

  lemma LoginIsPlain(u: Member, c: byte)
    requires !IsDigit(c) && c != MINUS && c !in u.userName
    ensures forall i :: 0 <= i < 6 ==> c !in LoginFields(u)[i]
  {
    PrintIsPlain(u.userId, c);
    PrintIsPlain(u.myId, c);
    PrintIsPlain(u.roomAdmin, c);
    PrintIsPlain(u.micFlag, c);
    PrintIsPlain(u.camFlag, c);
  }

  lemma {:induction false} JoinIsPlain(fields: seq<Text>, c: byte, x: byte)
    requires x != c && forall i :: 0 <= i < |fields| ==> x !in fields[i]
    ensures x !in Join(fields, c)
    decreases |fields|
  {
    if 1 < |fields| {
      JoinIsPlain(fields[1..], c, x);
    }
  }

  // What the peer makes of a login command: the sender, the command and the record.
  function Received(meetingId: int, u: Member, me: int): Parsed
    requires Fits(meetingId, u)
  {
    var line := CommandLine(meetingId, u.userId, COMMAND_LOGIN, LoginString(u));
    ParseCommand(Payload(OpenEnvelope(Envelope(MESSAGE_COMMAND, line))), me)
  }

  // Through record, command line and envelope, a peer reads back the same sender, command and
  // record exactly when the name is not empty and holds no separator.
  lemma LoginSurvives(meetingId: int, u: Member, me: int)
    requires Fits(meetingId, u) && u.userId != me
    ensures var r := Received(meetingId, u, me);
            r.Command? && r.userId == u.userId && r.aimUserId == u.userId && r.commandId == COMMAND_LOGIN
    ensures ParseUser(Received(meetingId, u, me).content) == u <==> PlainName(u.userName)
  {
    var content := LoginString(u);
    var line := CommandLine(meetingId, u.userId, COMMAND_LOGIN, content);
    EnvelopeRoundTrip(MESSAGE_COMMAND, line);
    assert line[..|line|] == line;
    assert content != [] && content[0] in Print(u.userId);
    ParseCommandLine(meetingId, u.userId, COMMAND_LOGIN, content, me);
    if PlainName(u.userName) {
      LoginRoundTrip(u);
      BeforeAll(content, COLON);
      BeforeAll(content, 0);
      assert content[..|content|] == content;
    } else if ParseUser(Received(meetingId, u, me).content) == u {
      UnplainName(u, Received(meetingId, u, me).content);
    }
  }

  // A record that fits all buffers and does not come back: its name is "a,b".
  lemma CommaNameLost()
    ensures var u := Member(2, [97, COMMA, 98], 0, 0, 1, 1);
            && Fits(7, u) && Received(7, u, 1).Command?
            && ParseUser(Received(7, u, 1).content) != u
  {
    var u := Member(2, [97, COMMA, 98], 0, 0, 1, 1);
    CommaNameFits();
    LoginSurvives(7, u, 1);
    assert u.userName[1] == COMMA;
  }

  lemma CommaNameFits()
    ensures Fits(7, Member(2, [97, COMMA, 98], 0, 0, 1, 1))
  {
    var u := Member(2, [97, COMMA, 98], 0, 0, 1, 1);
    ShortPrints();
    JoinLength(LoginFields(u), COMMA, 3);
    TimesIs(4, 6);
    JoinLength([Print(7), Print(2), Print(2), Print(COMMAND_LOGIN), LoginString(u)], COLON, 24);
    TimesIs(25, 5);
  }

  lemma ShortPrints()
    ensures |Print(0)| == |Print(1)| == |Print(2)| == |Print(7)| == 1 && |Print(COMMAND_LOGIN)| == 4
  {
    assert |Decimal(10)| == 1 + |Decimal(1)|;
    assert |Decimal(100)| == 1 + |Decimal(10)|;
    assert |Decimal(1001)| == 1 + |Decimal(100)|;
  }

  // Joined fields of at most n characters.
  lemma {:induction false} JoinLength(fields: seq<Text>, c: byte, n: nat)
    requires forall i :: 0 <= i < |fields| ==> |fields[i]| <= n
    ensures |Join(fields, c)| <= Times(n + 1, |fields|)
    decreases |fields|
  {
    if 1 < |fields| {
      JoinLength(fields[1..], c, n);
    } else if fields != [] {
      assert Times(n + 1, 1) == Times(n + 1, 0) + n + 1;
    }
  }

  // A parsed name is a token: never empty once there are two, and free of separators.
  lemma UnplainName(u: Member, content: Text)
    requires 0 !in u.userName && ParseUser(content) == u
    requires content == CString(LoginString(u)[..Before(LoginString(u), COLON)])
    ensures PlainName(u.userName)
  {
    var ts := Tokens(CString(content), COMMA);
    if u.userName == [] {
      EmptyName(u);
      LoginIsPlain(u, COLON);
      LoginIsPlain(u, 0);
      JoinIsPlain(LoginFields(u), COMMA, COLON);
      JoinIsPlain(LoginFields(u), COMMA, 0);
      BeforeAll(LoginString(u), COLON);
      BeforeAll(LoginString(u), 0);
      assert CString(content) == content == LoginString(u);
      TokenIsPlain(content, COMMA, 1);
    } else {
      TokenIsPlain(CString(content), COMMA, 1);
    }
  }

  lemma EmptyName(u: Member)
    requires u.userName == []
    ensures 2 <= |Tokens(LoginString(u), COMMA)|
  {
    var f := LoginFields(u);
    PrintIsPlain(u.userId, COMMA);
    PrintIsPlain(u.myId, COMMA);
    var t2 := Join(f[1..][1..][1..], COMMA);
    var t1 := Join(f[1..][1..], COMMA);
    TokensStep(Print(u.myId), t2, COMMA);
    TokensStep([], t1, COMMA);
    TokensStep(Print(u.userId), Join(f[1..], COMMA), COMMA);
  }
}
