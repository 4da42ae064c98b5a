/** YangUserDataBase: the roster as a vector of user objects and two id vectors, updated in
    place; every method is tied to the roster step of module Roster. */
module UserDataBase {
  import opened Basics
  import opened Roster

  class User {
    const userId: int
    const userName: seq<byte>
    const myId: int
    const roomAdmin: int
    var micFlag: int
    var camFlag: int

    constructor (m: Member)
      ensures Value() == m
    {
      userId, userName, myId, roomAdmin := m.userId, m.userName, m.myId, m.roomAdmin;
      micFlag, camFlag := m.micFlag, m.camFlag;
    }

    ghost function Value(): Member
      reads this
    {
      Member(userId, userName, myId, roomAdmin, micFlag, camFlag)
    }
  }

  ghost function Values(users: seq<User>): (r: seq<Member>)
    reads users
    ensures |r| == |users| && forall i :: 0 <= i < |r| ==> r[i] == users[i].Value()
  {
    seq(|users|, i requires 0 <= i < |users| reads users => users[i].Value())
  }

  ghost predicate DistinctObjects(users: seq<User>) {
    forall i, j :: 0 <= i < j < |users| ==> users[i].userId != users[j].userId
  }

  lemma ValuesDelete(users: seq<User>, i: nat)
    requires i < |users|
    ensures Values(Delete(users, i)) == Delete(Values(users), i)
    ensures DistinctObjects(users) ==> DistinctObjects(Delete(users, i))
  {
    var r := Delete(users, i);
    assert forall k :: 0 <= k < |r| ==> r[k] == users[if k < i then k else k + 1];
  }

  lemma ValuesAppend(users: seq<User>, u: User)
    ensures Values(users + [u]) == Values(users) + [u.Value()]
  {
  }

  class UserDataBase {
    const me: int
    var userList: seq<User>
    var audiouids: seq<int>
    var videouids: seq<int>

    ghost predicate Valid()
      reads this
    {
      DistinctObjects(userList)
    }

    ghost function Abs(): State
      reads this, userList
    {
      State(me, Values(userList), audiouids, videouids)
    }

    // The objects the roster points to.
    ghost function Pointees(): set<object>
      reads this
    {
      set u | u in userList
    }

    constructor (me: int)
      ensures Valid() && Abs() == State(me, [], [], []) && this.me == me
    {
      this.me, userList, audiouids, videouids := me, [], [], [];
    }

    // getUserObjIndex.
    method GetUserObjIndex(userId: int) returns (index: int)
      ensures index == FindUser(Values(userList), userId)
    {
      for i := 0 to |userList|
        invariant forall k :: 0 <= k < i ==> userList[k].userId != userId
      {
        if userList[i].userId == userId {
          return i;
        }
      }
      return -1;
    }

    // getIndex.
    static method GetIndex(uid: int, v: seq<int>) returns (index: int)
      ensures index == FindId(v, uid)
    {
      for i := 0 to |v|
        invariant forall k :: 0 <= k < i ==> v[k] != uid
      {
        if v[i] == uid {
          return i;
        }
      }
      return -1;
    }

    // removeVectorUid.
    static method RemoveVectorUid(v: seq<int>, uid: int) returns (r: seq<int>)
      ensures r == EraseFrom(v, 0, uid)
    {
      r := v;
      var i := 0;
      while i < |r|
        invariant 0 <= i && EraseFrom(r, i, uid) == EraseFrom(v, 0, uid)
        decreases |r| - i
      {
        if r[i] == uid {
          r := Delete(r, i);
        }
        i := i + 1;
      }
    }

    // yu->micFlag = flag, and yu->camFlag = flag.
    method SetMicFlag(index: nat, flag: int)
      requires Valid() && index < |userList|
      modifies userList[index]
      ensures Values(userList) == old(Values(userList))[index := old(Values(userList))[index].(micFlag := flag)]
    {
      userList[index].micFlag := flag;
    }

    method SetCamFlag(index: nat, flag: int)
      requires Valid() && index < |userList|
      modifies userList[index]
      ensures Values(userList) == old(Values(userList))[index := old(Values(userList))[index].(camFlag := flag)]
    {
      userList[index].camFlag := flag;
    }

    // handleAudioStream.
    method HandleAudioStream(userId: int, isAdd: bool)
      requires Valid()
      modifies this`audiouids, Pointees()
      ensures Valid() && userList == old(userList)
      ensures Abs() == HandleAudio(old(Abs()), userId, isAdd)
    {
      if userId == me {
        return;
      }
      var index := GetUserObjIndex(userId);
      if index < 0 {
        return;
      }
      var uid := userList[index].userId;
      var ind := GetIndex(uid, audiouids);
      if isAdd {
        SetMicFlag(index, 2);
        if ind == -1 {
          audiouids := audiouids + [uid];
        }
      } else {
        if ind > -1 {
          audiouids := Delete(audiouids, ind);
        }
        SetMicFlag(index, 1);
      }
    }

    // handleVideoStream.
    method HandleVideoStream(userId: int, isAdd: bool)
      requires Valid()
      modifies this`videouids, Pointees()
      ensures Valid() && userList == old(userList)
      ensures Abs() == HandleVideo(old(Abs()), userId, isAdd)
    {
      if userId == me {
        return;
      }
      var index := GetUserObjIndex(userId);
      if index < 0 {
        return;
      }
      var uid := userList[index].userId;
      var ind := GetIndex(uid, videouids);
      if isAdd {
        if ind == -1 {
          videouids := videouids + [uid];
        }
        SetCamFlag(index, 2);
      } else {
        SetCamFlag(index, 1);
        if ind > -1 {
          videouids := Delete(videouids, ind);
        }
      }
    }

    // The push of addUser: the new index, or -1 for an id already known.
    method PushUser(m: Member) returns (ret: int)
      requires Valid()
      modifies this`userList
      ensures Valid()
      ensures ret == if FindUser(old(Abs()).users, m.userId) < 0 then |old(userList)| else -1
      ensures Abs() == if ret < 0 then old(Abs()) else old(Abs()).(users := old(Abs()).users + [m])
      ensures fresh(Pointees() - old(Pointees()))
    {
      var yu := new User(m);
      ret := -1;
      var known := GetUserObjIndex(yu.userId);
      if known == -1 {
        ValuesAppend(userList, yu);
        userList := userList + [yu];
        ret := |userList| - 1;
      }
    }

    // addUser, for a text already parsed into the fields of m.
    method AddMember(m: Member) returns (ret: int)
      requires Valid()
      modifies this, Pointees()
      ensures Valid() && Abs() == Step(old(Abs()), AddUser(m))
      ensures ret == if FindUser(old(Abs()).users, m.userId) < 0 then |old(userList)| else -1
      ensures fresh(Pointees() - old(Pointees()))
    {
      ret := PushUser(m);
      if m.micFlag == 2 {
        HandleAudioStream(m.userId, true);
      }
      if m.camFlag == 2 {
        HandleVideoStream(m.userId, true);
      }
    }

    // delUser.
    method DelUser(userId: int)
      requires Valid()
      modifies this, Pointees()
      ensures Valid() && Abs() == Step(old(Abs()), Event.DelUser(userId))
    {
      var i := 0;
      while i < |userList|
        invariant 0 <= i && Valid()
        invariant Pointees() <= old(Pointees())
        invariant DelFrom(Abs(), i, userId) == DelFrom(old(Abs()), 0, userId)
        decreases |userList| - i
      {
        if userList[i].userId == userId {
          HandleAudioStream(userId, false);
          HandleVideoStream(userId, false);
          var erased := EraseAt(i);
        }
        i := i + 1;
      }
    }

    // The erase of loginHandle and logout, with the bounds check of vector::at.
    method EraseAt(ind: int) returns (ok: bool)
      requires Valid()
      modifies this`userList
      ensures Valid() && ok == (0 <= ind < |old(userList)|)
      ensures Abs() == if ok then old(Abs()).(users := Delete(old(Abs()).users, ind)) else old(Abs())
      ensures Pointees() <= old(Pointees())
    {
      if 0 <= ind < |userList| {
        ValuesDelete(userList, ind);
        userList := Delete(userList, ind);
        return true;
      }
      return false;
    }

    // loginHandle; false when vector::at throws.
    method LoginHandle(ind: int, isAdd: bool) returns (ok: bool)
      requires Valid()
      modifies this
      ensures Valid() && ok == !Roster.LoginHandle(old(Abs()), ind, isAdd).OutOfRange?
      ensures Abs() == Step(old(Abs()), Login(ind, isAdd))
    {
      if ind < 0 {
        return true;
      }
      if ind >= |userList| {
        return false;
      }
      var yu := userList[ind];
      if !isAdd {
        audiouids := RemoveVectorUid(audiouids, yu.userId);
        videouids := RemoveVectorUid(videouids, yu.userId);
        ok := EraseAt(ind);
      }
      ok := true;
    }

    // logout; false when vector::at throws.
    method Logout(uid: int) returns (ok: bool)
      requires Valid()
      modifies this
      ensures Valid() && ok == !Roster.Logout(old(Abs()), uid).OutOfRange?
      ensures Abs() == Step(old(Abs()), Leave(uid))
    {
      var ind := GetUserObjIndex(uid);
      if uid > -1 {
        ok := EraseAt(ind);
        if !ok {
          return;
        }
      }
      audiouids := RemoveVectorUid(audiouids, uid);
      videouids := RemoveVectorUid(videouids, uid);
      ok := true;
    }

    // clearData.
    method Clear()
      modifies this
      ensures Valid() && Abs() == Step(old(Abs()), ClearData)
    {
      userList, audiouids, videouids := [], [], [];
    }
  }
}
