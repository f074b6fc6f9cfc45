/**
 The registry operations: logon, join, create room and drop. Each is a pure
 function from the registry before the call to the registry after it and
 the error code returned. The source's fatal asserts become preconditions
 that say exactly when the assert holds.
 */
module RoomKeeper {
  import opened Types

  /** Hall's room id; meaningful when the Hall name is registered. */
  function HallId(k: Keeper): u32
    requires HallName in k.roomNames
  {
    k.roomNames[HallName]
  }

  /**
   The asserts Join can reach hold: a registered room name resolves to a
   room, and a user that passes both admission checks is registered (the
   assert inside SetUserRoomId).
   */
  predicate JoinSafe(k: Keeper, roomName: string, userId: u64, passwd: string)
  {
    roomName in k.roomNames ==>
      && k.roomNames[roomName] in k.idRoom
      && (k.idRoom[k.roomNames[roomName]].IsPasswdOkay(passwd)
          && !k.idRoom[k.roomNames[roomName]].IsUserIn(userId)
          ==> userId in k.idUser)
  }

  /** The Hall exists, is open, and does not already list `userId`. */
  predicate HallAdmits(k: Keeper, userId: u64)
  {
    && HallName in k.roomNames
    && HallId(k) in k.idRoom
    && k.idRoom[HallId(k)].passwd == ""
    && userId !in k.idRoom[HallId(k)].users
  }

  /**
   The assert after the Hall join holds: whenever both uniqueness checks
   pass, joining the Hall with the empty password succeeds.
   */
  predicate LogonSafe(k: Keeper, name: string, userId: u64)
  {
    userId !in k.idUser && name !in k.userNames ==> HallAdmits(k, userId)
  }

  /** The assert in HandleDrop holds: a registered user's current room exists. */
  predicate DropSafe(k: Keeper, userId: u64)
  {
    userId in k.idUser ==> k.idUser[userId].roomId in k.idRoom
  }

  /**
   `k'` is `k` after `userId` entered room `rid`: that room gained exactly
   `userId`, the user's current room is `rid`, and nothing else changed.
   */
  predicate Joined(k: Keeper, k': Keeper, rid: u32, userId: u64)
  {
    && rid in k.idRoom
    && userId in k.idUser
    && userId !in k.idRoom[rid].users
    && k'.idRoom.Keys == k.idRoom.Keys
    && k'.idRoom[rid] == k.idRoom[rid].(users := k.idRoom[rid].users + {userId})
    && (forall r :: r in k.idRoom && r != rid ==> k'.idRoom[r] == k.idRoom[r])
    && k'.idUser.Keys == k.idUser.Keys
    && k'.idUser[userId] == k.idUser[userId].(roomId := rid)
    && (forall v :: v in k.idUser && v != userId ==> k'.idUser[v] == k.idUser[v])
    && k'.userNames == k.userNames
    && k'.roomNames == k.roomNames
    && k'.nextRoomId == k.nextRoomId
  }

  /**
   `k'` is `k` after a successful logon: the user is registered under both
   indexes with the Hall as its room, the Hall gained exactly `userId`, and
   no room, room name or counter changed otherwise.
   */
  predicate LoggedOn(k: Keeper, k': Keeper, name: string, ip: string, port: u16, userId: u64)
  {
    && HallAdmits(k, userId)
    && userId !in k.idUser
    && name !in k.userNames
    && k'.idUser == k.idUser[userId := User(name, ip, port, userId, HallId(k))]
    && k'.userNames == k.userNames[name := userId]
    && k'.idRoom.Keys == k.idRoom.Keys
    && k'.idRoom[HallId(k)].users == k.idRoom[HallId(k)].users + {userId}
    && k'.idRoom[HallId(k)].name == k.idRoom[HallId(k)].name
    && k'.idRoom[HallId(k)].passwd == k.idRoom[HallId(k)].passwd
    && k'.idRoom[HallId(k)].id == k.idRoom[HallId(k)].id
    && (forall r :: r in k.idRoom && r != HallId(k) ==> k'.idRoom[r] == k.idRoom[r])
    && k'.roomNames == k.roomNames
    && k'.nextRoomId == k.nextRoomId
  }

  /**
   `k'` is `k` after creating room `name`: the name maps to the old counter
   value, the counter moved on by one (mod 2^32), and the room-id index holds
   the new empty room unless that id was already taken, in which case
   std::map::insert leaves it as it was.
   */
  predicate Created(k: Keeper, k': Keeper, name: string, passwd: string)
  {
    && name !in k.roomNames
    && k'.roomNames == k.roomNames[name := k.nextRoomId]
    && (k.nextRoomId !in k.idRoom ==>
          k'.idRoom == k.idRoom[k.nextRoomId := Room(k.nextRoomId, name, passwd, {})])
    && (k.nextRoomId in k.idRoom ==> k'.idRoom == k.idRoom)
    && k'.nextRoomId as int == (k.nextRoomId as int + 1) % 0x1_0000_0000
    && k'.idUser == k.idUser
    && k'.userNames == k.userNames
  }

  /**
   `k'` is `k` after dropping registered user `userId`: gone from both user
   indexes, gone from its current room, and every other room untouched.
   */
  predicate Dropped(k: Keeper, k': Keeper, userId: u64)
  {
    && userId in k.idUser
    && var u := k.idUser[userId];
    && u.roomId in k.idRoom
    && k'.idUser == k.idUser - {userId}
    && k'.userNames == k.userNames - {u.name}
    && k'.idRoom.Keys == k.idRoom.Keys
    && k'.idRoom[u.roomId] == k.idRoom[u.roomId].(users := k.idRoom[u.roomId].users - {userId})
    && (forall r :: r in k.idRoom && r != u.roomId ==> k'.idRoom[r] == k.idRoom[r])
    && k'.roomNames == k.roomNames
    && k'.nextRoomId == k.nextRoomId
  }

  /** Points a registered user at room `roomId`; touches nothing else. */
  function SetUserRoomId(k: Keeper, userId: u64, roomId: u32): (k': Keeper)
    requires userId in k.idUser
    ensures k'.idUser.Keys == k.idUser.Keys
    ensures k'.idUser[userId].roomId == roomId
    ensures k'.idUser[userId].name == k.idUser[userId].name
    ensures k'.idUser[userId].ip == k.idUser[userId].ip
    ensures k'.idUser[userId].port == k.idUser[userId].port
    ensures k'.idUser[userId].id == k.idUser[userId].id
    ensures forall v :: v in k.idUser && v != userId ==> k'.idUser[v] == k.idUser[v]
    ensures k'.userNames == k.userNames && k'.roomNames == k.roomNames
    ensures k'.idRoom == k.idRoom && k'.nextRoomId == k.nextRoomId
  {
    k.(idUser := k.idUser[userId := k.idUser[userId].(roomId := roomId)])
  }

  /**
   Enters `userId` into the room called `roomName`. Checks, in order: the
   room exists, the password matches, the user is not already a member.
   Join is additive: the user stays in whatever room it was in before.
   */
  function Join(k: Keeper, roomName: string, userId: u64, passwd: string): (r: Reply)
    requires JoinSafe(k, roomName, userId, passwd)
    ensures r.err in {Ok, RoomNotExist, RoomPasswdNotMatch, UserAlreadyInThisRoom}
    ensures r.err == RoomNotExist <==> roomName !in k.roomNames
    ensures r.err == RoomPasswdNotMatch <==>
      roomName in k.roomNames && k.idRoom[k.roomNames[roomName]].passwd != passwd
    ensures r.err == UserAlreadyInThisRoom <==>
      && roomName in k.roomNames
      && k.idRoom[k.roomNames[roomName]].passwd == passwd
      && userId in k.idRoom[k.roomNames[roomName]].users
    ensures r.err != Ok ==> r.keeper == k
    ensures r.err == Ok ==>
      roomName in k.roomNames && Joined(k, r.keeper, k.roomNames[roomName], userId)
  {
    if roomName !in k.roomNames then
      Reply(k, RoomNotExist)
    else
      var roomId := k.roomNames[roomName];
      var room := k.idRoom[roomId];
      if !room.IsPasswdOkay(passwd) then
        Reply(k, RoomPasswdNotMatch)
      else if room.IsUserIn(userId) then
        Reply(k, UserAlreadyInThisRoom)
      else
        var k1 := k.(idRoom := k.idRoom[roomId := room.Add(userId)]);
        Reply(SetUserRoomId(k1, userId, roomId), Ok)
  }

  /**
   Registers user `userId` called `name` and puts it in the Hall. The id
   check comes before the name check; either failure changes nothing.
   */
  function HandleLogon(k: Keeper, name: string, ip: string, port: u16, userId: u64): (r: Reply)
    requires LogonSafe(k, name, userId)
    ensures r.err in {Ok, UserNameAlredyLogoned, UserSameNameExist}
    ensures r.err == UserNameAlredyLogoned <==> userId in k.idUser
    ensures r.err == UserSameNameExist <==> userId !in k.idUser && name in k.userNames
    ensures r.err != Ok ==> r.keeper == k
    ensures r.err == Ok ==> LoggedOn(k, r.keeper, name, ip, port, userId)
  {
    if userId in k.idUser then
      Reply(k, UserNameAlredyLogoned)
    else if name in k.userNames then
      Reply(k, UserSameNameExist)
    else
      var user := User(name, ip, port, userId, InvalidRoomId);
      var k1 := k.(idUser := MapInsert(k.idUser, userId, user),
                   userNames := MapInsert(k.userNames, name, userId));
      var j := Join(k1, HallName, userId, "");
      assert j.err == Ok;
      j
  }

  /**
   Creates room `name` with password `passwd` under the next room id. A
   taken name is refused and changes nothing.
   */
  function CreateRoom(k: Keeper, name: string, passwd: string): (r: Reply)
    ensures r.err in {Ok, RoomWithSameNameAlreadyExists}
    ensures r.err == RoomWithSameNameAlreadyExists <==> name in k.roomNames
    ensures r.err != Ok ==> r.keeper == k
    ensures r.err == Ok ==> Created(k, r.keeper, name, passwd)
  {
    if name in k.roomNames then
      Reply(k, RoomWithSameNameAlreadyExists)
    else
      var room := Room(k.nextRoomId, name, passwd, {});
      Reply(k.(roomNames := MapInsert(k.roomNames, name, k.nextRoomId),
               idRoom := MapInsert(k.idRoom, k.nextRoomId, room),
               nextRoomId := WrapInc(k.nextRoomId)),
            Ok)
  }

  /**
   Tears down user `userId`: leaves its current room (that room only) and is
   erased from both user indexes. An unknown id changes nothing.
   */
  function HandleDrop(k: Keeper, userId: u64): (k': Keeper)
    requires DropSafe(k, userId)
    ensures userId !in k.idUser ==> k' == k
    ensures userId in k.idUser ==> Dropped(k, k', userId)
  {
    if userId !in k.idUser then
      k
    else
      var user := k.idUser[userId];
      var room := k.idRoom[user.roomId];
      k.(idRoom := k.idRoom[user.roomId := room.HandleUserLeave(userId)],
         userNames := k.userNames - {user.name},
         idUser := k.idUser - {userId})
  }
}
