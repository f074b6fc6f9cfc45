/**
 Properties that relate several registry calls: repeated logons, repeated
 joins and creations, logon undone by drop, and the sequence after which a
 dropped user's id stays behind in the Hall.
 */
module Scenarios {
  import opened Types
  import opened RoomKeeper
  import opened Invariants

  /** A second logon under a logged-on id fails, whatever name it uses. */
  lemma LogonTwiceRejected(k: Keeper, name: string, name2: string, ip: string, port: u16, userId: u64)
    requires LogonSafe(k, name, userId)
    requires HandleLogon(k, name, ip, port, userId).err == Ok
    ensures var k1 := HandleLogon(k, name, ip, port, userId).keeper;
      && LogonSafe(k1, name2, userId)
      && HandleLogon(k1, name2, ip, port, userId) == Reply(k1, UserNameAlredyLogoned)
  {
  }

  /** A logon under a fresh id but a name already in use fails. */
  lemma SameNameRejected(k: Keeper, name: string, ip: string, port: u16, userId: u64,
                         ip2: string, port2: u16, userId2: u64)
    requires LogonSafe(k, name, userId)
    requires HandleLogon(k, name, ip, port, userId).err == Ok
    requires userId2 !in k.idUser && userId2 != userId
    ensures var k1 := HandleLogon(k, name, ip, port, userId).keeper;
      && LogonSafe(k1, name, userId2)
      && HandleLogon(k1, name, ip2, port2, userId2) == Reply(k1, UserSameNameExist)
  {
  }

  /** Dropping a user right after its logon restores the registry exactly. */
  lemma LogonThenDropRestores(k: Keeper, name: string, ip: string, port: u16, userId: u64)
    requires LogonSafe(k, name, userId)
    requires HandleLogon(k, name, ip, port, userId).err == Ok
    ensures var k1 := HandleLogon(k, name, ip, port, userId).keeper;
      DropSafe(k1, userId) && HandleDrop(k1, userId) == k
  {
    var k1 := HandleLogon(k, name, ip, port, userId).keeper;
    var h := HallId(k);
    var k2 := HandleDrop(k1, userId);
    assert k2.idUser == k.idUser;
    assert k2.userNames == k.userNames;
    assert k2.idRoom[h] == k.idRoom[h];
    assert k2.idRoom == k.idRoom;
  }

  /**
   Joining the same room twice: the second Join fails with
   UserAlreadyInThisRoom and leaves the member set as the first left it.
   */
  lemma JoinTwiceRejected(k: Keeper, roomName: string, userId: u64, passwd: string)
    requires JoinSafe(k, roomName, userId, passwd)
    requires Join(k, roomName, userId, passwd).err == Ok
    ensures var k1 := Join(k, roomName, userId, passwd).keeper;
      && JoinSafe(k1, roomName, userId, passwd)
      && Join(k1, roomName, userId, passwd) == Reply(k1, UserAlreadyInThisRoom)
  {
  }

  /**
   Creating a room under a taken name fails whatever the password, and the
   room created first keeps its password and members.
   */
  lemma CreateTwiceRejected(k: Keeper, name: string, passwd: string, passwd2: string)
    requires CreateRoom(k, name, passwd).err == Ok
    ensures var k1 := CreateRoom(k, name, passwd).keeper;
      CreateRoom(k1, name, passwd2) == Reply(k1, RoomWithSameNameAlreadyExists)
  {
  }

  /**
   In a consistent registry, a registered user can enter a room just created
   with the right password and becomes its only member; with a different
   password it is turned away and the room stays empty.
   */
  lemma CreateThenJoin(k: Keeper, name: string, passwd: string, guess: string, userId: u64)
    requires Consistent(k)
    requires k.nextRoomId as int < U32Max
    requires name !in k.roomNames
    requires userId in k.idUser
    ensures var k1 := CreateRoom(k, name, passwd).keeper;
      && JoinSafe(k1, name, userId, passwd)
      && JoinSafe(k1, name, userId, guess)
      && var ok := Join(k1, name, userId, passwd);
      && ok.err == Ok
      && ok.keeper.idRoom[k.nextRoomId].users == {userId}
      && ok.keeper.idUser[userId].roomId == k.nextRoomId
      && (guess != passwd ==> Join(k1, name, userId, guess) == Reply(k1, RoomPasswdNotMatch))
      && k1.idRoom[k.nextRoomId].users == {}
  {
    assert k.nextRoomId !in k.idRoom;
  }

  /** A registry holding only the open Hall, under id 0. */
  function HallOnly(): (k: Keeper)
    ensures Valid(k) && Exclusive(k)
  {
    Keeper(map[], map[], map[HallName := 0], map[0 := Room(0, HallName, "", {})], 1)
  }

  /**
   The registry right after `name` (id `userId`) created the open room
   "lobby": valid, the user sits in the Hall (id 0), the lobby (id 1) does
   not list it, and it is the only registered user.
   */
  predicate LobbyReady(k: Keeper, name: string, userId: u64)
  {
    && Valid(k)
    && k.userNames == map[name := userId]
    && HallName in k.roomNames && k.roomNames[HallName] == 0
    && userId in k.idUser && k.idUser[userId].roomId == 0
    && "lobby" in k.roomNames && k.roomNames["lobby"] == 1
    && 1 in k.idRoom && k.idRoom[1].passwd == "" && userId !in k.idRoom[1].users
  }

  /** The run's first two steps from HallOnly(): logon, then create "lobby". */
  lemma LogonThenCreateLobby(name: string, ip: string, port: u16, userId: u64)
    ensures LogonSafe(HallOnly(), name, userId)
    ensures LobbyReady(CreateRoom(HandleLogon(HallOnly(), name, ip, port, userId).keeper, "lobby", "").keeper, name, userId)
  {
    var k0 := HallOnly();
    LogonPreservesValid(k0, name, ip, port, userId);
    var k1 := HandleLogon(k0, name, ip, port, userId).keeper;
    assert "lobby" != HallName;
    CreateRoomPreservesValid(k1, "lobby", "");
  }

  /** The run's last two steps: join "lobby", then drop, stranding the id in the Hall. */
  lemma JoinLobbyThenDrop(k: Keeper, name: string, userId: u64)
    requires LobbyReady(k, name, userId)
    ensures JoinSafe(k, "lobby", userId, "")
    ensures DropSafe(Join(k, "lobby", userId, "").keeper, userId)
    ensures var k4 := HandleDrop(Join(k, "lobby", userId, "").keeper, userId);
      && userId !in k4.idUser
      && userId in k4.idRoom[0].users
      && !MembersRegistered(k4)
      && !LogonSafe(k4, name, userId)
  {
    var j := Join(k, "lobby", userId, "");
    assert j.err == Ok;
    JoinThenDropStrandsMember(k, "lobby", userId, "");
    var k4 := HandleDrop(j.keeper, userId);
    assert k4.userNames == map[];
    assert HallPresent(k4) && HallId(k4) == 0;
    StrandedHallMemberBlocksLogon(k4, name, userId);
  }

  /**
   A run from a registry holding only the Hall: a user logs on, creates and
   joins "lobby", and drops. The user's id is left in the Hall, so a new
   logon under that id would trip the assert after the Hall join.
   */
  lemma StaleHallMemberAfterDrop(name: string, ip: string, port: u16, userId: u64)
    ensures var k0 := HallOnly();
      && Valid(k0)
      && LogonSafe(k0, name, userId)
      && var k1 := HandleLogon(k0, name, ip, port, userId).keeper;
      && var k2 := CreateRoom(k1, "lobby", "").keeper;
      && JoinSafe(k2, "lobby", userId, "")
      && var k3 := Join(k2, "lobby", userId, "").keeper;
      && DropSafe(k3, userId)
      && var k4 := HandleDrop(k3, userId);
      && userId !in k4.idUser
      && userId in k4.idRoom[0].users
      && !MembersRegistered(k4)
      && !LogonSafe(k4, name, userId)
  {
    LogonThenCreateLobby(name, ip, port, userId);
    JoinLobbyThenDrop(CreateRoom(HandleLogon(HallOnly(), name, ip, port, userId).keeper, "lobby", "").keeper, name, userId);
  }
}
