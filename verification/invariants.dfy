/**
 The registry's consistency conditions and which operations keep them.

 `Consistent` (the two pairs of indexes agree, the counter is ahead of every
 room id, the Hall is open, every user sits in its current room) is kept by
 every operation, CreateRoom up to the counter's wrap-around.
 `MembersRegistered` (every member id belongs to a registered user) is not:
 Join leaves the user in its previous room, HandleDrop only cleans the
 current one, so a Join followed by a drop strands the id in the old room.
 */
module Invariants {
  import opened Types
  import opened RoomKeeper

  /** The id index and the name index describe the same users. */
  predicate UserIndexesAgree(k: Keeper)
  {
    && (forall id :: id in k.idUser ==>
          && k.idUser[id].id == id
          && k.idUser[id].name in k.userNames
          && k.userNames[k.idUser[id].name] == id)
    && (forall n :: n in k.userNames ==>
          k.userNames[n] in k.idUser && k.idUser[k.userNames[n]].name == n)
  }

  /** The room-name index and the room-id index describe the same rooms. */
  predicate RoomIndexesAgree(k: Keeper)
  {
    && (forall n :: n in k.roomNames ==>
          k.roomNames[n] in k.idRoom && k.idRoom[k.roomNames[n]].name == n)
    && (forall rid :: rid in k.idRoom ==>
          && k.idRoom[rid].id == rid
          && k.idRoom[rid].name in k.roomNames
          && k.roomNames[k.idRoom[rid].name] == rid)
  }

  /** The next room id is larger than every id in use. */
  predicate CounterFresh(k: Keeper)
  {
    forall rid :: rid in k.idRoom ==> rid < k.nextRoomId
  }

  predicate HallPresent(k: Keeper)
  {
    HallName in k.roomNames && HallId(k) in k.idRoom && k.idRoom[HallId(k)].passwd == ""
  }

  /** Every registered user's current room exists and lists the user. */
  predicate UsersPlaced(k: Keeper)
  {
    forall id :: id in k.idUser ==>
      k.idUser[id].roomId in k.idRoom && id in k.idRoom[k.idUser[id].roomId].users
  }

  /** Every member id of every room is a registered user. */
  predicate MembersRegistered(k: Keeper)
  {
    forall rid, u :: rid in k.idRoom && u in k.idRoom[rid].users ==> u in k.idUser
  }

  /** Every member of a room has that room as its current room. */
  predicate Exclusive(k: Keeper)
  {
    forall rid, u :: rid in k.idRoom && u in k.idRoom[rid].users ==>
      u in k.idUser && k.idUser[u].roomId == rid
  }

  predicate Consistent(k: Keeper)
  {
    && UserIndexesAgree(k)
    && RoomIndexesAgree(k)
    && CounterFresh(k)
    && HallPresent(k)
    && UsersPlaced(k)
  }

  predicate Valid(k: Keeper)
  {
    Consistent(k) && MembersRegistered(k)
  }

  /** In a valid registry the assert after the Hall join cannot fire. */
  lemma ValidLogonSafe(k: Keeper, name: string, userId: u64)
    requires Valid(k)
    ensures LogonSafe(k, name, userId)
  {
    if userId !in k.idUser {
      var h := HallId(k);
      assert userId !in k.idRoom[h].users;
    }
  }

  /** In a consistent registry the assert in HandleDrop cannot fire. */
  lemma ConsistentDropSafe(k: Keeper, userId: u64)
    requires Consistent(k)
    ensures DropSafe(k, userId)
  {
  }

  /** HandleLogon keeps the registry consistent, whether or not every member is registered. */
  lemma LogonPreservesConsistent(k: Keeper, name: string, ip: string, port: u16, userId: u64)
    requires Consistent(k)
    requires LogonSafe(k, name, userId)
    ensures Consistent(HandleLogon(k, name, ip, port, userId).keeper)
  {
    var r := HandleLogon(k, name, ip, port, userId);
    if r.err == Ok {
      LoggedOnKeepsUserIndexes(k, r.keeper, name, ip, port, userId);
      LoggedOnKeepsRoomIndexes(k, r.keeper, name, ip, port, userId);
      LoggedOnKeepsPlacement(k, r.keeper, name, ip, port, userId);
    }
  }

  lemma LogonPreservesValid(k: Keeper, name: string, ip: string, port: u16, userId: u64)
    requires Valid(k)
    requires LogonSafe(k, name, userId)
    ensures Valid(HandleLogon(k, name, ip, port, userId).keeper)
    ensures Exclusive(k) ==> Exclusive(HandleLogon(k, name, ip, port, userId).keeper)
  {
    LogonPreservesConsistent(k, name, ip, port, userId);
    var r := HandleLogon(k, name, ip, port, userId);
    if r.err == Ok {
      LoggedOnKeepsMembers(k, r.keeper, name, ip, port, userId);
      if Exclusive(k) {
        LoggedOnKeepsExclusive(k, r.keeper, name, ip, port, userId);
      }
    }
  }

  lemma LoggedOnKeepsUserIndexes(k: Keeper, k': Keeper, name: string, ip: string, port: u16, userId: u64)
    requires UserIndexesAgree(k)
    requires LoggedOn(k, k', name, ip, port, userId)
    ensures UserIndexesAgree(k')
  {
    forall id | id in k'.idUser
      ensures k'.idUser[id].id == id && k'.idUser[id].name in k'.userNames
      ensures k'.userNames[k'.idUser[id].name] == id
    {
      if id != userId {
        assert k.idUser[id].name != name;
      }
    }
  }

  lemma LoggedOnKeepsRoomIndexes(k: Keeper, k': Keeper, name: string, ip: string, port: u16, userId: u64)
    requires Consistent(k)
    requires LoggedOn(k, k', name, ip, port, userId)
    ensures RoomIndexesAgree(k') && CounterFresh(k') && HallPresent(k')
  {
    forall n | n in k'.roomNames
      ensures k'.roomNames[n] in k'.idRoom && k'.idRoom[k'.roomNames[n]].name == n
    {
      assert k.roomNames[n] in k.idRoom;
    }
  }

  lemma LoggedOnKeepsPlacement(k: Keeper, k': Keeper, name: string, ip: string, port: u16, userId: u64)
    requires UsersPlaced(k)
    requires LoggedOn(k, k', name, ip, port, userId)
    ensures UsersPlaced(k')
  {
    forall id | id in k'.idUser
      ensures k'.idUser[id].roomId in k'.idRoom
      ensures id in k'.idRoom[k'.idUser[id].roomId].users
    {
      if id != userId {
        var c := k.idUser[id].roomId;
        assert id in k.idRoom[c].users;
      }
    }
  }

  lemma LoggedOnKeepsMembers(k: Keeper, k': Keeper, name: string, ip: string, port: u16, userId: u64)
    requires MembersRegistered(k)
    requires LoggedOn(k, k', name, ip, port, userId)
    ensures MembersRegistered(k')
  {
    forall rid, u | rid in k'.idRoom && u in k'.idRoom[rid].users
      ensures u in k'.idUser
    {
      if u != userId {
        assert u in k.idRoom[rid].users;
      }
    }
  }

  lemma LoggedOnKeepsExclusive(k: Keeper, k': Keeper, name: string, ip: string, port: u16, userId: u64)
    requires Exclusive(k)
    requires LoggedOn(k, k', name, ip, port, userId)
    ensures Exclusive(k')
  {
    forall rid, u | rid in k'.idRoom && u in k'.idRoom[rid].users
      ensures u in k'.idUser && k'.idUser[u].roomId == rid
    {
      if u != userId {
        assert u in k.idRoom[rid].users;
      }
    }
  }

  /** Join keeps the registry consistent, whether or not every member is registered. */
  lemma JoinPreservesConsistent(k: Keeper, roomName: string, userId: u64, passwd: string)
    requires Consistent(k)
    requires JoinSafe(k, roomName, userId, passwd)
    ensures Consistent(Join(k, roomName, userId, passwd).keeper)
  {
    var r := Join(k, roomName, userId, passwd);
    if r.err == Ok {
      var k' := r.keeper;
      forall id | id in k'.idUser
        ensures k'.idUser[id].roomId in k'.idRoom
        ensures id in k'.idRoom[k'.idUser[id].roomId].users
      {
        if id != userId {
          var c := k.idUser[id].roomId;
          assert id in k.idRoom[c].users;
        }
      }
    }
  }

  lemma JoinPreservesValid(k: Keeper, roomName: string, userId: u64, passwd: string)
    requires Valid(k)
    requires JoinSafe(k, roomName, userId, passwd)
    ensures Valid(Join(k, roomName, userId, passwd).keeper)
  {
    JoinPreservesConsistent(k, roomName, userId, passwd);
    var r := Join(k, roomName, userId, passwd);
    if r.err == Ok {
      var k' := r.keeper;
      forall r', u | r' in k'.idRoom && u in k'.idRoom[r'].users
        ensures u in k'.idUser
      {
        if u != userId {
          assert u in k.idRoom[r'].users;
        }
      }
    }
  }

  /**
   Every successful Join in a consistent registry leaves the user a member
   of two rooms: the one it came from and the one it joined.
   */
  lemma JoinBreaksExclusive(k: Keeper, roomName: string, userId: u64, passwd: string)
    requires Consistent(k)
    requires JoinSafe(k, roomName, userId, passwd)
    requires Join(k, roomName, userId, passwd).err == Ok
    ensures var k' := Join(k, roomName, userId, passwd).keeper;
      && k.idUser[userId].roomId != k.roomNames[roomName]
      && userId in k'.idRoom[k.idUser[userId].roomId].users
      && userId in k'.idRoom[k.roomNames[roomName]].users
      && !Exclusive(k')
  {
    var k' := Join(k, roomName, userId, passwd).keeper;
    var c := k.idUser[userId].roomId;
    var rid := k.roomNames[roomName];
    assert userId in k.idRoom[c].users;
    assert c != rid;
    assert userId in k'.idRoom[c].users;
    assert k'.idUser[userId].roomId == rid;
  }

  /**
   CreateRoom keeps the registry consistent as long as the counter does not
   wrap: the new room id is fresh, and the counter stays ahead of it.
   */
  lemma CreateRoomPreservesConsistent(k: Keeper, name: string, passwd: string)
    requires Consistent(k)
    requires k.nextRoomId as int < U32Max
    ensures Consistent(CreateRoom(k, name, passwd).keeper)
  {
    var r := CreateRoom(k, name, passwd);
    if r.err == Ok {
      var k' := r.keeper;
      var id := k.nextRoomId;
      assert id !in k.idRoom;
      assert RoomIndexesAgree(k') by {
        forall n | n in k'.roomNames
          ensures k'.roomNames[n] in k'.idRoom && k'.idRoom[k'.roomNames[n]].name == n
        {
          if n != name {
            assert k.roomNames[n] in k.idRoom;
          }
        }
        forall rid | rid in k'.idRoom
          ensures k'.idRoom[rid].id == rid && k'.idRoom[rid].name in k'.roomNames
          ensures k'.roomNames[k'.idRoom[rid].name] == rid
        {
          if rid != id {
            assert k.idRoom[rid].name in k.roomNames;
          }
        }
      }
      assert CounterFresh(k') by {
        forall rid | rid in k'.idRoom
          ensures rid < k'.nextRoomId
        {
          if rid != id {
            assert rid < id;
          }
        }
      }
      assert UsersPlaced(k') by {
        forall u | u in k'.idUser
          ensures k'.idUser[u].roomId in k'.idRoom
          ensures u in k'.idRoom[k'.idUser[u].roomId].users
        {
          assert k.idUser[u].roomId in k.idRoom;
        }
      }
    }
  }

  /** CreateRoom also keeps every member registered, and single-room membership. */
  lemma CreateRoomPreservesValid(k: Keeper, name: string, passwd: string)
    requires Valid(k)
    requires k.nextRoomId as int < U32Max
    ensures Valid(CreateRoom(k, name, passwd).keeper)
    ensures Exclusive(k) ==> Exclusive(CreateRoom(k, name, passwd).keeper)
  {
    CreateRoomPreservesConsistent(k, name, passwd);
    var r := CreateRoom(k, name, passwd);
    if r.err == Ok {
      var k' := r.keeper;
      var id := k.nextRoomId;
      assert id !in k.idRoom;
      forall rid, u | rid in k'.idRoom && u in k'.idRoom[rid].users
        ensures u in k'.idUser
      {
        assert rid != id;
        assert u in k.idRoom[rid].users;
      }
      if Exclusive(k) {
        forall rid, u | rid in k'.idRoom && u in k'.idRoom[rid].users
          ensures u in k'.idUser && k'.idUser[u].roomId == rid
        {
          assert rid != id;
          assert u in k.idRoom[rid].users;
        }
      }
    }
  }

  /**
   At the last uint32_t id the counter wraps to 0 and the registry loses
   counter freshness: the Hall's id is no longer below the counter.
   */
  lemma CreateRoomWrapLosesFreshness(k: Keeper, name: string, passwd: string)
    requires HallPresent(k)
    requires name !in k.roomNames
    requires k.nextRoomId as int == U32Max
    ensures CreateRoom(k, name, passwd).err == Ok
    ensures CreateRoom(k, name, passwd).keeper.nextRoomId == 0
    ensures !CounterFresh(CreateRoom(k, name, passwd).keeper)
  {
    var k' := CreateRoom(k, name, passwd).keeper;
    assert HallId(k) in k'.idRoom;
  }

  /**
   Once the counter has come round to an id still in use, the next CreateRoom
   of a fresh name succeeds and binds the name to that id, but std::map::insert
   keeps the old room under it: the two room indexes no longer agree.
   */
  lemma WrappedCreateRebindsTakenId(k: Keeper, name: string, passwd: string)
    requires RoomIndexesAgree(k)
    requires k.nextRoomId in k.idRoom
    requires name !in k.roomNames
    ensures var r := CreateRoom(k, name, passwd);
      && r.err == Ok
      && r.keeper.roomNames[name] == k.nextRoomId
      && r.keeper.idRoom == k.idRoom
      && r.keeper.idRoom[k.nextRoomId].name != name
      && !RoomIndexesAgree(r.keeper)
  {
  }

  /** Dropping any user, known or not, keeps the registry consistent. */
  lemma DropPreservesConsistent(k: Keeper, userId: u64)
    requires Consistent(k)
    ensures Consistent(HandleDrop(k, userId))
  {
    if userId in k.idUser {
      var k' := HandleDrop(k, userId);
      var user := k.idUser[userId];
      assert UserIndexesAgree(k') by {
        forall id | id in k'.idUser
          ensures k'.idUser[id].id == id && k'.idUser[id].name in k'.userNames
          ensures k'.userNames[k'.idUser[id].name] == id
        {
          assert k.userNames[k.idUser[id].name] == id;
          assert k.idUser[id].name != user.name;
        }
        forall n | n in k'.userNames
          ensures k'.userNames[n] in k'.idUser && k'.idUser[k'.userNames[n]].name == n
        {
          assert k.idUser[k.userNames[n]].name == n;
        }
      }
      assert UsersPlaced(k') by {
        forall id | id in k'.idUser
          ensures k'.idUser[id].roomId in k'.idRoom
          ensures id in k'.idRoom[k'.idUser[id].roomId].users
        {
          var c := k.idUser[id].roomId;
          assert id in k.idRoom[c].users;
        }
      }
    }
  }

  /**
   HandleDrop keeps every member registered exactly when the dropped user
   is a member of no room but its current one: HandleDrop cleans only that
   room, so an id left in any other room is stranded.
   */
  lemma DropKeepsMembersIff(k: Keeper, userId: u64)
    requires Valid(k)
    requires userId in k.idUser
    ensures MembersRegistered(HandleDrop(k, userId)) <==>
      forall r :: r in k.idRoom && r != k.idUser[userId].roomId ==> userId !in k.idRoom[r].users
  {
    var k' := HandleDrop(k, userId);
    var c := k.idUser[userId].roomId;
    if forall r :: r in k.idRoom && r != c ==> userId !in k.idRoom[r].users {
      forall rid, u | rid in k'.idRoom && u in k'.idRoom[rid].users
        ensures u in k'.idUser
      {
        assert u in k.idRoom[rid].users;
        assert u != userId;
      }
    } else {
      var r :| r in k.idRoom && r != c && userId in k.idRoom[r].users;
      assert userId in k'.idRoom[r].users;
      assert userId !in k'.idUser;
    }
  }

  /**
   If every member is a member of its current room only, HandleDrop keeps
   every member registered, and single-room membership.
   */
  lemma DropPreservesValidIfExclusive(k: Keeper, userId: u64)
    requires Valid(k)
    requires Exclusive(k)
    ensures Valid(HandleDrop(k, userId))
    ensures Exclusive(HandleDrop(k, userId))
  {
    DropPreservesConsistent(k, userId);
    if userId in k.idUser {
      var k' := HandleDrop(k, userId);
      var c := k.idUser[userId].roomId;
      forall r | r in k.idRoom && r != c
        ensures userId !in k.idRoom[r].users
      {
      }
      DropKeepsMembersIff(k, userId);
      forall rid, u | rid in k'.idRoom && u in k'.idRoom[rid].users
        ensures k'.idUser[u].roomId == rid
      {
        assert u in k.idRoom[rid].users;
      }
    }
  }

  /**
   Join then HandleDrop strands the user's id in the room it was in before
   the Join: that room still lists it while the user is no longer registered.
   */
  lemma JoinThenDropStrandsMember(k: Keeper, roomName: string, userId: u64, passwd: string)
    requires Consistent(k)
    requires JoinSafe(k, roomName, userId, passwd)
    requires Join(k, roomName, userId, passwd).err == Ok
    ensures var k1 := Join(k, roomName, userId, passwd).keeper;
      && Consistent(k1)
      && DropSafe(k1, userId)
      && var k2 := HandleDrop(k1, userId);
      && userId !in k2.idUser
      && userId in k2.idRoom[k.idUser[userId].roomId].users
      && !MembersRegistered(k2)
  {
    var k1 := Join(k, roomName, userId, passwd).keeper;
    var c := k.idUser[userId].roomId;
    JoinBreaksExclusive(k, roomName, userId, passwd);
    JoinPreservesConsistent(k, roomName, userId, passwd);
    var k2 := HandleDrop(k1, userId);
    assert userId in k2.idRoom[c].users;
  }

  /**
   A stranded id in the Hall makes a later logon under that id violate the
   assert after the Hall join, whatever fresh name it uses.
   */
  lemma StrandedHallMemberBlocksLogon(k: Keeper, name: string, userId: u64)
    requires HallPresent(k)
    requires userId !in k.idUser
    requires name !in k.userNames
    requires userId in k.idRoom[HallId(k)].users
    ensures !LogonSafe(k, name, userId)
    ensures !MembersRegistered(k)
  {
  }
}
