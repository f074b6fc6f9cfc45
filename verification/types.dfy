/**
 The records the chat-room registry keeps: users, rooms, and the registry
 itself with its four indexes and the next-room-id counter.
 */
module Types {

  /** Fixed-width unsigned integers of the C++ source. */
  newtype u16 = x: int | 0 <= x < 0x1_0000
  newtype u32 = x: int | 0 <= x < 0x1_0000_0000
  newtype u64 = x: int | 0 <= x < 0x1_0000_0000_0000_0000

  const U32Max: int := 0xFFFF_FFFF

  /** Incrementing a uint32_t wraps to 0 after U32Max. */
  function WrapInc(x: u32): u32
  {
    ((x as int + 1) % 0x1_0000_0000) as u32
  }

  /**
   The integer error codes the registry returns; `Ok` stands for 0.
   The numeric values of the others live in a header outside this model.
   */
  datatype Err =
    | Ok
    | UserNameAlredyLogoned
    | UserSameNameExist
    | RoomNotExist
    | RoomPasswdNotMatch
    | UserAlreadyInThisRoom
    | RoomWithSameNameAlreadyExists

  /** The name of the pre-existing room every user joins on logon. */
  const HallName: string := "Hall"

  /**
   The room id a freshly constructed User carries before it joins the Hall.
   HandleLogon overwrites it before returning, so its value is never observed.
   */
  const InvalidRoomId: u32 := 0xFFFF_FFFF

  /** What User::Encode appends to a message, in wire order. */
  datatype UserRecord = UserRecord(name: string, id: u64, ip: string, port: u16)

  datatype User = User(name: string, ip: string, port: u16, id: u64, roomId: u32)
  {
    function Encode(): UserRecord
    {
      UserRecord(name, id, ip, port)
    }
  }

  /** A named, possibly password-protected room and its member ids. */
  datatype Room = Room(id: u32, name: string, passwd: string, users: set<u64>)
  {
    /** An empty stored password is an open room: only "" matches it. */
    predicate IsPasswdOkay(p: string)
    {
      passwd == p
    }

    predicate IsUserIn(u: u64)
    {
      u in users
    }

    function Add(u: u64): Room
    {
      this.(users := users + {u})
    }

    /** Removal only: the leave notification to the other members is I/O. */
    function HandleUserLeave(u: u64): Room
    {
      this.(users := users - {u})
    }
  }

  /**
   The registry: id -> user, user name -> id, room name -> room id,
   room id -> room, and the id the next created room receives.
   */
  datatype Keeper = Keeper(
    idUser: map<u64, User>,
    userNames: map<string, u64>,
    roomNames: map<string, u32>,
    idRoom: map<u32, Room>,
    nextRoomId: u32)

  /** The registry after an operation together with the error code it returned. */
  datatype Reply = Reply(keeper: Keeper, err: Err)

  /** std::map::insert: adds the pair only when the key is absent. */
  function MapInsert<K, V>(m: map<K, V>, key: K, value: V): map<K, V>
  {
    if key in m then m else m[key := value]
  }
}
