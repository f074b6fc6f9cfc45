# Chat-room registry (RoomKeeper) in Dafny

This project models the server-side registry of a small multi-room chat
service. The registry is `RoomKeeper` in `src/Main/server/RoomKeeper.cpp`.
Clients log on with a unique id and a unique name and land in the Hall room.
They may create rooms, which can be password-protected, and join them. When a
connection drops, its user is torn down. A logon reply carries the roster of
a room: the member count, then one encoded user record per member.

The registry keeps four indexes and a counter. The model holds them in one
immutable record, `Types.Keeper`:

- `idUser`: user id to `User` (name, ip, port, id, current room id)
- `userNames`: user name to user id
- `roomNames`: room name to room id
- `idRoom`: room id to `Room` (id, name, password, set of member ids)
- `nextRoomId`: the id the next created room receives

Each operation is a pure function. HandleLogon, Join and CreateRoom return
the registry after the call together with the error code (`Types.Reply`).
HandleDrop and SetUserRoomId return only the registry after the call,
because the source returns nothing there. The roster walk is a method with
a loop.

The fatal `assert`s of the source become preconditions. Each precondition
says exactly when its assert holds and nothing more:

- `JoinSafe` covers the asserts reachable from Join.
- `LogonSafe` covers the assert after the Hall join. It requires the Hall to
  exist, to be open, and not to list the new id already.
- `DropSafe` covers the assert in HandleDrop.

The models of the `Room` and `User` helpers are:

- password check: string equality
- membership test, add and leave: set operations
- `User::Encode`: a `UserRecord(name, id, ip, port)`

## Invariants

`Invariants.Consistent` has five parts:

- the two user indexes agree
- the two room indexes agree
- every room id is below the counter
- the Hall exists and is open
- every user is a member of its current room

Logon, Join and HandleDrop preserve it, each on its own
(`Invariants.LogonPreservesConsistent`, `Invariants.JoinPreservesConsistent`,
`Invariants.DropPreservesConsistent`). CreateRoom preserves it only while the
`uint32_t` counter has not wrapped (`Invariants.CreateRoomPreservesConsistent`).
Once the counter has wrapped, freshness is lost
(`Invariants.CreateRoomWrapLosesFreshness`). When the counter reaches an id
still in use, the next CreateRoom of a fresh name binds that name to the taken
id while the room under the id keeps its old name, so the room indexes
disagree (`Invariants.WrappedCreateRebindsTakenId`).

`Invariants.MembersRegistered` says that every member id of every room
belongs to a registered user. Logon, Join and CreateRoom preserve it.
HandleDrop does not. Join is additive: it adds the user to the new room and
never removes it from the old one. HandleDrop removes the user from its
current room only. So after a Join, a drop leaves the id behind in the room
the user came from.

This is proved in general (`Invariants.JoinThenDropStrandsMember`) and on a
run from a registry holding only the Hall (`Scenarios.StaleHallMemberAfterDrop`). After such a run, two
later calls trip fatal asserts:

- Building the Hall roster trips the assert in GetRoomUserListMsg, because
  its precondition asks every member to be registered.
- A logon that reuses the dropped id trips the assert after the Hall join
  (`Invariants.StrandedHallMemberBlocksLogon`).

The stronger invariant `Invariants.Exclusive` says that every member has
that room as its current room. Logon, CreateRoom and HandleDrop preserve it.
Every successful Join breaks it (`Invariants.JoinBreaksExclusive`).

## Model

| member | source | states |
|---|---|---|
| RoomKeeper.HandleLogon | src/Main/server/RoomKeeper.cpp:7-46 | The id check comes first, then the name check; each failure returns its code and leaves all four indexes and the counter unchanged. On success it returns Ok, both user indexes hold the new user with the Hall as its room, and the Hall gains exactly the new id. The precondition is exactly the assert after the Hall join. |
| RoomKeeper.Join | src/Main/server/RoomKeeper.cpp:48-97 | The error code is RoomNotExist, RoomPasswdNotMatch or UserAlreadyInThisRoom exactly when the corresponding check, taken in source order, fails. Any failure leaves the registry unchanged. On success exactly the target room gains the user, the user's current room becomes the target, and every other room is untouched, including the previous one. |
| RoomKeeper.SetUserRoomId | src/Main/server/RoomKeeper.cpp:99-106 | Only the registered user's current room id changes. Its other fields, all other users and the other three indexes stay as they were. |
| RoomKeeper.CreateRoom | src/Main/server/RoomKeeper.cpp:137-162 | The result is RoomWithSameNameAlreadyExists exactly when the name is taken, and then nothing changes. On success the name maps to the old counter value and the counter advances by one modulo 2^32. A fresh id gets a new empty room with the given password; an id already in use is left alone, as std::map::insert does. |
| RoomKeeper.HandleDrop | src/Main/server/RoomKeeper.cpp:164-202 | An unknown id changes nothing. A known user is removed from the id index, its name from the name index, and its id from the member set of its current room only; every other room, the room names and the counter are unchanged. |
| Roster.GetRoomUserListMsg | src/Main/server/RoomKeeper.cpp:108-135 | The count is the member-set size truncated to uint32_t. One record follows per member, the i-th being the encoded record of the i-th member in ascending id order. The room must exist and every member must be registered: these are the two fatal asserts. From 2^32 members on, the count and the number of records disagree, as in the source, which truncates the count but walks every member. |
| Roster.InOrder | src/Main/server/RoomKeeper.cpp:127-128 | The std::set iteration order of a set of ids yields exactly as many ids as the set holds. |
| Roster.InOrderAscending | src/Main/server/RoomKeeper.cpp:127-128 | That iteration order lists every member exactly once, only members, in strictly ascending order. |
| Roster.InOrderIsUnique | src/Main/server/RoomKeeper.cpp:127-128 | Any strictly ascending enumeration of a member set equals that iteration order, so the roster a room produces is fully determined by its member set. |
| Invariants.ValidLogonSafe | src/Main/server/RoomKeeper.cpp:39-41 | In a consistent registry whose members are all registered, the assert after the Hall join holds for every logon. |
| Invariants.ConsistentDropSafe | src/Main/server/RoomKeeper.cpp:181-184 | In a consistent registry, a registered user's current room always exists, so the assert in HandleDrop holds. |
| Invariants.LogonPreservesConsistent | src/Main/server/RoomKeeper.cpp:34-41 | HandleLogon keeps both pairs of indexes in agreement, the counter above every room id, the Hall open, and every user in its current room, without needing every member to be registered. |
| Invariants.LogonPreservesValid | src/Main/server/RoomKeeper.cpp:34-41 | HandleLogon keeps the registry consistent and keeps every member registered. It also keeps single-room membership. |
| Invariants.JoinPreservesConsistent | src/Main/server/RoomKeeper.cpp:88-92 | Join keeps the registry consistent; in particular the joining user is a member of its new current room. |
| Invariants.JoinPreservesValid | src/Main/server/RoomKeeper.cpp:88-92 | Join keeps the registry consistent and keeps every member registered. |
| Invariants.JoinBreaksExclusive | src/Main/server/RoomKeeper.cpp:88-92 | After every successful Join the user is listed both in the room it came from and in the room it joined, so single-room membership fails. |
| Invariants.CreateRoomPreservesConsistent | src/Main/server/RoomKeeper.cpp:154-158 | While the counter is below the largest uint32_t, CreateRoom keeps the registry consistent: the new id is fresh, both room indexes agree on it, and the counter stays above it. |
| Invariants.CreateRoomPreservesValid | src/Main/server/RoomKeeper.cpp:154-158 | CreateRoom keeps the registry consistent, the members registered and single-room membership, as long as the counter is below the largest uint32_t. |
| Invariants.CreateRoomWrapLosesFreshness | src/Main/server/RoomKeeper.cpp:154-158 | A CreateRoom at the largest uint32_t counter succeeds, wraps the counter to 0, and leaves the Hall's id at or above the counter. |
| Invariants.WrappedCreateRebindsTakenId | src/Main/server/RoomKeeper.cpp:154-158 | If the counter has come round to an id still in use, a CreateRoom of a fresh name succeeds and maps the name to that id, but the room under the id is unchanged and keeps another name, so the two room indexes no longer agree. |
| Invariants.DropPreservesConsistent | src/Main/server/RoomKeeper.cpp:180-194 | HandleDrop of any id keeps both pairs of indexes in agreement, keeps the Hall, and keeps every remaining user in its current room. |
| Invariants.DropKeepsMembersIff | src/Main/server/RoomKeeper.cpp:181-194 | In a valid registry, dropping a registered user keeps every member registered if and only if no room other than the user's current one lists it. |
| Invariants.DropPreservesValidIfExclusive | src/Main/server/RoomKeeper.cpp:187-194 | If every member is a member of its current room only, HandleDrop also keeps every member registered. |
| Invariants.JoinThenDropStrandsMember | src/Main/server/RoomKeeper.cpp:181-190 | A successful Join followed by the user's drop leaves its id in the room it was in before the Join, while the user is no longer registered. |
| Invariants.StrandedHallMemberBlocksLogon | src/Main/server/RoomKeeper.cpp:39-41 | Suppose an unregistered id is still listed in the Hall. Then a logon under that id with a fresh name would trip the assert after the Hall join. |
| Scenarios.LogonTwiceRejected | src/Main/server/RoomKeeper.cpp:17-24 | A second logon under an id that just logged on fails with UserNameAlredyLogoned, whatever the name, and changes nothing. |
| Scenarios.SameNameRejected | src/Main/server/RoomKeeper.cpp:26-32 | A logon with a fresh id but a name that just logged on fails with UserSameNameExist and changes nothing. |
| Scenarios.LogonThenDropRestores | src/Main/server/RoomKeeper.cpp:187-196 | Dropping a user right after its logon gives back exactly the registry before the logon. |
| Scenarios.JoinTwiceRejected | src/Main/server/RoomKeeper.cpp:80-86 | Repeating a successful Join fails with UserAlreadyInThisRoom and leaves the membership as the first Join left it. |
| Scenarios.CreateTwiceRejected | src/Main/server/RoomKeeper.cpp:145-152 | A second CreateRoom under a taken name fails whatever its password, and the first room's password and members stay as they were. |
| Scenarios.CreateThenJoin | src/Main/server/RoomKeeper.cpp:154-158 | A freshly created room starts empty. A registered user who gives its password becomes its only member and has it as current room. A user who gives a different password is refused with RoomPasswdNotMatch. |
| Scenarios.LogonThenCreateLobby | src/Main/server/RoomKeeper.cpp:34-41 | From a registry holding only the Hall (id 0), any user's logon is safe. After the logon and a CreateRoom of "lobby", the registry is valid, the user is the only one registered and sits in the Hall, and "lobby" is an open room with id 1 that does not list the user. |
| Scenarios.JoinLobbyThenDrop | src/Main/server/RoomKeeper.cpp:181-190 | From that state, joining "lobby" and then dropping is safe. Afterwards the user is unregistered but still listed in the Hall, so a logon under its id and name would trip the assert after the Hall join. |
| Scenarios.StaleHallMemberAfterDrop | src/Main/server/RoomKeeper.cpp:187-190 | Start from a registry holding only the Hall. Any user, whatever its name, address and id, logs on, creates and joins a room, then drops. Its id stays in the Hall, so not every member is registered and a new logon under the id would trip the assert after the Hall join. |

## Left out

- Client side (`src/Main/client/Client.cpp`, `Client.hpp`): network start-up, connecting, enqueueing, envelope reference counting, the `Process` routing, `exit` on logon failure and the empty window hooks are transport and UI plumbing. `ParseUserList` decodes with `Msg` and `User::Decode`, which are not part of this model.
- The byte-level `Msg` class: framing, the length header and the `<<`/`>>` operators. The roster is an abstract count followed by a sequence of `UserRecord`s.
- Logging, the human-readable `errstr` texts, and raw `new`/`delete` ownership. Join's `errstr` is a by-value parameter, so its texts never reach a caller anyway. Only the integer codes are modelled.
- The notification that `Room::HandleUserLeave` sends to the remaining members is I/O. Only the set removal is modelled.
- `RoomKeeper.hpp`, `Err.hpp`, `Room.hpp` and `User.hpp` are not part of this model. Several values therefore are assumptions:
  - The Hall's name is taken as `"Hall"`.
  - The error codes are an enumeration with `Ok` for 0, because their numeric values are not visible.
  - The room id a new `User` carries before it joins the Hall is a placeholder. HandleLogon always overwrites it.
  - The counter's width is taken as `uint32_t`, like the room-name index's values.
- The registry's constructor is not part of this model, and with it how the Hall is first created. The invariant results hold for any starting registry that satisfies `Invariants.Consistent`, which assumes of the constructor that:
  - the Hall's name is in the room-name index, and its room record is under the id that index gives, carrying that id and the Hall's name;
  - the Hall is open (empty password);
  - the counter starts above every room id in use, the Hall's included;
  - every registered user, if there is any yet, is a member of its current room.
- Concurrency: every call runs to completion on a single logic context, so each operation is one atomic state transition.
