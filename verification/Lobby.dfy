/** The records of the lobby and the messages that carry them from the network thread to the
    GUI. */
module Lobby {
  import opened Wrappers
  import opened UserKeys

  /** Everything of a user that assignment copies. The login, status, clock readings and flags are
      one opaque payload. */
  datatype UserBody = UserBody(roomId: string, sequence: nat, payload: string)

  datatype User = User(id: UserKey, body: UserBody) {

    /** Assignment deliberately keeps the id of its target. */
    function Assign(from: User): User {
      User(id, from.body)
    }
  }

  datatype RoomBody = RoomBody(sequence: nat, maxPlayers: nat, password: string, topic: string, payload: string)

  datatype Room = Room(id: string, ownerId: UserKey, body: RoomBody) {

    function Assign(from: Room): Room {
      Room(id, from.ownerId, from.body)
    }
  }

  type Users = map<Option<Node>, User>

  type Rooms = map<string, Room>

  /** One group's house as a value: users by node, rooms by id. */
  datatype House = House(users: Users, rooms: Rooms)

  const EMPTY_HOUSE := House(map[], map[])

  /** The keys of both maps are those of the records they lead to, and every user has a node. */
  ghost predicate WellKeyed(h: House) {
    && (forall k :: k in h.users ==> k.Some? && h.users[k].id.node == k)
    && (forall r :: r in h.rooms ==> h.rooms[r].id == r)
  }

  datatype Message =
    | UserMessage(user: User)
    | UserLeft(user: User)
    | RoomMessage(room: Room)
    | RoomRemove(room: Room)
    | JoinRequest(roomId: string, password: string, sender: UserKey, sequence: nat)
    | Channel(text: string, sender: UserKey, sequence: nat)

  /** A user message carries a copy of the record in which the sequence is the message's own. */
  function AsUserMessage(u: User, sequence: nat): Message {
    UserMessage(u.(body := u.body.(sequence := sequence)))
  }

  function AsUserLeft(u: User, sequence: nat): Message {
    UserLeft(u.(body := u.body.(sequence := sequence)))
  }

  function AsRoomMessage(r: Room, sequence: nat): Message {
    RoomMessage(r.(body := r.body.(sequence := sequence)))
  }

  function AsRoomRemove(r: Room, sequence: nat): Message {
    RoomRemove(r.(body := r.body.(sequence := sequence)))
  }
}
