/** What one group's handler does to its house and which messages it emits, as functions on
    values. The GroupHandler class is proved to do exactly this. */
module Protocol {
  import opened Wrappers
  import opened UserKeys
  import opened Lobby

  /** A new house and what was sent to the GUI on the way. */
  datatype Out = Out(house: House, sent: seq<Message>)

  function RoomClosed(h: House, rid: string): Out {
    if rid in h.rooms then
      Out(h.(rooms := h.rooms - {rid}), [AsRoomRemove(h.rooms[rid], 0)])
    else
      Out(h, [])
  }

  predicate Owns(h: House, rid: string, key: UserKey) {
    rid in h.rooms && h.rooms[rid].ownerId.Same(key)
  }

  /** The room a user hosts goes with the user. The user's own record stays for the caller. */
  function UserErased(h: House, u: User): Out {
    var c := if u.body.roomId != "" && Owns(h, u.body.roomId, u.id)
             then RoomClosed(h, u.body.roomId) else Out(h, []);
    Out(c.house, c.sent + [AsUserLeft(u, 0)])
  }

  function SetUser(h: House, u: User): House {
    h.(users := h.users[u.id.node := u])
  }

  predicate Restarted(was: User, upd: User) {
    was.id.idStr != "" && upd.id.idStr != "" && was.id.idStr != upd.id.idStr
  }

  /** The update as it is announced: its key takes the node of the record it is for. */
  function Keyed(was: User, upd: User): User {
    upd.(id := UserKey(was.id.node, upd.id.idStr))
  }

  /** The id the record has once the update is taken in: an empty id string never replaces one. */
  function SettledId(was: User, upd: User): UserKey {
    if was.id.idStr == "" || Restarted(was, upd) then Keyed(was, upd).id else was.id
  }

  /** First half of user_update: the id of the old record. A user that comes back under another id
      before its absence was noticed is announced as gone first. */
  function IdSettled(h: House, was: User, upd: User): Out {
    var e := if Restarted(was, upd) then UserErased(h, was) else Out(h, []);
    Out(SetUser(e.house, User(SettledId(was, upd), was.body)), e.sent)
  }

  /** Second half: the room that the user leaves behind, if it hosted it. */
  function RoomLeft(h: House, was: User, upd: User): Out {
    if was.body.roomId != "" && was.body.roomId != upd.body.roomId && Owns(h, was.body.roomId, was.id)
    then RoomClosed(h, was.body.roomId)
    else Out(h, [])
  }

  /** The notification that a record is about to be overwritten. It fixes up the id of the old
      record, but the body is still the old one when it returns. */
  function UserUpdate(h: House, was: User, upd: User): Out {
    var first := IdSettled(h, was, upd);
    var second := RoomLeft(first.house, was, upd);
    Out(second.house, first.sent + second.sent + [AsUserMessage(Keyed(was, upd), upd.body.sequence)])
  }

  function FreshUser(n: Node, payload: string): User {
    User(UserKey(Some(n), ""), UserBody("", 0, payload))
  }

  function Inserted(h: House, n: Node, payload: string): Out {
    if Some(n) in h.users then Out(h, [])
    else Out(SetUser(h, FreshUser(n, payload)), [AsUserMessage(FreshUser(n, payload), 0)])
  }

  function NodeRemoved(h: House, n: Node): Out {
    if Some(n) !in h.users then Out(h, [])
    else
      var e := UserErased(h, h.users[Some(n)]);
      Out(e.house.(users := e.house.users - {Some(n)}), e.sent)
  }

  function RecvUserUpdate(h: House, from: Node, info: User): Out {
    if Some(from) !in h.users then Out(h, [])
    else
      var o := UserUpdate(h, h.users[Some(from)], info);
      if Some(from) in o.house.users then
        Out(SetUser(o.house, o.house.users[Some(from)].Assign(info)), o.sent)
      else Out(o.house, o.sent)
  }

  /** Completes the room with its sender as owner and announces it, if the sender is known. */
  function RoomUpdate(h: House, r: Room, from: Node): Out {
    if Some(from) !in h.users then Out(h, [])
    else
      var r1 := r.(ownerId := h.users[Some(from)].id);
      Out(h.(rooms := h.rooms[r.id := r1]), [AsRoomMessage(r1, r1.body.sequence)])
  }

  /** A room that arrives has the owner's id string but no node: nodes do not travel. */
  function Decoded(r: Room): Room {
    r.(ownerId := UserKey(None, r.ownerId.idStr))
  }

  function RecvRoomUpdate(h: House, from: Node, info: Room): Out {
    if info.id == "" then Out(h, [])
    else if info.id in h.rooms then
      var room := h.rooms[info.id];
      if room.ownerId.node !in h.users then Out(h, [])
      else if h.users[room.ownerId.node].id.node != Some(from) then Out(h, [])
      else
        var r1 := room.Assign(info);
        RoomUpdate(h.(rooms := h.rooms[info.id := r1]), r1, from)
    else RoomUpdate(h.(rooms := h.rooms[info.id := info]), info, from)
  }

  /** The group's state: its house and what it believes the local user to be. */
  datatype Group = Group(house: House, self: User)

  datatype Event =
    | NodeAdded(n: Node, payload: string, isSelf: bool)
    | NodeGone(n: Node)
    | UserInfo(from: Node, user: User)
    | RoomInfo(from: Node, room: Room)
    | UserData(from: Node, data: Message)
    | SelfInfo(user: User)

  /** When the node that joined is this program itself, its record is filled in at once from the
      local user; the local user's key takes over the node. */
  function SelfJoined(g: Group, n: Node): (Group, seq<Message>)
    requires Some(n) in g.house.users
  {
    var was := g.house.users[Some(n)];
    var o := UserUpdate(g.house, was, g.self);
    var key := UserKey(was.id.node, g.self.id.idStr);
    (Group(SetUser(o.house, User(key, g.self.body)), g.self.(id := key)), o.sent)
  }

  /** One event, once the sender has passed the block list. */
  function Handle(g: Group, e: Event): (Group, seq<Message>) {
    match e
    case NodeAdded(n, payload, isSelf) =>
      var i := Inserted(g.house, n, payload);
      var g1 := g.(house := i.house);
      if isSelf && Some(n) in i.house.users then
        var s := SelfJoined(g1, n);
        (s.0, i.sent + s.1)
      else (g1, i.sent)
    case NodeGone(n) =>
      var o := NodeRemoved(g.house, n);
      (g.(house := o.house), o.sent)
    case UserInfo(from, user) =>
      var o := RecvUserUpdate(g.house, from, user);
      (g.(house := o.house), o.sent)
    case RoomInfo(from, room) =>
      var o := RecvRoomUpdate(g.house, from, Decoded(room));
      (g.(house := o.house), o.sent)
    case UserData(from, data) =>
      (g, if Some(from) in g.house.users && !ModelMessage(data)
          then [FromSender(data, g.house.users[Some(from)].id)] else [])
    case SelfInfo(user) =>
      var s := g.self.Assign(user);
      (g.(self := if s.id.Empty() then s.(id := user.id) else s), [])
  }

  /** A run of events, with everything it emits. */
  function Run(g: Group, es: seq<Event>): (Group, seq<Message>)
    decreases |es|
  {
    if es == [] then (g, [])
    else
      var (g1, sent1) := Run(g, es[..|es| - 1]);
      var (g2, sent2) := Handle(g1, es[|es| - 1]);
      (g2, sent1 + sent2)
  }

  /** remove_blocked_users: node_removed for each collected node in turn. */
  function Departures(rm: seq<Node>): (es: seq<Event>) {
    seq(|rm|, i requires 0 <= i < |rm| => NodeGone(rm[i]))
  }

  /** The four kinds of message that change the GUI's copies. */
  predicate ModelMessage(m: Message) {
    m.UserMessage? || m.UserLeft? || m.RoomMessage? || m.RoomRemove?
  }

  /** Data is passed on under the key its sender has in the house. */
  function FromSender(m: Message, key: UserKey): Message {
    match m
    case JoinRequest(roomId, password, _, sequence) => JoinRequest(roomId, password, key, sequence)
    case Channel(text, _, sequence) => Channel(text, key, sequence)
    case _ => m
  }

  /** What the GUI does to its copy of the house for one message. */
  function Apply(h: House, m: Message): House {
    match m
    case UserMessage(u) =>
      if u.id.node in h.users && u.id.idStr == "" then h else SetUser(h, u)
    case UserLeft(u) => h.(users := h.users - {u.id.node})
    case RoomMessage(r) => h.(rooms := h.rooms[r.id := r])
    case RoomRemove(r) => h.(rooms := h.rooms - {r.id})
    case JoinRequest(_, _, _, _) => h
    case Channel(_, _, _) => h
  }

  function Fold(h: House, ms: seq<Message>): House
    decreases |ms|
  {
    if ms == [] then h else Apply(Fold(h, ms[..|ms| - 1]), ms[|ms| - 1])
  }
}
