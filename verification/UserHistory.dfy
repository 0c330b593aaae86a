/** What a group's handler has to know of one user, of one room and of the local user, told event by event
    and each on its own. Whatever else goes on in the group, the house holds exactly that. */
module UserHistory {
  import opened Wrappers
  import opened UserKeys
  import opened Lobby
  import opened Protocol
  import opened Replay
  import opened Ownership

  /** A received record is taken in: its body replaces the old one, and so does its id string unless it is
      empty. All other records stay as they are. The last message to the GUI carries the record as it
      came, under the node of its sender. */
  lemma UpdateTakenIn(g: Group, from: Node, user: User)
    requires WellKeyed(g.house) && Some(from) in g.house.users
    ensures var (g', sent) := Handle(g, UserInfo(from, user));
            var users, users' := g.house.users, g'.house.users;
            && users'.Keys == users.Keys
            && users'[Some(from)].body == user.body
            && users'[Some(from)].id == UserKey(Some(from), if user.id.idStr != "" then user.id.idStr else users[Some(from)].id.idStr)
            && (forall k :: k in users && k != Some(from) ==> users'[k] == users[k])
            && sent != [] && sent[|sent| - 1] == UserMessage(User(UserKey(Some(from), user.id.idStr), user.body))
  {
    ReplayUserUpdate(g.house, g.house.users[Some(from)], user);
  }

  /** Nothing else is sent if the user comes back under no other name and leaves no room of its own behind. */
  lemma PlainUpdateSendsOne(g: Group, from: Node, user: User)
    requires WellKeyed(g.house) && Some(from) in g.house.users
    requires !Restarted(g.house.users[Some(from)], user)
    requires var was := g.house.users[Some(from)];
             was.body.roomId == user.body.roomId || !Owns(g.house, was.body.roomId, was.id)
    ensures Handle(g, UserInfo(from, user)).1 == [UserMessage(User(UserKey(Some(from), user.id.idStr), user.body))]
    ensures Handle(g, UserInfo(from, user)).0.house.rooms == g.house.rooms
  {
  }

  /** Under another name, the departure of the old record is sent before the new one. */
  lemma RestartIsAnnounced(g: Group, from: Node, user: User)
    requires WellKeyed(g.house) && Some(from) in g.house.users && Restarted(g.house.users[Some(from)], user)
    ensures AsUserLeft(g.house.users[Some(from)], 0) in Handle(g, UserInfo(from, user)).1
  {
    var was := g.house.users[Some(from)];
    var e := UserErased(g.house, was);
    assert e.sent[|e.sent| - 1] == AsUserLeft(was, 0);
  }

  /** The same for the own record, which is filled in from the local user when the own node joins. */
  lemma OwnRecordFilledIn(g: Group, n: Node, payload: string)
    requires WellKeyed(g.house)
    ensures var (g', sent) := Handle(g, NodeAdded(n, payload, true));
            var users, users' := g.house.users, g'.house.users;
            && users'.Keys == users.Keys + {Some(n)}
            && users'[Some(n)] == User(UserKey(Some(n), g.self.id.idStr), g.self.body)
            && (forall k :: k in users && k != Some(n) ==> users'[k] == users[k])
            && sent != [] && sent[|sent| - 1] == UserMessage(User(UserKey(Some(n), g.self.id.idStr), g.self.body))
            && g'.self == User(UserKey(Some(n), g.self.id.idStr), g.self.body)
  {
    var i := Inserted(g.house, n, payload).house;
    ReplayInserted(g.house, n, payload);
    ReplayUserUpdate(i, i.users[Some(n)], g.self);
  }

  /** Somebody else that joins has a record from then on, nameless until it tells more; who is there
      already is left as it is. */
  lemma NewcomerIsThere(g: Group, n: Node, payload: string)
    requires WellKeyed(g.house)
    ensures var (g', sent) := Handle(g, NodeAdded(n, payload, false));
            var users, users' := g.house.users, g'.house.users;
            && g'.self == g.self && g'.house.rooms == g.house.rooms
            && (Some(n) in users ==> users' == users && sent == [])
            && (Some(n) !in users ==>
                  && users' == users[Some(n) := FreshUser(n, payload)]
                  && users'[Some(n)].id.idStr == "" && users'[Some(n)].body.roomId == "" && users'[Some(n)].body.payload == payload
                  && sent == [UserMessage(FreshUser(n, payload))])
  {
  }

  /** Who leaves is gone; everybody else stays. The GUI hears of the departure last. */
  lemma LeaverIsGone(g: Group, n: Node)
    requires WellKeyed(g.house)
    ensures var (g', sent) := Handle(g, NodeGone(n));
            && g'.house.users == g.house.users - {Some(n)} && g'.self == g.self
            && (Some(n) in g.house.users ==> sent != [] && sent[|sent| - 1] == AsUserLeft(g.house.users[Some(n)], 0))
            && (Some(n) !in g.house.users ==> g' == g && sent == [])
  {
    ReplayNodeRemoved(g.house, n);
  }

  /** Rooms do not touch users. */
  lemma RoomsTouchNobody(g: Group, from: Node, room: Room)
    ensures Handle(g, RoomInfo(from, room)).0.house.users == g.house.users && Handle(g, RoomInfo(from, room)).0.self == g.self
  {
  }

  /** An announcement by the owner of a room is taken in and passed on; so is that of a new room by anybody
      who is in the house, who owns it from then on. A room that nobody in the house announced is
      there, without owner, and is not passed on. Any other announcement changes nothing. */
  lemma AnnouncementTakenIn(g: Group, from: Node, room: Room)
    requires WellKeyed(g.house)
    ensures var (g', sent) := Handle(g, RoomInfo(from, room));
            var rooms, rooms' := g.house.rooms, g'.house.rooms;
            && (forall r :: r != room.id ==> (r in rooms' <==> r in rooms) && (r in rooms ==> rooms'[r] == rooms[r]))
            && (if room.id == "" then g' == g && sent == []
                else if room.id in rooms && (rooms[room.id].ownerId.node != Some(from) || Some(from) !in g.house.users) then
                  g' == g && sent == []
                else if Some(from) in g.house.users then
                  && room.id in rooms'
                  && rooms'[room.id] == Room(room.id, g.house.users[Some(from)].id, room.body)
                  && sent == [RoomMessage(rooms'[room.id])]
                else
                  && room.id in rooms'
                  && rooms'[room.id] == Room(room.id, UserKey(None, room.ownerId.idStr), room.body)
                  && sent == [])
  {
  }

  /** Data of a user in the house is passed on as it came, under the key the user has there; data that
      pretends to be a change of the model, and data of strangers, is not. */
  lemma DataPassedOn(g: Group, from: Node, data: Message)
    requires WellKeyed(g.house)
    ensures var (g', sent) := Handle(g, UserData(from, data));
            && g' == g
            && (Some(from) !in g.house.users || (!data.JoinRequest? && !data.Channel?) ==> sent == [])
            && (Some(from) in g.house.users && data.JoinRequest? ==>
                  sent == [JoinRequest(data.roomId, data.password, g.house.users[Some(from)].id, data.sequence)])
            && (Some(from) in g.house.users && data.Channel? ==>
                  sent == [Channel(data.text, g.house.users[Some(from)].id, data.sequence)])
            && (Some(from) in g.house.users ==> g.house.users[Some(from)].id.node == Some(from))
  {
  }

  /** The local user's changes are taken in silently; its key only as long as there is none. */
  lemma LocalUserFollowed(g: Group, u: User)
    ensures var (g', sent) := Handle(g, SelfInfo(u));
            && sent == [] && g'.house == g.house
            && g'.self.body == u.body && g'.self.id == if g.self.id.Empty() then u.id else g.self.id
  {
  }

  /** The local user after a run of events: the body is that of its last change. */
  function SelfAfter(self: User, es: seq<Event>): User
    decreases |es|
  {
    if es == [] then self
    else
      var was := SelfAfter(self, es[..|es| - 1]);
      match es[|es| - 1]
      case SelfInfo(u) => User(if was.id.Empty() then u.id else was.id, u.body)
      case NodeAdded(n, _, isSelf) => if isSelf then was.(id := UserKey(Some(n), was.id.idStr)) else was
      case _ => was
  }

  datatype Known = Absent | Present(idStr: string, body: UserBody)

  /** What is known of the user at node n: from its arrival on, the last record it sent, and the last id
      string that was not empty. */
  function KnownAfter(start: Group, es: seq<Event>, n: Node): Known
    decreases |es|
  {
    if es == [] then
      if Some(n) in start.house.users then Present(start.house.users[Some(n)].id.idStr, start.house.users[Some(n)].body) else Absent
    else
      var was := KnownAfter(start, es[..|es| - 1], n);
      match es[|es| - 1]
      case NodeAdded(m, payload, isSelf) =>
        if m != n then was
        else if isSelf then
          var self := SelfAfter(start.self, es[..|es| - 1]);
          Present(self.id.idStr, self.body)
        else if was.Absent? then Present("", UserBody("", 0, payload))
        else was
      case NodeGone(m) => if m == n then Absent else was
      case UserInfo(m, u) =>
        if m == n && was.Present? then Present(if u.id.idStr != "" then u.id.idStr else was.idStr, u.body) else was
      case _ => was
  }

  ghost predicate Knows(h: House, n: Node, k: Known) {
    if Some(n) in h.users then k == Present(h.users[Some(n)].id.idStr, h.users[Some(n)].body) else k == Absent
  }

  lemma RunKeepsKeys(g: Group, es: seq<Event>)
    requires WellKeyed(g.house)
    ensures WellKeyed(Run(g, es).0.house)
    decreases |es|
  {
    if es != [] {
      RunKeepsKeys(g, es[..|es| - 1]);
      StepKeepsKeys(Run(g, es[..|es| - 1]).0, es[|es| - 1]);
    }
  }

  /** Over every run, whatever the others do: the group believes of the local user what SelfAfter says,
      and holds of every user what KnownAfter says, which looks at that user's events only. */
  lemma {:induction false} UsersOverRuns(g: Group, es: seq<Event>, n: Node)
    requires WellKeyed(g.house)
    ensures Run(g, es).0.self == SelfAfter(g.self, es)
    ensures Knows(Run(g, es).0.house, n, KnownAfter(g, es, n))
    decreases |es|
  {
    if es != [] {
      var front, e := es[..|es| - 1], es[|es| - 1];
      UsersOverRuns(g, front, n);
      RunKeepsKeys(g, front);
      var g1 := Run(g, front).0;
      hide Handle, Run;
      RunsOn(g, es);
      match e
      case NodeAdded(m, payload, isSelf) =>
        if isSelf {
          OwnRecordFilledIn(g1, m, payload);
        } else {
          NewcomerIsThere(g1, m, payload);
        }
      case NodeGone(m) => LeaverIsGone(g1, m);
      case UserInfo(m, u) =>
        if Some(m) in g1.house.users {
          UpdateTakenIn(g1, m, u);
        } else {
          StrangerIgnored(g1, m, u);
        }
        SelfUntouched(g1, m, u);
      case RoomInfo(m, r) => RoomsTouchNobody(g1, m, r);
      case UserData(m, d) => DataPassedOn(g1, m, d);
      case SelfInfo(u) => LocalUserFollowed(g1, u);
    }
  }

  lemma RunsOn(g: Group, es: seq<Event>)
    requires es != []
    ensures Run(g, es).0 == Handle(Run(g, es[..|es| - 1]).0, es[|es| - 1]).0
  {
  }

  lemma StrangerIgnored(g: Group, from: Node, u: User)
    requires Some(from) !in g.house.users
    ensures Handle(g, UserInfo(from, u)) == (g, [])
  {
  }

  lemma SelfUntouched(g: Group, from: Node, u: User)
    ensures Handle(g, UserInfo(from, u)).0.self == g.self
  {
  }

  /** In particular: after an update of a user that is there, and as long as that user sends no other and
      stays, its record has that update's body. */
  lemma LastUpdateCounts(g: Group, es: seq<Event>, i: nat, n: Node)
    requires WellKeyed(g.house) && i < |es| && es[i].UserInfo? && es[i].from == n
    requires Some(n) in Run(g, es[..i]).0.house.users
    requires forall j :: i < j < |es| ==> NodeOfUserEvent(es[j]) != Some(n)
    ensures var users := Run(g, es).0.house.users;
            Some(n) in users && users[Some(n)].body == es[i].user.body
            && (es[i].user.id.idStr != "" ==> users[Some(n)].id.idStr == es[i].user.id.idStr)
  {
    UsersOverRuns(g, es[..i], n);
    KnownStays(g, es, i, |es|, n);
    assert es[..|es|] == es;
    UsersOverRuns(g, es, n);
  }

  function NodeOfUserEvent(e: Event): Option<Node> {
    match e
    case NodeAdded(n, _, _) => Some(n)
    case NodeGone(n) => Some(n)
    case UserInfo(n, _) => Some(n)
    case _ => None
  }

  lemma {:induction false} KnownStays(g: Group, es: seq<Event>, i: nat, m: nat, n: Node)
    requires i < m <= |es| && es[i].UserInfo? && es[i].from == n && KnownAfter(g, es[..i], n).Present?
    requires forall j :: i < j < m ==> NodeOfUserEvent(es[j]) != Some(n)
    ensures var k := KnownAfter(g, es[..m], n);
            k.Present? && k.body == es[i].user.body && (es[i].user.id.idStr != "" ==> k.idStr == es[i].user.id.idStr)
    decreases m
  {
    assert es[..m][..m - 1] == es[..m - 1] && es[..m][m - 1] == es[m - 1];
    if m > i + 1 {
      KnownStays(g, es, i, m - 1, n);
    }
  }

  /** A name of the local user is for good. */
  lemma {:induction false} SelfNameStays(self: User, es: seq<Event>)
    requires !self.id.Empty()
    ensures !SelfAfter(self, es).id.Empty() && SelfAfter(self, es).id.idStr == self.id.idStr
    decreases |es|
  {
    if es != [] {
      SelfNameStays(self, es[..|es| - 1]);
    }
  }

  datatype KnownRoom = NoRoom | Hosted(owner: UserKey, body: RoomBody)

  function IdStrOf(k: Known): string {
    if k.Present? then k.idStr else ""
  }

  /** With this update its owner, who is in room r, gives the room up. */
  predicate GivesUp(k: Known, r: string, idStr: string, roomId: string) {
    k.Present? && k.body.roomId == r != "" && (roomId != r || (k.idStr != "" && idStr != "" && k.idStr != idStr))
  }

  /** What is known of room r: who announced it first, if that user was known, owns it; its body is that of
      its owner's last announcement, until the owner, being in it, leaves, moves or comes back under
      another name. */
  function RoomAfter(start: Group, es: seq<Event>, r: string): KnownRoom
    decreases |es|
  {
    if es == [] then
      if r in start.house.rooms then Hosted(start.house.rooms[r].ownerId, start.house.rooms[r].body) else NoRoom
    else
      var front := es[..|es| - 1];
      var was := RoomAfter(start, front, r);
      match es[|es| - 1]
      case RoomInfo(from, room) =>
        if r == "" || room.id != r then was
        else if was.NoRoom? then
          var k := KnownAfter(start, front, from);
          Hosted(if k.Present? then UserKey(Some(from), k.idStr) else UserKey(None, room.ownerId.idStr), room.body)
        else if was.owner.node == Some(from) && KnownAfter(start, front, from).Present? then
          Hosted(UserKey(Some(from), IdStrOf(KnownAfter(start, front, from))), room.body)
        else was
      case NodeGone(n) =>
        if was.Hosted? && was.owner.node == Some(n) && KnownAfter(start, front, n).Present?
           && KnownAfter(start, front, n).body.roomId == r != "" then NoRoom else was
      case UserInfo(n, u) =>
        if was.Hosted? && was.owner.node == Some(n) && GivesUp(KnownAfter(start, front, n), r, u.id.idStr, u.body.roomId) then NoRoom else was
      case NodeAdded(n, _, isSelf) =>
        var self := SelfAfter(start.self, front);
        if isSelf && was.Hosted? && was.owner.node == Some(n)
           && GivesUp(KnownAfter(start, front, n), r, self.id.idStr, self.body.roomId) then NoRoom else was
      case _ => was
  }

  ghost predicate KnowsRoom(h: House, r: string, k: KnownRoom) {
    if r in h.rooms then k == Hosted(h.rooms[r].ownerId, h.rooms[r].body) else k == NoRoom
  }

  /** A room that nobody ends and nobody announces is left as it is. */
  lemma RoomLeftAlone(g: Group, e: Event, r: string)
    requires WellKeyed(g.house) && r in g.house.rooms && !EndsRoom(g, e, r)
    requires e.RoomInfo? ==> e.room.id != r
    ensures r in Handle(g, e).0.house.rooms && Handle(g, e).0.house.rooms[r] == g.house.rooms[r]
  {
    match e
    case NodeAdded(n, payload, isSelf) =>
      if isSelf {
        var i := Inserted(g.house, n, payload).house;
        ReplayInserted(g.house, n, payload);
        UpdateEndsRoom(i, i.users[Some(n)], g.self, r);
      }
    case UserInfo(from, user) =>
      if Some(from) in g.house.users {
        UpdateEndsRoom(g.house, g.house.users[Some(from)], user, r);
      }
    case RoomInfo(from, room) => AnnouncementTakenIn(g, from, room);
    case _ =>
  }

  /** Only an announcement makes a room. */
  lemma NoRoomFromNothing(g: Group, e: Event, r: string)
    requires WellKeyed(g.house) && r !in g.house.rooms
    requires e.RoomInfo? ==> e.room.id != r
    ensures r !in Handle(g, e).0.house.rooms
  {
    if e.RoomInfo? {
      AnnouncementTakenIn(g, e.from, e.room);
    }
  }

  /** Over every run: the group holds of every room what RoomAfter says, which looks at that room's
      announcements and at its owner only. */
  lemma {:induction false} RoomsOverRuns(g: Group, es: seq<Event>, r: string)
    requires WellKeyed(g.house)
    ensures KnowsRoom(Run(g, es).0.house, r, RoomAfter(g, es, r))
    decreases |es|
  {
    if es != [] {
      var front, e := es[..|es| - 1], es[|es| - 1];
      RoomsOverRuns(g, front, r);
      RunKeepsKeys(g, front);
      var g1 := Run(g, front).0;
      RunsOn(g, es);
      hide Handle, Run;
      OneStepOfRoom(g, front, g1, e, r);
    }
  }

  lemma OneStepOfRoom(g: Group, front: seq<Event>, g1: Group, e: Event, r: string)
    requires WellKeyed(g.house) && g1 == Run(g, front).0 && WellKeyed(g1.house) && KnowsRoom(g1.house, r, RoomAfter(g, front, r))
    ensures KnowsRoom(Handle(g1, e).0.house, r, RoomAfter(g, front + [e], r))
  {
    hide Handle, Run;
    assert (front + [e])[..|front|] == front;
    var n := Actor(e);
    if n.Some? {
      UsersOverRuns(g, front, n.value);
    } else {
      UsersOverRuns(g, front, Node(0, 0));
    }
    if e.RoomInfo? && e.room.id == r {
      AnnouncementTakenIn(g1, e.from, e.room);
    } else if r in g1.house.rooms {
      if EndsRoom(g1, e, r) {
        OnlyOwnerTouches(g1, e, r);
      } else {
        RoomLeftAlone(g1, e, r);
      }
    } else {
      NoRoomFromNothing(g1, e, r);
    }
  }

  /** In particular: after an announcement by its owner, and as long as the owner makes no other and the room
      is not given up, the room has that announcement's body. */
  lemma LastAnnouncementCounts(g: Group, es: seq<Event>, i: nat, r: string)
    requires WellKeyed(g.house) && i < |es| && es[i].RoomInfo? && es[i].room.id == r != ""
    requires Some(es[i].from) in Run(g, es[..i]).0.house.users
    requires r in Run(g, es[..i]).0.house.rooms ==> Run(g, es[..i]).0.house.rooms[r].ownerId.node == Some(es[i].from)
    requires forall j :: i < j < |es| ==> !(es[j].RoomInfo? && es[j].room.id == r && es[j].from == es[i].from)
    requires forall j :: i < j <= |es| ==> r in Run(g, es[..j]).0.house.rooms
    ensures var rooms := Run(g, es).0.house.rooms;
            r in rooms && rooms[r].body == es[i].room.body && rooms[r].ownerId.node == Some(es[i].from)
  {
    UsersOverRuns(g, es[..i], es[i].from);
    RoomsOverRuns(g, es[..i], r);
    forall j | i < j <= |es|
      ensures RoomAfter(g, es[..j], r).Hosted?
    {
      RoomsOverRuns(g, es[..j], r);
    }
    HostedStays(g, es, i, |es|, r);
    assert es[..|es|] == es;
    RoomsOverRuns(g, es, r);
  }

  lemma {:induction false} HostedStays(g: Group, es: seq<Event>, i: nat, m: nat, r: string)
    requires i < m <= |es| && es[i].RoomInfo? && es[i].room.id == r != "" && KnownAfter(g, es[..i], es[i].from).Present?
    requires RoomAfter(g, es[..i], r).Hosted? ==> RoomAfter(g, es[..i], r).owner.node == Some(es[i].from)
    requires forall j :: i < j < m ==> !(es[j].RoomInfo? && es[j].room.id == r && es[j].from == es[i].from)
    requires forall j :: i < j <= m ==> RoomAfter(g, es[..j], r).Hosted?
    ensures RoomAfter(g, es[..m], r).body == es[i].room.body && RoomAfter(g, es[..m], r).owner.node == Some(es[i].from)
    decreases m
  {
    assert es[..m][..m - 1] == es[..m - 1] && es[..m][m - 1] == es[m - 1];
    if m > i + 1 {
      HostedStays(g, es, i, m - 1, r);
      assert RoomAfter(g, es[..m - 1], r).Hosted? && RoomAfter(g, es[..m], r).Hosted?;
    }
  }
}
