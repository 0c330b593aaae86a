/** Who a room belongs to, over one step and over whole runs of one group. */
module Ownership {
  import opened Wrappers
  import opened UserKeys
  import opened Lobby
  import opened Protocol
  import opened Replay

  /** Every room has an id and an owner that is in the house and in that room. */
  ghost predicate Owned(h: House) {
    forall r :: r in h.rooms ==>
      && r != ""
      && h.rooms[r].ownerId.node in h.users
      && h.users[h.rooms[r].ownerId.node].body.roomId == r
  }

  lemma OneRoomEach(h: House, r1: string, r2: string)
    requires Owned(h) && r1 in h.rooms && r2 in h.rooms
    requires h.rooms[r1].ownerId.node == h.rooms[r2].ownerId.node
    ensures r1 == r2
  {
  }

  /** The order in which a newcomer is answered: the user record first, then the room it is in. */
  predicate RoomFollowsUser(h: House, e: Event) {
    match e
    case RoomInfo(from, room) =>
      room.id == "" || room.id in h.rooms || (Some(from) in h.users && h.users[Some(from)].body.roomId == room.id)
    case _ => true
  }

  /** Nobody but `u` is affected when `u` is erased, and `u` leaves no room behind. */
  lemma ErasedKeepsOwned(h: House, u: User)
    requires WellKeyed(h) && Owned(h) && u.id.node in h.users && h.users[u.id.node] == u
    ensures var e := UserErased(h, u).house;
            && e.users == h.users && e.rooms.Keys <= h.rooms.Keys
            && (forall r :: r in e.rooms ==> e.rooms[r] == h.rooms[r] && e.rooms[r].ownerId.node != u.id.node)
  {
  }

  lemma UpdateKeepsOwned(h: House, was: User, upd: User, rec: User)
    requires WellKeyed(h) && Owned(h) && was.id.node in h.users && h.users[was.id.node] == was
    requires rec.id.node == was.id.node && rec.body == upd.body
    ensures Owned(SetUser(UserUpdate(h, was, upd).house, rec))
  {
    var first := IdSettled(h, was, upd).house;
    if Restarted(was, upd) {
      ErasedKeepsOwned(h, was);
    }
    assert first.users == h.users[was.id.node := User(SettledId(was, upd), was.body)];
    assert Owned(first);
    var second := RoomLeft(first, was, upd).house;
    forall r | r in second.rooms
      ensures second.rooms[r].ownerId.node == was.id.node ==> rec.body.roomId == r
    {
      if second.rooms[r].ownerId.node == was.id.node {
        assert was.body.roomId == r && r in first.rooms;
      }
    }
  }

  lemma RemovedKeepsOwned(h: House, n: Node)
    requires WellKeyed(h) && Owned(h)
    ensures Owned(NodeRemoved(h, n).house)
  {
    if Some(n) in h.users {
      ErasedKeepsOwned(h, h.users[Some(n)]);
    }
  }

  lemma AddedKeepsOwned(g: Group, n: Node, payload: string, isSelf: bool)
    requires WellKeyed(g.house) && Owned(g.house)
    ensures Owned(Handle(g, NodeAdded(n, payload, isSelf)).0.house)
  {
    var i := Inserted(g.house, n, payload).house;
    ReplayInserted(g.house, n, payload);
    assert Owned(i);
    if isSelf {
      UpdateKeepsOwned(i, i.users[Some(n)], g.self, User(UserKey(Some(n), g.self.id.idStr), g.self.body));
    }
  }

  lemma RoomInfoKeepsOwned(g: Group, from: Node, room: Room)
    requires WellKeyed(g.house) && Owned(g.house)
    ensures Owned(Handle(g, RoomInfo(from, room)).0.house) <==> RoomFollowsUser(g.house, RoomInfo(from, room))
  {
    var h' := Handle(g, RoomInfo(from, room)).0.house;
    if !RoomFollowsUser(g.house, RoomInfo(from, room)) {
      assert room.id in h'.rooms && h'.users == g.house.users;
    }
  }

  /** Ownership survives a step if and only if the step respects the order of announcements. */
  lemma StepKeepsOwned(g: Group, e: Event)
    requires WellKeyed(g.house) && Owned(g.house)
    ensures Owned(Handle(g, e).0.house) <==> RoomFollowsUser(g.house, e)
  {
    match e
    case NodeAdded(n, payload, isSelf) => AddedKeepsOwned(g, n, payload, isSelf);
    case NodeGone(n) => RemovedKeepsOwned(g.house, n);
    case UserInfo(from, user) =>
      if Some(from) in g.house.users {
        var was := g.house.users[Some(from)];
        UpdateKeepsOwned(g.house, was, user, User(SettledId(was, user), user.body));
        ReplayUserUpdate(g.house, was, user);
      }
    case RoomInfo(from, room) => RoomInfoKeepsOwned(g, from, room);
    case UserData(from, data) =>
    case SelfInfo(user) =>
  }

  ghost predicate AllFollow(g: Group, es: seq<Event>) {
    forall i :: 0 <= i < |es| ==> RoomFollowsUser(Run(g, es[..i]).0.house, es[i])
  }

  lemma StepKeepsKeys(g: Group, e: Event)
    requires WellKeyed(g.house)
    ensures WellKeyed(Handle(g, e).0.house)
  {
    StepReplays(g, e);
  }

  /** In every run in which rooms are announced by users that are in them, every room's owner is
      present and in that room. */
  lemma {:induction false} OwnersPresent(g: Group, es: seq<Event>)
    requires WellKeyed(g.house) && Owned(g.house) && AllFollow(g, es)
    ensures WellKeyed(Run(g, es).0.house) && Owned(Run(g, es).0.house)
    decreases |es|
  {
    if es != [] {
      var front := es[..|es| - 1];
      forall i | 0 <= i < |front|
        ensures RoomFollowsUser(Run(g, front[..i]).0.house, front[i])
      {
        assert front[..i] == es[..i];
      }
      OwnersPresent(g, front);
      StepKeepsKeys(Run(g, front).0, es[|es| - 1]);
      StepKeepsOwned(Run(g, front).0, es[|es| - 1]);
    }
  }

  /** A member that announces two rooms without being in them owns both. */
  lemma TwoRoomsForOne(n: Node)
    ensures var u := User(UserKey(Some(n), "1:ann:0"), UserBody("", 1, ""));
            var r1 := Room("r1", NO_KEY, RoomBody(1, 4, "", "", ""));
            var g := Group(House(map[Some(n) := u], map[]), User(NO_KEY, UserBody("", 0, "")));
            var h' := Run(g, [RoomInfo(n, r1), RoomInfo(n, r1.(id := "r2"))]).0.house;
            && Owned(g.house) && !Owned(h')
            && "r1" in h'.rooms && "r2" in h'.rooms
            && h'.rooms["r1"].ownerId == u.id == h'.rooms["r2"].ownerId
  {
    var u := User(UserKey(Some(n), "1:ann:0"), UserBody("", 1, ""));
    var r1 := Room("r1", NO_KEY, RoomBody(1, 4, "", "", ""));
    var g := Group(House(map[Some(n) := u], map[]), User(NO_KEY, UserBody("", 0, "")));
    var es := [RoomInfo(n, r1), RoomInfo(n, r1.(id := "r2"))];
    assert es[..1] == [es[0]] && es[..1][..0] == [];
    assert Run(g, es[..1][..0]) == (g, []);
    assert Run(g, es[..1]).0 == Handle(g, es[0]).0;
    assert Run(g, es).0 == Handle(Run(g, es[..1]).0, es[1]).0;
  }

  /** The node whose doing an event is. */
  function Actor(e: Event): Option<Node> {
    match e
    case NodeAdded(n, _, _) => Some(n)
    case NodeGone(n) => Some(n)
    case UserInfo(from, _) => Some(from)
    case RoomInfo(from, _) => Some(from)
    case UserData(from, _) => Some(from)
    case SelfInfo(_) => None
  }

  /** The three ways in which a room ends, read off the state before the event: its owner, being in
      it, leaves the group, moves elsewhere, or is back under another id. */
  predicate EndsRoom(g: Group, e: Event, r: string)
    requires r in g.house.rooms
  {
    var owner := g.house.rooms[r].ownerId.node;
    && r != ""
    && owner.Some? && owner in g.house.users
    && g.house.users[owner].body.roomId == r
    && match e
       case NodeGone(n) => owner == Some(n)
       case UserInfo(from, user) => owner == Some(from) && LeavesRoom(g.house.users[owner], user)
       case NodeAdded(n, _, isSelf) => isSelf && owner == Some(n) && LeavesRoom(g.house.users[owner], g.self)
       case _ => false
  }

  predicate LeavesRoom(was: User, upd: User) {
    upd.body.roomId != was.body.roomId || Restarted(was, upd)
  }

  lemma UpdateEndsRoom(h: House, was: User, upd: User, r: string)
    requires WellKeyed(h) && r in h.rooms && was.id.node in h.users && h.users[was.id.node] == was
    ensures var h' := UserUpdate(h, was, upd).house;
            && (r !in h'.rooms <==> r != "" && was.body.roomId == r && h.rooms[r].ownerId.node == was.id.node && LeavesRoom(was, upd))
            && (r in h'.rooms ==> h'.rooms[r] == h.rooms[r])
  {
  }

  /** In any state, whoever acts: the room is gone after the step if and only if its owner ended
      it; if it is still there its owner is the same node; and an event of any other node leaves
      it exactly as it was. */
  lemma OnlyOwnerTouches(g: Group, e: Event, r: string)
    requires WellKeyed(g.house) && r in g.house.rooms
    ensures var rooms' := Handle(g, e).0.house.rooms;
            && (r !in rooms' <==> EndsRoom(g, e, r))
            && (r in rooms' ==> rooms'[r].ownerId.node == g.house.rooms[r].ownerId.node)
            && (Actor(e) != g.house.rooms[r].ownerId.node ==> r in rooms' && rooms'[r] == g.house.rooms[r])
  {
    match e
    case NodeAdded(n, payload, isSelf) =>
      if isSelf {
        var i := Inserted(g.house, n, payload).house;
        ReplayInserted(g.house, n, payload);
        UpdateEndsRoom(i, i.users[Some(n)], g.self, r);
      }
    case UserInfo(from, user) =>
      if Some(from) in g.house.users {
        UpdateEndsRoom(g.house, g.house.users[Some(from)], user, r);
      }
    case _ =>
  }

  /** Over a whole run: as long as the owner does not end it, the room is there and is the same
      node's; and if the owner does nothing at all, no message or departure of anybody else has
      changed anything of it. */
  lemma {:induction false} OwnershipOverRuns(g: Group, es: seq<Event>, r: string)
    requires WellKeyed(g.house) && r in g.house.rooms
    requires forall i :: 0 <= i < |es| ==>
               var gi := Run(g, es[..i]).0;
               r in gi.house.rooms ==> !EndsRoom(gi, es[i], r)
    ensures var h' := Run(g, es).0.house;
            && WellKeyed(h') && r in h'.rooms && h'.rooms[r].ownerId.node == g.house.rooms[r].ownerId.node
            && ((forall i :: 0 <= i < |es| ==> Actor(es[i]) != g.house.rooms[r].ownerId.node) ==> h'.rooms[r] == g.house.rooms[r])
    decreases |es|
  {
    if es != [] {
      var front := es[..|es| - 1];
      forall i | 0 <= i < |front|
        ensures var gi := Run(g, front[..i]).0;
                r in gi.house.rooms ==> !EndsRoom(gi, front[i], r)
      {
        assert front[..i] == es[..i];
      }
      OwnershipOverRuns(g, front, r);
      var g1 := Run(g, front).0;
      StepKeepsKeys(g1, es[|es| - 1]);
      OnlyOwnerTouches(g1, es[|es| - 1], r);
    }
  }
}
