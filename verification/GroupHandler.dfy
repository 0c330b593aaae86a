/** One group's handler: the adapter's callbacks and its receive side, working on the indexed house
    and sending to the GUI's queue. */
module GroupHandler {
  import opened Wrappers
  import opened UserKeys
  import opened Lobby
  import Protocol
  import ChatHouse
  import IpBlock
  import opened Gui
  import LobbySystem
  import opened Messenger

  /** What can arrive from a peer, decoded. */
  datatype Pdu = UserInfo(user: User) | RoomInfo(room: Room) | UserData(data: Message)

  function Arrives(from: Node, pdu: Pdu): Protocol.Event {
    match pdu
    case UserInfo(user) => Protocol.UserInfo(from, user)
    case RoomInfo(room) => Protocol.RoomInfo(from, room)
    case UserData(data) => Protocol.UserData(from, data)
  }

  ghost predicate AllOut(rules: seq<IpBlock.Rule>, users: Users) {
    forall k :: k in users ==> k.Some? && !IpBlock.Blocks(rules, k.value.ip)
  }

  /** An event that is let in lets nobody in that is blocked. */
  lemma StaysOut(rules: seq<IpBlock.Rule>, g: Protocol.Group, e: Protocol.Event)
    requires WellKeyed(g.house) && !LobbySystem.Refused(rules, e)
    ensures AllOut(rules, g.house.users) ==> AllOut(rules, Protocol.Handle(g, e).0.house.users)
  {
    hide IpBlock.Blocks, Protocol.Handle;
    LobbySystem.UsersAfter(g, e);
  }

  /** Tagging goes message by message. */
  lemma TagsConcat(g: int)
    ensures LobbySystem.Tag(g, []) == []
    ensures forall a, b :: LobbySystem.Tag(g, a + b) == LobbySystem.Tag(g, a) + LobbySystem.Tag(g, b)
  {
  }

  lemma ThreeTags(g: int, queue: seq<Tagged>, a: seq<Message>, b: seq<Message>, m: Message)
    ensures queue + LobbySystem.Tag(g, a) + LobbySystem.Tag(g, b) + LobbySystem.Tag(g, [m]) == queue + LobbySystem.Tag(g, a + b + [m])
  {
  }

  /** For the id and the room of the old record it makes no difference that the update has its node. */
  lemma SameSettled(h: House, was: User, upd: User)
    ensures var keyed := Protocol.Keyed(was, upd);
            && Protocol.IdSettled(h, was, keyed) == Protocol.IdSettled(h, was, upd)
            && forall h1 :: Protocol.RoomLeft(h1, was, keyed) == Protocol.RoomLeft(h1, was, upd)
  {
  }

  type UserCell = ChatHouse.Cell<Option<Node>, User>

  class GroupHandler {
    const grp: int
    const house: ChatHouse.House
    const messenger: Messenger<Tagged>
    const ipBlock: IpBlock.Store
    var selfUser: User

    ghost predicate Valid()
      reads house.users, house.rooms, house.users.cells, house.rooms.cells, ipBlock
    {
      house.Valid() && ipBlock.Valid()
    }

    ghost function Group(): Protocol.Group
      reads this, house.users, house.rooms
    {
      Protocol.Group(house.Value(), selfUser)
    }

    /** Nobody in the house has an address that is blocked. */
    ghost predicate NoneBlocked()
      reads house.users, ipBlock
    {
      AllOut(ipBlock.added, house.users.view)
    }

    constructor (grp: int, messenger: Messenger<Tagged>, ipBlock: IpBlock.Store, selfUser: User)
      requires ipBlock.Valid()
      ensures Valid() && this.grp == grp && this.messenger == messenger && this.ipBlock == ipBlock
      ensures Group() == Protocol.Group(EMPTY_HOUSE, selfUser)
    {
      house := new ChatHouse.House();
      this.grp := grp;
      this.messenger := messenger;
      this.ipBlock := ipBlock;
      this.selfUser := selfUser;
    }

    /** What goes to the GUI goes under the group's number. */
    method Send(m: Message)
      modifies messenger
      ensures messenger.msgs == old(messenger.msgs) + LobbySystem.Tag(grp, [m])
    {
      messenger.SendMsg(Tagged(grp, m));
    }

    method RoomClosedUpdate(rid: string)
      requires house.Valid()
      modifies house.rooms, messenger
      ensures house.Valid() && forall c :: c in house.rooms.cells ==> c in old(house.rooms.cells)
      ensures var o := Protocol.RoomClosed(old(house.Value()), rid);
              house.Value() == o.house && messenger.msgs == old(messenger.msgs) + LobbySystem.Tag(grp, o.sent)
    {
      TagsConcat(grp);
      var i := house.RoomFind(rid);
      if i != null {
        Send(AsRoomRemove(i.value, 0));
        var _ := house.RoomErase(i.key);
      }
    }

    method UserErased(u: User)
      requires house.Valid()
      modifies house.rooms, messenger
      ensures house.Valid() && forall c :: c in house.rooms.cells ==> c in old(house.rooms.cells)
      ensures var o := Protocol.UserErased(old(house.Value()), u);
              house.Value() == o.house && messenger.msgs == old(messenger.msgs) + LobbySystem.Tag(grp, o.sent)
    {
      hide LobbySystem.Tag, ChatHouse.House.Valid, WellKeyed;
      TagsConcat(grp);
      if u.body.roomId != "" {
        var ri := house.RoomFind(u.body.roomId);
        if ri != null && ri.value.ownerId.Same(u.id) {
          RoomClosedUpdate(u.body.roomId);
        }
      }
      Send(AsUserLeft(u, 0));
    }

    /** The first half of user_update: the id of the record. */
    method SettleId(was: UserCell, upd: User)
      requires house.Valid() && was in house.users.cells && upd.id.node == was.value.id.node
      modifies was`value, house.users`view, house.rooms, messenger
      ensures house.Valid() && forall c :: c in house.rooms.cells ==> c in old(house.rooms.cells)
      ensures was.value.id.node == old(was.value).id.node && was.value.body == old(was.value).body
      ensures was.key in house.users.view && house.users.view[was.key] == was.value
      ensures var o := Protocol.IdSettled(old(house.Value()), old(was.value), upd);
              house.Value() == o.house && messenger.msgs == old(messenger.msgs) + LobbySystem.Tag(grp, o.sent)
    {
      hide LobbySystem.Tag, ChatHouse.House.Valid, WellKeyed;
      TagsConcat(grp);
      house.UserCellKeyed(was);
      if was.value.id.idStr == "" {
        house.SetUser(was, was.value.(id := upd.id));
      } else if upd.id.idStr != "" && was.value.id.idStr != upd.id.idStr {
        UserErased(was.value);
        house.SetUser(was, was.value.(id := upd.id));
      }
    }

    /** The second half of user_update: the room that the user leaves behind. `before` is the record as it
        was before its id was settled. */
    method LeaveRoom(was: UserCell, upd: User, ghost before: User)
      requires house.Valid() && was in house.users.cells
      requires before.id.node == upd.id.node && before.body == was.value.body
      modifies house.rooms, messenger
      ensures house.Valid() && forall c :: c in house.rooms.cells ==> c in old(house.rooms.cells)
      ensures var o := Protocol.RoomLeft(old(house.Value()), before, upd);
              house.Value() == o.house && messenger.msgs == old(messenger.msgs) + LobbySystem.Tag(grp, o.sent)
    {
      hide LobbySystem.Tag, ChatHouse.House.Valid, WellKeyed;
      TagsConcat(grp);
      if was.value.body.roomId != "" && was.value.body.roomId != upd.body.roomId {
        var ri := house.RoomFind(was.value.body.roomId);
        if ri != null && ri.value.ownerId.Same(upd.id) {
          RoomClosedUpdate(was.value.body.roomId);
        }
      }
    }

    /** `upd` is changed by the call: it gets the node of the record it is for. */
    method UserUpdate(was: UserCell, upd0: User) returns (upd: User)
      requires house.Valid() && was in house.users.cells
      modifies was`value, house.users`view, house.rooms, messenger
      ensures house.Valid() && forall c :: c in house.rooms.cells ==> c in old(house.rooms.cells)
      ensures upd == Protocol.Keyed(old(was.value), upd0)
      ensures was.key in house.users.view && house.users.view[was.key] == was.value && was.value.id.node == was.key
      ensures was.key in old(house.users.view) && old(house.users.view)[was.key] == old(was.value)
      ensures var o := Protocol.UserUpdate(old(house.Value()), old(was.value), upd0);
              house.Value() == o.house && messenger.msgs == old(messenger.msgs) + LobbySystem.Tag(grp, o.sent)
    {
      hide LobbySystem.Tag, ChatHouse.House.Valid, WellKeyed, Protocol.RoomLeft, Protocol.IdSettled;
      house.UserCellKeyed(was);
      upd := upd0.(id := UserKey(was.value.id.node, upd0.id.idStr));
      SameSettled(house.Value(), was.value, upd0);
      ghost var before := was.value;
      ghost var first := Protocol.IdSettled(house.Value(), before, upd);
      SettleId(was, upd);
      ghost var second := Protocol.RoomLeft(first.house, before, upd);
      LeaveRoom(was, upd, before);
      Send(AsUserMessage(upd, upd.body.sequence));
      ThreeTags(grp, old(messenger.msgs), first.sent, second.sent, AsUserMessage(upd, upd.body.sequence));
    }

    /** The adapter's node_added. */
    method AdapterNodeAdded(n: Node, payload: string)
      requires house.Valid()
      modifies house.users, messenger
      ensures house.Valid() && forall c :: c in house.users.cells ==> c in old(house.users.cells) || fresh(c)
      ensures var o := Protocol.Inserted(old(house.Value()), n, payload);
              house.Value() == o.house && messenger.msgs == old(messenger.msgs) + LobbySystem.Tag(grp, o.sent)
    {
      hide LobbySystem.Tag, ChatHouse.House.Valid, WellKeyed;
      TagsConcat(grp);
      var ui := house.UserInsert(Protocol.FreshUser(n, payload));
      if ui != null {
        Send(AsUserMessage(ui.value, 0));
      }
    }

    /** The own node: its record is filled in from what is known of the local user. */
    method JoinSelf(ui: UserCell, n: Node)
      requires house.Valid() && ui in house.users.cells && ui.key == Some(n) && Some(n) in house.users.view
      modifies this`selfUser, ui`value, house.users`view, house.rooms, messenger
      ensures house.Valid() && forall c :: c in house.rooms.cells ==> c in old(house.rooms.cells)
      ensures var (group, sent) := Protocol.SelfJoined(old(Group()), n);
              Group() == group && messenger.msgs == old(messenger.msgs) + LobbySystem.Tag(grp, sent)
    {
      hide LobbySystem.Tag, ChatHouse.House.Valid, WellKeyed, Protocol.UserUpdate;
      TagsConcat(grp);
      house.UserCellKeyed(ui);
      selfUser := UserUpdate(ui, selfUser);
      house.SetUser(ui, ui.value.Assign(selfUser));
      var newKey := UserKey(ui.value.id.node, selfUser.id.idStr);
      house.SetUser(ui, ui.value.(id := newKey));
      selfUser := selfUser.(id := newKey);
    }

    /** A node has joined; `isSelf` tells whether it is this program's own. */
    method NodeAdded(n: Node, payload: string, isSelf: bool)
      requires Valid()
      modifies this`selfUser, house.users, house.users.cells, house.rooms, messenger
      ensures Valid()
      ensures forall c :: c in house.users.cells ==> c in old(house.users.cells) || fresh(c)
      ensures forall c :: c in house.rooms.cells ==> c in old(house.rooms.cells)
      ensures if IpBlock.Blocks(ipBlock.added, n.ip) then Group() == old(Group()) && messenger.msgs == old(messenger.msgs)
              else
                var (group, sent) := Protocol.Handle(old(Group()), Protocol.NodeAdded(n, payload, isSelf));
                Group() == group && messenger.msgs == old(messenger.msgs) + LobbySystem.Tag(grp, sent)
      ensures old(NoneBlocked()) ==> NoneBlocked()
    {
      hide LobbySystem.Tag, ChatHouse.House.Valid, WellKeyed, AllOut, Protocol.Inserted, Protocol.SelfJoined, IpBlock.Blocks, IpBlock.Store.Valid;
      TagsConcat(grp);
      var blocked := ipBlock.IsBlocked(n.ip);
      if blocked {
        return;
      }
      house.IsWellKeyed();
      StaysOut(ipBlock.added, Group(), Protocol.NodeAdded(n, payload, isSelf));
      AdapterNodeAdded(n, payload);
      if isSelf {
        var ui := house.UserFind(UserKey(Some(n), ""));
        if ui == null {
          return;
        }
        JoinSelf(ui, n);
      }
    }

    method NodeRemoved(n: Node)
      requires house.Valid()
      modifies house.users, house.rooms, messenger
      ensures house.Valid()
      ensures forall c :: c in house.users.cells ==> c in old(house.users.cells)
      ensures forall c :: c in house.rooms.cells ==> c in old(house.rooms.cells)
      ensures var (group, sent) := Protocol.Handle(old(Group()), Protocol.NodeGone(n));
              Group() == group && messenger.msgs == old(messenger.msgs) + LobbySystem.Tag(grp, sent)
    {
      hide LobbySystem.Tag, ChatHouse.House.Valid, WellKeyed, Protocol.UserErased;
      TagsConcat(grp);
      var ui := house.UserFind(UserKey(Some(n), ""));
      if ui != null {
        UserErased(ui.value);
        var _ := house.UserErase(ui.value.id);
      }
    }

    method RecvUserUpdate(from: Node, info: User)
      requires house.Valid()
      modifies house.users`view, house.users.cells, house.rooms, messenger
      ensures house.Valid() && forall c :: c in house.rooms.cells ==> c in old(house.rooms.cells)
      ensures var o := Protocol.RecvUserUpdate(old(house.Value()), from, info);
              house.Value() == o.house && messenger.msgs == old(messenger.msgs) + LobbySystem.Tag(grp, o.sent)
    {
      hide LobbySystem.Tag, ChatHouse.House.Valid, WellKeyed, Protocol.UserUpdate;
      TagsConcat(grp);
      var ui := house.UserFind(UserKey(Some(from), ""));
      if ui != null {
        var upd := UserUpdate(ui, info);
        house.SetUser(ui, ui.value.Assign(upd));
      }
    }

    /** Completes the room through the iterator: its owner is the sender's record. */
    method RoomUpdate(r: ChatHouse.Cell<string, Room>, from: Node)
      requires house.Valid() && r in house.rooms.cells
      modifies r`value, house.rooms`view, messenger
      ensures house.Valid()
      ensures var o := Protocol.RoomUpdate(old(house.Value()), old(r.value), from);
              house.Value() == o.house && messenger.msgs == old(messenger.msgs) + LobbySystem.Tag(grp, o.sent)
    {
      hide LobbySystem.Tag, ChatHouse.House.Valid, WellKeyed;
      TagsConcat(grp);
      house.RoomCellKeyed(r);
      var ui := house.UserFind(UserKey(Some(from), ""));
      if ui == null {
        return;
      }
      house.SetRoom(r, r.value.(ownerId := ui.value.id));
      Send(AsRoomMessage(r.value, r.value.body.sequence));
    }

    method RecvRoomUpdate(from: Node, info: Room)
      requires house.Valid()
      modifies house.rooms, house.rooms.cells, messenger
      ensures house.Valid() && forall c :: c in house.rooms.cells ==> c in old(house.rooms.cells) || fresh(c)
      ensures var o := Protocol.RecvRoomUpdate(old(house.Value()), from, info);
              house.Value() == o.house && messenger.msgs == old(messenger.msgs) + LobbySystem.Tag(grp, o.sent)
    {
      hide LobbySystem.Tag, ChatHouse.House.Valid, WellKeyed, Protocol.RoomUpdate;
      TagsConcat(grp);
      if info.id == "" {
        return;
      }
      var ri := house.RoomFind(info.id);
      if ri != null {
        var ui := house.UserFind(ri.value.ownerId);
        if ui == null {
          return;
        }
        if ui.value.id.node != Some(from) {
          return;
        }
        house.SetRoom(ri, ri.value.Assign(info));
      } else {
        ri := house.RoomInsert(info);
      }
      if ri != null {
        RoomUpdate(ri, from);
      }
    }

    method RecvUserData(from: Node, data: Message)
      requires house.Valid()
      modifies messenger
      ensures messenger.msgs == old(messenger.msgs) + LobbySystem.Tag(grp, Protocol.Handle(Group(), Protocol.UserData(from, data)).1)
    {
      hide LobbySystem.Tag, ChatHouse.House.Valid, WellKeyed;
      TagsConcat(grp);
      var ui := house.UserFind(UserKey(Some(from), ""));
      if ui != null && !Protocol.ModelMessage(data) {
        Send(Protocol.FromSender(data, ui.value.id));
      }
    }

    method DataReceived(from: Node, pdu: Pdu)
      requires Valid()
      modifies house.users`view, house.users.cells, house.rooms, house.rooms.cells, messenger
      ensures Valid() && forall c :: c in house.rooms.cells ==> c in old(house.rooms.cells) || fresh(c)
      ensures if IpBlock.Blocks(ipBlock.added, from.ip) then Group() == old(Group()) && messenger.msgs == old(messenger.msgs)
              else
                var (group, sent) := Protocol.Handle(old(Group()), Arrives(from, pdu));
                Group() == group && messenger.msgs == old(messenger.msgs) + LobbySystem.Tag(grp, sent)
      ensures old(NoneBlocked()) ==> NoneBlocked()
    {
      hide LobbySystem.Tag, ChatHouse.House.Valid, WellKeyed, AllOut, Protocol.RecvUserUpdate, Protocol.RecvRoomUpdate, IpBlock.Blocks, IpBlock.Store.Valid;
      TagsConcat(grp);
      var blocked := ipBlock.IsBlocked(from.ip);
      if blocked {
        return;
      }
      house.IsWellKeyed();
      StaysOut(ipBlock.added, Group(), Arrives(from, pdu));
      match pdu
      case UserInfo(user) => RecvUserUpdate(from, user);
      case RoomInfo(room) => RecvRoomUpdate(from, Protocol.Decoded(room));
      case UserData(data) => RecvUserData(from, data);
    }

    /** The local user has changed. */
    method Update(u: User)
      modifies this`selfUser
      ensures (Group(), []) == Protocol.Handle(old(Group()), Protocol.SelfInfo(u))
    {
      selfUser := selfUser.Assign(u);
      if selfUser.id.Empty() {
        selfUser := selfUser.(id := u.id);
      }
    }

    /** Collects the blocked users of the list, and only then removes them one by one. */
    method RemoveBlockedUsers() returns (rm: seq<Node>)
      requires Valid()
      modifies house.users, house.rooms, messenger
      ensures Valid()
      ensures forall c :: c in house.users.cells ==> c in old(house.users.cells)
      ensures forall c :: c in house.rooms.cells ==> c in old(house.rooms.cells)
      ensures LobbySystem.CollectsBlocked(ipBlock.added, old(house.Value()), rm)
      ensures var (group, sent) := Protocol.Run(old(Group()), Protocol.Departures(rm));
              Group() == group && messenger.msgs == old(messenger.msgs) + LobbySystem.Tag(grp, sent)
      ensures NoneBlocked()
    {
      rm := CollectBlocked();
      hide LobbySystem.Tag, ChatHouse.House.Valid, WellKeyed, IpBlock.Store.Valid, IpBlock.Blocks, Protocol.Run;
      TagsConcat(grp);
      house.IsWellKeyed();
      LobbySystem.DeparturesRemove(Group(), rm);
      RemoveNodes(rm);
    }

    method RemoveNodes(rm: seq<Node>)
      requires house.Valid()
      modifies house.users, house.rooms, messenger
      ensures house.Valid()
      ensures forall c :: c in house.users.cells ==> c in old(house.users.cells)
      ensures forall c :: c in house.rooms.cells ==> c in old(house.rooms.cells)
      ensures var (group, sent) := Protocol.Run(old(Group()), Protocol.Departures(rm));
              Group() == group && messenger.msgs == old(messenger.msgs) + LobbySystem.Tag(grp, sent)
    {
      hide LobbySystem.Tag, ChatHouse.House.Valid, Protocol.Handle, Protocol.Departures, Protocol.Run;
      TagsConcat(grp);
      RunNobody(Group());
      assert rm[..0] == [];
      for i := 0 to |rm|
        invariant house.Valid()
        invariant forall c :: c in house.users.cells ==> c in old(house.users.cells)
        invariant forall c :: c in house.rooms.cells ==> c in old(house.rooms.cells)
        invariant Group() == Protocol.Run(old(Group()), Protocol.Departures(rm[..i])).0
        invariant messenger.msgs == old(messenger.msgs) + LobbySystem.Tag(grp, Protocol.Run(old(Group()), Protocol.Departures(rm[..i])).1)
      {
        ghost var sent1, sent2 := Protocol.Run(old(Group()), Protocol.Departures(rm[..i])).1, Protocol.Handle(Group(), Protocol.NodeGone(rm[i])).1;
        NodeRemoved(rm[i]);
        RunOneMore(old(Group()), rm, i);
        assert LobbySystem.Tag(grp, sent1 + sent2) == LobbySystem.Tag(grp, sent1) + LobbySystem.Tag(grp, sent2);
      }
      assert rm[..|rm|] == rm;
    }

    method CollectBlocked() returns (rm: seq<Node>)
      requires Valid()
      ensures LobbySystem.CollectsBlocked(ipBlock.added, house.Value(), rm)
    {
      hide ChatHouse.House.Valid, IpBlock.Store.Valid, IpBlock.Blocks, ChatHouse.AllDifferent;
      house.UserKeysAre();
      rm := [];
      for i := 0 to |house.users.cells|
        invariant forall n :: n in rm <==> Some(n) in house.users.keys[..i] && IpBlock.Blocks(ipBlock.added, n.ip)
      {
        house.UserCellAt(i);
        var node := house.users.cells[i].value.id.node;
        assert house.users.keys[..i + 1] == house.users.keys[..i] + [node];
        if node.Some? {
          var blocked := ipBlock.IsBlocked(node.value.ip);
          if blocked {
            rm := rm + [node.value];
          }
        }
      }
      assert house.users.keys[..|house.users.keys|] == house.users.keys;
    }
  }

  lemma RunNobody(g: Protocol.Group)
    ensures Protocol.Run(g, Protocol.Departures([])) == (g, [])
  {
  }

  lemma RunOneMore(g: Protocol.Group, rm: seq<Node>, i: nat)
    requires i < |rm|
    ensures var (g1, sent1) := Protocol.Run(g, Protocol.Departures(rm[..i]));
            var (g2, sent2) := Protocol.Handle(g1, Protocol.NodeGone(rm[i]));
            Protocol.Run(g, Protocol.Departures(rm[..i + 1])) == (g2, sent1 + sent2)
  {
    hide Protocol.Handle;
    var es := Protocol.Departures(rm[..i + 1]);
    assert es[..i] == Protocol.Departures(rm[..i]);
  }
}
