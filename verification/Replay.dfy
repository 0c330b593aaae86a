/** The messages of a step, replayed on a copy, reproduce the step. */
module Replay {
  import opened Wrappers
  import opened UserKeys
  import opened Lobby
  import opened Protocol

  lemma {:induction false} FoldConcat(h: House, a: seq<Message>, b: seq<Message>)
    ensures Fold(h, a + b) == Fold(Fold(h, a), b)
    decreases |b|
  {
    if b == [] {
      assert a + b == a;
    } else {
      assert (a + b)[..|a + b| - 1] == a + b[..|b| - 1];
      FoldConcat(h, a, b[..|b| - 1]);
    }
  }

  lemma FoldOne(h: House, m: Message)
    ensures Fold(h, [m]) == Apply(h, m)
  {
    assert Fold(h, [m][..0]) == h;
  }

  lemma FoldSnoc(h: House, ms: seq<Message>, m: Message)
    ensures Fold(h, ms + [m]) == Apply(Fold(h, ms), m)
  {
    assert (ms + [m])[..|ms|] == ms;
  }

  lemma ReplayRoomClosed(h: House, rid: string)
    requires WellKeyed(h)
    ensures Fold(h, RoomClosed(h, rid).sent) == RoomClosed(h, rid).house
    ensures WellKeyed(RoomClosed(h, rid).house)
  {
    if rid in h.rooms {
      FoldOne(h, AsRoomRemove(h.rooms[rid], 0));
    }
  }

  lemma ReplayUserErased(h: House, u: User)
    requires WellKeyed(h)
    ensures WellKeyed(UserErased(h, u).house)
    ensures UserErased(h, u).house.users == h.users
    ensures var e := UserErased(h, u);
            Fold(h, e.sent) == e.house.(users := e.house.users - {u.id.node})
  {
    hide RoomClosed, Fold;
    ReplayRoomClosed(h, u.body.roomId);
    ClosedKeepsUsers(h, u.body.roomId);
    NothingFolds(h);
    var c := if u.body.roomId != "" && Owns(h, u.body.roomId, u.id)
             then RoomClosed(h, u.body.roomId) else Out(h, []);
    assert Fold(h, c.sent) == c.house;
    FoldSnoc(h, c.sent, AsUserLeft(u, 0));
  }

  lemma ClosedKeepsUsers(h: House, rid: string)
    ensures RoomClosed(h, rid).house.users == h.users
  {
  }

  lemma NothingFolds(h: House)
    ensures Fold(h, []) == h
  {
  }

  lemma ReplayIdSettled(h: House, was: User, upd: User)
    requires WellKeyed(h) && was.id.node in h.users && h.users[was.id.node] == was
    ensures var o := IdSettled(h, was, upd);
            && WellKeyed(o.house)
            && o.house.users == h.users[was.id.node := User(SettledId(was, upd), was.body)]
            && Fold(h, o.sent) == House(if Restarted(was, upd) then h.users - {was.id.node} else h.users, o.house.rooms)
  {
    ReplayUserErased(h, was);
  }

  lemma ReplayRoomLeft(h: House, copy: House, was: User, upd: User)
    requires WellKeyed(h) && copy.rooms == h.rooms
    ensures var o := RoomLeft(h, was, upd);
            WellKeyed(o.house) && o.house.users == h.users && Fold(copy, o.sent) == House(copy.users, o.house.rooms)
  {
    if was.body.roomId in h.rooms {
      FoldOne(copy, AsRoomRemove(h.rooms[was.body.roomId], 0));
    }
  }

  /** The copy holds the announced record even before the handler has copied the body, unless the
      announcement carries no id string: then the copy keeps the record it had. */
  lemma ReplayUserUpdate(h: House, was: User, upd: User)
    requires WellKeyed(h) && was.id.node in h.users && h.users[was.id.node] == was
    ensures var o := UserUpdate(h, was, upd);
            && WellKeyed(o.house)
            && o.house.users == h.users[was.id.node := User(SettledId(was, upd), was.body)]
            && Fold(h, o.sent) == House(if upd.id.idStr == "" then h.users else h.users[was.id.node := Keyed(was, upd)],
                                        o.house.rooms)
  {
    hide IdSettled, RoomLeft, Fold, WellKeyed;
    var first := IdSettled(h, was, upd);
    ReplayIdSettled(h, was, upd);
    var copy := Fold(h, first.sent);
    var second := RoomLeft(first.house, was, upd);
    ReplayRoomLeft(first.house, copy, was, upd);
    FoldConcat(h, first.sent, second.sent);
    FoldSnoc(h, first.sent + second.sent, AsUserMessage(Keyed(was, upd), upd.body.sequence));
    assert (h.users - {was.id.node})[was.id.node := Keyed(was, upd)] == h.users[was.id.node := Keyed(was, upd)];
  }

  lemma SameEntry<K, V>(m: map<K, V>, k: K, v: V)
    requires k in m
    ensures m[k := v] == m <==> m[k] == v
  {
    if m[k] == v {
      assert m[k := v] == m;
    } else {
      assert m[k := v][k] != m[k];
    }
  }

  lemma OverwriteAgrees(users: Users, after: House, copy: House, settled: User, rec: User, named: bool)
    requires rec.id.node in users
    requires after.users == users[rec.id.node := settled]
    requires copy == House(if named then users[rec.id.node := rec] else users, after.rooms)
    ensures copy == SetUser(after, rec) <==> named || rec == users[rec.id.node]
  {
    assert SetUser(after, rec).users == users[rec.id.node := rec];
    SameEntry(users, rec.id.node, rec);
  }

  /** The handler's last act, writing `rec` over the old record, is what the messages announced:
      always if the update had an id string, and otherwise only if nothing is written. */
  lemma ReplayOverwrite(h: House, was: User, upd: User, rec: User)
    requires WellKeyed(h) && was.id.node in h.users && h.users[was.id.node] == was
    requires rec.id.node == was.id.node
    requires upd.id.idStr != "" ==> rec == Keyed(was, upd)
    ensures var o := UserUpdate(h, was, upd);
            && WellKeyed(SetUser(o.house, rec))
            && (Fold(h, o.sent) == SetUser(o.house, rec) <==> upd.id.idStr != "" || rec == was)
  {
    hide UserUpdate, Fold;
    var o := UserUpdate(h, was, upd);
    ReplayUserUpdate(h, was, upd);
    assert upd.id.idStr == "" || Keyed(was, upd) == rec;
    OverwriteAgrees(h.users, o.house, Fold(h, o.sent), User(SettledId(was, upd), was.body), rec, upd.id.idStr != "");
  }

  lemma ReplayNodeRemoved(h: House, n: Node)
    requires WellKeyed(h)
    ensures var o := NodeRemoved(h, n);
            WellKeyed(o.house) && Fold(h, o.sent) == o.house && o.house.users == h.users - {Some(n)}
  {
    if Some(n) in h.users {
      ReplayUserErased(h, h.users[Some(n)]);
    }
  }

  /** The guards under which a step announces everything it changes, read off the state before
      the step and the event: an update must carry an id string or change nothing, and a room
      that is new must come from a node of the house. */
  predicate Announced(g: Group, e: Event) {
    match e
    case NodeAdded(n, payload, isSelf) =>
      var rec := if Some(n) in g.house.users then g.house.users[Some(n)] else FreshUser(n, payload);
      !isSelf || g.self.id.idStr != "" || (rec.id.idStr == "" && rec.body == g.self.body)
    case UserInfo(from, user) =>
      Some(from) !in g.house.users || user.id.idStr != "" || g.house.users[Some(from)].body == user.body
    case RoomInfo(from, room) =>
      room.id == "" || room.id in g.house.rooms || Some(from) in g.house.users
    case _ => true
  }

  lemma ReplayInserted(h: House, n: Node, payload: string)
    requires WellKeyed(h)
    ensures var o := Inserted(h, n, payload);
            WellKeyed(o.house) && Some(n) in o.house.users && Fold(h, o.sent) == o.house
  {
    FoldOne(h, AsUserMessage(FreshUser(n, payload), 0));
  }

  lemma ReplaySelfJoined(g: Group, n: Node)
    requires WellKeyed(g.house) && Some(n) in g.house.users
    ensures var was := g.house.users[Some(n)];
            var (g', sent) := SelfJoined(g, n);
            && WellKeyed(g'.house)
            && (Fold(g.house, sent) == g'.house <==> g.self.id.idStr != "" || was == User(UserKey(Some(n), ""), g.self.body))
  {
    var was := g.house.users[Some(n)];
    ReplayOverwrite(g.house, was, g.self, User(UserKey(Some(n), g.self.id.idStr), g.self.body));
  }

  lemma ReplayNodeAdded(g: Group, n: Node, payload: string, isSelf: bool)
    requires WellKeyed(g.house)
    ensures var (g', sent) := Handle(g, NodeAdded(n, payload, isSelf));
            && WellKeyed(g'.house)
            && (Fold(g.house, sent) == g'.house <==> Announced(g, NodeAdded(n, payload, isSelf)))
  {
    var i := Inserted(g.house, n, payload);
    ReplayInserted(g.house, n, payload);
    if isSelf {
      var g1 := g.(house := i.house);
      ReplaySelfJoined(g1, n);
      FoldConcat(g.house, i.sent, SelfJoined(g1, n).1);
    }
  }

  lemma ReplayUserInfo(g: Group, from: Node, user: User)
    requires WellKeyed(g.house)
    ensures var (g', sent) := Handle(g, UserInfo(from, user));
            && WellKeyed(g'.house)
            && (Fold(g.house, sent) == g'.house <==> Announced(g, UserInfo(from, user)))
  {
    if Some(from) in g.house.users {
      var was := g.house.users[Some(from)];
      ReplayUserUpdate(g.house, was, user);
      ReplayOverwrite(g.house, was, user, User(SettledId(was, user), user.body));
    }
  }

  lemma ReplayRoomInfo(g: Group, from: Node, room: Room)
    requires WellKeyed(g.house)
    ensures var (g', sent) := Handle(g, RoomInfo(from, room));
            && WellKeyed(g'.house)
            && (Fold(g.house, sent) == g'.house <==> Announced(g, RoomInfo(from, room)))
  {
    var (g', sent) := Handle(g, RoomInfo(from, room));
    assert Decoded(room).id == room.id;
    if sent != [] {
      FoldOne(g.house, sent[0]);
      assert Fold(g.house, sent).rooms == g'.house.rooms;
    } else if !Announced(g, RoomInfo(from, room)) {
      assert room.id in g'.house.rooms && room.id !in g.house.rooms;
    }
  }

  /** A step's messages rebuild exactly the step's effect, and they do so if and only if the step's
      guard Announced holds. */
  lemma StepReplays(g: Group, e: Event)
    requires WellKeyed(g.house)
    ensures var (g', sent) := Handle(g, e);
            WellKeyed(g'.house) && (Fold(g.house, sent) == g'.house <==> Announced(g, e))
  {
    match e
    case NodeAdded(n, payload, isSelf) => ReplayNodeAdded(g, n, payload, isSelf);
    case NodeGone(n) => ReplayNodeRemoved(g.house, n);
    case UserInfo(from, user) => ReplayUserInfo(g, from, user);
    case RoomInfo(from, room) => ReplayRoomInfo(g, from, room);
    case UserData(from, data) =>
      if Some(from) in g.house.users && !ModelMessage(data) {
        FoldOne(g.house, FromSender(data, g.house.users[Some(from)].id));
      }
    case SelfInfo(user) =>
  }

  /** Every event of the run meets its guard in the state it meets. */
  ghost predicate AllAnnounced(g: Group, es: seq<Event>) {
    forall i :: 0 <= i < |es| ==> Announced(Run(g, es[..i]).0, es[i])
  }

  /** A copy that receives all messages of a run is the house the run ends in. */
  lemma {:induction false} RunReplays(g: Group, es: seq<Event>)
    requires WellKeyed(g.house) && AllAnnounced(g, es)
    ensures var (g', sent) := Run(g, es);
            WellKeyed(g'.house) && Fold(g.house, sent) == g'.house
    decreases |es|
  {
    if es != [] {
      var front := es[..|es| - 1];
      forall i | 0 <= i < |front|
        ensures Announced(Run(g, front[..i]).0, front[i])
      {
        assert front[..i] == es[..i];
      }
      RunReplays(g, front);
      var (g1, sent1) := Run(g, front);
      StepReplays(g1, es[|es| - 1]);
      FoldConcat(g.house, sent1, Handle(g1, es[|es| - 1]).1);
    }
  }

  /** What a receiver may rely on when m arrives at a copy h: users have nodes, a departure carries
      the id the user has in the copy, and a known id string is not replaced by another one. */
  predicate InOrder(h: House, m: Message) {
    match m
    case UserMessage(u) =>
      && u.id.node.Some?
      && (u.id.node in h.users && h.users[u.id.node].id.idStr != "" && u.id.idStr != "" ==>
            h.users[u.id.node].id == u.id)
    case UserLeft(u) => u.id.node in h.users && h.users[u.id.node].id == u.id
    case _ => true
  }

  ghost predicate AllInOrder(h: House, ms: seq<Message>) {
    forall i :: 0 <= i < |ms| ==> InOrder(Fold(h, ms[..i]), ms[i])
  }

  lemma OneInOrder(h: House, m: Message)
    ensures AllInOrder(h, [m]) <==> InOrder(h, m)
  {
    assert Fold(h, [m][..0]) == h;
  }

  lemma InOrderConcat(h: House, a: seq<Message>, b: seq<Message>)
    requires AllInOrder(h, a) && AllInOrder(Fold(h, a), b)
    ensures AllInOrder(h, a + b)
  {
    forall i | 0 <= i < |a + b|
      ensures InOrder(Fold(h, (a + b)[..i]), (a + b)[i])
    {
      if i < |a| {
        assert (a + b)[..i] == a[..i];
      } else {
        assert (a + b)[..i] == a + b[..i - |a|];
        FoldConcat(h, a, b[..i - |a|]);
      }
    }
  }

  lemma InOrderPrefix(h: House, a: seq<Message>, b: seq<Message>)
    requires AllInOrder(h, a + b)
    ensures AllInOrder(h, a) && AllInOrder(Fold(h, a), b)
  {
    forall i | 0 <= i < |a|
      ensures InOrder(Fold(h, a[..i]), a[i])
    {
      assert (a + b)[..i] == a[..i];
      assert (a + b)[i] == a[i];
    }
    forall i | 0 <= i < |b|
      ensures InOrder(Fold(Fold(h, a), b[..i]), b[i])
    {
      assert (a + b)[..|a| + i] == a + b[..i];
      assert (a + b)[|a| + i] == b[i];
      FoldConcat(h, a, b[..i]);
    }
  }

  lemma RoomClosedInOrder(h: House, copy: House, rid: string)
    ensures AllInOrder(copy, RoomClosed(h, rid).sent)
  {
    if rid in h.rooms {
      OneInOrder(copy, AsRoomRemove(h.rooms[rid], 0));
    }
  }

  lemma ErasedInOrder(h: House, u: User)
    requires WellKeyed(h) && u.id.node in h.users && h.users[u.id.node] == u
    ensures AllInOrder(h, UserErased(h, u).sent)
  {
    var c := if u.body.roomId != "" && Owns(h, u.body.roomId, u.id)
             then RoomClosed(h, u.body.roomId) else Out(h, []);
    ReplayRoomClosed(h, u.body.roomId);
    RoomClosedInOrder(h, h, u.body.roomId);
    assert AllInOrder(h, c.sent);
    OneInOrder(c.house, AsUserLeft(u, 0));
    InOrderConcat(h, c.sent, [AsUserLeft(u, 0)]);
  }

  lemma UpdateInOrder(h: House, was: User, upd: User)
    requires WellKeyed(h) && was.id.node in h.users && h.users[was.id.node] == was
    ensures AllInOrder(h, UserUpdate(h, was, upd).sent)
  {
    var first := IdSettled(h, was, upd);
    var second := RoomLeft(first.house, was, upd);
    ReplayIdSettled(h, was, upd);
    var copy := Fold(h, first.sent);
    ReplayRoomLeft(first.house, copy, was, upd);
    if Restarted(was, upd) {
      ErasedInOrder(h, was);
    }
    RoomClosedInOrder(first.house, copy, was.body.roomId);
    assert AllInOrder(copy, second.sent);
    InOrderConcat(h, first.sent, second.sent);
    FoldConcat(h, first.sent, second.sent);
    var announcement := AsUserMessage(Keyed(was, upd), upd.body.sequence);
    OneInOrder(Fold(copy, second.sent), announcement);
    InOrderConcat(h, first.sent + second.sent, [announcement]);
  }

  /** Whatever the event, its messages arrive in order at a copy that is up to date. */
  lemma StepInOrder(g: Group, e: Event)
    requires WellKeyed(g.house)
    ensures AllInOrder(g.house, Handle(g, e).1)
  {
    match e
    case NodeAdded(n, payload, isSelf) =>
      var i := Inserted(g.house, n, payload);
      ReplayInserted(g.house, n, payload);
      OneInOrder(g.house, AsUserMessage(FreshUser(n, payload), 0));
      if isSelf {
        UpdateInOrder(i.house, i.house.users[Some(n)], g.self);
        InOrderConcat(g.house, i.sent, SelfJoined(g.(house := i.house), n).1);
      }
    case NodeGone(n) =>
      if Some(n) in g.house.users {
        ErasedInOrder(g.house, g.house.users[Some(n)]);
      }
    case UserInfo(from, user) =>
      if Some(from) in g.house.users {
        UpdateInOrder(g.house, g.house.users[Some(from)], user);
      }
    case RoomInfo(from, room) =>
      var sent := Handle(g, e).1;
      if sent != [] {
        OneInOrder(g.house, sent[0]);
      }
    case UserData(from, data) =>
      var sent := Handle(g, e).1;
      if sent != [] {
        OneInOrder(g.house, sent[0]);
      }
    case SelfInfo(user) =>
  }

  lemma {:induction false} RunInOrder(g: Group, es: seq<Event>)
    requires WellKeyed(g.house) && AllAnnounced(g, es)
    ensures AllInOrder(g.house, Run(g, es).1)
    decreases |es|
  {
    if es != [] {
      var front := es[..|es| - 1];
      forall i | 0 <= i < |front|
        ensures Announced(Run(g, front[..i]).0, front[i])
      {
        assert front[..i] == es[..i];
      }
      RunReplays(g, front);
      RunInOrder(g, front);
      var (g1, sent1) := Run(g, front);
      StepInOrder(g1, es[|es| - 1]);
      InOrderConcat(g.house, sent1, Handle(g1, es[|es| - 1]).1);
    }
  }

  /** An update without an id string does reach the house but not its copy. */
  lemma UnnamedUpdateIsLost(n: Node)
    ensures var named := User(UserKey(Some(n), "1:ann:0"), UserBody("", 1, ""));
            var g := Group(House(map[Some(n) := named], map[]), User(NO_KEY, UserBody("", 0, "")));
            var (g', sent) := Handle(g, UserInfo(n, User(NO_KEY, UserBody("r", 2, ""))));
            WellKeyed(g.house) && Fold(g.house, sent) != g'.house
  {
    var named := User(UserKey(Some(n), "1:ann:0"), UserBody("", 1, ""));
    var g := Group(House(map[Some(n) := named], map[]), User(NO_KEY, UserBody("", 0, "")));
    StepReplays(g, UserInfo(n, User(NO_KEY, UserBody("r", 2, ""))));
  }
}
