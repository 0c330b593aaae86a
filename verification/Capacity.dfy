/** The host's count of participants in the room it hosts. */
module Capacity {
  import opened Wrappers
  import opened UserKeys
  import opened Lobby
  import opened ModelCopy
  import opened Gui
  import Protocol
  import Replay

  /** An update brings a name into room r only if that name is counted there already, in whichever
      group: the user holds a reservation, or was in the room before. */
  predicate HoldsPlace(cs: Copies, r: string, t: Tagged) {
    t.msg.UserMessage? && t.grp in cs && t.msg.user.body.roomId == r && t.msg.user.id.idStr != "" ==>
      t.msg.user.id.idStr in Participants(cs, r)
  }

  lemma OthersStay(cs: Copies, g: int, c: Copy, r: string)
    requires g in cs
    ensures Participants(cs[g := c], r) <= Participants(cs, r) + NamesIn(c.house.users, r)
  {
  }

  /** An update or a departure adds nobody but a user that holds a place. */
  lemma ApplyAddsNobody(cs: Copies, r: string, t: Tagged)
    requires HoldsPlace(cs, r, t)
    ensures Participants(ApplyTo(cs, t), r) <= Participants(cs, r)
  {
    if t.grp in cs {
      var c, c' := cs[t.grp], Apply(cs[t.grp], t.msg);
      OthersStay(cs, t.grp, c', r);
      forall s | s in NamesIn(c'.house.users, r)
        ensures s in Participants(cs, r)
      {
        var k :| k in c'.house.users && c'.house.users[k].body.roomId == r && c'.house.users[k].id.idStr == s;
        if k in c.house.users && c'.house.users[k] == c.house.users[k] {
          assert s in NamesIn(c.house.users, r);
        } else {
          assert t.msg.UserMessage?;
          NewRecord(c, t.msg.user, k);
        }
      }
    }
  }

  lemma NewRecord(c: Copy, u: User, k: Option<Node>)
    requires k in UserUpdated(c, u).house.users
    requires k in c.house.users ==> UserUpdated(c, u).house.users[k] != c.house.users[k]
    ensures UserUpdated(c, u).house.users[k].body == u.body && UserUpdated(c, u).house.users[k].id.idStr == u.id.idStr
  {
  }

  lemma SubsetSize(a: set<string>, b: set<string>)
    requires a <= b
    ensures |a| <= |b|
  {
    assert b == a + (b - a);
  }

  lemma ReserveAddsOne(cs: Copies, grp: int, sender: UserKey, r: string)
    requires grp in cs && SearchKey(cs[grp], sender) in cs[grp].house.users
    ensures var name := cs[grp].house.users[SearchKey(cs[grp], sender)].id.idStr;
            Participants(cs[grp := Reserve(cs[grp], sender, r)], r) <= Participants(cs, r) + {name}
  {
    var c, c' := cs[grp], Reserve(cs[grp], sender, r);
    OthersStay(cs, grp, c', r);
    forall s | s in NamesIn(c'.house.users, r) && s != c.house.users[SearchKey(c, sender)].id.idStr
      ensures s in Participants(cs, r)
    {
      assert s in NamesIn(c.house.users, r);
    }
  }

  lemma OneMore(a: set<string>, s: string, n: nat)
    requires |a| < n
    ensures |a + {s}| <= n
  {
    if s in a {
      assert a + {s} == a;
    }
  }

  /** A join adds one participant at most, and none to a full room. */
  lemma JoinKeepsCapacity(cs: Copies, host: Host, grp: int, rid: string, password: string, sender: UserKey)
    requires |Participants(cs, host.room.id)| <= host.room.body.maxPlayers
    ensures |Participants(HandleJoin(cs, host, grp, rid, password, sender), host.room.id)| <= host.room.body.maxPlayers
  {
    hide Participants, Reserve;
    var r := host.room.id;
    if JudgeJoin(cs, host, rid, password).Ack? && grp in cs {
      if SearchKey(cs[grp], sender) in cs[grp].house.users {
        var name := cs[grp].house.users[SearchKey(cs[grp], sender)].id.idStr;
        ReserveAddsOne(cs, grp, sender, r);
        OneMore(Participants(cs, r), name, host.room.body.maxPlayers);
        SubsetSize(Participants(cs[grp := Reserve(cs[grp], sender, r)], r), Participants(cs, r) + {name});
      } else {
        ReserveNobody(cs[grp], sender, r);
        assert cs[grp := cs[grp]] == cs;
      }
    }
  }

  lemma ReserveNobody(c: Copy, sender: UserKey, r: string)
    requires SearchKey(c, sender) !in c.house.users
    ensures Reserve(c, sender, r) == c
  {
  }

  lemma HandleOneKeepsCapacity(gui: Gui, host: Host, t: Tagged)
    requires |Participants(gui.cur, host.room.id)| <= host.room.body.maxPlayers
    requires HoldsPlace(gui.cur, host.room.id, t)
    ensures |Participants(HandleOne(gui, host, t).cur, host.room.id)| <= host.room.body.maxPlayers
  {
    var r := host.room.id;
    var cur := ApplyTo(gui.cur, t);
    ApplyAddsNobody(gui.cur, r, t);
    SubsetSize(Participants(cur, r), Participants(gui.cur, r));
    if t.msg.JoinRequest? {
      JoinKeepsCapacity(cur, host, t.grp, t.msg.roomId, t.msg.password, t.msg.sender);
    }
  }

  /** In every run of join requests, updates, cancels and departures over all groups in which users
      enter the hosted room only by a name that holds a place there, the host never counts more
      participants than it allows. */
  lemma {:induction false} NeverOverfull(gui: Gui, host: Host, ts: seq<Tagged>)
    requires |Participants(gui.cur, host.room.id)| <= host.room.body.maxPlayers
    requires forall i :: 0 <= i < |ts| ==> HoldsPlace(HandleAll(gui, host, ts[..i]).cur, host.room.id, ts[i])
    ensures |Participants(HandleAll(gui, host, ts).cur, host.room.id)| <= host.room.body.maxPlayers
    decreases |ts|
  {
    if ts != [] {
      var front := ts[..|ts| - 1];
      forall i | 0 <= i < |front|
        ensures HoldsPlace(HandleAll(gui, host, front[..i]).cur, host.room.id, front[i])
      {
        assert front[..i] == ts[..i];
      }
      NeverOverfull(gui, host, front);
      HandleOneKeepsCapacity(HandleAll(gui, host, front), host, ts[|ts| - 1]);
    }
  }

  lemma NamedUpdateWrites(c: Copy, u: User)
    requires u.id.idStr != ""
    ensures var users' := UserUpdated(c, u).house.users;
            && users'.Keys == c.house.users.Keys + {u.id.node}
            && (forall j :: j in c.house.users && j != u.id.node ==> users'[j] == c.house.users[j])
            && users'[u.id.node].body == u.body && users'[u.id.node].id.idStr == u.id.idStr
  {
  }

  /** The names in room r, not counting the record at node k of group g. */
  function Others(cs: Copies, g: int, k: Option<Node>, r: string): set<string> {
    set h, s | h in cs && s in NamesIn(UsersBut(cs, h, g, k), r) :: s
  }

  function UsersBut(cs: Copies, h: int, g: int, k: Option<Node>): Users
    requires h in cs
  {
    if h == g then cs[h].house.users - {k} else cs[h].house.users
  }

  /** The update finds room: the name it brings is in the room by another record, or there is a place
      once the record that it overwrites is not counted. */
  predicate HasRoom(cs: Copies, r: string, limit: nat, t: Tagged) {
    t.msg.UserMessage? && t.grp in cs && t.msg.user.body.roomId == r && t.msg.user.id.idStr != "" ==>
      var others := Others(cs, t.grp, t.msg.user.id.node, r);
      t.msg.user.id.idStr in others || |others| < limit
  }

  lemma NameIn(users: Users, k: Option<Node>, r: string)
    requires k in users && users[k].body.roomId == r && users[k].id.idStr != ""
    ensures users[k].id.idStr in NamesIn(users, r)
  {
  }

  /** Who is counted after a named update: the others, and the update's own name if it is in the
      room. */
  lemma NamedUpdateCounts(cs: Copies, g: int, u: User, r: string)
    requires g in cs && u.id.idStr != ""
    ensures Participants(cs[g := UserUpdated(cs[g], u)], r)
         == Others(cs, g, u.id.node, r) + if u.body.roomId == r then {u.id.idStr} else {}
  {
    var users, users' := cs[g].house.users, UserUpdated(cs[g], u).house.users;
    NamedUpdateWrites(cs[g], u);
    var without := users - {u.id.node};
    hide UserUpdated;
    assert NamesIn(users', r) == NamesIn(without, r) + if u.body.roomId == r then {u.id.idStr} else {} by {
      forall k | k in without && without[k].body.roomId == r && without[k].id.idStr != ""
        ensures without[k].id.idStr in NamesIn(users', r)
      {
        assert users'[k] == without[k];
      }
      forall k | k in users' && k != u.id.node && users'[k].body.roomId == r && users'[k].id.idStr != ""
        ensures users'[k].id.idStr in NamesIn(without, r)
      {
        assert without[k] == users'[k];
      }
      if u.body.roomId == r {
        NameIn(users', u.id.node, r);
      }
    }
    var cs' := cs[g := UserUpdated(cs[g], u)];
    hide NamesIn;
    assert cs'.Keys == cs.Keys;
    assert UsersBut(cs, g, g, u.id.node) == without;
    assert forall h :: h in cs && h != g ==> UsersBut(cs, h, g, u.id.node) == cs[h].house.users;
    assert forall h :: h in cs && h != g ==> cs'[h] == cs[h];
    assert cs'[g].house.users == users';
  }

  lemma OthersAreParticipants(cs: Copies, g: int, k: Option<Node>, r: string)
    requires g in cs
    ensures Others(cs, g, k, r) <= Participants(cs, r)
    ensures k in cs[g].house.users && cs[g].house.users[k].body.roomId == r && cs[g].house.users[k].id.idStr != "" ==>
              Participants(cs, r) == Others(cs, g, k, r) + {cs[g].house.users[k].id.idStr}
    ensures !(k in cs[g].house.users && cs[g].house.users[k].body.roomId == r && cs[g].house.users[k].id.idStr != "") ==>
              Participants(cs, r) == Others(cs, g, k, r)
  {
    var users := cs[g].house.users;
    var without := users - {k};
    assert UsersBut(cs, g, g, k) == without;
    assert forall h :: h in cs && h != g ==> UsersBut(cs, h, g, k) == cs[h].house.users;
    assert NamesIn(without, r) <= NamesIn(users, r);
    if k in users && users[k].body.roomId == r && users[k].id.idStr != "" {
      assert NamesIn(users, r) == NamesIn(without, r) + {users[k].id.idStr} by {
        NameIn(users, k, r);
        NamesBut(users, k, r);
      }
    } else {
      assert NamesIn(users, r) == NamesIn(without, r) by {
        NamesBut(users, k, r);
      }
    }
  }

  lemma NamesBut(users: Users, k: Option<Node>, r: string)
    ensures forall j :: j in users && j != k && users[j].body.roomId == r && users[j].id.idStr != "" ==>
              users[j].id.idStr in NamesIn(users - {k}, r)
  {
    forall j | j in users && j != k && users[j].body.roomId == r && users[j].id.idStr != ""
      ensures users[j].id.idStr in NamesIn(users - {k}, r)
    {
      NameIn(users - {k}, j, r);
    }
  }
  lemma UnionSize(a: set<string>, s: string)
    ensures |a + {s}| == if s in a then |a| else |a| + 1
  {
    if s in a {
      assert a + {s} == a;
    }
  }

  lemma NamedUpdateKeepsLimit(cs: Copies, g: int, u: User, r: string, limit: nat)
    requires g in cs && u.id.idStr != "" && |Participants(cs, r)| <= limit
    ensures |Participants(cs[g := UserUpdated(cs[g], u)], r)| <= limit <==> HasRoom(cs, r, limit, Tagged(g, UserMessage(u)))
  {
    hide Participants, Others, UserUpdated;
    var others := Others(cs, g, u.id.node, r);
    NamedUpdateCounts(cs, g, u, r);
    OthersAreParticipants(cs, g, u.id.node, r);
    SubsetSize(others, Participants(cs, r));
    UnionSize(others, u.id.idStr);
    assert others + {} == others;
  }

  /** One step keeps the limit if and only if its update finds room: joins, cancels and departures
      always do. */
  lemma StepKeepsLimit(gui: Gui, host: Host, t: Tagged)
    requires |Participants(gui.cur, host.room.id)| <= host.room.body.maxPlayers
    ensures |Participants(HandleOne(gui, host, t).cur, host.room.id)| <= host.room.body.maxPlayers
       <==> HasRoom(gui.cur, host.room.id, host.room.body.maxPlayers, t)
  {
    hide Participants, Others, UserUpdated, JudgeJoin, HandleJoin;
    if t.msg.UserMessage? && t.grp in gui.cur && t.msg.user.id.idStr != "" {
      NamedUpdateKeepsLimit(gui.cur, t.grp, t.msg.user, host.room.id, host.room.body.maxPlayers);
    } else {
      HandleOneKeepsCapacity(gui, host, t);
    }
  }

  ghost predicate Within(gui: Gui, host: Host) {
    |Participants(gui.cur, host.room.id)| <= host.room.body.maxPlayers
  }

  ghost predicate AlwaysWithin(gui: Gui, host: Host, ts: seq<Tagged>) {
    forall i :: 0 <= i <= |ts| ==> Within(HandleAll(gui, host, ts[..i]), host)
  }

  ghost predicate AllFindRoom(gui: Gui, host: Host, ts: seq<Tagged>) {
    forall i :: 0 <= i < |ts| ==> HasRoom(HandleAll(gui, host, ts[..i]).cur, host.room.id, host.room.body.maxPlayers, ts[i])
  }

  lemma OneTurnMore(gui: Gui, host: Host, ts: seq<Tagged>)
    requires ts != []
    ensures var front, t := ts[..|ts| - 1], ts[|ts| - 1];
            && (AlwaysWithin(gui, host, ts) <==> AlwaysWithin(gui, host, front) && Within(HandleAll(gui, host, ts), host))
            && (AllFindRoom(gui, host, ts) <==>
                  (AllFindRoom(gui, host, front) && HasRoom(HandleAll(gui, host, front).cur, host.room.id, host.room.body.maxPlayers, t)))
  {
    hide HandleAll, Within, HasRoom;
    var front := ts[..|ts| - 1];
    assert forall i :: 0 <= i <= |front| ==> front[..i] == ts[..i];
    assert ts[..|ts|] == ts;
  }

  lemma WithinNow(gui: Gui, host: Host, ts: seq<Tagged>)
    requires AlwaysWithin(gui, host, ts)
    ensures Within(HandleAll(gui, host, ts), host)
  {
    assert ts[..|ts|] == ts;
  }

  /** Over whole runs of anything: the limit is kept at every moment if and only if every update finds
      room when it comes. */
  lemma {:induction false} LimitOverRuns(gui: Gui, host: Host, ts: seq<Tagged>)
    requires |Participants(gui.cur, host.room.id)| <= host.room.body.maxPlayers
    ensures AlwaysWithin(gui, host, ts) <==> AllFindRoom(gui, host, ts)
    decreases |ts|
  {
    if ts == [] {
      assert ts[..0] == [];
    } else {
      hide AlwaysWithin, AllFindRoom, HasRoom, HandleOne, Participants;
      var front := ts[..|ts| - 1];
      LimitOverRuns(gui, host, front);
      OneTurnMore(gui, host, ts);
      if AlwaysWithin(gui, host, front) {
        WithinNow(gui, host, front);
        StepKeepsLimit(HandleAll(gui, host, front), host, ts[|ts| - 1]);
      }
    }
  }

  /** In a full room an update that is in order finds room exactly if its name holds a place there. */
  lemma FullRoom(cs: Copies, r: string, limit: nat, t: Tagged)
    requires |Participants(cs, r)| == limit
    requires t.grp in cs ==> WellKeyed(cs[t.grp].house) && Replay.InOrder(cs[t.grp].house, t.msg)
    ensures HasRoom(cs, r, limit, t) <==> HoldsPlace(cs, r, t)
  {
    hide Participants, Others;
    if t.msg.UserMessage? && t.grp in cs {
      var k, others := t.msg.user.id.node, Others(cs, t.grp, t.msg.user.id.node, r);
      OthersAreParticipants(cs, t.grp, k, r);
      if k in cs[t.grp].house.users {
        UnionSize(others, cs[t.grp].house.users[k].id.idStr);
      }
    }
  }

  /** So an update overfills a full room exactly when its name holds no place there, whether or not
      the record it overwrites is in the room through a reservation. */
  lemma StrangerOverfills(cs: Copies, host: Host, t: Tagged)
    requires t.msg.UserMessage? && t.grp in cs && WellKeyed(cs[t.grp].house) && Replay.InOrder(cs[t.grp].house, t.msg)
    requires |Participants(cs, host.room.id)| == host.room.body.maxPlayers
    ensures |Participants(ApplyTo(cs, t), host.room.id)| > host.room.body.maxPlayers <==> !HoldsPlace(cs, host.room.id, t)
  {
    hide Participants, HoldsPlace, HasRoom;
    FullRoom(cs, host.room.id, host.room.body.maxPlayers, t);
    var gui := Gui(cs, cs, map[]);
    StepKeepsLimit(gui, host, t);
    assert HandleOne(gui, host, t).cur == ApplyTo(cs, t);
  }

  /** Holding a reservation is not enough when the reservation has no name: a user whose record has
      not arrived yet is let in uncounted ... */
  lemma UnnamedIsNotCounted(cs: Copies, host: Host, grp: int, password: string, sender: UserKey)
    requires grp in cs && Find(cs[grp], sender).Some? && Find(cs[grp], sender).value.id.idStr == ""
    requires Find(cs[grp], sender).value.body.roomId != host.room.id
    ensures Participants(HandleJoin(cs, host, grp, host.room.id, password, sender), host.room.id) == Participants(cs, host.room.id)
  {
    var r := host.room.id;
    var c, c' := cs[grp], Reserve(cs[grp], sender, r);
    assert NamesIn(c'.house.users, r) == NamesIn(c.house.users, r) by {
      forall x | x in NamesIn(c.house.users, r)
        ensures x in NamesIn(c'.house.users, r)
      {
        var k :| k in c.house.users && c.house.users[k].body.roomId == r && c.house.users[k].id.idStr == x;
        assert c'.house.users[k] == c.house.users[k];
      }
    }
    var cs' := HandleJoin(cs, host, grp, r, password, sender);
    assert cs'.Keys == cs.Keys && forall g :: g in cs ==> NamesIn(cs'[g].house.users, r) == NamesIn(cs[g].house.users, r);
  }

  /** ... so that two users are let into a room for one. When the name of the second one arrives the
      room is full with the first, and the second name holds no place. */
  lemma UnnamedReservationsOverfill(grp: int, n1: Node, n2: Node)
    requires n1 != n2
    ensures var host := Host("r", Room("r", NO_KEY, RoomBody(1, 1, "", "", "")));
            var k1, k2 := UserKey(Some(n1), ""), UserKey(Some(n2), "");
            var users := map[Some(n1) := User(k1, UserBody("", 0, "")), Some(n2) := User(k2, UserBody("", 0, ""))];
            var cs0 := map[grp := Copy(House(users, map[]), map[])];
            var cs1 := HandleJoin(cs0, host, grp, "r", "", k1);
            var cs2 := HandleJoin(cs1, host, grp, "r", "", k2);
            var cs3 := ApplyTo(cs2, Tagged(grp, UserMessage(User(UserKey(Some(n1), "ann"), UserBody("r", 1, "")))));
            var cs4 := ApplyTo(cs3, Tagged(grp, UserMessage(User(UserKey(Some(n2), "bob"), UserBody("r", 1, "")))));
            && JudgeJoin(cs0, host, "r", "").Ack? && JudgeJoin(cs1, host, "r", "").Ack?
            && |Participants(cs4, "r")| > host.room.body.maxPlayers
  {
    var host := Host("r", Room("r", NO_KEY, RoomBody(1, 1, "", "", "")));
    var u1, u2 := User(UserKey(Some(n1), ""), UserBody("", 0, "")), User(UserKey(Some(n2), ""), UserBody("", 0, ""));
    var in1, in2 := InRoom(u1, "r"), InRoom(u2, "r");
    var ann := User(UserKey(Some(n1), "ann"), UserBody("r", 1, ""));
    var cs0 := Pair(grp, u1, u2);
    BothLetIn(grp, host, u1, u2);
    var cs3 := ApplyTo(Pair(grp, in1, in2), Tagged(grp, UserMessage(ann)));
    assert cs3[grp].house.users == map[Some(n1) := ann, Some(n2) := in2];
    OnlyAnn(cs3, grp, ann, in2);
    StrangerOverfills(cs3, host, Tagged(grp, UserMessage(User(UserKey(Some(n2), "bob"), UserBody("r", 1, "")))));
  }

  /** A group of two users. */
  function Pair(grp: int, u1: User, u2: User): Copies {
    map[grp := Copy(House(map[u1.id.node := u1, u2.id.node := u2], map[]), map[])]
  }

  lemma BothLetIn(grp: int, host: Host, u1: User, u2: User)
    requires host.selfRoom == host.room.id && host.room.body.password == "" && host.room.body.maxPlayers == 1
    requires u1.id.node.Some? && u2.id.node.Some? && u1.id.node != u2.id.node
    requires u1.id.idStr == "" == u2.id.idStr && u1.body.roomId != host.room.id && u2.body.roomId != host.room.id
    ensures var r, cs0 := host.room.id, Pair(grp, u1, u2);
            var cs1 := HandleJoin(cs0, host, grp, r, "", u1.id);
            && JudgeJoin(cs0, host, r, "").Ack? && JudgeJoin(cs1, host, r, "").Ack?
            && HandleJoin(cs1, host, grp, r, "", u2.id) == Pair(grp, InRoom(u1, r), InRoom(u2, r))
  {
    var r, cs0 := host.room.id, Pair(grp, u1, u2);
    var in1, in2 := InRoom(u1, r), InRoom(u2, r);
    assert Participants(cs0, r) == {};
    UnnamedIsNotCounted(cs0, host, grp, "", u1.id);
    var cs1 := HandleJoin(cs0, host, grp, r, "", u1.id);
    assert cs0[grp].house.users[u1.id.node := in1] == map[u1.id.node := in1, u2.id.node := u2];
    assert cs1 == Pair(grp, in1, u2);
    assert cs1[grp].house.users[u2.id.node := in2] == map[u1.id.node := in1, u2.id.node := in2];
  }

  lemma OnlyAnn(cs: Copies, grp: int, ann: User, other: User)
    requires cs.Keys == {grp} && cs[grp].house.users == map[ann.id.node := ann, other.id.node := other]
    requires ann.id.node != other.id.node && ann.id.idStr != "" == other.id.idStr && ann.body.roomId == "r"
    ensures Participants(cs, "r") == {ann.id.idStr} && |Participants(cs, "r")| == 1
  {
    var users := cs[grp].house.users;
    NameIn(users, ann.id.node, "r");
    assert NamesIn(users, "r") == {ann.id.idStr};
  }
}
