/** What a yes to a join request is worth. */
module Reservation {
  import opened Wrappers
  import opened UserKeys
  import opened Lobby
  import opened ModelCopy
  import opened Gui
  import opened Capacity
  import Protocol

  /** This program is in the room that it hosts, and the request is for that room. */
  predicate Hosting(host: Host, rid: string) {
    host.selfRoom == host.room.id == rid
  }

  predicate PasswordFits(host: Host, password: string) {
    host.room.body.password == "" || host.room.body.password == password
  }

  /** Each verdict exactly when it is due; anything but a yes leaves the copies alone. */
  lemma VerdictsAreDue(cs: Copies, host: Host, grp: int, rid: string, password: string, sender: UserKey)
    ensures var v := JudgeJoin(cs, host, rid, password);
            && (v.Nack? <==> !Hosting(host, rid))
            && (v.WrongPassword? <==> Hosting(host, rid) && !PasswordFits(host, password))
            && (v.Full? <==> Hosting(host, rid) && PasswordFits(host, password) && |Participants(cs, rid)| >= host.room.body.maxPlayers)
            && (v.Ack? <==> Hosting(host, rid) && PasswordFits(host, password) && |Participants(cs, rid)| < host.room.body.maxPlayers)
            && (!v.Ack? ==> HandleJoin(cs, host, grp, rid, password, sender) == cs)
  {
  }

  /** After a yes the user that asked is in the room, and nothing else has changed. */
  lemma YesMovesTheUser(cs: Copies, host: Host, grp: int, rid: string, password: string, sender: UserKey)
    requires JudgeJoin(cs, host, rid, password).Ack? && grp in cs
    ensures var cs' := HandleJoin(cs, host, grp, rid, password, sender);
            && cs'.Keys == cs.Keys && (forall h :: h in cs && h != grp ==> cs'[h] == cs[h])
            && cs'[grp].index == cs[grp].index && cs'[grp].house.rooms == cs[grp].house.rooms
            && MovedOnly(cs[grp].house.users, cs'[grp].house.users, SearchKey(cs[grp], sender), rid)
  {
  }

  /** The record at k, if there is one, has the room rid; otherwise the records are the same. */
  ghost predicate MovedOnly(users: Users, users': Users, k: Option<Node>, rid: string) {
    && users'.Keys == users.Keys
    && (forall j :: j in users && j != k ==> users'[j] == users[j])
    && (k in users ==> users'[k].id == users[k].id && users'[k].body == users[k].body.(roomId := rid))
  }

  /** A yes to a user with a name takes a place under that name, and no other. */
  lemma YesTakesAPlace(cs: Copies, host: Host, grp: int, rid: string, password: string, sender: UserKey)
    requires JudgeJoin(cs, host, rid, password).Ack? && grp in cs
    requires Find(cs[grp], sender).Some? && Find(cs[grp], sender).value.id.idStr != ""
    ensures Participants(HandleJoin(cs, host, grp, rid, password, sender), rid)
         == Participants(cs, rid) + {Find(cs[grp], sender).value.id.idStr}
  {
    var cs' := HandleJoin(cs, host, grp, rid, password, sender);
    var users, users', k := cs[grp].house.users, cs'[grp].house.users, SearchKey(cs[grp], sender);
    YesMovesTheUser(cs, host, grp, rid, password, sender);
    var name := users[k].id.idStr;
    assert NamesIn(users', rid) == NamesIn(users, rid) + {name} by {
      NameIn(users', k, rid);
      forall j | j in users && users[j].body.roomId == rid && users[j].id.idStr != ""
        ensures users[j].id.idStr in NamesIn(users', rid)
      {
        NameIn(users', j, rid);
      }
      forall j | j in users' && j != k && users'[j].body.roomId == rid && users'[j].id.idStr != ""
        ensures users'[j].id.idStr in NamesIn(users, rid)
      {
        NameIn(users, j, rid);
      }
    }
    hide NamesIn, HandleJoin;
    assert forall h :: h in cs && h != grp ==> cs'[h] == cs[h];
  }

  /** The record that the message is about is counted in room r. */
  predicate Counted(cs: Copies, r: string, g: int, k: Option<Node>) {
    g in cs && k in cs[g].house.users && cs[g].house.users[k].body.roomId == r && cs[g].house.users[k].id.idStr != ""
  }

  /** Somebody that is counted leaves, moves elsewhere or changes the name. */
  predicate Quits(cs: Copies, r: string, t: Tagged) {
    match t.msg
    case UserLeft(u) => Counted(cs, r, t.grp, u.id.node)
    case UserMessage(u) =>
      Counted(cs, r, t.grp, u.id.node) && u.id.idStr != ""
      && (u.body.roomId != r || u.id.idStr != cs[t.grp].house.users[u.id.node].id.idStr)
    case _ => false
  }

  lemma NamesStay(users: Users, users': Users, r: string)
    requires forall k :: k in users && users[k].body.roomId == r && users[k].id.idStr != "" ==>
               k in users' && users'[k].body.roomId == r && users'[k].id.idStr == users[k].id.idStr
    ensures NamesIn(users, r) <= NamesIn(users', r)
  {
    forall k | k in users && users[k].body.roomId == r && users[k].id.idStr != ""
      ensures users[k].id.idStr in NamesIn(users', r)
    {
      NameIn(users', k, r);
    }
  }

  lemma ParticipantsStay(cs: Copies, g: int, c: Copy, r: string)
    requires g in cs && NamesIn(cs[g].house.users, r) <= NamesIn(c.house.users, r)
    ensures Participants(cs, r) <= Participants(cs[g := c], r)
  {
    hide NamesIn;
    var cs' := cs[g := c];
    forall h, s | h in cs && s in NamesIn(cs[h].house.users, r)
      ensures s in Participants(cs', r)
    {
      assert s in NamesIn(cs'[h].house.users, r);
    }
  }

  lemma NobodyQuits(cs: Copies, r: string, t: Tagged)
    requires !Quits(cs, r, t)
    ensures Participants(cs, r) <= Participants(ApplyTo(cs, t), r)
  {
    if t.grp in cs {
      NamesStay(cs[t.grp].house.users, Apply(cs[t.grp], t.msg).house.users, r);
      ParticipantsStay(cs, t.grp, Apply(cs[t.grp], t.msg), r);
    }
  }

  lemma JoinLosesNobody(cs: Copies, host: Host, grp: int, rid: string, password: string, sender: UserKey)
    ensures Participants(cs, host.room.id) <= Participants(HandleJoin(cs, host, grp, rid, password, sender), host.room.id)
  {
    if JudgeJoin(cs, host, rid, password).Ack? && grp in cs {
      NamesStay(cs[grp].house.users, Reserve(cs[grp], sender, rid).house.users, rid);
      ParticipantsStay(cs, grp, Reserve(cs[grp], sender, rid), rid);
    }
  }

  lemma StepLosesNobody(gui: Gui, host: Host, t: Tagged)
    requires !Quits(gui.cur, host.room.id, t)
    ensures Participants(gui.cur, host.room.id) <= Participants(HandleOne(gui, host, t).cur, host.room.id)
  {
    hide Participants, Quits, HandleJoin, ApplyTo;
    NobodyQuits(gui.cur, host.room.id, t);
    if t.msg.JoinRequest? {
      JoinLosesNobody(ApplyTo(gui.cur, t), host, t.grp, t.msg.roomId, t.msg.password, t.msg.sender);
    }
  }

  /** A room that is full stays full, and nobody gets a yes, until somebody quits. */
  lemma {:induction false} FullUntilSomebodyQuits(gui: Gui, host: Host, ts: seq<Tagged>, rid: string, password: string)
    requires |Participants(gui.cur, host.room.id)| >= host.room.body.maxPlayers
    requires forall i :: 0 <= i < |ts| ==> !Quits(HandleAll(gui, host, ts[..i]).cur, host.room.id, ts[i])
    ensures |Participants(HandleAll(gui, host, ts).cur, host.room.id)| >= host.room.body.maxPlayers
    ensures !JudgeJoin(HandleAll(gui, host, ts).cur, host, rid, password).Ack?
    ensures Hosting(host, rid) && PasswordFits(host, password) ==> JudgeJoin(HandleAll(gui, host, ts).cur, host, rid, password).Full?
    decreases |ts|
  {
    hide Participants, Quits, HandleOne;
    if ts != [] {
      var front, t := ts[..|ts| - 1], ts[|ts| - 1];
      assert forall i :: 0 <= i <= |front| ==> front[..i] == ts[..i];
      FullUntilSomebodyQuits(gui, host, front, rid, password);
      var gui1 := HandleAll(gui, host, front);
      assert !Quits(gui1.cur, host.room.id, t);
      StepLosesNobody(gui1, host, t);
      SubsetSize(Participants(gui1.cur, host.room.id), Participants(HandleOne(gui1, host, t).cur, host.room.id));
    }
  }

  /** So after a yes to somebody with a name for the last place, no later request gets a yes until
      somebody quits. */
  lemma LastPlaceIsTaken(gui: Gui, host: Host, t: Tagged, ts: seq<Tagged>, rid: string, password: string)
    requires t.msg.JoinRequest? && !Filter(gui.seen, t.msg).0 && t.grp in gui.cur
    requires JudgeJoin(gui.cur, host, t.msg.roomId, t.msg.password).Ack?
    requires |Participants(gui.cur, host.room.id)| + 1 == host.room.body.maxPlayers
    requires Find(gui.cur[t.grp], t.msg.sender).Some?
    requires var name := Find(gui.cur[t.grp], t.msg.sender).value.id.idStr;
             name != "" && name !in Participants(gui.cur, host.room.id)
    requires var gui1 := HandleOne(gui, host, t);
             forall i :: 0 <= i < |ts| ==> !Quits(HandleAll(gui1, host, ts[..i]).cur, host.room.id, ts[i])
    ensures var gui2 := HandleAll(HandleOne(gui, host, t), host, ts);
            && !JudgeJoin(gui2.cur, host, rid, password).Ack?
            && (Hosting(host, rid) && PasswordFits(host, password) ==> JudgeJoin(gui2.cur, host, rid, password).Full?)
  {
    hide Participants, Quits, Filter, HandleAll;
    assert ApplyTo(gui.cur, t) == gui.cur by {
      assert gui.cur[t.grp := gui.cur[t.grp]] == gui.cur;
    }
    YesTakesAPlace(gui.cur, host, t.grp, t.msg.roomId, t.msg.password, t.msg.sender);
    UnionSize(Participants(gui.cur, host.room.id), Find(gui.cur[t.grp], t.msg.sender).value.id.idStr);
    FullUntilSomebodyQuits(HandleOne(gui, host, t), host, ts, rid, password);
  }
}
