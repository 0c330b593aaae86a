/** What the GUI thread does with the messages of all groups: duplicates are dropped, the current and
    the previous copy of the house are brought up to date, and join requests reserve a place in the
    hosted room. Functions on values; the HouseApp class is proved to do exactly this. */
module Gui {
  import opened Wrappers
  import opened UserKeys
  import opened Lobby
  import opened ModelCopy
  import Protocol
  import DupFilter

  datatype Tagged = Tagged(grp: int, msg: Message)

  type Copies = map<int, Copy>

  /** The local user's room, and the room it hosts. */
  datatype Host = Host(selfRoom: string, room: Room)

  datatype Gui = Gui(cur: Copies, prev: Copies, seen: DupFilter.Seen)

  /** A message for a group that was never allowed changes nothing (see Throws). */
  function ApplyTo(cs: Copies, t: Tagged): Copies {
    if t.grp in cs then cs[t.grp := Apply(cs[t.grp], t.msg)] else cs
  }

  /** Messages that change the model and messages without a sequence are never filtered. */
  function Filter(seen: DupFilter.Seen, m: Message): (bool, DupFilter.Seen) {
    if m.JoinRequest? && m.sequence != 0 then DupFilter.FilterDup(seen, m.sender.idStr, m.sequence)
    else if m.Channel? && m.sequence != 0 then DupFilter.FilterDup(seen, m.sender.idStr, m.sequence)
    else (false, seen)
  }

  /** The names in one group's copy of a room; unnamed users do not count. */
  function NamesIn(users: Users, rid: string): set<string> {
    set k | k in users && users[k].body.roomId == rid && users[k].id.idStr != "" :: users[k].id.idStr
  }

  /** The distinct names in a room over all groups. */
  function Participants(cs: Copies, rid: string): set<string> {
    set g, s | g in cs && s in NamesIn(cs[g].house.users, rid) :: s
  }

  datatype Verdict = Nack | WrongPassword | Full | Ack

  function JudgeJoin(cs: Copies, host: Host, rid: string, password: string): Verdict {
    if host.selfRoom != host.room.id || host.selfRoom != rid then Nack
    else if host.room.body.password != "" && host.room.body.password != password then WrongPassword
    else if |Participants(cs, rid)| >= host.room.body.maxPlayers then Full
    else Ack
  }

  function InRoom(u: User, rid: string): User {
    u.(body := u.body.(roomId := rid))
  }

  /** The joining user is put into the room, in the current copy only. */
  function Reserve(c: Copy, sender: UserKey, rid: string): Copy {
    var k := SearchKey(c, sender);
    if k in c.house.users
    then c.(house := c.house.(users := c.house.users[k := InRoom(c.house.users[k], rid)]))
    else c
  }

  function HandleJoin(cs: Copies, host: Host, grp: int, rid: string, password: string, sender: UserKey): Copies {
    if JudgeJoin(cs, host, rid, password).Ack? && grp in cs then cs[grp := Reserve(cs[grp], sender, rid)] else cs
  }

  function HandleOne(gui: Gui, host: Host, t: Tagged): Gui {
    var (dropped, seen) := Filter(gui.seen, t.msg);
    if dropped then gui.(seen := seen)
    else
      var cur := ApplyTo(gui.cur, t);
      var cur' := if t.msg.JoinRequest?
                  then HandleJoin(cur, host, t.grp, t.msg.roomId, t.msg.password, t.msg.sender) else cur;
      Gui(cur', ApplyTo(gui.prev, t), seen)
  }

  function HandleAll(gui: Gui, host: Host, ts: seq<Tagged>): Gui
    decreases |ts|
  {
    if ts == [] then gui else HandleOne(HandleAll(gui, host, ts[..|ts| - 1]), host, ts[|ts| - 1])
  }

  /** A group that was never allowed is an internal error: asking the current copy for it throws. A join
      request gets as far as that only when it would be let in. */
  predicate Throws(gui: Gui, host: Host, t: Tagged) {
    && !Filter(gui.seen, t.msg).0
    && t.grp !in gui.cur
    && (Protocol.ModelMessage(t.msg) || (t.msg.JoinRequest? && JudgeJoin(gui.cur, host, t.msg.roomId, t.msg.password).Ack?))
  }

  /** How many messages of a batch are handled before the first one throws. */
  function Quiet(gui: Gui, host: Host, ts: seq<Tagged>): (n: nat)
    ensures n <= |ts|
    decreases |ts|
  {
    if ts == [] then 0
    else
      var n := |ts| - 1;
      if Quiet(gui, host, ts[..n]) < n || Throws(HandleAll(gui, host, ts[..n]), host, ts[n]) then Quiet(gui, host, ts[..n])
      else |ts|
  }

  /** The message that throws leaves a trace in the filter only. */
  lemma ThrowChangesNothing(gui: Gui, host: Host, t: Tagged)
    requires Throws(gui, host, t) && gui.prev.Keys == gui.cur.Keys
    ensures HandleOne(gui, host, t) == gui.(seen := Filter(gui.seen, t.msg).1)
  {
  }

  /** Up to there nothing throws, and there it does. */
  lemma {:induction false} QuietIsFirst(gui: Gui, host: Host, ts: seq<Tagged>, n: nat)
    requires n <= |ts| && forall i :: 0 <= i < n ==> !Throws(HandleAll(gui, host, ts[..i]), host, ts[i])
    requires n < |ts| ==> Throws(HandleAll(gui, host, ts[..n]), host, ts[n])
    ensures Quiet(gui, host, ts) == n
    decreases |ts|
  {
    hide Throws, HandleAll;
    if ts != [] {
      var front := ts[..|ts| - 1];
      assert forall i :: 0 <= i <= |front| ==> front[..i] == ts[..i];
      if n < |ts| {
        QuietIsFirst(gui, host, front, n);
      } else {
        QuietIsFirst(gui, host, front, n - 1);
      }
    }
  }

  /** The messages of one group, in order. */
  function Only(ts: seq<Tagged>, g: int): seq<Message>
    decreases |ts|
  {
    if ts == [] then []
    else
      var t := ts[|ts| - 1];
      Only(ts[..|ts| - 1], g) + if t.grp == g then [t.msg] else []
  }

  /** The copies differ in nothing but the rooms of users that hold a reservation. */
  ghost predicate SameButRooms(a: Copies, b: Copies) {
    && a.Keys == b.Keys
    && forall g :: g in a ==> SameCopyButRooms(a[g], b[g])
  }

  ghost predicate SameCopyButRooms(a: Copy, b: Copy) {
    && a.index == b.index && a.house.rooms == b.house.rooms && a.house.users.Keys == b.house.users.Keys
    && forall k :: k in a.house.users ==> a.house.users[k] == InRoom(b.house.users[k], a.house.users[k].body.roomId)
  }

  lemma ApplyKeepsSame(a: Copy, b: Copy, m: Message)
    requires SameCopyButRooms(a, b)
    ensures SameCopyButRooms(Apply(a, m), Apply(b, m))
  {
  }

  lemma HandleOneKeepsSame(gui: Gui, host: Host, t: Tagged)
    requires SameButRooms(gui.cur, gui.prev)
    ensures SameButRooms(HandleOne(gui, host, t).cur, HandleOne(gui, host, t).prev)
  {
    if t.grp in gui.cur {
      ApplyKeepsSame(gui.cur[t.grp], gui.prev[t.grp], t.msg);
    }
  }

  /** What the filter sees of a message. */
  function ArrivalOf(m: Message): Option<DupFilter.Arrival> {
    if m.JoinRequest? && m.sequence != 0 then Some(DupFilter.Arrival(m.sender.idStr, m.sequence))
    else if m.Channel? && m.sequence != 0 then Some(DupFilter.Arrival(m.sender.idStr, m.sequence))
    else None
  }

  function Arrivals(ts: seq<Tagged>): seq<DupFilter.Arrival>
    decreases |ts|
  {
    if ts == [] then []
    else
      var a := ArrivalOf(ts[|ts| - 1].msg);
      Arrivals(ts[..|ts| - 1]) + if a.Some? then [a.value] else []
  }

  /** The message loop's filter remembers the arrivals of all groups, in the order handled. */
  lemma {:induction false} SeenIsRun(gui: Gui, host: Host, ts: seq<Tagged>)
    requires gui.seen == map[]
    ensures HandleAll(gui, host, ts).seen == DupFilter.Run(Arrivals(ts))
    decreases |ts|
  {
    hide ApplyTo, HandleJoin, DupFilter.FilterDup;
    if ts != [] {
      var front := ts[..|ts| - 1];
      SeenIsRun(gui, host, front);
      var a := ArrivalOf(ts[|ts| - 1].msg);
      if a.Some? {
        assert (Arrivals(front) + [a.value])[..|Arrivals(front)|] == Arrivals(front);
      } else {
        assert Arrivals(front) + [] == Arrivals(front);
      }
    }
  }

  /** After any run: dropped is a message with a sequence and a named sender whose number is among the
      sender's latest four, and no other. */
  lemma DroppedIff(gui: Gui, host: Host, ts: seq<Tagged>, m: Message)
    requires gui.seen == map[]
    ensures Filter(HandleAll(gui, host, ts).seen, m).0 <==>
            && (m.JoinRequest? || m.Channel?) && m.sequence != 0 && m.sender.idStr != ""
            && m.sequence in DupFilter.Latest(DupFilter.Passed(Arrivals(ts), m.sender.idStr))
  {
    hide HandleAll;
    SeenIsRun(gui, host, ts);
    if (m.JoinRequest? || m.Channel?) && m.sequence != 0 && m.sender.idStr != "" {
      DupFilter.DroppedIffLatest(Arrivals(ts), DupFilter.Arrival(m.sender.idStr, m.sequence));
    }
  }

  /** A message acts once, whichever groups deliver it: as long as all repeats so far were in time, it
      is dropped exactly if it has arrived before and is in time, and then nothing changes at all. */
  lemma ActsOnce(gui: Gui, host: Host, ts: seq<Tagged>, t: Tagged, a: DupFilter.Arrival)
    requires gui.seen == map[] && ArrivalOf(t.msg) == Some(a) && a.sender != ""
    requires DupFilter.AllInTime(Arrivals(ts), a.sender)
    ensures Filter(HandleAll(gui, host, ts).seen, t.msg).0 <==> a in Arrivals(ts) && DupFilter.InTime(Arrivals(ts), a)
    ensures a in Arrivals(ts) && DupFilter.InTime(Arrivals(ts), a) ==> HandleOne(HandleAll(gui, host, ts), host, t) == HandleAll(gui, host, ts)
  {
    hide HandleAll, ApplyTo, HandleJoin;
    SeenIsRun(gui, host, ts);
    DupFilter.LatePassesAgain(Arrivals(ts), a);
  }
}
