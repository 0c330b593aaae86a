/** The user view of one room. It follows what it is told of, so what it shows is described by a set of
    users: those that were in the room when the view last looked at them. */
module RoomView {
  import opened Wrappers
  import opened UserKeys
  import opened Lobby
  import opened Gui
  import opened ViewModel
  import ModelCopy
  import DupFilter
  import Replay

  type Seen = set<(int, Option<Node>)>

  /** Some of the users of all groups. */
  function Part(hs: map<int, Users>, seen: Seen): map<int, Users> {
    map g | g in hs :: map k | k in hs[g] && (g, k) in seen :: hs[g][k]
  }

  function RoomOf(hs: map<int, Users>, rid: string): Seen {
    set g, k | g in hs && k in hs[g] && hs[g][k].body.roomId == rid :: (g, k)
  }

  ghost predicate Within(hs: map<int, Users>, seen: Seen) {
    forall g, k :: (g, k) in seen ==> g in hs && k in hs[g]
  }

  /** The view has looked at user k of group g, which is in the room or not. */
  function LookedAt(seen: Seen, g: int, k: Option<Node>, there: bool): Seen {
    if there then seen + {(g, k)} else seen - {(g, k)}
  }

  /** Its user has got a name and has left the room, and nobody in the room has that name. */
  ghost predicate NamedElsewhere(hs: map<int, Users>, u: User, rid: string, v: View, seen: Seen, g: int) {
    && (g, u.id.node) in seen && g in hs && u.id.node in hs[g] && hs[g][u.id.node].id.idStr == "" && u.id.idStr != ""
    && u.body.roomId != rid && u.id.idStr !in v.named
  }

  lemma PartIsSeparate(hs: map<int, Users>, seen: Seen)
    requires Separate(hs)
    ensures Separate(Part(hs, seen))
  {
  }

  lemma PartOnlyAt(hs: map<int, Users>, hs': map<int, Users>, seen: Seen, seen': Seen, g: int, k: Option<Node>)
    requires OnlyAt(hs, hs', g, k) && forall p :: p != (g, k) ==> (p in seen <==> p in seen')
    ensures OnlyAt(Part(hs, seen), Part(hs', seen'), g, k)
  {
  }

  lemma PartAt(hs: map<int, Users>, seen: Seen, g: int, k: Option<Node>)
    requires g in hs
    ensures g in Part(hs, seen) && (k in Part(hs, seen)[g] <==> k in hs[g] && (g, k) in seen)
    ensures k in Part(hs, seen)[g] ==> Part(hs, seen)[g][k] == hs[g][k]
  {
  }

  /** Nobody else in the group has the name. */
  lemma NameIsNew(hs: map<int, Users>, hs': map<int, Users>, seen: Seen, g: int, id: UserKey)
    requires Separate(hs') && OnlyAt(hs, hs', g, id.node) && id.node in hs'[g] && hs'[g][id.node].id == id && id.idStr != ""
    ensures forall k :: k in Part(hs, seen)[g] && k != id.node ==> Part(hs, seen)[g][k].id.idStr != id.idStr
  {
  }

  /** No other group has the node. */
  lemma NodeIsHere(hs: map<int, Users>, hs': map<int, Users>, seen: Seen, g: int, k: Option<Node>)
    requires Separate(hs') && OnlyAt(hs, hs', g, k) && k in hs'[g]
    ensures k.Some? && forall h :: h in Part(hs, seen) && h != g ==> k !in Part(hs, seen)[h]
  {
  }

  /** Removing somebody that is not shown changes nothing. */
  lemma RemovedIsIdle(hs: map<int, Users>, v: View, g: int, id: UserKey)
    requires Shows(hs, v) && g in hs && id.node !in hs[g] && id.node.Some?
    requires forall h :: h in hs ==> id.node !in hs[h]
    requires forall k :: k in hs[g] && id.idStr != "" ==> hs[g][k].id.idStr != id.idStr
    ensures Removed(v, id, g) == v
  {
    assert !HasEntry(v.unnamed, id.node);
    IndexOfFinds(v.unnamed, id);
    NoEntryNoChange(v.unnamed, id);
    if id.idStr != "" && id.idStr in v.named {
      assert g in v.named[id.idStr] ==> FeedIs(hs, g, v.named[id.idStr][g], id.idStr);
      assert v.named[id.idStr] - {g} == v.named[id.idStr];
    }
  }

  lemma NameStays(hs: map<int, Users>, named: Named, g: int, id: UserKey)
    requires ItemsNamed(hs, named) && id.idStr in named && g in hs
    requires forall k :: k in hs[g] ==> hs[g][k].id.idStr != id.idStr
    ensures named[id.idStr] - {g} == named[id.idStr] != map[] && named[id.idStr := named[id.idStr] - {g}] == named
  {
    assert g in named[id.idStr] ==> FeedIs(hs, g, named[id.idStr][g], id.idStr);
  }

  lemma BareIsLeft(hs: map<int, Users>, hs': map<int, Users>, v: View, g: int, k: Option<Node>)
    requires Shows(hs, v) && Separate(hs) && OnlyAt(hs, hs', g, k)
    requires k in hs[g] && hs[g][k].id.idStr == "" && k !in hs'[g]
    ensures !ItemsUnnamed(hs', v.unnamed)
  {
    assert HasEntry(v.unnamed, k);
    var e :| e in v.unnamed && e.0.node == k;
    assert !IsSingle(hs', e);
  }

  /** The room's user got a name and left in one update while the name is in the room by another group:
      the item of the bare node goes after all. */
  lemma NamedAndGone(hs: map<int, Users>, hs': map<int, Users>, v: View, g: int, id: UserKey)
    requires Shows(hs, v) && Separate(hs) && OnlyAt(hs, hs', g, id.node)
    requires id.node in hs[g] && hs[g][id.node].id.idStr == "" && id.node !in hs'[g] && id.idStr != ""
    requires forall k :: k in hs[g] ==> hs[g][k].id.idStr != id.idStr
    ensures Shows(hs', Removed(v, id, g)) <==> id.idStr in v.named
  {
    hide NamesShown, ItemsNamed, ItemsUnnamed, UnnamedShown, Without;
    if id.idStr in v.named {
      NameStays(hs, v.named, g, id);
      KeepNamed(hs, hs', v.named, g, id.node);
      DropUnnamed(hs, hs', v.unnamed, g, id);
    } else {
      BareIsLeft(hs, hs', v, g, id.node);
    }
  }

  /** Who is not shown and is not to be shown makes no difference. */
  lemma NotShownStays(hs: map<int, Users>, hs': map<int, Users>, v: View, g: int, id: UserKey)
    requires Shows(hs, v) && OnlyAt(hs, hs', g, id.node) && id.node !in hs[g] && id.node !in hs'[g] && id.node.Some?
    requires forall h :: h in hs && h != g ==> id.node !in hs[h]
    requires forall k :: k in hs[g] && id.idStr != "" ==> hs[g][k].id.idStr != id.idStr
    ensures Shows(hs', Removed(v, id, g))
  {
    hide Shows, Removed;
    RemovedIsIdle(hs, v, g, id);
    SameIdsShown(hs, hs', v);
  }

  lemma LookedWithin(hs: map<int, Users>, hs': map<int, Users>, seen: Seen, g: int, k: Option<Node>, there: bool)
    requires OnlyAt(hs, hs', g, k) && Within(hs, seen) && (there ==> k in hs'[g])
    ensures g in hs && hs'.Keys == hs.Keys && Within(hs', LookedAt(seen, g, k, there))
  {
  }

  /** The view looks at a user: afterwards it shows that user if and only if it is in the room, and all
      others as before, with the one exception. */
  lemma LookShows(hs: map<int, Users>, hs': map<int, Users>, rid: string, v: View, seen: Seen, g: int, id: UserKey)
    requires rid != "" && Separate(hs) && Separate(hs') && Moved(hs, hs', g, id) && Within(hs, seen)
    requires Shows(Part(hs, seen), v)
    ensures var u := hs'[g][id.node];
            var seen' := LookedAt(seen, g, id.node, u.body.roomId == rid);
            Within(hs', seen') && (Shows(Part(hs', seen'), Refreshed(v, rid, u, g)) <==> !NamedElsewhere(hs, u, rid, v, seen, g))
  {
    var there := hs'[g][id.node].body.roomId == rid;
    hide Shows, Updated, Removed, Separate, Part, OnlyAt;
    var seen' := LookedAt(seen, g, id.node, there);
    LookedWithin(hs, hs', seen, g, id.node, there);
    PartIsSeparate(hs, seen);
    PartIsSeparate(hs', seen');
    PartOnlyAt(hs, hs', seen, seen', g, id.node);
    PartAt(hs, seen, g, id.node);
    PartAt(hs', seen', g, id.node);
    NodeIsHere(hs, hs', seen, g, id.node);
    if id.idStr != "" {
      NameIsNew(hs, hs', seen, g, id);
    }
    var part, part' := Part(hs, seen), Part(hs', seen');
    if there {
      UpdateShown(part, part', v, g, id);
    } else if (g, id.node) !in seen {
      NotShownStays(part, part', v, g, id);
    } else if hs[g][id.node].id == id {
      DepartureShown(part, part', v, g, id);
    } else {
      NamedAndGone(part, part', v, g, id);
    }
  }

  lemma DepartureLeaves(hs: map<int, Users>, hs': map<int, Users>, v: View, seen: Seen, g: int, id: UserKey)
    requires Separate(hs) && Departed(hs, hs', g, id) && Within(hs, seen) && Shows(Part(hs, seen), v)
    ensures var seen' := seen - {(g, id.node)};
            Within(hs', seen') && Shows(Part(hs', seen'), Removed(v, id, g))
  {
    hide Shows, Removed, Separate, Part, OnlyAt;
    var seen' := seen - {(g, id.node)};
    LookedWithin(hs, hs', seen, g, id.node, false);
    PartIsSeparate(hs, seen);
    PartOnlyAt(hs, hs', seen, seen', g, id.node);
    PartAt(hs, seen, g, id.node);
    PartAt(hs', seen', g, id.node);
    Itself(hs, g, id.node);
    NodeIsHere(hs, hs, seen, g, id.node);
    if id.idStr != "" {
      NameIsNew(hs, hs, seen, g, id);
    }
    var part, part' := Part(hs, seen), Part(hs', seen');
    if (g, id.node) in seen {
      DepartureShown(part, part', v, g, id);
    } else {
      NotShownStays(part, part', v, g, id);
    }
  }

  lemma Itself(hs: map<int, Users>, g: int, k: Option<Node>)
    requires g in hs
    ensures OnlyAt(hs, hs, g, k)
  {
  }

  /** The users that a room's list names, in any group. */
  function Listed(g: int, ids: seq<UserKey>): Seen {
    set id | id in ids :: (g, id.node)
  }

  /** A change of topic in some room: the users of that room are looked at, one after the other. Nothing
      is left behind, and of its own room the view then shows everybody. */
  lemma {:induction false} RefreshShows(cs: Copies, rid: string, v: View, seen: Seen, g: int, room: string, ids: seq<UserKey>)
    requires rid != "" && Separate(UsersOf(cs)) && g in cs && Within(UsersOf(cs), seen) && Shows(Part(UsersOf(cs), seen), v)
    requires forall id :: id in ids ==> id.node in cs[g].house.users && cs[g].house.users[id.node].id == id
                                        && cs[g].house.users[id.node].body.roomId == room
    ensures var seen' := if room == rid then seen + Listed(g, ids) else seen - Listed(g, ids);
            Within(UsersOf(cs), seen') && Shows(Part(UsersOf(cs), seen'), RefreshedAll(v, rid, cs[g], g, ids))
    decreases |ids|
  {
    hide Shows, Refreshed, Separate;
    if ids == [] {
      assert seen + Listed(g, ids) == seen - Listed(g, ids) == seen;
    } else {
      var front, id := ids[..|ids| - 1], ids[|ids| - 1];
      assert id in ids;
      RefreshShows(cs, rid, v, seen, g, room, front);
      var seen1 := if room == rid then seen + Listed(g, front) else seen - Listed(g, front);
      var seen' := if room == rid then seen + Listed(g, ids) else seen - Listed(g, ids);
      assert ids == front + [id];
      assert Listed(g, ids) == Listed(g, front) + {(g, id.node)};
      assert seen' == LookedAt(seen1, g, id.node, room == rid);
      LookAgain(cs, rid, RefreshedAll(v, rid, cs[g], g, front), seen1, g, id);
    }
  }

  lemma LookAgain(cs: Copies, rid: string, v: View, seen: Seen, g: int, id: UserKey)
    requires rid != "" && Separate(UsersOf(cs)) && Within(UsersOf(cs), seen) && Shows(Part(UsersOf(cs), seen), v)
    requires g in cs && id.node in cs[g].house.users && cs[g].house.users[id.node].id == id
    ensures var u := cs[g].house.users[id.node];
            var seen' := LookedAt(seen, g, id.node, u.body.roomId == rid);
            && Within(UsersOf(cs), seen') && Shows(Part(UsersOf(cs), seen'), Refreshed(v, rid, u, g))
            && ModelCopy.Find(cs[g], id) == Some(u)
  {
    hide Shows, Refreshed;
    assert UsersOf(cs)[g][id.node].id == id && id.node.Some?;
    LookShows(UsersOf(cs), UsersOf(cs), rid, v, seen, g, id);
  }

  /** Whom the view has seen in the room after one more message. */
  function SeenAfter(gui: Gui, rid: string, seen: Seen, t: Tagged): Seen {
    var cur := ApplyTo(gui.cur, t);
    if Filter(gui.seen, t.msg).0 || t.grp !in cur then seen
    else match t.msg
      case UserMessage(u) => LookedAt(seen, t.grp, u.id.node, (t.grp, u.id.node) in RoomOf(UsersOf(cur), rid))
      case UserLeft(u) => seen - {(t.grp, u.id.node)}
      case RoomMessage(r) =>
        if !TopicChanged(cur, gui.prev, t) then seen
        else if r.id == rid then seen + OfGroup(RoomOf(UsersOf(cur), r.id), t.grp)
        else seen - OfGroup(RoomOf(UsersOf(cur), r.id), t.grp)
      case _ => seen
  }

  function OfGroup(seen: Seen, g: int): Seen {
    set p | p in seen && p.0 == g
  }

  function NotifiedRoom(gui: Gui, rid: string, v: View, t: Tagged, ids: seq<UserKey>): View {
    if Filter(gui.seen, t.msg).0 then v else Handled(v, rid, ApplyTo(gui.cur, t), gui.prev, t, ids)
  }

  /** An item without a name is left behind: its user has got a name and has left the room in one update,
      and nobody in the room has that name in another group. */
  ghost predicate LeavesItem(cs: Copies, rid: string, v: View, seen: Seen, t: Tagged) {
    t.msg.UserMessage? && NamedElsewhere(UsersOf(cs), t.msg.user, rid, v, seen, t.grp)
  }

  lemma SameWhoeverLooks(cs: Copies, rid: string, v: View, seen: Seen, g: int, u: User)
    requires g in cs && WellKeyed(cs[g].house) && Replay.InOrder(cs[g].house, UserMessage(u))
    ensures var found := ModelCopy.Find(ModelCopy.UserUpdated(cs[g], u), u.id);
            && found.Some? && found.value.id.node == u.id.node
            && (NamedElsewhere(UsersOf(cs), u, rid, v, seen, g) <==> NamedElsewhere(UsersOf(cs), found.value, rid, v, seen, g))
  {
  }

  lemma OnlyTheRestIsDropped(seen: DupFilter.Seen, m: Message)
    requires Filter(seen, m).0
    ensures m.JoinRequest? || m.Channel?
  {
  }

  lemma NotifiedRoomShows(gui: Gui, rid: string, v: View, seen: Seen, t: Tagged, ids: seq<UserKey>)
    requires rid != "" && Expected(gui, t) && ListsRoom(ApplyTo(gui.cur, t), gui.prev, t, ids)
    requires Separate(UsersOf(gui.cur)) && Separate(UsersOf(ApplyTo(gui.cur, t)))
    requires Within(UsersOf(gui.cur), seen) && Shows(Part(UsersOf(gui.cur), seen), v)
    ensures var cur, seen' := ApplyTo(gui.cur, t), SeenAfter(gui, rid, seen, t);
            && Within(UsersOf(cur), seen')
            && (Shows(Part(UsersOf(cur), seen'), NotifiedRoom(gui, rid, v, t, ids)) <==> !LeavesItem(gui.cur, rid, v, seen, t))
  {
    hide Shows, Separate, Moved, Departed, Refreshed, Removed, Filter, RefreshedAll, TopicChanged, NamedElsewhere, Part;
    var cur := ApplyTo(gui.cur, t);
    if Filter(gui.seen, t.msg).0 {
      OnlyTheRestIsDropped(gui.seen, t.msg);
      OthersMoveNobody(gui.cur, t);
    } else {
      match t.msg
      case UserMessage(u) =>
        UserMessageMoves(gui.cur, t.grp, u);
        SameWhoeverLooks(gui.cur, rid, v, seen, t.grp, u);
        LookShows(UsersOf(gui.cur), UsersOf(cur), rid, v, seen, t.grp, ModelCopy.Find(cur[t.grp], u.id).value.id);
      case UserLeft(u) =>
        UserLeftMoves(gui.cur, t.grp, u);
        DepartureLeaves(UsersOf(gui.cur), UsersOf(cur), v, seen, t.grp, u.id);
      case RoomMessage(r) =>
        OthersMoveNobody(gui.cur, t);
        if TopicChanged(cur, gui.prev, t) {
          RefreshShows(cur, rid, v, seen, t.grp, r.id, ids);
          assert Listed(t.grp, ids) == OfGroup(RoomOf(UsersOf(cur), r.id), t.grp);
        }
      case _ =>
        OthersMoveNobody(gui.cur, t);
    }
  }

  /** The view of a room after a batch of messages, and whom it has seen there. */
  function RunRoom(gui: Gui, rid: string, v: View, seen: Seen, host: Host, ts: seq<Tagged>, lists: seq<seq<UserKey>>): (View, Seen)
    requires |lists| == |ts|
    decreases |ts|
  {
    if ts == [] then (v, seen)
    else
      var n := |ts| - 1;
      var (v1, seen1) := RunRoom(gui, rid, v, seen, host, ts[..n], lists[..n]);
      var gui1 := HandleAll(gui, host, ts[..n]);
      (NotifiedRoom(gui1, rid, v1, ts[n], lists[n]), SeenAfter(gui1, rid, seen1, ts[n]))
  }

  ghost predicate ShowsSeen(gui: Gui, now: (View, Seen)) {
    Within(UsersOf(gui.cur), now.1) && Shows(Part(UsersOf(gui.cur), now.1), now.0)
  }

  ghost predicate ShownAt(gui: Gui, rid: string, v: View, seen: Seen, host: Host, ts: seq<Tagged>, lists: seq<seq<UserKey>>, i: nat)
    requires |lists| == |ts| && i <= |ts|
  {
    ShowsSeen(HandleAll(gui, host, ts[..i]), RunRoom(gui, rid, v, seen, host, ts[..i], lists[..i]))
  }

  ghost predicate LeftAt(gui: Gui, rid: string, v: View, seen: Seen, host: Host, ts: seq<Tagged>, lists: seq<seq<UserKey>>, i: nat)
    requires |lists| == |ts| && i < |ts|
  {
    var now := RunRoom(gui, rid, v, seen, host, ts[..i], lists[..i]);
    LeavesItem(HandleAll(gui, host, ts[..i]).cur, rid, now.0, now.1, ts[i])
  }

  ghost predicate ShownThroughout(gui: Gui, rid: string, v: View, seen: Seen, host: Host, ts: seq<Tagged>, lists: seq<seq<UserKey>>)
    requires |lists| == |ts|
  {
    forall i: nat :: i <= |ts| ==> ShownAt(gui, rid, v, seen, host, ts, lists, i)
  }

  ghost predicate NothingLeft(gui: Gui, rid: string, v: View, seen: Seen, host: Host, ts: seq<Tagged>, lists: seq<seq<UserKey>>)
    requires |lists| == |ts|
  {
    forall i: nat :: i < |ts| ==> !LeftAt(gui, rid, v, seen, host, ts, lists, i)
  }

  lemma PartSameIds(hs: map<int, Users>, hs': map<int, Users>, seen: Seen, v: View)
    requires SameIds(hs, hs') && Within(hs, seen) && Shows(Part(hs, seen), v)
    ensures Within(hs', seen) && Shows(Part(hs', seen), v)
  {
    hide Shows;
    SameIdsShown(Part(hs, seen), Part(hs', seen), v);
  }

  lemma SameIdsBack(hs: map<int, Users>, hs': map<int, Users>)
    requires SameIds(hs, hs')
    ensures SameIds(hs', hs)
  {
  }

  lemma SeparateByIds(hs: map<int, Users>, hs': map<int, Users>)
    requires SameIds(hs, hs') && Separate(hs')
    ensures Separate(hs)
  {
  }

  /** Reservations change rooms only, and the view is not told of them. */
  lemma HandleKeepsIds(gui: Gui, host: Host, t: Tagged)
    ensures SameIds(UsersOf(ApplyTo(gui.cur, t)), UsersOf(HandleOne(gui, host, t).cur))
    ensures Separate(UsersOf(HandleOne(gui, host, t).cur)) ==> Separate(UsersOf(ApplyTo(gui.cur, t)))
  {
    hide HandleJoin, ApplyTo, UsersOf, Separate;
    if t.msg.JoinRequest? {
      JoinKeepsIds(ApplyTo(gui.cur, t), host, t.grp, t.msg.roomId, t.msg.password, t.msg.sender);
    }
    if Filter(gui.seen, t.msg).0 {
      OnlyTheRestIsDropped(gui.seen, t.msg);
      OthersMoveNobody(gui.cur, t);
    }
    if Separate(UsersOf(HandleOne(gui, host, t).cur)) {
      SeparateByIds(UsersOf(ApplyTo(gui.cur, t)), UsersOf(HandleOne(gui, host, t).cur));
    }
  }

  lemma HandleShows(gui: Gui, rid: string, v: View, seen: Seen, host: Host, t: Tagged, ids: seq<UserKey>)
    requires rid != "" && Expected(gui, t) && ListsRoom(ApplyTo(gui.cur, t), gui.prev, t, ids)
    requires Separate(UsersOf(gui.cur)) && Separate(UsersOf(HandleOne(gui, host, t).cur))
    requires ShowsSeen(gui, (v, seen))
    ensures ShowsSeen(HandleOne(gui, host, t), (NotifiedRoom(gui, rid, v, t, ids), SeenAfter(gui, rid, seen, t)))
            <==> !LeavesItem(gui.cur, rid, v, seen, t)
  {
    hide Shows, Separate, HandleOne, SeenAfter, NotifiedRoom, LeavesItem, ApplyTo, Within, Part, SameIds, Expected, ListsRoom;
    HandleKeepsIds(gui, host, t);
    NotifiedRoomShows(gui, rid, v, seen, t, ids);
    var v', seen' := NotifiedRoom(gui, rid, v, t, ids), SeenAfter(gui, rid, seen, t);
    var hs, hs' := UsersOf(ApplyTo(gui.cur, t)), UsersOf(HandleOne(gui, host, t).cur);
    SameIdsBack(hs, hs');
    if Shows(Part(hs, seen'), v') {
      PartSameIds(hs, hs', seen', v');
    }
    if ShowsSeen(HandleOne(gui, host, t), (v', seen')) {
      PartSameIds(hs', hs, seen', v');
    }
  }

  /** Through any run of messages the view of a room shows whom it has seen there, one item per name and
      one per unnamed user, if and only if no message leaves an item behind. */
  lemma {:induction false} RoomViewFollows(gui: Gui, rid: string, v: View, seen: Seen, host: Host, ts: seq<Tagged>, lists: seq<seq<UserKey>>)
    requires rid != "" && ShowsSeen(gui, (v, seen))
    requires AllExpected(gui, host, ts) && AllListed(gui, host, ts, lists) && AlwaysSeparate(gui, host, ts)
    ensures |lists| == |ts|
    ensures ShownThroughout(gui, rid, v, seen, host, ts, lists) <==> NothingLeft(gui, rid, v, seen, host, ts, lists)
    decreases |ts|
  {
    AsMany(gui, host, ts, lists);
    if ts == [] {
      assert ts[..0] == ts && lists[..0] == lists;
    } else {
      hide AllExpected, AllListed, AlwaysSeparate, Expected, ListsRoom, Separate, ShowsSeen, ShownAt, LeftAt, HandleOne, HandleAll, ApplyTo, ShownThroughout, NothingLeft;
      var n := |ts| - 1;
      AllButLast(gui, host, ts, lists);
      RoomViewFollows(gui, rid, v, seen, host, ts[..n], lists[..n]);
      ShownOneMore(gui, rid, v, seen, host, ts, lists);
      if ShownAt(gui, rid, v, seen, host, ts, lists, n) {
        NextShown(gui, rid, v, seen, host, ts, lists);
      }
    }
  }

  lemma NextShown(gui: Gui, rid: string, v: View, seen: Seen, host: Host, ts: seq<Tagged>, lists: seq<seq<UserKey>>)
    requires rid != "" && |lists| == |ts| && ts != [] && ShownAt(gui, rid, v, seen, host, ts, lists, |ts| - 1)
    requires var n := |ts| - 1;
             var gui1 := HandleAll(gui, host, ts[..n]);
             && Expected(gui1, ts[n]) && ListsRoom(ApplyTo(gui1.cur, ts[n]), gui1.prev, ts[n], lists[n])
             && Separate(UsersOf(gui1.cur)) && Separate(UsersOf(HandleAll(gui, host, ts).cur))
    ensures ShownAt(gui, rid, v, seen, host, ts, lists, |ts|) <==> !LeftAt(gui, rid, v, seen, host, ts, lists, |ts| - 1)
  {
    hide Expected, ListsRoom, Separate, ShowsSeen, LeavesItem, NotifiedRoom, SeenAfter, HandleOne, ApplyTo;
    var n := |ts| - 1;
    assert ts[..|ts|] == ts && lists[..|ts|] == lists;
    var now := RunRoom(gui, rid, v, seen, host, ts[..n], lists[..n]);
    HandleShows(HandleAll(gui, host, ts[..n]), rid, now.0, now.1, host, ts[n], lists[n]);
  }

  lemma ShownOneMore(gui: Gui, rid: string, v: View, seen: Seen, host: Host, ts: seq<Tagged>, lists: seq<seq<UserKey>>)
    requires |lists| == |ts| && ts != []
    ensures var n := |ts| - 1;
            && (ShownThroughout(gui, rid, v, seen, host, ts[..n], lists[..n]) ==> ShownAt(gui, rid, v, seen, host, ts, lists, n))
            && (ShownThroughout(gui, rid, v, seen, host, ts, lists) <==>
                  ShownThroughout(gui, rid, v, seen, host, ts[..n], lists[..n]) && ShownAt(gui, rid, v, seen, host, ts, lists, n + 1))
            && (NothingLeft(gui, rid, v, seen, host, ts, lists) <==>
                  NothingLeft(gui, rid, v, seen, host, ts[..n], lists[..n]) && !LeftAt(gui, rid, v, seen, host, ts, lists, n))
  {
    hide ShownAt, LeftAt;
    var n := |ts| - 1;
    forall i: nat | i <= n
      ensures ShownAt(gui, rid, v, seen, host, ts[..n], lists[..n], i) <==> ShownAt(gui, rid, v, seen, host, ts, lists, i)
      ensures i < n ==> (LeftAt(gui, rid, v, seen, host, ts[..n], lists[..n], i) <==> LeftAt(gui, rid, v, seen, host, ts, lists, i))
    {
      SameBefore(gui, rid, v, seen, host, ts, lists, n, i);
    }
  }

  lemma SameBefore(gui: Gui, rid: string, v: View, seen: Seen, host: Host, ts: seq<Tagged>, lists: seq<seq<UserKey>>, n: nat, i: nat)
    requires |lists| == |ts| && i <= n <= |ts|
    ensures ShownAt(gui, rid, v, seen, host, ts[..n], lists[..n], i) <==> ShownAt(gui, rid, v, seen, host, ts, lists, i)
    ensures i < n ==> (LeftAt(gui, rid, v, seen, host, ts[..n], lists[..n], i) <==> LeftAt(gui, rid, v, seen, host, ts, lists, i))
  {
    hide HandleAll, RunRoom, ShowsSeen, LeavesItem;
    assert ts[..n][..i] == ts[..i] && lists[..n][..i] == lists[..i];
  }

  /** Those with a reservation that the view has not looked at since. */
  function WaitingAfter(gui: Gui, rid: string, waiting: Seen, host: Host, t: Tagged): Seen {
    var cur := ApplyTo(gui.cur, t);
    if Filter(gui.seen, t.msg).0 || t.grp !in cur then waiting
    else match t.msg
      case UserMessage(u) => waiting - {(t.grp, u.id.node)}
      case UserLeft(u) => waiting - {(t.grp, u.id.node)}
      case RoomMessage(r) => if TopicChanged(cur, gui.prev, t) && r.id == rid then waiting - OfGroup(waiting, t.grp) else waiting
      case JoinRequest(roomId, password, sender, _) =>
        var k := ModelCopy.SearchKey(cur[t.grp], sender);
        if JudgeJoin(cur, host, roomId, password).Ack? && roomId == rid && k in cur[t.grp].house.users && (t.grp, k) !in RoomOf(UsersOf(cur), rid)
        then waiting + {(t.grp, k)} else waiting
      case _ => waiting
  }

  lemma UpdateInRoom(cs: Copies, rid: string, g: int, u: User)
    requires g in cs && u.id.node.Some?
    ensures var hs, hs' := UsersOf(cs), UsersOf(cs[g := ModelCopy.UserUpdated(cs[g], u)]);
            RoomOf(hs', rid) == LookedAt(RoomOf(hs, rid), g, u.id.node, (g, u.id.node) in RoomOf(hs', rid))
  {
    var hs, hs' := UsersOf(cs), UsersOf(cs[g := ModelCopy.UserUpdated(cs[g], u)]);
    assert forall h, k :: (h, k) != (g, u.id.node) ==> ((h, k) in RoomOf(hs', rid) <==> (h, k) in RoomOf(hs, rid));
  }

  lemma LeftTheRoom(cs: Copies, rid: string, g: int, u: User)
    requires g in cs
    ensures RoomOf(UsersOf(cs[g := ModelCopy.UserErased(cs[g], u.id)]), rid) == RoomOf(UsersOf(cs), rid) - {(g, u.id.node)}
  {
  }

  lemma ReservedInRoom(cs: Copies, rid: string, g: int, sender: UserKey)
    requires g in cs
    ensures var k := ModelCopy.SearchKey(cs[g], sender);
            RoomOf(UsersOf(cs[g := Reserve(cs[g], sender, rid)]), rid) ==
            RoomOf(UsersOf(cs), rid) + if k in cs[g].house.users then {(g, k)} else {}
  {
    hide ModelCopy.SearchKey;
    var hs, hs', k := UsersOf(cs), UsersOf(cs[g := Reserve(cs[g], sender, rid)]), ModelCopy.SearchKey(cs[g], sender);
    assert forall h, j :: (h, j) != (g, k) ==> ((h, j) in RoomOf(hs', rid) <==> (h, j) in RoomOf(hs, rid));
  }

  /** The program hosts this room or none. */
  predicate HostsNoOther(host: Host, rid: string) {
    host.room.id == rid || host.selfRoom != host.room.id
  }

  lemma JoinInRoom(cs: Copies, rid: string, host: Host, g: int, roomId: string, password: string, sender: UserKey)
    requires g in cs && HostsNoOther(host, rid)
    ensures var k := ModelCopy.SearchKey(cs[g], sender);
            RoomOf(UsersOf(HandleJoin(cs, host, g, roomId, password, sender)), rid) ==
            RoomOf(UsersOf(cs), rid) + if JudgeJoin(cs, host, roomId, password).Ack? && k in cs[g].house.users then {(g, k)} else {}
  {
    hide RoomOf, Participants, ModelCopy.SearchKey, Reserve;
    if JudgeJoin(cs, host, roomId, password).Ack? {
      ReservedInRoom(cs, rid, g, sender);
    }
  }

  /** In the room are exactly those that the view has seen there and those that wait. */
  lemma SeenOrWaiting(gui: Gui, rid: string, seen: Seen, waiting: Seen, host: Host, t: Tagged)
    requires Expected(gui, t) && HostsNoOther(host, rid)
    requires RoomOf(UsersOf(gui.cur), rid) == seen + waiting && seen !! waiting
    ensures var seen', waiting' := SeenAfter(gui, rid, seen, t), WaitingAfter(gui, rid, waiting, host, t);
            RoomOf(UsersOf(HandleOne(gui, host, t).cur), rid) == seen' + waiting' && seen' !! waiting'
  {
    hide Filter, TopicChanged, JudgeJoin, HandleJoin, RoomOf, UsersOf, ModelCopy.SearchKey;
    var cur := ApplyTo(gui.cur, t);
    if Filter(gui.seen, t.msg).0 {
      DroppedChangesNoUsers(gui, host, t);
    } else {
      match t.msg
      case UserMessage(u) => UpdateInRoom(gui.cur, rid, t.grp, u);
      case UserLeft(u) => LeftTheRoom(gui.cur, rid, t.grp, u);
      case RoomMessage(r) =>
        OthersMoveNobody(gui.cur, t);
        if r.id != rid {
          OneRoomEach(UsersOf(cur), rid, r.id);
        }
      case JoinRequest(roomId, password, sender, _) =>
        OthersMoveNobody(gui.cur, t);
        JoinInRoom(cur, rid, host, t.grp, roomId, password, sender);
        if JudgeJoin(cur, host, roomId, password).Ack? {
          AckIsForHosted(cur, host, roomId, password);
        }
      case _ => OthersMoveNobody(gui.cur, t);
    }
  }

  lemma AckIsForHosted(cs: Copies, host: Host, roomId: string, password: string)
    requires JudgeJoin(cs, host, roomId, password).Ack?
    ensures roomId == host.room.id == host.selfRoom
  {
  }

  lemma OneRoomEach(hs: map<int, Users>, rid: string, room: string)
    requires room != rid
    ensures RoomOf(hs, rid) !! RoomOf(hs, room)
  {
  }

  /** Nobody waits any longer once the room is announced with a topic that the previous copy does not have;
      announced as it was, the room makes no difference. */
  lemma NewTopicCatchesUp(gui: Gui, rid: string, seen: Seen, waiting: Seen, host: Host, t: Tagged)
    requires Expected(gui, t) && t.msg.RoomMessage? && t.msg.room.id == rid && t.grp in gui.prev
    requires RoomOf(UsersOf(gui.cur), rid) == seen + waiting
    ensures var seen', waiting' := SeenAfter(gui, rid, seen, t), WaitingAfter(gui, rid, waiting, host, t);
            var rooms := gui.prev[t.grp].house.rooms;
            if rid in rooms && rooms[rid].body.topic == t.msg.room.body.topic then seen' == seen && waiting' == waiting
            else OfGroup(waiting', t.grp) == {} && OfGroup(seen', t.grp) == OfGroup(RoomOf(UsersOf(gui.cur), rid), t.grp)
  {
    hide RoomOf, UsersOf;
    OthersMoveNobody(gui.cur, t);
  }

  function RunWaiting(gui: Gui, rid: string, host: Host, ts: seq<Tagged>): Seen
    decreases |ts|
  {
    if ts == [] then {}
    else
      var n := |ts| - 1;
      WaitingAfter(HandleAll(gui, host, ts[..n]), rid, RunWaiting(gui, rid, host, ts[..n]), host, ts[n])
  }

  lemma {:induction false} SeenOverRuns(gui: Gui, rid: string, v: View, host: Host, ts: seq<Tagged>, lists: seq<seq<UserKey>>)
    requires HostsNoOther(host, rid) && AllExpected(gui, host, ts) && |lists| == |ts|
    ensures var seen', waiting' := RunRoom(gui, rid, v, RoomOf(UsersOf(gui.cur), rid), host, ts, lists).1, RunWaiting(gui, rid, host, ts);
            RoomOf(UsersOf(HandleAll(gui, host, ts).cur), rid) == seen' + waiting' && seen' !! waiting'
    decreases |ts|
  {
    if ts != [] {
      hide RoomOf, UsersOf, HandleOne, HandleAll, SeenAfter, WaitingAfter, NotifiedRoom, Expected, AllExpected, HostsNoOther;
      var n := |ts| - 1;
      ExpectedOneMore(gui, host, ts);
      SeenOverRuns(gui, rid, v, host, ts[..n], lists[..n]);
      var seen1 := RunRoom(gui, rid, v, RoomOf(UsersOf(gui.cur), rid), host, ts[..n], lists[..n]).1;
      SeenOrWaiting(HandleAll(gui, host, ts[..n]), rid, seen1, RunWaiting(gui, rid, host, ts[..n]), host, ts[n]);
    }
  }

  lemma ExpectedOneMore(gui: Gui, host: Host, ts: seq<Tagged>)
    requires ts != [] && AllExpected(gui, host, ts)
    ensures var n := |ts| - 1;
            && AllExpected(gui, host, ts[..n]) && Expected(HandleAll(gui, host, ts[..n]), ts[n])
            && HandleAll(gui, host, ts) == HandleOne(HandleAll(gui, host, ts[..n]), host, ts[n])
  {
    hide HandleOne, Expected;
    var n := |ts| - 1;
    assert forall i :: 0 <= i <= n ==> ts[..n][..i] == ts[..i];
  }

  /** A view of a room, opened while it showed the room: through any run in which no item is left behind
      it shows exactly the users that are in the room, but for those whose place is only reserved. */
  lemma RoomIsShown(gui: Gui, rid: string, v: View, host: Host, ts: seq<Tagged>, lists: seq<seq<UserKey>>)
    requires rid != "" && HostsNoOther(host, rid) && Shows(Part(UsersOf(gui.cur), RoomOf(UsersOf(gui.cur), rid)), v)
    requires AllExpected(gui, host, ts) && AllListed(gui, host, ts, lists) && AlwaysSeparate(gui, host, ts)
    ensures |lists| == |ts|
    ensures NothingLeft(gui, rid, v, RoomOf(UsersOf(gui.cur), rid), host, ts, lists) ==>
              var hs' := UsersOf(HandleAll(gui, host, ts).cur);
              Shows(Part(hs', RoomOf(hs', rid) - RunWaiting(gui, rid, host, ts)), RunRoom(gui, rid, v, RoomOf(UsersOf(gui.cur), rid), host, ts, lists).0)
  {
    hide AllExpected, AllListed, AlwaysSeparate, Shows, Part, RunRoom, RunWaiting, HandleAll, NothingLeft, HostsNoOther, RoomOf, UsersOf, Within;
    var seen := RoomOf(UsersOf(gui.cur), rid);
    RoomIsWithin(UsersOf(gui.cur), rid);
    RoomViewFollows(gui, rid, v, seen, host, ts, lists);
    SeenOverRuns(gui, rid, v, host, ts, lists);
    assert ts[..|ts|] == ts && lists[..|ts|] == lists;
    assert NothingLeft(gui, rid, v, seen, host, ts, lists) ==> ShownAt(gui, rid, v, seen, host, ts, lists, |ts|);
    var hs', waiting', now := UsersOf(HandleAll(gui, host, ts).cur), RunWaiting(gui, rid, host, ts), RunRoom(gui, rid, v, seen, host, ts, lists);
    assert RoomOf(hs', rid) - waiting' == now.1;
  }

  lemma RoomIsWithin(hs: map<int, Users>, rid: string)
    ensures Within(hs, RoomOf(hs, rid))
  {
  }

  /** For instance a user without a name that waits for the room: it gets its name in another room, and
      its item stays in the view of a room that nobody is in. */
  lemma ItemIsLeft(n: Node, waits: User, u: User)
    requires waits.id == UserKey(Some(n), "") && waits.body.roomId == "r"
    requires u.id == UserKey(Some(n), "1:ann:0") && u.body.roomId == "s"
    ensures var v := Refreshed(EMPTY_VIEW, "r", waits, 0);
            && Refreshed(v, "r", u, 0) == v && |v.unnamed| == 1
            && RoomOf(map[0 := map[Some(n) := u]], "r") == {}
  {
    var v := Refreshed(EMPTY_VIEW, "r", waits, 0);
    assert v.unnamed == [(waits.id, map[0 := waits.id])];
  }

  /** Opening the view: the users of the room are looked at, group by group. */
  function Opened(cs: Copies, rid: string, v: View, groups: seq<int>, lists: seq<seq<UserKey>>): View
    requires |lists| == |groups| && forall i :: 0 <= i < |groups| ==> groups[i] in cs
    decreases |groups|
  {
    if groups == [] then v
    else
      var n := |groups| - 1;
      RefreshedAll(Opened(cs, rid, v, groups[..n], lists[..n]), rid, cs[groups[n]], groups[n], lists[n])
  }

  ghost predicate ListsGroup(cs: Copies, rid: string, g: int, ids: seq<UserKey>)
    requires g in cs
  {
    var users := cs[g].house.users;
    forall id :: id in ids <==> id.node in users && users[id.node].body.roomId == rid && users[id.node].id == id
  }

  function OfGroups(seen: Seen, groups: seq<int>): Seen {
    set p | p in seen && p.0 in groups
  }

  /** From then on it shows the room as it is. */
  lemma {:induction false} OpenedShows(cs: Copies, rid: string, groups: seq<int>, lists: seq<seq<UserKey>>)
    requires rid != "" && Separate(UsersOf(cs)) && |lists| == |groups| && forall i :: 0 <= i < |groups| ==> groups[i] in cs
    requires forall i :: 0 <= i < |groups| ==> ListsGroup(cs, rid, groups[i], lists[i])
    ensures var there := OfGroups(RoomOf(UsersOf(cs), rid), groups);
            Within(UsersOf(cs), there) && Shows(Part(UsersOf(cs), there), Opened(cs, rid, EMPTY_VIEW, groups, lists))
    decreases |groups|
  {
    if groups == [] {
      assert OfGroups(RoomOf(UsersOf(cs), rid), groups) == {};
    } else {
      hide Shows, RefreshedAll, Separate, Part, UsersOf, RoomOf, OfGroups, OfGroup, Within, Listed;
      var n := |groups| - 1;
      OpenedShows(cs, rid, groups[..n], lists[..n]);
      ListsAll(cs, rid, groups[n], lists[n]);
      OneGroupMore(RoomOf(UsersOf(cs), rid), groups);
      RefreshShows(cs, rid, Opened(cs, rid, EMPTY_VIEW, groups[..n], lists[..n]), OfGroups(RoomOf(UsersOf(cs), rid), groups[..n]), groups[n], rid, lists[n]);
    }
  }

  lemma OneGroupMore(seen: Seen, groups: seq<int>)
    requires groups != []
    ensures OfGroups(seen, groups) == OfGroups(seen, groups[..|groups| - 1]) + OfGroup(seen, groups[|groups| - 1])
  {
    assert groups == groups[..|groups| - 1] + [groups[|groups| - 1]];
  }

  lemma ListsAll(cs: Copies, rid: string, g: int, ids: seq<UserKey>)
    requires Separate(UsersOf(cs)) && g in cs && ListsGroup(cs, rid, g, ids)
    ensures Listed(g, ids) == OfGroup(RoomOf(UsersOf(cs), rid), g)
  {
    var hs := UsersOf(cs);
    forall k | (g, k) in RoomOf(hs, rid)
      ensures (g, k) in Listed(g, ids)
    {
      OwnNode(hs, g, k);
      assert hs[g][k].id in ids;
    }
  }

  lemma OwnNode(hs: map<int, Users>, g: int, k: Option<Node>)
    requires Separate(hs) && g in hs && k in hs[g]
    ensures k.Some? && hs[g][k].id.node == k
  {
  }
}
