/** From the network to what is on the screen: the system of LobbySystem together with the view that
    lists its users. */
module WholeLobby {
  import opened Wrappers
  import opened UserKeys
  import opened Lobby
  import opened Gui
  import opened LobbySystem
  import opened ViewModel
  import opened Lookahead
  import Protocol
  import Replay
  import ModelCopy

  /** The view hears of a message when the current copy has taken it in; nothing else concerns it. `ids`
      is the order in which the house lists the users of a room, if it is asked. */
  function NextView(s: System, v: View, a: Action, ids: seq<UserKey>): View {
    if a.HandleNext? && s.batch != [] then Notified(s.gui, v, s.batch[0], ids) else v
  }

  function RunBoth(s: System, actions: seq<Action>, lists: seq<seq<UserKey>>): (System, View)
    requires |lists| == |actions|
    decreases |actions|
  {
    if actions == [] then (s, EMPTY_VIEW)
    else
      var n := |actions| - 1;
      var (t, v) := RunBoth(s, actions[..n], lists[..n]);
      (Next(t, actions[n]), NextView(t, v, actions[n], lists[n]))
  }

  /** Only the system's own groups send, and the GUI has allowed exactly those. */
  ghost predicate KnownGroups(s: System) {
    && s.gui.cur.Keys == s.gui.prev.Keys == s.groups.Keys
    && forall t :: t in Pending(s) ==> t.grp in s.groups
  }

  lemma TagsKnown(s: System, g: int, ms: seq<Message>)
    requires KnownGroups(s) && g in s.groups
    ensures KnownGroups(s.(queue := s.queue + Tag(g, ms)))
  {
    var s' := s.(queue := s.queue + Tag(g, ms));
    assert Pending(s') == Pending(s) + Tag(g, ms);
  }

  lemma {:induction false} DepartAllKnown(s: System, order: seq<int>, collected: map<int, seq<Node>>)
    requires KnownGroups(s)
    ensures KnownGroups(DepartAll(s, order, collected))
    decreases |order|
  {
    if order != [] {
      var front, g := order[..|order| - 1], order[|order| - 1];
      DepartAllKnown(s, front, collected);
      var s1 := DepartAll(s, front, collected);
      if g in s1.groups && g in collected {
        TagsKnown(s1, g, Protocol.Run(s1.groups[g], Protocol.Departures(collected[g])).1);
      }
    }
  }

  lemma NextKnown(s: System, a: Action)
    requires KnownGroups(s)
    ensures KnownGroups(Next(s, a))
  {
    match a
    case Network(g, e) =>
      if g in s.groups && !Refused(s.rules, e) {
        TagsKnown(s, g, Protocol.Handle(s.groups[g], e).1);
      }
    case Block(rules, collected) =>
      assert Pending(s.(rules := s.rules + rules)) == Pending(s);
      DepartAllKnown(s.(rules := s.rules + rules), s.adapters, collected);
    case Collect =>
      assert Pending(Next(s, a)) == Pending(s);
    case HandleNext(host) =>
      if s.batch != [] {
        assert Pending(s) == [s.batch[0]] + Pending(Next(s, a));
      }
  }

  /** Being in order is a matter of ids, in which the two copies agree. */
  lemma InOrderInBoth(cur: ModelCopy.Copy, prev: ModelCopy.Copy, m: Message)
    requires SameCopyButRooms(cur, prev) && WellKeyed(prev.house) && Replay.InOrder(prev.house, m)
    ensures WellKeyed(cur.house) && Replay.InOrder(cur.house, m)
  {
  }

  /** What lies first in the queue is in order for the current copy. */
  lemma FirstIsExpected(s: System)
    requires Synced(s) && SameButRooms(s.gui.cur, s.gui.prev) && KnownGroups(s) && s.batch != []
    ensures Expected(s.gui, s.batch[0])
  {
    var t := s.batch[0];
    var rest := s.batch[1..] + s.queue;
    assert Pending(s) == [t] + rest;
    assert t in Pending(s);
    OnlyConcat([t], rest, t.grp);
    assert Only([t], t.grp) == [t.msg];
    var mine := Only(Pending(s), t.grp);
    assert GroupSynced(s.gui.prev[t.grp], s.groups[t.grp], mine);
    assert mine[0] == t.msg && mine[..0] == [];
    assert Replay.InOrder(Protocol.Fold(s.gui.prev[t.grp].house, mine[..0]), mine[0]);
    InOrderInBoth(s.gui.cur[t.grp], s.gui.prev[t.grp], t.msg);
  }

  /** The groups that send are those that the GUI has allowed, so no message throws. */
  lemma NothingThrows(s: System, host: Host)
    requires KnownGroups(s) && s.batch != []
    ensures !Throws(s.gui, host, s.batch[0])
  {
    assert s.batch[0] in Pending(s);
  }

  lemma GuiOnlyHandles(s: System, a: Action)
    requires !a.HandleNext?
    ensures Next(s, a).gui == s.gui
  {
    if a.Block? {
      DepartAllKeepsGui(s.(rules := s.rules + a.rules), s.adapters, a.collected);
    }
  }

  ghost predicate Lists(s: System, a: Action, ids: seq<UserKey>) {
    a.HandleNext? && s.batch != [] ==> ListsRoom(ApplyTo(s.gui.cur, s.batch[0]), s.gui.prev, s.batch[0], ids)
  }

  lemma NextKeepsShown(s: System, v: View, a: Action, ids: seq<UserKey>)
    requires Synced(s) && SameButRooms(s.gui.cur, s.gui.prev) && KnownGroups(s) && Shows(UsersOf(s.gui.cur), v)
    requires Separate(UsersOf(s.gui.cur)) && Separate(UsersOf(Next(s, a).gui.cur)) && Lists(s, a, ids)
    ensures Shows(UsersOf(Next(s, a).gui.cur), NextView(s, v, a, ids))
  {
    hide Shows, Separate, HandleOne, Handled, Filter, Expected, Synced, KnownGroups, ListsRoom;
    if a.HandleNext? && s.batch != [] {
      FirstIsExpected(s);
      if Filter(s.gui.seen, s.batch[0].msg).0 {
        DroppedChangesNoUsers(s.gui, a.host, s.batch[0]);
      } else {
        HandleOneShows(s.gui, v, a.host, s.batch[0], ids);
      }
    } else if !a.HandleNext? {
      GuiOnlyHandles(s, a);
    }
  }

  ghost predicate Start(s: System) {
    Initial(s) && KnownGroups(s)
  }

  /** What is assumed of a run: peers meet their guards, and in no state of the network do two users of a
      group have the same name or two groups the same node. (Of `lists` no more is assumed than that
      the house lists the users of a room, in some order.) */
  ghost predicate Fair(s: System, actions: seq<Action>, lists: seq<seq<UserKey>>) {
    && |lists| == |actions|
    && (forall i :: 0 <= i < |actions| ==> LobbySystem.Told(RunSystem(s, actions[..i]), actions[i]))
    && (forall i :: 0 <= i < |actions| ==> Lists(RunSystem(s, actions[..i]), actions[i], lists[i]))
    && (forall i :: 0 <= i <= |actions| ==> Separate(NetworkUsers(RunSystem(s, actions[..i]))))
  }

  lemma FairPrefix(s: System, actions: seq<Action>, lists: seq<seq<UserKey>>)
    requires Fair(s, actions, lists) && actions != []
    ensures var n := |actions| - 1;
            && Fair(s, actions[..n], lists[..n])
            && LobbySystem.Told(RunSystem(s, actions[..n]), actions[n]) && Lists(RunSystem(s, actions[..n]), actions[n], lists[n])
            && Separate(NetworkUsers(RunSystem(s, actions[..n]))) && Separate(NetworkUsers(RunSystem(s, actions)))
  {
    hide Separate, LobbySystem.Told, RunSystem, Lists;
    var n := |actions| - 1;
    assert forall i :: 0 <= i <= n ==> actions[..n][..i] == actions[..i];
    assert actions[..|actions|] == actions;
  }

  lemma FairIsTold(s: System, actions: seq<Action>, lists: seq<seq<UserKey>>)
    requires Fair(s, actions, lists)
    ensures |lists| == |actions| && forall i :: 0 <= i < |actions| ==> LobbySystem.Told(RunSystem(s, actions[..i]), actions[i])
  {
  }

  /** What holds at the start and after each action. */
  ghost predicate Whole(s: System, v: View) {
    && Synced(s) && SameButRooms(s.gui.cur, s.gui.prev) && KnownGroups(s) && Ahead(s)
    && Shows(UsersOf(s.gui.cur), v)
  }

  lemma NextKeepsWhole(s: System, v: View, a: Action, ids: seq<UserKey>)
    requires Whole(s, v) && LobbySystem.Told(s, a) && Lists(s, a, ids)
    requires Separate(NetworkUsers(s)) && Separate(NetworkUsers(Next(s, a)))
    ensures Whole(Next(s, a), NextView(s, v, a, ids))
  {
    hide Synced, SameButRooms, Ahead, Separate, Shows, LobbySystem.Told, Lists, Next, NextView;
    NextKeepsSynced(s, a);
    NextKnown(s, a);
    NextKeepsAhead(s, a);
    CopiesAreSeparate(s);
    CopiesAreSeparate(Next(s, a));
    NextKeepsShown(s, v, a, ids);
  }

  lemma StartIsWhole(s: System)
    requires Start(s)
    ensures Whole(s, EMPTY_VIEW)
  {
    assert Only([], 0) == [];
    assert forall g :: g in s.gui.cur ==> s.gui.cur[g] == ModelCopy.EMPTY_COPY;
  }

  /** Through every fair run the view shows the current copy. */
  lemma {:induction false} ShownOverRuns(s: System, actions: seq<Action>, lists: seq<seq<UserKey>>)
    requires Start(s) && Fair(s, actions, lists)
    ensures |lists| == |actions|
    ensures var (t, v) := RunBoth(s, actions, lists);
            t == RunSystem(s, actions) && Whole(t, v) && Shows(UsersOf(t.gui.cur), v)
    decreases |actions|
  {
    FairIsTold(s, actions, lists);
    if actions == [] {
      StartIsWhole(s);
    } else {
      hide Start, Shows, Separate, LobbySystem.Told, KnownGroups, Synced, Ahead, SameButRooms, Next, NextView, Fair, Lists;
      var n := |actions| - 1;
      FairPrefix(s, actions, lists);
      ShownOverRuns(s, actions[..n], lists[..n]);
      var (t, v) := RunBoth(s, actions[..n], lists[..n]);
      NextKeepsWhole(t, v, actions[n], lists[n]);
    }
  }

  /** Whenever the GUI has caught up, the screen shows the network: each unnamed user has its item;
      there is an item for exactly the names that some group holds, and its feeds are exactly the
      groups that hold the name. */
  lemma ScreenShowsTheNetwork(s: System, actions: seq<Action>, lists: seq<seq<UserKey>>, name: string, g: int)
    requires Start(s) && Fair(s, actions, lists)
    requires Pending(RunSystem(s, actions)) == []
    ensures |lists| == |actions| && RunBoth(s, actions, lists).0 == RunSystem(s, actions)
    ensures var hs, v := NetworkUsers(RunSystem(s, actions)), RunBoth(s, actions, lists).1;
            && ItemsUnnamed(hs, v.unnamed) && UnnamedShown(hs, v.unnamed)
            && (name in v.named <==> name != "" && exists h, k :: h in hs && k in hs[h] && hs[h][k].id.idStr == name)
            && (name in v.named ==> (g in v.named[name] <==> g in hs && exists k :: k in hs[g] && hs[g][k].id.idStr == name))
  {
    ShownAtRest(s, actions, lists);
    hide Fair, RunBoth, RunSystem, Start, Pending, NetworkUsers, NamesShown, ItemsNamed, ItemsUnnamed, UnnamedShown;
    ShownExactly(NetworkUsers(RunSystem(s, actions)), RunBoth(s, actions, lists).1, name, g);
  }

  lemma ShownAtRest(s: System, actions: seq<Action>, lists: seq<seq<UserKey>>)
    requires Start(s) && Fair(s, actions, lists)
    requires Pending(RunSystem(s, actions)) == []
    ensures |lists| == |actions| && RunBoth(s, actions, lists).0 == RunSystem(s, actions)
    ensures Shows(NetworkUsers(RunSystem(s, actions)), RunBoth(s, actions, lists).1)
  {
    ShownOverRuns(s, actions, lists);
    hide Fair, RunBoth, RunSystem, Initial, KnownGroups, Shows, Synced, SameButRooms, Ahead;
    ShownWhenCaughtUp(RunBoth(s, actions, lists).0, RunBoth(s, actions, lists).1);
  }

  lemma ShownWhenCaughtUp(t: System, v: View)
    requires Synced(t) && SameButRooms(t.gui.cur, t.gui.prev) && KnownGroups(t) && Pending(t) == []
    requires Shows(UsersOf(t.gui.cur), v)
    ensures Shows(NetworkUsers(t), v)
  {
    hide Shows, Synced, SameButRooms;
    CaughtUp(t);
    SameIdsShown(UsersOf(t.gui.cur), NetworkUsers(t), v);
  }

  lemma CaughtUp(t: System)
    requires Synced(t) && SameButRooms(t.gui.cur, t.gui.prev) && KnownGroups(t) && Pending(t) == []
    ensures forall h :: h in t.groups ==>
              && t.gui.cur[h].house.users.Keys == t.groups[h].house.users.Keys
              && forall k :: k in t.groups[h].house.users ==> t.gui.cur[h].house.users[k].id == t.groups[h].house.users[k].id
  {
    forall h | h in t.groups
      ensures t.gui.prev[h].house == t.groups[h].house && SameCopyButRooms(t.gui.cur[h], t.gui.prev[h])
    {
      assert GroupSynced(t.gui.prev[h], t.groups[h], Only(Pending(t), h));
    }
  }
}
