/** The whole lobby as a transition system: the groups and the block list on the network thread, the
    queue between the threads, and the GUI's copies. */
module LobbySystem {
  import opened Wrappers
  import opened UserKeys
  import opened Lobby
  import opened Protocol
  import opened Replay
  import opened Gui
  import ModelCopy
  import IpBlock

  /** `adapters` lists the groups in the order in which the network thread serves them. `batch` is
      what the GUI has collected and not yet handled, `queue` what it has not collected. */
  datatype System = System(
    rules: seq<IpBlock.Rule>,
    adapters: seq<int>,
    groups: map<int, Group>,
    queue: seq<Tagged>,
    batch: seq<Tagged>,
    gui: Gui)

  /** `Block` carries, per group, the nodes that remove_blocked_users collects. */
  datatype Action =
    | Network(g: int, e: Event)
    | Block(rules: seq<IpBlock.Rule>, collected: map<int, seq<Node>>)
    | Collect
    | HandleNext(host: Host)

  predicate Refused(rules: seq<IpBlock.Rule>, e: Event) {
    match e
    case NodeAdded(n, _, _) => IpBlock.Blocks(rules, n.ip)
    case NodeGone(_) => false
    case UserInfo(from, _) => IpBlock.Blocks(rules, from.ip)
    case RoomInfo(from, _) => IpBlock.Blocks(rules, from.ip)
    case UserData(from, _) => IpBlock.Blocks(rules, from.ip)
    case SelfInfo(_) => false
  }

  function Tag(g: int, ms: seq<Message>): (ts: seq<Tagged>) {
    seq(|ms|, i requires 0 <= i < |ms| => Tagged(g, ms[i]))
  }

  /** Some nodes leave group g, in this order. */
  function Depart(s: System, g: int, rm: seq<Node>): System
    requires g in s.groups
  {
    var (group, sent) := Run(s.groups[g], Departures(rm));
    s.(groups := s.groups[g := group], queue := s.queue + Tag(g, sent))
  }

  /** remove_blocked_users for the groups in `order`. */
  function DepartAll(s: System, order: seq<int>, collected: map<int, seq<Node>>): System
    decreases |order|
  {
    if order == [] then s
    else
      var s1 := DepartAll(s, order[..|order| - 1], collected);
      var g := order[|order| - 1];
      if g in s1.groups && g in collected then Depart(s1, g, collected[g]) else s1
  }

  function Next(s: System, a: Action): System {
    match a
    case Network(g, e) =>
      if g !in s.groups || Refused(s.rules, e) then s
      else
        var (group, sent) := Handle(s.groups[g], e);
        s.(groups := s.groups[g := group], queue := s.queue + Tag(g, sent))
    case Block(rules, collected) =>
      DepartAll(s.(rules := s.rules + rules), s.adapters, collected)
    case Collect =>
      if s.batch == [] then s.(batch := s.queue, queue := []) else s
    case HandleNext(host) =>
      if s.batch == [] then s
      else s.(gui := HandleOne(s.gui, host, s.batch[0]), batch := s.batch[1..])
  }

  function Pending(s: System): seq<Tagged> {
    s.batch + s.queue
  }

  /** The copies lag behind by exactly what is pending: for every group, replaying its pending
      messages on the previous copy gives the network's house; and they will arrive in order. */
  ghost predicate GroupSynced(copy: ModelCopy.Copy, group: Group, pending: seq<Message>) {
    && WellKeyed(copy.house) && WellKeyed(group.house)
    && ModelCopy.IndexSound(copy)
    && AllInOrder(copy.house, pending)
    && Fold(copy.house, pending) == group.house
  }

  ghost predicate Synced(s: System) {
    forall g :: g in s.groups ==> g in s.gui.prev && GroupSynced(s.gui.prev[g], s.groups[g], Only(Pending(s), g))
  }

  ghost predicate NoneBlocked(s: System) {
    forall g, k :: g in s.groups && k in s.groups[g].house.users ==> k.Some? && !IpBlock.Blocks(s.rules, k.value.ip)
  }

  ghost predicate Served(s: System) {
    forall g :: g in s.adapters <==> g in s.groups
  }

  ghost predicate Keyed(s: System) {
    forall g :: g in s.groups ==> WellKeyed(s.groups[g].house)
  }

  /** What the removal loop guarantees: the nodes it collects are the blocked users of the group. */
  ghost predicate Collected(s: System, a: Action) {
    a.Block? ==>
      forall g :: g in s.groups ==> g in a.collected && CollectsBlocked(s.rules + a.rules, s.groups[g].house, a.collected[g])
  }

  /** What is assumed of the peers: an event that is let in meets its guard. */
  predicate Told(s: System, a: Action) {
    a.Network? && a.g in s.groups && !Refused(s.rules, a.e) ==> Announced(s.groups[a.g], a.e)
  }

  ghost predicate CollectsBlocked(rules: seq<IpBlock.Rule>, h: House, rm: seq<Node>) {
    forall n :: n in rm <==> Some(n) in h.users && IpBlock.Blocks(rules, n.ip)
  }

  lemma {:induction false} OnlyConcat(a: seq<Tagged>, b: seq<Tagged>, g: int)
    ensures Only(a + b, g) == Only(a, g) + Only(b, g)
    decreases |b|
  {
    if b == [] {
      assert a + b == a;
    } else {
      var front := b[..|b| - 1];
      assert (a + b)[..|a + b| - 1] == a + front;
      OnlyConcat(a, front, g);
    }
  }

  lemma {:induction false} OnlyTag(g: int, ms: seq<Message>, g': int)
    ensures Only(Tag(g, ms), g') == if g == g' then ms else []
    decreases |ms|
  {
    if ms != [] {
      var front := ms[..|ms| - 1];
      assert Tag(g, ms)[..|ms| - 1] == Tag(g, front);
      OnlyTag(g, front, g');
    }
  }

  /** A group that moves on and sends messages which replay its move leaves everything in sync. */
  lemma SendKeepsSynced(s: System, g: int, group: Group, sent: seq<Message>)
    requires Synced(s) && g in s.groups
    requires WellKeyed(group.house) && AllInOrder(s.groups[g].house, sent) && Fold(s.groups[g].house, sent) == group.house
    ensures Synced(s.(groups := s.groups[g := group], queue := s.queue + Tag(g, sent)))
  {
    var s' := s.(groups := s.groups[g := group], queue := s.queue + Tag(g, sent));
    assert Pending(s') == Pending(s) + Tag(g, sent);
    forall g' | g' in s'.groups
      ensures GroupSynced(s'.gui.prev[g'], s'.groups[g'], Only(Pending(s'), g'))
    {
      OnlyConcat(Pending(s), Tag(g, sent), g');
      OnlyTag(g, sent, g');
      var before := Only(Pending(s), g');
      assert GroupSynced(s.gui.prev[g'], s.groups[g'], before);
      if g' == g {
        InOrderConcat(s.gui.prev[g].house, before, sent);
        FoldConcat(s.gui.prev[g].house, before, sent);
      } else {
        assert before + [] == before;
      }
    }
  }

  lemma NetworkKeepsSynced(s: System, g: int, e: Event)
    requires Synced(s) && Told(s, Network(g, e))
    ensures Synced(Next(s, Network(g, e)))
  {
    if g in s.groups && !Refused(s.rules, e) {
      assert GroupSynced(s.gui.prev[g], s.groups[g], Only(Pending(s), g));
      StepReplays(s.groups[g], e);
      StepInOrder(s.groups[g], e);
      SendKeepsSynced(s, g, Handle(s.groups[g], e).0, Handle(s.groups[g], e).1);
    }
  }

  lemma UsersAfter(g: Group, e: Event)
    requires WellKeyed(g.house)
    ensures var users' := Handle(g, e).0.house.users;
            users'.Keys <= g.house.users.Keys + if e.NodeAdded? then {Some(e.n)} else {}
  {
    match e
    case NodeAdded(n, payload, isSelf) =>
      ReplayInserted(g.house, n, payload);
      if isSelf {
        var i := Inserted(g.house, n, payload).house;
        ReplayUserUpdate(i, i.users[Some(n)], g.self);
      }
    case NodeGone(n) => ReplayNodeRemoved(g.house, n);
    case UserInfo(from, user) =>
      if Some(from) in g.house.users {
        ReplayUserUpdate(g.house, g.house.users[Some(from)], user);
      }
    case _ =>
  }

  /** A departure of each collected node leaves the others. */
  lemma {:induction false} DeparturesRemove(g: Group, rm: seq<Node>)
    requires WellKeyed(g.house)
    ensures AllAnnounced(g, Departures(rm))
    ensures var g' := Run(g, Departures(rm)).0;
            && WellKeyed(g'.house)
            && (forall k :: k in g'.house.users <==> k in g.house.users && !(k.Some? && k.value in rm))
            && (forall k :: k in g'.house.users ==> g'.house.users[k] == g.house.users[k])
    decreases |rm|
  {
    if rm == [] {
      assert Departures(rm) == [];
    } else {
      hide Run, NodeRemoved, AllAnnounced, Announced, Departures, WellKeyed;
      var front, n := rm[..|rm| - 1], rm[|rm| - 1];
      DeparturesRemove(g, front);
      OneDepartureMore(g, rm);
      var users := Run(g, Departures(front)).0.house.users;
      ReplayNodeRemoved(Run(g, Departures(front)).0.house, n);
      assert Run(g, Departures(rm)).0.house.users == users - {Some(n)};
      assert forall m :: m in rm <==> m in front || m == n;
    }
  }

  lemma OneDepartureMore(g: Group, rm: seq<Node>)
    requires rm != []
    ensures var front, n := rm[..|rm| - 1], rm[|rm| - 1];
            && Run(g, Departures(rm)).0.house == NodeRemoved(Run(g, Departures(front)).0.house, n).house
            && (AllAnnounced(g, Departures(front)) ==> AllAnnounced(g, Departures(rm)))
  {
    var front, es := rm[..|rm| - 1], Departures(rm);
    assert es[..|rm| - 1] == Departures(front);
    assert forall i :: 0 <= i < |front| ==> Departures(front)[..i] == es[..i];
  }

  lemma DepartKeepsSynced(s: System, g: int, rm: seq<Node>)
    requires Synced(s) && g in s.groups
    ensures Synced(Depart(s, g, rm))
  {
    assert GroupSynced(s.gui.prev[g], s.groups[g], Only(Pending(s), g));
    DeparturesRemove(s.groups[g], rm);
    RunReplays(s.groups[g], Departures(rm));
    RunInOrder(s.groups[g], Departures(rm));
    SendKeepsSynced(s, g, Run(s.groups[g], Departures(rm)).0, Run(s.groups[g], Departures(rm)).1);
  }

  /** The groups served so far hold nobody that is blocked, the others are as they were. */
  lemma {:induction false} DepartAllClears(s: System, order: seq<int>, collected: map<int, seq<Node>>)
    requires Keyed(s)
    requires forall g :: g in s.groups ==> g in collected && CollectsBlocked(s.rules, s.groups[g].house, collected[g])
    ensures var s' := DepartAll(s, order, collected);
            && Keyed(s') && s'.groups.Keys == s.groups.Keys
            && s'.rules == s.rules && s'.adapters == s.adapters && s'.gui == s.gui
            && (forall g :: g in s.groups ==> s'.groups[g].house.users.Keys <= s.groups[g].house.users.Keys)
            && (forall g, k :: g in order && g in s.groups && k in s'.groups[g].house.users && k.Some? ==>
                  !IpBlock.Blocks(s.rules, k.value.ip))
    decreases |order|
  {
    if order != [] {
      var front, g := order[..|order| - 1], order[|order| - 1];
      assert order == front + [g];
      DepartAllClears(s, front, collected);
      var s1 := DepartAll(s, front, collected);
      if g in s1.groups {
        DeparturesRemove(s1.groups[g], collected[g]);
      }
    }
  }

  /** Of the groups served so far exactly the collected nodes are gone, the other groups are as they were,
      and all other records too. */
  lemma {:induction false} DepartAllIsExact(s: System, order: seq<int>, collected: map<int, seq<Node>>)
    requires Keyed(s) && forall g :: g in s.groups ==> g in collected
    ensures var s' := DepartAll(s, order, collected);
            && Keyed(s') && s'.groups.Keys == s.groups.Keys
            && forall g :: g in s.groups ==> LeftExactly(s.groups[g].house.users, s'.groups[g].house.users, if g in order then collected[g] else [])
    decreases |order|
  {
    if order != [] {
      hide Depart, DepartAll, Departures, Run, LeftExactly;
      var front, last := order[..|order| - 1], order[|order| - 1];
      assert order == front + [last];
      DepartAllIsExact(s, front, collected);
      DepartAllOneMore(s, order, collected);
      var s1 := DepartAll(s, front, collected);
      if last in s1.groups {
        DepartIsExact(s1, last, collected[last]);
        LeftTwice(s.groups[last].house.users, s1.groups[last].house.users, DepartAll(s, order, collected).groups[last].house.users, collected[last], last in front);
      }
    } else {
      assert DepartAll(s, [], collected) == s;
    }
  }

  lemma DepartIsExact(s: System, g: int, rm: seq<Node>)
    requires Keyed(s) && g in s.groups
    ensures var s' := Depart(s, g, rm);
            && Keyed(s') && s'.groups == s.groups[g := s'.groups[g]]
            && LeftExactly(s.groups[g].house.users, s'.groups[g].house.users, rm)
  {
    hide Run, Departures;
    DepartIsRun(s, g, rm);
    DeparturesRemove(s.groups[g], rm);
  }

  lemma LeftTwice(before: Users, between: Users, after: Users, gone: seq<Node>, again: bool)
    requires LeftExactly(before, between, if again then gone else [])
    requires LeftExactly(between, after, gone)
    ensures LeftExactly(before, after, gone)
  {
  }

  ghost predicate LeftExactly(users: Users, users': Users, gone: seq<Node>) {
    && (forall k :: k in users' <==> k in users && !(k.Some? && k.value in gone))
    && (forall k :: k in users' ==> users'[k] == users[k])
  }

  lemma DepartAllOneMore(s: System, order: seq<int>, collected: map<int, seq<Node>>)
    requires order != []
    ensures var g, s1 := order[|order| - 1], DepartAll(s, order[..|order| - 1], collected);
            DepartAll(s, order, collected) == if g in s1.groups && g in collected then Depart(s1, g, collected[g]) else s1
  {
  }

  lemma DepartIsRun(s: System, g: int, rm: seq<Node>)
    requires g in s.groups
    ensures Depart(s, g, rm).groups == s.groups[g := Run(s.groups[g], Departures(rm)).0]
  {
  }

  /** A block sends away the blocked users of all groups, and nobody else. */
  lemma BlockIsExact(s: System, rules: seq<IpBlock.Rule>, collected: map<int, seq<Node>>, g: int, n: Node)
    requires Keyed(s) && Served(s) && Collected(s, Block(rules, collected)) && g in s.groups
    ensures var users, s' := s.groups[g].house.users, Next(s, Block(rules, collected));
            && s'.rules == s.rules + rules && g in s'.groups
            && (Some(n) in s'.groups[g].house.users <==> Some(n) in users && !IpBlock.Blocks(s'.rules, n.ip))
            && (Some(n) in s'.groups[g].house.users ==> s'.groups[g].house.users[Some(n)] == users[Some(n)])
  {
    hide IpBlock.Blocks, DepartAll;
    var s1 := s.(rules := s.rules + rules);
    DepartAllIsExact(s1, s.adapters, collected);
    DepartAllKeepsRules(s1, s.adapters, collected);
    assert CollectsBlocked(s.rules + rules, s.groups[g].house, collected[g]);
  }

  lemma DepartAllKeepsRules(s: System, order: seq<int>, collected: map<int, seq<Node>>)
    ensures DepartAll(s, order, collected).rules == s.rules
    decreases |order|
  {
  }

  /** Who asks to come in is in if and only if its address is not blocked. */
  lemma OnlyBlockedAreTurnedAway(s: System, g: int, n: Node, payload: string, isSelf: bool)
    requires Keyed(s) && NoneBlocked(s) && g in s.groups
    ensures var s' := Next(s, Network(g, NodeAdded(n, payload, isSelf)));
            && (Some(n) in s'.groups[g].house.users <==> !IpBlock.Blocks(s.rules, n.ip))
            && (IpBlock.Blocks(s.rules, n.ip) ==> s' == s)
  {
    hide IpBlock.Blocks;
    if !IpBlock.Blocks(s.rules, n.ip) {
      ReplayInserted(s.groups[g].house, n, payload);
      if isSelf {
        var i := Inserted(s.groups[g].house, n, payload).house;
        ReplayUserUpdate(i, i.users[Some(n)], s.groups[g].self);
      }
    }
  }

  /** Blocking one ordinary address sends its node away from every group. */
  lemma BlockedNodeLeaves(s: System, n: Node, collected: map<int, seq<Node>>, g: int)
    requires !IpBlock.Special(n.ip) && Keyed(s) && Served(s) && g in s.groups
    requires Collected(s, Block([IpBlock.Rule(n.ip, IpBlock.INADDR_NONE)], collected))
    ensures var s' := Next(s, Block([IpBlock.Rule(n.ip, IpBlock.INADDR_NONE)], collected));
            g in s'.groups && Some(n) !in s'.groups[g].house.users
  {
    hide IpBlock.Blocks, Next, Collected;
    BlockIsExact(s, [IpBlock.Rule(n.ip, IpBlock.INADDR_NONE)], collected, g, n);
    IpBlock.OneAddress(s.rules, n.ip, n.ip);
  }

  lemma {:induction false} DepartAllKeepsSynced(s: System, order: seq<int>, collected: map<int, seq<Node>>)
    requires Synced(s)
    ensures Synced(DepartAll(s, order, collected))
    decreases |order|
  {
    if order != [] {
      var front, g := order[..|order| - 1], order[|order| - 1];
      DepartAllKeepsSynced(s, front, collected);
      var s1 := DepartAll(s, front, collected);
      if g in s1.groups && g in collected {
        DepartKeepsSynced(s1, g, collected[g]);
      }
    }
  }

  lemma OneHandled(copy: ModelCopy.Copy, group: Group, m: Message, after: seq<Message>)
    requires GroupSynced(copy, group, [m] + after)
    ensures GroupSynced(ModelCopy.Apply(copy, m), group, after)
  {
    hide ModelCopy.Apply, Protocol.Apply;
    InOrderPrefix(copy.house, [m], after);
    OneInOrder(copy.house, m);
    FoldOne(copy.house, m);
    FoldConcat(copy.house, [m], after);
    ModelCopy.ApplyOnHouse(copy, m);
    ModelCopy.ApplyKeepsSound(copy, m);
  }

  lemma OnlyFirst(t: Tagged, rest: seq<Tagged>, g: int)
    ensures Only([t] + rest, g) == (if t.grp == g then [t.msg] else []) + Only(rest, g)
  {
    OnlyConcat([t], rest, g);
    assert [t][..0] == [];
  }

  lemma HandleKeepsSynced(s: System, host: Host)
    requires Synced(s) && s.batch != []
    ensures Synced(Next(s, HandleNext(host)))
  {
    hide GroupSynced, Only;
    var t := s.batch[0];
    var s' := Next(s, HandleNext(host));
    assert Pending(s) == [t] + Pending(s');
    forall g | g in s'.groups
      ensures g in s'.gui.prev && GroupSynced(s'.gui.prev[g], s'.groups[g], Only(Pending(s'), g))
    {
      OnlyFirst(t, Pending(s'), g);
      assert GroupSynced(s.gui.prev[g], s.groups[g], Only(Pending(s), g));
      assert s'.groups == s.groups && s'.gui.prev == if Filter(s.gui.seen, t.msg).0 then s.gui.prev else ApplyTo(s.gui.prev, t);
      if t.grp == g {
        OneHandled(s.gui.prev[g], s.groups[g], t.msg, Only(Pending(s'), g));
      } else {
        assert [] + Only(Pending(s'), g) == Only(Pending(s'), g);
      }
    }
  }

  lemma NextKeepsOut(s: System, a: Action)
    requires Keyed(s) && NoneBlocked(s) && Served(s) && Collected(s, a)
    ensures var s' := Next(s, a); Keyed(s') && NoneBlocked(s') && Served(s')
  {
    match a
    case Network(g, e) =>
      if g in s.groups {
        StepReplays(s.groups[g], e);
        UsersAfter(s.groups[g], e);
      }
    case Block(rules, collected) =>
      DepartAllClears(s.(rules := s.rules + rules), s.adapters, collected);
    case _ =>
  }

  lemma NextKeepsSynced(s: System, a: Action)
    requires Synced(s) && SameButRooms(s.gui.cur, s.gui.prev) && Told(s, a)
    ensures var s' := Next(s, a); Synced(s') && SameButRooms(s'.gui.cur, s'.gui.prev)
  {
    match a
    case Network(g, e) => NetworkKeepsSynced(s, g, e);
    case Block(rules, collected) =>
      var s1 := s.(rules := s.rules + rules);
      assert Pending(s1) == Pending(s);
      DepartAllKeepsSynced(s1, s.adapters, collected);
      DepartAllKeepsGui(s1, s.adapters, collected);
    case Collect =>
      assert Pending(Next(s, Collect)) == Pending(s);
    case HandleNext(host) =>
      if s.batch != [] {
        HandleKeepsSynced(s, host);
        HandleOneKeepsSame(s.gui, host, s.batch[0]);
      }
  }

  lemma DepartAllKeepsGui(s: System, order: seq<int>, collected: map<int, seq<Node>>)
    ensures DepartAll(s, order, collected).gui == s.gui
    decreases |order|
  {
  }

  function RunSystem(s: System, actions: seq<Action>): System
    decreases |actions|
  {
    if actions == [] then s else Next(RunSystem(s, actions[..|actions| - 1]), actions[|actions| - 1])
  }

  /** Nothing blocked, nobody there, nothing sent. */
  ghost predicate Initial(s: System) {
    && s.rules == [] && s.queue == [] && s.batch == [] && Served(s)
    && (forall g :: g in s.groups ==> s.groups[g].house == EMPTY_HOUSE && g in s.gui.prev && s.gui.prev[g] == ModelCopy.EMPTY_COPY)
    && s.gui.cur == s.gui.prev
  }

  lemma {:induction false} SyncedOverRuns(s: System, actions: seq<Action>)
    requires Initial(s)
    requires forall i :: 0 <= i < |actions| ==> Told(RunSystem(s, actions[..i]), actions[i])
    ensures var t := RunSystem(s, actions); Synced(t) && SameButRooms(t.gui.cur, t.gui.prev)
    decreases |actions|
  {
    if actions == [] {
      assert Only([], 0) == [];
    } else {
      var front := actions[..|actions| - 1];
      forall i | 0 <= i < |front|
        ensures Told(RunSystem(s, front[..i]), front[i])
      {
        assert front[..i] == actions[..i];
      }
      SyncedOverRuns(s, front);
      NextKeepsSynced(RunSystem(s, front), actions[|actions| - 1]);
    }
  }

  /** In every run in which the peers' events meet their guards, at every moment and for every group:
      what the GUI has not handled yet, replayed on its previous copy, gives exactly the network's
      house; the copy's index names only live users; and the current copy differs from the previous
      one in the rooms of users at most. */
  lemma ReplicaLagsByItsQueue(s: System, actions: seq<Action>, g: int)
    requires Initial(s) && g in RunSystem(s, actions).groups
    requires forall i :: 0 <= i < |actions| ==> Told(RunSystem(s, actions[..i]), actions[i])
    ensures var t := RunSystem(s, actions);
            && g in t.gui.prev && g in t.gui.cur
            && ModelCopy.Fold(t.gui.prev[g], Only(t.batch + t.queue, g)).house == t.groups[g].house
            && ModelCopy.IndexSound(t.gui.prev[g])
            && SameCopyButRooms(t.gui.cur[g], t.gui.prev[g])
  {
    SyncedOverRuns(s, actions);
    var t := RunSystem(s, actions);
    assert GroupSynced(t.gui.prev[g], t.groups[g], Only(Pending(t), g));
    ModelCopy.InOrderIsCurrent(t.gui.prev[g].house, Only(Pending(t), g));
    ModelCopy.IndexOverRuns(t.gui.prev[g], Only(Pending(t), g));
  }

  lemma {:induction false} OutOverRuns(s: System, actions: seq<Action>)
    requires Initial(s)
    requires forall i :: 0 <= i < |actions| ==> Collected(RunSystem(s, actions[..i]), actions[i])
    ensures var t := RunSystem(s, actions); Keyed(t) && NoneBlocked(t) && Served(t)
    decreases |actions|
  {
    if actions != [] {
      var front := actions[..|actions| - 1];
      forall i | 0 <= i < |front|
        ensures Collected(RunSystem(s, front[..i]), front[i])
      {
        assert front[..i] == actions[..i];
      }
      OutOverRuns(s, front);
      NextKeepsOut(RunSystem(s, front), actions[|actions| - 1]);
    }
  }

  /** In any order of blocks, arrivals and data, whatever the peers send: between two steps no group's
      house holds a user whose address any accepted rule covers. */
  lemma BlockedStayOut(s: System, actions: seq<Action>, g: int, n: Node, rule: IpBlock.Rule)
    requires Initial(s) && g in RunSystem(s, actions).groups
    requires forall i :: 0 <= i < |actions| ==> Collected(RunSystem(s, actions[..i]), actions[i])
    requires rule in RunSystem(s, actions).rules && IpBlock.Acceptable(rule) && IpBlock.Covers(rule, n.ip)
    ensures Some(n) !in RunSystem(s, actions).groups[g].house.users
  {
    OutOverRuns(s, actions);
    var rules := RunSystem(s, actions).rules;
    var i :| 0 <= i < |rules| && rules[i] == rule;
    assert IpBlock.Blocks(rules, n.ip);
  }
}
