/** The network thread's side of the queue from the GUI: the drain, and what a list of blocked
    addresses does to the groups. */
module Worker {
  import opened Wrappers
  import opened UserKeys
  import opened Lobby
  import opened LobbySystem
  import Gui
  import Protocol
  import IpBlock
  import ChatHouse
  import GroupHandler
  import opened Messenger

  /** What the GUI asks for, as far as it concerns the drain and the block list. `Failing` stands for a
      request whose handling throws. */
  datatype Request = BlockUsers(ips: seq<IpBlock.Rule>) | ExitNow | Failing(what: string) | Other

  /** How many requests are handled before the first one throws. */
  function Handled(msgs: seq<Request>): (n: nat)
    ensures n <= |msgs|
    ensures n < |msgs| ==> msgs[n].Failing?
    ensures forall i :: 0 <= i < n ==> !msgs[i].Failing?
  {
    if msgs == [] || msgs[0].Failing? then 0 else 1 + Handled(msgs[1..])
  }

  /** The lists of rules that a run of requests blocks, in order. */
  function Lists(msgs: seq<Request>): seq<seq<IpBlock.Rule>>
    decreases |msgs|
  {
    if msgs == [] then []
    else Lists(msgs[..|msgs| - 1]) + if msgs[|msgs| - 1].BlockUsers? then [msgs[|msgs| - 1].ips] else []
  }

  /** The actions are blocks of these lists, and each collects what the removal loop collects. */
  ghost predicate AreBlocks(s: System, actions: seq<Action>, lists: seq<seq<IpBlock.Rule>>) {
    && |actions| == |lists|
    && forall i :: 0 <= i < |actions| ==>
         actions[i].Block? && actions[i].rules == lists[i] && Collected(RunSystem(s, actions[..i]), actions[i])
  }

  class Worker {
    const netMessenger: Messenger<Request>
    const guiMessenger: Messenger<Gui.Tagged>
    const ipBlock: IpBlock.Store
    const groups: seq<GroupHandler.GroupHandler>
    var quit: bool
    var exceptionStr: string

    ghost predicate Numbered() {
      forall i, j :: 0 <= i < j < |groups| ==> groups[i].grp != groups[j].grp
    }

    /** The groups use the one block list and the one queue to the GUI, and share no house. */
    ghost predicate Valid()
      reads ipBlock, set i | 0 <= i < |groups| :: groups[i].house.users
      reads set i | 0 <= i < |groups| :: groups[i].house.rooms
      reads set i, j | 0 <= i < |groups| && 0 <= j < |groups[i].house.users.cells| :: groups[i].house.users.cells[j]
      reads set i, j | 0 <= i < |groups| && 0 <= j < |groups[i].house.rooms.cells| :: groups[i].house.rooms.cells[j]
    {
      && ipBlock.Valid() && Numbered()
      && (forall i :: 0 <= i < |groups| ==> groups[i].ipBlock == ipBlock && groups[i].messenger == guiMessenger && groups[i].Valid())
      && (forall i, j :: 0 <= i < j < |groups| ==>
            groups[i].house.users != groups[j].house.users && groups[i].house.rooms != groups[j].house.rooms)
    }

    ghost function Adapters(): seq<int> {
      seq(|groups|, i requires 0 <= i < |groups| => groups[i].grp)
    }

    ghost function Groups(): map<int, Protocol.Group>
      requires Numbered()
      reads groups
      reads set i | 0 <= i < |groups| :: groups[i].house.users, set i | 0 <= i < |groups| :: groups[i].house.rooms
    {
      map i | 0 <= i < |groups| :: groups[i].grp := groups[i].Group()
    }

    /** The network thread's part of the lobby; the GUI's part is that of `other`. */
    ghost function Network(other: System): System
      requires Numbered()
      reads ipBlock, guiMessenger, groups
      reads set i | 0 <= i < |groups| :: groups[i].house.users, set i | 0 <= i < |groups| :: groups[i].house.rooms
    {
      other.(rules := ipBlock.added, adapters := Adapters(), groups := Groups(), queue := guiMessenger.msgs)
    }

    constructor (netMessenger: Messenger<Request>, guiMessenger: Messenger<Gui.Tagged>, ipBlock: IpBlock.Store,
                 groups: seq<GroupHandler.GroupHandler>)
      requires ipBlock.Valid()
      requires forall i :: 0 <= i < |groups| ==> groups[i].ipBlock == ipBlock && groups[i].messenger == guiMessenger && groups[i].Valid()
      requires forall i, j :: 0 <= i < j < |groups| ==>
                 groups[i].grp != groups[j].grp && groups[i].house.users != groups[j].house.users && groups[i].house.rooms != groups[j].house.rooms
      ensures Valid() && !quit && exceptionStr == ""
      ensures this.netMessenger == netMessenger && this.guiMessenger == guiMessenger && this.ipBlock == ipBlock && this.groups == groups
    {
      this.netMessenger, this.guiMessenger, this.ipBlock, this.groups := netMessenger, guiMessenger, ipBlock, groups;
      quit, exceptionStr := false, "";
    }

    method RemoveBlockedUsersOf(i: nat) returns (rm: seq<Node>)
      requires Valid() && i < |groups|
      modifies groups[i].house.users, groups[i].house.rooms, guiMessenger
      ensures Valid()
      ensures CollectsBlocked(ipBlock.added, old(groups[i].Group().house), rm)
      ensures var (group, sent) := Protocol.Run(old(groups[i].Group()), Protocol.Departures(rm));
              groups[i].Group() == group && guiMessenger.msgs == old(guiMessenger.msgs) + Tag(groups[i].grp, sent)
      ensures forall j :: 0 <= j < |groups| && j != i ==> groups[j].Group() == old(groups[j].Group())
    {
      hide ChatHouse.House.Valid, IpBlock.Store.Valid, Tag, Protocol.Run, Protocol.Departures, CollectsBlocked, GroupHandler.AllOut;
      rm := groups[i].RemoveBlockedUsers();
    }

    method DepartBlocked(i: nat, ghost other: System) returns (rm: seq<Node>)
      requires Valid() && i < |groups|
      modifies groups[i].house.users, groups[i].house.rooms, guiMessenger
      ensures Valid()
      ensures CollectsBlocked(ipBlock.added, old(groups[i].Group().house), rm)
      ensures groups[i].grp in old(Network(other)).groups && Network(other) == Depart(old(Network(other)), groups[i].grp, rm)
      ensures forall j :: 0 <= j < |groups| && j != i ==> groups[j].Group() == old(groups[j].Group())
    {
      hide Valid, CollectsBlocked, Tag, Protocol.Run, Protocol.Departures, GroupHandler.GroupHandler.Group;
      NumbersDiffer();
      rm := RemoveBlockedUsersOf(i);
      NumbersDiffer();
      assert Groups() == old(Groups())[groups[i].grp := groups[i].Group()];
    }

    /** One group after the other, as in the lobby's specification. */
    method RemoveBlockedUsers(ghost other: System) returns (collected: map<int, seq<Node>>)
      requires Valid()
      modifies guiMessenger, set i | 0 <= i < |groups| :: groups[i].house.users, set i | 0 <= i < |groups| :: groups[i].house.rooms
      ensures Valid()
      ensures forall g :: g in old(Network(other)).groups ==>
                g in collected && CollectsBlocked(ipBlock.added, old(Network(other)).groups[g].house, collected[g])
      ensures Network(other) == DepartAll(old(Network(other)), Adapters(), collected)
    {
      hide Valid, CollectsBlocked, Depart, Network, Groups, GroupHandler.GroupHandler.Group;
      NumbersDiffer();
      GroupsAre(other);
      ghost var before := Network(other);
      collected := map[];
      for i := 0 to |groups|
        invariant Valid()
        invariant forall j :: i <= j < |groups| ==> groups[j].Group() == old(groups[j].Group())
        invariant forall j :: 0 <= j < i ==>
                    groups[j].grp in collected && CollectsBlocked(ipBlock.added, old(groups[j].Group().house), collected[groups[j].grp])
        invariant Network(other) == DepartAll(old(Network(other)), Adapters()[..i], collected)
      {
        var rm := DepartBlocked(i, other);
        DepartNext(old(Network(other)), Adapters(), i, collected, rm);
        collected := collected[groups[i].grp := rm];
      }
      assert Adapters()[..|groups|] == Adapters();
    }

    /** The block list takes the addresses, and each group in turn loses its blocked users and nobody
        else: one step of the lobby. */
    method BlockUsers(ips: seq<IpBlock.Rule>, ghost other: System) returns (collected: map<int, seq<Node>>)
      requires Valid()
      modifies ipBlock, guiMessenger
      modifies set i | 0 <= i < |groups| :: groups[i].house.users, set i | 0 <= i < |groups| :: groups[i].house.rooms
      ensures Valid()
      ensures Collected(old(Network(other)), Block(ips, collected))
      ensures Network(other) == Next(old(Network(other)), Block(ips, collected))
      ensures NoneBlocked(Network(other))
    {
      hide Valid, Network, CollectsBlocked, DepartAll, NoneBlocked, Keyed, Served;
      NumbersDiffer();
      NetworkIsKeyed(other);
      ghost var before := Network(other);
      AddRules(ips, other);
      collected := RemoveBlockedUsers(other);
      BlockClears(before, ips, collected);
    }

    method AddRules(ips: seq<IpBlock.Rule>, ghost other: System)
      requires Valid()
      modifies ipBlock
      ensures Valid()
      ensures Network(other) == old(Network(other)).(rules := old(Network(other)).rules + ips) && ipBlock.added == Network(other).rules
      ensures Network(other).adapters == Adapters()
      ensures forall i :: 0 <= i < |groups| ==> groups[i].Group() == old(groups[i].Group())
    {
      hide ChatHouse.House.Valid, IpBlock.Store.Valid, GroupHandler.GroupHandler.Group;
      ghost var before := Groups();
      ipBlock.HandleMessage(ips);
      assert forall i :: 0 <= i < |groups| ==> groups[i].Group() == old(groups[i].Group());
      assert Groups() == before;
    }

    method HandleMessage(m: Request, ghost other: System) returns (collected: map<int, seq<Node>>)
      requires Valid() && !m.Failing?
      modifies this`quit, ipBlock, guiMessenger
      modifies set i | 0 <= i < |groups| :: groups[i].house.users, set i | 0 <= i < |groups| :: groups[i].house.rooms
      ensures Valid()
      ensures m.BlockUsers? ==>
                Collected(old(Network(other)), Block(m.ips, collected)) && Network(other) == Next(old(Network(other)), Block(m.ips, collected))
      ensures !m.BlockUsers? ==> Network(other) == old(Network(other))
      ensures quit <==> old(quit) || m == ExitNow
    {
      hide Valid, Network, Collected, Next;
      NumbersDiffer();
      collected := map[];
      match m
      case BlockUsers(ips) => collected := BlockUsers(ips, other);
      case ExitNow => quit := true;
      case Other =>
    }

    /** Handles the requests in order, up to the first one that throws. To the lobby this is a run of
        blocks, one for each list of addresses. */
    method HandleRequests(msgs: seq<Request>, ghost other: System) returns (ghost actions: seq<Action>, handled: nat)
      requires Valid()
      modifies this`quit, ipBlock, guiMessenger
      modifies set i | 0 <= i < |groups| :: groups[i].house.users, set i | 0 <= i < |groups| :: groups[i].house.rooms
      ensures Valid()
      ensures handled == Handled(msgs)
      ensures AreBlocks(old(Network(other)), actions, Lists(msgs[..handled]))
      ensures Network(other) == RunSystem(old(Network(other)), actions)
      ensures quit <==> old(quit) || ExitNow in msgs[..handled]
    {
      hide Valid, Network, Next, AreBlocks, Collected, RunSystem, Lists, Handled, Adapters;
      NumbersDiffer();
      ghost var start := Network(other);
      handled, actions := 0, [];
      assert msgs[..0] == [];
      NoBlocks(start);
      while handled < |msgs| && !msgs[handled].Failing?
        invariant handled <= |msgs| && forall j :: 0 <= j < handled ==> !msgs[j].Failing?
        invariant Valid()
        invariant AreBlocks(start, actions, Lists(msgs[..handled]))
        invariant Network(other) == RunSystem(start, actions)
        invariant quit <==> old(quit) || ExitNow in msgs[..handled]
      {
        assert msgs[..handled + 1] == msgs[..handled] + [msgs[handled]];
        var collected := HandleMessage(msgs[handled], other);
        OneRequestMore(start, actions, msgs[..handled], msgs[handled], collected);
        if msgs[handled].BlockUsers? {
          actions := actions + [Block(msgs[handled].ips, collected)];
        }
        handled := handled + 1;
      }
      HandledIs(msgs, handled);
    }

    /** Empties the queue; when a request throws, the rest is dropped, and the thread is told to quit and
        keeps the text of the exception. */
    method HandleException(ghost other: System) returns (ghost actions: seq<Action>, handled: nat)
      requires Valid()
      modifies this, netMessenger`msgs, ipBlock, guiMessenger
      modifies set i | 0 <= i < |groups| :: groups[i].house.users, set i | 0 <= i < |groups| :: groups[i].house.rooms
      ensures Valid() && netMessenger.msgs == []
      ensures handled == Handled(old(netMessenger.msgs))
      ensures AreBlocks(old(Network(other)), actions, Lists(old(netMessenger.msgs)[..handled]))
      ensures Network(other) == RunSystem(old(Network(other)), actions)
      ensures quit <==> old(quit) || ExitNow in old(netMessenger.msgs)[..handled] || handled < |old(netMessenger.msgs)|
      ensures exceptionStr == if handled < |old(netMessenger.msgs)| then old(netMessenger.msgs)[handled].what else old(exceptionStr)
      ensures old(NoneBlocked(Network(other))) ==> NoneBlocked(Network(other))
    {
      hide Valid, Network, AreBlocks, RunSystem, NoneBlocked, Keyed, Served;
      NumbersDiffer();
      NetworkIsKeyed(other);
      ghost var before := Network(other);
      var msgs := netMessenger.CollectMsgs();
      actions, handled := HandleRequests(msgs, other);
      if NoneBlocked(before) {
        BlocksKeepOut(before, actions, Lists(msgs[..handled]));
      }
      if handled < |msgs| {
        quit, exceptionStr := true, msgs[handled].what;
      }
    }

    lemma NetworkIsKeyed(other: System)
      requires Valid()
      ensures Keyed(Network(other)) && Served(Network(other))
    {
      hide ChatHouse.House.Valid;
      forall i | 0 <= i < |groups|
        ensures WellKeyed(groups[i].Group().house)
      {
        groups[i].house.IsWellKeyed();
      }
      assert forall i :: 0 <= i < |groups| ==> Adapters()[i] == groups[i].grp;
    }

    lemma GroupsAre(other: System)
      requires Numbered()
      ensures forall i :: 0 <= i < |groups| ==> groups[i].grp in Network(other).groups && Network(other).groups[groups[i].grp] == groups[i].Group()
      ensures forall g :: g in Network(other).groups ==> exists i :: 0 <= i < |groups| && groups[i].grp == g
    {
    }

    lemma NumbersDiffer()
      requires Valid()
      ensures Numbered()
    {
    }
  }

  lemma BlockClears(s: System, ips: seq<IpBlock.Rule>, collected: map<int, seq<Node>>)
    requires Keyed(s) && Served(s) && Collected(s, Block(ips, collected))
    ensures NoneBlocked(Next(s, Block(ips, collected)))
  {
    hide CollectsBlocked, IpBlock.Blocks;
    DepartAllClears(s.(rules := s.rules + ips), s.adapters, collected);
    NoneBlockedHasNodes(Next(s, Block(ips, collected)));
  }

  lemma NoneBlockedHasNodes(s: System)
    requires Keyed(s)
    ensures forall g, k :: g in s.groups && k in s.groups[g].house.users ==> k.Some?
  {
  }

  lemma {:induction false} BlocksKeepOut(s: System, actions: seq<Action>, lists: seq<seq<IpBlock.Rule>>)
    requires AreBlocks(s, actions, lists) && Keyed(s) && Served(s) && NoneBlocked(s)
    ensures var t := RunSystem(s, actions); Keyed(t) && Served(t) && NoneBlocked(t)
    decreases |actions|
  {
    hide Keyed, Served, NoneBlocked, Collected, Next;
    if actions != [] {
      var front := actions[..|actions| - 1];
      assert forall i :: 0 <= i <= |front| ==> front[..i] == actions[..i];
      BlocksKeepOut(s, front, lists[..|lists| - 1]);
      NextKeepsOut(RunSystem(s, front), actions[|actions| - 1]);
    }
  }

  lemma NoBlocks(s: System)
    ensures AreBlocks(s, [], Lists([])) && RunSystem(s, []) == s
  {
  }

  lemma OneBlockMore(s: System, actions: seq<Action>, lists: seq<seq<IpBlock.Rule>>, ips: seq<IpBlock.Rule>, collected: map<int, seq<Node>>)
    requires AreBlocks(s, actions, lists) && Collected(RunSystem(s, actions), Block(ips, collected))
    ensures var more := actions + [Block(ips, collected)];
            && AreBlocks(s, more, lists + [ips])
            && RunSystem(s, more) == Next(RunSystem(s, actions), Block(ips, collected))
  {
    hide Collected, Next;
    var more := actions + [Block(ips, collected)];
    assert forall i :: 0 <= i <= |actions| ==> more[..i] == actions[..i];
    assert actions[..|actions|] == actions;
  }

  lemma OneRequestMore(s: System, actions: seq<Action>, msgs: seq<Request>, m: Request, collected: map<int, seq<Node>>)
    requires AreBlocks(s, actions, Lists(msgs))
    requires m.BlockUsers? ==> Collected(RunSystem(s, actions), Block(m.ips, collected))
    ensures if m.BlockUsers? then
              var more := actions + [Block(m.ips, collected)];
              AreBlocks(s, more, Lists(msgs + [m])) && RunSystem(s, more) == Next(RunSystem(s, actions), Block(m.ips, collected))
            else AreBlocks(s, actions, Lists(msgs + [m]))
  {
    hide AreBlocks, Collected, Next, RunSystem;
    assert (msgs + [m])[..|msgs|] == msgs;
    if m.BlockUsers? {
      OneBlockMore(s, actions, Lists(msgs), m.ips, collected);
    } else {
      assert Lists(msgs) + [] == Lists(msgs);
    }
  }

  lemma HandledIs(msgs: seq<Request>, i: nat)
    requires i <= |msgs| && forall j :: 0 <= j < i ==> !msgs[j].Failing?
    requires i < |msgs| ==> msgs[i].Failing?
    ensures Handled(msgs) == i
  {
    hide Handled;
  }

  /** What has been collected for later groups does not matter to the earlier ones. */
  lemma {:induction false} DepartAgrees(s: System, order: seq<int>, a: map<int, seq<Node>>, b: map<int, seq<Node>>)
    requires forall g :: g in order ==> g in a && g in b && a[g] == b[g]
    ensures DepartAll(s, order, a) == DepartAll(s, order, b)
    decreases |order|
  {
    hide Depart;
    if order != [] {
      DepartAgrees(s, order[..|order| - 1], a, b);
    }
  }

  lemma DepartNext(s: System, order: seq<int>, i: nat, collected: map<int, seq<Node>>, rm: seq<Node>)
    requires i < |order| && order[i] in DepartAll(s, order[..i], collected).groups
    requires forall j :: 0 <= j < i ==> order[j] in collected && order[j] != order[i]
    ensures DepartAll(s, order[..i + 1], collected[order[i] := rm]) == Depart(DepartAll(s, order[..i], collected), order[i], rm)
  {
    hide Depart;
    var more := collected[order[i] := rm];
    DepartAgrees(s, order[..i], collected, more);
    assert order[..i + 1][..i] == order[..i];
  }
}