/** Users that are kept apart in the network are kept apart in the GUI's copies. */
module Lookahead {
  import opened Wrappers
  import opened UserKeys
  import opened Lobby
  import opened Protocol
  import opened Replay
  import opened Gui
  import opened LobbySystem
  import opened Ownership
  import opened ViewModel
  import ModelCopy

  /** The users of all groups, as the network thread has them. */
  function NetworkUsers(s: System): map<int, Users> {
    map g | g in s.groups :: s.groups[g].house.users
  }

  /** The users that the previous copy will hold when it has taken these messages in. */
  function UsersAhead(s: System, ts: seq<Tagged>): map<int, Users> {
    map g | g in s.groups && g in s.gui.prev :: Fold(s.gui.prev[g].house, Only(ts, g)).users
  }

  /** At every moment from now until the GUI has caught up, the users are kept apart. */
  ghost predicate Ahead(s: System) {
    forall n :: 0 <= n <= |Pending(s)| ==> Separate(UsersAhead(s, Pending(s)[..n]))
  }

  /** c has the users of a, apart from node k, whose user has no name or is that of a or of b. */
  ghost predicate Between(a: Users, b: Users, k: Option<Node>, c: Users) {
    && (forall j :: j != k ==> (j in c <==> j in a) && (j in c ==> c[j].id == a[j].id))
    && (k in c ==>
          && c[k].id.node == k && (k in a || k in b)
          && (c[k].id.idStr == "" || (k in a && c[k].id == a[k].id) || (k in b && c[k].id == b[k].id)))
  }

  /** All that Separate says of a group g that holds c: no node of another group, and no name twice. */
  lemma WithGroup(hs: map<int, Users>, g: int, c: Users)
    requires g in hs && Separate(hs)
    requires forall k :: k in c ==> k.Some? && c[k].id.node == k
    requires forall x, j :: x in hs && x != g && j in hs[x] ==> j !in c
    requires forall i, j :: i in c && j in c && c[i].id.idStr == c[j].id.idStr != "" ==> i == j
    ensures Separate(hs[g := c])
  {
  }

  lemma BetweenIsSeparate(hs: map<int, Users>, g: int, k: Option<Node>, b: Users, c: Users)
    requires g in hs && k.Some? && Separate(hs) && Separate(hs[g := b]) && Between(hs[g], b, k, b) && Between(hs[g], b, k, c)
    ensures Separate(hs[g := c])
  {
    var a := hs[g];
    assert hs[g := b][g] == b;
    SeparateGroup(hs, g);
    SeparateGroup(hs[g := b], g);
    hide Separate;
    forall x, j | x in hs && x != g && j in hs[x]
      ensures j !in c
    {
      assert hs[g := b][x] == hs[x] && j !in a && j !in b;
    }
    forall l | l in c && l != k && k in c && c[k].id.idStr != ""
      ensures c[l].id.idStr != c[k].id.idStr
    {
      assert l in a && l in b;
    }
    WithGroup(hs, g, c);
  }

  lemma SeparateGroup(hs: map<int, Users>, g: int)
    requires g in hs && Separate(hs)
    ensures forall k :: k in hs[g] ==> k.Some? && hs[g][k].id.node == k
    ensures forall x, j :: x in hs && x != g && j in hs[x] ==> j !in hs[g]
    ensures forall i, j :: i in hs[g] && j in hs[g] && hs[g][i].id.idStr == hs[g][j].id.idStr != "" ==> i == j
  {
  }

  /** The message is about the user at node k and brings no name but the one that the user has in b. */
  predicate AboutNode(m: Message, k: Option<Node>, b: Users) {
    match m
    case UserMessage(u) => u.id.node == k && k in b && (u.id.idStr != "" ==> b[k].id == u.id)
    case UserLeft(u) => u.id.node == k
    case _ => true
  }

  ghost predicate AllAbout(ms: seq<Message>, k: Option<Node>, b: Users) {
    forall i :: 0 <= i < |ms| ==> AboutNode(ms[i], k, b)
  }

  lemma {:induction false} FoldBetween(h: House, ms: seq<Message>, k: Option<Node>, b: Users)
    requires WellKeyed(h) && AllAbout(ms, k, b)
    ensures Between(h.users, b, k, Fold(h, ms).users)
    decreases |ms|
  {
    if ms != [] {
      FoldBetween(h, ms[..|ms| - 1], k, b);
      assert AboutNode(ms[|ms| - 1], k, b);
    }
  }

  lemma AboutConcat(a: seq<Message>, b: seq<Message>, k: Option<Node>, users: Users)
    requires AllAbout(a, k, users) && AllAbout(b, k, users)
    ensures AllAbout(a + b, k, users)
  {
  }

  lemma UpdateIsAbout(h: House, was: User, upd: User, users: Users)
    requires was.id.node in users && (upd.id.idStr != "" ==> users[was.id.node].id == Protocol.Keyed(was, upd).id)
    ensures AllAbout(UserUpdate(h, was, upd).sent, was.id.node, users)
  {
    var first := IdSettled(h, was, upd);
    assert AllAbout(first.sent, was.id.node, users);
    assert AllAbout(RoomLeft(first.house, was, upd).sent, was.id.node, users);
  }

  lemma InsertedIsAbout(h: House, n: Node, payload: string, users: Users)
    ensures Some(n) in users ==> AllAbout(Inserted(h, n, payload).sent, Some(n), users)
    ensures Some(n) in h.users ==> Inserted(h, n, payload) == Out(h, [])
    ensures Some(n) in Inserted(h, n, payload).house.users
  {
  }

  lemma StepIsAbout(g: Group, e: Event)
    requires WellKeyed(g.house)
    ensures AllAbout(Handle(g, e).1, Actor(e), Handle(g, e).0.house.users)
  {
    hide UserUpdate, Inserted;
    var users := Handle(g, e).0.house.users;
    match e
    case NodeAdded(n, payload, isSelf) =>
      InsertedIsAbout(g.house, n, payload, users);
      var i := Inserted(g.house, n, payload);
      ReplayInserted(g.house, n, payload);
      if isSelf {
        var was := i.house.users[Some(n)];
        ReplayUserUpdate(i.house, was, g.self);
        UpdateIsAbout(i.house, was, g.self, users);
        AboutConcat(i.sent, SelfJoined(g.(house := i.house), n).1, Some(n), users);
      }
    case UserInfo(from, user) =>
      if Some(from) in g.house.users {
        var was := g.house.users[Some(from)];
        ReplayUserUpdate(g.house, was, user);
        UpdateIsAbout(g.house, was, user, users);
      }
    case _ =>
  }

  /** A step that leaves the users of the network apart passes through no state in which they are not. */
  lemma StepStaysSeparate(s: System, g: int, e: Event, j: nat)
    requires g in s.groups && WellKeyed(s.groups[g].house) && Announced(s.groups[g], e)
    requires Separate(NetworkUsers(s)) && Separate(NetworkUsers(s)[g := Handle(s.groups[g], e).0.house.users])
    requires j <= |Handle(s.groups[g], e).1|
    ensures Separate(NetworkUsers(s)[g := Fold(s.groups[g].house, Handle(s.groups[g], e).1[..j]).users])
  {
    hide Handle, Separate, AllAbout, Between, Announced;
    var h, k, sent := s.groups[g].house, Actor(e), Handle(s.groups[g], e).1;
    var after := Handle(s.groups[g], e).0.house.users;
    StepReplays(s.groups[g], e);
    StepIsAbout(s.groups[g], e);
    FoldBetween(h, sent, k, after);
    AboutPrefix(sent, j, k, after);
    FoldBetween(h, sent[..j], k, after);
    if e.SelfInfo? {
      NothingSent(s.groups[g], e);
      assert NetworkUsers(s)[g := h.users] == NetworkUsers(s);
    } else {
      BetweenIsSeparate(NetworkUsers(s), g, k, after, Fold(h, sent[..j]).users);
    }
  }

  lemma NothingSent(g: Group, e: Event)
    requires e.SelfInfo?
    ensures Handle(g, e).1 == []
  {
  }

  lemma AboutPrefix(ms: seq<Message>, n: nat, k: Option<Node>, users: Users)
    requires AllAbout(ms, k, users) && n <= |ms|
    ensures AllAbout(ms[..n], k, users)
  {
  }

  /** Fewer users are apart if the users were. */
  lemma FewerAreSeparate(hs: map<int, Users>, g: int, c: Users)
    requires g in hs && Separate(hs) && forall k :: k in c ==> k in hs[g] && c[k].id == hs[g][k].id
    ensures Separate(hs[g := c])
  {
  }

  ghost predicate OnlyDepartures(ms: seq<Message>) {
    forall i :: 0 <= i < |ms| ==> ms[i].UserLeft? || ms[i].RoomRemove?
  }

  lemma {:induction false} DeparturesOnlySend(g: Group, rm: seq<Node>)
    ensures OnlyDepartures(Run(g, Departures(rm)).1)
    decreases |rm|
  {
    if rm != [] {
      var front := rm[..|rm| - 1];
      assert Departures(rm)[..|rm| - 1] == Departures(front);
      DeparturesOnlySend(g, front);
    }
  }

  lemma {:induction false} DeparturesOnlyRemove(h: House, ms: seq<Message>)
    requires OnlyDepartures(ms)
    ensures forall k :: k in Fold(h, ms).users ==> k in h.users && Fold(h, ms).users[k] == h.users[k]
    decreases |ms|
  {
    if ms != [] {
      assert OnlyDepartures(ms[..|ms| - 1]) && (ms[|ms| - 1].UserLeft? || ms[|ms| - 1].RoomRemove?);
      DeparturesOnlyRemove(h, ms[..|ms| - 1]);
    }
  }

  /** What has been sent so far leads, message by message, from the network's users before to those
      after. */
  lemma SendKeepsAhead(s: System, g: int, group: Group, sent: seq<Message>)
    requires Ahead(s) && Synced(s) && g in s.groups
    requires forall j :: 0 <= j <= |sent| ==> Separate(NetworkUsers(s)[g := Fold(s.groups[g].house, sent[..j]).users])
    ensures Ahead(s.(groups := s.groups[g := group], queue := s.queue + Tag(g, sent)))
  {
    hide Separate, Fold, Only, Synced, Tag;
    var s' := s.(groups := s.groups[g := group], queue := s.queue + Tag(g, sent));
    var pending := Pending(s);
    assert Pending(s') == pending + Tag(g, sent);
    forall n | 0 <= n <= |Pending(s')|
      ensures Separate(UsersAhead(s', Pending(s')[..n]))
    {
      if n <= |pending| {
        assert Pending(s')[..n] == pending[..n];
        assert UsersAhead(s', pending[..n]) == UsersAhead(s, pending[..n]);
      } else {
        var j := n - |pending|;
        TagPrefix(g, sent, j);
        assert Pending(s')[..n] == pending + Tag(g, sent)[..j];
        AheadOfQueue(s, g, sent[..j]);
        assert UsersAhead(s', Pending(s')[..n]) == UsersAhead(s, Pending(s')[..n]);
      }
    }
  }

  lemma TagPrefix(g: int, sent: seq<Message>, j: nat)
    ensures |Tag(g, sent)| == |sent|
    ensures j <= |sent| ==> Tag(g, sent)[..j] == Tag(g, sent[..j])
  {
  }

  lemma SyncedFold(s: System, h: int)
    requires Synced(s) && h in s.groups
    ensures h in s.gui.prev && Fold(s.gui.prev[h].house, Only(Pending(s), h)) == s.groups[h].house
  {
    assert GroupSynced(s.gui.prev[h], s.groups[h], Only(Pending(s), h));
  }

  lemma AheadOfQueue(s: System, g: int, ms: seq<Message>)
    requires Synced(s) && g in s.groups
    ensures UsersAhead(s, Pending(s) + Tag(g, ms)) == NetworkUsers(s)[g := Fold(s.groups[g].house, ms).users]
  {
    hide GroupSynced, Only, Tag, Fold, Synced;
    var ts := Pending(s) + Tag(g, ms);
    var ahead, expected := UsersAhead(s, ts), NetworkUsers(s)[g := Fold(s.groups[g].house, ms).users];
    forall h | h in s.groups
      ensures h in ahead && h in expected && ahead[h] == expected[h]
    {
      SyncedFold(s, h);
      NothingFolds(s.groups[h].house);
      OnlyConcat(Pending(s), Tag(g, ms), h);
      OnlyTag(g, ms, h);
      FoldConcat(s.gui.prev[h].house, Only(Pending(s), h), Only(Tag(g, ms), h));
    }
    assert ahead.Keys == expected.Keys;
  }

  lemma NetworkKeepsAhead(s: System, g: int, e: Event)
    requires Ahead(s) && Synced(s) && Told(s, Network(g, e))
    requires Separate(NetworkUsers(s)) && Separate(NetworkUsers(Next(s, Network(g, e))))
    ensures Ahead(Next(s, Network(g, e)))
  {
    hide Ahead, Separate, Fold, Handle;
    if g in s.groups && !Refused(s.rules, e) {
      assert GroupSynced(s.gui.prev[g], s.groups[g], Only(Pending(s), g));
      var (group, sent) := Handle(s.groups[g], e);
      assert NetworkUsers(Next(s, Network(g, e))) == NetworkUsers(s)[g := group.house.users];
      forall j | 0 <= j <= |sent|
        ensures Separate(NetworkUsers(s)[g := Fold(s.groups[g].house, sent[..j]).users])
      {
        StepStaysSeparate(s, g, e, j);
      }
      SendKeepsAhead(s, g, group, sent);
    }
  }

  lemma DepartKeepsAhead(s: System, g: int, rm: seq<Node>)
    requires Ahead(s) && Synced(s) && g in s.groups && Separate(NetworkUsers(s))
    ensures Ahead(Depart(s, g, rm)) && Separate(NetworkUsers(Depart(s, g, rm)))
  {
    hide Ahead, Separate, Fold, Run;
    assert GroupSynced(s.gui.prev[g], s.groups[g], Only(Pending(s), g));
    var (group, sent) := Run(s.groups[g], Departures(rm));
    DeparturesRemove(s.groups[g], rm);
    RunReplays(s.groups[g], Departures(rm));
    DeparturesOnlySend(s.groups[g], rm);
    forall j | 0 <= j <= |sent|
      ensures Separate(NetworkUsers(s)[g := Fold(s.groups[g].house, sent[..j]).users])
    {
      assert OnlyDepartures(sent[..j]);
      DeparturesOnlyRemove(s.groups[g].house, sent[..j]);
      FewerAreSeparate(NetworkUsers(s), g, Fold(s.groups[g].house, sent[..j]).users);
    }
    assert sent[..|sent|] == sent;
    assert NetworkUsers(Depart(s, g, rm)) == NetworkUsers(s)[g := group.house.users];
    SendKeepsAhead(s, g, group, sent);
  }

  lemma {:induction false} DepartAllKeepsAhead(s: System, order: seq<int>, collected: map<int, seq<Node>>)
    requires Ahead(s) && Synced(s) && Separate(NetworkUsers(s))
    ensures Ahead(DepartAll(s, order, collected)) && Separate(NetworkUsers(DepartAll(s, order, collected)))
    decreases |order|
  {
    hide Ahead, Separate, Synced, Depart;
    if order != [] {
      var front, g := order[..|order| - 1], order[|order| - 1];
      DepartAllKeepsAhead(s, front, collected);
      DepartAllKeepsSynced(s, front, collected);
      var s1 := DepartAll(s, front, collected);
      if g in s1.groups && g in collected {
        DepartKeepsAhead(s1, g, collected[g]);
      }
    }
  }

  lemma HandleKeepsAhead(s: System, host: Host)
    requires Ahead(s) && Synced(s) && s.batch != []
    ensures Ahead(Next(s, HandleNext(host)))
  {
    hide Separate, Fold, Only, Synced;
    var t, s' := s.batch[0], Next(s, HandleNext(host));
    assert Pending(s) == [t] + Pending(s');
    forall n | 0 <= n <= |Pending(s')|
      ensures Separate(UsersAhead(s', Pending(s')[..n]))
    {
      var rest := Pending(s')[..n];
      assert Pending(s)[..n + 1] == [t] + rest;
      OneLess(s, host, rest);
    }
  }

  lemma OneLess(s: System, host: Host, rest: seq<Tagged>)
    requires Synced(s) && s.batch != []
    ensures UsersAhead(Next(s, HandleNext(host)), rest) == UsersAhead(s, [s.batch[0]] + rest)
  {
    var t, s' := s.batch[0], Next(s, HandleNext(host));
    assert Pending(s) == [t] + Pending(s');
    forall g | g in s.groups
      ensures g in s'.gui.prev && Fold(s'.gui.prev[g].house, Only(rest, g)) == Fold(s.gui.prev[g].house, Only([t] + rest, g))
    {
      assert GroupSynced(s.gui.prev[g], s.groups[g], Only(Pending(s), g));
      OnlyFirst(t, rest, g);
      OnlyFirst(t, Pending(s'), g);
      PrevTakes(s, host, g);
      FoldConcat(s.gui.prev[g].house, if t.grp == g then [t.msg] else [], Only(rest, g));
    }
  }

  lemma PrevTakes(s: System, host: Host, g: int)
    requires s.batch != [] && g in s.gui.prev && WellKeyed(s.gui.prev[g].house)
    requires AllInOrder(s.gui.prev[g].house, (if s.batch[0].grp == g then [s.batch[0].msg] else []) + Only(s.batch[1..] + s.queue, g))
    ensures var prev' := Next(s, HandleNext(host)).gui.prev;
            g in prev' && prev'[g].house == Fold(s.gui.prev[g].house, if s.batch[0].grp == g then [s.batch[0].msg] else [])
  {
    var t, copy := s.batch[0], s.gui.prev[g];
    if t.grp == g {
      InOrderPrefix(copy.house, [t.msg], Only(s.batch[1..] + s.queue, g));
      OneInOrder(copy.house, t.msg);
      FoldOne(copy.house, t.msg);
      ModelCopy.ApplyOnHouse(copy, t.msg);
    }
  }

  lemma NextKeepsAhead(s: System, a: Action)
    requires Ahead(s) && Synced(s) && Told(s, a)
    requires Separate(NetworkUsers(s)) && Separate(NetworkUsers(Next(s, a)))
    ensures Ahead(Next(s, a))
  {
    hide Separate, Synced, UsersAhead;
    match a
    case Network(g, e) => NetworkKeepsAhead(s, g, e);
    case Block(rules, collected) =>
      var s1 := s.(rules := s.rules + rules);
      SameAhead(s, s1);
      SameSynced(s, s1);
      assert NetworkUsers(s1) == NetworkUsers(s);
      DepartAllKeepsAhead(s1, s.adapters, collected);
    case Collect => SameAhead(s, Next(s, a));
    case HandleNext(host) =>
      if s.batch != [] {
        HandleKeepsAhead(s, host);
      }
  }

  lemma SameAhead(s: System, s1: System)
    requires Ahead(s) && s1.groups == s.groups && s1.gui == s.gui && Pending(s1) == Pending(s)
    ensures Ahead(s1)
  {
    assert forall ts: seq<Tagged> :: UsersAhead(s1, ts) == UsersAhead(s, ts);
  }

  lemma SameSynced(s: System, s1: System)
    requires Synced(s) && s1.groups == s.groups && s1.gui == s.gui && Pending(s1) == Pending(s)
    ensures Synced(s1)
  {
  }

  /** In particular the users that the GUI holds now are apart. */
  lemma CopiesAreSeparate(s: System)
    requires Ahead(s) && SameButRooms(s.gui.cur, s.gui.prev) && s.gui.prev.Keys == s.groups.Keys
    ensures Separate(UsersOf(s.gui.cur))
  {
    assert Pending(s)[..0] == [];
    var hs := UsersAhead(s, []);
    assert Separate(hs);
    assert forall g :: g in s.gui.prev ==> hs[g] == s.gui.prev[g].house.users;
    SameIdsSeparate(hs, UsersOf(s.gui.cur));
  }

  lemma SameIdsSeparate(hs: map<int, Users>, hs': map<int, Users>)
    requires Separate(hs) && hs'.Keys == hs.Keys
    requires forall g :: g in hs ==> hs'[g].Keys == hs[g].Keys && forall k :: k in hs[g] ==> hs'[g][k].id == hs[g][k].id
    ensures Separate(hs')
  {
  }
}
