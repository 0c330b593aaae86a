/** The user view as a value: one item per name, one item per user that has no name yet, and with
    each item its feeds, the groups it stands for. Functions on values; the UsersView class is proved
    to do exactly this. */
module ViewModel {
  import opened Wrappers
  import opened UserKeys
  import opened Lobby
  import opened Gui
  import ModelCopy
  import Protocol
  import Replay

  type Feeds = map<int, UserKey>

  datatype View = View(named: map<string, Feeds>, unnamed: seq<(UserKey, Feeds)>)

  const EMPTY_VIEW := View(map[], [])

  /** The position of the first entry under the same key, or the length of the list. */
  function IndexOf<T>(list: seq<(UserKey, T)>, id: UserKey): (i: nat)
    ensures i <= |list|
    ensures i < |list| ==> id.Same(list[i].0)
    ensures forall j :: 0 <= j < i ==> !id.Same(list[j].0)
  {
    if list == [] || id.Same(list[0].0) then 0 else 1 + IndexOf(list[1..], id)
  }

  function Without<T>(list: seq<(UserKey, T)>, id: UserKey): seq<(UserKey, T)> {
    var i := IndexOf(list, id);
    if i == |list| then list else list[..i] + list[i + 1..]
  }

  /** A record was updated. A name, once known, replaces the item that stood for the bare node. */
  function Updated(v: View, id: UserKey, g: int): View {
    if id.idStr != "" then
      var feeds := if id.idStr in v.named then v.named[id.idStr] else map[];
      View(v.named[id.idStr := feeds[g := id]], Without(v.unnamed, id))
    else
      var i := IndexOf(v.unnamed, id);
      if i < |v.unnamed|
      then v.(unnamed := v.unnamed[i := (v.unnamed[i].0, v.unnamed[i].1[g := id])])
      else v.(unnamed := v.unnamed + [(id, map[g := id])])
  }

  /** A record is gone. The item goes with its last feed. */
  function Removed(v: View, id: UserKey, g: int): View {
    if id.idStr != "" then
      if id.idStr !in v.named then v
      else
        var feeds := v.named[id.idStr] - {g};
        View(if feeds == map[] then v.named - {id.idStr} else v.named[id.idStr := feeds], Without(v.unnamed, id))
    else
      var i := IndexOf(v.unnamed, id);
      if i == |v.unnamed| then v
      else
        var feeds := v.unnamed[i].1 - {g};
        if feeds == map[] then v.(unnamed := Without(v.unnamed, id))
        else v.(unnamed := v.unnamed[i := (v.unnamed[i].0, feeds)])
  }

  /** A view shows everybody, or (unless `rid` is empty) the users of one room only. */
  function Refreshed(v: View, rid: string, u: User, g: int): View {
    if rid == "" || rid == u.body.roomId then Updated(v, u.id, g) else Removed(v, u.id, g)
  }

  /** A room message matters to the view if the room is new or its topic has changed. */
  predicate TopicChanged(cur: Copies, prev: Copies, t: Tagged)
    requires t.msg.RoomMessage?
  {
    var rid := t.msg.room.id;
    && t.grp in cur
    && !(rid in cur[t.grp].house.rooms && t.grp in prev && rid in prev[t.grp].house.rooms
         && cur[t.grp].house.rooms[rid].body.topic == prev[t.grp].house.rooms[rid].body.topic)
  }

  /** Then the users of the room are looked up and updated, one after the other. */
  function RefreshedAll(v: View, rid: string, c: ModelCopy.Copy, g: int, ids: seq<UserKey>): View
    decreases |ids|
  {
    if ids == [] then v
    else
      var v1 := RefreshedAll(v, rid, c, g, ids[..|ids| - 1]);
      var found := ModelCopy.Find(c, ids[|ids| - 1]);
      if found.Some? then Refreshed(v1, rid, found.value, g) else v1
  }

  /** `ids` lists the users in the room, each once: in which order is up to the list of the house. */
  ghost predicate ListsRoom(cur: Copies, prev: Copies, t: Tagged, ids: seq<UserKey>) {
    t.msg.RoomMessage? && TopicChanged(cur, prev, t) ==>
      var users := cur[t.grp].house.users;
      && (forall id :: id in ids <==> id.node in users && users[id.node].body.roomId == t.msg.room.id && users[id.node].id == id)
      && (forall i, j :: 0 <= i < j < |ids| ==> ids[i].node != ids[j].node)
  }

  /** What the view does with a message after the current copy has taken it in and before the previous
      one has: an update is looked up in the current copy, a departure is taken as it is, and a change
      of topic refreshes the users of the room, in the order of `ids`. */
  function Handled(v: View, rid: string, cur: Copies, prev: Copies, t: Tagged, ids: seq<UserKey>): View {
    match t.msg
    case UserMessage(u) =>
      if t.grp in cur && ModelCopy.Find(cur[t.grp], u.id).Some?
      then Refreshed(v, rid, ModelCopy.Find(cur[t.grp], u.id).value, t.grp) else v
    case UserLeft(u) => Removed(v, u.id, t.grp)
    case RoomMessage(_) => if TopicChanged(cur, prev, t) then RefreshedAll(v, rid, cur[t.grp], t.grp, ids) else v
    case _ => v
  }

  type Named = map<string, Feeds>

  type Unnamed = seq<(UserKey, Feeds)>

  /** Every named user is behind the item of its name, as that item's feed of its group. */
  ghost predicate NamesShown(hs: map<int, Users>, named: Named) {
    forall g, k :: g in hs && k in hs[g] && hs[g][k].id.idStr != "" ==> HasFeed(named, hs[g][k].id, g)
  }

  ghost predicate HasFeed(named: Named, id: UserKey, g: int) {
    id.idStr in named && g in named[id.idStr] && named[id.idStr][g] == id
  }

  /** Every item with a name has feeds, and each feed is a user of its group with that name. */
  ghost predicate ItemsNamed(hs: map<int, Users>, named: Named) {
    && (forall s :: s in named ==> s != "" && named[s] != map[])
    && (forall s, g :: s in named && g in named[s] ==> FeedIs(hs, g, named[s][g], s))
  }

  ghost predicate FeedIs(hs: map<int, Users>, g: int, id: UserKey, s: string) {
    g in hs && id.node in hs[g] && hs[g][id.node].id == id && id.idStr == s
  }

  ghost predicate Single(hs: map<int, Users>, e: (UserKey, Feeds), g: int) {
    FeedIs(hs, g, e.0, "") && e.1 == map[g := e.0]
  }

  ghost predicate IsSingle(hs: map<int, Users>, e: (UserKey, Feeds)) {
    exists g :: Single(hs, e, g)
  }

  /** Every item without a name is one unnamed user, and no two items are the same one. */
  ghost predicate ItemsUnnamed(hs: map<int, Users>, unnamed: Unnamed) {
    (forall e :: e in unnamed ==> IsSingle(hs, e)) && OneEach(unnamed)
  }

  ghost predicate OneEach(unnamed: Unnamed) {
    forall i, j :: 0 <= i < j < |unnamed| ==> unnamed[i].0.node != unnamed[j].0.node
  }

  /** Every unnamed user has an item. */
  ghost predicate UnnamedShown(hs: map<int, Users>, unnamed: Unnamed) {
    forall g, k :: g in hs && k in hs[g] && hs[g][k].id.idStr == "" ==> HasEntry(unnamed, k)
  }

  ghost predicate HasEntry(unnamed: Unnamed, k: Option<Node>) {
    exists e :: e in unnamed && e.0.node == k
  }

  ghost predicate Shows(hs: map<int, Users>, v: View) {
    && NamesShown(hs, v.named) && ItemsNamed(hs, v.named)
    && ItemsUnnamed(hs, v.unnamed) && UnnamedShown(hs, v.unnamed)
  }

  /** Users by node within a group, no node in two groups, and no name twice in a group. */
  ghost predicate Separate(hs: map<int, Users>) {
    && (forall g, k :: g in hs && k in hs[g] ==> k.Some? && hs[g][k].id.node == k)
    && (forall g, h, k :: g in hs && h in hs && k in hs[g] && k in hs[h] ==> g == h)
    && (forall g, j, k :: g in hs && j in hs[g] && k in hs[g] && hs[g][j].id.idStr == hs[g][k].id.idStr != "" ==> j == k)
  }

  /** The two states differ at node k of group g at most, as far as ids are concerned. */
  ghost predicate OnlyAt(hs: map<int, Users>, hs': map<int, Users>, g: int, k: Option<Node>) {
    && g in hs && hs'.Keys == hs.Keys
    && forall h, j :: h in hs && (h != g || j != k) ==>
         (j in hs'[h] <==> j in hs[h]) && (j in hs[h] ==> hs'[h][j].id == hs[h][j].id)
  }

  /** The record at id.node is now `id`; before, it was absent, unnamed, or had that id already. */
  ghost predicate Moved(hs: map<int, Users>, hs': map<int, Users>, g: int, id: UserKey) {
    && OnlyAt(hs, hs', g, id.node)
    && id.node in hs'[g] && hs'[g][id.node].id == id
    && (id.node in hs[g] ==> hs[g][id.node].id == id || hs[g][id.node].id.idStr == "")
  }

  /** The record at id.node, which was `id`, is gone. */
  ghost predicate Departed(hs: map<int, Users>, hs': map<int, Users>, g: int, id: UserKey) {
    && OnlyAt(hs, hs', g, id.node)
    && id.node !in hs'[g] && id.node in hs[g] && hs[g][id.node].id == id
  }

  lemma SetFeedNamed(hs: map<int, Users>, hs': map<int, Users>, named: Named, g: int, id: UserKey)
    requires NamesShown(hs, named) && ItemsNamed(hs, named) && Separate(hs) && Separate(hs')
    requires Moved(hs, hs', g, id) && id.idStr != ""
    ensures var feeds := if id.idStr in named then named[id.idStr] else map[];
            var named' := named[id.idStr := feeds[g := id]];
            NamesShown(hs', named') && ItemsNamed(hs', named')
  {
    var feeds := if id.idStr in named then named[id.idStr] else map[];
    var named' := named[id.idStr := feeds[g := id]];
    forall h, k | h in hs' && k in hs'[h] && hs'[h][k].id.idStr != ""
      ensures HasFeed(named', hs'[h][k].id, h)
    {
      if h != g || k != id.node {
        assert HasFeed(named, hs[h][k].id, h);
      }
    }
    forall s, h | s in named' && h in named'[s]
      ensures FeedIs(hs', h, named'[s][h], s)
    {
      if s != id.idStr || h != g {
        assert FeedIs(hs, h, named[s][h], s);
      }
    }
    assert g in named'[id.idStr];
  }

  /** An unnamed user does not touch the items with names. */
  lemma KeepNamed(hs: map<int, Users>, hs': map<int, Users>, named: Named, g: int, k: Option<Node>)
    requires NamesShown(hs, named) && ItemsNamed(hs, named) && OnlyAt(hs, hs', g, k)
    requires k in hs[g] ==> hs[g][k].id.idStr == ""
    requires k in hs'[g] ==> hs'[g][k].id.idStr == ""
    ensures NamesShown(hs', named) && ItemsNamed(hs', named)
  {
    forall h, j | h in hs' && j in hs'[h] && hs'[h][j].id.idStr != ""
      ensures HasFeed(named, hs'[h][j].id, h)
    {
      assert HasFeed(named, hs[h][j].id, h);
    }
    forall s, h | s in named && h in named[s]
      ensures FeedIs(hs', h, named[s][h], s)
    {
      assert FeedIs(hs, h, named[s][h], s);
    }
  }

  function WithoutFeed(named: Named, s: string, g: int): Named
    requires s in named
  {
    var feeds := named[s] - {g};
    if feeds == map[] then named - {s} else named[s := feeds]
  }

  lemma FeedsLeft(named: Named, s: string, g: int)
    requires s in named
    ensures forall t, h :: t in named && h in named[t] && (t != s || h != g) ==>
              t in WithoutFeed(named, s, g) && h in WithoutFeed(named, s, g)[t] && WithoutFeed(named, s, g)[t][h] == named[t][h]
    ensures forall t, h :: t in WithoutFeed(named, s, g) && h in WithoutFeed(named, s, g)[t] ==>
              t in named && h in named[t] && (t != s || h != g) && WithoutFeed(named, s, g)[t][h] == named[t][h]
  {
    forall h | h in named[s] && h != g
      ensures s in WithoutFeed(named, s, g)
    {
      assert h in named[s] - {g};
    }
  }

  lemma EraseFeedNamed(hs: map<int, Users>, hs': map<int, Users>, named: Named, g: int, id: UserKey)
    requires NamesShown(hs, named) && ItemsNamed(hs, named) && Separate(hs)
    requires Departed(hs, hs', g, id) && id.idStr != ""
    ensures id.idStr in named
    ensures NamesShown(hs', WithoutFeed(named, id.idStr, g)) && ItemsNamed(hs', WithoutFeed(named, id.idStr, g))
  {
    assert HasFeed(named, hs[g][id.node].id, g);
    FeedsLeft(named, id.idStr, g);
    var named' := WithoutFeed(named, id.idStr, g);
    forall s | s in named'
      ensures s != "" && named'[s] != map[]
    {
    }
    hide WithoutFeed;
    forall h, k | h in hs' && k in hs'[h] && hs'[h][k].id.idStr != ""
      ensures HasFeed(named', hs'[h][k].id, h)
    {
      assert k in hs[h] && HasFeed(named, hs[h][k].id, h);
    }
    forall s, h | s in named' && h in named'[s]
      ensures FeedIs(hs', h, named'[s][h], s)
    {
      assert FeedIs(hs, h, named[s][h], s);
    }
  }

  lemma {:induction false} IndexOfFinds(list: Unnamed, id: UserKey)
    requires id.node.Some?
    ensures IndexOf(list, id) < |list| <==> HasEntry(list, id.node)
  {
    var i := IndexOf(list, id);
    if i < |list| {
      assert list[i] in list;
    }
  }

  lemma WithoutEntry(list: Unnamed, id: UserKey)
    requires OneEach(list) && id.node.Some?
    ensures OneEach(Without(list, id))
    ensures forall e :: e in Without(list, id) <==> e in list && e.0.node != id.node
  {
    var i := IndexOf(list, id);
    var less := Without(list, id);
    if i < |list| {
      assert forall j :: 0 <= j < |less| ==> less[j] == if j < i then list[j] else list[j + 1];
      forall e | e in list && e.0.node != id.node
        ensures e in less
      {
        var j :| 0 <= j < |list| && list[j] == e;
        assert e == less[if j < i then j else j - 1];
      }
    }
  }

  lemma KeepSingle(hs: map<int, Users>, hs': map<int, Users>, e: (UserKey, Feeds), g: int, k: Option<Node>)
    requires IsSingle(hs, e) && OnlyAt(hs, hs', g, k) && e.0.node != k
    ensures IsSingle(hs', e)
  {
    var h :| Single(hs, e, h);
    assert Single(hs', e, h);
  }

  /** A user that got its name or left does not need the item of its bare node. */
  lemma DropUnnamed(hs: map<int, Users>, hs': map<int, Users>, unnamed: Unnamed, g: int, id: UserKey)
    requires ItemsUnnamed(hs, unnamed) && UnnamedShown(hs, unnamed)
    requires OnlyAt(hs, hs', g, id.node) && id.node.Some?
    requires id.node in hs'[g] ==> hs'[g][id.node].id.idStr != ""
    requires forall h :: h in hs && h != g ==> id.node !in hs[h]
    ensures ItemsUnnamed(hs', Without(unnamed, id)) && UnnamedShown(hs', Without(unnamed, id))
  {
    var less := Without(unnamed, id);
    WithoutEntry(unnamed, id);
    forall e | e in less
      ensures IsSingle(hs', e)
    {
      KeepSingle(hs, hs', e, g, id.node);
    }
    forall h, k | h in hs' && k in hs'[h] && hs'[h][k].id.idStr == ""
      ensures HasEntry(less, k)
    {
      assert HasEntry(unnamed, k);
      var e :| e in unnamed && e.0.node == k;
      assert e in less;
    }
  }

  lemma AddUnnamed(hs: map<int, Users>, hs': map<int, Users>, unnamed: Unnamed, g: int, id: UserKey)
    requires ItemsUnnamed(hs, unnamed) && UnnamedShown(hs, unnamed)
    requires Moved(hs, hs', g, id) && id.idStr == "" && id.node.Some?
    requires !HasEntry(unnamed, id.node)
    ensures var more := unnamed + [(id, map[g := id])]; ItemsUnnamed(hs', more) && UnnamedShown(hs', more)
  {
    var e0: (UserKey, Feeds) := (id, map[g := id]);
    var more := unnamed + [e0];
    assert Single(hs', e0, g);
    forall e | e in more
      ensures IsSingle(hs', e)
    {
      if e != e0 {
        assert e in unnamed;
        assert e.0.node != id.node;
        KeepSingle(hs, hs', e, g, id.node);
      }
    }
    forall i, j | 0 <= i < j < |more|
      ensures more[i].0.node != more[j].0.node
    {
      assert more[i] in unnamed;
    }
    forall h, k | h in hs' && k in hs'[h] && hs'[h][k].id.idStr == ""
      ensures HasEntry(more, k)
    {
      if h == g && k == id.node {
        assert e0 in more;
      } else {
        assert HasEntry(unnamed, k);
        var e :| e in unnamed && e.0.node == k;
        assert e in more;
      }
    }
  }

  lemma UpdateShown(hs: map<int, Users>, hs': map<int, Users>, v: View, g: int, id: UserKey)
    requires Shows(hs, v) && Separate(hs) && Separate(hs') && Moved(hs, hs', g, id)
    ensures Shows(hs', Updated(v, id, g))
  {
    if id.idStr != "" {
      SetFeedNamed(hs, hs', v.named, g, id);
      DropUnnamed(hs, hs', v.unnamed, g, id);
    } else {
      KeepNamed(hs, hs', v.named, g, id.node);
      IndexOfFinds(v.unnamed, id);
      if HasEntry(v.unnamed, id.node) {
        KeepUnnamed(hs, hs', v.unnamed, g, id);
      } else {
        AddUnnamed(hs, hs', v.unnamed, g, id);
      }
    }
  }

  lemma OwnEntry(hs: map<int, Users>, unnamed: Unnamed, g: int, id: UserKey)
    requires ItemsUnnamed(hs, unnamed) && g in hs && IndexOf(unnamed, id) < |unnamed| && id.idStr == ""
    requires forall h :: h in hs && h != g ==> id.node !in hs[h]
    ensures var e := unnamed[IndexOf(unnamed, id)];
            Single(hs, e, g) && e == (id, map[g := id])
  {
    var e := unnamed[IndexOf(unnamed, id)];
    assert e in unnamed;
    var h :| Single(hs, e, h);
    assert h == g;
    assert e.0 == id;
  }

  /** An unnamed user that is shown already: setting its feed again changes nothing. */
  lemma KeepUnnamed(hs: map<int, Users>, hs': map<int, Users>, unnamed: Unnamed, g: int, id: UserKey)
    requires ItemsUnnamed(hs, unnamed) && UnnamedShown(hs, unnamed)
    requires Moved(hs, hs', g, id) && id.idStr == "" && id.node.Some? && IndexOf(unnamed, id) < |unnamed|
    requires forall h :: h in hs && h != g ==> id.node !in hs[h]
    ensures var i := IndexOf(unnamed, id);
            var same := unnamed[i := (unnamed[i].0, unnamed[i].1[g := id])];
            ItemsUnnamed(hs', same) && UnnamedShown(hs', same)
  {
    hide Separate;
    var i := IndexOf(unnamed, id);
    OwnEntry(hs, unnamed, g, id);
    var own: (UserKey, Feeds) := (id, map[g := id]);
    assert own.1[g := id] == own.1;
    assert unnamed[i := own] == unnamed;
    assert Single(hs', own, g);
    forall e | e in unnamed
      ensures IsSingle(hs', e)
    {
      if e.0.node != id.node {
        KeepSingle(hs, hs', e, g, id.node);
      } else {
        var j :| 0 <= j < |unnamed| && unnamed[j] == e;
        assert j == i;
      }
    }
  }

  lemma DepartureShown(hs: map<int, Users>, hs': map<int, Users>, v: View, g: int, id: UserKey)
    requires Shows(hs, v) && Separate(hs) && Departed(hs, hs', g, id)
    ensures Shows(hs', Removed(v, id, g))
  {
    DropUnnamed(hs, hs', v.unnamed, g, id);
    if id.idStr != "" {
      EraseFeedNamed(hs, hs', v.named, g, id);
    } else {
      KeepNamed(hs, hs', v.named, g, id.node);
      assert HasEntry(v.unnamed, id.node);
      IndexOfFinds(v.unnamed, id);
      var e := v.unnamed[IndexOf(v.unnamed, id)];
      assert IsSingle(hs, e);
      var h :| Single(hs, e, h);
      assert h == g;
      assert e.1 - {g} == map[];
    }
  }

  /** The users of all groups of a copy. */
  function UsersOf(cs: Copies): map<int, Users> {
    map g | g in cs :: cs[g].house.users
  }

  lemma SameIdsShown(hs: map<int, Users>, hs': map<int, Users>, v: View)
    requires Shows(hs, v) && hs'.Keys == hs.Keys
    requires forall g :: g in hs ==> hs'[g].Keys == hs[g].Keys && forall k :: k in hs[g] ==> hs'[g][k].id == hs[g][k].id
    ensures Shows(hs', v)
  {
    forall s, g | s in v.named && g in v.named[s]
      ensures FeedIs(hs', g, v.named[s][g], s)
    {
      assert FeedIs(hs, g, v.named[s][g], s);
    }
    forall e | e in v.unnamed
      ensures IsSingle(hs', e)
    {
      assert IsSingle(hs, e);
      var g :| Single(hs, e, g);
      assert Single(hs', e, g);
    }
    forall g, k | g in hs' && k in hs'[g] && hs'[g][k].id.idStr != ""
      ensures HasFeed(v.named, hs'[g][k].id, g)
    {
      assert HasFeed(v.named, hs[g][k].id, g);
    }
    assert UnnamedShown(hs', v.unnamed);
  }

  lemma UserMessageMoves(cs: Copies, g: int, u: User)
    requires g in cs && WellKeyed(cs[g].house) && Replay.InOrder(cs[g].house, UserMessage(u))
    ensures var c' := ModelCopy.UserUpdated(cs[g], u);
            var found := ModelCopy.Find(c', u.id);
            && found.Some? && found.value.id.node == u.id.node
            && Moved(UsersOf(cs), UsersOf(cs[g := c']), g, found.value.id)
  {
  }

  lemma UserLeftMoves(cs: Copies, g: int, u: User)
    requires g in cs && Replay.InOrder(cs[g].house, UserLeft(u))
    ensures Departed(UsersOf(cs), UsersOf(cs[g := ModelCopy.UserErased(cs[g], u.id)]), g, u.id)
  {
  }

  /** The GUI and its user view after a batch of messages: the copy is updated first, then the view is
      told, then the message is acted on. `lists` gives, per message, the order in which the house lists
      a room's users. */
  function RunView(gui: Gui, v: View, host: Host, ts: seq<Tagged>, lists: seq<seq<UserKey>>): (Gui, View)
    requires |lists| == |ts|
    decreases |ts|
  {
    if ts == [] then (gui, v)
    else
      var n := |ts| - 1;
      var (gui1, v1) := RunView(gui, v, host, ts[..n], lists[..n]);
      (HandleOne(gui1, host, ts[n]), Notified(gui1, v1, ts[n], lists[n]))
  }

  /** The view is told of a message that is not dropped. */
  function Notified(gui: Gui, v: View, t: Tagged, ids: seq<UserKey>): View {
    if Filter(gui.seen, t.msg).0 then v else Handled(v, "", ApplyTo(gui.cur, t), gui.prev, t, ids)
  }

  /** t comes from an allowed group and is in order for the current copy. */
  ghost predicate Expected(gui: Gui, t: Tagged) {
    t.grp in gui.cur && WellKeyed(gui.cur[t.grp].house) && Replay.InOrder(gui.cur[t.grp].house, t.msg)
  }

  /** Whoever is compared by ids finds no difference. */
  ghost predicate SameIds(hs: map<int, Users>, hs': map<int, Users>) {
    && hs'.Keys == hs.Keys
    && forall g :: g in hs ==> hs'[g].Keys == hs[g].Keys && forall k :: k in hs[g] ==> hs'[g][k].id == hs[g][k].id
  }

  lemma OthersMoveNobody(cs: Copies, t: Tagged)
    requires !t.msg.UserMessage? && !t.msg.UserLeft?
    ensures UsersOf(ApplyTo(cs, t)) == UsersOf(cs)
  {
    if t.grp in cs {
      assert ModelCopy.Apply(cs[t.grp], t.msg).house.users == cs[t.grp].house.users;
    }
  }

  lemma ReserveKeepsIds(c: ModelCopy.Copy, sender: UserKey, rid: string)
    ensures var users, users' := c.house.users, Reserve(c, sender, rid).house.users;
            users'.Keys == users.Keys && forall k :: k in users ==> users'[k].id == users[k].id
  {
  }

  lemma JoinKeepsIds(cs: Copies, host: Host, grp: int, rid: string, password: string, sender: UserKey)
    ensures SameIds(UsersOf(cs), UsersOf(HandleJoin(cs, host, grp, rid, password, sender)))
  {
    hide Reserve, JudgeJoin;
    if grp in cs {
      ReserveKeepsIds(cs[grp], sender, rid);
    }
  }

  /** Acting on a message moves rooms at most. */
  lemma OnlyUsersMove(gui: Gui, host: Host, t: Tagged)
    requires !Filter(gui.seen, t.msg).0
    ensures t.msg.UserMessage? || t.msg.UserLeft? ==> HandleOne(gui, host, t).cur == ApplyTo(gui.cur, t)
    ensures !t.msg.UserMessage? && !t.msg.UserLeft? ==> SameIds(UsersOf(gui.cur), UsersOf(HandleOne(gui, host, t).cur))
  {
    hide ApplyTo, HandleJoin, UsersOf;
    if !t.msg.UserMessage? && !t.msg.UserLeft? {
      OthersMoveNobody(gui.cur, t);
      if t.msg.JoinRequest? {
        JoinKeepsIds(ApplyTo(gui.cur, t), host, t.grp, t.msg.roomId, t.msg.password, t.msg.sender);
      }
    }
  }

  lemma HandleOneShows(gui: Gui, v: View, host: Host, t: Tagged, ids: seq<UserKey>)
    requires Shows(UsersOf(gui.cur), v) && Expected(gui, t) && ListsRoom(ApplyTo(gui.cur, t), gui.prev, t, ids)
    requires Separate(UsersOf(gui.cur)) && Separate(UsersOf(HandleOne(gui, host, t).cur))
    requires !Filter(gui.seen, t.msg).0
    ensures Shows(UsersOf(HandleOne(gui, host, t).cur), Handled(v, "", ApplyTo(gui.cur, t), gui.prev, t, ids))
  {
    hide Shows, Separate, Moved, Departed, Updated, Removed, HandleOne, Filter, RefreshedAll, TopicChanged;
    var cur := ApplyTo(gui.cur, t);
    OnlyUsersMove(gui, host, t);
    match t.msg
    case UserMessage(u) =>
      UserMessageMoves(gui.cur, t.grp, u);
      UpdateShown(UsersOf(gui.cur), UsersOf(cur), v, t.grp, ModelCopy.Find(cur[t.grp], u.id).value.id);
    case UserLeft(u) =>
      UserLeftMoves(gui.cur, t.grp, u);
      DepartureShown(UsersOf(gui.cur), UsersOf(cur), v, t.grp, u.id);
    case RoomMessage(r) =>
      RoomMovesNobody(gui, host, t);
      if TopicChanged(cur, gui.prev, t) {
        RefreshAllIsIdle(cur, v, t.grp, ids);
      }
    case _ =>
      SameIdsShown(UsersOf(gui.cur), UsersOf(HandleOne(gui, host, t).cur), v);
  }

  lemma RoomMovesNobody(gui: Gui, host: Host, t: Tagged)
    requires t.msg.RoomMessage? && t.grp in gui.cur
    ensures HandleOne(gui, host, t).cur == ApplyTo(gui.cur, t)
    ensures UsersOf(ApplyTo(gui.cur, t)) == UsersOf(gui.cur)
  {
  }

  lemma DroppedChangesNoUsers(gui: Gui, host: Host, t: Tagged)
    requires Filter(gui.seen, t.msg).0
    ensures HandleOne(gui, host, t).cur == gui.cur
  {
  }

  /** What is expected of the messages of a run, in the states that they meet ... */
  ghost predicate AllExpected(gui: Gui, host: Host, ts: seq<Tagged>) {
    forall i :: 0 <= i < |ts| ==> Expected(HandleAll(gui, host, ts[..i]), ts[i])
  }

  ghost predicate AllListed(gui: Gui, host: Host, ts: seq<Tagged>, lists: seq<seq<UserKey>>) {
    |lists| == |ts| && forall i :: 0 <= i < |ts| ==> ListsRoom(ApplyTo(HandleAll(gui, host, ts[..i]).cur, ts[i]), HandleAll(gui, host, ts[..i]).prev, ts[i], lists[i])
  }

  /** ... and of the users at every moment. */
  ghost predicate AlwaysSeparate(gui: Gui, host: Host, ts: seq<Tagged>) {
    forall i :: 0 <= i <= |ts| ==> Separate(UsersOf(HandleAll(gui, host, ts[..i]).cur))
  }

  lemma AllButLast(gui: Gui, host: Host, ts: seq<Tagged>, lists: seq<seq<UserKey>>)
    requires ts != [] && AllExpected(gui, host, ts) && AllListed(gui, host, ts, lists) && AlwaysSeparate(gui, host, ts)
    ensures var n := |ts| - 1;
            var gui1 := HandleAll(gui, host, ts[..n]);
            && AllExpected(gui, host, ts[..n]) && AllListed(gui, host, ts[..n], lists[..n]) && AlwaysSeparate(gui, host, ts[..n])
            && Expected(gui1, ts[n]) && ListsRoom(ApplyTo(gui1.cur, ts[n]), gui1.prev, ts[n], lists[n])
            && Separate(UsersOf(gui1.cur)) && Separate(UsersOf(HandleAll(gui, host, ts).cur))
  {
    hide HandleAll, Expected, ListsRoom, Separate, ApplyTo;
    var n := |ts| - 1;
    assert forall i :: 0 <= i <= n ==> ts[..n][..i] == ts[..i];
    assert ts[..|ts|] == ts;
  }

  /** Through any run of messages over all groups, as long as names are unique within a group and no
      node is in two groups: there is exactly one item per known name, its feeds are exactly the
      groups that hold the name, and exactly one item per unnamed user. In which order a house lists the
      users of a room makes no difference. */
  lemma {:induction false} ViewFollowsModel(gui: Gui, host: Host, ts: seq<Tagged>, lists: seq<seq<UserKey>>)
    requires forall g :: g in gui.cur ==> gui.cur[g] == ModelCopy.EMPTY_COPY
    requires AllExpected(gui, host, ts) && AllListed(gui, host, ts, lists) && AlwaysSeparate(gui, host, ts)
    ensures var (gui', v') := RunView(gui, EMPTY_VIEW, host, ts, lists);
            gui' == HandleAll(gui, host, ts) && Shows(UsersOf(gui'.cur), v')
    decreases |ts|
  {
    if ts != [] {
      hide AllExpected, AllListed, AlwaysSeparate, Expected, ListsRoom, Separate, Shows, Filter, Handled, ApplyTo, HandleOne;
      var n := |ts| - 1;
      AllButLast(gui, host, ts, lists);
      AsMany(gui, host, ts, lists);
      ViewFollowsModel(gui, host, ts[..n], lists[..n]);
      var (gui1, v1) := RunView(gui, EMPTY_VIEW, host, ts[..n], lists[..n]);
      if Filter(gui1.seen, ts[n].msg).0 {
        DroppedChangesNoUsers(gui1, host, ts[n]);
      } else {
        HandleOneShows(gui1, v1, host, ts[n], lists[n]);
      }
    }
  }

  lemma AsMany(gui: Gui, host: Host, ts: seq<Tagged>, lists: seq<seq<UserKey>>)
    requires AllListed(gui, host, ts, lists)
    ensures |lists| == |ts|
  {
  }

  lemma AnyKey(m: Feeds) returns (g: int)
    requires m != map[]
    ensures g in m
  {
    assert (forall h :: h !in m) ==> m == map[];
    g :| g in m;
  }

  /** A room message makes the view update the users of that room again: in a view of everybody, that
      changes nothing. */
  lemma RefreshIsIdle(hs: map<int, Users>, v: View, g: int, k: Option<Node>)
    requires Shows(hs, v) && Separate(hs) && g in hs && k in hs[g]
    ensures Refreshed(v, "", hs[g][k], g) == v
  {
    hide ItemsNamed, ItemsUnnamed, NamesShown, UnnamedShown, IndexOf, Without, HasEntry;
    var id := hs[g][k].id;
    assert g in hs && k in hs[g] && k.Some? && id.node == k;
    if id.idStr != "" {
      NamedIsIdle(hs, v.named, g, id);
      OwnName(hs, v.unnamed, g, id);
      NoEntryNoChange(v.unnamed, id);
    } else {
      UnnamedIsIdle(hs, v.unnamed, g, id);
    }
  }

  lemma NamedIsIdle(hs: map<int, Users>, named: Named, g: int, id: UserKey)
    requires NamesShown(hs, named) && g in hs && id.node in hs[g] && hs[g][id.node].id == id && id.idStr != ""
    ensures id.idStr in named && named[id.idStr := named[id.idStr][g := id]] == named
  {
    assert HasFeed(named, hs[g][id.node].id, g);
    assert named[id.idStr][g := id] == named[id.idStr];
  }

  lemma NoEntryNoChange(unnamed: Unnamed, id: UserKey)
    requires id.node.Some? && !HasEntry(unnamed, id.node)
    ensures Without(unnamed, id) == unnamed
  {
    IndexOfFinds(unnamed, id);
  }

  lemma UnnamedIsIdle(hs: map<int, Users>, unnamed: Unnamed, g: int, id: UserKey)
    requires UnnamedShown(hs, unnamed) && ItemsUnnamed(hs, unnamed) && Separate(hs)
    requires g in hs && id.node in hs[g] && hs[g][id.node].id == id && id.idStr == ""
    ensures var i := IndexOf(unnamed, id);
            i < |unnamed| && unnamed[i := (unnamed[i].0, unnamed[i].1[g := id])] == unnamed
  {
    hide IndexOf;
    assert HasEntry(unnamed, id.node);
    IndexOfFinds(unnamed, id);
    OwnEntry(hs, unnamed, g, id);
    var own: (UserKey, Feeds) := (id, map[g := id]);
    assert own.1[g := id] == own.1;
    assert unnamed[IndexOf(unnamed, id) := own] == unnamed;
  }

  /** So does doing it for all of them, in whichever order. */
  lemma {:induction false} RefreshAllIsIdle(cs: Copies, v: View, g: int, ids: seq<UserKey>)
    requires Shows(UsersOf(cs), v) && Separate(UsersOf(cs)) && g in cs
    requires forall id :: id in ids ==> id.node in cs[g].house.users && cs[g].house.users[id.node].id == id
    ensures RefreshedAll(v, "", cs[g], g, ids) == v
    decreases |ids|
  {
    hide Shows, Refreshed;
    if ids != [] {
      var front, id := ids[..|ids| - 1], ids[|ids| - 1];
      assert id in ids;
      RefreshAllIsIdle(cs, v, g, front);
      RefreshIsIdle(UsersOf(cs), v, g, id.node);
      assert UsersOf(cs)[g][id.node].id == id && id.node.Some?;
      assert ModelCopy.Find(cs[g], id) == Some(cs[g].house.users[id.node]);
    }
  }

  lemma OwnName(hs: map<int, Users>, unnamed: Unnamed, g: int, id: UserKey)
    requires ItemsUnnamed(hs, unnamed) && Separate(hs) && g in hs && id.node in hs[g] && hs[g][id.node].id == id && id.idStr != ""
    ensures !HasEntry(unnamed, id.node)
  {
  }

  /** What Shows says, read from outside: names, feeds and unnamed users determine each other. */
  lemma ShownExactly(hs: map<int, Users>, v: View, s: string, g: int)
    requires Shows(hs, v)
    ensures s in v.named <==> s != "" && exists h, k :: h in hs && k in hs[h] && hs[h][k].id.idStr == s
    ensures s in v.named ==> (g in v.named[s] <==> g in hs && exists k :: k in hs[g] && hs[g][k].id.idStr == s)
  {
    if s in v.named {
      var h := AnyKey(v.named[s]);
      assert FeedIs(hs, h, v.named[s][h], s);
      if g in v.named[s] {
        assert FeedIs(hs, g, v.named[s][g], s);
      }
    }
    if s != "" {
      forall h, k | h in hs && k in hs[h] && hs[h][k].id.idStr == s
        ensures HasFeed(v.named, hs[h][k].id, h)
      {
      }
    }
  }
}
