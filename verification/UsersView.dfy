/** The view that lists users: an item per name and per unnamed user, kept up to date in place. */
module UsersView {
  import opened Wrappers
  import opened UserKeys
  import opened Lobby
  import opened ViewModel
  import opened UserMap
  import Gui
  import ModelHouse
  import RoomView
  import ModelCopy

  /** A user item with its multi-feed part: the groups it stands for. */
  class Item {
    var feeds: Feeds

    constructor ()
      ensures feeds == map[]
    {
      feeds := map[];
    }

    method SetFeed(id: UserKey, g: int)
      modifies this
      ensures feeds == old(feeds)[g := id]
    {
      feeds := feeds[g := id];
    }

    /** Whether the last feed is gone. */
    method UserRemove(g: int) returns (last: bool)
      modifies this
      ensures feeds == old(feeds) - {g}
      ensures last <==> feeds == map[]
    {
      feeds := feeds - {g};
      last := |feeds| == 0;
    }
  }

  /** The view as a value: the items with the feeds they have. */
  ghost predicate Showing(names: map<string, Item>, list: seq<(UserKey, Item)>, created: set<Item>, v: View)
    reads created
  {
    && v.named.Keys == names.Keys && |v.unnamed| == |list|
    && (forall s :: s in names ==> names[s] in created && v.named[s] == names[s].feeds)
    && (forall i :: 0 <= i < |list| ==> list[i].1 in created && v.unnamed[i] == (list[i].0, list[i].1.feeds))
  }

  /** An item that is held once in all is in one place. */
  lemma OneHolder(names: map<string, Item>, list: seq<(UserKey, Item)>, created: set<Item>)
    requires InNames(names) + InList(list) <= multiset(created)
    ensures forall s, t :: s in names && t in names && names[s] == names[t] ==> s == t
    ensures forall s, i :: s in names && 0 <= i < |list| ==> names[s] != list[i].1
    ensures forall i, j :: 0 <= i < j < |list| ==> list[i].1 != list[j].1
    ensures forall s :: s in names ==> names[s] in created
    ensures forall i :: 0 <= i < |list| ==> list[i].1 in created
  {
    hide InNames, InList;
    forall s, t | s in names && t in names
      ensures names[s] in created && (names[s] == names[t] ==> s == t)
    {
      NameCounts(names, s, t);
      assert multiset(created)[names[s]] <= 1;
    }
    forall i, j | 0 <= i <= j < |list|
      ensures list[i].1 in created && (list[i].1 == list[j].1 ==> i == j)
    {
      EntryCounts(list, i, j);
      assert multiset(created)[list[i].1] <= 1;
    }
    forall s, i | s in names && 0 <= i < |list|
      ensures names[s] != list[i].1
    {
      NameCounts(names, s, s);
      EntryCounts(list, i, i);
      assert multiset(created)[names[s]] <= 1;
    }
  }

  lemma {:induction false} SameIndex<A, B>(list: seq<(UserKey, A)>, unnamed: seq<(UserKey, B)>, id: UserKey)
    requires |list| == |unnamed| && forall i :: 0 <= i < |list| ==> list[i].0 == unnamed[i].0
    ensures IndexOf(list, id) == IndexOf(unnamed, id)
  {
    hide IndexOf;
  }

  lemma ShowingWithout(names: map<string, Item>, list: seq<(UserKey, Item)>, created: set<Item>, v: View, id: UserKey)
    requires Showing(names, list, created, v)
    ensures IndexOf(list, id) == IndexOf(v.unnamed, id)
    ensures Showing(names, Without(list, id), created, v.(unnamed := Without(v.unnamed, id)))
  {
    hide IndexOf;
    SameIndex(list, v.unnamed, id);
  }

  lemma ShowingNew(names: map<string, Item>, list: seq<(UserKey, Item)>, created: set<Item>, v: View, id: UserKey, item: Item, g: int)
    requires Showing(names, list, created, v) && item !in created && item.feeds == map[g := id]
    requires if id.idStr != "" then id.idStr !in names else IndexOf(list, id) == |list|
    ensures Showing(
              if id.idStr != "" then names[id.idStr := item] else names,
              if id.idStr != "" then Without(list, id) else list + [(id, item)],
              created + {item},
              Updated(v, id, g))
  {
    hide IndexOf, Without;
    ShowingWithout(names, list, created, v, id);
  }

  /** The view after the item of this id has got new feeds. */
  ghost function WithFeeds(v: View, id: UserKey, feeds: Feeds): View {
    if id.idStr != "" then v.(named := v.named[id.idStr := feeds])
    else
      var i := IndexOf(v.unnamed, id);
      if i < |v.unnamed| then v.(unnamed := v.unnamed[i := (v.unnamed[i].0, feeds)]) else v
  }

  ghost predicate Found(v: View, id: UserKey) {
    if id.idStr != "" then id.idStr in v.named else IndexOf(v.unnamed, id) < |v.unnamed|
  }

  /** First the feed goes, then, with the last feed, the item; otherwise only what resolving drops. */
  lemma RemovedInSteps(v: View, id: UserKey, g: int)
    requires Found(v, id)
    ensures var feeds := (if id.idStr != "" then v.named[id.idStr] else v.unnamed[IndexOf(v.unnamed, id)].1) - {g};
            var v1 := WithFeeds(v, id, feeds);
            Removed(v, id, g) ==
            if feeds == map[] then View(if id.idStr != "" then v1.named - {id.idStr} else v1.named, Without(v1.unnamed, id))
            else if id.idStr in v1.named && id.idStr != "" then v1.(unnamed := Without(v1.unnamed, id))
            else v1
  {
    hide IndexOf;
    var i := IndexOf(v.unnamed, id);
    if id.idStr == "" {
      var less := v.unnamed[i := (v.unnamed[i].0, v.unnamed[i].1 - {g})];
      SameIndex(v.unnamed, less, id);
      assert Without(less, id) == Without(v.unnamed, id);
    } else {
      var feeds := v.named[id.idStr] - {g};
      assert v.named[id.idStr := feeds] - {id.idStr} == v.named - {id.idStr};
    }
  }

  class UsersView {
    const userItemMap: UserMap<Item>
    const roomId: string
    ghost var created: set<Item>
    ghost var deleted: multiset<Item>
    ghost var view: View

    /** Each item that was ever created is held once, or was deleted once. */
    ghost predicate Conserved()
      reads this, userItemMap
    {
      userItemMap.Held() + deleted == multiset(created)
    }

    ghost predicate Valid()
      reads this, userItemMap, created
    {
      Conserved() && Showing(userItemMap.idMap, userItemMap.unidList, created, view)
    }

    /** So no item is leaked, shown twice, or deleted while it is shown. */
    lemma HeldOnce(item: Item)
      requires Conserved()
      ensures InNames(userItemMap.idMap)[item] + InList(userItemMap.unidList)[item] + multiset(userItemMap.dropList)[item] + deleted[item]
           == if item in created then 1 else 0
    {
      assert multiset(created)[item] == if item in created then 1 else 0;
    }

    constructor (roomId: string)
      ensures Valid() && view == EMPTY_VIEW && this.roomId == roomId && fresh(userItemMap) && created == {} && deleted == multiset{}
      ensures userItemMap.idMap == map[] && userItemMap.unidList == [] && userItemMap.dropList == []
    {
      userItemMap := new UserMap();
      this.roomId := roomId;
      created, deleted, view := {}, multiset{}, EMPTY_VIEW;
    }

    method DelUserItem(item: Item)
      requires item in created && item !in deleted
      modifies this`deleted
      ensures deleted == old(deleted) + multiset{item}
    {
      deleted := deleted + multiset{item};
    }

    method RemoveDropped()
      requires Conserved()
      modifies this`deleted, userItemMap`dropList
      ensures Conserved() && userItemMap.dropList == []
      ensures old(deleted) <= deleted
    {
      hide InNames, InList, UserMap.Held;
      var item := userItemMap.PopDropped();
      while item.Some?
        invariant item == None ==> Conserved() && userItemMap.dropList == []
        invariant item.Some? ==> userItemMap.Held() + multiset{item.value} + deleted == multiset(created)
        invariant old(deleted) <= deleted
        decreases |userItemMap.dropList|, item.Some?
      {
        assert multiset(created)[item.value] == 1;
        DelUserItem(item.value);
        item := userItemMap.PopDropped();
      }
    }

    method NewUser(u: User, g: int)
      requires Valid()
      requires if u.id.idStr != "" then u.id.idStr !in userItemMap.idMap
               else IndexOf(userItemMap.unidList, u.id) == |userItemMap.unidList|
      modifies this`created, this`view, userItemMap
      ensures Valid() && old(created) <= created && fresh(created - old(created))
      ensures view == Updated(old(view), u.id, g)
    {
      hide InNames, InList, UserMap.Held, Showing, Updated, Without, IndexOf;
      var item := new Item();
      var _ := userItemMap.Insert(u.id, item);
      userItemMap.Resolve(u.id);
      item.SetFeed(u.id, g);
      ShowingNew(old(userItemMap.idMap), old(userItemMap.unidList), created, view, u.id, item, g);
      assert multiset(created + {item}) == multiset(created) + multiset{item};
      created := created + {item};
      view := Updated(view, u.id, g);
    }

    method SetFeed(item: Item, id: UserKey, g: int)
      requires Valid() && Holds(item, id)
      modifies item, this`view
      ensures Valid() && item.feeds == old(item.feeds)[g := id]
      ensures view == WithFeeds(old(view), id, old(item.feeds)[g := id])
    {
      hide InNames, InList, IndexOf, UserMap.Held;
      Place(item, id);
      view := WithFeeds(view, id, item.feeds[g := id]);
      item.SetFeed(id, g);
    }

    method EraseFeed(item: Item, id: UserKey, g: int) returns (last: bool)
      requires Valid() && Holds(item, id)
      modifies item, this`view
      ensures Valid() && item.feeds == old(item.feeds) - {g}
      ensures last <==> item.feeds == map[]
      ensures view == WithFeeds(old(view), id, old(item.feeds) - {g})
    {
      hide InNames, InList, IndexOf, UserMap.Held;
      Place(item, id);
      view := WithFeeds(view, id, item.feeds - {g});
      last := item.UserRemove(g);
    }

    /** It is the one item of this id. */
    ghost predicate Holds(item: Item, id: UserKey)
      reads this, userItemMap
    {
      if id.idStr != "" then id.idStr in userItemMap.idMap && userItemMap.idMap[id.idStr] == item
      else IndexOf(userItemMap.unidList, id) < |userItemMap.unidList| && userItemMap.unidList[IndexOf(userItemMap.unidList, id)].1 == item
    }

    lemma Place(item: Item, id: UserKey)
      requires Valid() && Holds(item, id)
      ensures item in created && IndexOf(userItemMap.unidList, id) == IndexOf(view.unnamed, id)
      ensures forall s :: s in userItemMap.idMap && userItemMap.idMap[s] == item ==> id.idStr == s != ""
      ensures forall i :: 0 <= i < |userItemMap.unidList| && userItemMap.unidList[i].1 == item ==>
                id.idStr == "" && i == IndexOf(userItemMap.unidList, id)
      ensures item.feeds == if id.idStr != "" then view.named[id.idStr] else view.unnamed[IndexOf(view.unnamed, id)].1
    {
      hide InNames, InList, IndexOf;
      OneHolder(userItemMap.idMap, userItemMap.unidList, created);
      SameIndex(userItemMap.unidList, view.unnamed, id);
    }

    method FindItem(id: UserKey) returns (item: Option<Item>)
      requires Valid()
      ensures item.Some? ==> Holds(item.value, id) && item.value in created
      ensures item.Some? <==> Found(view, id)
    {
      hide InNames, InList, IndexOf, UserMap.Held;
      item := userItemMap.Find(id);
      SameIndex(userItemMap.unidList, view.unnamed, id);
    }

    method ResolveItem(id: UserKey)
      requires Valid()
      modifies this`view, userItemMap`unidList, userItemMap`dropList
      ensures Valid()
      ensures view == if id.idStr in old(view).named && id.idStr != "" then old(view).(unnamed := Without(old(view).unnamed, id)) else old(view)
    {
      hide InNames, InList, IndexOf, Without, UserMap.Held;
      ShowingWithout(userItemMap.idMap, userItemMap.unidList, created, view, id);
      userItemMap.Resolve(id);
      if id.idStr in view.named && id.idStr != "" {
        view := view.(unnamed := Without(view.unnamed, id));
      }
    }

    method EraseItem(id: UserKey)
      requires Valid()
      modifies this`view, userItemMap
      ensures Valid()
      ensures view == View(if id.idStr != "" then old(view).named - {id.idStr} else old(view).named, Without(old(view).unnamed, id))
    {
      hide InNames, InList, IndexOf, Without, UserMap.Held;
      ShowingWithout(userItemMap.idMap, userItemMap.unidList, created, view, id);
      var _ := userItemMap.Erase(id);
      view := View(if id.idStr != "" then view.named - {id.idStr} else view.named, Without(view.unnamed, id));
    }

    method RemoveUser(id: UserKey, g: int)
      requires Valid()
      modifies this`view, userItemMap, created
      ensures Valid() && view == Removed(old(view), id, g)
    {
      hide InNames, InList, IndexOf, Without, UserMap.Held, WithFeeds;
      var item := FindItem(id);
      if item.Some? {
        Place(item.value, id);
        RemovedInSteps(view, id, g);
        var last := EraseFeed(item.value, id, g);
        if last {
          EraseItem(id);
        } else {
          ResolveItem(id);
        }
      }
    }

    method UpdateUser(u: User, g: int)
      requires Valid()
      modifies this`created, this`view, userItemMap, created
      ensures Valid() && old(created) <= created && fresh(created - old(created))
      ensures view == Refreshed(old(view), roomId, u, g)
    {
      hide InNames, InList, IndexOf, Without, UserMap.Held;
      var item := FindItem(u.id);
      if item == None {
        if roomId == "" || roomId == u.body.roomId {
          NewUser(u, g);
        }
      } else if roomId == "" || roomId == u.body.roomId {
        Place(item.value, u.id);
        SetFeed(item.value, u.id, g);
        ResolveItem(u.id);
      } else {
        RemoveUser(u.id, g);
      }
    }

    /** Nothing of the view is part of a copy of the houses. */
    lemma NoPart(hm: ModelHouse.ModelHouse)
      ensures (this as object) != hm && this !in hm.Parts() && this !in hm.Tables()
      ensures (userItemMap as object) != hm && userItemMap !in hm.Parts() && userItemMap !in hm.Tables()
      ensures forall o :: o in hm.Parts() ==> allocated(o)
      ensures forall o :: o in hm.Tables() ==> allocated(o)
      ensures forall x :: x in created ==> (x as object) != hm && x !in hm.Parts() && x !in hm.Tables()
    {
    }

    /** Updates the users that are in the room, in the order in which the house lists them. */
    method UpdateUsers(hm: ModelHouse.ModelHouse, rid: string, grp: int) returns (ids: seq<UserKey>)
      requires Valid() && hm.Valid() && grp in hm.houseMap
      modifies this`created, this`view, userItemMap, created
      ensures Valid() && old(created) <= created && fresh(created - old(created))
      ensures forall id :: id in ids <==> id.node in old(hm.Value())[grp].house.users
                                           && old(hm.Value())[grp].house.users[id.node].body.roomId == rid
                                           && old(hm.Value())[grp].house.users[id.node].id == id
      ensures forall i, j :: 0 <= i < j < |ids| ==> ids[i].node != ids[j].node
      ensures view == RefreshedAll(old(view), roomId, old(hm.Value())[grp], grp, ids)
    {
      hide InNames, InList, IndexOf, Without, UserMap.Held, Refreshed, Valid, ModelCopy.Find;
      hide ModelHouse.ModelHouse.Valid, ModelHouse.ModelHouse.Value, ModelHouse.ModelHouse.Parts, ModelHouse.ModelHouse.Tables;
      NoPart(hm);
      hm.ValueKeys();
      ghost var c := hm.Value()[grp];
      var count;
      ids, count := hm.UserIdsInRoom(rid, grp);
      for i := 0 to |ids|
        invariant Valid() && old(created) <= created && fresh(created - old(created))
        invariant hm.Valid() && hm.Value() == old(hm.Value())
        invariant view == RefreshedAll(old(view), roomId, c, grp, ids[..i])
      {
        NoPart(hm);
        var ui := hm.UserFindIn(ids[i], grp);
        assert ids[..i + 1][..i] == ids[..i];
        if ui != null {
          UpdateUser(ui.value, grp);
        }
      }
      assert ids[..|ids|] == ids;
    }

    /** A view of a room starts with the users that are in it already, group by group. */
    method OpenRoom(hm: ModelHouse.ModelHouse, groups: seq<int>) returns (lists: seq<seq<UserKey>>)
      requires Valid() && hm.Valid() && forall i :: 0 <= i < |groups| ==> groups[i] in hm.Value()
      modifies this`created, this`view, userItemMap, created
      ensures Valid() && old(created) <= created && fresh(created - old(created))
      ensures |lists| == |groups|
      ensures forall i :: 0 <= i < |groups| ==> RoomView.ListsGroup(old(hm.Value()), roomId, groups[i], lists[i])
      ensures view == RoomView.Opened(old(hm.Value()), roomId, old(view), groups, lists)
    {
      hide InNames, InList, UserMap.Held, Valid, RefreshedAll;
      hide ModelHouse.ModelHouse.Valid, ModelHouse.ModelHouse.Value, ModelHouse.ModelHouse.Parts, ModelHouse.ModelHouse.Tables;
      NoPart(hm);
      hm.ValueKeys();
      ghost var cs := hm.Value();
      lists := [];
      for n := 0 to |groups|
        invariant Valid() && old(created) <= created && fresh(created - old(created))
        invariant hm.Valid() && hm.Value() == cs && |lists| == n
        invariant forall i :: 0 <= i < n ==> RoomView.ListsGroup(cs, roomId, groups[i], lists[i])
        invariant view == RoomView.Opened(cs, roomId, old(view), groups[..n], lists)
      {
        NoPart(hm);
        hm.ValueKeys();
        var ids := UpdateUsers(hm, roomId, groups[n]);
        NoPart(hm);
        assert groups[..n + 1][..n] == groups[..n] && (lists + [ids])[..n] == lists;
        lists := lists + [ids];
      }
      assert groups[..|groups|] == groups;
    }

    /** Only a new room or a changed topic matters to the view. */
    method RoomUpdate(hm: ModelHouse.ModelHouse, prev: ModelHouse.ModelHouse, t: Gui.Tagged) returns (ids: seq<UserKey>)
      requires Valid() && hm.Valid() && prev.Valid() && t.msg.RoomMessage?
      modifies this`created, this`view, userItemMap, created
      ensures Valid() && old(created) <= created && fresh(created - old(created))
      ensures ListsRoom(old(hm.Value()), old(prev.Value()), t, ids)
      ensures view == Handled(old(view), roomId, old(hm.Value()), old(prev.Value()), t, ids)
    {
      hide InNames, InList, IndexOf, Without, UserMap.Held, Valid, RefreshedAll, TopicChanged;
      hide ModelHouse.ModelHouse.Valid, ModelHouse.ModelHouse.Value, ModelHouse.ModelHouse.Parts, ModelHouse.ModelHouse.Tables;
      NoPart(hm);
      NoPart(prev);
      ids := [];
      var changed := HasTopicChanged(hm, prev, t);
      if changed {
        ids := UpdateUsers(hm, t.msg.room.id, t.grp);
      }
    }

    method HasTopicChanged(hm: ModelHouse.ModelHouse, prev: ModelHouse.ModelHouse, t: Gui.Tagged) returns (changed: bool)
      requires hm.Valid() && prev.Valid() && t.msg.RoomMessage?
      ensures changed <==> TopicChanged(hm.Value(), prev.Value(), t)
      ensures changed ==> t.grp in hm.houseMap
    {
      hide ModelHouse.ModelHouse.Valid, ModelHouse.ModelHouse.Value, ModelHouse.ModelHouse.Parts, ModelHouse.ModelHouse.Tables;
      NoPart(hm);
      NoPart(prev);
      hm.ValueKeys();
      prev.ValueKeys();
      if t.grp !in hm.houseMap {
        return false;
      }
      var ric := hm.RoomFindIn(t.msg.room.id, t.grp);
      if ric == null || t.grp !in prev.houseMap {
        return true;
      }
      var rip := prev.RoomFindIn(t.msg.room.id, t.grp);
      return rip == null || ric.value.body.topic != rip.value.body.topic;
    }

    /** `hm` is the current copy, which has taken the message in, and `prev` the previous one, which has
        not. `ids` are the users that a changed topic makes the view update. */
    method HandleMessage(hm: ModelHouse.ModelHouse, prev: ModelHouse.ModelHouse, t: Gui.Tagged) returns (ids: seq<UserKey>)
      requires Valid() && hm.Valid() && prev.Valid()
      modifies this`created, this`view, this`deleted, userItemMap, created
      ensures Valid() && old(created) <= created && fresh(created - old(created)) && old(deleted) <= deleted
      ensures t.msg.UserMessage? || t.msg.UserLeft? ==> userItemMap.dropList == []
      ensures ListsRoom(old(hm.Value()), old(prev.Value()), t, ids)
      ensures view == Handled(old(view), roomId, old(hm.Value()), old(prev.Value()), t, ids)
    {
      hide InNames, InList, IndexOf, Without, UserMap.Held, Updated, Removed, ModelHouse.ModelHouse.Valid, ModelCopy.Find, TopicChanged;
      ids := [];
      match t.msg
      case UserMessage(u) =>
        if t.grp in hm.houseMap {
          var ui := hm.UserFindIn(u.id, t.grp);
          if ui != null {
            UpdateUser(ui.value, t.grp);
          }
        }
        RemoveDropped();
      case UserLeft(u) =>
        RemoveUser(u.id, t.grp);
        RemoveDropped();
      case RoomMessage(_) =>
        ids := RoomUpdate(hm, prev, t);
      case _ =>
    }
  }
}
