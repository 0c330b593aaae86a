/** model::house: the GUI's copy of the houses. One group's part of it changes in place; what is asked
    of all groups together only reads. */
module ModelHouse {
  import opened Wrappers
  import opened UserKeys
  import opened Lobby
  import ChatHouse
  import opened ModelCopy
  import Gui

  /** The house of one group, and the index from id strings to users. */
  class GroupModel {
    const house: ChatHouse.House
    var index: map<string, UserKey>

    ghost predicate Valid()
      reads house.users, house.rooms, house.users.cells, house.rooms.cells
    {
      house.Valid()
    }

    ghost function Value(): Copy
      reads this, house.users, house.rooms
    {
      Copy(house.Value(), index)
    }

    constructor ()
      ensures Valid() && Value() == EMPTY_COPY
      ensures fresh(house.users) && fresh(house.rooms) && house.users.cells == [] && house.rooms.cells == []
    {
      house := new ChatHouse.House();
      index := map[];
    }

    method UserUpdate(u: User)
      requires Valid() && u.id.node.Some?
      modifies this, house.users, house.users.cells
      ensures Valid() && forall c :: c in house.users.cells ==> c in old(house.users.cells) || fresh(c)
      ensures Value() == UserUpdated(old(Value()), u)
    {
      hide ChatHouse.House.Valid, WellKeyed;
      var ui := house.UserFind(u.id);
      if ui == null {
        var _ := house.UserInsert(u);
        if u.id.idStr != "" {
          index := IndexInsert(index, u.id);
        }
      } else if u.id.idStr != "" {
        if ui.value.id.idStr != u.id.idStr {
          index := index - {ui.value.id.idStr};
          index := IndexInsert(index, u.id);
          var _ := house.UserErase(ui.value.id);
          var _ := house.UserInsert(u);
        } else {
          house.SetUser(ui, ui.value.Assign(u));
        }
      }
    }

    method UserErase(id: UserKey) returns (erased: bool)
      requires Valid()
      modifies this, house.users
      ensures Valid() && forall c :: c in house.users.cells ==> c in old(house.users.cells)
      ensures erased <==> id.node in old(Value()).house.users
      ensures Value() == UserErased(old(Value()), id)
    {
      hide ChatHouse.House.Valid, WellKeyed;
      erased := house.UserErase(id);
      index := index - {id.idStr};
      assert !erased ==> house.users.view == old(house.users.view) - {id.node};
    }

    method UserFind(id: UserKey) returns (it: ChatHouse.UserIt)
      requires Valid()
      ensures it == null <==> Find(Value(), id) == None
      ensures it != null ==> it in house.users.cells && it.key == SearchKey(Value(), id) && Find(Value(), id) == Some(it.value)
    {
      hide ChatHouse.House.Valid, WellKeyed;
      var sid := id;
      if sid.node == None && sid.idStr in index {
        sid := sid.(node := index[sid.idStr].node);
      }
      it := house.UserFind(sid);
    }

    /** A user that is found is put into a room, through the iterator. */
    method Reserve(sender: UserKey, rid: string)
      requires Valid()
      modifies house.users`view, house.users.cells
      ensures Valid()
      ensures Value() == Gui.Reserve(old(Value()), sender, rid)
    {
      hide ChatHouse.House.Valid, WellKeyed;
      var ui := UserFind(sender);
      if ui != null {
        house.UserCellKeyed(ui);
        house.SetUser(ui, Gui.InRoom(ui.value, rid));
      }
    }

    method RoomUpdate(r: Room)
      requires Valid()
      modifies house.rooms, house.rooms.cells
      ensures Valid() && forall c :: c in house.rooms.cells ==> c in old(house.rooms.cells) || fresh(c)
      ensures Value() == RoomUpdated(old(Value()), r)
    {
      hide ChatHouse.House.Valid, WellKeyed;
      var ri := house.RoomFind(r.id);
      if ri == null {
        ri := house.RoomInsert(r);
      } else {
        house.SetRoom(ri, ri.value.Assign(r));
      }
    }

    method RoomErase(rid: string) returns (erased: bool)
      requires Valid()
      modifies house.rooms
      ensures Valid() && forall c :: c in house.rooms.cells ==> c in old(house.rooms.cells)
      ensures erased <==> rid in old(Value()).house.rooms
      ensures Value() == RoomErased(old(Value()), rid)
    {
      hide ChatHouse.House.Valid, WellKeyed;
      erased := house.RoomErase(rid);
      assert !erased ==> house.rooms.view == old(house.rooms.view) - {rid};
    }

    /** The ids of the users in a room, in the order of the list. */
    method UserIdsInRoom(rid: string) returns (ids: seq<UserKey>, count: nat)
      requires Valid()
      ensures count == |ids|
      ensures forall id :: id in ids <==> id.node in Value().house.users && Value().house.users[id.node].body.roomId == rid
                                           && Value().house.users[id.node].id == id
      ensures forall i, j :: 0 <= i < j < |ids| ==> ids[i].node != ids[j].node
    {
      hide ChatHouse.House.Valid, WellKeyed;
      house.UserKeysAre();
      ids, count := [], 0;
      for i := 0 to |house.users.cells|
        invariant count == |ids|
        invariant forall id :: id in ids <==> id.node in house.users.keys[..i] && house.users.view[id.node].body.roomId == rid
                                               && house.users.view[id.node].id == id
        invariant forall j, k :: 0 <= j < k < |ids| ==> ids[j].node != ids[k].node
      {
        house.UserCellAt(i);
        var u := house.users.cells[i].value;
        assert house.users.keys[..i + 1] == house.users.keys[..i] + [u.id.node];
        if u.body.roomId == rid {
          ids, count := ids + [u.id], count + 1;
        }
      }
      assert house.users.keys[..|house.users.keys|] == house.users.keys;
    }

    /** The part of room_size that one group adds: its named users in the room, in the accumulating
        map. */
    method CollectNames(rid: string, m0: map<string, bool>) returns (m: map<string, bool>)
      requires Valid()
      ensures m.Keys == m0.Keys + Gui.NamesIn(Value().house.users, rid)
    {
      var ids, _ := UserIdsInRoom(rid);
      NamesAre(ids, rid);
      m := m0;
      for i := 0 to |ids|
        invariant forall s :: s in m <==> s in m0 || exists j :: 0 <= j < i && ids[j].idStr == s && s != ""
      {
        if ids[i].idStr != "" {
          m := m[ids[i].idStr := true];
        }
      }
    }

    lemma NamesAre(ids: seq<UserKey>, rid: string)
      requires Valid()
      requires forall id :: id in ids <==> id.node in Value().house.users && Value().house.users[id.node].body.roomId == rid
                                            && Value().house.users[id.node].id == id
      ensures forall s :: s in Gui.NamesIn(Value().house.users, rid) <==>
                exists j :: 0 <= j < |ids| && ids[j].idStr == s && s != ""
    {
      forall s | s in Gui.NamesIn(Value().house.users, rid)
        ensures exists j :: 0 <= j < |ids| && ids[j].idStr == s && s != ""
      {
        var k :| k in Value().house.users && Value().house.users[k].body.roomId == rid && Value().house.users[k].id.idStr == s != "";
        house.UserKeyed(k);
        assert Value().house.users[k].id in ids;
      }
      forall j | 0 <= j < |ids| && ids[j].idStr != ""
        ensures ids[j].idStr in Gui.NamesIn(Value().house.users, rid)
      {
        assert ids[j] in ids;
      }
    }

    /** The part of users_in_room that one group adds: the names not emitted yet, in list order. */
    method EmitNames(rid: string, m0: map<string, bool>, out0: seq<string>) returns (m: map<string, bool>, out: seq<string>)
      requires Valid()
      requires forall s :: s in out0 <==> s in m0
      requires forall i, j :: 0 <= i < j < |out0| ==> out0[i] != out0[j]
      ensures m.Keys == m0.Keys + Gui.NamesIn(Value().house.users, rid)
      ensures forall s :: s in out <==> s in m
      ensures forall i, j :: 0 <= i < j < |out| ==> out[i] != out[j]
    {
      var ids, _ := UserIdsInRoom(rid);
      NamesAre(ids, rid);
      m, out := m0, out0;
      for i := 0 to |ids|
        invariant forall s :: s in m <==> s in m0 || exists j :: 0 <= j < i && ids[j].idStr == s && s != ""
        invariant forall s :: s in out <==> s in m
        invariant forall j, k :: 0 <= j < k < |out| ==> out[j] != out[k]
      {
        if ids[i].idStr != "" && ids[i].idStr !in m {
          m, out := m[ids[i].idStr := true], out + [ids[i].idStr];
        }
      }
    }
  }

  ghost predicate NoneShared<T>(a: seq<T>, b: seq<T>) {
    forall i, j :: 0 <= i < |a| && 0 <= j < |b| ==> a[i] != b[j]
  }

  /** The two groups share nothing. */
  ghost predicate Apart(a: GroupModel, b: GroupModel)
    reads a.house.users, b.house.users, a.house.rooms, b.house.rooms
  {
    && a != b && a.house.users != b.house.users && a.house.rooms != b.house.rooms
    && NoneShared(a.house.users.cells, b.house.users.cells)
    && NoneShared(a.house.rooms.cells, b.house.rooms.cells)
  }

  lemma EmptyApart(a: GroupModel, e: GroupModel)
    requires a != e && a.house.users != e.house.users && a.house.rooms != e.house.rooms
    requires e.house.users.cells == [] && e.house.rooms.cells == []
    ensures Apart(a, e) && Apart(e, a)
  {
  }

  class ModelHouse {
    var houseMap: map<int, GroupModel>

    ghost function Groups(): set<GroupModel>
      reads this
    {
      set g | g in houseMap :: houseMap[g]
    }

    ghost function Tables(): set<object>
      reads this
    {
      (set g | g in houseMap :: houseMap[g].house.users) + (set g | g in houseMap :: houseMap[g].house.rooms)
    }

    ghost function Cells(): set<object>
      reads this, Tables()
    {
      (set g, i | g in houseMap && 0 <= i < |houseMap[g].house.users.cells| :: houseMap[g].house.users.cells[i])
      + (set g, i | g in houseMap && 0 <= i < |houseMap[g].house.rooms.cells| :: houseMap[g].house.rooms.cells[i])
    }

    /** What the houses of the groups are made of. */
    ghost function Parts(): set<object>
      reads this, Tables()
    {
      Groups() + Tables() + Cells()
    }

    ghost predicate Valid()
      reads this, Parts()
    {
      && (forall g :: g in houseMap ==> houseMap[g].Valid())
      && (forall g, h :: g in houseMap && h in houseMap && g != h ==> Apart(houseMap[g], houseMap[h]))
    }

    ghost function Value(): Gui.Copies
      reads this, Parts()
    {
      map g | g in houseMap :: houseMap[g].Value()
    }

    constructor ()
      ensures Valid() && houseMap == map[] && Value() == map[]
    {
      houseMap := map[];
    }

    lemma ValueKeys()
      ensures Value().Keys == houseMap.Keys
    {
    }

    method UserUpdate(u: User, grp: int)
      requires Valid() && grp in houseMap && u.id.node.Some?
      modifies houseMap[grp], houseMap[grp].house.users, houseMap[grp].house.users.cells
      ensures Valid()
      ensures forall c :: c in houseMap[grp].house.users.cells ==> c in old(houseMap[grp].house.users.cells) || fresh(c)
      ensures Value() == old(Value())[grp := UserUpdated(old(Value())[grp], u)]
    {
      hide GroupModel.Value, ChatHouse.House.Valid, UserUpdated;
      houseMap[grp].UserUpdate(u);
      forall g | g in houseMap && g != grp
        ensures houseMap[g].Valid() && houseMap[g].Value() == old(houseMap[g].Value())
        ensures Apart(houseMap[g], houseMap[grp]) && Apart(houseMap[grp], houseMap[g])
      {
        assert old(Apart(houseMap[g], houseMap[grp]));
        assert old(houseMap[g].Valid());
        forall i, j | 0 <= i < |houseMap[g].house.users.cells| && 0 <= j < |houseMap[grp].house.users.cells|
          ensures houseMap[g].house.users.cells[i] != houseMap[grp].house.users.cells[j]
        {
          assert houseMap[grp].house.users.cells[j] in houseMap[grp].house.users.cells;
        }
      }
    }

    method UserFindIn(id: UserKey, grp: int) returns (it: ChatHouse.UserIt)
      requires Valid() && grp in houseMap
      ensures it == null <==> Find(Value()[grp], id) == None
      ensures it != null ==> Find(Value()[grp], id) == Some(it.value)
    {
      hide GroupModel.Valid, ChatHouse.House.Valid, Find;
      it := houseMap[grp].UserFind(id);
    }

    method RoomFindIn(rid: string, grp: int) returns (it: ChatHouse.RoomIt)
      requires Valid() && grp in houseMap
      ensures it == null <==> rid !in Value()[grp].house.rooms
      ensures it != null ==> it.value == Value()[grp].house.rooms[rid]
    {
      hide ChatHouse.House.Valid;
      it := houseMap[grp].house.RoomFind(rid);
    }

    method UserIdsInRoom(rid: string, grp: int) returns (ids: seq<UserKey>, count: nat)
      requires Valid() && grp in houseMap
      ensures count == |ids|
      ensures forall id :: id in ids <==> id.node in Value()[grp].house.users && Value()[grp].house.users[id.node].body.roomId == rid
                                           && Value()[grp].house.users[id.node].id == id
      ensures forall i, j :: 0 <= i < j < |ids| ==> ids[i].node != ids[j].node
    {
      hide GroupModel.Valid, ChatHouse.House.Valid;
      ids, count := houseMap[grp].UserIdsInRoom(rid);
    }

    method Reserve(sender: UserKey, rid: string, grp: int)
      requires Valid() && grp in houseMap
      modifies houseMap[grp].house.users`view, houseMap[grp].house.users.cells
      ensures Valid()
      ensures Value() == old(Value())[grp := Gui.Reserve(old(Value())[grp], sender, rid)]
    {
      hide GroupModel.Valid, ChatHouse.House.Valid, Gui.Reserve, Parts, Tables, Cells, Groups;
      houseMap[grp].Reserve(sender, rid);
      forall g | g in houseMap && g != grp
        ensures houseMap[g].Valid() && houseMap[g].Value() == old(houseMap[g].Value())
      {
        assert old(Apart(houseMap[g], houseMap[grp]) && houseMap[g].Valid());
        assert houseMap[g].Value() == old(houseMap[g].Value());
      }
    }

    method UserErase(id: UserKey, grp: int) returns (erased: bool)
      requires Valid() && grp in houseMap
      modifies houseMap[grp], houseMap[grp].house.users
      ensures Valid()
      ensures forall c :: c in houseMap[grp].house.users.cells ==> c in old(houseMap[grp].house.users.cells)
      ensures erased <==> id.node in old(Value())[grp].house.users
      ensures Value() == old(Value())[grp := UserErased(old(Value())[grp], id)]
    {
      hide GroupModel.Valid, ChatHouse.House.Valid, UserErased;
      erased := houseMap[grp].UserErase(id);
      forall g | g in houseMap && g != grp
        ensures houseMap[g].Valid() && houseMap[g].Value() == old(houseMap[g].Value())
        ensures Apart(houseMap[g], houseMap[grp]) && Apart(houseMap[grp], houseMap[g])
      {
        assert old(Apart(houseMap[g], houseMap[grp]));
        assert old(houseMap[g].Valid());
        forall i, j | 0 <= i < |houseMap[g].house.users.cells| && 0 <= j < |houseMap[grp].house.users.cells|
          ensures houseMap[g].house.users.cells[i] != houseMap[grp].house.users.cells[j]
        {
          assert houseMap[grp].house.users.cells[j] in houseMap[grp].house.users.cells;
        }
      }
    }

    method RoomUpdate(r: Room, grp: int)
      requires Valid() && grp in houseMap
      modifies houseMap[grp].house.rooms, houseMap[grp].house.rooms.cells
      ensures Valid()
      ensures forall c :: c in houseMap[grp].house.rooms.cells ==> c in old(houseMap[grp].house.rooms.cells) || fresh(c)
      ensures Value() == old(Value())[grp := RoomUpdated(old(Value())[grp], r)]
    {
      hide GroupModel.Valid, ChatHouse.House.Valid, RoomUpdated;
      houseMap[grp].RoomUpdate(r);
      forall g | g in houseMap && g != grp
        ensures houseMap[g].Valid() && houseMap[g].Value() == old(houseMap[g].Value())
        ensures Apart(houseMap[g], houseMap[grp]) && Apart(houseMap[grp], houseMap[g])
      {
        assert old(Apart(houseMap[g], houseMap[grp]));
        assert old(houseMap[g].Valid());
        forall i, j | 0 <= i < |houseMap[g].house.rooms.cells| && 0 <= j < |houseMap[grp].house.rooms.cells|
          ensures houseMap[g].house.rooms.cells[i] != houseMap[grp].house.rooms.cells[j]
        {
          assert houseMap[grp].house.rooms.cells[j] in houseMap[grp].house.rooms.cells;
        }
      }
    }

    method RoomErase(rid: string, grp: int) returns (erased: bool)
      requires Valid() && grp in houseMap
      modifies houseMap[grp].house.rooms
      ensures Valid()
      ensures forall c :: c in houseMap[grp].house.rooms.cells ==> c in old(houseMap[grp].house.rooms.cells)
      ensures erased <==> rid in old(Value())[grp].house.rooms
      ensures Value() == old(Value())[grp := RoomErased(old(Value())[grp], rid)]
    {
      hide GroupModel.Valid, ChatHouse.House.Valid, RoomErased;
      erased := houseMap[grp].RoomErase(rid);
      forall g | g in houseMap && g != grp
        ensures houseMap[g].Valid() && houseMap[g].Value() == old(houseMap[g].Value())
        ensures Apart(houseMap[g], houseMap[grp]) && Apart(houseMap[grp], houseMap[g])
      {
        assert old(Apart(houseMap[g], houseMap[grp]));
        assert old(houseMap[g].Valid());
        forall i, j | 0 <= i < |houseMap[g].house.rooms.cells| && 0 <= j < |houseMap[grp].house.rooms.cells|
          ensures houseMap[g].house.rooms.cells[i] != houseMap[grp].house.rooms.cells[j]
        {
          assert houseMap[grp].house.rooms.cells[j] in houseMap[grp].house.rooms.cells;
        }
      }
    }

    /** What the GUI does to one of its copies for one message. */
    method HandleModelUpdate(t: Gui.Tagged)
      requires Valid() && t.grp in houseMap && (t.msg.UserMessage? ==> t.msg.user.id.node.Some?)
      modifies houseMap[t.grp], houseMap[t.grp].house.users, houseMap[t.grp].house.users.cells
      modifies houseMap[t.grp].house.rooms, houseMap[t.grp].house.rooms.cells
      ensures Valid()
      ensures forall c :: c in houseMap[t.grp].house.users.cells ==> c in old(houseMap[t.grp].house.users.cells) || fresh(c)
      ensures forall c :: c in houseMap[t.grp].house.rooms.cells ==> c in old(houseMap[t.grp].house.rooms.cells) || fresh(c)
      ensures Value() == Gui.ApplyTo(old(Value()), t)
    {
      hide Valid, UserUpdated, UserErased, RoomUpdated, RoomErased;
      assert Value().Keys == houseMap.Keys;
      match t.msg
      case UserMessage(u) => UserUpdate(u, t.grp);
      case UserLeft(u) => var _ := UserErase(u.id, t.grp);
      case RoomMessage(r) => RoomUpdate(r, t.grp);
      case RoomRemove(r) => var _ := RoomErase(r.id, t.grp);
      case _ =>
        assert Value()[t.grp := Value()[t.grp]] == Value();
    }

    /** A group that was there already is emptied. */
    method AllowGroup(grp: int)
      requires Valid()
      modifies this
      ensures Valid()
      ensures Value() == old(Value())[grp := EMPTY_COPY]
      ensures grp in houseMap && houseMap == old(houseMap)[grp := houseMap[grp]] && fresh(houseMap[grp])
      ensures fresh(houseMap[grp].house.users) && fresh(houseMap[grp].house.rooms)
      ensures houseMap[grp].house.users.cells == [] && houseMap[grp].house.rooms.cells == []
    {
      hide GroupModel.Valid, GroupModel.Value, ChatHouse.House.Valid, Apart;
      var empty := new GroupModel();
      forall g | g in houseMap
        ensures Apart(houseMap[g], empty) && Apart(empty, houseMap[g])
      {
        EmptyApart(houseMap[g], empty);
      }
      Put(grp, empty);
    }

    method Put(grp: int, e: GroupModel)
      requires Valid() && e.Valid()
      requires forall g :: g in houseMap ==> Apart(houseMap[g], e) && Apart(e, houseMap[g])
      modifies this
      ensures houseMap == old(houseMap)[grp := e]
      ensures Valid() && Value() == old(Value())[grp := old(e.Value())]
    {
      hide GroupModel.Valid, GroupModel.Value, Apart;
      houseMap := houseMap[grp := e];
    }

    /** The user with this id in the lowest group that has one. */
    method UserFind(id: UserKey) returns (it: ChatHouse.UserIt)
      requires Valid()
      ensures it == null <==> forall g :: g in Value() ==> Find(Value()[g], id) == None
      ensures it != null ==> exists g :: g in Value() && Find(Value()[g], id) == Some(it.value)
                                          && forall h :: h in Value() && h < g ==> Find(Value()[h], id) == None
    {
      hide GroupModel.Valid, ChatHouse.House.Valid, Find;
      it := null;
      var todo: set<int> := houseMap.Keys;
      while todo != {}
        invariant it == null && todo <= houseMap.Keys
        invariant forall g, h :: g in todo && h in houseMap && h !in todo ==> h < g
        invariant forall g :: g in houseMap && g !in todo ==> Find(Value()[g], id) == None
        decreases |todo|
      {
        var g := LeastOf(todo);
        todo := todo - {g};
        it := houseMap[g].UserFind(id);
        if it != null {
          assert Find(Value()[g], id) == Some(it.value);
          return;
        }
      }
    }

    method RoomSize(rid: string) returns (n: nat)
      requires Valid()
      ensures n == |Gui.Participants(Value(), rid)|
    {
      hide GroupModel.Valid, ChatHouse.House.Valid;
      var m: map<string, bool> := map[];
      var todo: set<int> := houseMap.Keys;
      while todo != {}
        invariant todo <= houseMap.Keys
        invariant forall s :: s in m <==> exists g :: g in houseMap && g !in todo && s in Gui.NamesIn(Value()[g].house.users, rid)
        decreases |todo|
      {
        var g := LeastOf(todo);
        m := houseMap[g].CollectNames(rid, m);
        todo := todo - {g};
      }
      assert m.Keys == Gui.Participants(Value(), rid);
      n := |m|;
    }

    /** Each participant's name, once. */
    method UsersInRoom(rid: string) returns (n: nat, out: seq<string>)
      requires Valid()
      ensures n == |out| == |Gui.Participants(Value(), rid)|
      ensures forall s :: s in out <==> s in Gui.Participants(Value(), rid)
      ensures forall i, j :: 0 <= i < j < |out| ==> out[i] != out[j]
    {
      hide GroupModel.Valid, ChatHouse.House.Valid;
      var m: map<string, bool> := map[];
      var todo: set<int> := houseMap.Keys;
      out := [];
      while todo != {}
        invariant todo <= houseMap.Keys
        invariant forall s :: s in m <==> exists g :: g in houseMap && g !in todo && s in Gui.NamesIn(Value()[g].house.users, rid)
        invariant forall s :: s in out <==> s in m
        invariant forall i, j :: 0 <= i < j < |out| ==> out[i] != out[j]
        decreases |todo|
      {
        var g := LeastOf(todo);
        m, out := houseMap[g].EmitNames(rid, m, out);
        todo := todo - {g};
      }
      assert m.Keys == Gui.Participants(Value(), rid);
      OnceEach(out, m.Keys);
      n := |m|;
    }
  }

  /** Maps are visited in the order of their keys. */
  method LeastOf(todo: set<int>) returns (g: int)
    requires todo != {}
    ensures g in todo && forall h :: h in todo ==> g <= h
  {
    LeastExists(todo);
    g :| g in todo && forall h :: h in todo ==> g <= h;
  }

  lemma {:induction false} LeastExists(todo: set<int>)
    requires todo != {}
    ensures exists g :: g in todo && forall h :: h in todo ==> g <= h
  {
    assert (forall h :: h !in todo) ==> todo == {};
    var g :| g in todo;
    if todo != {g} {
      var rest := todo - {g};
      LeastExists(rest);
      var l :| l in rest && forall h :: h in rest ==> l <= h;
      var least := if g <= l then g else l;
      assert todo == rest + {g};
      assert least in todo && forall h :: h in todo ==> least <= h;
    }
  }

  lemma {:induction false} OnceEach(out: seq<string>, names: set<string>)
    requires forall s :: s in out <==> s in names
    requires forall i, j :: 0 <= i < j < |out| ==> out[i] != out[j]
    ensures |out| == |names|
  {
    if out != [] {
      var last := out[|out| - 1];
      var front := out[..|out| - 1];
      assert out == front + [last];
      OnceEach(front, names - {last});
    }
  }
}
