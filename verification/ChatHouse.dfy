/** chat::house: users and rooms, each kept as a list in order of arrival and as an index by key into
    that list. */
module ChatHouse {
  import opened Wrappers
  import opened UserKeys
  import opened Lobby

  /** A list element; an iterator is a reference to one, and end() is null. What the element is found
      by never changes while it is in the list: assignment keeps ids. */
  class Cell<K, V> {
    const key: K
    var value: V

    constructor (k: K, v: V)
      ensures key == k && value == v
    {
      key := k;
      value := v;
    }
  }

  /** Linear search: the first position of k, or the length of the list. */
  function Scan<K(==)>(keys: seq<K>, k: K): (i: nat)
    ensures i <= |keys|
    ensures i < |keys| ==> keys[i] == k
    ensures forall j :: 0 <= j < i ==> keys[j] != k
  {
    if keys == [] || keys[0] == k then 0 else 1 + Scan(keys[1..], k)
  }

  ghost predicate AllDifferent<K(!new)>(keys: seq<K>) {
    forall i, j :: 0 <= i < j < |keys| ==> keys[i] != keys[j]
  }

  function Drop<T>(s: seq<T>, i: nat): (r: seq<T>)
    requires i < |s|
    ensures |r| == |s| - 1 && forall j :: 0 <= j < |r| ==> r[j] == if j < i then s[j] else s[j + 1]
  {
    s[..i] + s[i + 1..]
  }

  lemma DropInside<T>(s: seq<T>, i: nat)
    requires i < |s|
    ensures forall x :: x in Drop(s, i) ==> x in s
  {
  }

  lemma DropOne<K(!new)>(keys: seq<K>, i: nat)
    requires AllDifferent(keys) && i < |keys|
    ensures AllDifferent(Drop(keys, i))
    ensures forall k :: k in Drop(keys, i) <==> k in keys && k != keys[i]
  {
    var less := Drop(keys, i);
    forall k | k in keys && k != keys[i]
      ensures k in less
    {
      var j :| 0 <= j < |keys| && keys[j] == k;
      assert less[if j < i then j else j - 1] == k;
    }
  }

  /** list::erase through an iterator. */
  function Without<K, V>(cells: seq<Cell<K, V>>, c: Cell<K, V>): seq<Cell<K, V>> {
    if cells == [] then [] else if cells[0] == c then cells[1..] else [cells[0]] + Without(cells[1..], c)
  }

  lemma {:induction false} WithoutIsDrop<K, V>(cells: seq<Cell<K, V>>, i: nat)
    requires i < |cells| && forall j :: 0 <= j < |cells| && j != i ==> cells[j] != cells[i]
    ensures Without(cells, cells[i]) == Drop(cells, i)
  {
    if i > 0 {
      WithoutIsDrop(cells[1..], i - 1);
    }
  }

  /** Each key occurs once in the list, and the index leads from exactly the keys of the list to their
      elements. */
  ghost predicate Indexed<K(!new), V>(keys: seq<K>, cells: seq<Cell<K, V>>, index: map<K, Cell<K, V>>) {
    && |keys| == |cells| && AllDifferent(keys)
    && (forall i :: 0 <= i < |keys| ==> keys[i] in index && index[keys[i]] == cells[i] && cells[i].key == keys[i])
    && (forall k :: k in index <==> k in keys)
  }

  /** The index agrees with the list, and `view` with the values in it. */
  ghost predicate Agrees<K(!new), V>(keys: seq<K>, cells: seq<Cell<K, V>>, index: map<K, Cell<K, V>>, view: map<K, V>)
    reads cells
  {
    && Indexed(keys, cells, index)
    && view.Keys == index.Keys
    && (forall k :: k in index ==> index[k] in cells && view[k] == index[k].value)
  }

  lemma ScanIndexed<K(!new), V>(keys: seq<K>, cells: seq<Cell<K, V>>, index: map<K, Cell<K, V>>, k: K)
    requires Indexed(keys, cells, index) && k in index
    ensures Scan(keys, k) < |keys| == |cells| && cells[Scan(keys, k)] == index[k]
    ensures Without(cells, index[k]) == Drop(cells, Scan(keys, k))
  {
    var i := Scan(keys, k);
    assert forall j :: 0 <= j < |cells| && j != i ==> cells[j].key != k;
    WithoutIsDrop(cells, i);
  }

  lemma DropIndexed<K(!new), V>(keys: seq<K>, cells: seq<Cell<K, V>>, index: map<K, Cell<K, V>>, i: nat)
    requires Indexed(keys, cells, index) && i < |keys|
    ensures Indexed(Drop(keys, i), Drop(cells, i), index - {keys[i]})
    ensures forall k :: k in index && k != keys[i] ==> index[k] in Drop(cells, i)
  {
    DropOne(keys, i);
    hide Indexed, Drop, AllDifferent;
    forall j | 0 <= j < |Drop(keys, i)|
      ensures EntryAgrees(Drop(keys, i), Drop(cells, i), index - {keys[i]}, j)
    {
      DropEntry(keys, cells, index, i, j);
    }
    DropKeys(keys, cells, index, i);
    FromEntries(Drop(keys, i), Drop(cells, i), index - {keys[i]});
  }

  ghost predicate EntryAgrees<K(!new), V>(keys: seq<K>, cells: seq<Cell<K, V>>, index: map<K, Cell<K, V>>, j: nat) {
    j < |keys| == |cells| && keys[j] in index && index[keys[j]] == cells[j] && cells[j].key == keys[j]
  }

  lemma DropEntry<K(!new), V>(keys: seq<K>, cells: seq<Cell<K, V>>, index: map<K, Cell<K, V>>, i: nat, j: nat)
    requires Indexed(keys, cells, index) && i < |keys| && j < |keys| - 1
    ensures EntryAgrees(Drop(keys, i), Drop(cells, i), index - {keys[i]}, j)
  {
    DifferentAt(keys, i);
    var j0 := if j < i then j else j + 1;
    assert Drop(keys, i)[j] == keys[j0] && Drop(cells, i)[j] == cells[j0];
  }

  lemma DropKeys<K(!new), V>(keys: seq<K>, cells: seq<Cell<K, V>>, index: map<K, Cell<K, V>>, i: nat)
    requires Indexed(keys, cells, index) && i < |keys|
    ensures forall k :: k in index <==> k in keys
    ensures |Drop(cells, i)| == |Drop(keys, i)|
    ensures forall k :: k in index && k != keys[i] ==> index[k] in Drop(cells, i)
  {
    DropKeeps(cells, i);
    hide Drop;
    forall k | k in index && k != keys[i]
      ensures index[k] in Drop(cells, i)
    {
      var j :| 0 <= j < |keys| && keys[j] == k;
      assert index[k] == cells[j];
    }
  }

  lemma FromEntries<K(!new), V>(keys: seq<K>, cells: seq<Cell<K, V>>, index: map<K, Cell<K, V>>)
    requires AllDifferent(keys) && |keys| == |cells| && forall j :: 0 <= j < |keys| ==> EntryAgrees(keys, cells, index, j)
    requires forall k :: k in index ==> k in keys
    ensures Indexed(keys, cells, index)
  {
    forall j | 0 <= j < |keys|
      ensures keys[j] in index && index[keys[j]] == cells[j] && cells[j].key == keys[j]
    {
      assert EntryAgrees(keys, cells, index, j);
    }
  }

  lemma DifferentAt<K(!new)>(keys: seq<K>, i: nat)
    requires AllDifferent(keys) && i < |keys|
    ensures forall j :: 0 <= j < |keys| && j != i ==> keys[j] != keys[i]
  {
  }

  lemma DropKeeps<T>(s: seq<T>, i: nat)
    requires i < |s|
    ensures forall j :: 0 <= j < |s| && j != i ==> s[j] in Drop(s, i)
  {
    forall j | 0 <= j < |s| && j != i
      ensures s[j] in Drop(s, i)
    {
      assert Drop(s, i)[if j < i then j else j - 1] == s[j];
    }
  }

  lemma KeysAgree<K(!new), V>(keys: seq<K>, cells: seq<Cell<K, V>>, index: map<K, Cell<K, V>>, view: map<K, V>)
    requires Agrees(keys, cells, index, view)
    ensures index.Keys == view.Keys
  {
  }

  lemma DropAgrees<K(!new), V>(keys: seq<K>, cells: seq<Cell<K, V>>, index: map<K, Cell<K, V>>, view: map<K, V>, k: K)
    requires Agrees(keys, cells, index, view) && k in index
    ensures Scan(keys, k) < |keys|
    ensures Agrees(Drop(keys, Scan(keys, k)), Without(cells, index[k]), index - {k}, view - {k})
    ensures forall c :: c in Without(cells, index[k]) ==> c in cells
  {
    hide Scan, Indexed, Drop, Without;
    var i := Scan(keys, k);
    ScanIndexed(keys, cells, index, k);
    DropIndexed(keys, cells, index, i);
    DropInside(cells, i);
  }

  lemma AppendIndexed<K(!new), V>(keys: seq<K>, cells: seq<Cell<K, V>>, index: map<K, Cell<K, V>>, it: Cell<K, V>)
    requires Indexed(keys, cells, index) && it.key !in index
    ensures Indexed(keys + [it.key], cells + [it], index[it.key := it])
  {
  }

  class Table<K(==,!new), V> {
    var cells: seq<Cell<K, V>>
    var index: map<K, Cell<K, V>>
    ghost var keys: seq<K>       // the keys in list order
    ghost var view: map<K, V>    // what each key leads to

    ghost predicate Valid()
      reads this, cells
    {
      Agrees(keys, cells, index, view)
    }

    constructor ()
      ensures Valid() && cells == [] && keys == [] && view == map[]
    {
      cells, index, keys, view := [], map[], [], map[];
    }

    /** Finding by index is finding by scanning the list. */
    lemma FindIsScan(k: K)
      requires Valid()
      ensures k in view <==> Scan(keys, k) < |keys|
      ensures k in view ==> index[k] == cells[Scan(keys, k)]
    {
    }

    method Find(k: K) returns (it: Cell?<K, V>)
      requires Valid()
      ensures it == null <==> k !in view
      ensures it != null ==> it in cells && k in index && it == index[k] && it.key == k && it.value == view[k]
    {
      it := null;
      if k in index {
        it := index[k];
        FindIsScan(k);
      }
    }

    method Insert(k: K, v: V) returns (it: Cell?<K, V>)
      requires Valid()
      modifies this
      ensures Valid() && forall c :: c in cells ==> c in old(cells) || c == it
      ensures it == null <==> k in old(view)
      ensures it == null ==> cells == old(cells)
      ensures it != null ==> fresh(it) && it in cells && it.key == k && it.value == v
      ensures keys == if it == null then old(keys) else old(keys) + [k]
      ensures view == if it == null then old(view) else old(view)[k := v]
    {
      if k in index {
        return null;
      }
      it := new Cell(k, v);
      AppendIndexed(keys, cells, index, it);
      cells := cells + [it];
      index := index[k := it];
      keys := keys + [k];
      view := view[k := v];
    }

    method Erase(k: K) returns (erased: bool)
      requires Valid()
      modifies this
      ensures Valid() && forall c :: c in cells ==> c in old(cells)
      ensures erased <==> k in old(view)
      ensures view == if erased then old(view) - {k} else old(view)
      ensures keys == if erased then Drop(old(keys), Scan(old(keys), k)) else old(keys)
    {
      hide Scan, Drop, Without, Agrees;
      erased := k in index;
      assert erased <==> k in view by {
        KeysAgree(keys, cells, index, view);
      }
      if erased {
        DropAgrees(keys, cells, index, view, k);
        keys, cells, index, view := Drop(keys, Scan(keys, k)), Without(cells, index[k]), index - {k}, view - {k};
      }
    }

    /** Writing through an iterator. */
    method Write(it: Cell<K, V>, v: V)
      requires Valid() && it in cells
      modifies it`value, this`view
      ensures Valid() && it.value == v
      ensures it.key in old(view) && view == old(view)[it.key := v]
    {
      it.value := v;
      view := view[it.key := v];
    }
  }

  lemma UsersKeyed(h: Lobby.House, u: User)
    requires WellKeyed(h) && u.id.node.Some?
    ensures WellKeyed(h.(users := h.users[u.id.node := u]))
    ensures WellKeyed(h.(users := h.users - {u.id.node}))
  {
  }

  lemma RoomsKeyed(h: Lobby.House, r: Room)
    requires WellKeyed(h)
    ensures WellKeyed(h.(rooms := h.rooms[r.id := r]))
    ensures WellKeyed(h.(rooms := h.rooms - {r.id}))
  {
  }

  type UserIt = Cell?<Option<Node>, User>

  type RoomIt = Cell?<string, Room>

  /** Ids are never changed behind the index's back, and every user has a node. */
  class House {
    const users: Table<Option<Node>, User>
    const rooms: Table<string, Room>

    ghost predicate Valid()
      reads users, rooms, users.cells, rooms.cells
    {
      users.Valid() && rooms.Valid() && WellKeyed(Value())
    }

    /** The house without the order of its lists. */
    ghost function Value(): Lobby.House
      reads users, rooms
    {
      Lobby.House(users.view, rooms.view)
    }

    constructor ()
      ensures Valid() && Value() == EMPTY_HOUSE
      ensures fresh(users) && fresh(rooms) && users.cells == [] && rooms.cells == []
    {
      users := new Table();
      rooms := new Table();
    }

    method UserInsert(u: User) returns (it: UserIt)
      requires Valid() && u.id.node.Some?
      modifies users
      ensures Valid() && forall c :: c in users.cells ==> c in old(users.cells) || c == it
      ensures it == null <==> u.id.node in old(users.view)
      ensures it != null ==> fresh(it) && it in users.cells && it.key == u.id.node && it.value == u
      ensures users.view == if it == null then old(users.view) else old(users.view)[u.id.node := u]
    {
      hide Agrees, WellKeyed;
      it := users.Insert(u.id.node, u);
      UsersKeyed(old(Value()), u);
    }

    method UserErase(id: UserKey) returns (erased: bool)
      requires Valid()
      modifies users
      ensures Valid() && forall c :: c in users.cells ==> c in old(users.cells)
      ensures erased <==> id.node in old(users.view)
      ensures users.view == if erased then old(users.view) - {id.node} else old(users.view)
    {
      hide Agrees, WellKeyed;
      UserKeyed(id.node);
      erased := users.Erase(id.node);
      if erased {
        UsersKeyed(old(Value()), old(users.view)[id.node]);
      }
    }

    /** A user is found by node alone. */
    method UserFind(id: UserKey) returns (it: UserIt)
      requires Valid()
      ensures it == null <==> id.node !in users.view
      ensures it != null ==> it in users.cells && it.key == id.node == it.value.id.node && it.value == users.view[id.node]
    {
      hide Agrees, WellKeyed;
      it := users.Find(id.node);
      UserKeyed(id.node);
    }

    lemma UserKeyed(k: Option<Node>)
      requires Valid()
      ensures k in users.view ==> k.Some? && users.view[k].id.node == k
    {
    }

    lemma UserCellKeyed(it: Cell<Option<Node>, User>)
      requires Valid() && it in users.cells
      ensures it.key in users.view && users.view[it.key] == it.value && it.value.id.node == it.key && it.key.Some?
    {
    }

    lemma IsWellKeyed()
      requires Valid()
      ensures WellKeyed(Value())
    {
    }

    lemma UserCellAt(i: nat)
      requires Valid() && i < |users.cells|
      ensures i < |users.keys| && users.cells[i].value.id.node == users.keys[i] && users.keys[i] !in users.keys[..i]
      ensures users.keys[i] in users.view && users.view[users.keys[i]] == users.cells[i].value
    {
      assert users.keys[i] in users.index;
    }

    lemma UserKeysAre()
      requires Valid()
      ensures |users.keys| == |users.cells| && forall k :: k in users.view <==> k in users.keys
    {
    }

    /** Assignment and the id setter, through an iterator: the node stays. */
    method SetUser(it: Cell<Option<Node>, User>, u: User)
      requires Valid() && it in users.cells && u.id.node == it.key
      modifies it`value, users`view
      ensures Valid() && it.value == u
      ensures it.key in old(users.view) && users.view == old(users.view)[it.key := u]
    {
      hide Agrees, WellKeyed;
      users.Write(it, u);
      UserWasKeyed(old(Value()), it.key);
      UsersKeyed(old(Value()), u);
    }

    lemma UserWasKeyed(h: Lobby.House, k: Option<Node>)
      requires WellKeyed(h) && k in h.users
      ensures k.Some?
    {
    }

    method RoomInsert(r: Room) returns (it: RoomIt)
      requires Valid()
      modifies rooms
      ensures Valid() && forall c :: c in rooms.cells ==> c in old(rooms.cells) || c == it
      ensures it == null <==> r.id in old(rooms.view)
      ensures it != null ==> fresh(it) && it in rooms.cells && it.key == r.id && it.value == r
      ensures rooms.view == if it == null then old(rooms.view) else old(rooms.view)[r.id := r]
    {
      hide Agrees, WellKeyed;
      it := rooms.Insert(r.id, r);
      RoomsKeyed(old(Value()), r);
    }

    method RoomErase(rid: string) returns (erased: bool)
      requires Valid()
      modifies rooms
      ensures Valid() && forall c :: c in rooms.cells ==> c in old(rooms.cells)
      ensures erased <==> rid in old(rooms.view)
      ensures rooms.view == if erased then old(rooms.view) - {rid} else old(rooms.view)
    {
      hide Agrees, WellKeyed;
      RoomKeyed(rid);
      erased := rooms.Erase(rid);
      if erased {
        RoomsKeyed(old(Value()), old(rooms.view)[rid]);
      }
    }

    lemma RoomKeyed(rid: string)
      requires Valid()
      ensures rid in rooms.view ==> rooms.view[rid].id == rid
    {
    }

    method RoomFind(rid: string) returns (it: RoomIt)
      requires Valid()
      ensures it == null <==> rid !in rooms.view
      ensures it != null ==> it in rooms.cells && it.key == rid == it.value.id && it.value == rooms.view[rid]
    {
      hide Agrees, WellKeyed;
      it := rooms.Find(rid);
      RoomKeyed(rid);
    }

    lemma RoomCellKeyed(it: Cell<string, Room>)
      requires Valid() && it in rooms.cells
      ensures it.key in rooms.view && rooms.view[it.key] == it.value && it.value.id == it.key
    {
    }

    method SetRoom(it: Cell<string, Room>, r: Room)
      requires Valid() && it in rooms.cells && r.id == it.key
      modifies it`value, rooms`view
      ensures Valid() && it.value == r
      ensures it.key in old(rooms.view) && rooms.view == old(rooms.view)[it.key := r]
    {
      hide Agrees, WellKeyed;
      rooms.Write(it, r);
      RoomsKeyed(old(Value()), r);
    }

    /** chat_gaming::house's search by id string: a scan of the list, the first one wins. */
    method UserFindByName(idStr: string) returns (it: UserIt)
      requires Valid()
      ensures it == null ==> forall k :: k in users.view ==> users.view[k].id.idStr != idStr
      ensures it != null ==>
        exists i :: 0 <= i < |users.cells| == |users.keys| && it == users.cells[i]
          && users.view[users.keys[i]].id.idStr == idStr
          && forall j :: 0 <= j < i ==> users.view[users.keys[j]].id.idStr != idStr
    {
      it := null;
      for i := 0 to |users.cells|
        invariant forall j :: 0 <= j < i ==> users.view[users.keys[j]].id.idStr != idStr
      {
        assert users.keys[i] in users.view;
        if users.cells[i].value.id.idStr == idStr {
          return users.cells[i];
        }
      }
    }
  }
}
