/** multi_feed::user_map: items by name, items of users whose name is not known yet, and items that
    are waiting to be deleted. */
module UserMap {
  import opened Wrappers
  import opened UserKeys
  import opened ViewModel

  function Seconds<T>(list: seq<(UserKey, T)>): (r: seq<T>)
    ensures |r| == |list| && forall i :: 0 <= i < |r| ==> r[i] == list[i].1
  {
    seq(|list|, i requires 0 <= i < |list| => list[i].1)
  }

  /** Each entry of the map counts, so an item under two names counts twice. */
  ghost function InNames<T>(names: map<string, T>): multiset<T>
    decreases |names|
  {
    if names == map[] then multiset{}
    else
      var s := AnyName(names);
      multiset{names[s]} + InNames(names - {s})
  }

  ghost function AnyName<T>(names: map<string, T>): (s: string)
    requires names != map[]
    ensures s in names
  {
    assert (forall t :: t !in names) ==> names == map[];
    var s :| s in names;
    s
  }

  lemma {:induction false} InNamesWithout<T>(names: map<string, T>, s: string)
    requires s in names
    ensures InNames(names) == multiset{names[s]} + InNames(names - {s})
    decreases |names|
  {
    hide InNames;
    InNamesTaken(names);
    var t := AnyName(names);
    if s != t {
      var a, b := names - {t}, names - {s};
      InNamesWithout(a, s);
      InNamesWithout(b, t);
      assert a - {s} == b - {t};
    }
  }

  lemma InNamesTaken<T>(names: map<string, T>)
    requires names != map[]
    ensures InNames(names) == multiset{names[AnyName(names)]} + InNames(names - {AnyName(names)})
  {
  }

  lemma InNamesWith<T>(names: map<string, T>, s: string, x: T)
    requires s !in names
    ensures InNames(names[s := x]) == InNames(names) + multiset{x}
  {
    InNamesWithout(names[s := x], s);
    assert names[s := x] - {s} == names;
  }

  ghost function InList<T>(list: seq<(UserKey, T)>): multiset<T> {
    multiset(Seconds(list))
  }

  lemma NameCounts<T>(names: map<string, T>, s: string, t: string)
    requires s in names && t in names
    ensures names[s] in InNames(names)
    ensures s != t && names[s] == names[t] ==> InNames(names)[names[s]] >= 2
  {
    hide InNames;
    InNamesWithout(names, s);
    if s != t {
      InNamesWithout(names - {s}, t);
    }
  }

  lemma EntryCounts<T>(list: seq<(UserKey, T)>, i: nat, j: nat)
    requires i <= j < |list|
    ensures list[i].1 in InList(list)
    ensures i < j && list[i].1 == list[j].1 ==> InList(list)[list[i].1] >= 2
  {
    var s := Seconds(list);
    assert s[i] in s;
    if i < j {
      assert s == s[..j] + s[j..];
      assert s[..j][i] in s[..j] && s[j..][0] in s[j..];
    }
  }

  lemma InListWithout<T>(list: seq<(UserKey, T)>, id: UserKey)
    requires IndexOf(list, id) < |list|
    ensures InList(list) == InList(Without(list, id)) + multiset{list[IndexOf(list, id)].1}
  {
    hide IndexOf;
    var i := IndexOf(list, id);
    var s := Seconds(list);
    var less := list[..i] + list[i + 1..];
    assert Without(list, id) == less;
    hide Without;
    assert |Seconds(less)| == |s| - 1;
    assert forall j :: 0 <= j < |less| ==> Seconds(less)[j] == less[j].1 == (s[..i] + s[i + 1..])[j];
    assert Seconds(less) == s[..i] + s[i + 1..];
    assert s == s[..i] + ([s[i]] + s[i + 1..]);
  }

  class UserMap<T> {
    var idMap: map<string, T>
    var unidList: seq<(UserKey, T)>
    var dropList: seq<T>

    /** How often each item is held. */
    ghost function Held(): multiset<T>
      reads this
    {
      InNames(idMap) + InList(unidList) + multiset(dropList)
    }

    constructor ()
      ensures idMap == map[] && unidList == [] && dropList == []
      ensures Held() == multiset{}
    {
      idMap, unidList, dropList := map[], [], [];
    }

    method FindIf(uid: UserKey) returns (i: nat)
      ensures i == IndexOf(unidList, uid)
    {
      i := 0;
      while i < |unidList| && !uid.Same(unidList[i].0)
        invariant i <= |unidList|
        invariant forall j :: 0 <= j < i ==> !uid.Same(unidList[j].0)
      {
        i := i + 1;
      }
    }

    method Find(uid: UserKey) returns (item: Option<T>)
      ensures uid.idStr != "" ==> item == if uid.idStr in idMap then Some(idMap[uid.idStr]) else None
      ensures uid.idStr == "" ==>
        item == if IndexOf(unidList, uid) < |unidList| then Some(unidList[IndexOf(unidList, uid)].1) else None
    {
      item := None;
      if uid.idStr != "" {
        if uid.idStr in idMap {
          item := Some(idMap[uid.idStr]);
        }
      } else {
        var i := FindIf(uid);
        if i < |unidList| {
          item := Some(unidList[i].1);
        }
      }
    }

    /** The item of a name and the item of a bare node are both given up to the drop list: nothing is
        lost on the way. */
    method Erase(uid: UserKey) returns (n: nat)
      modifies this
      ensures Held() == old(Held())
      ensures idMap == if uid.idStr != "" then old(idMap) - {uid.idStr} else old(idMap)
      ensures unidList == Without(old(unidList), uid)
      ensures |dropList| == |old(dropList)| + n
    {
      hide InNames, InList, IndexOf, Without;
      n := 0;
      if uid.idStr != "" {
        if uid.idStr in idMap {
          InNamesWithout(idMap, uid.idStr);
          dropList := dropList + [idMap[uid.idStr]];
          idMap := idMap - {uid.idStr};
          n := n + 1;
        }
      }
      var dropped := DropUnid(uid);
      n := n + dropped;
    }

    method DropUnid(uid: UserKey) returns (n: nat)
      modifies this`unidList, this`dropList
      ensures Held() == old(Held())
      ensures unidList == Without(old(unidList), uid)
      ensures |dropList| == |old(dropList)| + n
    {
      hide InNames, InList;
      n := 0;
      var i := FindIf(uid);
      if i < |unidList| {
        InListWithout(unidList, uid);
        dropList := dropList + [unidList[i].1];
        unidList := unidList[..i] + unidList[i + 1..];
        n := 1;
      }
    }

    /** Fails, and takes nothing, exactly when the name is there already. */
    method Insert(uid: UserKey, val: T) returns (inserted: bool)
      modifies this
      ensures inserted <==> uid.idStr == "" || uid.idStr !in old(idMap)
      ensures Held() == if inserted then old(Held()) + multiset{val} else old(Held())
      ensures idMap == if inserted && uid.idStr != "" then old(idMap)[uid.idStr := val] else old(idMap)
      ensures unidList == if uid.idStr == "" then old(unidList) + [(uid, val)] else old(unidList)
      ensures dropList == old(dropList)
    {
      if uid.idStr != "" {
        inserted := uid.idStr !in idMap;
        if inserted {
          InNamesWith(idMap, uid.idStr, val);
          idMap := idMap[uid.idStr := val];
        }
      } else {
        assert Seconds(unidList + [(uid, val)]) == Seconds(unidList) + [val];
        unidList := unidList + [(uid, val)];
        inserted := true;
      }
    }

    /** A user whose name is known does not need the item of its bare node. */
    method Resolve(uid: UserKey)
      modifies this`unidList, this`dropList
      ensures Held() == old(Held())
      ensures unidList == if uid.idStr != "" && uid.idStr in idMap then Without(old(unidList), uid) else old(unidList)
    {
      if uid.idStr != "" && uid.idStr in idMap {
        var _ := DropUnid(uid);
      }
    }

    method PopDropped() returns (item: Option<T>)
      modifies this`dropList
      ensures item == None <==> old(dropList) == []
      ensures item == None ==> dropList == []
      ensures item.Some? ==> old(Held()) == Held() + multiset{item.value} && |dropList| < |old(dropList)|
    {
      if dropList == [] {
        return None;
      }
      item := Some(dropList[0]);
      assert dropList == [dropList[0]] + dropList[1..];
      dropList := dropList[1..];
    }
  }
}
