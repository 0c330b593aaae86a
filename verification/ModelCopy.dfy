/** One group of the GUI's copy of the house, with the index that finds users by their id string
    alone. Functions on values; the ModelHouse class is proved to do exactly this. */
module ModelCopy {
  import opened Wrappers
  import opened UserKeys
  import opened Lobby
  import Protocol
  import Replay

  datatype Copy = Copy(house: House, index: map<string, UserKey>)

  const EMPTY_COPY := Copy(EMPTY_HOUSE, map[])

  /** std::map::insert: an entry that is there already stays. */
  function IndexInsert(index: map<string, UserKey>, id: UserKey): map<string, UserKey> {
    if id.idStr in index then index else index[id.idStr := id]
  }

  function UserUpdated(c: Copy, u: User): Copy {
    if u.id.node !in c.house.users then
      Copy(Protocol.SetUser(c.house, u), if u.id.idStr == "" then c.index else IndexInsert(c.index, u.id))
    else
      var was := c.house.users[u.id.node];
      if u.id.idStr == "" then c
      else if was.id.idStr != u.id.idStr then
        Copy(Protocol.SetUser(c.house, u), IndexInsert(c.index - {was.id.idStr}, u.id))
      else
        Copy(c.house.(users := c.house.users[u.id.node := was.Assign(u)]), c.index)
  }

  function UserErased(c: Copy, id: UserKey): Copy {
    Copy(c.house.(users := c.house.users - {id.node}), c.index - {id.idStr})
  }

  function RoomUpdated(c: Copy, r: Room): Copy {
    c.(house := c.house.(rooms := c.house.rooms[r.id := if r.id in c.house.rooms then c.house.rooms[r.id].Assign(r) else r]))
  }

  function RoomErased(c: Copy, rid: string): Copy {
    c.(house := c.house.(rooms := c.house.rooms - {rid}))
  }

  /** A search by id string alone first borrows the node from the index. */
  function SearchKey(c: Copy, id: UserKey): Option<Node> {
    if id.node.None? && id.idStr in c.index then c.index[id.idStr].node else id.node
  }

  function Find(c: Copy, id: UserKey): Option<User> {
    var k := SearchKey(c, id);
    if k in c.house.users then Some(c.house.users[k]) else None
  }

  function Apply(c: Copy, m: Message): Copy {
    match m
    case UserMessage(u) => UserUpdated(c, u)
    case UserLeft(u) => UserErased(c, u.id)
    case RoomMessage(r) => RoomUpdated(c, r)
    case RoomRemove(r) => RoomErased(c, r.id)
    case JoinRequest(_, _, _, _) => c
    case Channel(_, _, _) => c
  }

  function Fold(c: Copy, ms: seq<Message>): Copy
    decreases |ms|
  {
    if ms == [] then c else Apply(Fold(c, ms[..|ms| - 1]), ms[|ms| - 1])
  }

  /** The houses of the copy go through exactly the states that the protocol's replay describes,
      whatever the index holds. */
  lemma ApplyOnHouse(c: Copy, m: Message)
    requires WellKeyed(c.house)
    requires m.UserMessage? ==> m.user.id.node.Some?
    ensures Apply(c, m).house == Protocol.Apply(c.house, m)
    ensures WellKeyed(Apply(c, m).house)
  {
    match m
    case UserMessage(u) =>
      if u.id.node in c.house.users && u.id.idStr == c.house.users[u.id.node].id.idStr && u.id.idStr != "" {
        assert c.house.users[u.id.node].Assign(u) == u;
      }
    case RoomMessage(r) =>
      if r.id in c.house.rooms {
        assert c.house.rooms[r.id].Assign(r) == r;
      }
    case _ =>
  }

  /** No two users of the group have the same (known) id string. */
  ghost predicate UniqueNames(h: House) {
    forall j, k :: j in h.users && k in h.users && h.users[j].id.idStr == h.users[k].id.idStr != "" ==> j == k
  }

  /** Every entry of the index names a live user with that string. */
  ghost predicate IndexSound(c: Copy) {
    forall s :: s in c.index ==>
      s != "" && c.index[s].node in c.house.users && c.house.users[c.index[s].node].id.idStr == s
  }

  ghost predicate IndexComplete(c: Copy) {
    forall k :: k in c.house.users && c.house.users[k].id.idStr != "" ==> c.house.users[k].id.idStr in c.index
  }

  /** What the model relies on: users that are announced have a node, and an erase carries the id that
      the user has. */
  predicate Current(h: House, m: Message) {
    match m
    case UserMessage(u) => u.id.node.Some?
    case UserLeft(u) => u.id.node in h.users && h.users[u.id.node].id == u.id
    case _ => true
  }

  ghost predicate AllCurrent(h: House, ms: seq<Message>) {
    forall i :: 0 <= i < |ms| ==> Current(Protocol.Fold(h, ms[..i]), ms[i])
  }

  lemma InOrderIsCurrent(h: House, ms: seq<Message>)
    requires Replay.AllInOrder(h, ms)
    ensures AllCurrent(h, ms)
  {
  }

  lemma ApplyKeepsSound(c: Copy, m: Message)
    requires WellKeyed(c.house) && IndexSound(c) && Current(c.house, m)
    ensures IndexSound(Apply(c, m))
  {
    ApplyOnHouse(c, m);
  }

  /** Another user than the one at node k has the id string s. */
  ghost predicate SharedBy(h: House, s: string, k: Option<Node>) {
    exists j :: j in h.users && j != k && h.users[j].id.idStr == s
  }

  /** The message takes an id string that is known away from a user while another user has it too: the
      user leaves, or gets another string. */
  ghost predicate TakesShared(h: House, m: Message) {
    match m
    case UserLeft(u) => u.id.idStr != "" && SharedBy(h, u.id.idStr, u.id.node)
    case UserMessage(u) =>
      && u.id.node in h.users && h.users[u.id.node].id.idStr != ""
      && u.id.idStr != "" && h.users[u.id.node].id.idStr != u.id.idStr
      && SharedBy(h, h.users[u.id.node].id.idStr, u.id.node)
    case _ => false
  }

  /** An erase keeps every known user in the index if and only if nobody else has the id string. */
  lemma EraseKeepsComplete(c: Copy, u: User)
    requires IndexComplete(c) && u.id.node in c.house.users && c.house.users[u.id.node].id == u.id
    ensures IndexComplete(UserErased(c, u.id)) <==> u.id.idStr == "" || !SharedBy(c.house, u.id.idStr, u.id.node)
  {
    var c' := UserErased(c, u.id);
    if u.id.idStr != "" && SharedBy(c.house, u.id.idStr, u.id.node) {
      var j :| j in c.house.users && j != u.id.node && c.house.users[j].id.idStr == u.id.idStr;
      assert j in c'.house.users && c'.house.users[j].id.idStr !in c'.index;
    } else {
      forall j | j in c'.house.users && c'.house.users[j].id.idStr != ""
        ensures c'.house.users[j].id.idStr in c'.index
      {
        assert j in c.house.users && c.house.users[j] == c'.house.users[j];
      }
    }
  }

  /** An update keeps every known user in the index unless it replaces a known id string that somebody
      else has, and then it does not. */
  lemma UpdateKeepsComplete(c: Copy, u: User)
    requires IndexComplete(c)
    ensures IndexComplete(UserUpdated(c, u)) <==> !TakesShared(c.house, UserMessage(u))
  {
    var c' := UserUpdated(c, u);
    if TakesShared(c.house, UserMessage(u)) {
      var was := c.house.users[u.id.node];
      var j :| j in c.house.users && j != u.id.node && c.house.users[j].id.idStr == was.id.idStr;
      assert j in c'.house.users && c'.house.users[j].id.idStr !in c'.index;
    } else {
      forall j | j in c'.house.users && c'.house.users[j].id.idStr != ""
        ensures c'.house.users[j].id.idStr in c'.index
      {
        if j != u.id.node {
          assert j in c.house.users && c.house.users[j] == c'.house.users[j] && c.house.users[j].id.idStr in c.index;
        }
      }
    }
  }

  /** The index stays complete over one message exactly if the message takes no shared id string. */
  lemma ApplyKeepsComplete(c: Copy, m: Message)
    requires IndexComplete(c) && Current(c.house, m)
    ensures IndexComplete(Apply(c, m)) <==> !TakesShared(c.house, m)
  {
    match m
    case UserMessage(u) => UpdateKeepsComplete(c, u);
    case UserLeft(u) => EraseKeepsComplete(c, u);
    case _ =>
      assert Apply(c, m).house.users == c.house.users && Apply(c, m).index == c.index;
  }

  /** After any run of updates and erases the houses are those of the protocol's replay, and every index
      entry names a live user with that string. */
  lemma {:induction false} IndexOverRuns(c: Copy, ms: seq<Message>)
    requires WellKeyed(c.house) && IndexSound(c) && AllCurrent(c.house, ms)
    ensures Fold(c, ms).house == Protocol.Fold(c.house, ms)
    ensures WellKeyed(Fold(c, ms).house) && IndexSound(Fold(c, ms))
    decreases |ms|
  {
    if ms != [] {
      var front, m := ms[..|ms| - 1], ms[|ms| - 1];
      OneMessageMore(c, c.house, ms);
      IndexOverRuns(c, front);
      ApplyOnHouse(Fold(c, front), m);
      ApplyKeepsSound(Fold(c, front), m);
    }
  }

  /** The message takes the id string s away from a user that has it. */
  ghost predicate Takes(h: House, m: Message, s: string) {
    match m
    case UserLeft(u) => u.id.idStr == s
    case UserMessage(u) => u.id.node in h.users && h.users[u.id.node].id.idStr == s && u.id.idStr != "" && u.id.idStr != s
    case _ => false
  }

  ghost predicate NeverTakes(h: House, ms: seq<Message>, s: string) {
    forall i :: 0 <= i < |ms| ==> !Takes(Protocol.Fold(h, ms[..i]), ms[i], s)
  }

  /** Whoever is found under a string is found under it until it is taken away, whoever else comes. */
  lemma {:induction false} HolderStays(c: Copy, ms: seq<Message>, s: string)
    requires WellKeyed(c.house) && IndexSound(c) && AllCurrent(c.house, ms) && NeverTakes(c.house, ms, s) && s in c.index
    ensures s in Fold(c, ms).index && Fold(c, ms).index[s] == c.index[s]
    decreases |ms|
  {
    if ms != [] {
      var front, m := ms[..|ms| - 1], ms[|ms| - 1];
      hide AllCurrent, Current, IndexSound, Takes, NeverTakes, WellKeyed, Apply, Protocol.Fold;
      OneMessageMore(c, c.house, ms);
      TakesOneMore(c.house, ms, s);
      IndexOverRuns(c, front);
      HolderStays(c, front, s);
      NotTakenStays(Fold(c, front), m, s);
    }
  }

  lemma TakesOneMore(h: House, ms: seq<Message>, s: string)
    requires ms != [] && NeverTakes(h, ms, s)
    ensures NeverTakes(h, ms[..|ms| - 1], s) && !Takes(Protocol.Fold(h, ms[..|ms| - 1]), ms[|ms| - 1], s)
  {
    hide Protocol.Fold, Takes;
    var front := ms[..|ms| - 1];
    assert forall i :: 0 <= i <= |front| ==> front[..i] == ms[..i];
  }

  lemma NotTakenStays(c: Copy, m: Message, s: string)
    requires s in c.index && !Takes(c.house, m, s)
    ensures s in Apply(c, m).index && Apply(c, m).index[s] == c.index[s]
  {
  }

  /** So a user that takes a free string is the one found under it, through every run that leaves it the
      string. */
  lemma FirstIsFound(c: Copy, u: User, ms: seq<Message>)
    requires WellKeyed(c.house) && IndexSound(c) && u.id.node.Some? && u.id.idStr != "" && u.id.idStr !in c.index
    requires u.id.node in c.house.users ==> c.house.users[u.id.node].id.idStr != u.id.idStr
    requires var c' := Apply(c, UserMessage(u)); AllCurrent(c'.house, ms) && NeverTakes(c'.house, ms, u.id.idStr)
    ensures var found := Find(Fold(Apply(c, UserMessage(u)), ms), UserKey(None, u.id.idStr));
            found.Some? && found.value.id == UserKey(u.id.node, u.id.idStr)
  {
    hide Fold, AllCurrent, NeverTakes, Protocol.Fold;
    ApplyOnHouse(c, UserMessage(u));
    ApplyKeepsSound(c, UserMessage(u));
    var c' := Apply(c, UserMessage(u));
    HolderStays(c', ms, u.id.idStr);
    IndexOverRuns(c', ms);
  }

  /** At every moment of the run, every known user is in the index. */
  ghost predicate AlwaysComplete(c: Copy, ms: seq<Message>) {
    forall i :: 0 <= i <= |ms| ==> IndexComplete(Fold(c, ms[..i]))
  }

  ghost predicate NeverTakesShared(h: House, ms: seq<Message>) {
    forall i :: 0 <= i < |ms| ==> !TakesShared(Protocol.Fold(h, ms[..i]), ms[i])
  }

  lemma OneMessageMore(c: Copy, h: House, ms: seq<Message>)
    requires ms != []
    ensures var front, m := ms[..|ms| - 1], ms[|ms| - 1];
            && (AlwaysComplete(c, ms) <==> AlwaysComplete(c, front) && IndexComplete(Fold(c, ms)))
            && (NeverTakesShared(h, ms) <==> NeverTakesShared(h, front) && !TakesShared(Protocol.Fold(h, front), m))
            && (AllCurrent(h, ms) <==> AllCurrent(h, front) && Current(Protocol.Fold(h, front), m))
  {
    hide Fold, Protocol.Fold, IndexComplete, TakesShared, Current;
    var front := ms[..|ms| - 1];
    assert forall i :: 0 <= i <= |front| ==> front[..i] == ms[..i];
    assert ms[..|ms|] == ms;
  }

  /** No known user is ever missing from the index if and only if no message of the run takes an id
      string that another user has at that moment. */
  lemma {:induction false} CompleteOverRuns(c: Copy, ms: seq<Message>)
    requires WellKeyed(c.house) && IndexSound(c) && IndexComplete(c) && AllCurrent(c.house, ms)
    ensures AlwaysComplete(c, ms) <==> NeverTakesShared(c.house, ms)
    decreases |ms|
  {
    if ms == [] {
      assert ms[..0] == [];
    } else {
      var front, m := ms[..|ms| - 1], ms[|ms| - 1];
      hide AlwaysComplete, NeverTakesShared, AllCurrent, Current, IndexComplete, IndexSound, TakesShared;
      OneMessageMore(c, c.house, ms);
      CompleteOverRuns(c, front);
      IndexOverRuns(c, front);
      if AlwaysComplete(c, front) {
        CompleteNow(c, front);
        ApplyKeepsComplete(Fold(c, front), m);
      }
    }
  }

  lemma CompleteNow(c: Copy, ms: seq<Message>)
    requires AlwaysComplete(c, ms)
    ensures IndexComplete(Fold(c, ms))
  {
    assert ms[..|ms|] == ms;
  }

  lemma UniqueNeverShares(h: House, m: Message)
    requires UniqueNames(h) && Current(h, m)
    ensures !TakesShared(h, m)
  {
  }

  /** A scan of the users for an id string. */
  ghost predicate Named(h: House, s: string) {
    exists k :: k in h.users && h.users[k].id.idStr == s
  }

  /** What a search by string finds is a user with that string; and it finds one whenever there is one,
      for every string, exactly if the index is complete. */
  lemma FindByNameIsScan(c: Copy)
    requires WellKeyed(c.house) && IndexSound(c)
    ensures forall s :: s != "" && Find(c, UserKey(None, s)).Some? ==>
              Find(c, UserKey(None, s)).value.id.idStr == s && Find(c, UserKey(None, s)).value in c.house.users.Values
    ensures (forall s :: s != "" ==> (Find(c, UserKey(None, s)).Some? <==> Named(c.house, s))) <==> IndexComplete(c)
  {
    assert None !in c.house.users;
    forall s | s != "" && s in c.index
      ensures Find(c, UserKey(None, s)) == Some(c.house.users[c.index[s].node])
    {
    }
    forall s | s != "" && s !in c.index
      ensures Find(c, UserKey(None, s)) == None
    {
    }
    if forall s :: s != "" ==> (Find(c, UserKey(None, s)).Some? <==> Named(c.house, s)) {
      forall k | k in c.house.users && c.house.users[k].id.idStr != ""
        ensures c.house.users[k].id.idStr in c.index
      {
        assert Named(c.house, c.house.users[k].id.idStr);
      }
    }
    if IndexComplete(c) {
      forall s | s != ""
        ensures Find(c, UserKey(None, s)).Some? <==> Named(c.house, s)
      {
        if s in c.index {
          assert c.index[s].node in c.house.users;
        }
      }
    }
  }

  /** Over any run of updates and erases from the start: searching by string agrees with a scan, for every
      string and at every moment, if and only if no message takes an id string that another user
      has. */
  lemma SearchOverRuns(ms: seq<Message>)
    requires AllCurrent(EMPTY_HOUSE, ms)
    ensures (forall i, s :: 0 <= i <= |ms| && s != "" ==>
              (Find(Fold(EMPTY_COPY, ms[..i]), UserKey(None, s)).Some? <==> Named(Protocol.Fold(EMPTY_HOUSE, ms[..i]), s)))
       <==> NeverTakesShared(EMPTY_HOUSE, ms)
  {
    hide Find, Named, IndexComplete, TakesShared;
    CompleteFromStart();
    CompleteOverRuns(EMPTY_COPY, ms);
    forall i | 0 <= i <= |ms|
      ensures (forall s :: s != "" ==>
                (Find(Fold(EMPTY_COPY, ms[..i]), UserKey(None, s)).Some? <==> Named(Protocol.Fold(EMPTY_HOUSE, ms[..i]), s)))
         <==> IndexComplete(Fold(EMPTY_COPY, ms[..i]))
    {
      PrefixIsCurrent(EMPTY_HOUSE, ms, i);
      IndexOverRuns(EMPTY_COPY, ms[..i]);
      FindByNameIsScan(Fold(EMPTY_COPY, ms[..i]));
    }
  }

  lemma CompleteFromStart()
    ensures IndexComplete(EMPTY_COPY) && IndexSound(EMPTY_COPY)
  {
  }

  lemma PrefixIsCurrent(h: House, ms: seq<Message>, n: nat)
    requires AllCurrent(h, ms) && n <= |ms|
    ensures AllCurrent(h, ms[..n])
  {
    assert forall i :: 0 <= i < n ==> ms[..n][..i] == ms[..i];
  }

  /** In particular, as long as no two users ever have the same id string, a search by string gives
      exactly the user that a scan finds, and nothing when the scan finds nothing. */
  lemma NameSearchIsScan(ms: seq<Message>, s: string, u: User)
    requires AllCurrent(EMPTY_HOUSE, ms)
    requires forall i :: 0 <= i <= |ms| ==> UniqueNames(Protocol.Fold(EMPTY_HOUSE, ms[..i]))
    requires s != ""
    ensures var c := Fold(EMPTY_COPY, ms);
            && (Find(c, UserKey(None, s)) == Some(u) <==> u.id.idStr == s && u in c.house.users.Values)
            && (Find(c, UserKey(None, s)) == None <==> !Named(c.house, s))
  {
    hide Find, Named, TakesShared, Current, UniqueNames, IndexComplete, IndexSound;
    forall i | 0 <= i < |ms|
      ensures !TakesShared(Protocol.Fold(EMPTY_HOUSE, ms[..i]), ms[i])
    {
      UniqueNeverShares(Protocol.Fold(EMPTY_HOUSE, ms[..i]), ms[i]);
    }
    CompleteFromStart();
    CompleteOverRuns(EMPTY_COPY, ms);
    CompleteNow(EMPTY_COPY, ms);
    IndexOverRuns(EMPTY_COPY, ms);
    assert ms[..|ms|] == ms;
    UniqueSearch(Fold(EMPTY_COPY, ms), s, u);
  }

  lemma UniqueSearch(c: Copy, s: string, u: User)
    requires WellKeyed(c.house) && IndexSound(c) && IndexComplete(c) && UniqueNames(c.house) && s != ""
    ensures Find(c, UserKey(None, s)) == Some(u) <==> u.id.idStr == s && u in c.house.users.Values
    ensures Find(c, UserKey(None, s)) == None <==> !Named(c.house, s)
  {
    FindByNameIsScan(c);
    if u.id.idStr == s && u in c.house.users.Values {
      assert Named(c.house, s);
    }
  }

  /** Two users under one id string: the one that leaves takes the other one's entry with it. */
  lemma SharedNameIsLost(c: Copy, u: User)
    requires WellKeyed(c.house) && IndexSound(c) && IndexComplete(c)
    requires u.id.node in c.house.users && c.house.users[u.id.node].id == u.id && u.id.idStr != ""
    ensures var c' := UserErased(c, u.id);
            Find(c', UserKey(None, u.id.idStr)) == None
            && (Named(c'.house, u.id.idStr) <==> SharedBy(c.house, u.id.idStr, u.id.node))
  {
    var c' := UserErased(c, u.id);
    assert None !in c'.house.users;
    forall j | j in c.house.users && j != u.id.node && c.house.users[j].id.idStr == u.id.idStr
      ensures j in c'.house.users && c'.house.users[j].id.idStr == u.id.idStr
    {
    }
  }

  /** The shortest run in which that happens. */
  lemma SharedNameRun(n1: Node, n2: Node)
    requires n1 != n2
    ensures var u1, u2 := User(UserKey(Some(n1), "x"), UserBody("", 1, "")), User(UserKey(Some(n2), "x"), UserBody("", 1, ""));
            var c := Apply(Apply(Apply(EMPTY_COPY, UserMessage(u1)), UserMessage(u2)), UserLeft(u2));
            u1 in c.house.users.Values && Find(c, UserKey(None, "x")) == None
  {
    var u1, u2 := User(UserKey(Some(n1), "x"), UserBody("", 1, "")), User(UserKey(Some(n2), "x"), UserBody("", 1, ""));
    var c2 := Apply(Apply(EMPTY_COPY, UserMessage(u1)), UserMessage(u2));
    assert c2.house.users == map[Some(n1) := u1, Some(n2) := u2] && c2.index == map["x" := u1.id];
    SharedNameIsLost(c2, u2);
    assert Apply(c2, UserLeft(u2)).house.users[Some(n1)] == u1;
  }
}
