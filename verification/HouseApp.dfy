/** The GUI thread's message loop over the current and the previous copy of the houses. */
module HouseApp {
  import opened Wrappers
  import opened UserKeys
  import opened Lobby
  import opened Gui
  import ModelCopy
  import DupFilter
  import ViewModel
  import UsersView
  import ChatHouse
  import opened ModelHouse
  import opened Messenger

  /** The answer to a join request goes back to the group it came from. */
  datatype JoinReply = JoinReply(grp: int, to: UserKey, verdict: Verdict)

  function JoinVerdict(cur: Copies, host: Host, t: Tagged): Verdict
    requires t.msg.JoinRequest?
  {
    JudgeJoin(ApplyTo(cur, t), host, t.msg.roomId, t.msg.password)
  }

  function Reply(gui: Gui, host: Host, t: Tagged): seq<JoinReply> {
    if t.msg.JoinRequest? && !Filter(gui.seen, t.msg).0
    then [JoinReply(t.grp, t.msg.sender, JoinVerdict(gui.cur, host, t))]
    else []
  }

  /** Every join request that passes the filter is answered. */
  function Replies(gui: Gui, host: Host, ts: seq<Tagged>): seq<JoinReply>
    decreases |ts|
  {
    if ts == [] then []
    else
      var front, t := ts[..|ts| - 1], ts[|ts| - 1];
      Replies(gui, host, front) + Reply(HandleAll(gui, host, front), host, t)
  }

  lemma OneMore(gui: Gui, v: ViewModel.View, host: Host, ts: seq<Tagged>, lists: seq<seq<UserKey>>, ids: seq<UserKey>)
    requires |lists| < |ts| && ViewModel.AllListed(gui, host, ts[..|lists|], lists)
    ensures var i := |lists|;
            var gui1, t := HandleAll(gui, host, ts[..i]), ts[i];
            var (gui2, v2) := ViewModel.RunView(gui, v, host, ts[..i], lists);
            && HandleAll(gui, host, ts[..i + 1]) == HandleOne(gui1, host, t)
            && ViewModel.RunView(gui, v, host, ts[..i + 1], lists + [ids])
               == (HandleOne(gui2, host, t), ViewModel.Notified(gui2, v2, t, ids))
            && Replies(gui, host, ts[..i + 1]) == Replies(gui, host, ts[..i]) + Reply(gui1, host, t)
            && (ViewModel.ListsRoom(ApplyTo(gui1.cur, t), gui1.prev, t, ids) ==> ViewModel.AllListed(gui, host, ts[..i + 1], lists + [ids]))
  {
    hide HandleOne, Filter, ViewModel.Notified, ApplyTo, Reply, ViewModel.ListsRoom;
    var i, more := |lists|, ts[..|lists| + 1];
    assert more[..i] == ts[..i] && more[i] == ts[i] && (lists + [ids])[..i] == lists;
    assert forall j :: 0 <= j <= i ==> more[..j] == ts[..i][..j];
  }

  /** The first n messages have been handled, and perhaps the next one has thrown: then copies and filter are
      `now`, the view is `view`, and `sent` has been answered. */
  ghost predicate Through(gui: Gui, v: ViewModel.View, host: Host, ts: seq<Tagged>, n: nat, lists: seq<seq<UserKey>>, thrown: bool,
                          now: Gui, view: ViewModel.View, sent: seq<JoinReply>)
  {
    && |lists| == n <= |ts| && ViewModel.AllListed(gui, host, ts[..n], lists)
    && (forall j :: 0 <= j < n ==> !Throws(HandleAll(gui, host, ts[..j]), host, ts[j]))
    && (thrown ==> n < |ts| && Throws(HandleAll(gui, host, ts[..n]), host, ts[n]))
    && now == HandleAll(gui, host, ts[..if thrown then n + 1 else n])
    && ViewModel.RunView(gui, v, host, ts[..n], lists) == (HandleAll(gui, host, ts[..n]), view)
    && sent == Replies(gui, host, ts[..n])
  }

  lemma NothingYet(gui: Gui, v: ViewModel.View, host: Host, ts: seq<Tagged>)
    ensures Through(gui, v, host, ts, 0, [], false, gui, v, [])
  {
  }

  lemma OneThrough(gui: Gui, v: ViewModel.View, host: Host, ts: seq<Tagged>, n: nat, lists: seq<seq<UserKey>>,
                   now: Gui, view: ViewModel.View, sent: seq<JoinReply>, thrown: bool, ids: seq<UserKey>)
    requires Through(gui, v, host, ts, n, lists, false, now, view, sent) && n < |ts|
    requires thrown <==> Throws(now, host, ts[n])
    requires !thrown ==> ViewModel.ListsRoom(ApplyTo(now.cur, ts[n]), now.prev, ts[n], ids)
    ensures if thrown then Through(gui, v, host, ts, n, lists, true, HandleOne(now, host, ts[n]), view, sent)
            else Through(gui, v, host, ts, n + 1, lists + [ids], false, HandleOne(now, host, ts[n]),
                         ViewModel.Notified(now, view, ts[n], ids), sent + Reply(now, host, ts[n]))
  {
    hide HandleOne, Reply, Throws, ApplyTo, ViewModel.Notified, ViewModel.ListsRoom, ViewModel.AllListed, ViewModel.RunView, HandleAll, Replies;
    OneMore(gui, v, host, ts, lists, ids);
  }

  lemma AllThrough(gui: Gui, v: ViewModel.View, host: Host, ts: seq<Tagged>, n: nat, lists: seq<seq<UserKey>>, thrown: bool,
                   now: Gui, view: ViewModel.View, sent: seq<JoinReply>)
    requires Through(gui, v, host, ts, n, lists, thrown, now, view, sent) && (n < |ts| ==> thrown)
    ensures n == Quiet(gui, host, ts) && (thrown <==> n < |ts|)
    ensures ViewModel.AllListed(gui, host, ts[..n], lists) && |lists| == n
    ensures now == HandleAll(gui, host, ts[..if thrown then n + 1 else n])
    ensures view == ViewModel.RunView(gui, v, host, ts[..n], lists).1 && sent == Replies(gui, host, ts[..n])
  {
    hide Throws, HandleAll, ViewModel.AllListed, ViewModel.RunView;
    QuietIsFirst(gui, host, ts, n);
  }

  /** Users that are announced have a node: user_update insists on it. */
  predicate HasNode(t: Tagged) {
    t.msg.UserMessage? ==> t.msg.user.id.node.Some?
  }

  ghost predicate Disjoint(a: ModelHouse, b: ModelHouse)
    reads a, b, a.Tables(), b.Tables()
  {
    a != b
    && forall g, h :: g in a.houseMap && h in b.houseMap ==>
         Apart(a.houseMap[g], b.houseMap[h]) && Apart(b.houseMap[h], a.houseMap[g])
  }

  lemma DisjointBoth(a: ModelHouse, b: ModelHouse)
    requires Disjoint(a, b)
    ensures Disjoint(b, a)
  {
  }

  method AllowInCopy(hm: ModelHouse, other: ModelHouse, grp: int)
    requires hm.Valid() && other.Valid() && Disjoint(hm, other)
    modifies hm
    ensures hm.Valid() && other.Valid() && Disjoint(hm, other)
    ensures hm.Value() == old(hm.Value())[grp := ModelCopy.EMPTY_COPY]
    ensures other.Value() == old(other.Value())
  {
    hide ModelHouse.Valid, ModelHouse.Value, ModelHouse.Parts, Apart;
    CopyIsNoPart(hm, other);
    hm.AllowGroup(grp);
    forall h | h in other.houseMap
      ensures Apart(hm.houseMap[grp], other.houseMap[h]) && Apart(other.houseMap[h], hm.houseMap[grp])
    {
      EmptyApart(other.houseMap[h], hm.houseMap[grp]);
    }
  }

  lemma CopyIsNoPart(hm: ModelHouse, other: ModelHouse)
    ensures hm !in other.Parts() && hm !in other.Tables()
    ensures forall o :: o in other.Parts() ==> allocated(o)
    ensures forall o :: o in other.Tables() ==> allocated(o)
  {
  }

  /** One group of one copy takes the message in; the other copy stays as it is. */
  method UpdateGroup(hm: ModelHouse, other: ModelHouse, t: Tagged)
    requires hm.Valid() && other.Valid() && Disjoint(hm, other)
    requires t.grp in hm.houseMap && HasNode(t)
    modifies hm.houseMap[t.grp], hm.houseMap[t.grp].house.users, hm.houseMap[t.grp].house.users.cells
    modifies hm.houseMap[t.grp].house.rooms, hm.houseMap[t.grp].house.rooms.cells
    ensures hm.Valid() && other.Valid() && Disjoint(hm, other)
    ensures hm.Value() == ApplyTo(old(hm.Value()), t)
    ensures other.Value() == old(other.Value())
    ensures forall c :: c in hm.houseMap[t.grp].house.users.cells ==> c in old(hm.houseMap[t.grp].house.users.cells) || fresh(c)
    ensures forall c :: c in hm.houseMap[t.grp].house.rooms.cells ==> c in old(hm.houseMap[t.grp].house.rooms.cells) || fresh(c)
  {
    hide GroupModel.Valid, GroupModel.Value, ChatHouse.House.Valid, ApplyTo;
    hm.HandleModelUpdate(t);
    var mine := hm.houseMap[t.grp];
    forall h | h in other.houseMap
      ensures other.houseMap[h].Valid() && other.houseMap[h].Value() == old(other.houseMap[h].Value())
      ensures Apart(mine, other.houseMap[h]) && Apart(other.houseMap[h], mine)
    {
      assert old(Apart(other.houseMap[h], mine));
      assert old(other.houseMap[h].Valid());
      forall i, j | 0 <= i < |other.houseMap[h].house.users.cells| && 0 <= j < |mine.house.users.cells|
        ensures other.houseMap[h].house.users.cells[i] != mine.house.users.cells[j]
      {
        assert mine.house.users.cells[j] in mine.house.users.cells;
      }
      forall i, j | 0 <= i < |other.houseMap[h].house.rooms.cells| && 0 <= j < |mine.house.rooms.cells|
        ensures other.houseMap[h].house.rooms.cells[i] != mine.house.rooms.cells[j]
      {
        assert mine.house.rooms.cells[j] in mine.house.rooms.cells;
      }
    }
  }

  lemma OthersApart(hm: ModelHouse, grp: int)
    requires hm.Valid() && grp in hm.houseMap
    ensures forall g :: g in hm.houseMap && g != grp ==>
              hm.houseMap[g].house.users != hm.houseMap[grp].house.users && hm.houseMap[g].house.rooms != hm.houseMap[grp].house.rooms
  {
    forall g | g in hm.houseMap && g != grp
      ensures Apart(hm.houseMap[g], hm.houseMap[grp])
    {
    }
  }

  lemma CopiesApart(hm: ModelHouse, other: ModelHouse, grp: int)
    requires Disjoint(hm, other) && grp in hm.houseMap
    ensures forall h :: h in other.houseMap ==>
              other.houseMap[h].house.users != hm.houseMap[grp].house.users && other.houseMap[h].house.rooms != hm.houseMap[grp].house.rooms
  {
    forall h | h in other.houseMap
      ensures Apart(hm.houseMap[grp], other.houseMap[h])
    {
    }
  }

  /** A message that changes the model throws if its group was never allowed; other messages change
      nothing. */
  method HandleModelUpdate(hm: ModelHouse, other: ModelHouse, t: Tagged) returns (thrown: bool)
    requires hm.Valid() && other.Valid() && Disjoint(hm, other) && HasNode(t)
    modifies hm.Parts()
    ensures hm.Valid() && other.Valid() && Disjoint(hm, other)
    ensures thrown <==> Protocol.ModelMessage(t.msg) && t.grp !in old(hm.Value())
    ensures hm.Value() == ApplyTo(old(hm.Value()), t)
    ensures other.Value() == old(other.Value())
    ensures forall o :: o in hm.Parts() ==> o in old(hm.Parts()) || fresh(o)
    ensures other.Parts() == old(other.Parts())
  {
    hide ModelHouse.Valid, ModelHouse.Value, Disjoint, ModelCopy.Apply, Apart;
    hm.ValueKeys();
    if t.grp !in hm.houseMap {
      return Protocol.ModelMessage(t.msg);
    }
    thrown := false;
    OthersApart(hm, t.grp);
    CopiesApart(hm, other, t.grp);
    UpdateGroup(hm, other, t);
    forall g, i | g in hm.houseMap && 0 <= i < |hm.houseMap[g].house.users.cells|
      ensures hm.houseMap[g].house.users.cells[i] in old(hm.Cells()) || fresh(hm.houseMap[g].house.users.cells[i])
    {
      assert hm.houseMap[g].house.users.cells[i] in hm.houseMap[g].house.users.cells;
    }
    forall g, i | g in hm.houseMap && 0 <= i < |hm.houseMap[g].house.rooms.cells|
      ensures hm.houseMap[g].house.rooms.cells[i] in old(hm.Cells()) || fresh(hm.houseMap[g].house.rooms.cells[i])
    {
      assert hm.houseMap[g].house.rooms.cells[i] in hm.houseMap[g].house.rooms.cells;
    }
  }

  method ReserveInGroup(hm: ModelHouse, other: ModelHouse, sender: UserKey, rid: string, grp: int)
    requires hm.Valid() && other.Valid() && Disjoint(hm, other) && grp in hm.houseMap
    modifies hm.houseMap[grp].house.users`view, hm.houseMap[grp].house.users.cells
    ensures hm.Valid() && other.Valid() && Disjoint(hm, other)
    ensures hm.Value() == old(hm.Value())[grp := Reserve(old(hm.Value())[grp], sender, rid)]
    ensures other.Value() == old(other.Value())
  {
    hide GroupModel.Valid, GroupModel.Value, ChatHouse.House.Valid, Reserve;
    hm.Reserve(sender, rid, grp);
    forall h | h in other.houseMap
      ensures other.houseMap[h].Valid() && other.houseMap[h].Value() == old(other.houseMap[h].Value())
    {
      assert old(Apart(other.houseMap[h], hm.houseMap[grp]));
      assert old(other.houseMap[h].Valid());
    }
  }

  /** The user that is let in changes rooms in this copy only. */
  method ReservePlace(hm: ModelHouse, other: ModelHouse, sender: UserKey, rid: string, grp: int)
    requires hm.Valid() && other.Valid() && Disjoint(hm, other)
    modifies hm.Parts()
    ensures hm.Valid() && other.Valid() && Disjoint(hm, other)
    ensures hm.Value() == if grp in old(hm.Value()) then old(hm.Value())[grp := Reserve(old(hm.Value())[grp], sender, rid)] else old(hm.Value())
    ensures other.Value() == old(other.Value())
    ensures forall o :: o in hm.Parts() ==> o in old(hm.Parts())
    ensures other.Parts() == old(other.Parts())
  {
    hide ModelHouse.Valid, ModelHouse.Value, GroupModel.Value, Disjoint, Reserve, Apart;
    hm.ValueKeys();
    if grp in hm.houseMap {
      CopiesApart(hm, other, grp);
      ReserveInGroup(hm, other, sender, rid, grp);
      forall g, i | g in hm.houseMap && 0 <= i < |hm.houseMap[g].house.users.cells|
        ensures hm.houseMap[g].house.users.cells[i] in old(hm.Cells())
      {
        assert hm.houseMap[g].house.users.cells == old(hm.houseMap[g].house.users.cells);
      }
      forall g, i | g in hm.houseMap && 0 <= i < |hm.houseMap[g].house.rooms.cells|
        ensures hm.houseMap[g].house.rooms.cells[i] in old(hm.Cells())
      {
        assert hm.houseMap[g].house.rooms.cells == old(hm.houseMap[g].house.rooms.cells);
      }
    }
  }

  /** Nothing that belongs to the queue or to the view is part of a copy. */
  lemma NoPart(hm: ModelHouse, m: Messenger<JoinReply>, v: UsersView.UsersView, app: HouseApp)
    ensures (m as object) != hm && (v as object) != hm && (v.userItemMap as object) != hm && (app as object) != hm
    ensures m !in hm.Parts() && v !in hm.Parts() && v.userItemMap !in hm.Parts() && app !in hm.Parts()
    ensures m !in hm.Tables() && v !in hm.Tables() && v.userItemMap !in hm.Tables() && app !in hm.Tables()
    ensures forall o :: o in hm.Parts() ==> allocated(o)
    ensures forall o :: o in hm.Tables() ==> allocated(o)
    ensures forall x :: x in v.created ==> (x as object) != hm && x !in hm.Parts() && x !in hm.Tables()
  {
  }

  lemma DroppedStep(gui: Gui, v: ViewModel.View, host: Host, t: Tagged)
    requires Filter(gui.seen, t.msg).0
    ensures !Throws(gui, host, t) && HandleOne(gui, host, t) == gui.(seen := Filter(gui.seen, t.msg).1)
    ensures ViewModel.ListsRoom(ApplyTo(gui.cur, t), gui.prev, t, []) && ViewModel.Notified(gui, v, t, []) == v && Reply(gui, host, t) == []
  {
  }

  predicate ModelThrows(cur: Copies, t: Tagged) {
    Protocol.ModelMessage(t.msg) && t.grp !in cur
  }

  predicate ActThrows(cur: Copies, host: Host, t: Tagged) {
    ModelThrows(cur, t) || (t.msg.JoinRequest? && t.grp !in ApplyTo(cur, t) && JoinVerdict(cur, host, t).Ack?)
  }

  lemma ActedStep(gui: Gui, v: ViewModel.View, host: Host, t: Tagged, thrown: bool, ids: seq<UserKey>)
    requires gui.prev.Keys == gui.cur.Keys && !Filter(gui.seen, t.msg).0
    requires thrown <==> ActThrows(gui.cur, host, t)
    ensures thrown <==> Throws(gui, host, t)
    ensures HandleOne(gui, host, t)
         == Gui(Joined(gui.cur, host, t), if thrown then gui.prev else ApplyTo(gui.prev, t), Filter(gui.seen, t.msg).1)
    ensures (if ModelThrows(gui.cur, t) then v else ViewModel.Handled(v, "", ApplyTo(gui.cur, t), gui.prev, t, ids))
         == if thrown then v else ViewModel.Notified(gui, v, t, ids)
    ensures !thrown ==> Reply(gui, host, t) == if t.msg.JoinRequest? then [JoinReply(t.grp, t.msg.sender, JoinVerdict(gui.cur, host, t))] else []
  {
    hide DupFilter.FilterDup, JudgeJoin, Reserve;
    if t.msg.JoinRequest? && t.grp in gui.cur {
      assert gui.cur[t.grp := gui.cur[t.grp]] == gui.cur;
    }
  }

  function Joined(cur: Copies, host: Host, t: Tagged): Copies {
    if t.msg.JoinRequest? then HandleJoin(ApplyTo(cur, t), host, t.grp, t.msg.roomId, t.msg.password, t.msg.sender)
    else ApplyTo(cur, t)
  }

  class HouseApp {
    const houseModel: ModelHouse
    const houseModelPrev: ModelHouse
    var filterDupMap: map<string, seq<nat>>
    var host: Host
    const guiMessenger: Messenger<Tagged>
    const netMessenger: Messenger<JoinReply>
    const usersView: UsersView.UsersView

    ghost predicate ModelsValid()
      reads houseModel, houseModel.Parts(), houseModelPrev, houseModelPrev.Parts()
    {
      && houseModel.Valid() && houseModelPrev.Valid() && Disjoint(houseModel, houseModelPrev)
      && houseModel.Value().Keys == houseModelPrev.Value().Keys
    }

    ghost predicate ViewValid()
      reads usersView, usersView.userItemMap, usersView.created
    {
      usersView.Valid() && usersView.roomId == ""
    }

    ghost function State(): Gui
      reads this`filterDupMap, houseModel, houseModel.Parts(), houseModelPrev, houseModelPrev.Parts()
    {
      Gui(houseModel.Value(), houseModelPrev.Value(), filterDupMap)
    }

    constructor (guiMessenger: Messenger<Tagged>, netMessenger: Messenger<JoinReply>, host: Host)
      ensures ModelsValid() && ViewValid()
      ensures State() == Gui(map[], map[], map[]) && this.host == host && usersView.view == ViewModel.EMPTY_VIEW
      ensures this.guiMessenger == guiMessenger && this.netMessenger == netMessenger
    {
      houseModel := new ModelHouse();
      houseModelPrev := new ModelHouse();
      filterDupMap := map[];
      this.host, this.guiMessenger, this.netMessenger := host, guiMessenger, netMessenger;
      usersView := new UsersView.UsersView("");
    }

    method AllowGroup(grp: int)
      requires ModelsValid()
      modifies houseModel, houseModelPrev
      ensures ModelsValid()
      ensures State() == Gui(old(State()).cur[grp := ModelCopy.EMPTY_COPY], old(State()).prev[grp := ModelCopy.EMPTY_COPY], filterDupMap)
    {
      hide ModelHouse.Valid, ModelHouse.Value, ModelHouse.Parts, Disjoint;
      AllowInCopy(houseModel, houseModelPrev, grp);
      DisjointBoth(houseModel, houseModelPrev);
      AllowInCopy(houseModelPrev, houseModel, grp);
      DisjointBoth(houseModelPrev, houseModel);
    }

    method FilterDup(sender: string, number: nat) returns (dropped: bool)
      modifies this`filterDupMap
      ensures (dropped, filterDupMap) == DupFilter.FilterDup(old(filterDupMap), sender, number)
    {
      if sender == "" {
        return false;
      }
      if sender in filterDupMap {
        var seqs := filterDupMap[sender];
        for i := 0 to |seqs|
          invariant number !in seqs[..i]
        {
          if seqs[i] == number {
            return true;
          }
        }
        assert seqs[..|seqs|] == seqs;
        seqs := [number] + seqs;
        if |seqs| > DupFilter.MAX_SEQS {
          seqs := seqs[..|seqs| - 1];
        }
        filterDupMap := filterDupMap[sender := seqs];
      } else {
        filterDupMap := filterDupMap[sender := [number]];
      }
      return false;
    }

    method FilterMessage(m: Message) returns (dropped: bool)
      modifies this`filterDupMap
      ensures (dropped, filterDupMap) == Filter(old(filterDupMap), m)
    {
      match m
      case JoinRequest(_, _, sender, sequence) =>
        if sequence == 0 {
          return false;
        }
        dropped := FilterDup(sender.idStr, sequence);
      case Channel(_, sender, sequence) =>
        if sequence == 0 {
          return false;
        }
        dropped := FilterDup(sender.idStr, sequence);
      case _ =>
        return false;
    }

    /** Judges the request, answers it, and reserves the place if the answer is yes. Looking for the user
        in a group that was never allowed throws, and then there is no answer. */
    method HandleRoomJoin(t: Tagged) returns (thrown: bool)
      requires ModelsValid() && t.msg.JoinRequest?
      modifies houseModel.Parts(), netMessenger
      ensures ModelsValid()
      ensures thrown <==> t.grp !in old(State()).cur && JudgeJoin(old(State()).cur, host, t.msg.roomId, t.msg.password).Ack?
      ensures State() == old(State()).(cur := HandleJoin(old(State()).cur, host, t.grp, t.msg.roomId, t.msg.password, t.msg.sender))
      ensures netMessenger.msgs == old(netMessenger.msgs)
                + if thrown then [] else [JoinReply(t.grp, t.msg.sender, JudgeJoin(old(State()).cur, host, t.msg.roomId, t.msg.password))]
      ensures forall o :: o in houseModel.Parts() ==> o in old(houseModel.Parts())
      ensures houseModelPrev.Parts() == old(houseModelPrev.Parts())
    {
      hide ModelHouse.Valid, ModelHouse.Value, ModelHouse.Parts, ModelHouse.Tables, Disjoint, Reserve, Participants;
      NoPart(houseModel, netMessenger, usersView, this);
      NoPart(houseModelPrev, netMessenger, usersView, this);
      houseModel.ValueKeys();
      thrown := false;
      var r := host.room;
      if host.selfRoom != r.id || host.selfRoom != t.msg.roomId {
        netMessenger.SendMsg(JoinReply(t.grp, t.msg.sender, Nack));
        return;
      }
      if r.body.password != "" && r.body.password != t.msg.password {
        netMessenger.SendMsg(JoinReply(t.grp, t.msg.sender, WrongPassword));
        return;
      }
      var roomSize := houseModel.RoomSize(t.msg.roomId);
      if roomSize >= r.body.maxPlayers {
        netMessenger.SendMsg(JoinReply(t.grp, t.msg.sender, Full));
        return;
      }
      if t.grp !in houseModel.houseMap {
        return true;
      }
      ReservePlace(houseModel, houseModelPrev, t.msg.sender, t.msg.roomId, t.grp);
      NoPart(houseModel, netMessenger, usersView, this);
      NoPart(houseModelPrev, netMessenger, usersView, this);
      netMessenger.SendMsg(JoinReply(t.grp, t.msg.sender, Ack));
    }

    /** The current copy takes the message in, and then the view is told. */
    method TellCopyAndView(t: Tagged) returns (thrown: bool, ids: seq<UserKey>)
      requires ModelsValid() && ViewValid() && HasNode(t)
      modifies houseModel.Parts()
      modifies usersView`created, usersView`view, usersView`deleted, usersView.userItemMap, usersView.created
      ensures ModelsValid() && ViewValid()
      ensures forall o :: o in houseModel.Parts() ==> o in old(houseModel.Parts()) || fresh(o)
      ensures houseModelPrev.Parts() == old(houseModelPrev.Parts())
      ensures fresh(usersView.created - old(usersView.created))
      ensures State() == old(State()).(cur := ApplyTo(old(State()).cur, t))
      ensures thrown <==> Protocol.ModelMessage(t.msg) && t.grp !in old(State()).cur
      ensures thrown ==> usersView.view == old(usersView.view)
      ensures !thrown ==> ViewModel.ListsRoom(State().cur, State().prev, t, ids)
      ensures !thrown ==> usersView.view == ViewModel.Handled(old(usersView.view), "", State().cur, State().prev, t, ids)
    {
      hide ModelHouse.Valid, ModelHouse.Value, ModelHouse.Parts, ModelHouse.Tables, Disjoint;
      hide UsersView.UsersView.Valid, ViewModel.Handled, ViewModel.ListsRoom, ModelCopy.Apply;
      NoPart(houseModel, netMessenger, usersView, this);
      NoPart(houseModelPrev, netMessenger, usersView, this);
      thrown := HandleModelUpdate(houseModel, houseModelPrev, t);
      ids := [];
      NoPart(houseModel, netMessenger, usersView, this);
      NoPart(houseModelPrev, netMessenger, usersView, this);
      if thrown {
        return;
      }
      ids := usersView.HandleMessage(houseModel, houseModelPrev, t);
    }

    method TellPrev(t: Tagged)
      requires ModelsValid() && HasNode(t)
      modifies houseModelPrev.Parts()
      ensures ModelsValid()
      ensures forall o :: o in houseModelPrev.Parts() ==> o in old(houseModelPrev.Parts()) || fresh(o)
      ensures houseModel.Parts() == old(houseModel.Parts())
      ensures State() == old(State()).(prev := ApplyTo(old(State()).prev, t))
    {
      hide ModelHouse.Valid, ModelHouse.Value, ModelHouse.Parts, ModelHouse.Tables, Disjoint, ModelCopy.Apply;
      NoPart(houseModelPrev, netMessenger, usersView, this);
      DisjointBoth(houseModel, houseModelPrev);
      var _ := HandleModelUpdate(houseModelPrev, houseModel, t);
      DisjointBoth(houseModelPrev, houseModel);
    }

    /** A message that is not dropped: the current copy, the view, the answer to a join request, and
        then, unless that threw, the previous copy. */
    method Act(t: Tagged) returns (thrown: bool, ids: seq<UserKey>)
      requires ModelsValid() && ViewValid() && HasNode(t)
      modifies netMessenger, houseModel.Parts(), houseModelPrev.Parts()
      modifies usersView`created, usersView`view, usersView`deleted, usersView.userItemMap, usersView.created
      ensures ModelsValid() && ViewValid()
      ensures forall o :: o in houseModel.Parts() ==> o in old(houseModel.Parts()) || fresh(o)
      ensures forall o :: o in houseModelPrev.Parts() ==> o in old(houseModelPrev.Parts()) || fresh(o)
      ensures fresh(usersView.created - old(usersView.created))
      ensures thrown <==> ActThrows(old(State()).cur, host, t)
      ensures State() == Gui(Joined(old(State()).cur, host, t), if thrown then old(State()).prev else ApplyTo(old(State()).prev, t), filterDupMap)
      ensures !thrown ==> ViewModel.ListsRoom(ApplyTo(old(State()).cur, t), old(State()).prev, t, ids)
      ensures usersView.view == if ModelThrows(old(State()).cur, t) then old(usersView.view)
                                else ViewModel.Handled(old(usersView.view), "", ApplyTo(old(State()).cur, t), old(State()).prev, t, ids)
      ensures netMessenger.msgs == old(netMessenger.msgs)
                + if t.msg.JoinRequest? && !thrown
                  then [JoinReply(t.grp, t.msg.sender, JoinVerdict(old(State()).cur, host, t))] else []
    {
      hide ModelHouse.Valid, ModelHouse.Value, ModelHouse.Parts, ModelHouse.Tables, Disjoint;
      hide UsersView.UsersView.Valid, JudgeJoin, HandleJoin, ViewModel.Handled, ViewModel.ListsRoom, ApplyTo;
      NoPart(houseModel, netMessenger, usersView, this);
      NoPart(houseModelPrev, netMessenger, usersView, this);
      thrown, ids := TellCopyAndView(t);
      NoPart(houseModel, netMessenger, usersView, this);
      NoPart(houseModelPrev, netMessenger, usersView, this);
      if !thrown && t.msg.JoinRequest? {
        thrown := HandleRoomJoin(t);
      }
      if !thrown {
        TellPrev(t);
      }
    }

    /** The filter touches neither copies nor view. */
    method FilterFirst(t: Tagged) returns (dropped: bool)
      requires ModelsValid() && ViewValid()
      modifies this`filterDupMap
      ensures ModelsValid() && ViewValid()
      ensures dropped == Filter(old(State()).seen, t.msg).0
      ensures State() == old(State()).(seen := Filter(old(State()).seen, t.msg).1)
      ensures houseModel.Parts() == old(houseModel.Parts()) && houseModelPrev.Parts() == old(houseModelPrev.Parts())
    {
      hide ModelHouse.Valid, ModelHouse.Value, ModelHouse.Parts, ModelHouse.Tables, Disjoint, UsersView.UsersView.Valid, Filter;
      NoPart(houseModel, netMessenger, usersView, this);
      NoPart(houseModelPrev, netMessenger, usersView, this);
      dropped := FilterMessage(t.msg);
    }

    /** The copies are told in turn, the view in between. `ids` are the users that the view refreshes. */
    method HandleMessage(t: Tagged) returns (thrown: bool, ids: seq<UserKey>)
      requires ModelsValid() && ViewValid() && HasNode(t)
      modifies this`filterDupMap, netMessenger, houseModel.Parts(), houseModelPrev.Parts()
      modifies usersView`created, usersView`view, usersView`deleted, usersView.userItemMap, usersView.created
      ensures ModelsValid() && ViewValid()
      ensures forall o :: o in houseModel.Parts() ==> o in old(houseModel.Parts()) || fresh(o)
      ensures forall o :: o in houseModelPrev.Parts() ==> o in old(houseModelPrev.Parts()) || fresh(o)
      ensures fresh(usersView.created - old(usersView.created))
      ensures thrown <==> Throws(old(State()), host, t)
      ensures State() == HandleOne(old(State()), host, t)
      ensures thrown ==> usersView.view == old(usersView.view) && netMessenger.msgs == old(netMessenger.msgs)
      ensures !thrown ==>
                && ViewModel.ListsRoom(ApplyTo(old(State()).cur, t), old(State()).prev, t, ids)
                && usersView.view == ViewModel.Notified(old(State()), old(usersView.view), t, ids)
                && netMessenger.msgs == old(netMessenger.msgs) + Reply(old(State()), host, t)
    {
      hide ModelsValid, ViewValid, ModelHouse.Value, ModelHouse.Parts, ModelHouse.Tables;
      hide JudgeJoin, HandleJoin, Filter, ViewModel.Handled, ViewModel.ListsRoom, ViewModel.Notified;
      hide Throws, HandleOne, Reply, ApplyTo, Joined, JoinVerdict, ActThrows, ModelThrows;
      KeysAgree();
      ghost var was, wasView := State(), usersView.view;
      thrown, ids := false, [];
      var dropped := FilterFirst(t);
      if dropped {
        DroppedStep(was, wasView, host, t);
        return;
      }
      NoPart(houseModel, netMessenger, usersView, this);
      NoPart(houseModelPrev, netMessenger, usersView, this);
      thrown, ids := Act(t);
      ActedStep(was, wasView, host, t, thrown, ids);
    }

    /** Handles what has been collected, up to the first message that throws. */
    method HandleBatch(msgs: seq<Tagged>) returns (thrown: bool, handled: nat, lists: seq<seq<UserKey>>)
      requires ModelsValid() && ViewValid()
      requires forall t :: t in msgs ==> HasNode(t)
      modifies this`filterDupMap, netMessenger, houseModel.Parts(), houseModelPrev.Parts()
      modifies usersView`created, usersView`view, usersView`deleted, usersView.userItemMap, usersView.created
      ensures ModelsValid() && ViewValid()
      ensures handled == Quiet(old(State()), host, msgs) && (thrown <==> handled < |msgs|)
      ensures ViewModel.AllListed(old(State()), host, msgs[..handled], lists) && |lists| == handled
      ensures State() == HandleAll(old(State()), host, msgs[..if thrown then handled + 1 else handled])
      ensures usersView.view == ViewModel.RunView(old(State()), old(usersView.view), host, msgs[..handled], lists).1
      ensures netMessenger.msgs == old(netMessenger.msgs) + Replies(old(State()), host, msgs[..handled])
    {
      hide ModelsValid, ViewValid, ModelHouse.Value, ModelHouse.Parts, ModelHouse.Tables;
      hide HandleOne, Reply, Throws, ApplyTo, ViewModel.Notified, ViewModel.ListsRoom, Through;
      ghost var was, wasView := State(), usersView.view;
      ghost var sent: seq<JoinReply> := [];
      thrown, handled, lists := false, 0, [];
      NothingYet(was, wasView, host, msgs);
      while handled < |msgs| && !thrown
        invariant ModelsValid() && ViewValid()
        invariant forall o :: o in houseModel.Parts() ==> o in old(houseModel.Parts()) || fresh(o)
        invariant forall o :: o in houseModelPrev.Parts() ==> o in old(houseModelPrev.Parts()) || fresh(o)
        invariant fresh(usersView.created - old(usersView.created))
        invariant Through(was, wasView, host, msgs, handled, lists, thrown, State(), usersView.view, sent)
        invariant handled <= |msgs| && (thrown ==> handled < |msgs|)
        invariant netMessenger.msgs == old(netMessenger.msgs) + sent
        decreases |msgs| - handled, !thrown
      {
        NoPart(houseModel, netMessenger, usersView, this);
        NoPart(houseModelPrev, netMessenger, usersView, this);
        ghost var now, nowView := State(), usersView.view;
        var ids;
        thrown, ids := HandleMessage(msgs[handled]);
        OneThrough(was, wasView, host, msgs, handled, lists, now, nowView, sent, thrown, ids);
        if !thrown {
          sent := sent + Reply(now, host, msgs[handled]);
          handled, lists := handled + 1, lists + [ids];
        }
      }
      AllThrough(was, wasView, host, msgs, handled, lists, thrown, State(), usersView.view, sent);
    }

    /** An exception leaves the rest of the batch unhandled: it is not queued again. */
    method HandleMessenger() returns (thrown: bool, handled: nat, lists: seq<seq<UserKey>>)
      requires ModelsValid() && ViewValid()
      requires forall t :: t in guiMessenger.msgs ==> HasNode(t)
      modifies this`filterDupMap, guiMessenger`msgs, netMessenger, houseModel.Parts(), houseModelPrev.Parts()
      modifies usersView`created, usersView`view, usersView`deleted, usersView.userItemMap, usersView.created
      ensures ModelsValid() && ViewValid() && guiMessenger.msgs == []
      ensures handled == Quiet(old(State()), host, old(guiMessenger.msgs)) && (thrown <==> handled < |old(guiMessenger.msgs)|)
      ensures ViewModel.AllListed(old(State()), host, old(guiMessenger.msgs)[..handled], lists) && |lists| == handled
      ensures State() == HandleAll(old(State()), host, old(guiMessenger.msgs)[..if thrown then handled + 1 else handled])
      ensures usersView.view == ViewModel.RunView(old(State()), old(usersView.view), host, old(guiMessenger.msgs)[..handled], lists).1
      ensures netMessenger.msgs == old(netMessenger.msgs) + Replies(old(State()), host, old(guiMessenger.msgs)[..handled])
    {
      hide ModelHouse.Valid, ModelHouse.Value, ModelHouse.Parts, ModelHouse.Tables, Disjoint;
      hide UsersView.UsersView.Valid, HandleAll, ViewModel.RunView, Replies, Quiet, ViewModel.AllListed;
      QueueIsNoPart(houseModel);
      QueueIsNoPart(houseModelPrev);
      var msgs := guiMessenger.CollectMsgs();
      QueueIsNoPart(houseModel);
      QueueIsNoPart(houseModelPrev);
      thrown, handled, lists := HandleBatch(msgs);
    }

    lemma QueueIsNoPart(hm: ModelHouse)
      ensures (guiMessenger as object) != hm && guiMessenger !in hm.Parts() && guiMessenger !in hm.Tables() && this !in hm.Parts()
      ensures forall o :: o in hm.Parts() ==> allocated(o)
      ensures forall o :: o in hm.Tables() ==> allocated(o)
    {
    }

    lemma KeysAgree()
      requires ModelsValid()
      ensures State().prev.Keys == State().cur.Keys == houseModel.houseMap.Keys
    {
      houseModel.ValueKeys();
    }
  }
}
