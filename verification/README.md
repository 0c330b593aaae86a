# RV House: a verified model of the lobby

RV House keeps a lobby of users and rooms. The lobby is fed by independent groups of peers (a
distributed one and a centralised one). A network thread keeps one house per group and sends
messages over a locked queue; the GUI thread folds them into its own copies of the houses, and the
user view folds those into one item per user over all groups.

This project models that path from end to end, together with four self-contained pieces: the codec
between Overnet contact files and KadC configuration files, the recogniser that cuts URLs out of chat
text, flood control of the chat input, and the wrap-around message numbering.

Each stateful part exists twice: once as functions on values, about which the theorems are proved,
and once as a class that changes its fields the way the program does. Every method of a class is
proved to do exactly what the functions say.

| part | values and theorems | classes |
|---|---|---|
| keys and records | `UserKeys`, `Lobby` | |
| one group's house | `Lobby.House` | `ChatHouse` (list and index), `GroupHandler` |
| the protocol of a group | `Protocol`, `UserHistory`, `Replay`, `Ownership` | `GroupHandler`, `IpBlock`, `Worker` |
| the GUI's copy of a group | `ModelCopy` | `ModelHouse` |
| the GUI's message loop | `Gui`, `DupFilter`, `Capacity`, `Reservation` | `HouseApp` (two `ModelHouse` copies and the view) |
| the user view | `ViewModel`, `RoomView` | `UserMap`, `UsersView` |
| all of it together | `LobbySystem`, `Lookahead`, `WholeLobby` | |
| the queue | `MessengerThreads` | `Messenger` |
| codec, chat text, flood, numbers | `KadcRoundTrip`, `KadcSections`, `Numerals`, `FloodControl`, `SelfModel` | `KadcCodec`, `UrlDfa`, `ChatSplitter`, `FloodControl`, `SelfModel` |

What comes out, in short:

- The GUI's copy, with the still unhandled messages replayed on it, is the network's house, in every
  run in which the peers meet a guard that can be read off the event and the state
  (`LobbySystem.ReplicaLagsByItsQueue`). The guard is exact: a step announces everything it changes
  if and only if it holds (`Replay.StepReplays`). An update without an id string is the typical case
  outside it (`Replay.UnnamedUpdateIsLost`).
- Whatever the others do, a group's house holds of every user what that user's own events say: the last
  record received, under the last id string that was not empty (`UserHistory.UsersOverRuns`); and of
  every room what its owner last announced, until the owner gives it up (`UserHistory.RoomsOverRuns`).
- When the GUI has caught up, the screen shows the network: one item per name, standing for exactly
  the groups that hold the name, and one item per unnamed user (`WholeLobby.ScreenShowsTheNetwork`).
  That names are unique in a group and nodes in all groups is assumed of the network only; for the
  copies, which pass through states the network was never in, it is proved
  (`Lookahead.NextKeepsAhead`).
- A view of one room shows whom it has seen there, throughout every run, if and only if no message leaves
  an item behind (`RoomView.RoomViewFollows`): the item of a user without a name stays when one
  update brings the name and takes the user out of the room (`RoomView.ItemIsLeft`). Otherwise it shows
  exactly the users in the room but those whose place is only reserved (`RoomView.RoomIsShown`).
- A room belongs to its owner: only the owner's own leaving, moving or restarting ends it, and no
  other node changes it (`Ownership.OnlyOwnerTouches`, both directions). That the owner is present and
  in the room holds exactly as long as rooms are announced by users that are in them
  (`Ownership.StepKeepsOwned`, `Ownership.TwoRoomsForOne`).
- Blocked addresses never re-enter, in any order of blocks, arrivals and data
  (`LobbySystem.BlockedStayOut`), and a block removes the blocked users of all groups and nobody else
  (`LobbySystem.BlockIsExact`).
- The host's count of participants stays within the limit at every moment of a run if and only if every
  update finds room when it comes (`Capacity.LimitOverRuns`); in a full room that means that its name
  holds a place there (`Capacity.StrangerOverfills`, both directions). A reservation made before the
  user's name has arrived is not counted, so two of them can share one place
  (`Capacity.UnnamedReservationsOverfill`). A yes to a user with a name does take a place: after one for
  the last place every request is turned down until somebody leaves, moves or changes the name
  (`Reservation.LastPlaceIsTaken`).
- Finding a user by id string agrees with a scan, for every string and at every moment of any run, if
  and only if no message takes an id string away that another user has at that moment
  (`ModelCopy.SearchOverRuns`, `ModelCopy.SharedNameIsLost`). Until then the one who took the string first
  is found (`ModelCopy.FirstIsFound`).
- No message passes the duplicate filter twice if and only if every repeat comes before four newer
  numbers of its sender have first arrived (`DupFilter.OnceIffInTime`, `DupFilter.FourAreTooFew`).
- The splitter of chat text keeps the message exactly if it contains no NUL
  (`ChatSplitter.StyledContent`), and misses no URL (`ChatSplitter.NoUrlIsMissed`).
- Flood control refuses an attempt if and only if 2000 for every attempt since the last new start, less the
  milliseconds that passed since the last accepted send at each of them, comes to 3000
  (`FloodControl.RefusedIff`); for a burst that is a condition on its gaps alone
  (`FloodControl.BurstRefusedIff`).
- Reading a configuration file takes the contacts of the peers sections and of nothing else
  (`KadcSections.SectionEnds`, `KadcSections.CommentsDoNotCount`).

Two keys without a node compare unequal to each other and to themselves (src/chat_gaming/user_key.h:101-106),
so the comment "ignore user updates with empty id" (src/chat/comm/netcomgrp_adapter.h:472-477) describes
a test that never succeeds. The model follows the code: such updates are taken in.

## Model

| member | source | states |
|---|---|---|
| UserKeys.KeyOrder | src/chat_gaming/user_key.h:101-113 | operator< is a strict order whose map-equality is equality of the optional node, and operator== is that equality only when a node is there; this is why houses are indexed by node |
| ChatHouse.WithoutIsDrop | src/chat/house.h:91-101 | erasing through an iterator removes that one element and keeps the order of the others |
| ChatHouse.DropOne | src/chat/house.h:91-101 | after an erase the ids in the list are the old ones without the erased one, still all different |
| ChatHouse.DropIndexed | src/chat/house.h:91-101 | erasing the same id from list and index keeps the index leading from exactly the listed ids to their elements |
| ChatHouse.Table.Insert | src/chat/house.h:75-84 | refuses a present id and changes nothing; otherwise appends one element and keeps list and index in agreement |
| ChatHouse.Table.Erase | src/chat/house.h:91-101 | true exactly for a present id; removes the element that a scan finds first, keeps the rest in order, keeps list and index in agreement |
| ChatHouse.Table.Find | src/chat/house.h:108-113 | the element of the id, end() exactly when the id is absent |
| ChatHouse.Table.FindIsScan | src/chat/house.h:108-113 | lookup through the index is linear search of the list |
| ChatHouse.Table.Write | src/chat/user.h:26-34 | assignment through an iterator changes the value under its own id only, and no id |
| ChatHouse.House.UserFind | src/chat/house.h:108-113 | a user is found by node alone, and the record found has that node |
| ChatHouse.House.RoomErase | src/chat/house.h:147-157 | true exactly for a present room, which is then gone; every other room stays as it is |
| ChatHouse.House.UserFindByName | src/chat_gaming/house.h:17-23 | the first user of the list with this id string; end() exactly when there is none |
| GroupHandler.GroupHandler.RoomClosedUpdate | src/networking/impl/group_handler_base.cpp:603-627 | erases the room and announces exactly that, or does nothing for an unknown room |
| GroupHandler.GroupHandler.UserErased | src/networking/impl/group_handler_base.cpp:530-543 | closes the room the user hosts, and no other, then announces the departure |
| GroupHandler.GroupHandler.UserUpdate | src/networking/impl/group_handler_base.cpp:545-601 | the in-place update of ids and rooms and its messages are those of Protocol.UserUpdate, for first names, restarts and room changes |
| GroupHandler.GroupHandler.NodeAdded | src/networking/impl/group_handler_base.cpp:281-342 | nothing for a blocked address; otherwise exactly the protocol's step, including filling in the own record; a house without blocked users stays one |
| GroupHandler.GroupHandler.NodeRemoved | src/chat/comm/netcomgrp_adapter.h:287-305 | exactly the protocol's departure, closing a hosted room first |
| GroupHandler.GroupHandler.RecvUserUpdate | src/chat/comm/netcomgrp_adapter.h:460-488 | in place, the step of Protocol.RecvUserUpdate: the notification settles the id and the record is overwritten after it; what a step takes in is stated by UserHistory.UpdateTakenIn |
| GroupHandler.GroupHandler.RecvRoomUpdate | src/chat/comm/netcomgrp_adapter.h:402-458 | in place, the step of Protocol.RecvRoomUpdate: inserts, overwrites or refuses; which announcements are taken in is stated by UserHistory.AnnouncementTakenIn |
| GroupHandler.GroupHandler.DataReceived | src/networking/impl/group_handler_base.cpp:352-365 | nothing from a blocked address; otherwise exactly the protocol's step for what arrived; a house without blocked users stays one |
| GroupHandler.GroupHandler.Update | src/networking/impl/group_handler_base.cpp:453-466 | the local user's key is taken over only while the known one is empty |
| GroupHandler.GroupHandler.CollectBlocked | src/networking/impl/group_handler_base.cpp:211-222 | collects exactly the nodes of the house whose address some rule covers |
| GroupHandler.GroupHandler.RemoveBlockedUsers | src/networking/impl/group_handler_base.cpp:211-237 | is a run of departures of exactly the blocked nodes, after which no blocked user is left |
| GroupHandler.StaysOut | src/networking/impl/group_handler_base.cpp:290-294 | an event that passes the block list brings no blocked user into a house that has none |
| UserHistory.UpdateTakenIn | src/chat/comm/netcomgrp_adapter.h:460-488 | a record received from a user in the house: its body is there afterwards, with its id string unless that is empty; no other record changes; the last message to the GUI carries it under the sender's node |
| UserHistory.PlainUpdateSendsOne | src/networking/impl/group_handler_base.cpp:545-601 | nothing else is sent and no room changes, unless the user restarts under another name or leaves a room of its own |
| UserHistory.OwnRecordFilledIn | src/networking/impl/group_handler_base.cpp:301-333 | when the own node joins, its record is that of the local user under the node, and is announced so |
| UserHistory.NewcomerIsThere | src/chat/comm/netcomgrp_adapter.h:274-285 | another node that joins gets a nameless record, announced once; a record that is there is left as it is |
| UserHistory.LeaverIsGone | src/chat/comm/netcomgrp_adapter.h:287-305 | exactly the leaver's record is gone, and the departure is announced last with the id the record had |
| UserHistory.AnnouncementTakenIn | src/chat/comm/netcomgrp_adapter.h:402-458 | the owner's announcement of an existing room and any known sender's of a new one is there afterwards with body and owner, sent once; a stranger's new room is there without owner and not sent; all else changes nothing |
| UserHistory.DataPassedOn | src/chat/comm/netcomgrp_adapter.h:388-401 | chat and join requests of a user in the house are passed on with text, room, password and sequence as they came, under the key the house has for the sender; nothing else is |
| UserHistory.LocalUserFollowed | src/networking/impl/group_handler_base.cpp:453-466 | the group takes over every change of the local user silently, and its key only while there is none |
| UserHistory.UsersOverRuns | src/chat/comm/netcomgrp_adapter.h:274-488 | over every run of a group: the record at a node is what the node's own joins, departures and updates say, and the own record follows the local user |
| UserHistory.LastUpdateCounts | src/chat/comm/netcomgrp_adapter.h:460-488 | so a user's body is that of the last update it sent, whatever the others do |
| UserHistory.RoomsOverRuns | src/networking/impl/group_handler_base.cpp:523-627 | over every run of a group: a room is there exactly from an announcement that was taken in until its owner gives it up, with the body last announced by the owner |
| UserHistory.LastAnnouncementCounts | src/chat/comm/netcomgrp_adapter.h:402-458 | so a room's body is that of its owner's last announcement |
| Worker.Worker.BlockUsers | src/networking/worker.cpp:235-238 | one step of the lobby: the new rules are added first, then each group loses exactly its blocked users, in turn, and everything announced goes to the one queue under the group's number; nobody blocked is left |
| Worker.Worker.HandleRequests | src/networking/worker.cpp:136-143 | to the lobby the requests are a run of blocks, one for each list of addresses, up to the first request that throws |
| Worker.Worker.HandleException | src/networking/worker.cpp:126-164 | the queue is emptied and handled as that run; the first request that throws makes the thread quit with its text and drops the rest; groups free of blocked users stay so |
| Worker.DepartNext | src/networking/impl/group_handler_base.cpp:196-208 | what is collected for later groups does not matter to earlier ones, so serving one group after the other is the specified step |
| Worker.BlocksKeepOut | src/networking/worker.cpp:235-238 | any run of blocks keeps groups that are free of blocked users free of them |
| Replay.ReplayUserErased | src/networking/impl/group_handler_base.cpp:531-543 | the departure messages replayed on a copy remove the user and its hosted room |
| Replay.ReplayUserUpdate | src/networking/impl/group_handler_base.cpp:546-601 | the update messages replayed on a copy give the announced record, or keep the old one when no id string came |
| Replay.ReplayNodeAdded | src/networking/impl/group_handler_base.cpp:281-342 | a join announces all it changes if and only if the guard holds for it |
| Replay.ReplayRoomInfo | src/chat/comm/netcomgrp_adapter.h:402-458 | a room update announces all it changes if and only if the room is known, nameless, or sent by a known node |
| Replay.StepReplays | src/networking/impl/group_handler_base.cpp:281-366 | for every event: its messages replayed on a copy rebuild the step if and only if the guard Announced holds |
| Replay.RunReplays | src/networking/impl/group_handler_base.cpp:523-627 | for every run that meets the guard: a copy that gets all messages is the house |
| Replay.StepInOrder | src/chat/comm/netcomgrp_adapter.h:274-305 | whatever the event, departures carry the id that the copy has, and no known name is silently replaced |
| Replay.UnnamedUpdateIsLost | src/model/house.cpp:38-43 | an update without id string changes the house and not the copy |
| Ownership.StepKeepsOwned | src/networking/impl/group_handler_base.cpp:530-627 | a step keeps every room's owner present and in the room if and only if a new room comes from a user that is in it |
| Ownership.OwnersPresent | src/chat/comm/netcomgrp_adapter.h:361-386 | in every run in the order of announcements, through departures, moves and restarts, every room's owner is present and in that room |
| Ownership.OneRoomEach | src/networking/impl/group_handler_base.cpp:530-543 | then no node owns two rooms |
| Ownership.TwoRoomsForOne | src/chat/comm/netcomgrp_adapter.h:447-453 | a member that announces two rooms without being in them owns both |
| Ownership.OnlyOwnerTouches | src/chat/comm/netcomgrp_adapter.h:421-445 | in any state a step ends a room if and only if its owner leaves, moves or restarts; otherwise the owner stays the same, and other nodes change nothing of it |
| Ownership.OwnershipOverRuns | src/networking/impl/group_handler_base.cpp:530-627 | over whole runs the room stays with its owner until the owner ends it, unchanged while the owner does nothing |
| IpBlock.StoredMasked | src/networking/ip_block/store.cpp:44-53 | storing ip & mask blocks exactly what the rule covers, and a duplicate entry adds nothing |
| IpBlock.Store.Add | src/networking/ip_block/store.cpp:33-58 | accepts exactly the rules that pass the sanity checks, and keeps the containers blocking exactly the accepted rules |
| IpBlock.Store.IsBlocked | src/networking/ip_block/store.h:20-30 | true exactly when some accepted rule has x & mask = ip & mask |
| IpBlock.Store.HandleMessage | src/networking/ip_block/store.cpp:6-16 | all rules of the message are offered, in order |
| IpBlock.OneAddress | src/networking/ip_block/store.cpp:33-58 | any address but the three special ones can be blocked, and under a full mask nothing else is blocked with it |
| IpBlock.OneRange | src/networking/ip_block/store.cpp:33-58 | under any mask but zero exactly the addresses that agree with it under the mask are blocked |
| IpBlock.SpecialIsIgnored | src/networking/ip_block/store.cpp:35-38 | a rule for a special address or with a zero mask has no effect |
| ModelCopy.ApplyOnHouse | src/model/house.cpp:13-78 | the copy's houses go through the states of the protocol's replay, whatever the index holds |
| ModelCopy.IndexOverRuns | src/model/house.cpp:13-78 | after any run of updates and erases (erases carrying the user's current id; updates may replace a known string) every index entry names a live user with that string |
| ModelCopy.EraseKeepsComplete | src/model/house.cpp:68-78 | an erase keeps every known user in the index if and only if nobody else has its id string |
| ModelCopy.UpdateKeepsComplete | src/model/house.cpp:13-65 | an update does so if and only if it does not replace a known id string that somebody else has |
| ModelCopy.CompleteOverRuns | src/model/house.cpp:13-78 | over any such run no known user is ever missing from the index if and only if no message takes an id string that another user has at that moment |
| ModelCopy.SearchOverRuns | src/model/house.cpp:112-135 | over any such run searching by string agrees with a scan, for every string and at every moment, if and only if the same holds |
| ModelCopy.NameSearchIsScan | src/model/house.cpp:112-135 | in particular with unique strings a search gives exactly the user a scan finds, or nothing when the scan finds nothing |
| ModelCopy.SharedNameIsLost | src/model/house.cpp:72-74 | after an erase its string is found no more, and somebody is lost by that exactly if another user had the string |
| ModelCopy.SharedNameRun | src/model/house.cpp:72-74 | two users under one string: one leaves, and the other is there and not found |
| ModelCopy.HolderStays | src/model/house.cpp:13-78 | over any run of current messages the user found under a string stays the one until some message takes the string away, whoever else comes with it |
| ModelCopy.FirstIsFound | src/model/house.cpp:112-135 | so who takes a free string is found under it through every such run |
| ModelHouse.GroupModel.UserUpdate | src/model/house.cpp:13-65 | one group's list and string index change in place exactly as ModelCopy.UserUpdated says |
| ModelHouse.GroupModel.UserFind | src/model/house.cpp:112-135 | the user that ModelCopy.Find describes, end() exactly when there is none |
| ModelHouse.GroupModel.UserIdsInRoom | src/model/house.h:55-67 | exactly the ids of the users in the room, each once, and their number |
| ModelHouse.ModelHouse.UserUpdate | src/model/house.cpp:13-65 | updates the one group and leaves every other group's house and index as they were |
| ModelHouse.ModelHouse.UserErase | src/model/house.cpp:68-78 | erases in the one group only; true exactly when the node was there |
| ModelHouse.ModelHouse.RoomUpdate | src/model/house.cpp:142-166 | updates or adds the room in the one group only |
| ModelHouse.ModelHouse.RoomErase | src/model/house.cpp:169-176 | erases in the one group only; true exactly when the room was there |
| ModelHouse.ModelHouse.AllowGroup | src/model/house.h:29-33 | the group is there and empty, the others are untouched |
| ModelHouse.ModelHouse.UserFind | src/model/house.cpp:81-96 | the user of the lowest group that has one, end() exactly when no group has one |
| ModelHouse.ModelHouse.HandleModelUpdate | src/gui/house_app.cpp:679-718 | each of the four kinds of message changes its one group as Gui.ApplyTo says; other messages change nothing |
| ModelHouse.ModelHouse.Reserve | src/gui/house_app.cpp:445-448 | the one group becomes that of Gui.Reserve, the others stay; that the user found is then in the room and counted is stated by Reservation.YesMovesTheUser and YesTakesAPlace |
| ModelHouse.ModelHouse.RoomSize | src/model/house.cpp:212-234 | the number of distinct known names in the room over all groups, however users overlap |
| ModelHouse.ModelHouse.UsersInRoom | src/multi_feed/room_util.h:46-77 | returns that number and emits each of those names exactly once |
| Gui.HandleOneKeepsSame | src/gui/house_app.cpp:269-334 | the current and the previous copy differ in nothing but the rooms of users |
| Gui.QuietIsFirst | src/gui/house_app.cpp:266-343 | a batch is handled up to the first message that throws, and no further |
| Gui.ThrowChangesNothing | src/model/house.cpp:236-244 | a message for a group that was never allowed leaves no trace but in the duplicate filter |
| Gui.SeenIsRun | src/gui/house_app.cpp:576-603 | the loop's filter remembers the arrivals of all groups in the order handled, and nothing of messages that change the model |
| Gui.DroppedIff | src/gui/house_app.cpp:576-603 | after any run exactly those messages are dropped that have a sequence, a named sender, and a number among the sender's latest four; messages that change the model never are |
| Gui.ActsOnce | src/gui/house_app.cpp:271-334 | as long as repeats are in time, a message delivered by several groups acts the first time, and later deliveries change nothing at all |
| DupFilter.WindowIsLatest | src/gui/house_app.cpp:620-650 | a sender's list is always its latest (at most four) passed numbers, newest first, all different |
| DupFilter.DroppedIffLatest | src/gui/house_app.cpp:624-631 | a number is dropped exactly when it is among those |
| DupFilter.PassedIsArrived | src/gui/house_app.cpp:606-653 | a first arrival always passes |
| DupFilter.IdealIffInTime | src/gui/house_app.cpp:606-653 | the filter does at every arrival what an unbounded memory would do if and only if every repeat is among the sender's latest four different numbers by first arrival |
| DupFilter.OnceIffInTime | src/gui/house_app.cpp:606-653 | no number passes twice if and only if the same condition on the arrivals holds |
| DupFilter.FourAreTooFew | src/gui/house_app.cpp:638-643 | 1, 2, 3, 4, 5 and then 1 again: 1 passes twice |
| DupFilter.PassesExactlyOnce | src/gui/house_app.cpp:606-653 | under that condition what has passed is each number once, in the order of first arrival |
| HouseApp.HouseApp.FilterDup | src/gui/house_app.cpp:606-653 | the in-place list update is DupFilter.FilterDup |
| HouseApp.HandleModelUpdate | src/gui/house_app.cpp:679-718 | one copy takes the message in, or throws exactly when the message changes the model of a group never allowed; the other copy is as it was, and the two still share nothing |
| HouseApp.ReservePlace | src/gui/house_app.cpp:442-453 | a reservation changes the current copy only |
| HouseApp.HouseApp.HandleMessage | src/gui/house_app.cpp:269-334 | filter, current copy, view, join, previous copy, in this order, are one step of the specification; it throws exactly when the group was never allowed, and then view and answers are untouched |
| HouseApp.HouseApp.HandleRoomJoin | src/gui/house_app.cpp:394-459 | exactly one answer, by room, password and capacity in this order, and a reservation exactly with a yes; no answer when looking for the user throws |
| HouseApp.HouseApp.HandleBatch | src/gui/house_app.cpp:266-343 | copies, filter, view and answers end up as the run of the specification up to the first message that throws |
| HouseApp.HouseApp.HandleMessenger | src/gui/house_app.cpp:255-350 | the queue is emptied and handled in order; what follows a message that throws is dropped |
| Capacity.ApplyAddsNobody | src/model/house.cpp:212-234 | an update by a name that holds a place adds no participant |
| Capacity.JoinKeepsCapacity | src/gui/house_app.cpp:429-448 | a join request never raises the count above the limit |
| Capacity.NeverOverfull | src/gui/house_app.cpp:394-459 | in every run in which names enter only with a place, the host never counts more than max_players over all groups |
| Capacity.StepKeepsLimit | src/gui/house_app.cpp:269-334 | for every state and message: the step keeps the limit if and only if its update finds room (its name is in the room by another record, or there is a place once the record it overwrites is not counted) |
| Capacity.LimitOverRuns | src/gui/house_app.cpp:255-350 | over every run of anything: the limit is kept at every moment if and only if every update finds room when it comes |
| Capacity.FullRoom | src/model/house.cpp:212-234 | in a full room, to find room is to hold a place |
| Capacity.StrangerOverfills | src/gui/house_app.cpp:394-459 | an update overfills a full room if and only if its name holds no place there, also when its record is in the room through a nameless reservation |
| Capacity.UnnamedIsNotCounted | src/model/house.cpp:226-228 | a reservation for a user without a name leaves the count as it was |
| Capacity.UnnamedReservationsOverfill | src/gui/house_app.cpp:442-448 | so two users can be let in for one place: when the second name arrives, the count exceeds the limit |
| Reservation.VerdictsAreDue | src/gui/house_app.cpp:394-441 | each verdict exactly when it is due: not hosting, wrong password, full, yes; anything but a yes changes nothing |
| Reservation.YesMovesTheUser | src/gui/house_app.cpp:442-448 | after a yes exactly the room of the user that asked is changed, in its group, and nothing else of any copy |
| Reservation.YesTakesAPlace | src/gui/house_app.cpp:442-448 | a yes to a user with a name adds exactly this name to the participants |
| Reservation.FullUntilSomebodyQuits | src/gui/house_app.cpp:429-441 | through any run in which no participant leaves, moves or changes the name, a full room stays full and every fitting request is answered so |
| Reservation.LastPlaceIsTaken | src/gui/house_app.cpp:394-459 | so after a yes for the last place no later request gets one until somebody quits |
| UserMap.InNamesWithout | src/multi_feed/user_map.h:74-84 | erasing a name takes exactly one holding of its item out of the name map |
| UserMap.InListWithout | src/multi_feed/user_map.h:87-100 | dropping the first entry of a key takes exactly that item out of the unnamed list |
| UserMap.UserMap.Find | src/multi_feed/user_map.h:37-68 | by name in the map, and only without a name by node in the list |
| UserMap.UserMap.Erase | src/multi_feed/user_map.h:70-103 | items of the name and of the bare node move to the drop list; every item is held as often as before |
| UserMap.UserMap.Insert | src/multi_feed/user_map.h:105-121 | holds the new item once, or fails and holds nothing new exactly when the name is taken |
| UserMap.UserMap.Resolve | src/multi_feed/user_map.h:124-147 | a known name makes the item of the bare node move to the drop list; nothing is lost |
| UserMap.UserMap.PopDropped | src/multi_feed/user_map.h:149-157 | gives up one held item; NULL exactly when none is waiting |
| UsersView.OneHolder | src/gui/view/users.cpp:525-531 | an item that is held once in all is in one place, so changing it changes one entry |
| UsersView.RemovedInSteps | src/gui/view/users.cpp:489-512 | dropping the feed and then, with the last feed, the item is the removal of the specification |
| UsersView.UsersView.HeldOnce | src/gui/view/users.cpp:514-531 | each item ever created is in the name map, the unnamed list or the drop list once, or was deleted once |
| UsersView.UsersView.RemoveDropped | src/gui/view/users.cpp:514-522 | empties the drop list, deleting each item on it, and none that was deleted before |
| UsersView.UsersView.NewUser | src/gui/view/users.cpp:524-546 | the fresh item is held, and shows the one feed |
| UsersView.UsersView.RemoveUser | src/gui/view/users.cpp:489-512 | exactly ViewModel.Removed |
| UsersView.UsersView.UpdateUser | src/gui/view/users.cpp:400-435 | exactly ViewModel.Refreshed, for the view of everybody and the view of one room |
| UsersView.UsersView.UpdateUsers | src/gui/view/users.cpp:437-454 | the users of the room are refreshed once each, in the order of the house's list |
| UsersView.UsersView.OpenRoom | src/gui/view/users.cpp:265-272 | a view of a room starts with the users that are in it, group by group: exactly RoomView.Opened |
| UsersView.UsersView.HasTopicChanged | src/gui/view/users.cpp:462-482 | true exactly unless both copies have the room under the same topic |
| UsersView.UsersView.HandleMessage | src/gui/view/users.cpp:362-388 | exactly ViewModel.Handled, room messages included, with conservation kept and the drop list empty after each user or user_left message |
| ViewModel.UpdateShown | src/gui/view/users.cpp:400-435 | if the view shows the users before an update, it shows them after it |
| ViewModel.DepartureShown | src/gui/view/users.cpp:489-512 | if the view shows the users before a departure, it shows them after it |
| ViewModel.ViewFollowsModel | src/gui/view/users.cpp:362-487 | after any run of messages over all groups, room messages included and in whichever order houses list their users, the view shows exactly the users of the current copy |
| ViewModel.RefreshIsIdle | src/gui/view/users.cpp:456-487 | updating a shown user again changes nothing in a view of everybody |
| ViewModel.RefreshAllIsIdle | src/gui/view/users.cpp:437-454 | nor does refreshing all users of a room |
| ViewModel.ShownExactly | src/multi_feed/item.h:48-76 | there is an item for exactly the names that exist, and its feeds are exactly the groups that hold the name |
| RoomView.LookShows | src/gui/view/users.cpp:400-435 | a view of a room that is told of a user shows it afterwards if and only if it is in the room, and all others as before, if and only if no item is left behind |
| RoomView.ItemIsLeft | src/gui/view/users.cpp:412-432 | a user without a name in the room gets its name in another room: the item stays though the room is empty |
| RoomView.RefreshShows | src/gui/view/users.cpp:437-454 | refreshing the users of a room leaves nothing behind, and of its own room the view then shows everybody in the group |
| RoomView.RoomViewFollows | src/gui/view/users.cpp:362-487 | over every run, at every moment: the view shows exactly whom it has seen in the room if and only if no message leaves an item behind |
| RoomView.NewTopicCatchesUp | src/gui/view/users.cpp:456-487 | a new room or topic shows everybody that was only reserved; an announcement with the old topic changes nothing |
| RoomView.RoomIsShown | src/gui/view/users.cpp:362-487 | over every such run the view of a room shows exactly the users that are in it but those whose place is only reserved |
| RoomView.OpenedShows | src/gui/view/users.cpp:265-272 | a view that has just been opened shows the room as it is, in all groups |
| LobbySystem.NetworkKeepsSynced | src/networking/impl/group_handler_base.cpp:281-366 | an event of one group moves house and queue together, and leaves all groups in sync |
| LobbySystem.DepartAllClears | src/networking/impl/group_handler_base.cpp:211-237 | once the collected nodes have departed, no group served holds a blocked user, and no group has gained one |
| LobbySystem.ReplicaLagsByItsQueue | src/gui/house_app.cpp:255-350 | at every moment of every guarded run, the unhandled messages replayed on the previous copy give the network's house, for every group |
| LobbySystem.BlockedStayOut | src/networking/worker.cpp:235-238 | in any order of blocks, arrivals and data no group's house holds a user whose address an accepted rule covers |
| LobbySystem.BlockIsExact | src/networking/impl/group_handler_base.cpp:211-237 | a block leaves every group with exactly the users whose address no rule covers, their records unchanged |
| LobbySystem.OnlyBlockedAreTurnedAway | src/networking/impl/group_handler_base.cpp:290-294 | a node that joins is in the group afterwards if and only if its address is not blocked |
| LobbySystem.BlockedNodeLeaves | src/networking/worker.cpp:235-238 | blocking one ordinary address sends its node away from every group |
| Lookahead.StepIsAbout | src/networking/impl/group_handler_base.cpp:523-627 | every message of a step is about the one node that acts and brings no name but the one the user has in the end |
| Lookahead.StepStaysSeparate | src/networking/impl/group_handler_base.cpp:545-601 | a step between two states in which users are kept apart passes its messages through no state in which they are not |
| Lookahead.NextKeepsAhead | src/gui/house_app.cpp:255-350 | users that are kept apart in the network are kept apart in every state that the copies have still to go through |
| WholeLobby.FirstIsExpected | src/gui/house_app.cpp:263-274 | what lies first in the queue is in order for the current copy too |
| WholeLobby.NothingThrows | src/model/house.cpp:236-244 | groups that send are groups that were allowed, so no message of a run throws |
| WholeLobby.ShownOverRuns | src/gui/house_app.cpp:255-350 | throughout a run of the whole lobby the view shows the current copy |
| WholeLobby.ScreenShowsTheNetwork | src/gui/view/users.cpp:362-435 | when nothing is pending, items, their feeds and the unnamed entries are those of the network's houses; uniqueness is assumed of the network alone |
| Messenger.Messenger.SendMsg | src/messaging/messenger.h:47-56 | appends, and wakes the target once |
| Messenger.Messenger.CollectMsgs | src/messaging/messenger.h:37-45 | hands over everything queued, and empties the queue |
| MessengerThreads.QueueIsSafe | src/messaging/messenger.h:37-56 | for every interleaving: messages are collected once and in the order sent, and a queued message always has a wake-up pending or taken |
| MessengerThreads.NothingIsLeftBehind | src/networking/worker.cpp:126-164 | a waiting receiver with a message queued can collect all that was sent, on its own |
| SelfModel.NumbersRepeatOnlyAfterAll | src/model/self.h:58-65 | numbers are never 0 and repeat only after 2^32 - 1 calls, and then exactly |
| SelfModel.Self.Sequence | src/model/self.h:58-65 | the call hands out the next number of that cycle |
| FloodControl.AttemptPays | src/gui/util/flood_control.cpp:15-32 | an accepted send that comes g ms after the one before moves the potential by at least 1000 - g, however many are refused between |
| FloodControl.RateBound | src/gui/util/flood_control.cpp:15-32 | n + 1 consecutive accepted sends take more than 1000 n - 4000 ms |
| FloodControl.SilenceForgives | src/gui/util/flood_control.cpp:19-21 | after five seconds without an accepted send an attempt is accepted |
| FloodControl.ThreeInARow | src/gui/util/flood_control.cpp:15-32 | of three attempts after such a silence the first two are accepted, however close, and the third is refused exactly within a second |
| FloodControl.SlowSendersPass | src/gui/util/flood_control.cpp:15-32 | attempts two seconds apart or more are all accepted |
| FloodControl.RefusedIff | src/gui/util/flood_control.cpp:15-32 | over every run: an attempt is refused if and only if the account since the last new start (2000 for each attempt, less the time since the last accepted send) has reached 3000 |
| FloodControl.BurstRefusedIff | src/gui/util/flood_control.cpp:15-32 | in a burst of n + 1 sends the last is refused if and only if the gaps add up to at most 2000 n - 3000 ms |
| FloodControl.FloodControl.AllowSend | src/gui/util/flood_control.cpp:15-32 | the in-place level and time are those of Attempt, which refuses exactly as FloodControl.RefusedIff says |
| UrlDfa.StepAgrees | src/parser/url/dfa.cpp:26-46 | one step of the table agrees with the three schemes; a dead end means that no continuation has one |
| UrlDfa.ReadOne | src/parser/url/dfa.cpp:92-114 | one turn of the loop keeps the state in step with the text read, or shows that no URL starts there |
| UrlDfa.Dfa.PrepareEnd | src/parser/url/dfa.cpp:75-90 | the end is just past the last character that is not trimmed |
| UrlDfa.Dfa.Parse | src/parser/url/dfa.cpp:92-114 | succeeds exactly at http://, ftp:// or www., and then the end is past the last untrimmed character of the run, at least 3 on and within the text |
| ChatSplitter.Conservation | src/gui/view/chat.cpp:303-340 | pieces that cover a text put together give the text if and only if it has no NUL |
| ChatSplitter.StyledContent | src/gui/view/chat.cpp:303-340 | the loop ends; each piece is a whole URL at a word start or text with no URL in it; together they are the message exactly when it has no NUL, and then none is empty |
| ChatSplitter.NoUrlIsMissed | src/gui/view/chat.cpp:303-340 | where a word starts with a URL, the position lies in a URL piece |
| KadcCodec.OvernetContactsToKadcIni | src/networking/impl/kadc/util.cpp:104-162 | prints exactly the contacts that are completely there, also for short files and negative counts, and returns their number |
| KadcCodec.KadcIniToOvernetContacts | src/networking/impl/kadc/util.cpp:164-259 | for any text: the file holds exactly the contacts that parsing the text gives, with blanks, signs and 0x prefixes read as the streams read them, and their number; what counts as a contact is stated by the rows of KadcSections |
| KadcRoundTrip.FileIsRead | src/networking/impl/kadc/util.cpp:123-139 | reading a contact file gives the contacts it was made from |
| KadcRoundTrip.QuadTaken | src/networking/impl/kadc/util.cpp:35-60 | a printed dotted quad is read back as its address |
| KadcRoundTrip.LineIsParsed | src/networking/impl/kadc/util.cpp:196-227 | each printed line is read back as its contact |
| KadcRoundTrip.LineIsPlain | src/networking/impl/kadc/util.cpp:185-195 | a printed line is one line, no comment and no section head |
| KadcRoundTrip.IniIsParsed | src/networking/impl/kadc/util.cpp:164-234 | the printed file is parsed back to its contacts, header skipped, also when empty |
| KadcRoundTrip.EndianityTwice | src/networking/impl/kadc/util.cpp:89-101 | swapping the bytes of a word twice gives the word |
| KadcRoundTrip.RoundTrip | src/networking/impl/kadc/util.cpp:104-259 | binary to text to binary gives the same bytes, and both calls return the length of the list |
| KadcSections.ReadOn | src/networking/impl/kadc/util.cpp:179-234 | a text is read from front to back: what follows whole lines is read in the section that they end in, or not at all after a bad line |
| KadcSections.CommentsDoNotCount | src/networking/impl/kadc/util.cpp:185 | a comment between any two lines, in a section or outside, changes nothing |
| KadcSections.OutsideIsSkipped | src/networking/impl/kadc/util.cpp:187-195 | outside the peers section any line but the head of one is skipped |
| KadcSections.HeadCloses | src/networking/impl/kadc/util.cpp:192-195 | inside it any line that starts with a bracket ends it |
| KadcSections.InsideIsTaken | src/networking/impl/kadc/util.cpp:195-234 | any other line inside it is a contact or ends the reading |
| KadcSections.LineIsChecked | src/networking/impl/kadc/util.cpp:214-222 | a line is taken exactly if single blanks separate its fields and the port fits sixteen bits |
| KadcSections.QuadIsChecked | src/networking/impl/kadc/util.cpp:44-60 | an address is taken exactly if dots separate its parts and each fits a word; the low bytes count |
| KadcSections.SectionEnds | src/networking/impl/kadc/util.cpp:187-195 | of a written file followed by another section and any text the contacts are those written and those that the rest yields by itself |
| KadcSections.TwoSections | src/networking/impl/kadc/util.cpp:187-195 | two peers sections with another section between them give the contacts of both |
| KadcSections.UnfinishedLine | src/networking/impl/kadc/util.cpp:179-181 | a last line without newline is not looked at |
| KadcSections.TruncatedFile | src/networking/impl/kadc/util.cpp:123-150 | of a contact file cut off anywhere exactly the whole records are read |
| KadcSections.AddressInFileOrder | src/networking/impl/kadc/util.cpp:35-42 | the address is printed in the order of its bytes in the file |
| KadcSections.LocalIsRead | src/networking/impl/kadc/util.cpp:80-87 | the local line gives back the two ports, UDP first |
| Numerals.TakeDecDec | src/networking/impl/kadc/util.cpp:44-60 | a printed decimal is read back, up to the next character that is no digit, and refused exactly if it is out of range |
| Numerals.HexWordHex | src/networking/impl/kadc/util.cpp:204-213 | eight printed hexadecimal digits are read back as the word |

## Left out

- GroupHandler.GroupHandler.UserUpdate: src/networking/impl/group_handler_base.cpp:593-594 uses the result of a room lookup without asking whether there was one; the model takes "no such room" as "nothing to close".
- ModelHouse.ModelHouse.UserUpdate: the iterator returned at src/model/house.cpp:57-64 names an erased element and is not modelled; the state change is. A group's house and its string index sit in one object per group instead of in two maps over groups.
- HouseApp.HouseApp.HandleMessenger: announced users have a node, as the assertion at src/model/house.cpp:17 demands. Where the exception ends up, worker errors, version notices and opening windows are not modelled.
- UsersView.UsersView.HandleMessage: display groups, tooltips, colours and observers are not modelled.
- ViewModel.ViewFollowsModel: stated for the view of everybody; the view of one room has theorems of its own (RoomView), in which those with a reservation are counted apart, since reservations do not reach a view as messages.
- RoomView.RoomIsShown: for a view of the room that the program hosts, or while it hosts none.
- KadcRoundTrip.RoundTrip: lists are at most 2^31 - 1 long, because the file's count is a signed 32-bit integer.
- KadcCodec.KadcIniToOvernetContacts: a minus sign in front of an unsigned number wraps it around and a hexadecimal group without digits reads as 0, as in the GNU C++ library; a separator that is missing at the end of a line is taken as a mismatch (the program compares an uninitialised character there).
- MessengerThreads.QueueIsSafe: the notification calls of ACE and Qt always succeed and are not merged.
- FloodControl.RateBound: the level is an unbounded integer; the clock readings are parameters and do not run backwards.
- LobbySystem.ReplicaLagsByItsQueue: under the guard Announced, which is the exact condition for a single step.
- Worker.Worker.HandleException: requests other than blocking and exiting do not concern the block list and are one case without effect.
- The reply to one's own join request (src/gui/house_app.cpp:461-515) runs a modal dialog, which re-enters the event loop; it is not modelled, and no claim is made that every request gets an answer over the network.
- What a group sends to its peers (requests, own updates, kicks): only what it sends to the GUI is modelled. A received packet is an already decoded value.
- Status, login, clock readings and flags of users and rooms are one opaque payload.
- Qt drawing and dialogs, HTTP and version clients, game launchers, registry, configuration, logging, bootstrap of the distributed network: not part of this model.
