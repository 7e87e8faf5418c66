/** The gateway's bookkeeping, stated on values: the presence list
    `playersOnline`, the lobby list `lobbies`, and what each socket event
    handler of `AppGateway` (src/app.gateway.ts:184-339) does to them and
    sends back. The state invariant `Inv` and the lemmas that every handler
    keeps it are here; `Gateway.AppGateway` is proved against these
    functions. */
module GatewayModel {
  import opened Seqs
  import opened LobbyModel

  type SocketId = string

  /** An entry of `playersOnline`: `{ id: socket id, user }`. */
  datatype Entry = Entry(socket: SocketId, user: Player)

  datatype GatewayState = GatewayState(online: seq<Entry>, lobbies: seq<Snapshot>)

  /** Events emitted to the calling socket. */
  datatype Event = LobbyNotCreated | LobbyCreated(lobby: Snapshot) | LobbyNotFound | LobbyFound(lobby: Snapshot)

  /** What a handler asks the transport to do. */
  datatype Directive =
    | Emit(event: Event)                    // an event sent to the calling socket
    | Broadcast(room: int, lobby: Snapshot) // 'reload-lobby-info' sent to every socket in the room
    | JoinRoom(room: int)                   // the calling socket joins the room
    | LeaveRoom(room: int)                  // the calling socket leaves the room

  /** The new state of a handler and what it sends. */
  datatype Step = Step(state: GatewayState, out: seq<Directive>)

  /** The private `kickPlayer(uuid)`: new state, the id it returns, what it sends. */
  datatype Kick = Kick(state: GatewayState, lobby: Option<int>, out: seq<Directive>)

  /** Lobby ids are drawn at random, as whole numbers in [0, 99999). */
  const LobbyIdRange := 99999

  /** The index of the first draw that no lobby has as its id, or -1: the
      retry loop of `handleCreateLobby` keeps that draw. */
  function FreshDrawIndex(draws: seq<int>, lobbies: seq<Snapshot>): (r: int)
    ensures -1 <= r < |draws|
    ensures r == -1 <==> forall j :: 0 <= j < |draws| ==> LobbyIndex(lobbies, draws[j]) != -1
    ensures 0 <= r ==>
      && LobbyIndex(lobbies, draws[r]) == -1
      && forall j :: 0 <= j < r ==> LobbyIndex(lobbies, draws[j]) != -1
  {
    if draws == [] then -1
    else if LobbyIndex(lobbies, draws[0]) == -1 then 0
    else
      var k := FreshDrawIndex(draws[1..], lobbies);
      if k == -1 then -1 else k + 1
  }

  // ---------------------------------------------------------------------------
  // Lookups

  /** The index of the first presence entry of socket `sid`, or -1. */
  function SocketIndex(online: seq<Entry>, sid: SocketId): (r: int)
    ensures -1 <= r < |online|
    ensures r == -1 <==> forall j :: 0 <= j < |online| ==> online[j].socket != sid
    ensures 0 <= r ==> online[r].socket == sid && forall j :: 0 <= j < r ==> online[j].socket != sid
  {
    if online == [] then -1
    else if online[0].socket == sid then 0
    else
      var k := SocketIndex(online[1..], sid);
      if k == -1 then -1 else k + 1
  }

  /** The index of the first presence entry of user `uid`, or -1. */
  function UserIndex(online: seq<Entry>, uid: UserId): (r: int)
    ensures -1 <= r < |online|
    ensures r == -1 <==> forall j :: 0 <= j < |online| ==> online[j].user.id != uid
    ensures 0 <= r ==> online[r].user.id == uid && forall j :: 0 <= j < r ==> online[j].user.id != uid
  {
    if online == [] then -1
    else if online[0].user.id == uid then 0
    else
      var k := UserIndex(online[1..], uid);
      if k == -1 then -1 else k + 1
  }

  /** `getUserBySocketId(id)`: the user of the first entry of that socket. */
  function UserBySocket(online: seq<Entry>, sid: SocketId): (r: Option<Player>)
    ensures r.None? <==> forall j :: 0 <= j < |online| ==> online[j].socket != sid
    ensures r.Some? ==> Entry(sid, r.value) in online
  {
    var i := SocketIndex(online, sid);
    if i == -1 then None else Some(online[i].user)
  }

  /** The index of the first lobby with the id `lid`, or -1. */
  function LobbyIndex(lobbies: seq<Snapshot>, lid: int): (r: int)
    ensures -1 <= r < |lobbies|
    ensures r == -1 <==> forall j :: 0 <= j < |lobbies| ==> lobbies[j].id != lid
    ensures 0 <= r ==> lobbies[r].id == lid && forall j :: 0 <= j < r ==> lobbies[j].id != lid
  {
    if lobbies == [] then -1
    else if lobbies[0].id == lid then 0
    else
      var k := LobbyIndex(lobbies[1..], lid);
      if k == -1 then -1 else k + 1
  }

  /** `getUsersLobbyIndex(uuid)`: the first lobby that includes the user. */
  function SeatIndex(lobbies: seq<Snapshot>, uid: UserId): (r: int)
    ensures -1 <= r < |lobbies|
    ensures r == -1 <==> forall j :: 0 <= j < |lobbies| ==> !IncludesPlayer(lobbies[j].players, uid)
    ensures 0 <= r ==>
      && IncludesPlayer(lobbies[r].players, uid)
      && forall j :: 0 <= j < r ==> !IncludesPlayer(lobbies[j].players, uid)
  {
    if lobbies == [] then -1
    else if IncludesPlayer(lobbies[0].players, uid) then 0
    else
      var k := SeatIndex(lobbies[1..], uid);
      if k == -1 then -1 else k + 1
  }

  /** A lobby with a free seat: fewer than 4 players. */
  predicate IsOpen(l: Snapshot) {
    |l.players| < 4
  }

  /** The index of the first lobby with a free seat, or -1. */
  function FirstOpen(lobbies: seq<Snapshot>): (r: int)
    ensures -1 <= r < |lobbies|
    ensures r == -1 <==> forall j :: 0 <= j < |lobbies| ==> !IsOpen(lobbies[j])
    ensures 0 <= r ==> IsOpen(lobbies[r]) && forall j :: 0 <= j < r ==> !IsOpen(lobbies[j])
  {
    if lobbies == [] then -1
    else if IsOpen(lobbies[0]) then 0
    else
      var k := FirstOpen(lobbies[1..]);
      if k == -1 then -1 else k + 1
  }

  /** `getEmptyLobbies()`: the lobbies with a free seat, in list order. */
  function EmptyLobbies(lobbies: seq<Snapshot>): (r: seq<Snapshot>)
    ensures |r| <= |lobbies|
    ensures r == [] <==> FirstOpen(lobbies) == -1
    ensures r != [] ==> r[0] == lobbies[FirstOpen(lobbies)]
  {
    if lobbies == [] then []
    else if IsOpen(lobbies[0]) then [lobbies[0]] + EmptyLobbies(lobbies[1..])
    else EmptyLobbies(lobbies[1..])
  }

  /** `renderLobby(id)`: broadcast the first lobby of that id to its room, if any. */
  function Render(lobbies: seq<Snapshot>, lid: int): (r: seq<Directive>)
    ensures |r| <= 1
    ensures r == [] <==> forall j :: 0 <= j < |lobbies| ==> lobbies[j].id != lid
    ensures forall d :: d in r ==> d.Broadcast? && d.room == lid && d.lobby in lobbies && d.lobby.id == lid
  {
    var i := LobbyIndex(lobbies, lid);
    if i == -1 then [] else [Broadcast(lid, lobbies[i])]
  }

  /** The room leave after a kick: only for a returned id other than 0, which the
      truthiness test treats as absent. */
  function LeaveIfTruthy(lobby: Option<int>): (r: seq<Directive>)
    ensures |r| <= 1 && forall d :: d in r ==> d.LeaveRoom?
    ensures forall room :: LeaveRoom(room) in r <==> lobby == Some(room) && room != 0
  {
    if lobby.Some? && lobby.value != 0 then [LeaveRoom(lobby.value)] else []
  }

  // ---------------------------------------------------------------------------
  // Handlers

  /** `handleConnection` ('online'); `message` is the id sent, `None` when
      the message is missing, and `profiles` stands for the profile store. */
  function Online(st: GatewayState, sid: SocketId, message: Option<UserId>, profiles: map<UserId, string>): GatewayState {
    if message.None? then st
    else if SocketIndex(st.online, sid) != -1 then st
    else
      var uid := message.value;
      var sameUserIndex := UserIndex(st.online, uid);
      if sameUserIndex != -1 then
        st.(online := st.online[sameUserIndex := st.online[sameUserIndex].(socket := sid)])
      else if uid !in profiles then st
      else st.(online := st.online + [Entry(sid, Player(uid, profiles[uid]))])
  }

  /** `handleCreateLobby` ('create-lobby') once the id `id` has been drawn. */
  function CreateLobby(st: GatewayState, sid: SocketId, id: int): Step {
    var user := UserBySocket(st.online, sid);
    if user.None? then Step(st, [Emit(LobbyNotCreated)])
    else
      var lobbyWithPlayer := SeatIndex(st.lobbies, user.value.id);
      if lobbyWithPlayer != -1 then Step(st, [Emit(LobbyCreated(st.lobbies[lobbyWithPlayer]))])
      else
        var newLobby := Joined(NewLobby(id), user.value);
        Step(st.(lobbies := st.lobbies + [newLobby]), [JoinRoom(id), Emit(LobbyCreated(newLobby))])
  }

  /** `handleFindLobby` ('find-lobby') */
  function FindLobby(st: GatewayState, sid: SocketId): Step {
    var emptyLobbies := EmptyLobbies(st.lobbies);
    if |emptyLobbies| == 0 then Step(st, [Emit(LobbyNotFound)])
    else
      var player := UserBySocket(st.online, sid);
      if player.None? then Step(st, [Emit(LobbyNotFound)])
      else
        var lobbyWithPlayer := SeatIndex(st.lobbies, player.value.id);
        if lobbyWithPlayer != -1 then Step(st, [Emit(LobbyFound(st.lobbies[lobbyWithPlayer]))])
        else
          var lobbyId := emptyLobbies[0].id;
          var lobbyIndex := LobbyIndex(st.lobbies, lobbyId);
          var ls := st.lobbies[lobbyIndex := Joined(st.lobbies[lobbyIndex], player.value)];
          Step(st.(lobbies := ls),
               [JoinRoom(ls[lobbyIndex].id)] + Render(ls, ls[lobbyIndex].id) + [Emit(LobbyFound(ls[lobbyIndex]))])
  }

  /** The private `kickPlayer(uuid)`: take the user out of the first lobby
      that includes them, broadcast it, and drop it once it is empty. */
  function KickUser(st: GatewayState, uid: UserId): (r: Kick)
    ensures r.state.online == st.online
  {
    var lobbyIndex := SeatIndex(st.lobbies, uid);
    if lobbyIndex == -1 then Kick(st, None, [])
    else
      var lobbyId := st.lobbies[lobbyIndex].id;
      var ls := st.lobbies[lobbyIndex := Kicked(st.lobbies[lobbyIndex], uid)];
      var out := Render(ls, ls[lobbyIndex].id);
      var ls' := if |ls[lobbyIndex].players| == 0 then RemoveByIndex(ls, lobbyIndex) else ls;
      Kick(st.(lobbies := ls'), Some(lobbyId), out)
  }

  /** `handleLeaveLobby` ('leave-lobby') */
  function LeaveLobby(st: GatewayState, sid: SocketId): Step {
    var user := UserBySocket(st.online, sid);
    if user.None? then Step(st, [])
    else
      var k := KickUser(st, user.value.id);
      var render := if k.lobby.None? then [] else Render(k.state.lobbies, k.lobby.value);
      Step(k.state, k.out + render + LeaveIfTruthy(k.lobby))
  }

  /** `handleDisconnect` ('disconnect') */
  function Disconnect(st: GatewayState, sid: SocketId): Step {
    var userIndex := SocketIndex(st.online, sid);
    if userIndex == -1 then Step(st, [])
    else
      var k := KickUser(st, st.online[userIndex].user.id);
      Step(k.state.(online := RemoveByIndex(k.state.online, userIndex)), k.out + LeaveIfTruthy(k.lobby))
  }

  /** `handleStartBattle` ('start-battle') for the lobby id in the message. */
  function StartBattle(st: GatewayState, lid: int): Step {
    var lobbyIndex := LobbyIndex(st.lobbies, lid);
    if lobbyIndex == -1 then Step(st, [])
    else
      var ls := st.lobbies[lobbyIndex := BattleStarted(st.lobbies[lobbyIndex])];
      Step(st.(lobbies := ls), Render(ls, lid))
  }

  // ---------------------------------------------------------------------------
  // The state invariant

  /** At most one presence entry per socket id. */
  predicate UniqueSockets(online: seq<Entry>) {
    forall i, j :: 0 <= i < j < |online| ==> online[i].socket != online[j].socket
  }

  /** At most one presence entry per user id. */
  predicate UniqueUsers(online: seq<Entry>) {
    forall i, j :: 0 <= i < j < |online| ==> online[i].user.id != online[j].user.id
  }

  predicate UniqueLobbyIds(lobbies: seq<Snapshot>) {
    forall i, j :: 0 <= i < j < |lobbies| ==> lobbies[i].id != lobbies[j].id
  }

  /** A listed lobby: 1 to 4 members with distinct ids, never in status
      `battle`, and `ready` once it has held 3. */
  predicate WellFormed(l: Snapshot) {
    && 1 <= |l.players| <= 4
    && NoDupIds(l.players)
    && l.status != InBattle
    && (|l.players| >= 3 ==> l.status == Ready)
  }

  /** A user sits in at most one lobby. */
  ghost predicate SeatedOnce(lobbies: seq<Snapshot>) {
    forall i, j, uid :: 0 <= i < j < |lobbies| && IncludesPlayer(lobbies[i].players, uid) ==> !IncludesPlayer(lobbies[j].players, uid)
  }

  predicate IsOnline(online: seq<Entry>, uid: UserId) {
    exists j :: 0 <= j < |online| && online[j].user.id == uid
  }

  /** Every seated user has a presence entry. */
  ghost predicate SeatedAreOnline(st: GatewayState) {
    forall i, uid :: 0 <= i < |st.lobbies| && IncludesPlayer(st.lobbies[i].players, uid) ==> IsOnline(st.online, uid)
  }

  ghost predicate Inv(st: GatewayState) {
    && UniqueSockets(st.online)
    && UniqueUsers(st.online)
    && UniqueLobbyIds(st.lobbies)
    && (forall i :: 0 <= i < |st.lobbies| ==> WellFormed(st.lobbies[i]))
    && SeatedOnce(st.lobbies)
    && SeatedAreOnline(st)
  }

  lemma EmptyInv()
    ensures Inv(GatewayState([], []))
  {
  }

  // ---------------------------------------------------------------------------
  // Building blocks of the preservation proofs

  /** Replacing a lobby by a well-formed one of the same id whose members
      were all members of the old one keeps the invariant. */
  lemma ReplaceLobbyKeepsInv(st: GatewayState, i: int, l: Snapshot)
    requires Inv(st) && 0 <= i < |st.lobbies|
    requires WellFormed(l) && l.id == st.lobbies[i].id
    requires forall q :: IncludesPlayer(l.players, q) ==> IncludesPlayer(st.lobbies[i].players, q)
    ensures Inv(st.(lobbies := st.lobbies[i := l]))
  {
  }

  /** Dropping a lobby keeps the invariant. */
  lemma RemoveLobbyKeepsInv(st: GatewayState, i: int)
    requires Inv(st) && 0 <= i < |st.lobbies|
    ensures Inv(st.(lobbies := RemoveByIndex(st.lobbies, i)))
  {
    var ls, r := st.lobbies, RemoveByIndex(st.lobbies, i);
    forall a, b, q | 0 <= a < b < |r| && IncludesPlayer(r[a].players, q)
      ensures !IncludesPlayer(r[b].players, q)
    {
      var a', b' := if a < i then a else a + 1, if b < i then b else b + 1;
      assert r[a] == ls[a'] && r[b] == ls[b'] && a' < b';
    }
    forall a, b | 0 <= a < b < |r| ensures r[a].id != r[b].id {
      var a', b' := if a < i then a else a + 1, if b < i then b else b + 1;
      assert r[a] == ls[a'] && r[b] == ls[b'] && a' < b';
    }
    forall a, q | 0 <= a < |r| && IncludesPlayer(r[a].players, q) ensures IsOnline(st.online, q) {
      var a' := if a < i then a else a + 1;
      assert r[a] == ls[a'];
    }
    forall a | 0 <= a < |r| ensures WellFormed(r[a]) {
      var a' := if a < i then a else a + 1;
      assert r[a] == ls[a'];
    }
  }

  /** Seating an online user who sits nowhere in a lobby with a free seat
      keeps the invariant. */
  lemma SeatKeepsInv(st: GatewayState, i: int, u: Player)
    requires Inv(st) && 0 <= i < |st.lobbies| && IsOpen(st.lobbies[i])
    requires IsOnline(st.online, u.id)
    requires forall j :: 0 <= j < |st.lobbies| ==> !IncludesPlayer(st.lobbies[j].players, u.id)
    ensures Inv(st.(lobbies := st.lobbies[i := Joined(st.lobbies[i], u)]))
  {
    var l := st.lobbies[i];
    var l' := Joined(l, u);
    var r := st.lobbies[i := l'];
    JoinedKeepsRoster(l, u);
    assert WellFormed(l');
    forall a, b, q | 0 <= a < b < |r| && IncludesPlayer(r[a].players, q)
      ensures !IncludesPlayer(r[b].players, q)
    {
      if a == i {
        assert IncludesPlayer(l.players, q) || q == u.id;
      } else if b == i && q != u.id {
        assert IncludesPlayer(l'.players, q) ==> IncludesPlayer(l.players, q);
      }
    }
    forall a, q | 0 <= a < |r| && IncludesPlayer(r[a].players, q) ensures IsOnline(st.online, q) {
      if a == i {
        assert IncludesPlayer(l.players, q) || q == u.id;
      }
    }
  }

  /** Adding a lobby of one online user who sits nowhere, under an id no
      lobby has, keeps the invariant. */
  lemma AddLobbyKeepsInv(st: GatewayState, u: Player, id: int)
    requires Inv(st) && IsOnline(st.online, u.id)
    requires forall j :: 0 <= j < |st.lobbies| ==> !IncludesPlayer(st.lobbies[j].players, u.id)
    requires forall j :: 0 <= j < |st.lobbies| ==> st.lobbies[j].id != id
    ensures Inv(st.(lobbies := st.lobbies + [Joined(NewLobby(id), u)]))
  {
    var l := Joined(NewLobby(id), u);
    assert !IncludesPlayer(NewLobby(id).players, u.id);
    assert l.players == [u];
    var r := st.lobbies + [l];
    forall a, b, q | 0 <= a < b < |r| && IncludesPlayer(r[a].players, q)
      ensures !IncludesPlayer(r[b].players, q)
    {
      if b == |st.lobbies| {
        assert r[a] == st.lobbies[a];
        assert IncludesPlayer(l.players, q) ==> q == u.id;
      }
    }
    forall a, q | 0 <= a < |r| && IncludesPlayer(r[a].players, q) ensures IsOnline(st.online, q) {
      if a == |st.lobbies| {
        assert q == u.id;
      } else {
        assert r[a] == st.lobbies[a];
      }
    }
  }

  /** Dropping the presence entry of a user who sits nowhere keeps the invariant. */
  lemma RemoveEntryKeepsInv(st: GatewayState, i: int)
    requires Inv(st) && 0 <= i < |st.online|
    requires forall j :: 0 <= j < |st.lobbies| ==> !IncludesPlayer(st.lobbies[j].players, st.online[i].user.id)
    ensures Inv(st.(online := RemoveByIndex(st.online, i)))
  {
    var o, r := st.online, RemoveByIndex(st.online, i);
    forall a, b | 0 <= a < b < |r| ensures r[a].socket != r[b].socket && r[a].user.id != r[b].user.id {
      var a', b' := if a < i then a else a + 1, if b < i then b else b + 1;
      assert r[a] == o[a'] && r[b] == o[b'] && a' < b';
    }
    forall a, q | 0 <= a < |st.lobbies| && IncludesPlayer(st.lobbies[a].players, q)
      ensures IsOnline(r, q)
    {
      assert IsOnline(o, q);
      var j :| 0 <= j < |o| && o[j].user.id == q;
      assert j != i;
      if j < i { assert r[j] == o[j]; } else { assert r[j - 1] == o[j]; }
    }
  }

  // ---------------------------------------------------------------------------
  // Every handler keeps the invariant

  lemma OnlineKeepsInv(st: GatewayState, sid: SocketId, message: Option<UserId>, profiles: map<UserId, string>)
    requires Inv(st)
    ensures Inv(Online(st, sid, message, profiles))
  {
    var r := Online(st, sid, message, profiles);
    if r != st {
      var o := st.online;
      assert forall j :: 0 <= j < |o| ==> o[j].socket != sid;
      assert |o| <= |r.online| && forall j :: 0 <= j < |o| ==> r.online[j].user == o[j].user;
      forall q | IsOnline(o, q) ensures IsOnline(r.online, q) {
        var j :| 0 <= j < |o| && o[j].user.id == q;
        assert r.online[j].user.id == q;
      }
    }
  }

  lemma CreateLobbyKeepsInv(st: GatewayState, sid: SocketId, id: int)
    requires Inv(st) && LobbyIndex(st.lobbies, id) == -1
    ensures Inv(CreateLobby(st, sid, id).state)
  {
    var user := UserBySocket(st.online, sid);
    if user.Some? && SeatIndex(st.lobbies, user.value.id) == -1 {
      var j :| 0 <= j < |st.online| && st.online[j] == Entry(sid, user.value);
      assert IsOnline(st.online, user.value.id);
      AddLobbyKeepsInv(st, user.value, id);
    }
  }

  /** `find-lobby` seats a new player only in the first lobby with a free
      seat, which, lobby ids being unique, is the one `emptyLobbies[0]`
      names. */
  lemma FirstOpenLobby(lobbies: seq<Snapshot>)
    requires UniqueLobbyIds(lobbies) && EmptyLobbies(lobbies) != []
    ensures var i := FirstOpen(lobbies);
      && 0 <= i && IsOpen(lobbies[i])
      && LobbyIndex(lobbies, EmptyLobbies(lobbies)[0].id) == i
      && forall j :: 0 <= j < i ==> |lobbies[j].players| >= 4
  {
    var i := FirstOpen(lobbies);
    assert EmptyLobbies(lobbies)[0] == lobbies[i];
  }

  /** `getEmptyLobbies()` keeps exactly the lobbies with fewer than 4
      players; so it is empty exactly when every lobby has 4 or more. */
  lemma {:induction false} EmptyLobbiesSpec(lobbies: seq<Snapshot>)
    ensures forall l :: l in EmptyLobbies(lobbies) <==> l in lobbies && |l.players| < 4
    ensures EmptyLobbies(lobbies) == [] <==> forall j :: 0 <= j < |lobbies| ==> |lobbies[j].players| >= 4
  {
    if lobbies != [] {
      EmptyLobbiesSpec(lobbies[1..]);
      assert lobbies == [lobbies[0]] + lobbies[1..];
    }
    if EmptyLobbies(lobbies) == [] {
      forall j | 0 <= j < |lobbies| ensures |lobbies[j].players| >= 4 {
        assert !IsOpen(lobbies[j]);
      }
    }
  }

  lemma FindLobbyKeepsInv(st: GatewayState, sid: SocketId)
    requires Inv(st)
    ensures Inv(FindLobby(st, sid).state)
  {
    var player := UserBySocket(st.online, sid);
    if EmptyLobbies(st.lobbies) != [] && player.Some? && SeatIndex(st.lobbies, player.value.id) == -1 {
      FirstOpenLobby(st.lobbies);
      var i := FirstOpen(st.lobbies);
      var j :| 0 <= j < |st.online| && st.online[j] == Entry(sid, player.value);
      assert IsOnline(st.online, player.value.id);
      SeatKeepsInv(st, i, player.value);
    }
  }

  /** Under the invariant, `kickPlayer(uuid)` keeps the invariant, leaves
      the presence list alone, and afterwards the user sits nowhere. */
  lemma KickUserKeepsInv(st: GatewayState, uid: UserId)
    requires Inv(st)
    ensures var k := KickUser(st, uid);
      && Inv(k.state)
      && k.state.online == st.online
      && forall j :: 0 <= j < |k.state.lobbies| ==> !IncludesPlayer(k.state.lobbies[j].players, uid)
  {
    var i := SeatIndex(st.lobbies, uid);
    if i != -1 {
      var l := st.lobbies[i];
      var l' := Kicked(l, uid);
      KickedSpec(l, uid);
      KickedKeepsRoster(l, uid);
      var ls := st.lobbies[i := l'];
      var k := KickUser(st, uid);
      if |l'.players| == 0 {
        assert k.state.lobbies == RemoveByIndex(ls, i) == RemoveByIndex(st.lobbies, i);
        RemoveLobbyKeepsInv(st, i);
        forall j | 0 <= j < |k.state.lobbies| ensures !IncludesPlayer(k.state.lobbies[j].players, uid) {
          var j' := if j < i then j else j + 1;
          assert k.state.lobbies[j] == st.lobbies[j'] && j' != i;
        }
      } else {
        assert k.state.lobbies == ls;
        assert WellFormed(l');
        ReplaceLobbyKeepsInv(st, i, l');
      }
    }
  }

  /** Under the invariant, `kickPlayer(uuid)` takes the user out of the one
      lobby that seats them, keeping the other members in order, drops that
      lobby if it is left empty (the other lobbies keep their order), and
      returns its id; for a user seated nowhere it changes nothing. */
  lemma KickUserSpec(st: GatewayState, uid: UserId)
    requires Inv(st)
    ensures var k := KickUser(st, uid);
      && ((forall j :: 0 <= j < |st.lobbies| ==> !IncludesPlayer(st.lobbies[j].players, uid)) ==> k == Kick(st, None, []))
      && ((exists j :: 0 <= j < |st.lobbies| && IncludesPlayer(st.lobbies[j].players, uid)) ==>
            var i := SeatIndex(st.lobbies, uid);
            var rest := Without(st.lobbies[i].players, uid);
            && k.lobby == Some(st.lobbies[i].id)
            && k.state.lobbies == if rest == [] then RemoveByIndex(st.lobbies, i)
                                  else st.lobbies[i := st.lobbies[i].(players := rest)])
  {
    var i := SeatIndex(st.lobbies, uid);
    if i != -1 {
      KickedSpec(st.lobbies[i], uid);
    }
  }

  lemma LeaveLobbyKeepsInv(st: GatewayState, sid: SocketId)
    requires Inv(st)
    ensures Inv(LeaveLobby(st, sid).state)
  {
    var user := UserBySocket(st.online, sid);
    if user.Some? {
      assert LeaveLobby(st, sid).state == KickUser(st, user.value.id).state;
      KickUserKeepsInv(st, user.value.id);
    }
  }

  lemma DisconnectKeepsInv(st: GatewayState, sid: SocketId)
    requires Inv(st)
    ensures Inv(Disconnect(st, sid).state)
  {
    var i := SocketIndex(st.online, sid);
    if i != -1 {
      var uid := st.online[i].user.id;
      var k := KickUser(st, uid);
      KickUserKeepsInv(st, uid);
      RemoveEntryKeepsInv(k.state, i);
      assert Disconnect(st, sid).state == k.state.(online := RemoveByIndex(k.state.online, i));
    }
  }

  lemma StartBattleKeepsInv(st: GatewayState, lid: int)
    requires Inv(st)
    ensures Inv(StartBattle(st, lid).state)
  {
    var i := LobbyIndex(st.lobbies, lid);
    if i != -1 {
      ReplaceLobbyKeepsInv(st, i, BattleStarted(st.lobbies[i]));
    }
  }

  // ---------------------------------------------------------------------------
  // What each handler promises

  /** 'online': a missing message or a socket id already present changes
      nothing; a user already present under another socket is moved to this
      socket in place, with no new entry; otherwise an entry is appended
      exactly when the profile store knows the user. Afterwards the socket
      resolves to that user. */
  lemma OnlineSpec(st: GatewayState, sid: SocketId, message: Option<UserId>, profiles: map<UserId, string>)
    requires UniqueSockets(st.online)
    ensures var r := Online(st, sid, message, profiles);
      && r.lobbies == st.lobbies
      && (message.None? || UserBySocket(st.online, sid).Some? ==> r == st)
      && (message.Some? && UserBySocket(st.online, sid).None? ==>
            var uid := message.value;
            if IsOnline(st.online, uid) then
              var u := UserIndex(st.online, uid);
              && |r.online| == |st.online|
              && r.online[u] == Entry(sid, st.online[u].user)
              && (forall j :: 0 <= j < |st.online| && j != u ==> r.online[j] == st.online[j])
              && UserBySocket(r.online, sid) == Some(st.online[u].user)
            else if uid in profiles then
              && r.online == st.online + [Entry(sid, Player(uid, profiles[uid]))]
              && UserBySocket(r.online, sid) == Some(Player(uid, profiles[uid]))
            else r == st)
  {
    var r := Online(st, sid, message, profiles);
    if message.Some? && UserBySocket(st.online, sid).None? {
      var uid := message.value;
      if IsOnline(st.online, uid) {
        var u := UserIndex(st.online, uid);
        assert r.online[u].socket == sid;
        assert forall j :: 0 <= j < u ==> r.online[j].socket != sid;
        assert SocketIndex(r.online, sid) == u;
      } else if uid in profiles {
        assert r.online[|st.online|].socket == sid;
        assert forall j :: 0 <= j < |st.online| ==> r.online[j].socket != sid;
        assert SocketIndex(r.online, sid) == |st.online|;
      }
    }
  }

  /** Announcing the same socket and user twice is the same as once. */
  lemma OnlineIdempotent(st: GatewayState, sid: SocketId, message: Option<UserId>, profiles: map<UserId, string>)
    requires UniqueSockets(st.online)
    ensures Online(Online(st, sid, message, profiles), sid, message, profiles) == Online(st, sid, message, profiles)
  {
    OnlineSpec(st, sid, message, profiles);
  }

  /** 'create-lobby': an unknown socket gets `lobby-not-created`; a seated
      user gets their lobby back; otherwise a lobby of the drawn id, pending,
      with the user as sole member, is appended. Nothing else changes. */
  lemma CreateLobbySpec(st: GatewayState, sid: SocketId, id: int)
    requires Inv(st) && LobbyIndex(st.lobbies, id) == -1
    ensures var r := CreateLobby(st, sid, id);
      var user := UserBySocket(st.online, sid);
      && Inv(r.state)
      && (user.None? ==> r == Step(st, [Emit(LobbyNotCreated)]))
      && (user.Some? && SeatIndex(st.lobbies, user.value.id) != -1 ==>
            r.state == st && |r.out| == 1 && r.out[0].Emit? && r.out[0].event.LobbyCreated?
            && IncludesPlayer(r.out[0].event.lobby.players, user.value.id)
            && r.out[0].event.lobby in st.lobbies)
      && (user.Some? && SeatIndex(st.lobbies, user.value.id) == -1 ==>
            && r.state.online == st.online
            && r.state.lobbies == st.lobbies + [Snapshot(id, Pending, [user.value], 0, None)]
            && r.out == [JoinRoom(id), Emit(LobbyCreated(Snapshot(id, Pending, [user.value], 0, None)))])
  {
    CreateLobbyKeepsInv(st, sid, id);
    var user := UserBySocket(st.online, sid);
    if user.Some? {
      assert !IncludesPlayer(NewLobby(id).players, user.value.id);
      assert Joined(NewLobby(id), user.value) == Snapshot(id, Pending, [user.value], 0, None);
    }
  }

  /** 'find-lobby' with no lobby below 4 players, or from an unknown
      socket, answers `lobby-not-found` and changes nothing. */
  lemma FindLobbyRefuses(st: GatewayState, sid: SocketId)
    requires (forall j :: 0 <= j < |st.lobbies| ==> |st.lobbies[j].players| >= 4) || UserBySocket(st.online, sid).None?
    ensures FindLobby(st, sid) == Step(st, [Emit(LobbyNotFound)])
  {
    EmptyLobbiesSpec(st.lobbies);
  }

  /** 'find-lobby' from a user already seated returns their lobby, unchanged. */
  lemma FindLobbyReturnsSeat(st: GatewayState, sid: SocketId)
    requires exists j :: 0 <= j < |st.lobbies| && |st.lobbies[j].players| < 4
    requires UserBySocket(st.online, sid).Some?
    requires exists j :: 0 <= j < |st.lobbies| && IncludesPlayer(st.lobbies[j].players, UserBySocket(st.online, sid).value.id)
    ensures var uid := UserBySocket(st.online, sid).value.id;
      && FindLobby(st, sid).state == st
      && |FindLobby(st, sid).out| == 1
      && FindLobby(st, sid).out[0].Emit? && FindLobby(st, sid).out[0].event.LobbyFound?
      && FindLobby(st, sid).out[0].event.lobby in st.lobbies
      && IncludesPlayer(FindLobby(st, sid).out[0].event.lobby.players, uid)
  {
    EmptyLobbiesSpec(st.lobbies);
  }

  /** 'find-lobby' from a known user seated nowhere appends them to the first
      lobby with fewer than 4 players (its status becoming `ready` when it
      reaches 3), broadcasts that lobby and returns it; nothing else changes. */
  lemma FindLobbySeatsFirstOpen(st: GatewayState, sid: SocketId)
    requires UniqueLobbyIds(st.lobbies)
    requires exists j :: 0 <= j < |st.lobbies| && |st.lobbies[j].players| < 4
    requires UserBySocket(st.online, sid).Some?
    requires forall j :: 0 <= j < |st.lobbies| ==> !IncludesPlayer(st.lobbies[j].players, UserBySocket(st.online, sid).value.id)
    ensures var r := FindLobby(st, sid);
      var u := UserBySocket(st.online, sid).value;
      var i := FirstOpen(st.lobbies);
      var l := st.lobbies[i];
      var l' := l.(players := l.players + [u], status := if |l.players| == 2 then Ready else l.status);
      && 0 <= i && |l.players| < 4
      && (forall j :: 0 <= j < i ==> |st.lobbies[j].players| >= 4)
      && r.state == st.(lobbies := st.lobbies[i := l'])
      && r.out == [JoinRoom(l.id), Broadcast(l.id, l'), Emit(LobbyFound(l'))]
  {
    var u := UserBySocket(st.online, sid).value;
    assert SeatIndex(st.lobbies, u.id) == -1;
    assert EmptyLobbies(st.lobbies) != [] by { EmptyLobbiesSpec(st.lobbies); }
    FirstOpenLobby(st.lobbies);
    var i := FirstOpen(st.lobbies);
    FindLobbyJoins(st, sid, u, i);
    assert !IncludesPlayer(st.lobbies[i].players, u.id);
  }

  /** The joining branch of 'find-lobby', once the lobby `i` to join is known. */
  lemma FindLobbyJoins(st: GatewayState, sid: SocketId, u: Player, i: int)
    requires EmptyLobbies(st.lobbies) != []
    requires UserBySocket(st.online, sid) == Some(u)
    requires SeatIndex(st.lobbies, u.id) == -1
    requires 0 <= i < |st.lobbies| && LobbyIndex(st.lobbies, EmptyLobbies(st.lobbies)[0].id) == i
    ensures var ls := st.lobbies[i := Joined(st.lobbies[i], u)];
      && Render(ls, ls[i].id) == [Broadcast(ls[i].id, ls[i])]
      && FindLobby(st, sid) == Step(st.(lobbies := ls), [JoinRoom(ls[i].id), Broadcast(ls[i].id, ls[i]), Emit(LobbyFound(ls[i]))])
  {
    var l := st.lobbies[i];
    var ls := st.lobbies[i := Joined(l, u)];
    assert Render(ls, l.id) == [Broadcast(l.id, ls[i])] by {
      assert ls[i].id == l.id;
      assert forall j :: 0 <= j < i ==> ls[j].id != l.id;
      assert LobbyIndex(ls, l.id) == i;
    }
  }

  /** 'leave-lobby': an unknown socket changes nothing; otherwise the state
      is that of `kickPlayer` for the socket's user, who then sits nowhere,
      and the socket leaves the room of the lobby it left unless that
      lobby's id is 0. */
  lemma LeaveLobbySpec(st: GatewayState, sid: SocketId)
    requires Inv(st)
    ensures var r := LeaveLobby(st, sid);
      var user := UserBySocket(st.online, sid);
      && (user.None? ==> r == Step(st, []))
      && (user.Some? ==>
            var k := KickUser(st, user.value.id);
            && r.state == k.state
            && (forall j :: 0 <= j < |r.state.lobbies| ==> !IncludesPlayer(r.state.lobbies[j].players, user.value.id))
            && forall room :: LeaveRoom(room) in r.out <==> k.lobby == Some(room) && room != 0)
  {
    var user := UserBySocket(st.online, sid);
    if user.Some? {
      KickUserKeepsInv(st, user.value.id);
      var r := LeaveLobby(st, sid);
      var k := KickUser(st, user.value.id);
      var render := if k.lobby.None? then [] else Render(k.state.lobbies, k.lobby.value);
      assert r.out == k.out + render + LeaveIfTruthy(k.lobby);
      assert forall d :: d in k.out ==> d.Broadcast?;
      assert forall d :: d in render ==> d.Broadcast?;
    }
  }

  /** 'disconnect': an unknown socket changes nothing; otherwise the user
      is kicked as by `kickPlayer` and the socket's presence entry, the
      only one it has, is dropped: the socket resolves to no user. */
  lemma DisconnectSpec(st: GatewayState, sid: SocketId)
    requires Inv(st)
    ensures var r := Disconnect(st, sid);
      var user := UserBySocket(st.online, sid);
      && Inv(r.state)
      && (user.None? ==> r == Step(st, []))
      && (user.Some? ==>
            && r.state.lobbies == KickUser(st, user.value.id).state.lobbies
            && r.state.online == RemoveByIndex(st.online, SocketIndex(st.online, sid))
            && |r.state.online| == |st.online| - 1
            && UserBySocket(r.state.online, sid).None?
            && !IsOnline(r.state.online, user.value.id)
            && (forall j :: 0 <= j < |r.state.lobbies| ==> !IncludesPlayer(r.state.lobbies[j].players, user.value.id))
            && forall room :: LeaveRoom(room) in r.out <==> KickUser(st, user.value.id).lobby == Some(room) && room != 0)
  {
    DisconnectKeepsInv(st, sid);
    var i := SocketIndex(st.online, sid);
    if i != -1 {
      var uid := st.online[i].user.id;
      KickUserKeepsInv(st, uid);
      var o := RemoveByIndex(st.online, i);
      forall j | 0 <= j < |o| ensures o[j].socket != sid && o[j].user.id != uid {
        var j' := if j < i then j else j + 1;
        assert o[j] == st.online[j'] && j' != i;
      }
      var k := KickUser(st, uid);
      assert forall d :: d in k.out ==> d.Broadcast?;
    }
  }

  /** 'start-battle': an unknown lobby id changes nothing; otherwise that
      lobby's battle is (re)built as `startBattle` does and the lobby is
      broadcast; no other lobby and no presence entry changes. */
  lemma StartBattleSpec(st: GatewayState, lid: int)
    requires Inv(st)
    ensures var r := StartBattle(st, lid);
      && Inv(r.state)
      && ((forall j :: 0 <= j < |st.lobbies| ==> st.lobbies[j].id != lid) ==> r == Step(st, []))
      && ((exists j :: 0 <= j < |st.lobbies| && st.lobbies[j].id == lid) ==>
           var i := LobbyIndex(st.lobbies, lid);
           && r.state == st.(lobbies := st.lobbies[i := BattleStarted(st.lobbies[i])])
           && r.out == [Broadcast(lid, BattleStarted(st.lobbies[i]))])
  {
    StartBattleKeepsInv(st, lid);
    var i := LobbyIndex(st.lobbies, lid);
    if i != -1 {
      var ls := st.lobbies[i := BattleStarted(st.lobbies[i])];
      assert ls[i].id == lid;
      assert forall j :: 0 <= j < i ==> ls[j].id != lid;
      assert LobbyIndex(ls, lid) == i;
    }
  }
}
