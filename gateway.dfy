/** The `AppGateway` class of src/app.gateway.ts:176-340: the presence list
    and the lobby list it keeps, and its socket event handlers. Each handler
    is proved to move `State()` as the function of the same name in
    `GatewayModel` does and to send what that function sends; `Valid()`
    (the lobbies are distinct objects and `GatewayModel.Inv` holds) is kept
    by every handler. */
module Gateway {
  import opened Seqs
  import opened LobbyModel
  import opened Lobbies
  import opened GatewayModel

  /** The lobbies' fields, lobby by lobby. */
  function Snapshots(ls: seq<Lobby>): (v: seq<LobbyModel.Snapshot>)
    reads ls
    ensures |v| == |ls| && forall i :: 0 <= i < |ls| ==> v[i] == ls[i].Snapshot()
  {
    seq(|ls|, i requires 0 <= i < |ls| reads ls => ls[i].Snapshot())
  }

  /** Taking a lobby out of the list takes its snapshot out of the snapshots. */
  lemma SnapshotsRemove(ls: seq<Lobby>, i: int)
    requires 0 <= i < |ls|
    ensures Snapshots(RemoveByIndex(ls, i)) == RemoveByIndex(Snapshots(ls), i)
  {
    var l, v := Snapshots(RemoveByIndex(ls, i)), RemoveByIndex(Snapshots(ls), i);
    forall j | 0 <= j < |l| ensures l[j] == v[j] {
      assert RemoveByIndex(ls, i)[j] == ls[if j < i then j else j + 1];
    }
  }

  /** When a handler changes one lobby of a list and leaves the others as
      they were in `was`, the snapshots differ from `was` at that index only. */
  lemma SnapshotsUpdate(ls: seq<Lobby>, i: int, was: seq<LobbyModel.Snapshot>)
    requires 0 <= i < |ls| == |was|
    requires forall j :: 0 <= j < |ls| && j != i ==> ls[j].Snapshot() == was[j]
    ensures Snapshots(ls) == was[i := ls[i].Snapshot()]
  {
  }

  /** Listing one more lobby lists its snapshot last. */
  lemma SnapshotsAppend(ls: seq<Lobby>, l: Lobby)
    ensures Snapshots(ls + [l]) == Snapshots(ls) + [l.Snapshot()]
  {
    assert forall j :: 0 <= j < |ls| ==> (ls + [l])[j] == ls[j];
  }

  /** The snapshots of lobbies that nothing changed are as they were. */
  twostate lemma SnapshotsUnchanged(ls: seq<Lobby>)
    requires forall j :: 0 <= j < |ls| ==> unchanged(ls[j])
    ensures Snapshots(ls) == old(Snapshots(ls))
  {
    var now, was := Snapshots(ls), old(Snapshots(ls));
    forall j | 0 <= j < |ls| ensures now[j] == was[j] {
      assert unchanged(ls[j]);
    }
  }

  /** The id loop of `handleCreateLobby`: `draws` are the successive random
      whole numbers in [0, 99999) it draws; the loop stops at the first one
      that no lobby has. The requires says the random source does produce
      such a value (otherwise the handler loops forever). */
  method DrawLobbyId(draws: seq<int>, lobbies: seq<LobbyModel.Snapshot>) returns (id: int)
    requires forall k :: 0 <= k < |draws| ==> 0 <= draws[k] < LobbyIdRange
    requires exists k :: 0 <= k < |draws| && LobbyIndex(lobbies, draws[k]) == -1
    ensures 0 <= id < LobbyIdRange && LobbyIndex(lobbies, id) == -1
    ensures 0 <= FreshDrawIndex(draws, lobbies) && id == draws[FreshDrawIndex(draws, lobbies)]
  {
    var k := 0;
    id := draws[0];
    while LobbyIndex(lobbies, id) != -1
      invariant 0 <= k < |draws| && id == draws[k]
      invariant forall j :: 0 <= j < k ==> LobbyIndex(lobbies, draws[j]) != -1
      invariant exists m :: k <= m < |draws| && LobbyIndex(lobbies, draws[m]) == -1
      decreases |draws| - k
    {
      k := k + 1;
      id := draws[k];
    }
  }

  class AppGateway {
    var playersOnline: seq<Entry>
    var lobbies: seq<Lobby>

    /** The lobbies as values. */
    function View(): (v: seq<LobbyModel.Snapshot>)
      reads this, lobbies
      ensures |v| == |lobbies| && forall i :: 0 <= i < |lobbies| ==> v[i] == lobbies[i].Snapshot()
    {
      Snapshots(lobbies)
    }

    function State(): GatewayState
      reads this, lobbies
    {
      GatewayState(playersOnline, View())
    }

    ghost predicate Valid()
      reads this, lobbies
    {
      AllDistinct(lobbies) && Inv(State())
    }

    constructor()
      ensures Valid() && State() == GatewayState([], [])
    {
      playersOnline := [];
      lobbies := [];
      EmptyInv();
    }

    /** 'online' (`handleConnection`); `profiles` stands for the profile store. */
    method Online(sid: SocketId, message: Option<UserId>, profiles: map<UserId, string>)
      requires Valid()
      modifies this
      ensures Valid() && lobbies == old(lobbies)
      ensures State() == GatewayModel.Online(old(State()), sid, message, profiles)
    {
      OnlineKeepsInv(State(), sid, message, profiles);
      if message.None? {
        return;
      }
      if SocketIndex(playersOnline, sid) != -1 {
        return;
      }
      var sameUserIndex := UserIndex(playersOnline, message.value);
      if sameUserIndex != -1 {
        playersOnline := playersOnline[sameUserIndex := playersOnline[sameUserIndex].(socket := sid)];
        return;
      }
      if message.value !in profiles {
        return;
      }
      playersOnline := playersOnline + [Entry(sid, Player(message.value, profiles[message.value]))];
    }

    /** 'create-lobby' (`handleCreateLobby`); `draws` stands for the random source. */
    method CreateLobby(sid: SocketId, draws: seq<int>) returns (out: seq<Directive>)
      requires Valid()
      requires forall k :: 0 <= k < |draws| ==> 0 <= draws[k] < LobbyIdRange
      requires exists k :: 0 <= k < |draws| && LobbyIndex(View(), draws[k]) == -1
      modifies this
      ensures Valid() && playersOnline == old(playersOnline)
      ensures 0 <= FreshDrawIndex(draws, old(View()))
      ensures Step(State(), out) == GatewayModel.CreateLobby(old(State()), sid, draws[FreshDrawIndex(draws, old(View()))])
    {
      ghost var st := State();
      var snaps := View();
      var id := DrawLobbyId(draws, snaps);
      CreateLobbyKeepsInv(st, sid, id);
      ghost var k := GatewayModel.CreateLobby(st, sid, id);
      var user := UserBySocket(playersOnline, sid);
      if user.None? {
        out := [Emit(LobbyNotCreated)];
        return;
      }
      var lobbyWithPlayer := SeatIndex(snaps, user.value.id);
      if lobbyWithPlayer != -1 {
        out := [Emit(LobbyCreated(lobbies[lobbyWithPlayer].Snapshot()))];
        return;
      }
      var newLobby := new Lobby(id);
      newLobby.PushPlayer(user.value);
      SnapshotsUnchanged(lobbies);
      AddLobby(newLobby);
      out := [JoinRoom(newLobby.id), Emit(LobbyCreated(newLobby.Snapshot()))];
      assert State() == k.state;
    }

    /** 'find-lobby' (`handleFindLobby`) */
    method FindLobby(sid: SocketId) returns (out: seq<Directive>)
      requires Valid()
      modifies lobbies
      ensures Valid() && lobbies == old(lobbies) && playersOnline == old(playersOnline)
      ensures Step(State(), out) == GatewayModel.FindLobby(old(State()), sid)
    {
      ghost var st := State();
      FindLobbyKeepsInv(st, sid);
      var snaps := View();
      var emptyLobbies := EmptyLobbies(snaps);
      if |emptyLobbies| == 0 {
        out := [Emit(LobbyNotFound)];
        return;
      }
      var player := UserBySocket(playersOnline, sid);
      if player.None? {
        out := [Emit(LobbyNotFound)];
        return;
      }
      var lobbyWithPlayer := SeatIndex(snaps, player.value.id);
      if lobbyWithPlayer != -1 {
        out := [Emit(LobbyFound(lobbies[lobbyWithPlayer].Snapshot()))];
        return;
      }
      var lobbyId := emptyLobbies[0].id;
      var lobbyIndex := LobbyIndex(snaps, lobbyId);
      var lobby := lobbies[lobbyIndex];
      FindLobbyJoins(st, sid, player.value, lobbyIndex);
      lobby.PushPlayer(player.value);
      forall j | 0 <= j < |lobbies| && j != lobbyIndex ensures lobbies[j].Snapshot() == snaps[j] {
        assert lobbies[j] != lobby;
      }
      SnapshotsUpdate(lobbies, lobbyIndex, snaps);
      out := [JoinRoom(lobby.id)] + Render(View(), lobby.id) + [Emit(LobbyFound(lobby.Snapshot()))];
      assert State() == GatewayModel.FindLobby(st, sid).state;
    }

    /** The private `kickPlayer(uuid)`: returns the id of the lobby the user
        was taken out of, if any. */
    method KickPlayer(uid: UserId) returns (lobbyId: Option<int>, out: seq<Directive>)
      requires AllDistinct(lobbies)
      modifies this, lobbies
      ensures AllDistinct(lobbies) && playersOnline == old(playersOnline)
      ensures Kick(State(), lobbyId, out) == KickUser(old(State()), uid)
    {
      ghost var st := State();
      var snaps := View();
      var lobbyIndex := SeatIndex(snaps, uid);
      if lobbyIndex == -1 {
        return None, [];
      }
      var lobby := lobbies[lobbyIndex];
      lobbyId := Some(lobby.id);
      ghost var ls := snaps[lobbyIndex := Kicked(snaps[lobbyIndex], uid)];
      ghost var k := KickUser(st, uid);
      assert k.lobby == lobbyId && k.out == Render(ls, lobby.id)
        && k.state.lobbies == if |ls[lobbyIndex].players| == 0 then RemoveByIndex(ls, lobbyIndex) else ls
      by {
        assert st.lobbies == snaps;
      }
      lobby.KickPlayer(uid);
      forall j | 0 <= j < |lobbies| && j != lobbyIndex ensures lobbies[j].Snapshot() == snaps[j] {
        assert lobbies[j] != lobby;
      }
      SnapshotsUpdate(lobbies, lobbyIndex, snaps);
      assert Snapshots(lobbies) == ls;
      out := Render(View(), lobby.id);
      if lobby.NumbOfPlayers() == 0 {
        DropLobby(lobbyIndex);
      }
      assert State() == k.state;
    }

    /** Appends a lobby object to the list, as 'create-lobby' does. */
    method AddLobby(l: Lobby)
      requires AllDistinct(lobbies) && l !in lobbies
      modifies this
      ensures AllDistinct(lobbies) && playersOnline == old(playersOnline)
      ensures lobbies == old(lobbies) + [l]
      ensures View() == old(View()) + [l.Snapshot()]
    {
      SnapshotsAppend(lobbies, l);
      AppendDistinct(lobbies, l);
      lobbies := lobbies + [l];
    }

    /** Drops the lobby object at index `i` from the list, as `kickPlayer` does with an emptied lobby. */
    method DropLobby(i: int)
      requires 0 <= i < |lobbies| && AllDistinct(lobbies)
      modifies this
      ensures AllDistinct(lobbies) && playersOnline == old(playersOnline)
      ensures lobbies == RemoveByIndex(old(lobbies), i)
      ensures View() == RemoveByIndex(old(View()), i)
    {
      SnapshotsRemove(lobbies, i);
      RemoveByIndexDistinct(lobbies, i);
      lobbies := RemoveByIndex(lobbies, i);
    }

    /** 'leave-lobby' (`handleLeaveLobby`) */
    method LeaveLobby(sid: SocketId) returns (out: seq<Directive>)
      requires Valid()
      modifies this, lobbies
      ensures Valid() && playersOnline == old(playersOnline)
      ensures Step(State(), out) == GatewayModel.LeaveLobby(old(State()), sid)
    {
      ghost var st := State();
      LeaveLobbyKeepsInv(st, sid);
      var user := UserBySocket(playersOnline, sid);
      if user.None? {
        return [];
      }
      var lobbyId, kickOut := KickPlayer(user.value.id);
      var render := if lobbyId.None? then [] else Render(View(), lobbyId.value);
      out := kickOut + render + LeaveIfTruthy(lobbyId);
      assert State() == GatewayModel.LeaveLobby(st, sid).state;
    }

    /** 'disconnect' (`handleDisconnect`) */
    method Disconnect(sid: SocketId) returns (out: seq<Directive>)
      requires Valid()
      modifies this, lobbies
      ensures Valid()
      ensures Step(State(), out) == GatewayModel.Disconnect(old(State()), sid)
    {
      ghost var st := State();
      DisconnectKeepsInv(st, sid);
      var userIndex := SocketIndex(playersOnline, sid);
      if userIndex == -1 {
        return [];
      }
      var lobbyId, kickOut := KickPlayer(playersOnline[userIndex].user.id);
      out := kickOut + LeaveIfTruthy(lobbyId);
      playersOnline := RemoveByIndex(playersOnline, userIndex);
      assert State() == GatewayModel.Disconnect(st, sid).state;
    }

    /** 'start-battle' (`handleStartBattle`) for the lobby id in the message. */
    method StartBattle(lid: int) returns (out: seq<Directive>)
      requires Valid()
      modifies lobbies
      ensures Valid() && lobbies == old(lobbies) && playersOnline == old(playersOnline)
      ensures Step(State(), out) == GatewayModel.StartBattle(old(State()), lid)
    {
      ghost var st := State();
      StartBattleKeepsInv(st, lid);
      ghost var snaps := View();
      var lobbyIndex := LobbyIndex(View(), lid);
      if lobbyIndex == -1 {
        return [];
      }
      var lobby := lobbies[lobbyIndex];
      lobby.StartBattle();
      forall j | 0 <= j < |lobbies| && j != lobbyIndex ensures lobbies[j].Snapshot() == snaps[j] {
        assert lobbies[j] != lobby;
      }
      SnapshotsUpdate(lobbies, lobbyIndex, snaps);
      out := Render(View(), lid);
      assert State() == GatewayModel.StartBattle(st, lid).state;
    }
  }
}
