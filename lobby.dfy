/** The `Lobby` class of src/app.gateway.ts:50-168: one group of players
    whose methods update its fields in place. Each method is proved to
    take `Snapshot()` to the transition of the same name in `LobbyModel`. */
module Lobbies {
  import opened Seqs
  import opened LobbyModel

  class Lobby {
    const id: int
    var status: Status
    var players: seq<Player>
    var turn: nat
    var battle: Option<Battle>

    /** The lobby's fields as one value. */
    function Snapshot(): (s: LobbyModel.Snapshot)
      reads this
      ensures s.id == id && s.status == status && s.players == players && s.turn == turn && s.battle == battle
    {
      LobbyModel.Snapshot(id, status, players, turn, battle)
    }

    constructor(id: int)
      ensures Snapshot() == NewLobby(id)
    {
      this.id := id;
      status := Pending;
      players := [];
      turn := 0;
      battle := None;
    }

    /** `getNumbOfPlayers()` */
    function NumbOfPlayers(): (n: nat)
      reads this
      ensures n == |Snapshot().players|
    {
      |players|
    }

    /** `includesPlayer(uuid)`: whether `players.find` finds a member of that id. */
    function IncludesPlayer(uid: UserId): (b: bool)
      reads this
      ensures b <==> exists k :: 0 <= k < |players| && players[k].id == uid
    {
      PlayerIndex(players, uid) != -1
    }

    /** `pushPlayer(player)` */
    method PushPlayer(p: Player)
      modifies this`players, this`status
      ensures Snapshot() == Joined(old(Snapshot()), p)
      ensures old(IncludesPlayer(p.id)) ==> players == old(players) && status == old(status)
      ensures !old(IncludesPlayer(p.id)) ==>
        && players == old(players) + [p]
        && status == if |players| == 3 then Ready else old(status)
    {
      if IncludesPlayer(p.id) {
        return;
      }
      players := players + [p];
      if |players| == 3 {
        status := Ready;
      }
    }

    /** `kickPlayer(uuid)`: the gateway calls it only for a seated id. */
    method KickPlayer(uid: UserId)
      requires IncludesPlayer(uid)
      modifies this`players
      ensures Snapshot() == Kicked(old(Snapshot()), uid)
      ensures players == RemoveByIndex(old(players), PlayerIndex(old(players), uid))
    {
      var playerIndex := PlayerIndex(players, uid);
      players := RemoveByIndex(players, playerIndex);
    }

    /** `startBattle()` */
    method StartBattle()
      modifies this`battle
      ensures Snapshot() == BattleStarted(old(Snapshot()))
      ensures |players| != 4 ==> battle == old(battle)
      ensures |players| == 4 ==>
        battle == Some(Battle([Enter(players[0]), Enter(players[1]), Enter(players[2]), Enter(players[3])], [], []))
    {
      if |players| != 4 {
        return;
      }
      var hand := StartingHand;
      battle := Some(Battle(
        [ BattlePlayer(players[0].id, players[0].username, 100, 0, hand, 0),
          BattlePlayer(players[1].id, players[1].username, 100, 0, hand, 0),
          BattlePlayer(players[2].id, players[2].username, 100, 0, hand, 0),
          BattlePlayer(players[3].id, players[3].username, 100, 0, hand, 0) ],
        [], []));
    }

    /** `playCard(cardId, targetId)`; `targetId` is never read. */
    method PlayCard(cardId: string) returns (outcome: PlayOutcome)
      modifies this`battle
      ensures (Snapshot(), outcome) == CardPlayed(old(Snapshot()), cardId)
      ensures outcome != Played ==> battle == old(battle)
    {
      if battle.None? || turn >= |battle.value.players| {
        return NoCurrentPlayer;
      }
      var player := battle.value.players[turn];
      var hand := player.hand;
      var cardIndex := CardIndex(hand, cardId);
      if cardIndex == -1 {
        return CardNotInHand;
      }
      var b := battle.value;
      battle := Some(b.(players := b.players[turn := player.(hand := RemoveByIndex(hand, cardIndex))]));
      outcome := Played;
    }

    /** `switchTurn()` */
    method SwitchTurn()
      modifies this`turn
      ensures Snapshot() == TurnSwitched(old(Snapshot()))
      ensures old(turn) < |players| ==> turn == (old(turn) + 1) % |players|
    {
      turn := if turn == |players| - 1 then 0 else turn + 1;
      TurnSwitchedSpec(old(Snapshot()));
    }
  }
}
