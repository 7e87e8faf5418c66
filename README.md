# card-pvp-server: lobby and presence bookkeeping in Dafny

This project models the in-memory state that the card-pvp-server socket gateway
(`src/app.gateway.ts`) keeps, and proves properties of that model. The state has
two parts:

- the presence list `playersOnline` of `{ id: socket id, user }` entries: at
  most one entry per socket and per user, added by a successful `online` and
  moved to the user's latest socket when they announce again from another;
- the lobby list `lobbies`.

A `Lobby` has five fields: its id, a status (`pending`, `ready` or `battle`), an
ordered roster of players, a turn index and an optional battle. The gateway's
socket handlers act on both lists:

- `online` registers a socket;
- `create-lobby` opens a lobby;
- `find-lobby` seats the user in the first lobby with a free seat;
- `leave-lobby` and `disconnect` evict the user;
- `start-battle` deals the opening battle.

The project has five files:

- `seqs.dfy` (module `Seqs`) holds the `removeByIndex` helper, an option type
  and a distinctness predicate.
- `lobby_model.dfy` (module `LobbyModel`) holds the entities as datatypes. A
  `Snapshot` holds everything one `Lobby` object holds. Each `Lobby` method is a
  function from snapshot to snapshot, and the lemmas about those functions are
  here.
- `lobby.dfy` (module `Lobbies`) is the `Lobby` class. Its fields are updated in
  place, and each method is proved to move `Snapshot()` as the matching
  `LobbyModel` function does.
- `gateway_model.dfy` (module `GatewayModel`) holds the gateway's state as a
  value (`GatewayState`) and the lookups the handlers use. Each lookup is its
  own first-match recursion rather than one lookup parameterised by a
  predicate, because the function-value form made the handler proofs too
  costly for the verifier. Each handler is a
  function returning the new state and the `Directive`s it sends: an emit to
  the caller, a broadcast to a room, or joining or leaving a room. This file
  also holds the state invariant `Inv` and the lemmas that every handler keeps
  it and does what the code promises. `Inv` says:
  - one presence entry per socket and per user;
  - unique lobby ids;
  - every listed lobby has 1 to 4 members with distinct ids, is never in status
    `battle`, and is `ready` from 3 members on;
  - a user sits in at most one lobby;
  - every seated user is online.
- `gateway.dfy` (module `Gateway`) is the `AppGateway` class. Its fields are
  `playersOnline` (a sequence of entries) and `lobbies` (a sequence of `Lobby`
  objects). Each handler is a method that:
  - updates the objects in place;
  - keeps `Valid()`, which means the lobby objects are distinct and `Inv`
    holds;
  - ends in `Step(State(), out)` equal to the `GatewayModel` function of the
    same name applied to the old state.

External effects are parameters:

- The profile lookup of `online` is `profiles: map<UserId, string>` (user id to
  username).
- The random lobby ids of `create-lobby` are a sequence `draws` of values in
  [0, 99999). The id retry loop takes them in order.
- Socket emits, room joins and leaves, and `renderLobby` broadcasts are the
  returned `seq<Directive>`.

## Model

| member | source | states |
|---|---|---|
| Seqs.RemoveByIndex | src/app.gateway.ts:170-174 | the result is one shorter; elements before the index stay, and elements after it move down by one |
| Seqs.RemoveByIndexMultiset | src/app.gateway.ts:170-174 | the removed element plus the result is exactly the input as a multiset: nothing is lost or duplicated |
| Seqs.RemoveByIndexInverse | src/app.gateway.ts:170-174 | putting the removed element back at its index restores the input |
| Seqs.RemoveByIndexDistinct | src/app.gateway.ts:326 | removing one lobby from a list of distinct lobbies leaves them distinct |
| LobbyModel.PlayerIndex | src/app.gateway.ts:165 | `players.findIndex` by id: -1 exactly when no member has the id, else the first member that has it |
| LobbyModel.CardIndex | src/app.gateway.ts:136 | `hand.findIndex` by card id: -1 exactly when no card has the id, else the first card that has it |
| LobbyModel.NewLobby | src/app.gateway.ts:50-55 | the fields of a new lobby: `pending`, no players, turn 0, no battle; `Lobbies.Lobby.constructor` is proved to produce exactly this |
| LobbyModel.Joined | src/app.gateway.ts:151-157 | `pushPlayer` as a function of the lobby's fields: no change for a seated id, otherwise the player appended and `ready` at 3; its properties are stated by `JoinedSpec`, `JoinedKeepsRoster` and `JoinedIdempotent` |
| LobbyModel.Kicked | src/app.gateway.ts:164-167 | `kickPlayer` as a function of the lobby's fields: the roster with the member at the found index removed; its properties are stated by `KickedSpec`, `KickedKeepsRoster` and `RemovePlayerIsWithout` |
| LobbyModel.BattleStarted | src/app.gateway.ts:56-131 | `startBattle` as a function of the lobby's fields; its properties are stated by `BattleStartedSpec` and `BattleRestartResetsHands` |
| LobbyModel.CardPlayed | src/app.gateway.ts:133-139 | `playCard` as a function of the lobby's fields, with the outcome; its properties are stated by `CardPlayedSpec` and `RemoveCardIsRemoveFirst` |
| LobbyModel.TurnSwitched | src/app.gateway.ts:147-149 | `switchTurn` as a function of the lobby's fields; its properties are stated by `TurnSwitchedSpec`, `TurnSwitchedTimesRotates` and `FullRoundReturns` |
| LobbyModel.JoinedSpec | src/app.gateway.ts:151-157 | `pushPlayer` with a seated id changes nothing; otherwise the player is appended, status becomes `ready` when the roster reaches 3 and is kept otherwise; id, turn and battle never change |
| LobbyModel.JoinedKeepsRoster | src/app.gateway.ts:151-157 | after `pushPlayer` the player is seated, the seated ids are exactly the old ones plus the new id, and a roster without duplicate ids stays so |
| LobbyModel.JoinedIdempotent | src/app.gateway.ts:151-157 | pushing the same player twice is pushing once |
| LobbyModel.RemovePlayerIsWithout | src/app.gateway.ts:164-167 | on a roster with distinct ids, removing at the index `findIndex` returns equals the roster with that id filtered out |
| LobbyModel.KickedSpec | src/app.gateway.ts:164-167 | `kickPlayer` removes exactly that member, keeps the others in order, shrinks the roster by one and changes no other field |
| LobbyModel.KickedKeepsRoster | src/app.gateway.ts:164-167 | after `kickPlayer` the seated ids are the old ones without that id, and no duplicates appear |
| LobbyModel.BattleStartedSpec | src/app.gateway.ts:56-131 | `startBattle` changes nothing unless exactly 4 are seated; otherwise it builds 4 battle players in roster order with hp 100, shield 0, energy 0 and the starting hand, with empty decks and throws, and leaves status, roster and turn alone |
| LobbyModel.RemoveCardIsRemoveFirst | src/app.gateway.ts:136-138 | removing at the index `findIndex` returns removes the first card with that id, and the others keep their order |
| LobbyModel.CardPlayedSpec | src/app.gateway.ts:133-139 | `playCard` with no current player (error) or with a card id not in the hand changes nothing; otherwise exactly the first matching card leaves the current player's hand (multiset and order), and no other player or field changes |
| LobbyModel.BattleRestartResetsHands | src/app.gateway.ts:56-139 | a second `startBattle` after a card play rebuilds the same battle as the first |
| LobbyModel.TurnSwitchedSpec | src/app.gateway.ts:147-149 | with the turn inside the roster, `switchTurn` gives (turn + 1) mod size; past the roster it adds one; no other field changes |
| LobbyModel.TurnSwitchedTimesAdvances | src/app.gateway.ts:147-149 | up to a full round, k calls of `switchTurn` advance the turn by k, wrapping once past the last index |
| LobbyModel.TurnSwitchedTimesRotates | src/app.gateway.ts:147-149 | however many calls of `switchTurn` are made from a turn inside the roster, k calls give (turn + k) mod size, so the turn cycles 0, 1, …, size - 1, 0, …; no other field changes |
| LobbyModel.FullRoundReturns | src/app.gateway.ts:147-149 | as many calls of `switchTurn` as there are players return to the starting turn (four calls with 4 players) |
| LobbyModel.FourJoinsThenBattle | src/app.gateway.ts:50-157 | four distinct users join a new lobby: it is `pending` after two, `ready` after the third, seats them in join order, and `startBattle` seats the four in that order |
| Lobbies.Lobby.constructor | src/app.gateway.ts:50-55 | a new lobby is `pending`, with no players, turn 0 and no battle |
| Lobbies.Lobby.NumbOfPlayers | src/app.gateway.ts:158-160 | `getNumbOfPlayers` is the roster length |
| Lobbies.Lobby.IncludesPlayer | src/app.gateway.ts:161-163 | `includesPlayer` holds exactly when some member has the id |
| Lobbies.Lobby.PushPlayer | src/app.gateway.ts:151-157 | the fields move as `Joined` says: unchanged for a seated id, otherwise appended, and `ready` at 3 |
| Lobbies.Lobby.KickPlayer | src/app.gateway.ts:164-167 | the roster becomes `removeByIndex` at that member's index, as `Kicked` says |
| Lobbies.Lobby.StartBattle | src/app.gateway.ts:56-131 | the battle field becomes the 4 battle players built from the roster, or stays as it was unless exactly 4 are seated |
| Lobbies.Lobby.PlayCard | src/app.gateway.ts:133-139 | the battle and outcome are those of `CardPlayed`; the battle is untouched unless a card was played |
| Lobbies.Lobby.SwitchTurn | src/app.gateway.ts:147-149 | the turn moves as `TurnSwitched` says, to (turn + 1) mod size from inside the roster |
| GatewayModel.FreshDrawIndex | src/app.gateway.ts:245-253 | the id loop keeps the first draw that no lobby uses; -1 exactly when every draw is taken |
| GatewayModel.SocketIndex | src/app.gateway.ts:194 | the first presence entry of the socket, or -1 exactly when there is none |
| GatewayModel.UserIndex | src/app.gateway.ts:195-198 | the first presence entry of the user id, or -1 exactly when there is none |
| GatewayModel.UserBySocket | src/app.gateway.ts:214-215 | `getUserBySocketId` is null exactly when no entry has the socket; otherwise its user is listed under that socket |
| GatewayModel.LobbyIndex | src/app.gateway.ts:226-228 | the first lobby with the id, or -1 exactly when there is none |
| GatewayModel.SeatIndex | src/app.gateway.ts:239-241 | `getUsersLobbyIndex`: the first lobby that includes the user, or -1 exactly when none does |
| GatewayModel.FirstOpen | src/app.gateway.ts:211 | the first lobby with fewer than 4 players, or -1 exactly when there is none |
| GatewayModel.EmptyLobbies | src/app.gateway.ts:210-212 | `getEmptyLobbies` is empty exactly when no lobby has a free seat; its head is the first lobby with one |
| GatewayModel.Render | src/app.gateway.ts:273-277 | `renderLobby`: at most one directive, a broadcast to room `lid` of a listed lobby with that id, and nothing exactly when no lobby has the id |
| GatewayModel.LeaveIfTruthy | src/app.gateway.ts:288 | the room leave after a kick: at most one `LeaveRoom`, for room `r` exactly when the returned id is `r` and `r` is not 0 (the truthiness test treats 0 as absent; the same guard is at line 337) |
| GatewayModel.Online | src/app.gateway.ts:188-208 | 'online' as a function of the gateway state; its properties are stated by `OnlineSpec`, `OnlineIdempotent` and `OnlineKeepsInv` |
| GatewayModel.CreateLobby | src/app.gateway.ts:254-271 | 'create-lobby' once the id is drawn, as a function of the gateway state returning the new state and what it sends; its properties are stated by `CreateLobbySpec` and `CreateLobbyKeepsInv` |
| GatewayModel.FindLobby | src/app.gateway.ts:291-315 | 'find-lobby' as a function of the gateway state returning the new state and what it sends; its properties are stated by `FindLobbyRefuses`, `FindLobbyReturnsSeat`, `FindLobbySeatsFirstOpen` and `FindLobbyKeepsInv` |
| GatewayModel.KickUser | src/app.gateway.ts:317-328 | the private `kickPlayer` as a function of the gateway state; it never touches the presence list, and its other properties are stated by `KickUserSpec` and `KickUserKeepsInv` |
| GatewayModel.LeaveLobby | src/app.gateway.ts:282-289 | 'leave-lobby' as a function of the gateway state returning the new state and what it sends; its properties are stated by `LeaveLobbySpec` and `LeaveLobbyKeepsInv` |
| GatewayModel.Disconnect | src/app.gateway.ts:330-339 | 'disconnect' as a function of the gateway state returning the new state and what it sends; its properties are stated by `DisconnectSpec` and `DisconnectKeepsInv` |
| GatewayModel.StartBattle | src/app.gateway.ts:224-232 | 'start-battle' as a function of the gateway state returning the new state and what it sends; its properties are stated by `StartBattleSpec` and `StartBattleKeepsInv` |
| GatewayModel.EmptyLobbiesSpec | src/app.gateway.ts:210-212 | `getEmptyLobbies` holds exactly the listed lobbies with fewer than 4 players, and is empty exactly when every lobby has 4 or more |
| GatewayModel.FirstOpenLobby | src/app.gateway.ts:308-309 | with unique lobby ids, the lobby found by `emptyLobbies[0].id` is the first one with a free seat |
| GatewayModel.EmptyInv | src/app.gateway.ts:184-186 | the initial empty lists satisfy the invariant |
| GatewayModel.ReplaceLobbyKeepsInv | src/app.gateway.ts:230 | replacing a lobby by a well-formed one with the same id and no new members keeps the invariant |
| GatewayModel.RemoveLobbyKeepsInv | src/app.gateway.ts:325-326 | dropping a lobby keeps the invariant |
| GatewayModel.SeatKeepsInv | src/app.gateway.ts:310 | seating an online user who sits nowhere in a lobby with a free seat keeps the invariant |
| GatewayModel.AddLobbyKeepsInv | src/app.gateway.ts:266-268 | appending a new lobby with a fresh id, holding one online user who sits nowhere, keeps the invariant |
| GatewayModel.RemoveEntryKeepsInv | src/app.gateway.ts:338 | dropping the presence entry of a user who sits nowhere keeps the invariant |
| GatewayModel.OnlineKeepsInv | src/app.gateway.ts:188-208 | `online` keeps the invariant: still one entry per socket and per user |
| GatewayModel.CreateLobbyKeepsInv | src/app.gateway.ts:243-271 | `create-lobby` with a fresh id keeps the invariant |
| GatewayModel.FindLobbyKeepsInv | src/app.gateway.ts:291-315 | `find-lobby` keeps the invariant: no roster exceeds 4 and a user sits in at most one lobby |
| GatewayModel.KickUserKeepsInv | src/app.gateway.ts:317-328 | the private `kickPlayer` keeps the invariant and the presence list, and afterwards the user sits nowhere |
| GatewayModel.KickUserSpec | src/app.gateway.ts:317-328 | `kickPlayer` takes the user out of the one lobby seating them, keeps the other members in order, drops that lobby once it is empty (the others keep their order) and returns its id; a user seated nowhere changes nothing |
| GatewayModel.LeaveLobbyKeepsInv | src/app.gateway.ts:282-289 | `leave-lobby` keeps the invariant |
| GatewayModel.DisconnectKeepsInv | src/app.gateway.ts:330-339 | `disconnect` keeps the invariant |
| GatewayModel.StartBattleKeepsInv | src/app.gateway.ts:224-232 | `start-battle` keeps the invariant |
| GatewayModel.OnlineSpec | src/app.gateway.ts:188-208 | `online` without a message or from a known socket changes nothing; a user already online under another socket has that entry rebound in place, with no new entry; otherwise an entry is appended exactly when the profile store knows the user; afterwards the socket resolves to that user |
| GatewayModel.OnlineIdempotent | src/app.gateway.ts:188-208 | announcing the same socket and user twice is announcing once |
| GatewayModel.CreateLobbySpec | src/app.gateway.ts:243-271 | `create-lobby` from an unknown socket answers `lobby-not-created` and changes nothing; a seated user gets their own lobby back and nothing changes; otherwise a pending lobby with the drawn id and the user as sole member is appended, joined and returned |
| GatewayModel.FindLobbyRefuses | src/app.gateway.ts:293-302 | `find-lobby` with every lobby full, or from an unknown socket, answers `lobby-not-found` and changes nothing |
| GatewayModel.FindLobbyReturnsSeat | src/app.gateway.ts:303-307 | `find-lobby` from a seated user returns a lobby that seats them and changes nothing |
| GatewayModel.FindLobbySeatsFirstOpen | src/app.gateway.ts:308-314 | `find-lobby` from a known user seated nowhere appends them to the first lobby with fewer than 4 players (`ready` when it reaches 3), joins its room, broadcasts it and returns it; nothing else changes |
| GatewayModel.FindLobbyJoins | src/app.gateway.ts:308-314 | the joining branch of `find-lobby` updates that lobby alone and sends join, broadcast and `lobby-found` in that order |
| GatewayModel.LeaveLobbySpec | src/app.gateway.ts:282-289 | `leave-lobby` from an unknown socket changes nothing; otherwise the state is that of `kickPlayer`, the user sits nowhere, and the socket leaves the room of the lobby it left exactly when that id is not 0 |
| GatewayModel.DisconnectSpec | src/app.gateway.ts:330-339 | `disconnect` from an unknown socket changes nothing; otherwise the user is kicked as by `kickPlayer` and sits nowhere, and their only presence entry is dropped with the other entries kept in order, so the socket and the user are no longer online; the socket leaves the room of the lobby it left exactly when that id is not 0 |
| GatewayModel.StartBattleSpec | src/app.gateway.ts:224-232 | `start-battle` for an unknown id changes nothing; otherwise only that lobby's battle is rebuilt as `startBattle` does and the lobby is broadcast |
| Gateway.DrawLobbyId | src/app.gateway.ts:245-253 | the retry loop ends with an id no lobby uses, namely the first fresh draw |
| Gateway.AppGateway.constructor | src/app.gateway.ts:184-186 | both lists start empty and the invariant holds |
| Gateway.AppGateway.Online | src/app.gateway.ts:188-208 | the presence list moves as `GatewayModel.Online` says, in place, and the invariant is kept |
| Gateway.AppGateway.CreateLobby | src/app.gateway.ts:243-271 | state and output are those of `GatewayModel.CreateLobby` with the first fresh draw; the invariant is kept |
| Gateway.AppGateway.FindLobby | src/app.gateway.ts:291-315 | the joined lobby object is updated in place; state and output are those of `GatewayModel.FindLobby`; the invariant is kept |
| Gateway.AppGateway.KickPlayer | src/app.gateway.ts:317-328 | state, returned id and broadcast are those of `GatewayModel.KickUser`; the lobby objects stay distinct |
| Gateway.AppGateway.AddLobby | src/app.gateway.ts:268 | `lobbies.push` appends the object, and its snapshot is appended to the view |
| Gateway.AppGateway.DropLobby | src/app.gateway.ts:326 | `lobbies = removeByIndex(lobbies, i)` removes that object and its snapshot |
| Gateway.AppGateway.LeaveLobby | src/app.gateway.ts:282-289 | state and output are those of `GatewayModel.LeaveLobby`; the invariant is kept |
| Gateway.AppGateway.Disconnect | src/app.gateway.ts:330-339 | state and output are those of `GatewayModel.Disconnect`; the invariant is kept |
| Gateway.AppGateway.StartBattle | src/app.gateway.ts:224-232 | the lobby object is updated in place; state and output are those of `GatewayModel.StartBattle`; the invariant is kept |

## Left out

- The authentication service and controller, the exception helpers, the module
  wiring and the static card catalogue (`src/auth`, `src/exceptions.service.ts`,
  `src/app.module.ts`, `src/cards`). They are credential handling, HTTP routing
  and dependency injection, with no lobby logic. `startBattle` inlines its own
  hand and does not use the catalogue.
- The socket transport itself: `socket.emit`, `socket.join`, `socket.leave` and
  `server.to(...).emit`. They appear only as `Directive` values, in the order
  the handler issues them. The payload of an emitted lobby is its `Snapshot`;
  the JSON serialisation of the object is not modelled.
- `console.log`, and the `async`/`await` on the profile lookup. Each handler
  runs as one atomic step; interleaving of handlers is not modelled. The
  one-entry-per-socket and one-entry-per-user parts of the invariant rely on
  this. Two `online` events for the same user that both pass their checks
  before the `await` at src/app.gateway.ts:202 would each append an entry.
- The profile store (Prisma `findUnique`) is a map from user id to username. A
  lookup failure is a missing key, and the `email` field it also selects is not
  kept.
- Gateway.AppGateway.CreateLobby: `Math.random` is the parameter `draws`,
  and the method requires that some draw is fresh. The code loops until one
  is, so with no fresh draw its loop would not end.
- The card `play` closures, which are no-ops. Also `setDeck`, `dealHand`, the
  unused `Team` class, and the `message`, `close-lobby` and
  `get-all-players-online` handlers. None of them changes the bookkeeping.
- Damage, shield and win conditions: `playCard` applies no effect in the
  code, so the model applies none either.
- Lobbies.Lobby.KickPlayer: requires the user to be seated. Its one caller
  checks this first (src/app.gateway.ts:318-321). An unseated id would make
  `findIndex` return -1, which is not modelled.
- Seqs.RemoveByIndex: requires an index inside the sequence. Every caller
  passes an index it has found (src/app.gateway.ts:137, 321, 335). The slice
  behaviour for -1 is not modelled.
- Gateway.AppGateway.StartBattle: takes the lobby id as `lid: int`. The
  handler reads `message.id` without a guard (src/app.gateway.ts:226-228). A
  missing message throws a TypeError inside `findIndex` as soon as a lobby
  exists, and an id that is not a number never matches. Neither case is
  modelled.
- Lobbies.Lobby.PlayCard: the TypeError thrown when there is no battle, or when
  the turn is past the battle's players, is the outcome `NoCurrentPlayer` with
  nothing changed. The exception itself is not modelled.
- A `Battle` is a value held by its lobby. `playCard` overwrites the current
  player's hand inside that value, as the code does. Sharing of a battle or
  hand object between lobbies is not modelled, and the code never shares
  them.
- A presence entry is a value. The in-place overwrite of `playersOnline[i].id`
  is an update of the sequence at index `i`.
- Behaviour the model keeps exactly as the code has it:
  - status never becomes `battle`;
  - `startBattle` neither resets `turn` nor refuses a lobby already in battle,
    and a second call overwrites the battle;
  - `pushPlayer` has no size cap, and the cap of 4 comes only from the
    `getEmptyLobbies` filter;
  - `find-lobby` never creates a lobby;
  - `switchTurn` from a turn past the roster keeps counting up;
  - the `!!lobbyId` test treats lobby id 0 as absent, so a socket never leaves
    room 0.
