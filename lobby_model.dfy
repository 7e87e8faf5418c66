/** The entities of one lobby and its transitions, stated on values.
    `Snapshot` is everything a `Lobby` object holds; each transition below
    is what one `Lobby` method does to it (src/app.gateway.ts:50-168). */
module LobbyModel {
  import opened Seqs

  type UserId = string

  /** A user as the profile store returns it: `{id, username}`. */
  datatype Player = Player(id: UserId, username: string)

  /** A card; its `play` closure is a no-op in every card and is not kept. */
  datatype Card = Card(
    id: string, img: string, title: string, description: string, rare: int,
    damage: Option<int>, shield: Option<int>)

  /** A roster member copied into a battle, with its combat state. */
  datatype BattlePlayer = BattlePlayer(
    id: UserId, username: string, hp: int, shield: int, hand: seq<Card>, energy: int)

  datatype Battle = Battle(players: seq<BattlePlayer>, decks: seq<seq<Card>>, throws: seq<seq<Card>>)

  datatype Status = Pending | Ready | InBattle

  /** The state of one lobby: its fields `id`, `status`, `players`, `turn`, `battle`. */
  datatype Snapshot = Snapshot(id: int, status: Status, players: seq<Player>, turn: nat, battle: Option<Battle>)

  /** What `playCard` did; `NoCurrentPlayer` stands for the TypeError thrown
      when there is no battle or `turn` is past the battle's players. */
  datatype PlayOutcome = Played | CardNotInHand | NoCurrentPlayer

  const AttackCard := Card("attack", "", "Атака", "Атакует врага", 0, Some(5), None)
  const ShieldCard := Card("shield", "", "Щит", "Защитить себя", 0, None, Some(10))

  /** The hand `startBattle` gives every player. */
  const StartingHand := [AttackCard, ShieldCard, AttackCard, ShieldCard]

  /** Some roster member has the id `uid`. */
  predicate IncludesPlayer(players: seq<Player>, uid: UserId) {
    exists k :: 0 <= k < |players| && players[k].id == uid
  }

  /** No two roster members share an id. */
  predicate NoDupIds(players: seq<Player>) {
    forall i, j :: 0 <= i < j < |players| ==> players[i].id != players[j].id
  }

  /** The index of the first roster member with the id `uid`, or -1 (`kickPlayer`'s search). */
  function PlayerIndex(players: seq<Player>, uid: UserId): (r: int)
    ensures -1 <= r < |players|
    ensures r == -1 <==> !IncludesPlayer(players, uid)
    ensures 0 <= r ==> players[r].id == uid && forall j :: 0 <= j < r ==> players[j].id != uid
  {
    if players == [] then -1
    else if players[0].id == uid then 0
    else
      var k := PlayerIndex(players[1..], uid);
      if k == -1 then -1 else k + 1
  }

  /** The index of the first card in the hand with the id `cardId`, or -1 (`playCard`'s search). */
  function CardIndex(hand: seq<Card>, cardId: string): (r: int)
    ensures -1 <= r < |hand|
    ensures r == -1 <==> forall j :: 0 <= j < |hand| ==> hand[j].id != cardId
    ensures 0 <= r ==> hand[r].id == cardId && forall j :: 0 <= j < r ==> hand[j].id != cardId
  {
    if hand == [] then -1
    else if hand[0].id == cardId then 0
    else
      var k := CardIndex(hand[1..], cardId);
      if k == -1 then -1 else k + 1
  }

  /** The roster with every member of id `uid` taken out (a reference
      definition that the removal by index is compared against). */
  function Without(players: seq<Player>, uid: UserId): seq<Player> {
    if players == [] then []
    else if players[0].id == uid then Without(players[1..], uid)
    else [players[0]] + Without(players[1..], uid)
  }

  /** The hand with its first card of id `cardId` taken out (reference definition). */
  function RemoveFirst(hand: seq<Card>, cardId: string): seq<Card> {
    if hand == [] then []
    else if hand[0].id == cardId then hand[1..]
    else [hand[0]] + RemoveFirst(hand[1..], cardId)
  }

  // ---------------------------------------------------------------------------
  // Transitions

  /** `new Lobby(id)` */
  function NewLobby(id: int): Snapshot {
    Snapshot(id, Pending, [], 0, None)
  }

  /** `pushPlayer(player)` */
  function Joined(l: Snapshot, p: Player): Snapshot {
    if IncludesPlayer(l.players, p.id) then l
    else
      var players := l.players + [p];
      l.(players := players, status := if |players| == 3 then Ready else l.status)
  }

  /** `kickPlayer(uuid)`; its only caller has checked that `uuid` is seated. */
  function Kicked(l: Snapshot, uid: UserId): Snapshot
    requires IncludesPlayer(l.players, uid)
  {
    l.(players := RemoveByIndex(l.players, PlayerIndex(l.players, uid)))
  }

  /** A roster member entering a battle: hp 100, shield 0, energy 0, the starting hand. */
  function Enter(p: Player): BattlePlayer {
    BattlePlayer(p.id, p.username, 100, 0, StartingHand, 0)
  }

  /** `startBattle()` */
  function BattleStarted(l: Snapshot): Snapshot {
    if |l.players| != 4 then l
    else
      var ps := l.players;
      l.(battle := Some(Battle([Enter(ps[0]), Enter(ps[1]), Enter(ps[2]), Enter(ps[3])], [], [])))
  }

  /** `playCard(cardId)`; the target argument is never read. */
  function CardPlayed(l: Snapshot, cardId: string): (Snapshot, PlayOutcome) {
    if l.battle.None? || l.turn >= |l.battle.value.players| then (l, NoCurrentPlayer)
    else
      var b := l.battle.value;
      var player := b.players[l.turn];
      var cardIndex := CardIndex(player.hand, cardId);
      if cardIndex == -1 then (l, CardNotInHand)
      else
        var hand := RemoveByIndex(player.hand, cardIndex);
        (l.(battle := Some(b.(players := b.players[l.turn := player.(hand := hand)]))), Played)
  }

  /** `switchTurn()`: back to 0 from the last roster index, otherwise one up. */
  function TurnSwitched(l: Snapshot): Snapshot {
    l.(turn := if l.turn == |l.players| - 1 then 0 else l.turn + 1)
  }

  /** `k` successive calls of `switchTurn()`. */
  function TurnSwitchedTimes(l: Snapshot, k: nat): Snapshot {
    if k == 0 then l else TurnSwitched(TurnSwitchedTimes(l, k - 1))
  }

  // ---------------------------------------------------------------------------
  // Properties of the transitions

  /** Joining with an id already seated changes nothing; otherwise the player
      is appended and the status becomes `Ready` exactly when the roster
      reaches 3, and is left alone otherwise. Nothing else changes. */
  lemma JoinedSpec(l: Snapshot, p: Player)
    ensures var r := Joined(l, p);
      && r.id == l.id && r.turn == l.turn && r.battle == l.battle
      && (IncludesPlayer(l.players, p.id) ==> r == l)
      && (!IncludesPlayer(l.players, p.id) ==>
            r.players == l.players + [p]
            && (|r.players| == 3 ==> r.status == Ready)
            && (|r.players| != 3 ==> r.status == l.status))
  {
  }

  /** After joining, the player is seated, every earlier member still is,
      and a roster without duplicate ids stays without them. */
  lemma JoinedKeepsRoster(l: Snapshot, p: Player)
    ensures IncludesPlayer(Joined(l, p).players, p.id)
    ensures forall q :: IncludesPlayer(Joined(l, p).players, q) <==> IncludesPlayer(l.players, q) || q == p.id
    ensures NoDupIds(l.players) ==> NoDupIds(Joined(l, p).players)
  {
    var r := Joined(l, p);
    if !IncludesPlayer(l.players, p.id) {
      assert r.players[|l.players|] == p;
      forall q | IncludesPlayer(l.players, q) ensures IncludesPlayer(r.players, q) {
        var k :| 0 <= k < |l.players| && l.players[k].id == q;
        assert r.players[k].id == q;
      }
      forall q | IncludesPlayer(r.players, q) ensures IncludesPlayer(l.players, q) || q == p.id {
        var k :| 0 <= k < |r.players| && r.players[k].id == q;
        if k < |l.players| {
          assert l.players[k].id == q;
        }
      }
    }
  }

  /** Joining twice is joining once (the join is idempotent by id). */
  lemma JoinedIdempotent(l: Snapshot, p: Player)
    ensures Joined(Joined(l, p), p) == Joined(l, p)
  {
    JoinedKeepsRoster(l, p);
  }

  lemma {:induction false} WithoutAbsent(players: seq<Player>, uid: UserId)
    requires !IncludesPlayer(players, uid)
    ensures Without(players, uid) == players
  {
    if players != [] {
      assert players[0].id != uid;
      assert !IncludesPlayer(players[1..], uid) by {
        forall k | 0 <= k < |players[1..]| ensures players[1..][k].id != uid {
          assert players[1..][k] == players[k + 1];
        }
      }
      WithoutAbsent(players[1..], uid);
      assert players == [players[0]] + players[1..];
    }
  }

  /** Removing the first member of id `uid` by index removes every member of
      that id, when ids are distinct: the rest keep their order. */
  lemma {:induction false} RemovePlayerIsWithout(players: seq<Player>, uid: UserId)
    requires NoDupIds(players) && IncludesPlayer(players, uid)
    ensures RemoveByIndex(players, PlayerIndex(players, uid)) == Without(players, uid)
  {
    var tail := players[1..];
    assert forall k :: 0 <= k < |tail| ==> tail[k] == players[k + 1];
    if players[0].id == uid {
      assert PlayerIndex(players, uid) == 0;
      assert !IncludesPlayer(tail, uid) by {
        forall k | 0 <= k < |tail| ensures tail[k].id != uid {
          assert players[0].id != players[k + 1].id;
        }
      }
      WithoutAbsent(tail, uid);
      assert RemoveByIndex(players, 0) == tail;
    } else {
      var i := PlayerIndex(players, uid);
      assert IncludesPlayer(tail, uid) by { assert tail[i - 1].id == uid; }
      var j := PlayerIndex(tail, uid);
      assert i == j + 1 by {
        assert tail[i - 1].id == uid;
        assert players[j + 1].id == uid;
      }
      RemovePlayerIsWithout(tail, uid);
      assert RemoveByIndex(players, i) == [players[0]] + RemoveByIndex(tail, j);
    }
  }

  /** `kickPlayer` removes exactly the member `uid` and keeps the others in
      their order; the lobby's other fields stay as they were. */
  lemma KickedSpec(l: Snapshot, uid: UserId)
    requires NoDupIds(l.players) && IncludesPlayer(l.players, uid)
    ensures Kicked(l, uid) == l.(players := Without(l.players, uid))
    ensures |Kicked(l, uid).players| == |l.players| - 1
  {
    RemovePlayerIsWithout(l.players, uid);
  }

  /** After `kickPlayer(uid)` the members are the old ones other than `uid`,
      without duplicate ids, as long as there were none before. */
  lemma KickedKeepsRoster(l: Snapshot, uid: UserId)
    requires IncludesPlayer(l.players, uid)
    ensures forall q :: IncludesPlayer(Kicked(l, uid).players, q) ==> IncludesPlayer(l.players, q)
    ensures forall q :: q != uid && IncludesPlayer(l.players, q) ==> IncludesPlayer(Kicked(l, uid).players, q)
    ensures NoDupIds(l.players) ==> NoDupIds(Kicked(l, uid).players) && !IncludesPlayer(Kicked(l, uid).players, uid)
  {
    var i := PlayerIndex(l.players, uid);
    var r := Kicked(l, uid).players;
    forall q | IncludesPlayer(r, q) ensures IncludesPlayer(l.players, q) {
      var k :| 0 <= k < |r| && r[k].id == q;
      if k < i { assert l.players[k].id == q; } else { assert l.players[k + 1].id == q; }
    }
    forall q | q != uid && IncludesPlayer(l.players, q) ensures IncludesPlayer(r, q) {
      var k :| 0 <= k < |l.players| && l.players[k].id == q;
      if k < i { assert r[k].id == q; } else { assert k != i && r[k - 1].id == q; }
    }
    if NoDupIds(l.players) {
      forall a, b | 0 <= a < b < |r| ensures r[a].id != r[b].id {
        var a' := if a < i then a else a + 1;
        var b' := if b < i then b else b + 1;
        assert r[a] == l.players[a'] && r[b] == l.players[b'];
      }
      forall k | 0 <= k < |r| ensures r[k].id != uid {
        var k' := if k < i then k else k + 1;
        assert r[k] == l.players[k'] && k' != i;
      }
    }
  }

  /** `startBattle` does nothing unless exactly 4 players are seated;
      otherwise it builds the 4 battle players in roster order, each at hp
      100, shield 0, energy 0 with its own starting hand, empty decks and
      throws, and leaves status, roster and turn alone. */
  lemma BattleStartedSpec(l: Snapshot)
    ensures |l.players| != 4 ==> BattleStarted(l) == l
    ensures |l.players| == 4 ==>
      var r := BattleStarted(l);
      && r.id == l.id && r.status == l.status && r.players == l.players && r.turn == l.turn
      && r.battle.Some? && |r.battle.value.players| == 4
      && r.battle.value.decks == [] && r.battle.value.throws == []
      && forall i :: 0 <= i < 4 ==>
           var bp := r.battle.value.players[i];
           && bp.id == l.players[i].id && bp.username == l.players[i].username
           && bp.hp == 100 && bp.shield == 0 && bp.energy == 0 && bp.hand == StartingHand
  {
  }

  lemma {:induction false} RemoveCardIsRemoveFirst(hand: seq<Card>, cardId: string)
    requires CardIndex(hand, cardId) != -1
    ensures RemoveByIndex(hand, CardIndex(hand, cardId)) == RemoveFirst(hand, cardId)
  {
    var i := CardIndex(hand, cardId);
    var tail := hand[1..];
    if i == 0 {
      assert RemoveByIndex(hand, 0) == tail;
    } else {
      assert tail[i - 1].id == cardId;
      var j := CardIndex(tail, cardId);
      assert i == j + 1 by {
        assert hand[j + 1] == tail[j];
      }
      RemoveCardIsRemoveFirst(tail, cardId);
      assert RemoveByIndex(hand, i) == [hand[0]] + RemoveByIndex(tail, j);
    }
  }

  /** `playCard(cardId)`: without a current player or with no card of that
      id in its hand nothing changes; otherwise exactly the first such card
      leaves the current player's hand, the other cards keep their order and
      no other player, nor anything else in the lobby, changes. */
  lemma CardPlayedSpec(l: Snapshot, cardId: string)
    ensures var (r, outcome) := CardPlayed(l, cardId);
      && (outcome == NoCurrentPlayer <==> l.battle.None? || l.turn >= |l.battle.value.players|)
      && (outcome != Played ==> r == l)
      && (outcome == CardNotInHand <==>
            outcome != NoCurrentPlayer && forall c :: c in l.battle.value.players[l.turn].hand ==> c.id != cardId)
      && (outcome == Played ==>
            var b := l.battle.value;
            var old_hand := b.players[l.turn].hand;
            && r.id == l.id && r.status == l.status && r.players == l.players && r.turn == l.turn
            && r.battle.Some? && |r.battle.value.players| == |b.players|
            && r.battle.value.decks == b.decks && r.battle.value.throws == b.throws
            && r.battle.value.players[l.turn] == b.players[l.turn].(hand := RemoveFirst(old_hand, cardId))
            && multiset(r.battle.value.players[l.turn].hand) + multiset{old_hand[CardIndex(old_hand, cardId)]}
                 == multiset(old_hand)
            && forall k :: 0 <= k < |b.players| && k != l.turn ==> r.battle.value.players[k] == b.players[k])
  {
    var (r, outcome) := CardPlayed(l, cardId);
    if outcome != NoCurrentPlayer {
      var hand := l.battle.value.players[l.turn].hand;
      if CardIndex(hand, cardId) != -1 {
        RemoveCardIsRemoveFirst(hand, cardId);
        RemoveByIndexMultiset(hand, CardIndex(hand, cardId));
      } else {
        forall c | c in hand ensures c.id != cardId {
          var k :| 0 <= k < |hand| && hand[k] == c;
        }
      }
    }
  }

  /** A second `startBattle` overwrites a battle in progress: the cards
      already played come back. */
  lemma BattleRestartResetsHands(l: Snapshot, cardId: string)
    requires |l.players| == 4
    ensures BattleStarted(CardPlayed(BattleStarted(l), cardId).0) == BattleStarted(l)
  {
  }

  /** With `turn` inside the roster, `switchTurn` moves to the next index
      modulo the roster size; past the roster it only counts up. */
  lemma TurnSwitchedSpec(l: Snapshot)
    ensures l.turn < |l.players| ==> TurnSwitched(l).turn == (l.turn + 1) % |l.players|
    ensures l.turn >= |l.players| ==> TurnSwitched(l).turn == l.turn + 1
    ensures TurnSwitched(l) == l.(turn := TurnSwitched(l).turn)
  {
  }

  /** Up to a full round, `k` calls of `switchTurn` from a turn inside the
      roster advance it by `k`, wrapping once past the last index. */
  lemma {:induction false} TurnSwitchedTimesAdvances(l: Snapshot, k: nat)
    requires l.turn < |l.players| && k <= |l.players|
    ensures TurnSwitchedTimes(l, k).turn
              == if l.turn + k < |l.players| then l.turn + k else l.turn + k - |l.players|
    ensures TurnSwitchedTimes(l, k) == l.(turn := TurnSwitchedTimes(l, k).turn)
  {
    if k > 0 {
      TurnSwitchedTimesAdvances(l, k - 1);
    }
  }

  /** However many calls of `switchTurn` are made from a turn inside the
      roster, the turn cycles through the roster: `k` calls give
      `(turn + k) mod size`, and nothing else changes. */
  lemma {:induction false} TurnSwitchedTimesRotates(l: Snapshot, k: nat)
    requires l.turn < |l.players|
    ensures TurnSwitchedTimes(l, k).turn == (l.turn + k) % |l.players|
    ensures TurnSwitchedTimes(l, k) == l.(turn := TurnSwitchedTimes(l, k).turn)
  {
    if k > 0 {
      TurnSwitchedTimesRotates(l, k - 1);
      NextModulo(l.turn + k - 1, |l.players|);
    }
  }

  /** One step of a counter kept modulo `n`. */
  lemma NextModulo(x: nat, n: nat)
    requires 0 < n
    ensures (if x % n == n - 1 then 0 else x % n + 1) == (x + 1) % n
  {
    var q, r := x / n, x % n;
    if r == n - 1 {
      ModOfMultiple(x + 1, q + 1, 0, n);
    } else {
      ModOfMultiple(x + 1, q, r + 1, n);
    }
  }

  /** The remainder of `q * n + r` is `r` when `0 <= r < n`. */
  lemma ModOfMultiple(a: int, q: int, r: int, n: int)
    requires 0 <= r < n && a == q * n + r
    ensures a % n == r
  {
    var q', r' := a / n, a % n;
    assert (q - q') * n == r' - r;
    if q > q' {
      assert (q - q') * n >= n by { MulAtLeast(q - q', n); }
    } else if q < q' {
      assert (q' - q) * n >= n by { MulAtLeast(q' - q, n); }
    }
  }

  lemma MulAtLeast(d: int, n: int)
    requires d >= 1 && n > 0
    ensures d * n >= n
  {
  }

  /** As many calls of `switchTurn` as there are players come back to the
      starting turn; in particular four calls in a lobby of 4. */
  lemma FullRoundReturns(l: Snapshot)
    requires l.turn < |l.players|
    ensures TurnSwitchedTimes(l, |l.players|) == l
  {
    TurnSwitchedTimesAdvances(l, |l.players|);
  }

  /** Four distinct users joining a fresh lobby: the third join makes it
      `Ready`, the roster is in join order, and `startBattle` then seats
      the four in that order. */
  lemma FourJoinsThenBattle(id: int, a: Player, b: Player, c: Player, d: Player)
    requires a.id != b.id && a.id != c.id && a.id != d.id && b.id != c.id && b.id != d.id && c.id != d.id
    ensures var l2 := Joined(Joined(NewLobby(id), a), b);
      && l2.status == Pending
      && Joined(l2, c).status == Ready
      && Joined(Joined(l2, c), d).players == [a, b, c, d]
      && Joined(Joined(l2, c), d).status == Ready
      && BattleStarted(Joined(Joined(l2, c), d)).battle
           == Some(Battle([Enter(a), Enter(b), Enter(c), Enter(d)], [], []))
  {
    var l1 := Joined(NewLobby(id), a);
    assert l1.players == [a];
    var l2 := Joined(l1, b);
    assert !IncludesPlayer(l1.players, b.id);
    assert l2.players == [a, b];
    var l3 := Joined(l2, c);
    assert !IncludesPlayer(l2.players, c.id);
    assert l3.players == [a, b, c];
    assert !IncludesPlayer(l3.players, d.id);
  }
}
