/** The `FishingGameState` record, who is flagged as the current player, and the
    state `createInitialState` builds. */
module State {
  import opened Common
  import opened Cards

  /** `'asking' | 'showing' | 'guessing'` */
  datatype Phase = Asking | Showing | Guessing

  /** `currentAsk`: who asked whom for which rank, and the cards shown in reply. */
  datatype Ask = Ask(askingPlayerId: PlayerId, targetPlayerId: PlayerId, requestedRank: Rank, shownCards: seq<Card>)

  /** `lastMove`, without the player name and the timestamp; `guessedSuits` and
      `guessCorrect` are `null` (None) when no guess was made. */
  datatype Move = Move(
    playerId: PlayerId,
    targetPlayerId: PlayerId,
    requestedRank: Rank,
    targetPlayerCards: seq<Card>,
    guessedSuits: Option<seq<Suit>>,
    guessCorrect: Option<bool>,
    cardsExchanged: seq<Card>)

  /** `FishingGameState`. `currentPlayerIndex` is an integer: `findIndex` can make it -1. */
  datatype GameState = GameState(
    players: seq<Player>,
    currentPlayerIndex: int,
    gameOver: bool,
    winner: Option<PlayerId>,
    lastMove: Option<Move>,
    playerHands: map<PlayerId, seq<Card>>,
    playerScores: map<PlayerId, int>,
    playerStockpiles: map<PlayerId, seq<seq<Card>>>,
    deck: seq<Card>,
    discardedCards: seq<Card>,
    phase: Phase,
    currentAsk: Option<Ask>)

  // ---------------------------------------------------------------------------
  // The current-player flags

  /** Exactly the seat `i` is flagged current (no seat, when `i` is not a seat). */
  predicate OnlyCurrent(players: seq<Player>, i: int) {
    forall k :: 0 <= k < |players| ==> (players[k].isCurrentPlayer <==> k == i)
  }

  /** The seats flagged current. */
  function CurrentSeats(players: seq<Player>): set<nat> {
    set k: nat | k < |players| && players[k].isCurrentPlayer
  }

  /** Same seats, ids and names; only the flags may differ. */
  predicate SameSeats(a: seq<Player>, b: seq<Player>) {
    |a| == |b| && forall k :: 0 <= k < |a| ==> a[k].id == b[k].id && a[k].name == b[k].name
  }

  /** `players.map((p, i) => ({ ...p, isCurrentPlayer: i === idx }))` */
  function MarkCurrent(players: seq<Player>, idx: int): (r: seq<Player>)
    ensures SameSeats(r, players) && OnlyCurrent(r, idx)
  {
    seq(|players|, k requires 0 <= k < |players| => players[k].(isCurrentPlayer := k == idx))
  }

  /** `players.map(p => ({ ...p, isCurrentPlayer: p.id === id }))` */
  function MarkById(players: seq<Player>, id: PlayerId): (r: seq<Player>)
    ensures SameSeats(r, players)
    ensures forall k :: 0 <= k < |r| ==> (r[k].isCurrentPlayer <==> players[k].id == id)
  {
    seq(|players|, k requires 0 <= k < |players| => players[k].(isCurrentPlayer := players[k].id == id))
  }

  /** Flagging seat `idx` leaves exactly one seat current when `idx` is a seat, and none otherwise. */
  lemma MarkCurrentSeats(players: seq<Player>, idx: int)
    ensures CurrentSeats(MarkCurrent(players, idx)) == if 0 <= idx < |players| then {idx as nat} else {}
  {
    var r := MarkCurrent(players, idx);
    if 0 <= idx < |players| {
      assert r[idx].isCurrentPlayer;
    }
  }

  /** `players.findIndex(p => p.id === id)`: the first seat with that id, or -1. */
  function FindSeat(players: seq<Player>, id: PlayerId): (i: int)
    ensures -1 <= i < |players|
    ensures i == -1 <==> forall k :: 0 <= k < |players| ==> players[k].id != id
    ensures 0 <= i ==> players[i].id == id && forall k :: 0 <= k < i ==> players[k].id != id
    decreases |players|
  {
    if players == [] then -1
    else if players[0].id == id then 0
    else
      var i := FindSeat(players[1..], id);
      if i == -1 then -1 else i + 1
  }

  /** With distinct ids, flagging by id is flagging the seat that id sits in. */
  lemma MarkByIdIsMarkCurrent(players: seq<Player>, id: PlayerId)
    requires NoDup(Ids(players))
    ensures MarkById(players, id) == MarkCurrent(players, FindSeat(players, id))
  {
    var i := FindSeat(players, id);
    var a, b := MarkById(players, id), MarkCurrent(players, i);
    forall k | 0 <= k < |players| ensures a[k] == b[k] {
      if 0 <= i && players[k].id == id {
        assert Ids(players)[k] == Ids(players)[i];
      }
    }
  }

  // ---------------------------------------------------------------------------
  // Well-formed states

  /** The turn invariants: the index addresses a seat, exactly that seat is flagged current,
      seats have distinct ids, and an ask is pending exactly outside the asking phase. */
  predicate WellFormed(s: GameState) {
    && 0 <= s.currentPlayerIndex < |s.players|
    && OnlyCurrent(s.players, s.currentPlayerIndex)
    && NoDup(Ids(s.players))
    && (s.phase == Asking <==> s.currentAsk.None?)
  }

  /** In a well-formed state exactly one seat is current. */
  lemma WellFormedOneCurrent(s: GameState)
    requires WellFormed(s)
    ensures CurrentSeats(s.players) == {s.currentPlayerIndex as nat}
  {
    assert s.players == MarkCurrent(s.players, s.currentPlayerIndex);
    MarkCurrentSeats(s.players, s.currentPlayerIndex);
  }

  /** `Object.fromEntries(players.map(p => [p.id, 0]))` */
  function ZeroScores(ids: seq<PlayerId>): map<PlayerId, int> {
    map p | p in ids :: 0
  }

  /** `Object.fromEntries(players.map(p => [p.id, []]))` */
  function EmptyStockpiles(ids: seq<PlayerId>): map<PlayerId, seq<seq<Card>>> {
    map p | p in ids :: []
  }

  /** `createInitialState`: the first seat starts, nobody holds cards yet, every player
      scores 0 with an empty stockpile, and the game waits for an ask. */
  function CreateInitialState(players: seq<Player>): (s: GameState)
    ensures s.players == MarkCurrent(players, 0)
    ensures s.currentPlayerIndex == 0 && !s.gameOver && s.winner == None && s.lastMove == None
    ensures s.playerHands == map[] && s.deck == [] && s.discardedCards == []
    ensures s.playerScores.Keys == s.playerStockpiles.Keys == set p | p in Ids(players)
    ensures forall p :: p in s.playerScores ==> s.playerScores[p] == 0 && s.playerStockpiles[p] == []
    ensures s.phase == Asking && s.currentAsk == None
  {
    GameState(MarkCurrent(players, 0), 0, false, None, None, map[],
              ZeroScores(Ids(players)), EmptyStockpiles(Ids(players)), [], [], Asking, None)
  }

  /** With at least one player and distinct ids the initial state is well-formed. */
  lemma InitialWellFormed(players: seq<Player>)
    requires |players| > 0 && NoDup(Ids(players))
    ensures WellFormed(CreateInitialState(players))
  {
    var s := CreateInitialState(players);
    assert Ids(s.players) == Ids(players);
  }
}
