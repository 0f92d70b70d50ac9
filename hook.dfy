/** The transitions `useFishingGame` drives: starting a game, the three outcomes of an
    ask, per-suit guess resolution, game-over detection and toggling a guessed suit.
    Each handler copies the latest state and changes it field by field; here each is a
    method doing the same on a local state value, specified by a function of its inputs. */
module Hook {
  import opened Common
  import opened Cards
  import opened Deck
  import opened Hands
  import opened State
  import opened Protocol

  // ---------------------------------------------------------------------------
  // Game over

  /** The `gameOver` and `winner` fields `checkGameOver` writes into a state. */
  ghost function Finish(s: GameState): GameState {
    var over := AreAllHandsEmpty(s.playerHands);
    s.(gameOver := over, winner := if over then Winner(s.playerScores) else None)
  }

  /** `checkGameOver`: over exactly when no hand holds a card; then the unique top scorer
      wins, and nobody wins on a tie, with no scores, or while the game goes on. */
  method CheckGameOver(state: GameState) returns (gameOver: bool, winner: Option<PlayerId>)
    ensures gameOver <==> AreAllHandsEmpty(state.playerHands)
    ensures gameOver <==> TotalCards(state.playerHands) == 0
    ensures !gameOver ==> winner == None
    ensures gameOver ==> winner == Winner(state.playerScores)
  {
    TotalCardsZero(state.playerHands);
    gameOver := AreAllHandsEmpty(state.playerHands);
    winner := None;
    if gameOver {
      winner := GetWinner(state.playerScores);
    }
  }

  // ---------------------------------------------------------------------------
  // Turn rotation

  /** `(currentPlayerIndex + 1) % players.length` with JavaScript's remainder, which takes the
      sign of the dividend; with no players the result is `NaN`, written here as -1 (no seat). */
  function NextIndex(idx: int, n: nat): (r: int)
    ensures n == 0 ==> r == -1
    ensures n > 0 && -1 <= idx < n - 1 ==> r == idx + 1
    ensures n > 0 && idx == n - 1 ==> r == 0
    ensures n > 0 && idx >= -1 ==> 0 <= r < n
    ensures n > 0 && idx < -1 ==> -(n as int) < r <= 0
  {
    if n == 0 then -1
    else if idx + 1 >= 0 then (idx + 1) % n
    else -((-(idx + 1)) % n)
  }

  /** `k` rotations in a row. */
  function Rotations(idx: int, n: nat, k: nat): int
    decreases k
  {
    if k == 0 then idx else NextIndex(Rotations(idx, n, k - 1), n)
  }

  /** From a seat, up to `n` rotations count forward and wrap past the last seat once. */
  lemma {:induction false} RotationCycles(idx: int, n: nat, k: nat)
    requires n > 0 && 0 <= idx < n && k <= n
    ensures Rotations(idx, n, k) == if idx + k < n then idx + k else idx + k - n
    decreases k
  {
    if k > 0 {
      RotationCycles(idx, n, k - 1);
    }
  }

  /** Every seat takes a turn: from seat `idx`, seat `j` is reached after fewer rotations than
      there are seats, and `n` rotations come back to `idx`. */
  lemma EverySeatTakesATurn(idx: int, n: nat, j: int)
    requires n > 0 && 0 <= idx < n && 0 <= j < n
    ensures exists k: nat :: k < n && Rotations(idx, n, k) == j
    ensures Rotations(idx, n, n) == idx
  {
    var k: nat := if j >= idx then j - idx else j + n - idx;
    RotationCycles(idx, n, k);
    RotationCycles(idx, n, n);
  }

  /** The turn passes on and only the new seat is flagged. */
  function Rotated(s: GameState): GameState {
    var next := NextIndex(s.currentPlayerIndex, |s.players|);
    s.(currentPlayerIndex := next, players := MarkCurrent(s.players, next))
  }

  /** `newState.deck.pop()` appended to `playerId`'s hand, when the deck has a card. */
  function PopToAsker(s: GameState, asker: PlayerId): GameState {
    if |s.deck| == 0 then s
    else
      var drawn := s.deck[|s.deck| - 1];
      s.(deck := s.deck[..|s.deck| - 1], playerHands := s.playerHands[asker := HandOf(s.playerHands, asker) + [drawn]])
  }

  /** `checkAndHandleCompletedSets` applied to the state's three records. */
  function Extracted(s: GameState): GameState {
    var b := ExtractSets(Books(s.playerHands, s.playerScores, s.playerStockpiles));
    s.(playerHands := b.hands, playerScores := b.scores, playerStockpiles := b.stockpiles)
  }

  /** Extraction changes only the three records. */
  lemma ExtractedKeeps(s: GameState)
    ensures var e := Extracted(s);
      e == s.(playerHands := e.playerHands, playerScores := e.playerScores, playerStockpiles := e.playerStockpiles)
  {
  }

  method ExtractState(s: GameState) returns (r: GameState)
    ensures r == Extracted(s)
  {
    var hands, scores, stockpiles := CheckAndHandleCompletedSets(s.playerHands, s.playerScores, s.playerStockpiles);
    r := s.(playerHands := hands, playerScores := scores, playerStockpiles := stockpiles);
  }

  // ---------------------------------------------------------------------------
  // Starting a game

  /** `handleStartGame`: shuffle a fresh deck with the supplied swap choices, deal five cards
      to each player in seating order, extract completed sets from zero scores and empty
      stockpiles, and let seat `start` (the supplied random pick) open the first ask. */
  method HandleStartGame(allPlayers: seq<Player>, js: seq<nat>, start: nat) returns (state: GameState)
    requires ValidSwaps(52, js)
    requires start < |allPlayers| || (start == 0 && allPlayers == [])
    ensures state.players == MarkCurrent(allPlayers, start) && state.currentPlayerIndex == start
    ensures !state.gameOver && state.winner == None && state.lastMove == None
    ensures state.discardedCards == [] && state.phase == Asking && state.currentAsk == None
    ensures var d := DealFrom(map[], Shuffled(FullDeck(), js), Ids(allPlayers), 5);
      && state.deck == d.rest
      && Books(state.playerHands, state.playerScores, state.playerStockpiles)
           == ExtractSets(Books(d.hands, ZeroScores(Ids(allPlayers)), EmptyStockpiles(Ids(allPlayers))))
  {
    var deck := CreateDeck();
    deck := ShuffleDeck(deck, js);
    var playerObjs := MarkCurrent(allPlayers, -1);
    assert Ids(playerObjs) == Ids(allPlayers);
    var hands, rest := DealCards(deck, playerObjs, 5);
    var ids := Ids(allPlayers);
    var playerHands, playerScores, playerStockpiles := CheckAndHandleCompletedSets(hands, ZeroScores(ids), EmptyStockpiles(ids));
    state := GameState(MarkCurrent(allPlayers, start), start, false, None, None,
                       playerHands, playerScores, playerStockpiles, rest, [], Asking, None);
  }

  /** With at most ten players and distinct ids, every player is dealt five cards of the
      shuffled deck, the hands in seating order followed by the remaining deck are that
      deck, and it holds every card exactly once. */
  lemma StartGameDeal(allPlayers: seq<Player>, js: seq<nat>)
    requires ValidSwaps(52, js)
    requires |allPlayers| <= 10 && NoDup(Ids(allPlayers))
    ensures var shuffled := Shuffled(FullDeck(), js);
      var d := DealFrom(map[], shuffled, Ids(allPlayers), 5);
      && (forall c: Card :: multiset(shuffled)[c] == 1)
      && d.hands.Keys == set p | p in Ids(allPlayers)
      && (forall p :: p in d.hands ==> |d.hands[p]| == 5)
      && HandsInOrder(d.hands, Ids(allPlayers)) + d.rest == shuffled
  {
    var shuffled := Shuffled(FullDeck(), js);
    EveryCardOnce(FullDeck());
    assert |shuffled| == 52;
    DealResult(shuffled, Ids(allPlayers), 5);
  }

  /** The deal and the two fresh records cover the same players: everyone dealt a hand
      starts with a zero score and an empty stockpile, and nobody else has an entry. */
  lemma StartRecordsAgree(allPlayers: seq<Player>, deck: seq<Card>, n: nat)
    ensures var ids := Ids(allPlayers);
      var d := DealFrom(map[], deck, ids, n);
      && ZeroScores(ids).Keys == d.hands.Keys && EmptyStockpiles(ids).Keys == d.hands.Keys
      && (forall p :: p in d.hands ==> ZeroScores(ids)[p] == 0 && EmptyStockpiles(ids)[p] == [])
  {
    DealKeys(map[], deck, Ids(allPlayers), n);
  }

  /** A game started with players of distinct ids is well-formed. */
  lemma StartGameWellFormed(state: GameState, allPlayers: seq<Player>, start: nat)
    requires start < |allPlayers| && NoDup(Ids(allPlayers))
    requires state.players == MarkCurrent(allPlayers, start) && state.currentPlayerIndex == start
    requires state.phase == Asking && state.currentAsk == None
    ensures WellFormed(state)
  {
    assert Ids(state.players) == Ids(allPlayers);
  }

  // ---------------------------------------------------------------------------
  // Asking for cards

  /** The early return guarding against a second ask: a guess dialog is open, an ask is
      pending, or an ask is being processed. */
  predicate AskBlocked(showGuessPopup: bool, hasPendingAsk: bool, isProcessingAsk: bool) {
    showGuessPopup || hasPendingAsk || isProcessingAsk
  }

  /** The hook's local `currentAsk`, without the target's name. */
  datatype PendingAsk = PendingAsk(targetPlayerId: PlayerId, requestedRank: Rank, shownCards: seq<Card>)

  /** What an ask does: nothing, a new state pushed to the room, or a guess dialog opened. */
  datatype AskOutcome = Ignored | Published(state: GameState) | GuessOpened(pending: PendingAsk)

  /** `card => !(card.rank === rank && card.suit === suit)` */
  function NotCard(rank: Rank, suit: Suit): Card -> bool {
    (c: Card) => !(c.rank == rank && c.suit == suit)
  }

  /** No match: draw the deck's last card and extract sets (only when the deck has a card),
      record the move, and pass the turn on whether or not a set was completed. */
  ghost function NoMatchState(state: GameState, asker: PlayerId, target: PlayerId, rank: Rank): GameState {
    var drawn := if |state.deck| > 0 then Extracted(PopToAsker(state, asker)) else state;
    Finish(Rotated(drawn.(lastMove := Some(Move(asker, target, rank, [], None, None, [])))))
  }

  /** The hands after the automatic transfer, before extraction: the asker gains the
      target's one card and the target's hand (as read before the transfer) loses it. */
  function AutoHands(hands: map<PlayerId, seq<Card>>, asker: PlayerId, target: PlayerId, rank: Rank, matching: seq<Card>): map<PlayerId, seq<Card>>
    requires |matching| == 1
  {
    var targetHand := HandOf(hands, target);
    hands[asker := HandOf(hands, asker) + matching][target := Filter(targetHand, NotCard(rank, matching[0].suit))]
  }

  /** Three in hand and one at the target: take it, extract sets, keep the turn. */
  ghost function AutoState(state: GameState, asker: PlayerId, target: PlayerId, rank: Rank, matching: seq<Card>): GameState
    requires |matching| == 1
  {
    var moved := Extracted(state.(playerHands := AutoHands(state.playerHands, asker, target, rank, matching)));
    Finish(moved.(lastMove := Some(Move(asker, target, rank, matching, None, Some(true), matching))))
  }

  /** What `handleAskForCards` does with the selections, the latest state, the local
      player's id (`""` when there is none) and the three guard flags. */
  ghost function AskOutcomeOf(selectedRank: Option<Rank>, selectedPlayer: PlayerId, latestState: Option<GameState>, playerId: PlayerId,
                              showGuessPopup: bool, hasPendingAsk: bool, isProcessingAsk: bool): AskOutcome
  {
    if selectedRank.None? || selectedPlayer == "" || latestState.None? || playerId == "" then Ignored
    else if AskBlocked(showGuessPopup, hasPendingAsk, isProcessingAsk) then Ignored
    else
      var state, rank := latestState.value, selectedRank.value;
      var matching := CardsOfRank(HandOf(state.playerHands, selectedPlayer), rank);
      if |matching| == 0 then Published(NoMatchState(state, playerId, selectedPlayer, rank))
      else if Count(HandOf(state.playerHands, playerId), rank) == 3 && |matching| == 1 then
        Published(AutoState(state, playerId, selectedPlayer, rank, matching))
      else GuessOpened(PendingAsk(selectedPlayer, rank, matching))
  }

  /** `handleAskForCards` */
  method HandleAskForCards(selectedRank: Option<Rank>, selectedPlayer: PlayerId, latestState: Option<GameState>, playerId: PlayerId,
                           showGuessPopup: bool, hasPendingAsk: bool, isProcessingAsk: bool) returns (r: AskOutcome)
    ensures r == AskOutcomeOf(selectedRank, selectedPlayer, latestState, playerId, showGuessPopup, hasPendingAsk, isProcessingAsk)
  {
    if selectedRank.None? || selectedPlayer == "" || latestState.None? || playerId == "" {
      return Ignored;
    }
    if showGuessPopup || hasPendingAsk || isProcessingAsk {
      return Ignored;
    }
    var state, rank := latestState.value, selectedRank.value;
    var targetHand := HandOf(state.playerHands, selectedPlayer);
    var matchingCards := CardsOfRank(targetHand, rank);
    if |matchingCards| == 0 {
      var newState := state;
      if |newState.deck| > 0 {
        newState := PopToAsker(newState, playerId);
        newState := ExtractState(newState);
      }
      newState := newState.(lastMove := Some(Move(playerId, selectedPlayer, rank, [], None, None, [])));
      newState := newState.(currentPlayerIndex := NextIndex(newState.currentPlayerIndex, |newState.players|));
      newState := newState.(players := MarkCurrent(newState.players, newState.currentPlayerIndex));
      var gameOver, winner := CheckGameOver(newState);
      newState := newState.(gameOver := gameOver, winner := winner);
      return Published(newState);
    }
    var askingPlayerCardsOfRank := CardsOfRank(HandOf(state.playerHands, playerId), rank);
    if |askingPlayerCardsOfRank| == 3 && |matchingCards| == 1 {
      var newState := state;
      newState := newState.(playerHands := newState.playerHands[playerId := HandOf(newState.playerHands, playerId) + matchingCards]);
      newState := newState.(playerHands := newState.playerHands[selectedPlayer := Filter(targetHand, NotCard(rank, matchingCards[0].suit))]);
      newState := ExtractState(newState);
      newState := newState.(lastMove := Some(Move(playerId, selectedPlayer, rank, matchingCards, None, Some(true), matchingCards)));
      var gameOver, winner := CheckGameOver(newState);
      newState := newState.(gameOver := gameOver, winner := winner);
      return Published(newState);
    }
    return GuessOpened(PendingAsk(selectedPlayer, rank, matchingCards));
  }

  /** The ask is ignored exactly when a selection, the state or the local player is missing,
      or another ask is under way. */
  lemma AskIgnoredIff(selectedRank: Option<Rank>, selectedPlayer: PlayerId, latestState: Option<GameState>, playerId: PlayerId,
                      showGuessPopup: bool, hasPendingAsk: bool, isProcessingAsk: bool)
    ensures AskOutcomeOf(selectedRank, selectedPlayer, latestState, playerId, showGuessPopup, hasPendingAsk, isProcessingAsk).Ignored?
      <==> selectedRank.None? || selectedPlayer == "" || latestState.None? || playerId == ""
           || showGuessPopup || hasPendingAsk || isProcessingAsk
  {
  }

  /** No match, deck side: a non-empty deck loses exactly its last card, which joins the
      asker's hand before extraction; with an empty deck no card moves anywhere. */
  lemma NoMatchDeck(state: GameState, asker: PlayerId, target: PlayerId, rank: Rank)
    ensures var r := NoMatchState(state, asker, target, rank);
      && (|state.deck| > 0 ==>
            && r.deck == state.deck[..|state.deck| - 1]
            && state.deck == r.deck + [state.deck[|state.deck| - 1]]
            && Books(r.playerHands, r.playerScores, r.playerStockpiles)
                 == ExtractSets(Books(state.playerHands[asker := HandOf(state.playerHands, asker) + [state.deck[|state.deck| - 1]]],
                                      state.playerScores, state.playerStockpiles)))
      && (|state.deck| == 0 ==>
            r.deck == [] && r.playerHands == state.playerHands && r.playerScores == state.playerScores
            && r.playerStockpiles == state.playerStockpiles)
      && r.discardedCards == state.discardedCards
  {
  }

  /** No match, turn side: the turn passes to the next seat, only that seat is flagged, and
      the move records no cards and no guess. */
  lemma NoMatchTurn(state: GameState, asker: PlayerId, target: PlayerId, rank: Rank)
    ensures var r := NoMatchState(state, asker, target, rank);
      && r.currentPlayerIndex == NextIndex(state.currentPlayerIndex, |state.players|)
      && SameSeats(r.players, state.players) && OnlyCurrent(r.players, r.currentPlayerIndex)
      && (0 <= state.currentPlayerIndex < |state.players| ==> 0 <= r.currentPlayerIndex < |state.players|)
      && r.lastMove == Some(Move(asker, target, rank, [], None, None, []))
      && r.phase == state.phase && r.currentAsk == state.currentAsk
      && (r.gameOver <==> AreAllHandsEmpty(r.playerHands))
  {
  }

  /** The one matching card is the only card the automatic transfer takes from the target:
      with the target's hand free of repeated cards, the target keeps everything else. */
  lemma AutoTakesOneCard(hand: seq<Card>, rank: Rank, matching: seq<Card>)
    requires matching == CardsOfRank(hand, rank) && |matching| == 1
    ensures matching[0] in hand && matching[0].rank == rank
    ensures forall c: Card :: multiset(Filter(hand, NotCard(rank, matching[0].suit)))[c]
                              == if c == matching[0] then 0 else multiset(hand)[c]
  {
    CardsOfRankMembers(hand, rank);
    assert matching[0] in matching;
    FilterMultiset(hand, NotCard(rank, matching[0].suit));
  }

  /** The hands the automatic transfer leaves: the asker's hand gains the matching card,
      the target's hand loses it, and nobody else's hand changes. */
  lemma AutoHandsShape(hands: map<PlayerId, seq<Card>>, asker: PlayerId, target: PlayerId, rank: Rank, matching: seq<Card>)
    requires |matching| == 1 && target != asker
    ensures var moved := AutoHands(hands, asker, target, rank, matching);
      && moved.Keys == hands.Keys + {asker, target}
      && moved[asker] == HandOf(hands, asker) + matching
      && moved[target] == Filter(HandOf(hands, target), NotCard(rank, matching[0].suit))
      && (forall q :: q in hands && q != asker && q != target ==> moved[q] == hands[q])
  {
  }

  /** Three cards of a rank and the one the target holds make four. */
  lemma AutoMakesFour(hand: seq<Card>, targetHand: seq<Card>, rank: Rank)
    requires Count(hand, rank) == 3 && |CardsOfRank(targetHand, rank)| == 1
    ensures Count(hand + CardsOfRank(targetHand, rank), rank) == 4
    ensures rank in CompletedRanks(hand + CardsOfRank(targetHand, rank))
  {
    var matching := CardsOfRank(targetHand, rank);
    FilterAppend(hand, matching, RankIs(rank));
    CardsOfRankMembers(targetHand, rank);
    FilterKeepsAll(matching, RankIs(rank));
    CompletedRanksSpec(hand + matching);
  }

  /** The automatic transfer only happens between two different players, and it completes
      the requested rank in the asker's hand, so the extraction that follows scores at least
      one point for the asker. The move counts as a correct guess of the card
      taken, and the turn, the seats and the deck stay as they were. */
  lemma AutoCompletes(state: GameState, asker: PlayerId, target: PlayerId, rank: Rank)
    requires |CardsOfRank(HandOf(state.playerHands, target), rank)| == 1
    requires Count(HandOf(state.playerHands, asker), rank) == 3
    ensures target != asker
    ensures var matching := CardsOfRank(HandOf(state.playerHands, target), rank);
      var moved := AutoHands(state.playerHands, asker, target, rank, matching);
      var r := AutoState(state, asker, target, rank, matching);
      && Count(moved[asker], rank) == 4
      && rank in CompletedRanks(moved[asker])
      && ScoreOf(r.playerScores, asker) >= ScoreOf(state.playerScores, asker) + 1
      && r.currentPlayerIndex == state.currentPlayerIndex && r.players == state.players
      && r.deck == state.deck
      && r.lastMove == Some(Move(asker, target, rank, matching, None, Some(true), matching))
  {
    var matching := CardsOfRank(HandOf(state.playerHands, target), rank);
    var moved := AutoHands(state.playerHands, asker, target, rank, matching);
    AutoHandsShape(state.playerHands, asker, target, rank, matching);
    AutoMakesFour(HandOf(state.playerHands, asker), HandOf(state.playerHands, target), rank);
    var b := Books(moved, state.playerScores, state.playerStockpiles);
    assert ScoreOf(ExtractSets(b).scores, asker) >= ScoreOf(state.playerScores, asker) + 1 by {
      ExtractSetsPlayer(b, asker);
      assert rank in CompletedRanks(moved[asker]);
    }
  }

  /** Opening a guess shows the target's cards of the requested rank, and there is at least one. */
  lemma GuessOpenedShows(selectedRank: Option<Rank>, selectedPlayer: PlayerId, latestState: Option<GameState>, playerId: PlayerId)
    requires AskOutcomeOf(selectedRank, selectedPlayer, latestState, playerId, false, false, false).GuessOpened?
    ensures var p := AskOutcomeOf(selectedRank, selectedPlayer, latestState, playerId, false, false, false).pending;
      && p.targetPlayerId == selectedPlayer && p.requestedRank == selectedRank.value
      && p.shownCards != []
      && (forall c :: c in p.shownCards <==> c in HandOf(latestState.value.playerHands, selectedPlayer) && c.rank == selectedRank.value)
  {
    CardsOfRankMembers(HandOf(latestState.value.playerHands, selectedPlayer), selectedRank.value);
  }

  /** A published ask keeps a well-formed state well-formed. */
  lemma AskKeepsWellFormedHook(selectedRank: Option<Rank>, selectedPlayer: PlayerId, state: GameState, playerId: PlayerId)
    requires WellFormed(state)
    requires AskOutcomeOf(selectedRank, selectedPlayer, Some(state), playerId, false, false, false).Published?
    ensures WellFormed(AskOutcomeOf(selectedRank, selectedPlayer, Some(state), playerId, false, false, false).state)
  {
    var r := AskOutcomeOf(selectedRank, selectedPlayer, Some(state), playerId, false, false, false).state;
    var matching := CardsOfRank(HandOf(state.playerHands, selectedPlayer), selectedRank.value);
    if |matching| == 0 {
      NoMatchTurn(state, playerId, selectedPlayer, selectedRank.value);
      assert Ids(r.players) == Ids(state.players);
    }
  }

  // ---------------------------------------------------------------------------
  // Resolving a guess

  /** What a guess does: nothing, a new state pushed to the room, or a `TypeError` thrown
      while filtering a target hand that the record does not hold. */
  datatype GuessOutcome = NoGuess | GuessPublished(state: GameState) | Threw

  /** `correctGuesses`: the guessed suits some shown card has, in guessing order. */
  function CorrectGuesses(guessedSuits: seq<Suit>, shown: seq<Card>): seq<Suit> {
    Filter(guessedSuits, (g: Suit) => g in SuitsOf(shown))
  }

  /** `correctlyGuessedCards`: the shown cards whose suit is a correct guess, in shown order. */
  function CorrectCards(guessedSuits: seq<Suit>, shown: seq<Card>): seq<Card> {
    var correct := CorrectGuesses(guessedSuits, shown);
    Filter(shown, (c: Card) => c.suit in correct)
  }

  /** The cards exchanged are exactly the shown cards whose suit was guessed. */
  lemma CorrectCardsExactly(guessedSuits: seq<Suit>, shown: seq<Card>)
    ensures CorrectCards(guessedSuits, shown) == Filter(shown, (c: Card) => c.suit in guessedSuits)
    ensures forall c :: c in CorrectCards(guessedSuits, shown) <==> c in shown && c.suit in guessedSuits
  {
    var correct := CorrectGuesses(guessedSuits, shown);
    FilterMembers(guessedSuits, (g: Suit) => g in SuitsOf(shown));
    forall c | c in shown ensures (c.suit in correct) == (c.suit in guessedSuits) {
      var i :| 0 <= i < |shown| && shown[i] == c;
      assert SuitsOf(shown)[i] == c.suit;
    }
    FilterAgree(shown, (c: Card) => c.suit in correct, (c: Card) => c.suit in guessedSuits);
    FilterMembers(shown, (c: Card) => c.suit in guessedSuits);
  }

  /** The transfer of the correct cards: the asker gains them, then the target's entry (read
      after that update, with no `|| []` default) loses every copy of them; `None` when the
      entry is missing and the filter throws. */
  function GuessTransfer(hands: map<PlayerId, seq<Card>>, asker: PlayerId, target: PlayerId, correct: seq<Card>): Option<map<PlayerId, seq<Card>>> {
    if correct == [] then Some(hands)
    else
      var gained := hands[asker := HandOf(hands, asker) + correct];
      if target !in gained then None
      else Some(gained[target := Filter(gained[target], NotIn(correct))])
  }

  /** The state `handleGuessSuits` ends with once the transfer succeeded: the consolation draw
      and the rotation only when no card was won, extraction always, then game over and the move. */
  ghost function GuessState(state: GameState, pending: PendingAsk, asker: PlayerId, guessedSuits: seq<Suit>, hands: map<PlayerId, seq<Card>>): GameState {
    var correct := CorrectCards(guessedSuits, pending.shownCards);
    var s1 := state.(playerHands := hands);
    var s2 := if |correct| == 0 then PopToAsker(s1, asker) else s1;
    var s3 := Extracted(s2);
    var s4 := if |correct| == 0 then Rotated(s3) else s3;
    Finish(s4).(lastMove := Some(Move(asker, pending.targetPlayerId, pending.requestedRank, pending.shownCards,
                                      Some(guessedSuits), Some(|correct| > 0), correct)))
  }

  /** What `handleGuessSuits` does with the pending ask, the latest state, the local player's
      id and the guessed suits. */
  ghost function GuessOutcomeOf(pending: Option<PendingAsk>, latestState: Option<GameState>, playerId: PlayerId, guessedSuits: seq<Suit>): GuessOutcome {
    if pending.None? || latestState.None? || playerId == "" then NoGuess
    else
      var state, ask := latestState.value, pending.value;
      var correct := CorrectCards(guessedSuits, ask.shownCards);
      match GuessTransfer(state.playerHands, playerId, ask.targetPlayerId, correct)
      case None => Threw
      case Some(hands) => GuessPublished(GuessState(state, ask, playerId, guessedSuits, hands))
  }

  /** `handleGuessSuits` */
  method HandleGuessSuits(pending: Option<PendingAsk>, latestState: Option<GameState>, playerId: PlayerId, guessedSuits: seq<Suit>) returns (r: GuessOutcome)
    ensures r == GuessOutcomeOf(pending, latestState, playerId, guessedSuits)
  {
    if pending.None? || latestState.None? || playerId == "" {
      return NoGuess;
    }
    var currentAsk := pending.value;
    var newState := latestState.value;
    var correctGuesses := Filter(guessedSuits, (g: Suit) => g in SuitsOf(currentAsk.shownCards));
    var correctlyGuessedCards := Filter(currentAsk.shownCards, (c: Card) => c.suit in correctGuesses);
    assert correctlyGuessedCards == CorrectCards(guessedSuits, currentAsk.shownCards);
    var guessedAnyCorrectly := |correctlyGuessedCards| > 0;
    if |correctlyGuessedCards| > 0 {
      newState := newState.(playerHands := newState.playerHands[playerId := HandOf(newState.playerHands, playerId) + correctlyGuessedCards]);
      if currentAsk.targetPlayerId !in newState.playerHands {
        return Threw;
      }
      var remaining := Filter(newState.playerHands[currentAsk.targetPlayerId], NotIn(correctlyGuessedCards));
      newState := newState.(playerHands := newState.playerHands[currentAsk.targetPlayerId := remaining]);
    }
    ghost var transferred := newState.playerHands;
    assert GuessTransfer(latestState.value.playerHands, playerId, currentAsk.targetPlayerId, correctlyGuessedCards) == Some(transferred);
    if |newState.deck| > 0 && !guessedAnyCorrectly {
      newState := PopToAsker(newState, playerId);
    }
    newState := ExtractState(newState);
    if !guessedAnyCorrectly {
      newState := newState.(currentPlayerIndex := NextIndex(newState.currentPlayerIndex, |newState.players|));
      newState := newState.(players := MarkCurrent(newState.players, newState.currentPlayerIndex));
    }
    var gameOver, winner := CheckGameOver(newState);
    newState := newState.(gameOver := gameOver, winner := winner);
    newState := newState.(lastMove := Some(Move(playerId, currentAsk.targetPlayerId, currentAsk.requestedRank, currentAsk.shownCards,
                                                Some(guessedSuits), Some(guessedAnyCorrectly), correctlyGuessedCards)));
    r := GuessPublished(newState);
  }

  /** The guess is dropped exactly when the pending ask, the state or the local player is
      missing; it throws exactly when a card was won and the target has no hand entry. */
  lemma GuessOutcomeCases(pending: Option<PendingAsk>, latestState: Option<GameState>, playerId: PlayerId, guessedSuits: seq<Suit>)
    ensures GuessOutcomeOf(pending, latestState, playerId, guessedSuits).NoGuess?
      <==> pending.None? || latestState.None? || playerId == ""
    ensures GuessOutcomeOf(pending, latestState, playerId, guessedSuits).Threw?
      <==> && pending.Some? && latestState.Some? && playerId != ""
           && CorrectCards(guessedSuits, pending.value.shownCards) != []
           && pending.value.targetPlayerId != playerId
           && pending.value.targetPlayerId !in latestState.value.playerHands
  {
  }

  /** Between two different players the transfer moves exactly the won cards: the asker's
      hand gets them appended, the target's hand loses every copy of them, and every other
      hand is kept. */
  lemma GuessTransferMoves(hands: map<PlayerId, seq<Card>>, asker: PlayerId, target: PlayerId, correct: seq<Card>)
    requires target != asker && target in hands && correct != []
    ensures GuessTransfer(hands, asker, target, correct).Some?
    ensures var h := GuessTransfer(hands, asker, target, correct).value;
      && h.Keys == hands.Keys + {asker}
      && h[asker] == HandOf(hands, asker) + correct
      && h[target] == Filter(hands[target], NotIn(correct))
      && (forall q :: q in hands && q != asker && q != target ==> h[q] == hands[q])
  {
  }

  /** When the target's hand repeats no card and holds every won card, it loses each once and
      nothing else, so the two hands together hold the same cards as before. */
  lemma GuessTransferConserves(asking: seq<Card>, targetHand: seq<Card>, correct: seq<Card>)
    requires NoDup(targetHand) && NoDup(correct) && forall c :: c in correct ==> c in targetHand
    ensures multiset(Filter(targetHand, NotIn(correct))) == multiset(targetHand) - multiset(correct)
    ensures multiset(asking + correct) + multiset(Filter(targetHand, NotIn(correct))) == multiset(asking) + multiset(targetHand)
  {
    var left := Filter(targetHand, NotIn(correct));
    FilterMultiset(targetHand, NotIn(correct));
    NoDupMultiset(targetHand);
    NoDupMultiset(correct);
    assert multiset(left) == multiset(targetHand) - multiset(correct) by {
      forall c: Card ensures multiset(left)[c] == (multiset(targetHand) - multiset(correct))[c] {
      }
    }
    assert multiset(correct) <= multiset(targetHand);
  }

  /** A guess at one's own hand loses the won cards: they are appended and then filtered out
      again with every other copy, so before extraction the asker holds none of them. */
  lemma GuessSelfTargetDropsCards(hands: map<PlayerId, seq<Card>>, asker: PlayerId, correct: seq<Card>)
    requires correct != []
    ensures GuessTransfer(hands, asker, asker, correct).Some?
    ensures var h := GuessTransfer(hands, asker, asker, correct).value;
      forall c :: c in correct ==> c !in h[asker]
  {
    var h := GuessTransfer(hands, asker, asker, correct).value;
    FilterMembers(HandOf(hands, asker) + correct, NotIn(correct));
  }

  /** The outcome of a resolved guess: the consolation draw from the end of the deck and the
      rotation happen exactly when no card was won; otherwise deck, seats and turn stay. The
      move records whether any card was won and which. */
  lemma GuessOutcomeTurn(state: GameState, pending: PendingAsk, asker: PlayerId, guessedSuits: seq<Suit>, hands: map<PlayerId, seq<Card>>)
    ensures var correct := CorrectCards(guessedSuits, pending.shownCards);
      var r := GuessState(state, pending, asker, guessedSuits, hands);
      && r.deck == (if |correct| == 0 && |state.deck| > 0 then state.deck[..|state.deck| - 1] else state.deck)
      && r.currentPlayerIndex == (if |correct| == 0 then NextIndex(state.currentPlayerIndex, |state.players|) else state.currentPlayerIndex)
      && r.players == (if |correct| == 0 then MarkCurrent(state.players, r.currentPlayerIndex) else state.players)
      && r.lastMove.Some? && r.lastMove.value.guessCorrect == Some(correct != [])
      && r.lastMove.value.cardsExchanged == correct
      && r.phase == state.phase && r.discardedCards == state.discardedCards
      && (r.gameOver <==> AreAllHandsEmpty(r.playerHands))
      && (r.gameOver ==> r.winner == Winner(r.playerScores))
  {
  }

  /** When no card was won and the deck has a card, its last card joins the asker's hand
      before extraction; otherwise extraction runs on the transferred hands. */
  lemma GuessConsolation(state: GameState, pending: PendingAsk, asker: PlayerId, guessedSuits: seq<Suit>, hands: map<PlayerId, seq<Card>>)
    ensures var correct := CorrectCards(guessedSuits, pending.shownCards);
      var r := GuessState(state, pending, asker, guessedSuits, hands);
      var drawn := |correct| == 0 && |state.deck| > 0;
      var before := if drawn then hands[asker := HandOf(hands, asker) + [state.deck[|state.deck| - 1]]] else hands;
      Books(r.playerHands, r.playerScores, r.playerStockpiles) == ExtractSets(Books(before, state.playerScores, state.playerStockpiles))
  {
    var correct := CorrectCards(guessedSuits, pending.shownCards);
    var s1 := state.(playerHands := hands);
    var s2 := if |correct| == 0 then PopToAsker(s1, asker) else s1;
    var e := Extracted(s2);
    assert s2.playerScores == state.playerScores && s2.playerStockpiles == state.playerStockpiles;
    var s4 := if |correct| == 0 then Rotated(e) else e;
    assert Finish(s4).playerHands == e.playerHands && Finish(s4).playerScores == e.playerScores
      && Finish(s4).playerStockpiles == e.playerStockpiles;
  }

  /** A published guess keeps a well-formed state well-formed. */
  lemma GuessKeepsWellFormedHook(state: GameState, pending: PendingAsk, asker: PlayerId, guessedSuits: seq<Suit>, hands: map<PlayerId, seq<Card>>)
    requires WellFormed(state)
    ensures WellFormed(GuessState(state, pending, asker, guessedSuits, hands))
  {
    var r := GuessState(state, pending, asker, guessedSuits, hands);
    GuessOutcomeTurn(state, pending, asker, guessedSuits, hands);
    assert Ids(r.players) == Ids(state.players);
  }

  // ---------------------------------------------------------------------------
  // Toggling a guessed suit

  /** `handleSuitToggle`: drop every occurrence of a guessed suit, or append one not guessed. */
  function HandleSuitToggle(prev: seq<Suit>, suit: Suit): (r: seq<Suit>)
    ensures suit in r <==> suit !in prev
    ensures forall s :: s != suit ==> multiset(r)[s] == multiset(prev)[s]
    ensures suit in prev ==> multiset(r)[suit] == 0
    ensures suit !in prev ==> multiset(r)[suit] == 1
  {
    FilterMultiset(prev, (s: Suit) => s != suit);
    if suit in prev then Filter(prev, (s: Suit) => s != suit) else prev + [suit]
  }

  /** Toggling a suit that was not guessed twice gives back the same list. */
  lemma ToggleTwiceAbsent(prev: seq<Suit>, suit: Suit)
    requires suit !in prev
    ensures HandleSuitToggle(HandleSuitToggle(prev, suit), suit) == prev
  {
    FilterAppend(prev, [suit], (s: Suit) => s != suit);
    FilterKeepsAll(prev, (s: Suit) => s != suit);
  }

  /** On a duplicate-free list toggling twice gives back the same suits, each once. */
  lemma ToggleTwiceSameSuits(prev: seq<Suit>, suit: Suit)
    requires NoDup(prev)
    ensures multiset(HandleSuitToggle(HandleSuitToggle(prev, suit), suit)) == multiset(prev)
  {
    var r := HandleSuitToggle(HandleSuitToggle(prev, suit), suit);
    NoDupMultiset(prev);
    assert forall s: Suit :: multiset(r)[s] == multiset(prev)[s];
  }

  /** The order is not kept: a guessed suit toggled off and on again moves to the end. */
  lemma ToggleTwiceReorders()
    ensures HandleSuitToggle(HandleSuitToggle([Spades, Hearts], Spades), Spades) == [Hearts, Spades]
  {
    var once := HandleSuitToggle([Spades, Hearts], Spades);
    assert once == [Hearts] by {
      assert Filter([Hearts], (s: Suit) => s != Spades) == [Hearts];
      assert [Spades, Hearts][1..] == [Hearts];
    }
  }
}
