/** The reference turn protocol of the engine: `askForCard`, `showCards`, `makeGuess`
    and `getWinner`. */
module Protocol {
  import opened Common
  import opened Cards
  import opened Hands
  import opened State

  // ---------------------------------------------------------------------------
  // Winner

  /** `p` has a score and every other score is lower. */
  ghost predicate IsUniqueMax(scores: map<PlayerId, int>, p: PlayerId) {
    p in scores && forall q :: q in scores && q != p ==> scores[q] < scores[p]
  }

  /** At most one player can be the unique maximum. */
  lemma UniqueMaxUnique(scores: map<PlayerId, int>, p: PlayerId, q: PlayerId)
    requires IsUniqueMax(scores, p) && IsUniqueMax(scores, q)
    ensures p == q
  {
  }

  /** What `getWinner` promises: the player with the unique highest score, or `null`
      when the highest score is shared or there are no scores. */
  ghost function Winner(scores: map<PlayerId, int>): (w: Option<PlayerId>)
    ensures w.Some? ==> IsUniqueMax(scores, w.value)
    ensures w.None? ==> forall p :: !IsUniqueMax(scores, p)
  {
    if exists p :: IsUniqueMax(scores, p) then
      var p :| IsUniqueMax(scores, p);
      Some(p)
    else None
  }

  /** The maximum found so far is attained and bounds the scores already visited. */
  ghost predicate MaxSoFar(scores: map<PlayerId, int>, todo: set<PlayerId>, maxScore: int) {
    && todo <= scores.Keys
    && (exists q :: q in scores && scores[q] == maxScore)
    && forall q :: q in scores && q !in todo ==> scores[q] <= maxScore
  }

  /** `getWinner` (and the same code in the hook's `checkGameOver`): `Math.max` over the
      scores, then the entries holding it; a single such entry is the winner. A map has
      no order, so the entries are visited in a chosen order; the result does not depend on it. */
  method GetWinner(scores: map<PlayerId, int>) returns (w: Option<PlayerId>)
    ensures w == Winner(scores)
  {
    if |scores| == 0 {
      assert forall p :: !IsUniqueMax(scores, p);
      return None;
    }
    var first :| first in scores;
    var maxScore := scores[first];
    var todo := scores.Keys - {first};
    while todo != {}
      invariant MaxSoFar(scores, todo, maxScore)
      decreases todo
    {
      var p :| p in todo;
      if scores[p] > maxScore {
        maxScore := scores[p];
      }
      todo := todo - {p};
    }
    var winners: set<PlayerId> := {};
    todo := scores.Keys;
    while todo != {}
      invariant todo <= scores.Keys
      invariant forall q :: q in winners <==> q in scores && q !in todo && scores[q] == maxScore
      decreases todo
    {
      var p :| p in todo;
      if scores[p] == maxScore {
        winners := winners + {p};
      }
      todo := todo - {p};
    }
    if |winners| == 1 {
      var v :| v in winners;
      assert |winners - {v}| == 0;
      assert forall q :: q in scores && q != v ==> q !in winners - {v};
      assert IsUniqueMax(scores, v);
      UniqueMaxOfWinner(scores, v);
      w := Some(v);
    } else {
      NoUniqueMaxWhenShared(scores, winners, maxScore);
      w := None;
    }
  }

  lemma UniqueMaxOfWinner(scores: map<PlayerId, int>, v: PlayerId)
    requires IsUniqueMax(scores, v)
    ensures Winner(scores) == Some(v)
  {
    UniqueMaxUnique(scores, v, Winner(scores).value);
  }

  /** When the highest score is held by no single player, there is no winner. */
  lemma NoUniqueMaxWhenShared(scores: map<PlayerId, int>, winners: set<PlayerId>, maxScore: int)
    requires exists q :: q in scores && scores[q] == maxScore
    requires forall q :: q in scores ==> scores[q] <= maxScore
    requires forall q :: q in winners <==> q in scores && scores[q] == maxScore
    requires |winners| != 1
    ensures Winner(scores) == None
  {
    var a :| a in scores && scores[a] == maxScore;
    assert a in winners;
    assert |winners - {a}| == |winners| - 1 > 0;
    var b :| b in winners - {a};
    forall p | p in scores ensures exists q :: q in scores && q != p && scores[q] >= scores[p] {
      var other := if p == a then b else a;
      assert other in scores && other != p && scores[other] >= scores[p];
    }
  }

  // ---------------------------------------------------------------------------
  // Asking and showing

  /** `askForCard`: the asker is flagged current, the game moves to `'showing'` and an ask
      with no shown cards is pending; no other field changes. */
  function AskForCard(state: GameState, askingPlayerId: PlayerId, targetPlayerId: PlayerId, requestedRank: Rank): (r: GameState)
    ensures r.phase == Showing && r.currentAsk == Some(Ask(askingPlayerId, targetPlayerId, requestedRank, []))
    ensures SameSeats(r.players, state.players)
    ensures forall k :: 0 <= k < |r.players| ==> (r.players[k].isCurrentPlayer <==> state.players[k].id == askingPlayerId)
    ensures r == state.(players := r.players, phase := Showing, currentAsk := r.currentAsk)
  {
    state.(players := MarkById(state.players, askingPlayerId),
           phase := Showing,
           currentAsk := Some(Ask(askingPlayerId, targetPlayerId, requestedRank, [])))
  }

  /** `showCards`: refused unless an ask is pending for this target; otherwise the asker is
      flagged current (to guess), the shown cards are recorded and the game moves to
      `'guessing'`; no other field changes. */
  function ShowCards(state: GameState, targetPlayerId: PlayerId, shownCards: seq<Card>): (r: Result<GameState>)
    ensures r.Err? <==> state.currentAsk.None? || state.currentAsk.value.targetPlayerId != targetPlayerId
    ensures r.Ok? ==> && r.value.phase == Guessing
                      && r.value.currentAsk == Some(state.currentAsk.value.(shownCards := shownCards))
                      && SameSeats(r.value.players, state.players)
                      && (forall k :: 0 <= k < |r.value.players| ==>
                            (r.value.players[k].isCurrentPlayer <==> state.players[k].id == state.currentAsk.value.askingPlayerId))
                      && r.value == state.(players := r.value.players, phase := Guessing, currentAsk := r.value.currentAsk)
  {
    if state.currentAsk.None? || state.currentAsk.value.targetPlayerId != targetPlayerId then
      Err("Invalid show cards action")
    else
      var ask := state.currentAsk.value;
      Ok(state.(players := MarkById(state.players, ask.askingPlayerId),
                phase := Guessing,
                currentAsk := Some(ask.(shownCards := shownCards))))
  }

  /** Asking and then showing as the asked player records exactly that ask with the shown cards;
      showing as anybody else is refused. */
  lemma AskThenShow(state: GameState, asker: PlayerId, target: PlayerId, rank: Rank, shower: PlayerId, shown: seq<Card>)
    ensures ShowCards(AskForCard(state, asker, target, rank), shower, shown).Ok? <==> shower == target
    ensures shower == target ==>
      var r := ShowCards(AskForCard(state, asker, target, rank), shower, shown).value;
      r.phase == Guessing && r.currentAsk == Some(Ask(asker, target, rank, shown)) &&
      r.players == MarkById(state.players, asker)
  {
    var s1 := AskForCard(state, asker, target, rank);
    assert MarkById(s1.players, asker) == MarkById(state.players, asker);
  }

  /** An ask by the player whose turn it is keeps the state well-formed. */
  lemma AskKeepsWellFormed(state: GameState, asker: PlayerId, target: PlayerId, rank: Rank)
    requires WellFormed(state) && state.players[state.currentPlayerIndex].id == asker
    ensures WellFormed(AskForCard(state, asker, target, rank))
  {
    var r := AskForCard(state, asker, target, rank);
    MarkByIdIsMarkCurrent(state.players, asker);
    assert Ids(r.players) == Ids(state.players);
    forall k | 0 <= k < |state.players| && state.players[k].id == asker ensures k == state.currentPlayerIndex {
      assert Ids(state.players)[k] == Ids(state.players)[state.currentPlayerIndex];
    }
  }

  // ---------------------------------------------------------------------------
  // Guessing

  function SuitsOf(cards: seq<Card>): (suits: seq<Suit>)
    ensures |suits| == |cards| && forall i :: 0 <= i < |cards| ==> suits[i] == cards[i].suit
  {
    seq(|cards|, i requires 0 <= i < |cards| => cards[i].suit)
  }

  /** `guessCorrect`: as many suits as shown, each guessed suit shown, each shown suit guessed. */
  predicate GuessCorrect(guessedSuits: seq<Suit>, actualSuits: seq<Suit>) {
    && |guessedSuits| == |actualSuits|
    && (forall s :: s in guessedSuits ==> s in actualSuits)
    && (forall s :: s in actualSuits ==> s in guessedSuits)
  }

  /** Order does not matter: without repeated suits a guess is correct exactly when it names
      the set of shown suits. */
  lemma GuessCorrectIsSetEquality(guessedSuits: seq<Suit>, actualSuits: seq<Suit>)
    requires NoDup(guessedSuits) && NoDup(actualSuits)
    ensures GuessCorrect(guessedSuits, actualSuits) <==> (set s | s in guessedSuits) == (set s | s in actualSuits)
  {
    var g, a := set s | s in guessedSuits, set s | s in actualSuits;
    NoDupCard(guessedSuits);
    NoDupCard(actualSuits);
    if GuessCorrect(guessedSuits, actualSuits) {
      assert forall x :: x in g <==> x in a;
    }
    if g == a {
      assert forall x :: x in guessedSuits <==> x in g;
      assert forall x :: x in actualSuits <==> x in a;
    }
  }

  /** A duplicate-free sequence has as many elements as its set. */
  lemma {:induction false} NoDupCard<T>(s: seq<T>)
    requires NoDup(s)
    ensures |set x | x in s| == |s|
    decreases |s|
  {
    if s != [] {
      NoDupTail(s);
      NoDupCard(s[1..]);
      assert (set x | x in s) == {s[0]} + set x | x in s[1..];
    }
  }

  function NotIn(cards: seq<Card>): Card -> bool {
    (c: Card) => !(c in cards)
  }

  function RankNotIn(rs: seq<Rank>): Card -> bool {
    (c: Card) => !(c.rank in rs)
  }

  /** The asker's hand after `makeGuess` removes `setsToRemove`, every card of a completed rank. */
  function AskerAfterGuess(hand: seq<Card>): seq<Card> {
    var completed := CompletedRanks(hand);
    if completed == [] then hand else Filter(hand, NotIn(Flatten(GroupsOf(hand, completed))))
  }

  /** The hands after a correct guess: the target loses the shown cards, the asker gains them
      and then loses its completed ranks. */
  function GuessHands(hands: map<PlayerId, seq<Card>>, asker: PlayerId, target: PlayerId, shown: seq<Card>): map<PlayerId, seq<Card>> {
    hands[target := Filter(HandOf(hands, target), NotIn(shown))][asker := AskerAfterGuess(HandOf(hands, asker) + shown)]
  }

  /** The scores after a correct guess: one point per completed rank of the asker's new hand. */
  function GuessScores(scores: map<PlayerId, int>, asker: PlayerId, newAskingHand: seq<Card>): map<PlayerId, int> {
    var completed := CompletedRanks(newAskingHand);
    if completed == [] then scores else scores[asker := ScoreOf(scores, asker) + |completed|]
  }

  /** What `makeGuess` returns. */
  ghost function GuessedState(state: GameState, askingPlayerId: PlayerId, guessedSuits: seq<Suit>): Result<GameState> {
    if state.currentAsk.None? || state.currentAsk.value.askingPlayerId != askingPlayerId then
      Err("Invalid guess action")
    else
      var ask := state.currentAsk.value;
      var correct := GuessCorrect(guessedSuits, SuitsOf(ask.shownCards));
      var move := Move(askingPlayerId, ask.targetPlayerId, ask.requestedRank, ask.shownCards,
                       Some(guessedSuits), Some(correct), if correct then ask.shownCards else []);
      var hands := if correct then GuessHands(state.playerHands, askingPlayerId, ask.targetPlayerId, ask.shownCards) else state.playerHands;
      var scores := if correct then GuessScores(state.playerScores, askingPlayerId, HandOf(state.playerHands, askingPlayerId) + ask.shownCards) else state.playerScores;
      var next := if correct then state.currentPlayerIndex else FindSeat(state.players, ask.targetPlayerId);
      var over := AreAllHandsEmpty(hands);
      Ok(state.(players := MarkCurrent(state.players, next), currentPlayerIndex := next,
                playerHands := hands, playerScores := scores, lastMove := Some(move),
                phase := Asking, currentAsk := None, gameOver := over,
                winner := if over then Winner(scores) else None))
  }

  /** `makeGuess`: check the guess against the shown suits; on a correct guess move the shown
      cards from the target to the asker, remove the asker's completed ranks and score them;
      pass the turn to the target on a miss; then decide whether the game is over. */
  method MakeGuess(state: GameState, askingPlayerId: PlayerId, guessedSuits: seq<Suit>) returns (r: Result<GameState>)
    ensures r == GuessedState(state, askingPlayerId, guessedSuits)
  {
    if state.currentAsk.None? || state.currentAsk.value.askingPlayerId != askingPlayerId {
      return Err("Invalid guess action");
    }
    var ask := state.currentAsk.value;
    var shownCards := ask.shownCards;
    var actualSuits := SuitsOf(shownCards);
    var guessCorrect := GuessCorrect(guessedSuits, actualSuits);
    var move := Move(askingPlayerId, ask.targetPlayerId, ask.requestedRank, shownCards,
                     Some(guessedSuits), Some(guessCorrect), if guessCorrect then shownCards else []);
    var newPlayerHands, newPlayerScores := state.playerHands, state.playerScores;
    if guessCorrect {
      var targetHand := HandOf(newPlayerHands, ask.targetPlayerId);
      var askingHand := HandOf(newPlayerHands, askingPlayerId);
      var remainingCards := Filter(targetHand, NotIn(shownCards));
      var newAskingHand := askingHand + shownCards;
      newPlayerHands := newPlayerHands[ask.targetPlayerId := remainingCards][askingPlayerId := newAskingHand];
      var completedSets := CompletedRanks(newAskingHand);
      if |completedSets| > 0 {
        var setsToRemove := Flatten(GroupsOf(newAskingHand, completedSets));
        UpdateTwice(state.playerHands[ask.targetPlayerId := remainingCards], askingPlayerId, newAskingHand, Filter(newAskingHand, NotIn(setsToRemove)));
        newPlayerHands := newPlayerHands[askingPlayerId := Filter(newAskingHand, NotIn(setsToRemove))];
        newPlayerScores := newPlayerScores[askingPlayerId := ScoreOf(newPlayerScores, askingPlayerId) + |completedSets|];
      }
    }
    var nextPlayerIndex := state.currentPlayerIndex;
    if !guessCorrect {
      nextPlayerIndex := FindSeat(state.players, ask.targetPlayerId);
    }
    var gameOver := AreAllHandsEmpty(newPlayerHands);
    var winner: Option<PlayerId> := None;
    if gameOver {
      winner := GetWinner(newPlayerScores);
    }
    r := Ok(state.(players := MarkCurrent(state.players, nextPlayerIndex), currentPlayerIndex := nextPlayerIndex,
                   playerHands := newPlayerHands, playerScores := newPlayerScores, lastMove := Some(move),
                   phase := Asking, currentAsk := None, gameOver := gameOver, winner := winner));
  }

  /** `setsToRemove` holds exactly the cards of `hand` whose rank is among `rs`. */
  lemma {:induction false} FlattenGroupsMembers(hand: seq<Card>, rs: seq<Rank>)
    ensures forall c :: c in Flatten(GroupsOf(hand, rs)) <==> c in hand && c.rank in rs
    decreases |rs|
  {
    if rs != [] {
      var init, last := rs[..|rs| - 1], rs[|rs| - 1];
      assert rs == init + [last];
      var g := CardsOfRank(hand, last);
      FlattenGroupsMembers(hand, init);
      FlattenAppend(GroupsOf(hand, init), [g]);
      assert Flatten([g]) == g + Flatten([g][1..]);
      assert [g][1..] == [];
      CardsOfRankMembers(hand, last);
    }
  }

  /** Unlike a pass of `checkAndHandleCompletedSets`, `makeGuess` removes every completed
      rank from the asker's hand: a card stays exactly when its rank is not held four times,
      and afterwards no rank is. */
  lemma AskerAfterGuessRemovesCompleted(hand: seq<Card>)
    ensures forall c: Card :: multiset(AskerAfterGuess(hand))[c] == if Count(hand, c.rank) == 4 then 0 else multiset(hand)[c]
    ensures NoCompleteRank(AskerAfterGuess(hand))
  {
    var rs := CompletedRanks(hand);
    var after := AskerAfterGuess(hand);
    CompletedRanksSpec(hand);
    if rs != [] {
      FlattenGroupsMembers(hand, rs);
      FilterAgree(hand, NotIn(Flatten(GroupsOf(hand, rs))), RankNotIn(rs));
      FilterMultiset(hand, RankNotIn(rs));
    }
    assert forall c: Card :: multiset(after)[c] == if Count(hand, c.rank) == 4 then 0 else multiset(hand)[c];
    forall r ensures Count(after, r) != 4 {
      if Count(hand, r) == 4 {
        CardsOfRankMultiset(after, r);
        assert multiset(CardsOfRank(after, r)) == multiset{};
        assert |multiset(CardsOfRank(after, r))| == Count(after, r);
      } else {
        SameCountsFromMultiset(after, hand, r);
      }
    }
  }

  /** `makeGuess` throws exactly when no ask is pending or someone other than the asker guesses. */
  lemma MakeGuessRefused(state: GameState, asker: PlayerId, guessed: seq<Suit>)
    ensures GuessedState(state, asker, guessed).Err? <==>
      state.currentAsk.None? || state.currentAsk.value.askingPlayerId != asker
  {
  }

  /** After a guess the game waits for the next ask; the deck, the discards and the stockpiles
      are untouched; the game is over exactly when no hand holds a card, and then the winner is
      the unique best score. */
  lemma MakeGuessEnds(state: GameState, asker: PlayerId, guessed: seq<Suit>)
    requires GuessedState(state, asker, guessed).Ok?
    ensures var r := GuessedState(state, asker, guessed).value;
      && r.phase == Asking && r.currentAsk == None
      && r.deck == state.deck && r.discardedCards == state.discardedCards
      && r.playerStockpiles == state.playerStockpiles
      && (r.gameOver <==> TotalCards(r.playerHands) == 0)
      && r.winner == (if r.gameOver then Winner(r.playerScores) else None)
      && OnlyCurrent(r.players, r.currentPlayerIndex) && SameSeats(r.players, state.players)
  {
    var r := GuessedState(state, asker, guessed).value;
    TotalCardsZero(r.playerHands);
  }

  /** The hands after a correct guess, player by player. */
  lemma GuessHandsSpec(hands: map<PlayerId, seq<Card>>, asker: PlayerId, target: PlayerId, shown: seq<Card>)
    ensures var r := GuessHands(hands, asker, target, shown);
      var gained := HandOf(hands, asker) + shown;
      && r.Keys == hands.Keys + {asker, target}
      && (target != asker ==> r[target] == Filter(HandOf(hands, target), NotIn(shown)))
      && (forall c: Card :: multiset(r[asker])[c] == if Count(gained, c.rank) == 4 then 0 else multiset(gained)[c])
      && NoCompleteRank(r[asker])
      && (forall q :: q in hands && q != asker && q != target ==> r[q] == hands[q])
  {
    var gained := HandOf(hands, asker) + shown;
    var t := Filter(HandOf(hands, target), NotIn(shown));
    var a := AskerAfterGuess(gained);
    var r := hands[target := t][asker := a];
    assert GuessHands(hands, asker, target, shown) == r;
    assert r[asker] == a;
    assert target != asker ==> r[target] == t;
    AskerAfterGuessRemovesCompleted(gained);
  }

  /** The scores after a correct guess: only the asker's entry changes. */
  lemma GuessScoresSpec(scores: map<PlayerId, int>, asker: PlayerId, gained: seq<Card>)
    ensures var r := GuessScores(scores, asker, gained);
      && ScoreOf(r, asker) == ScoreOf(scores, asker) + |CompletedRanks(gained)|
      && (forall q :: q != asker ==> (q in r <==> q in scores))
      && (forall q :: q in scores && q != asker ==> r[q] == scores[q])
  {
  }

  /** A correct guess: the target loses the shown cards, the asker gains them and gives up
      every completed rank, scoring one point per rank (the stockpile is not extended), no
      other hand changes and the asker keeps the turn. */
  lemma MakeGuessCorrect(state: GameState, asker: PlayerId, guessed: seq<Suit>)
    requires state.currentAsk.Some? && state.currentAsk.value.askingPlayerId == asker
    requires GuessCorrect(guessed, SuitsOf(state.currentAsk.value.shownCards))
    ensures var ask := state.currentAsk.value;
      var r := GuessedState(state, asker, guessed).value;
      var gained := HandOf(state.playerHands, asker) + ask.shownCards;
      && r.playerHands.Keys == state.playerHands.Keys + {asker, ask.targetPlayerId}
      && (ask.targetPlayerId != asker ==>
            r.playerHands[ask.targetPlayerId] == Filter(HandOf(state.playerHands, ask.targetPlayerId), NotIn(ask.shownCards)))
      && (forall c: Card :: multiset(r.playerHands[asker])[c] == if Count(gained, c.rank) == 4 then 0 else multiset(gained)[c])
      && NoCompleteRank(r.playerHands[asker])
      && (forall q :: q in state.playerHands && q != asker && q != ask.targetPlayerId ==> r.playerHands[q] == state.playerHands[q])
      && ScoreOf(r.playerScores, asker) == ScoreOf(state.playerScores, asker) + |CompletedRanks(gained)|
      && (forall q :: q != asker ==> (q in r.playerScores <==> q in state.playerScores))
      && (forall q :: q in state.playerScores && q != asker ==> r.playerScores[q] == state.playerScores[q])
      && r.playerStockpiles == state.playerStockpiles
      && r.currentPlayerIndex == state.currentPlayerIndex
      && r.lastMove == Some(Move(asker, ask.targetPlayerId, ask.requestedRank, ask.shownCards, Some(guessed), Some(true), ask.shownCards))
  {
    var ask := state.currentAsk.value;
    var r := GuessedState(state, asker, guessed).value;
    var gained := HandOf(state.playerHands, asker) + ask.shownCards;
    assert r.playerHands == GuessHands(state.playerHands, asker, ask.targetPlayerId, ask.shownCards);
    assert r.playerScores == GuessScores(state.playerScores, asker, gained);
    GuessHandsSpec(state.playerHands, asker, ask.targetPlayerId, ask.shownCards);
    GuessScoresSpec(state.playerScores, asker, gained);
  }

  /** A wrong guess moves no card and no point, records an empty exchange, and hands the turn
      to the target's seat: -1, with no seat flagged, when the target has no seat. */
  lemma MakeGuessMiss(state: GameState, asker: PlayerId, guessed: seq<Suit>)
    requires state.currentAsk.Some? && state.currentAsk.value.askingPlayerId == asker
    requires !GuessCorrect(guessed, SuitsOf(state.currentAsk.value.shownCards))
    ensures var ask := state.currentAsk.value;
      var r := GuessedState(state, asker, guessed).value;
      && r.playerHands == state.playerHands && r.playerScores == state.playerScores
      && r.currentPlayerIndex == FindSeat(state.players, ask.targetPlayerId)
      && (r.currentPlayerIndex == -1 ==> CurrentSeats(r.players) == {})
      && r.lastMove == Some(Move(asker, ask.targetPlayerId, ask.requestedRank, ask.shownCards, Some(guessed), Some(false), []))
  {
    var r := GuessedState(state, asker, guessed).value;
    MarkCurrentSeats(state.players, r.currentPlayerIndex);
  }

  /** From a well-formed state a guess stays well-formed unless it misses against a target who
      has no seat. */
  lemma MakeGuessKeepsWellFormed(state: GameState, asker: PlayerId, guessed: seq<Suit>)
    requires WellFormed(state) && GuessedState(state, asker, guessed).Ok?
    requires GuessCorrect(guessed, SuitsOf(state.currentAsk.value.shownCards)) ||
             exists k :: 0 <= k < |state.players| && state.players[k].id == state.currentAsk.value.targetPlayerId
    ensures WellFormed(GuessedState(state, asker, guessed).value)
  {
    var r := GuessedState(state, asker, guessed).value;
    assert Ids(r.players) == Ids(state.players);
  }
}
