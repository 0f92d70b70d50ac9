# Go Fish ("Fishing") rules engine

A Dafny model of the Go Fish engine of a multiplayer card-game hub and proofs about it.
The first part is the card, deck, hand and set bookkeeping in `app/games/Fishing/gameLogic.ts`:
- building and shuffling the 52-card deck;
- drawing and dealing;
- moving cards between hands;
- finding four-of-a-kind sets, scoring them and stockpiling them;
- the reference ask → show → guess protocol and winner selection.

The second part is the transition engine that the game screen drives, in `app/games/Fishing/hooks/useFishingGame.ts`:
- starting a game;
- the three outcomes of an ask: draw and pass, automatic completion, or open a guess;
- per-suit guess resolution;
- game-over detection;
- toggling a guessed suit.

Modules follow the program's structure:
- `Common`: options, filtering, flattening and multiset facts.
- `Cards`: suits, ranks, cards and players.
- `Deck`: createDeck, shuffleDeck, drawCards and dealCards.
- `Hands`: rank groups, completed sets, checkAndHandleCompletedSets and transferCards.
- `State`: the game state record and createInitialState.
- `Protocol`: askForCard, showCards, makeGuess and getWinner.
- `Hook`: the useFishingGame handlers.

The source's loops are modelled as methods with loop invariants, each proved equal to a specification function:
- createDeck's nested loops;
- the Fisher–Yates swap loop, on an array copy;
- the deal loop;
- the splice loop of transferCards;
- the nested loops of checkAndHandleCompletedSets;
- the scans over the score record.

The hook's handlers copy the state and change it field by field. Each is a method doing the same on a local state value, proved equal to a function of its inputs. Properties are proved about those functions.

Modelling conventions:
- JavaScript objects keyed by id are maps. An absent rank group or hand reads as `[]`, as the source's `|| []` does.
- A JavaScript object enumerates integer-like keys ('2'…'10') in ascending order first and the other keys in insertion order. `Hands.KeyOrder` models this, and it decides which rank the multi-set anomaly below keeps in the hand.
- The random choices are parameters:
  - the shuffle's swap index at each step (`js[k] <= n - 1 - k`);
  - the starting seat.
- A `throw` is an `Err` result, or an outcome of its own.
- The result of `% 0` (NaN) is the index -1, which addresses no seat.
- A null or empty player id is `""`.

Defects of the source are modelled as written, each exposed by a lemma:
- When a hand completes two ranks at once, both are scored and stockpiled, but only the last rank found leaves the hand.
- `makeGuess` never adds to the stockpile.
- A hook guess at one's own hand drops the won cards.
- Toggling a suit twice can reorder the list.

## Model

| member | source | states |
|---|---|---|
| Cards.SuitIndex | app/games/Fishing/gameLogic.ts:4 | every suit has a position in SUITS |
| Cards.RankIndex | app/games/Fishing/gameLogic.ts:5 | every rank has a position in RANKS |
| Cards.CardIndexInverse | app/games/Fishing/gameLogic.ts:8-16 | a card's position in the suit-major layout addresses that card |
| Cards.CardAtInverse | app/games/Fishing/gameLogic.ts:8-16 | each of the 52 positions holds a card whose position it is |
| Cards.NumericByIndex | app/games/Fishing/gameLogic.ts:5 | the ranks '2'…'10' are exactly RANKS positions 1 to 9, the integer-like object keys |
| Deck.FullDeck | app/games/Fishing/gameLogic.ts:8-16 | the laid-out deck has 52 cards and holds every (suit, rank) pair exactly once |
| Deck.EveryCardOnce | app/games/Fishing/gameLogic.ts:8-16 | any 52 cards laid out suit-major hold every card exactly once |
| Deck.CreateDeck | app/games/Fishing/gameLogic.ts:8-16 | the nested push loops build the full deck: 52 cards, each card once |
| Deck.Swap | app/games/Fishing/gameLogic.ts:23 | a swap keeps length and cards |
| Deck.SwapsFrom | app/games/Fishing/gameLogic.ts:21-24 | the remaining swaps keep length and cards |
| Deck.ShuffleDeck | app/games/Fishing/gameLogic.ts:19-26 | the swap loop on an array copy gives the specified shuffle, a permutation of the input; the input is a value and stays as it was |
| Deck.SwapCells | app/games/Fishing/gameLogic.ts:23 | the array after the swap is the swapped sequence |
| Deck.DrawCards | app/games/Fishing/gameLogic.ts:29-34 | drawn followed by rest is the deck, and min(n, deck size) cards are drawn |
| Deck.IsDeckEmpty | app/games/Fishing/gameLogic.ts:348-350 | the deck is empty exactly when a draw yields nothing |
| Deck.DealKeys | app/games/Fishing/gameLogic.ts:37-46 | the deal gives a hand to every player id |
| Deck.DealKeepsOthers | app/games/Fishing/gameLogic.ts:37-46 | an id not served later keeps its hand |
| Deck.DealSplits | app/games/Fishing/gameLogic.ts:37-46 | with distinct ids, the hands in seating order followed by the rest are the deck |
| Deck.DealFull | app/games/Fishing/gameLogic.ts:37-46 | when the deck suffices every hand has the full count |
| Deck.DealAtMost | app/games/Fishing/gameLogic.ts:37-46 | no hand exceeds the count |
| Deck.DealSlices | app/games/Fishing/gameLogic.ts:37-46 | with distinct ids and enough cards, player k holds the k-th consecutive slice |
| Deck.DealResult | app/games/Fishing/gameLogic.ts:37-46 | all deal facts from no hands |
| Deck.DealCards | app/games/Fishing/gameLogic.ts:37-46 | the deal loop gives the specified deal, with the key, size, split and slice facts |
| Hands.CardsOfRankMembers | app/games/Fishing/gameLogic.ts:124-126 | getCardsByRank keeps exactly the hand's cards of that rank |
| Hands.CardsOfRankMultiset | app/games/Fishing/gameLogic.ts:124-126 | and keeps each with its multiplicity |
| Hands.RemoveSetMembers | app/games/Fishing/gameLogic.ts:343-345 | removeSetFromHand keeps exactly the cards of other ranks |
| Hands.RemoveSetSplits | app/games/Fishing/gameLogic.ts:343-345 | the removed rank's cards and the rest split the hand |
| Hands.CountOfRemoved | app/games/Fishing/gameLogic.ts:343-345 | after removal the rank count is 0 and other counts are unchanged |
| Hands.CountAppend | app/games/Fishing/gameLogic.ts:124-126 | rank counts add over concatenation |
| Hands.TwoRanksFit | app/games/Fishing/gameLogic.ts:124-126 | two ranks together hold at most the hand |
| Hands.FirstSeenSpec | app/games/Fishing/gameLogic.ts:130-132 | first-insertion order lists every rank held, each once |
| Hands.NumericKeysSpec | app/games/Fishing/gameLogic.ts:134 | the integer-like keys are the held ranks '2'…'10', each once |
| Hands.KeyOrderSpec | app/games/Fishing/gameLogic.ts:134 | the key enumeration order lists each held rank once |
| Hands.CompleteAmongSpec | app/games/Fishing/gameLogic.ts:134-136 | the filter keeps exactly the keys held four times |
| Hands.CompletedRanksSpec | app/games/Fishing/gameLogic.ts:128-137 | checkForCompletedSets reports exactly the ranks held four times, each once |
| Hands.CompletedRanksExactly | app/games/Fishing/gameLogic.ts:332-340 | getCompletedSets, which is the same function, does the same |
| Hands.NoCompleteRankIffNone | app/games/Fishing/gameLogic.ts:128-137 | no completed rank is reported exactly when no rank is held four times |
| Hands.GroupsOfSpec | app/games/Fishing/gameLogic.ts:97-103 | the i-th group is the hand's cards of the i-th rank |
| Hands.GroupByRank | app/games/Fishing/gameLogic.ts:97-103 | the forEach grouping loop maps each held rank to its cards in hand order |
| Hands.MoveCompleteGroups | app/games/Fishing/gameLogic.ts:106-118 | the rank loop of one player stockpiles and scores each complete group and refilters the hand from the original |
| Hands.CompleteSetsOf | app/games/Fishing/gameLogic.ts:95-118 | one player's pass equals the specified per-player update |
| Hands.CompleteAllSets | app/games/Fishing/gameLogic.ts:95-119 | the player loop gives the specified records |
| Hands.CheckAndHandleCompletedSets | app/games/Fishing/gameLogic.ts:86-122 | the whole function equals the extraction specification |
| Hands.ExtractSetsPlayer | app/games/Fishing/gameLogic.ts:86-122 | a player's hand becomes the hand after extraction, the score rises by the number of completed ranks, and the groups are appended to the stockpile in order |
| Hands.ExtractSetsOthers | app/games/Fishing/gameLogic.ts:86-122 | a player with no complete rank keeps hand, score and stockpile |
| Hands.CompletedGroupsAreBooks | app/games/Fishing/gameLogic.ts:106-110 | each stockpiled group is four cards of its rank |
| Hands.SmallHandCompletesOne | app/games/Fishing/gameLogic.ts:106-118 | a hand of fewer than eight cards completes at most one rank |
| Hands.CleanExtraction | app/games/Fishing/gameLogic.ts:106-118 | with at most one complete rank the hand loses exactly those four cards and keeps no complete rank |
| Hands.TwoCompletedRanksDuplicate | app/games/Fishing/gameLogic.ts:113 | with two complete ranks, hand plus stockpiled groups hold four cards more than the hand did: one set stays in the hand |
| Hands.FindIndex | app/games/Fishing/gameLogic.ts:57 | findIndex gives the first matching position, or -1 exactly when the card is absent |
| Hands.RemoveFirstSplices | app/games/Fishing/gameLogic.ts:57-58 | removing a card splices out its first occurrence, so the cards before and after keep their order, and an absent card leaves the hand as it was |
| Hands.RemoveFirstMultiset | app/games/Fishing/gameLogic.ts:57-58 | one splice takes away one copy of the card, or nothing when it is absent |
| Hands.RemoveEachMultiset | app/games/Fishing/gameLogic.ts:54-59 | after the loop, from has lost one copy of each card it held, and absent cards are ignored (multiset difference) |
| Hands.RemoveEachKeepsOthers | app/games/Fishing/gameLogic.ts:54-59 | a card that is not transferred keeps all its copies in from |
| Hands.TransferCards | app/games/Fishing/gameLogic.ts:49-61 | to gains the cards at its end; from becomes the card-by-card splice of first occurrences (RemoveEach), so the remaining cards keep their order, with the multiset difference as a consequence |
| Hands.TotalCardsZero | app/games/Fishing/gameLogic.ts:352-355 | areAllHandsEmpty holds exactly when the hands' card total (the reduce of lines 277-279 and of the hook's checkGameOver) is zero |
| State.MarkCurrent | app/games/Fishing/gameLogic.ts:271-274 | flagging by index keeps seats and flags exactly that index |
| State.MarkById | app/games/Fishing/gameLogic.ts:146-149 | flagging by id keeps seats and flags exactly the seats with that id |
| State.MarkCurrentSeats | app/games/Fishing/gameLogic.ts:271-274 | one flagged seat for an index in range, none otherwise |
| State.FindSeat | app/games/Fishing/gameLogic.ts:266 | findIndex: the first seat with the id, or -1 exactly when none has it |
| State.MarkByIdIsMarkCurrent | app/games/Fishing/gameLogic.ts:146-149 | with distinct ids, flagging by id flags the seat found by findIndex |
| State.WellFormedOneCurrent | app/games/Fishing/gameLogic.ts:63-83 | a well-formed state has exactly one current seat |
| State.CreateInitialState | app/games/Fishing/gameLogic.ts:63-83 | seat 0 current, no hands or deck, zero scores, empty stockpiles, asking phase |
| State.InitialWellFormed | app/games/Fishing/gameLogic.ts:63-83 | with players and distinct ids the initial state is well-formed |
| Protocol.UniqueMaxUnique | app/games/Fishing/gameLogic.ts:295-303 | at most one player holds a unique maximum |
| Protocol.Winner | app/games/Fishing/gameLogic.ts:295-303 | the winner holds the unique maximum score; none when no such player exists |
| Protocol.GetWinner | app/games/Fishing/gameLogic.ts:295-303 | the max and filter scans give the winner (or null on a tie or no scores) |
| Protocol.UniqueMaxOfWinner | app/games/Fishing/gameLogic.ts:302 | a single top scorer is the winner |
| Protocol.NoUniqueMaxWhenShared | app/games/Fishing/gameLogic.ts:300-302 | no winner when the top score is shared |
| Protocol.AskForCard | app/games/Fishing/gameLogic.ts:139-162 | showing phase, ask with no shown cards, exactly the asker flagged, nothing else changes |
| Protocol.ShowCards | app/games/Fishing/gameLogic.ts:164-188 | throws exactly without an ask or for another target; otherwise guessing phase, cards shown, asker flagged, nothing else changes |
| Protocol.AskThenShow | app/games/Fishing/gameLogic.ts:139-188 | after an ask only the target may show, and the result is the ask with the shown cards |
| Protocol.AskKeepsWellFormed | app/games/Fishing/gameLogic.ts:139-162 | the current player's ask keeps the state well-formed |
| Protocol.GuessCorrectIsSetEquality | app/games/Fishing/gameLogic.ts:203-205 | without repeats the guess is correct exactly when it names the set of shown suits |
| Protocol.MakeGuess | app/games/Fishing/gameLogic.ts:190-293 | makeGuess's steps give the specified result |
| Protocol.MakeGuessRefused | app/games/Fishing/gameLogic.ts:195-197 | throws exactly without an ask or for another asker |
| Protocol.MakeGuessEnds | app/games/Fishing/gameLogic.ts:259-292 | asking phase, no ask, deck and stockpiles unchanged (no stockpiling), game over iff no cards in hands, winner rule, one flagged seat |
| Protocol.FlattenGroupsMembers | app/games/Fishing/gameLogic.ts:245-247 | setsToRemove holds exactly the hand's cards of the completed ranks |
| Protocol.AskerAfterGuessRemovesCompleted | app/games/Fishing/gameLogic.ts:242-253 | the asker loses every card of every completed rank and keeps no complete rank |
| Protocol.GuessHandsSpec | app/games/Fishing/gameLogic.ts:223-253 | the hands after a correct guess: keys, target filtered, asker's cards, others unchanged |
| Protocol.GuessScoresSpec | app/games/Fishing/gameLogic.ts:255 | only the asker's score rises, by the number of completed ranks |
| Protocol.MakeGuessCorrect | app/games/Fishing/gameLogic.ts:223-263 | a correct guess moves the shown cards, removes and scores completed ranks, keeps the turn and records the exchange |
| Protocol.MakeGuessMiss | app/games/Fishing/gameLogic.ts:264-268 | a miss leaves hands and scores, gives the turn to the target's seat (-1 when absent, then no seat is flagged) and records no exchange |
| Protocol.MakeGuessKeepsWellFormed | app/games/Fishing/gameLogic.ts:259-292 | makeGuess keeps the state well-formed when the target sits at the table or the guess is correct |
| Hook.CheckGameOver | app/games/Fishing/hooks/useFishingGame.ts:347-366 | game over iff no hand holds a card; then the unique top scorer wins (none on a tie or without scores); no winner otherwise |
| Hook.NextIndex | app/games/Fishing/hooks/useFishingGame.ts:160 | the next seat, wrapping from the last to the first; -1 with no players |
| Hook.RotationCycles | app/games/Fishing/hooks/useFishingGame.ts:160-161 | repeated rotation counts forward and wraps once |
| Hook.EverySeatTakesATurn | app/games/Fishing/hooks/useFishingGame.ts:160-161 | every seat is reached within one round, and a round returns to the start |
| Hook.ExtractedKeeps | app/games/Fishing/hooks/useFishingGame.ts:135-143 | folding the extraction into the state changes only hands, scores and stockpiles |
| Hook.ExtractState | app/games/Fishing/hooks/useFishingGame.ts:135-143 | the extraction call on the state's records |
| Hook.HandleStartGame | app/games/Fishing/hooks/useFishingGame.ts:68-95 | starting seat flagged alone, asking phase, no ask, not over; deck is the remainder of the five-card deal of the shuffled deck; records are the extraction of the dealt hands from zero scores and empty stockpiles |
| Hook.StartGameDeal | app/games/Fishing/hooks/useFishingGame.ts:69-72 | with at most ten players and distinct ids, every card is once in the shuffled deck, each player gets five cards, and hands in order plus the deck are that deck |
| Hook.StartRecordsAgree | app/games/Fishing/hooks/useFishingGame.ts:71-78 | every player dealt a hand starts with a zero score and an empty stockpile, and no other player has an entry |
| Hook.StartGameWellFormed | app/games/Fishing/hooks/useFishingGame.ts:79-92 | a started game with distinct ids is well-formed |
| Hook.HandleAskForCards | app/games/Fishing/hooks/useFishingGame.ts:113-245 | the handler's steps give the specified outcome |
| Hook.AskIgnoredIff | app/games/Fishing/hooks/useFishingGame.ts:114-121 | nothing happens exactly when a selection, the state or the player is missing, or another ask is under way |
| Hook.NoMatchDeck | app/games/Fishing/hooks/useFishingGame.ts:128-144 | no match: a non-empty deck loses its last card, which joins the asker's hand before extraction; an empty deck leaves deck and records unchanged |
| Hook.NoMatchTurn | app/games/Fishing/hooks/useFishingGame.ts:146-166 | no match: the turn passes to the next seat, only it is flagged, the move records no cards and no guess |
| Hook.AutoTakesOneCard | app/games/Fishing/hooks/useFishingGame.ts:186-188 | the auto-transfer filter removes exactly the one matching card |
| Hook.AutoHandsShape | app/games/Fishing/hooks/useFishingGame.ts:183-188 | the asker gains the card, the target loses it, no other hand changes |
| Hook.AutoMakesFour | app/games/Fishing/hooks/useFishingGame.ts:178-181 | three held plus the one taken make four of the rank, which completes |
| Hook.AutoCompletes | app/games/Fishing/hooks/useFishingGame.ts:178-225 | auto-transfer happens only between two players, completes the rank, scores at least one point, keeps turn, seats and deck, and records a correct guess of that card |
| Hook.GuessOpenedShows | app/games/Fishing/hooks/useFishingGame.ts:229-236 | the opened guess shows the target's cards of the rank, at least one |
| Hook.AskKeepsWellFormedHook | app/games/Fishing/hooks/useFishingGame.ts:113-225 | a published ask keeps the state well-formed |
| Hook.CorrectCardsExactly | app/games/Fishing/hooks/useFishingGame.ts:256-261 | the cards won are exactly the shown cards whose suit was guessed, in shown order |
| Hook.HandleGuessSuits | app/games/Fishing/hooks/useFishingGame.ts:247-327 | the handler's steps give the specified outcome |
| Hook.GuessOutcomeCases | app/games/Fishing/hooks/useFishingGame.ts:248-277 | nothing happens exactly without an ask, state or player; a failure is thrown exactly when cards were won from a target with no hand entry |
| Hook.GuessTransferMoves | app/games/Fishing/hooks/useFishingGame.ts:267-277 | between two players: the asker gains the won cards, the target loses them, other hands are kept |
| Hook.GuessTransferConserves | app/games/Fishing/hooks/useFishingGame.ts:267-277 | when the target holds each won card once, the two hands together keep the same cards |
| Hook.GuessSelfTargetDropsCards | app/games/Fishing/hooks/useFishingGame.ts:267-277 | guessing at one's own hand loses the won cards |
| Hook.GuessOutcomeTurn | app/games/Fishing/hooks/useFishingGame.ts:279-320 | the draw from the end of the deck and the rotation happen iff nothing was won; the move records whether and which cards were won |
| Hook.GuessConsolation | app/games/Fishing/hooks/useFishingGame.ts:279-293 | extraction runs on the transferred hands plus the consolation card, if any |
| Hook.GuessKeepsWellFormedHook | app/games/Fishing/hooks/useFishingGame.ts:247-327 | a published guess keeps the state well-formed |
| Hook.HandleSuitToggle | app/games/Fishing/hooks/useFishingGame.ts:329-335 | toggles the suit's membership; other suits keep their counts; a present suit is removed with all copies, an absent one appended once |
| Hook.ToggleTwiceAbsent | app/games/Fishing/hooks/useFishingGame.ts:329-335 | toggling an absent suit twice restores the list |
| Hook.ToggleTwiceSameSuits | app/games/Fishing/hooks/useFishingGame.ts:329-335 | on a duplicate-free list toggling twice restores the suits |
| Hook.ToggleTwiceReorders | app/games/Fishing/hooks/useFishingGame.ts:329-335 | but not always the order: [S, H] toggled twice on S is [H, S] |

## Left out
- React machinery: effects, the room-code fetch, the last-move timer, dialog and selection flags other than the three guard flags, `pushState`/`useRoom` replication, `sortHand` (an unseen utility), and `handlePlayerClick`, `handleCardSelect`, `handleGuessDialogClose` and `handleNewGame` (UI plumbing; `handleNewGame` only calls `handleStartGame`).
- Timestamps and player names in `lastMove`, and the target's name in the pending ask: informational only.
- `getPlayerHand` and `syncGameStateWithLibrary` (adapters over an untyped card library).
- `Math.random`: the shuffle's swap choices and the starting seat are parameters.
- Aliasing through shallow copies: the hook's `deck.pop()` and hand assignments also change the latest state object, and `checkAndHandleCompletedSets` pushes into stockpile arrays shared with its input. The model works on values, so these side effects on the caller's objects are not captured.
- The guards on missing `playerHands`, `players` or `deck` fields: a state value always has them.
- The dead else-branch of `handleAskForCards` (useFishingGame.ts:237-240): matching cards are never negative in number.
- How the hook builds `allPlayers` (appending a "You" entry for an absent local player): the player list is a parameter.
- Protocol.GuessScoresSpec: `scores[asker] += n` on an absent entry is NaN in the source. The model counts from 0.
- Hook.NextIndex: `% 0` gives NaN. The model gives -1, which addresses no seat, as NaN does. It does not model that NaN stays NaN under later rotations.
- Hands.AreAllHandsEmpty: `totalCards === 0 || every(...)` is modelled by the single test; Hands.TotalCardsZero proves the two agree.
- Protocol.GetWinner and Hook.CheckGameOver scan a map, which has no order, so they are methods. Their result is proved independent of the order.
- Hook.ToggleTwiceSameSuits: toggling twice restores the list only up to order, because a removed suit comes back at the end.
- Hook.HandleStartGame: `Math.floor(Math.random() * allPlayers.length)` is supplied, below the number of players (or 0 with none).
