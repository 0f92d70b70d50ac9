/** Card identity: the four suits `S H D C` and the thirteen ranks `A 2 … 10 J Q K`
    of `SUITS` and `RANKS`, and the position a card takes in a freshly built deck. */
module Cards {

  /** 'S', 'H', 'D', 'C' */
  datatype Suit = Spades | Hearts | Diamonds | Clubs

  /** 'A', '2', …, '10', 'J', 'Q', 'K' */
  datatype Rank = Ace | Two | Three | Four | Five | Six | Seven | Eight | Nine | Ten | Jack | Queen | King

  /** A card is its suit and rank; equality is structural. */
  datatype Card = Card(suit: Suit, rank: Rank)

  type PlayerId = string

  const SUITS: seq<Suit> := [Spades, Hearts, Diamonds, Clubs]
  const RANKS: seq<Rank> := [Ace, Two, Three, Four, Five, Six, Seven, Eight, Nine, Ten, Jack, Queen, King]

  /** Where `s` stands in `SUITS`. */
  function SuitIndex(s: Suit): (i: nat)
    ensures i < |SUITS| && SUITS[i] == s
  {
    match s
    case Spades => 0
    case Hearts => 1
    case Diamonds => 2
    case Clubs => 3
  }

  /** Where `r` stands in `RANKS`. */
  function RankIndex(r: Rank): (i: nat)
    ensures i < |RANKS| && RANKS[i] == r
  {
    match r
    case Ace => 0
    case Two => 1
    case Three => 2
    case Four => 3
    case Five => 4
    case Six => 5
    case Seven => 6
    case Eight => 7
    case Nine => 8
    case Ten => 9
    case Jack => 10
    case Queen => 11
    case King => 12
  }

  /** The position of `c` in the deck built suit by suit, rank by rank. */
  function CardIndex(c: Card): nat {
    13 * SuitIndex(c.suit) + RankIndex(c.rank)
  }

  /** The card at position `k` of that deck. */
  function CardAt(k: nat): Card
    requires k < 52
  {
    Card(SUITS[k / 13], RANKS[k % 13])
  }

  /** Position `13 * si + ri` holds suit `si` and rank `ri`. */
  lemma CardAtSplit(si: nat, ri: nat)
    requires si < 4 && ri < 13
    ensures 13 * si + ri < 52
    ensures CardAt(13 * si + ri) == Card(SUITS[si], RANKS[ri])
  {
    var k := 13 * si + ri;
    assert k / 13 == si && k % 13 == ri;
  }

  /** `CardAt` and `CardIndex` are inverse: every card has exactly one position. */
  lemma CardIndexInverse(c: Card)
    ensures CardIndex(c) < 52 && CardAt(CardIndex(c)) == c
  {
    CardAtSplit(SuitIndex(c.suit), RankIndex(c.rank));
  }

  lemma CardAtInverse(k: nat)
    requires k < 52
    ensures CardIndex(CardAt(k)) == k
  {
    var si, ri := k / 13, k % 13;
    assert SuitIndex(SUITS[si]) == si by {
      assert SUITS[SuitIndex(SUITS[si])] == SUITS[si];
    }
    assert RankIndex(RANKS[ri]) == ri by {
      if ri <= 12 { assert RANKS[RankIndex(RANKS[ri])] == RANKS[ri]; }
    }
  }

  /** A seat in the room; `isCurrentPlayer` flags whose turn it is. */
  datatype Player = Player(id: PlayerId, name: string, isCurrentPlayer: bool)

  /** The ids of `players`, in seating order. */
  function Ids(players: seq<Player>): (ids: seq<PlayerId>)
    ensures |ids| == |players|
    ensures forall k :: 0 <= k < |players| ==> ids[k] == players[k].id
  {
    seq(|players|, k requires 0 <= k < |players| => players[k].id)
  }

  /** `playerHands[id] || []`: a player's hand, empty when the record has no entry. */
  function HandOf(hands: map<PlayerId, seq<Card>>, p: PlayerId): seq<Card> {
    if p in hands then hands[p] else []
  }

  /** `'2'` … `'10'`: the rank names a JavaScript object enumerates as integer keys. */
  predicate IsNumericKey(r: Rank) {
    !(r == Ace || r == Jack || r == Queen || r == King)
  }

  lemma RankIndexInverse(i: nat)
    requires i < |RANKS|
    ensures RankIndex(RANKS[i]) == i
  {
    assert RANKS[RankIndex(RANKS[i])] == RANKS[i];
  }

  /** The integer-like keys are the ranks from `RANKS[1]` to `RANKS[9]`. */
  lemma NumericByIndex(r: Rank)
    ensures IsNumericKey(r) <==> 1 <= RankIndex(r) < 10
  {
  }
}
