/** Deck construction, the Fisher–Yates shuffle, drawing and dealing
    (`createDeck`, `shuffleDeck`, `drawCards`, `dealCards`, `isDeckEmpty`). */
module Deck {
  import opened Common
  import opened Cards

  /** The 52 cards `createDeck` pushes: suits in `SUITS` order, ranks in `RANKS` order within each suit. */
  function FullDeck(): (d: seq<Card>)
    ensures |d| == 52
    ensures forall c: Card :: multiset(d)[c] == 1
  {
    var d := seq(52, k requires 0 <= k < 52 => CardAt(k));
    EveryCardOnce(d);
    d
  }

  /** A 52-card sequence laid out by `CardAt` holds each card exactly once. */
  lemma EveryCardOnce(d: seq<Card>)
    requires |d| == 52 && forall k :: 0 <= k < 52 ==> d[k] == CardAt(k)
    ensures forall c: Card :: multiset(d)[c] == 1
  {
    assert NoDup(d) by {
      forall i, j | 0 <= i < j < 52 ensures d[i] != d[j] {
        CardAtInverse(i);
        CardAtInverse(j);
      }
    }
    NoDupMultiset(d);
    forall c: Card ensures c in d {
      CardIndexInverse(c);
      assert d[CardIndex(c)] == c;
    }
  }

  /** Pushing suit `si` and rank `ri` onto the first `13 * si + ri` cards continues the layout. */
  lemma LaidOutPush(deck: seq<Card>, si: nat, ri: nat)
    requires si < 4 && ri < 13 && |deck| == 13 * si + ri
    requires forall k :: 0 <= k < |deck| ==> deck[k] == CardAt(k)
    ensures forall k :: 0 <= k < |deck| + 1 ==> (deck + [Card(SUITS[si], RANKS[ri])])[k] == CardAt(k)
  {
    CardAtSplit(si, ri);
  }

  /** `createDeck`: two nested loops pushing `{suit, rank}` for every suit and rank. */
  method CreateDeck() returns (deck: seq<Card>)
    ensures deck == FullDeck()
    ensures |deck| == 52 && forall c: Card :: multiset(deck)[c] == 1
  {
    deck := [];
    var si := 0;
    while si < |SUITS|
      invariant 0 <= si <= |SUITS|
      invariant |deck| == 13 * si
      invariant forall k :: 0 <= k < |deck| ==> deck[k] == CardAt(k)
    {
      var ri := 0;
      while ri < |RANKS|
        invariant 0 <= ri <= |RANKS|
        invariant |deck| == 13 * si + ri
        invariant forall k :: 0 <= k < |deck| ==> deck[k] == CardAt(k)
      {
        LaidOutPush(deck, si, ri);
        deck := deck + [Card(SUITS[si], RANKS[ri])];
        ri := ri + 1;
      }
      si := si + 1;
    }
  }

  /** The random choices of one shuffle of `n` cards: iteration `k` of the loop runs with
      `i == n - 1 - k` and swaps with `js[k]`, one of `0 .. i` (`Math.floor(Math.random() * (i + 1))`). */
  predicate ValidSwaps(n: nat, js: seq<nat>) {
    && |js| == (if n == 0 then 0 else n - 1)
    && forall k :: 0 <= k < |js| ==> js[k] <= n - 1 - k
  }

  /** `[arr[i], arr[j]] = [arr[j], arr[i]]` */
  function Swap(s: seq<Card>, i: nat, j: nat): (r: seq<Card>)
    requires i < |s| && j < |s|
    ensures |r| == |s| && multiset(r) == multiset(s)
  {
    s[i := s[j]][j := s[i]]
  }

  /** The shuffle loop from iteration `k` on. */
  function SwapsFrom(s: seq<Card>, js: seq<nat>, k: nat): (r: seq<Card>)
    requires ValidSwaps(|s|, js) && k <= |js|
    ensures |r| == |s| && multiset(r) == multiset(s)
    decreases |js| - k
  {
    if k == |js| then s else SwapsFrom(Swap(s, |s| - 1 - k, js[k]), js, k + 1)
  }

  /** `shuffleDeck` with the random indices `js`. */
  function Shuffled(s: seq<Card>, js: seq<nat>): (r: seq<Card>)
    requires ValidSwaps(|s|, js)
  {
    SwapsFrom(s, js, 0)
  }

  /** `shuffleDeck`: Fisher–Yates on a copy of the deck, so the input is left as it was. */
  method ShuffleDeck(deck: seq<Card>, js: seq<nat>) returns (shuffled: seq<Card>)
    requires ValidSwaps(|deck|, js)
    ensures shuffled == Shuffled(deck, js)
    ensures |shuffled| == |deck| && multiset(shuffled) == multiset(deck)
  {
    var n := |deck|;
    var arr := new Card[n](k requires 0 <= k < n => deck[k]);
    assert arr[..] == deck;
    var i := n - 1;
    while i > 0
      invariant (if n == 0 then i == -1 else 0 <= i < n)
      invariant SwapsFrom(arr[..], js, n - 1 - i) == Shuffled(deck, js)
    {
      var j := js[n - 1 - i];
      SwapCells(arr, i, j);
      i := i - 1;
    }
    shuffled := arr[..];
  }

  /** `[arr[i], arr[j]] = [arr[j], arr[i]]` on the array itself. */
  method SwapCells(arr: array<Card>, i: nat, j: nat)
    requires i < arr.Length && j < arr.Length
    modifies arr
    ensures arr[..] == Swap(old(arr[..]), i, j)
  {
    arr[i], arr[j] := arr[j], arr[i];
  }

  /** What `drawCards` returns. */
  datatype Draw = Draw(drawn: seq<Card>, rest: seq<Card>)

  /** `drawCards`: the first `n` cards and the rest (`slice(0, n)`, `slice(n)`). */
  function DrawCards(deck: seq<Card>, n: nat): (r: Draw)
    ensures r.drawn + r.rest == deck
    ensures |r.drawn| == Min(n, |deck|)
  {
    var k := Min(n, |deck|);
    assert deck[..k] + deck[k..] == deck;
    Draw(deck[..k], deck[k..])
  }

  /** `isDeckEmpty`: exactly when a draw would come back empty. */
  function IsDeckEmpty(deck: seq<Card>): (r: bool)
    ensures r <==> DrawCards(deck, 1).drawn == []
  {
    |deck| == 0
  }

  /** What `dealCards` returns. */
  datatype Dealt = Dealt(hands: map<PlayerId, seq<Card>>, rest: seq<Card>)

  /** The deal loop run from `hands` and `rest` over the players still to be served;
      a later player with the same id overwrites an earlier one's hand. */
  function DealFrom(hands: map<PlayerId, seq<Card>>, rest: seq<Card>, ids: seq<PlayerId>, n: nat): Dealt
    decreases |ids|
  {
    if ids == [] then Dealt(hands, rest)
    else
      var d := DrawCards(rest, n);
      DealFrom(hands[ids[0] := d.drawn], d.rest, ids[1..], n)
  }

  /** The hands of `ids`, concatenated in seating order. */
  function HandsInOrder(hands: map<PlayerId, seq<Card>>, ids: seq<PlayerId>): seq<Card>
    decreases |ids|
  {
    if ids == [] then [] else HandOf(hands, ids[0]) + HandsInOrder(hands, ids[1..])
  }

  lemma {:induction false} DealKeys(hands: map<PlayerId, seq<Card>>, rest: seq<Card>, ids: seq<PlayerId>, n: nat)
    ensures DealFrom(hands, rest, ids, n).hands.Keys == hands.Keys + set p | p in ids
    decreases |ids|
  {
    if ids != [] {
      var d := DrawCards(rest, n);
      DealKeys(hands[ids[0] := d.drawn], d.rest, ids[1..], n);
      assert (set p | p in ids) == {ids[0]} + set p | p in ids[1..];
    }
  }

  /** A player not served in the rest of the loop keeps the hand it has. */
  lemma {:induction false} DealKeepsOthers(hands: map<PlayerId, seq<Card>>, rest: seq<Card>, ids: seq<PlayerId>, n: nat, p: PlayerId)
    requires p in hands && p !in ids
    ensures p in DealFrom(hands, rest, ids, n).hands
    ensures DealFrom(hands, rest, ids, n).hands[p] == hands[p]
    decreases |ids|
  {
    if ids != [] {
      var d := DrawCards(rest, n);
      assert p != ids[0];
      DealKeepsOthers(hands[ids[0] := d.drawn], d.rest, ids[1..], n, p);
    }
  }

  /** The deal loop serves the first id, then goes on with the others. */
  lemma DealStep(hands: map<PlayerId, seq<Card>>, rest: seq<Card>, ids: seq<PlayerId>, n: nat)
    requires ids != []
    ensures DealFrom(hands, rest, ids, n) ==
      DealFrom(hands[ids[0] := DrawCards(rest, n).drawn], DrawCards(rest, n).rest, ids[1..], n)
  {
  }

  lemma HandsInOrderStep(hands: map<PlayerId, seq<Card>>, ids: seq<PlayerId>)
    requires ids != []
    ensures HandsInOrder(hands, ids) == HandOf(hands, ids[0]) + HandsInOrder(hands, ids[1..])
  {
  }

  /** With distinct ids, the hands in seating order followed by the rest are the deck. */
  lemma {:induction false} DealSplits(hands: map<PlayerId, seq<Card>>, rest: seq<Card>, ids: seq<PlayerId>, n: nat)
    requires NoDup(ids)
    ensures HandsInOrder(DealFrom(hands, rest, ids, n).hands, ids) + DealFrom(hands, rest, ids, n).rest == rest
    decreases |ids|
  {
    if ids != [] {
      var d := DrawCards(rest, n);
      var h' := hands[ids[0] := d.drawn];
      var r := DealFrom(h', d.rest, ids[1..], n);
      assert DealFrom(hands, rest, ids, n) == r by {
        DealStep(hands, rest, ids, n);
      }
      assert HandOf(r.hands, ids[0]) == d.drawn by {
        NoDupTail(ids);
        DealKeepsOthers(h', d.rest, ids[1..], n, ids[0]);
      }
      assert HandsInOrder(r.hands, ids[1..]) + r.rest == d.rest by {
        NoDupTail(ids);
        DealSplits(h', d.rest, ids[1..], n);
      }
      HandsInOrderStep(r.hands, ids);
      AppendAssoc(HandOf(r.hands, ids[0]), HandsInOrder(r.hands, ids[1..]), r.rest);
    }
  }

  /** Enough cards for everyone: every player served gets exactly `n` of them. */
  lemma {:induction false} DealFull(hands: map<PlayerId, seq<Card>>, rest: seq<Card>, ids: seq<PlayerId>, n: nat)
    requires |rest| >= |ids| * n
    ensures forall p :: p in ids ==> p in DealFrom(hands, rest, ids, n).hands && |DealFrom(hands, rest, ids, n).hands[p]| == n
    decreases |ids|
  {
    if ids != [] {
      var d := DrawCards(rest, n);
      var h' := hands[ids[0] := d.drawn];
      assert |ids| * n == n + |ids[1..]| * n;
      DealFull(h', d.rest, ids[1..], n);
      if ids[0] !in ids[1..] {
        DealKeepsOthers(h', d.rest, ids[1..], n, ids[0]);
      }
      forall p | p in ids ensures p in DealFrom(hands, rest, ids, n).hands && |DealFrom(hands, rest, ids, n).hands[p]| == n {
        if p != ids[0] {
          assert p in ids[1..];
        }
      }
    }
  }

  /** No hand is ever longer than `n`. */
  lemma {:induction false} DealAtMost(hands: map<PlayerId, seq<Card>>, rest: seq<Card>, ids: seq<PlayerId>, n: nat)
    requires forall p :: p in hands ==> |hands[p]| <= n
    ensures forall p :: p in DealFrom(hands, rest, ids, n).hands ==> |DealFrom(hands, rest, ids, n).hands[p]| <= n
    decreases |ids|
  {
    if ids != [] {
      var d := DrawCards(rest, n);
      DealAtMost(hands[ids[0] := d.drawn], d.rest, ids[1..], n);
    }
  }

  /** With distinct ids and enough cards, player `k` gets the `k`-th slice of `n` cards. */
  lemma {:induction false} DealSlices(hands: map<PlayerId, seq<Card>>, rest: seq<Card>, ids: seq<PlayerId>, n: nat, k: nat)
    requires NoDup(ids) && |rest| >= |ids| * n && k < |ids|
    ensures Start(k, n) + n <= |rest|
    ensures ids[k] in DealFrom(hands, rest, ids, n).hands
    ensures DealFrom(hands, rest, ids, n).hands[ids[k]] == rest[Start(k, n) .. Start(k, n) + n]
    decreases |ids|
  {
    var d := DrawCards(rest, n);
    var h' := hands[ids[0] := d.drawn];
    MulSucc(|ids| - 1, n);
    NoDupTail(ids);
    assert DealFrom(hands, rest, ids, n) == DealFrom(h', d.rest, ids[1..], n) by {
      DealStep(hands, rest, ids, n);
    }
    assert d.drawn == rest[..n] && d.rest == rest[n..];
    var later := DealFrom(h', d.rest, ids[1..], n);
    if k == 0 {
      assert ids[0] in later.hands && later.hands[ids[0]] == d.drawn by {
        DealKeepsOthers(h', d.rest, ids[1..], n, ids[0]);
      }
      assert Start(k, n) == 0;
    } else {
      MulSucc(k - 1, n);
      var o := Start(k - 1, n);
      assert Start(k, n) == n + o;
      assert ids[k] in later.hands && later.hands[ids[k]] == d.rest[o .. o + n] by {
        DealSlices(h', d.rest, ids[1..], n, k - 1);
        assert ids[1..][k - 1] == ids[k];
      }
      assert d.rest[o .. o + n] == rest[Start(k, n) .. Start(k, n) + n];
    }
  }

  /** Where the `k`-th of a run of `n`-card slices starts. */
  function Start(k: nat, n: nat): nat {
    k * n
  }

  lemma AppendAssoc(a: seq<Card>, b: seq<Card>, c: seq<Card>)
    ensures (a + b) + c == a + (b + c)
  {
  }

  lemma MulSucc(a: nat, n: nat)
    ensures (a + 1) * n == n + a * n
    ensures a * n >= 0
  {
  }

  /** What the deal leaves, from no hands: one hand per id, none longer than `n`, all of
      length `n` when the deck suffices, and with distinct ids the hands in seating order
      followed by the rest are the deck, player `k` holding the `k`-th slice. */
  lemma DealResult(deck: seq<Card>, ids: seq<PlayerId>, n: nat)
    ensures DealFrom(map[], deck, ids, n).hands.Keys == set p | p in ids
    ensures forall p :: p in DealFrom(map[], deck, ids, n).hands ==> |DealFrom(map[], deck, ids, n).hands[p]| <= n
    ensures |deck| >= |ids| * n ==> forall p :: p in DealFrom(map[], deck, ids, n).hands ==> |DealFrom(map[], deck, ids, n).hands[p]| == n
    ensures NoDup(ids) ==> HandsInOrder(DealFrom(map[], deck, ids, n).hands, ids) + DealFrom(map[], deck, ids, n).rest == deck
    ensures NoDup(ids) && |deck| >= |ids| * n ==>
              forall k :: 0 <= k < |ids| ==>
                Start(k, n) + n <= |deck| && ids[k] in DealFrom(map[], deck, ids, n).hands &&
                DealFrom(map[], deck, ids, n).hands[ids[k]] == deck[Start(k, n) .. Start(k, n) + n]
  {
    var d := DealFrom(map[], deck, ids, n);
    DealKeys(map[], deck, ids, n);
    DealAtMost(map[], deck, ids, n);
    if |deck| >= |ids| * n {
      DealFull(map[], deck, ids, n);
    }
    if NoDup(ids) {
      DealSplits(map[], deck, ids, n);
      if |deck| >= |ids| * n {
        forall k | 0 <= k < |ids|
          ensures Start(k, n) + n <= |deck| && ids[k] in d.hands && d.hands[ids[k]] == deck[Start(k, n) .. Start(k, n) + n]
        {
          DealSlices(map[], deck, ids, n, k);
        }
      }
    }
  }

  /** `dealCards`: each player in turn draws `cardsPerPlayer` cards from what is left. */
  method DealCards(deck: seq<Card>, players: seq<Player>, cardsPerPlayer: nat) returns (hands: map<PlayerId, seq<Card>>, rest: seq<Card>)
    ensures Dealt(hands, rest) == DealFrom(map[], deck, Ids(players), cardsPerPlayer)
    ensures hands.Keys == set p | p in Ids(players)
    ensures forall p :: p in hands ==> |hands[p]| <= cardsPerPlayer
    ensures |deck| >= |players| * cardsPerPlayer ==> forall p :: p in hands ==> |hands[p]| == cardsPerPlayer
    ensures NoDup(Ids(players)) ==> HandsInOrder(hands, Ids(players)) + rest == deck
    ensures NoDup(Ids(players)) && |deck| >= |players| * cardsPerPlayer ==>
              forall k :: 0 <= k < |players| ==>
                Start(k, cardsPerPlayer) + cardsPerPlayer <= |deck| && players[k].id in hands &&
                hands[players[k].id] == deck[Start(k, cardsPerPlayer) .. Start(k, cardsPerPlayer) + cardsPerPlayer]
  {
    var ids := Ids(players);
    hands, rest := map[], deck;
    for i := 0 to |players|
      invariant DealFrom(hands, rest, ids[i..], cardsPerPlayer) == DealFrom(map[], deck, ids, cardsPerPlayer)
    {
      var d := DrawCards(rest, cardsPerPlayer);
      assert ids[i..][1..] == ids[i + 1..];
      hands := hands[players[i].id := d.drawn];
      rest := d.rest;
    }
    assert ids[|players|..] == [];
    DealResult(deck, ids, cardsPerPlayer);
  }
}
