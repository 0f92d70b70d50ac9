/** Hands, rank groups and completed sets (`transferCards`, `getCardsByRank`,
    `checkForCompletedSets` / `getCompletedSets`, `removeSetFromHand`,
    `checkAndHandleCompletedSets`, `areAllHandsEmpty`). */
module Hands {
  import opened Common
  import opened Cards

  // ---------------------------------------------------------------------------
  // Ranks within a hand

  function RankIs(r: Rank): Card -> bool {
    (c: Card) => c.rank == r
  }

  function RankIsNot(r: Rank): Card -> bool {
    (c: Card) => c.rank != r
  }

  /** `getCardsByRank`: the cards of rank `r`, in hand order. */
  function CardsOfRank(hand: seq<Card>, r: Rank): seq<Card> {
    Filter(hand, RankIs(r))
  }

  lemma CardsOfRankMembers(hand: seq<Card>, r: Rank)
    ensures forall c :: c in CardsOfRank(hand, r) <==> c in hand && c.rank == r
  {
    FilterMembers(hand, RankIs(r));
  }

  /** Every card of rank `r` is kept with its multiplicity, and no other card. */
  lemma CardsOfRankMultiset(hand: seq<Card>, r: Rank)
    ensures forall c: Card :: multiset(CardsOfRank(hand, r))[c] == if c.rank == r then multiset(hand)[c] else 0
  {
    FilterMultiset(hand, RankIs(r));
  }

  /** How many cards of rank `r` the hand holds. */
  function Count(hand: seq<Card>, r: Rank): nat {
    |CardsOfRank(hand, r)|
  }

  /** `removeSetFromHand`: the hand without any card of rank `r`. */
  function RemoveSetFromHand(hand: seq<Card>, r: Rank): seq<Card> {
    Filter(hand, RankIsNot(r))
  }

  lemma RemoveSetMembers(hand: seq<Card>, r: Rank)
    ensures forall c :: c in RemoveSetFromHand(hand, r) <==> c in hand && c.rank != r
  {
    FilterMembers(hand, RankIsNot(r));
  }

  /** Removing the rank and taking its cards split the hand. */
  lemma RemoveSetSplits(hand: seq<Card>, r: Rank)
    ensures multiset(RemoveSetFromHand(hand, r)) + multiset(CardsOfRank(hand, r)) == multiset(hand)
    ensures forall c: Card :: c.rank != r ==> multiset(RemoveSetFromHand(hand, r))[c] == multiset(hand)[c]
  {
    FilterMultiset(hand, RankIsNot(r));
    CardsOfRankMultiset(hand, r);
    var rest := RemoveSetFromHand(hand, r);
    forall c ensures (multiset(rest) + multiset(CardsOfRank(hand, r)))[c] == multiset(hand)[c] {
    }
  }

  lemma {:induction false} CountAppend(a: seq<Card>, b: seq<Card>, r: Rank)
    ensures Count(a + b, r) == Count(a, r) + Count(b, r)
  {
    FilterAppend(a, b, RankIs(r));
  }

  /** Counting is a function of the multiset of cards alone. */
  lemma SameCountsFromMultiset(a: seq<Card>, b: seq<Card>, r: Rank)
    requires forall c: Card :: c.rank == r ==> multiset(a)[c] == multiset(b)[c]
    ensures Count(a, r) == Count(b, r)
  {
    CardsOfRankMultiset(a, r);
    CardsOfRankMultiset(b, r);
    assert multiset(CardsOfRank(a, r)) == multiset(CardsOfRank(b, r));
    assert |multiset(CardsOfRank(a, r))| == Count(a, r);
    assert |multiset(CardsOfRank(b, r))| == Count(b, r);
  }

  lemma CountOfRemoved(hand: seq<Card>, r: Rank, x: Rank)
    ensures Count(RemoveSetFromHand(hand, r), x) == if x == r then 0 else Count(hand, x)
  {
    if x == r {
      var rest := RemoveSetFromHand(hand, r);
      CardsOfRankMultiset(rest, r);
      RemoveSetMembers(hand, r);
      assert multiset(CardsOfRank(rest, r)) == multiset{} by {
        forall c: Card ensures multiset(CardsOfRank(rest, r))[c] == 0 {
          if c.rank == r {
            assert c !in rest;
          }
        }
      }
      assert |multiset(CardsOfRank(rest, r))| == Count(rest, r);
    } else {
      RemoveSetSplits(hand, r);
      SameCountsFromMultiset(RemoveSetFromHand(hand, r), hand, x);
    }
  }

  /** Two different ranks together fit in the hand. */
  lemma TwoRanksFit(hand: seq<Card>, r1: Rank, r2: Rank)
    requires r1 != r2
    ensures Count(hand, r1) + Count(hand, r2) <= |hand|
  {
    FilterDisjointLengths(hand, RankIs(r1), RankIs(r2));
  }

  // ---------------------------------------------------------------------------
  // Completed sets, in the order a JavaScript object enumerates its rank keys

  function RanksOf(hand: seq<Card>): (rs: seq<Rank>)
    ensures |rs| == |hand| && forall i :: 0 <= i < |hand| ==> rs[i] == hand[i].rank
  {
    seq(|hand|, i requires 0 <= i < |hand| => hand[i].rank)
  }

  /** The distinct ranks of `rs` in order of first occurrence (insertion order of string keys). */
  function FirstSeen(rs: seq<Rank>): seq<Rank>
    decreases |rs|
  {
    if rs == [] then []
    else
      var last := rs[|rs| - 1];
      var keys := FirstSeen(rs[..|rs| - 1]);
      if last in keys then keys else keys + [last]
  }

  lemma {:induction false} FirstSeenSpec(rs: seq<Rank>)
    ensures NoDup(FirstSeen(rs))
    ensures forall r :: r in FirstSeen(rs) <==> r in rs
    decreases |rs|
  {
    if rs != [] {
      var init, last := rs[..|rs| - 1], rs[|rs| - 1];
      assert rs == init + [last];
      FirstSeenSpec(init);
      var keys := FirstSeen(init);
      if last !in keys {
        AppendNoDup(keys, [last]);
      }
    }
  }

  function IsNamedKey(): Rank -> bool {
    r => !IsNumericKey(r)
  }

  lemma InHandIffCount(hand: seq<Card>, r: Rank)
    ensures r in RanksOf(hand) <==> Count(hand, r) > 0
  {
    CardsOfRankMembers(hand, r);
    if r in RanksOf(hand) {
      var i :| 0 <= i < |hand| && RanksOf(hand)[i] == r;
      assert hand[i] in CardsOfRank(hand, r);
    }
    if Count(hand, r) > 0 {
      var c := CardsOfRank(hand, r)[0];
      assert c in hand;
      var i :| 0 <= i < |hand| && hand[i] == c;
      assert RanksOf(hand)[i] == r;
    }
  }

  /** The integer-like rank keys the hand holds, ascending from `RANKS[i]` up to `'10'`. */
  function NumericKeys(hand: seq<Card>, i: nat): seq<Rank>
    decreases |hand| + 10 - i
  {
    if i >= 10 then [] else (if RANKS[i] in RanksOf(hand) then [RANKS[i]] else []) + NumericKeys(hand, i + 1)
  }

  lemma {:induction false} NumericKeysSpec(hand: seq<Card>, i: nat)
    ensures NoDup(NumericKeys(hand, i))
    ensures forall r :: r in NumericKeys(hand, i) <==> i <= RankIndex(r) < 10 && r in RanksOf(hand)
    decreases |hand| + 10 - i
  {
    if i < 10 {
      var tail := NumericKeys(hand, i + 1);
      NumericKeysSpec(hand, i + 1);
      RankIndexInverse(i);
      var head := if RANKS[i] in RanksOf(hand) then [RANKS[i]] else [];
      assert NumericKeys(hand, i) == head + tail;
      AppendNoDup(head, tail);
      forall r ensures r in head + tail <==> i <= RankIndex(r) < 10 && r in RanksOf(hand) {
        assert r == RANKS[i] <==> RankIndex(r) == i;
      }
    }
  }

  lemma {:induction false} AppendNoDup<T>(a: seq<T>, b: seq<T>)
    requires NoDup(a) && NoDup(b)
    requires forall x :: x in a ==> x !in b
    ensures NoDup(a + b)
  {
    var keys := a + b;
    forall i, j | 0 <= i < j < |keys| ensures keys[i] != keys[j] {
      if j < |a| {
        assert keys[i] == a[i] && keys[j] == a[j];
      } else if i >= |a| {
        assert keys[i] == b[i - |a|] && keys[j] == b[j - |a|];
      } else {
        assert keys[i] == a[i] && keys[j] == b[j - |a|];
        assert keys[i] in a && keys[j] in b;
      }
    }
  }

  /** The order of `for (const rank in rankGroups)` and `Object.entries(rankCounts)`:
      integer-like keys `'2'` … `'10'` ascending, then `'A' 'J' 'Q' 'K'` in order of first appearance. */
  function KeyOrder(hand: seq<Card>): seq<Rank> {
    NumericKeys(hand, 1) + Filter(FirstSeen(RanksOf(hand)), IsNamedKey())
  }

  /** Each rank in the hand is enumerated exactly once. */
  lemma KeyOrderSpec(hand: seq<Card>)
    ensures NoDup(KeyOrder(hand))
    ensures forall r :: r in KeyOrder(hand) <==> r in RanksOf(hand)
  {
    var numeric := NumericKeys(hand, 1);
    var named := Filter(FirstSeen(RanksOf(hand)), IsNamedKey());
    NumericKeysSpec(hand, 1);
    FirstSeenSpec(RanksOf(hand));
    FilterNoDup(FirstSeen(RanksOf(hand)), IsNamedKey());
    FilterMembers(FirstSeen(RanksOf(hand)), IsNamedKey());
    forall r ensures r in numeric + named <==> r in RanksOf(hand) {
      NumericByIndex(r);
      assert IsNamedKey()(r) == !IsNumericKey(r);
    }
    forall r | r in numeric ensures r !in named {
      NumericByIndex(r);
    }
    AppendNoDup(numeric, named);
  }

  /** `checkForCompletedSets` (and its twin `getCompletedSets`): every rank held exactly
      four times, each once, in key-enumeration order. */
  function CompletedRanks(hand: seq<Card>): seq<Rank> {
    CompleteAmong(hand, KeyOrder(hand))
  }

  /** The ranks among `keys` held exactly four times, in the order of `keys`. */
  function CompleteAmong(hand: seq<Card>, keys: seq<Rank>): seq<Rank>
    decreases |keys|
  {
    if keys == [] then []
    else
      var last := keys[|keys| - 1];
      CompleteAmong(hand, keys[..|keys| - 1]) + if Count(hand, last) == 4 then [last] else []
  }

  lemma CompleteAmongSnoc(hand: seq<Card>, keys: seq<Rank>, j: nat)
    requires j < |keys|
    ensures CompleteAmong(hand, keys[..j + 1]) == CompleteAmong(hand, keys[..j]) + if Count(hand, keys[j]) == 4 then [keys[j]] else []
  {
    assert keys[..j + 1][..j] == keys[..j];
  }

  lemma {:induction false} CompleteAmongSpec(hand: seq<Card>, keys: seq<Rank>)
    requires NoDup(keys)
    ensures NoDup(CompleteAmong(hand, keys))
    ensures forall r :: r in CompleteAmong(hand, keys) <==> r in keys && Count(hand, r) == 4
    decreases |keys|
  {
    if keys != [] {
      var init, last := keys[..|keys| - 1], keys[|keys| - 1];
      assert keys == init + [last];
      assert NoDup(init) by {
        forall i, j | 0 <= i < j < |init| ensures init[i] != init[j] {
          assert init[i] == keys[i] && init[j] == keys[j];
        }
      }
      forall k | 0 <= k < |init| ensures init[k] != last {
        assert init[k] == keys[k];
      }
      CompleteAmongSpec(hand, init);
      var found := CompleteAmong(hand, init);
      AppendNoDup(found, if Count(hand, last) == 4 then [last] else []);
    }
  }

  /** Exactly the ranks held four times are reported, each once. */
  lemma CompletedRanksSpec(hand: seq<Card>)
    ensures NoDup(CompletedRanks(hand))
    ensures forall r :: r in CompletedRanks(hand) <==> Count(hand, r) == 4
  {
    KeyOrderSpec(hand);
    CompleteAmongSpec(hand, KeyOrder(hand));
    forall r ensures r in CompletedRanks(hand) <==> Count(hand, r) == 4 {
      InHandIffCount(hand, r);
    }
  }

  /** No rank is held exactly four times. */
  predicate NoCompleteRank(hand: seq<Card>) {
    forall r :: Count(hand, r) != 4
  }

  lemma NoCompleteRankIffNone(hand: seq<Card>)
    ensures NoCompleteRank(hand) <==> CompletedRanks(hand) == []
  {
    CompletedRanksSpec(hand);
    if CompletedRanks(hand) != [] {
      assert CompletedRanks(hand)[0] in CompletedRanks(hand);
    }
  }

  /** A stockpile entry: four cards of one rank. */
  predicate IsBook(g: seq<Card>) {
    |g| == 4 && forall c :: c in g ==> c.rank == g[0].rank
  }

  // ---------------------------------------------------------------------------
  // Extracting completed sets into stockpiles

  /** The groups `rankGroups[rank]` for the ranks `rs`, in that order. */
  function GroupsOf(hand: seq<Card>, rs: seq<Rank>): seq<seq<Card>>
    decreases |rs|
  {
    if rs == [] then [] else GroupsOf(hand, rs[..|rs| - 1]) + [CardsOfRank(hand, rs[|rs| - 1])]
  }

  lemma {:induction false} GroupsOfSpec(hand: seq<Card>, rs: seq<Rank>)
    ensures |GroupsOf(hand, rs)| == |rs|
    ensures forall i :: 0 <= i < |rs| ==> GroupsOf(hand, rs)[i] == CardsOfRank(hand, rs[i])
    decreases |rs|
  {
    if rs != [] {
      GroupsOfSpec(hand, rs[..|rs| - 1]);
    }
  }

  /** The groups one pass appends to the stockpile. */
  function CompletedGroups(hand: seq<Card>): seq<seq<Card>> {
    GroupsOf(hand, CompletedRanks(hand))
  }

  /** The hand left once the ranks `done` were found complete: each completed rank
      re-filters the ORIGINAL hand, so only the rank found last actually leaves it. */
  function HandAfter(hand: seq<Card>, done: seq<Rank>): seq<Card> {
    if done == [] then hand else RemoveSetFromHand(hand, done[|done| - 1])
  }

  /** The hand a pass of `checkAndHandleCompletedSets` leaves. */
  function HandAfterSets(hand: seq<Card>): seq<Card> {
    HandAfter(hand, CompletedRanks(hand))
  }

  /** `(playerScores[id] || 0)` */
  function ScoreOf(scores: map<PlayerId, int>, p: PlayerId): int {
    if p in scores then scores[p] else 0
  }

  /** `playerStockpiles[id]`, created empty when missing. */
  function StockOf(stockpiles: map<PlayerId, seq<seq<Card>>>, p: PlayerId): seq<seq<Card>> {
    if p in stockpiles then stockpiles[p] else []
  }

  /** The three per-player records `checkAndHandleCompletedSets` reads and returns. */
  datatype Books = Books(hands: map<PlayerId, seq<Card>>, scores: map<PlayerId, int>, stockpiles: map<PlayerId, seq<seq<Card>>>)

  /** The completed ranks of every player's hand. */
  function CompletedByPlayer(hands: map<PlayerId, seq<Card>>): (done: map<PlayerId, seq<Rank>>)
    ensures done.Keys == hands.Keys
  {
    map p | p in hands :: CompletedRanks(hands[p])
  }

  /** The players with at least one completed rank. */
  function Completing(done: map<PlayerId, seq<Rank>>): set<PlayerId> {
    set p | p in done && done[p] != []
  }

  /** Moving the groups `done[p]` of every player `p` to the stockpile and scoring them. */
  function ApplySets(b: Books, done: map<PlayerId, seq<Rank>>): Books
    requires done.Keys == b.hands.Keys
  {
    var completing := Completing(done);
    Books(
      map p | p in b.hands :: HandAfter(b.hands[p], done[p]),
      map p | p in b.scores.Keys + completing ::
        if p in completing then ScoreOf(b.scores, p) + |done[p]| else b.scores[p],
      map p | p in b.stockpiles.Keys + completing ::
        if p in completing then StockOf(b.stockpiles, p) + GroupsOf(b.hands[p], done[p]) else b.stockpiles[p])
  }

  /** What `checkAndHandleCompletedSets` returns. */
  function ExtractSets(b: Books): Books {
    ApplySets(b, CompletedByPlayer(b.hands))
  }

  lemma CardsOfRankSnoc(s: seq<Card>, c: Card, r: Rank)
    ensures CardsOfRank(s + [c], r) == CardsOfRank(s, r) + (if c.rank == r then [c] else [])
  {
    FilterAppend(s, [c], RankIs(r));
    assert [c][1..] == [];
  }

  /** `rankGroups`: the hand's cards grouped by rank (lines 97-103). */
  method GroupByRank(hand: seq<Card>) returns (groups: map<Rank, seq<Card>>)
    ensures forall r :: r in groups <==> r in RanksOf(hand)
    ensures forall r :: r in groups ==> groups[r] == CardsOfRank(hand, r)
  {
    groups := map[];
    for i := 0 to |hand|
      invariant forall r :: r in groups <==> CardsOfRank(hand[..i], r) != []
      invariant forall r :: r in groups ==> groups[r] == CardsOfRank(hand[..i], r)
    {
      var c := hand[i];
      assert hand[..i + 1] == hand[..i] + [c];
      forall r ensures CardsOfRank(hand[..i + 1], r) == CardsOfRank(hand[..i], r) + (if c.rank == r then [c] else []) {
        CardsOfRankSnoc(hand[..i], c, r);
      }
      if c.rank !in groups {
        groups := groups[c.rank := []];
      }
      groups := groups[c.rank := groups[c.rank] + [c]];
    }
    assert hand[..|hand|] == hand;
    forall r ensures r in RanksOf(hand) <==> CardsOfRank(hand, r) != [] {
      InHandIffCount(hand, r);
    }
  }

  /** The effect of the rank loop of lines 106-118 on player `p`, once the ranks `rs` of
      `hand` have been found complete. */
  function AfterRanks(b: Books, p: PlayerId, hand: seq<Card>, rs: seq<Rank>): Books {
    if rs == [] then b else Update(b, p, HandAfter(hand, rs), |rs|, GroupsOf(hand, rs))
  }

  /** Player `p` is left holding `rest`, scores `gained` points and stockpiles `groups`. */
  function Update(b: Books, p: PlayerId, rest: seq<Card>, gained: nat, groups: seq<seq<Card>>): Books {
    Books(b.hands[p := rest], b.scores[p := ScoreOf(b.scores, p) + gained], b.stockpiles[p := StockOf(b.stockpiles, p) + groups])
  }

  /** One more complete rank extends the effect by that rank's group. */
  lemma GroupsOfSnoc(hand: seq<Card>, rs: seq<Rank>, r: Rank)
    ensures GroupsOf(hand, rs + [r]) == GroupsOf(hand, rs) + [CardsOfRank(hand, r)]
  {
    var rs' := rs + [r];
    assert rs'[|rs'| - 1] == r && rs'[..|rs'| - 1] == rs;
  }

  /** One completed group `rank` moved out of `hand` into `p`'s stockpile. */
  function PushGroup(cur: Books, p: PlayerId, hand: seq<Card>, rank: Rank): Books {
    Books(cur.hands[p := RemoveSetFromHand(hand, rank)],
          cur.scores[p := ScoreOf(cur.scores, p) + 1],
          cur.stockpiles[p := StockOf(cur.stockpiles, p) + [CardsOfRank(hand, rank)]])
  }

  /** A second update of the same key replaces the first. */
  lemma UpdateTwice<V>(m: map<PlayerId, V>, p: PlayerId, x: V, y: V)
    ensures m[p := x][p := y] == m[p := y]
  {
  }

  lemma AfterRanksHands(b: Books, p: PlayerId, hand: seq<Card>, rs: seq<Rank>, r: Rank)
    ensures AfterRanks(b, p, hand, rs + [r]).hands == PushGroup(AfterRanks(b, p, hand, rs), p, hand, r).hands
  {
    var rs' := rs + [r];
    assert HandAfter(hand, rs') == RemoveSetFromHand(hand, r) by {
      assert rs'[|rs'| - 1] == r;
    }
    if rs != [] {
      UpdateTwice(b.hands, p, HandAfter(hand, rs), RemoveSetFromHand(hand, r));
    }
  }

  lemma AfterRanksScores(b: Books, p: PlayerId, hand: seq<Card>, rs: seq<Rank>, r: Rank)
    ensures AfterRanks(b, p, hand, rs + [r]).scores == PushGroup(AfterRanks(b, p, hand, rs), p, hand, r).scores
  {
    if rs != [] {
      var s := ScoreOf(b.scores, p);
      assert ScoreOf(b.scores[p := s + |rs|], p) == s + |rs|;
      UpdateTwice(b.scores, p, s + |rs|, s + |rs| + 1);
    }
  }

  lemma AfterRanksStockpiles(b: Books, p: PlayerId, hand: seq<Card>, rs: seq<Rank>, r: Rank)
    ensures AfterRanks(b, p, hand, rs + [r]).stockpiles == PushGroup(AfterRanks(b, p, hand, rs), p, hand, r).stockpiles
  {
    var g := CardsOfRank(hand, r);
    assert GroupsOf(hand, rs + [r]) == GroupsOf(hand, rs) + [g] by {
      GroupsOfSnoc(hand, rs, r);
    }
    var st := StockOf(b.stockpiles, p);
    if rs == [] {
      assert GroupsOf(hand, rs) == [];
      assert st + GroupsOf(hand, rs + [r]) == st + [g];
    } else {
      var gs := GroupsOf(hand, rs);
      assert StockOf(b.stockpiles[p := st + gs], p) == st + gs;
      assert (st + gs) + [g] == st + (gs + [g]);
      UpdateTwice(b.stockpiles, p, st + gs, st + (gs + [g]));
    }
  }

  /** One more completed rank pushes one more group. */
  lemma AfterRanksSnoc(b: Books, p: PlayerId, hand: seq<Card>, rs: seq<Rank>, r: Rank)
    ensures AfterRanks(b, p, hand, rs + [r]) == PushGroup(AfterRanks(b, p, hand, rs), p, hand, r)
  {
    AfterRanksHands(b, p, hand, rs, r);
    AfterRanksScores(b, p, hand, rs, r);
    AfterRanksStockpiles(b, p, hand, rs, r);
  }

  /** Lines 109-116 for one rank held four times: the group joins `p`'s stockpile (created
      empty when missing), the rank is filtered out of `hand` and `p` scores a point. */
  method PushCompleteGroup(cur: Books, p: PlayerId, hand: seq<Card>, rank: Rank, group: seq<Card>) returns (next: Books)
    requires group == CardsOfRank(hand, rank)
    ensures next == PushGroup(cur, p, hand, rank)
  {
    var hands, scores, stockpiles := cur.hands, cur.scores, cur.stockpiles;
    if p !in stockpiles {
      stockpiles := stockpiles[p := []];
    }
    stockpiles := stockpiles[p := stockpiles[p] + [group]];
    hands := hands[p := RemoveSetFromHand(hand, rank)];
    scores := scores[p := ScoreOf(scores, p) + 1];
    next := Books(hands, scores, stockpiles);
  }

  /** The loop of lines 106-118 for player `p` over the rank keys `keys`: every group of
      exactly four cards goes to the stockpile, scores a point and is filtered out of the hand. */
  method MoveCompleteGroups(b: Books, p: PlayerId, rankGroups: map<Rank, seq<Card>>, keys: seq<Rank>) returns (r: Books)
    requires p in b.hands
    requires forall rank :: rank in keys ==> rank in rankGroups && rankGroups[rank] == CardsOfRank(b.hands[p], rank)
    ensures r == AfterRanks(b, p, b.hands[p], CompleteAmong(b.hands[p], keys))
  {
    var hand := b.hands[p];
    r := b;
    ghost var found: seq<Rank> := [];
    for j := 0 to |keys|
      invariant found == CompleteAmong(hand, keys[..j])
      invariant r == AfterRanks(b, p, hand, found)
    {
      var rank := keys[j];
      CompleteAmongSnoc(hand, keys, j);
      assert rank in keys;
      if |rankGroups[rank]| == 4 {
        AfterRanksSnoc(b, p, hand, found, rank);
        r := PushCompleteGroup(r, p, hand, rank, rankGroups[rank]);
        found := found + [rank];
      }
    }
    assert keys[..|keys|] == keys;
  }

  /** Lines 95-118 for player `p`: group the hand by rank, then visit the rank keys in
      the order the engine enumerates them. */
  method CompleteSetsOf(b: Books, p: PlayerId) returns (r: Books)
    requires p in b.hands
    ensures r == AfterRanks(b, p, b.hands[p], CompletedRanks(b.hands[p]))
  {
    var hand := b.hands[p];
    var rankGroups := GroupByRank(hand);
    var keys := KeyOrder(hand);
    KeyOrderSpec(hand);
    r := MoveCompleteGroups(b, p, rankGroups, keys);
  }

  /** `want` is `base` with the entries of the players in `comp` set or replaced. */
  ghost predicate MapFrame<V>(base: map<PlayerId, V>, want: map<PlayerId, V>, comp: set<PlayerId>) {
    && want.Keys == base.Keys + comp
    && forall q :: q in want && q !in comp ==> want[q] == base[q]
  }

  /** `cur` agrees with `base` on the players still in `todo` and with `want` on the others. */
  ghost predicate MapPartial<V>(base: map<PlayerId, V>, want: map<PlayerId, V>, comp: set<PlayerId>, cur: map<PlayerId, V>, todo: set<PlayerId>)
    requires MapFrame(base, want, comp)
  {
    && cur.Keys == base.Keys + (comp - todo)
    && forall q :: q in cur ==> cur[q] == if q in todo || q !in comp then base[q] else want[q]
  }

  lemma MapPartialStep<V>(base: map<PlayerId, V>, want: map<PlayerId, V>, comp: set<PlayerId>, cur: map<PlayerId, V>, todo: set<PlayerId>, p: PlayerId)
    requires MapFrame(base, want, comp) && MapPartial(base, want, comp, cur, todo) && p in todo && p in comp
    ensures p in want && MapPartial(base, want, comp, cur[p := want[p]], todo - {p})
  {
    assert base.Keys + (comp - (todo - {p})) == (base.Keys + (comp - todo)) + {p};
  }

  lemma MapPartialSkip<V>(base: map<PlayerId, V>, want: map<PlayerId, V>, comp: set<PlayerId>, cur: map<PlayerId, V>, todo: set<PlayerId>, p: PlayerId)
    requires MapFrame(base, want, comp) && MapPartial(base, want, comp, cur, todo) && p in todo && p !in comp
    ensures MapPartial(base, want, comp, cur, todo - {p})
  {
    assert comp - (todo - {p}) == comp - todo;
  }

  lemma MapPartialDone<V>(base: map<PlayerId, V>, want: map<PlayerId, V>, comp: set<PlayerId>, cur: map<PlayerId, V>)
    requires MapFrame(base, want, comp) && MapPartial(base, want, comp, cur, {})
    ensures cur == want
  {
    assert cur.Keys == want.Keys;
  }

  /** `want` differs from `b` only at the players in `comp`. */
  ghost predicate Frame(b: Books, want: Books, comp: set<PlayerId>) {
    && comp <= b.hands.Keys
    && MapFrame(b.hands, want.hands, comp)
    && MapFrame(b.scores, want.scores, comp)
    && MapFrame(b.stockpiles, want.stockpiles, comp)
  }

  lemma ApplySetsFrame(b: Books, done: map<PlayerId, seq<Rank>>)
    requires done.Keys == b.hands.Keys
    ensures Frame(b, ApplySets(b, done), Completing(done))
  {
    var want, comp := ApplySets(b, done), Completing(done);
    assert MapFrame(b.hands, want.hands, comp) by {
      forall q | q in want.hands && q !in comp ensures want.hands[q] == b.hands[q] {
        assert done[q] == [];
      }
    }
  }

  /** `cur` agrees with `b` on the players in `todo` and with `want` on the others. */
  ghost predicate Partial(b: Books, want: Books, comp: set<PlayerId>, cur: Books, todo: set<PlayerId>)
    requires Frame(b, want, comp)
  {
    && todo <= b.hands.Keys
    && MapPartial(b.hands, want.hands, comp, cur.hands, todo)
    && MapPartial(b.scores, want.scores, comp, cur.scores, todo)
    && MapPartial(b.stockpiles, want.stockpiles, comp, cur.stockpiles, todo)
  }

  /** Processing player `p`: only a completing player's records change. */
  ghost function Processed(cur: Books, want: Books, comp: set<PlayerId>, p: PlayerId): Books
    requires p in comp ==> p in want.hands && p in want.scores && p in want.stockpiles
  {
    if p in comp then Books(cur.hands[p := want.hands[p]], cur.scores[p := want.scores[p]], cur.stockpiles[p := want.stockpiles[p]])
    else cur
  }

  lemma PartialStep(b: Books, want: Books, comp: set<PlayerId>, cur: Books, todo: set<PlayerId>, p: PlayerId)
    requires Frame(b, want, comp) && Partial(b, want, comp, cur, todo) && p in todo
    ensures p in comp ==> p in want.hands && p in want.scores && p in want.stockpiles
    ensures Partial(b, want, comp, Processed(cur, want, comp, p), todo - {p})
  {
    if p in comp {
      MapPartialStep(b.hands, want.hands, comp, cur.hands, todo, p);
      MapPartialStep(b.scores, want.scores, comp, cur.scores, todo, p);
      MapPartialStep(b.stockpiles, want.stockpiles, comp, cur.stockpiles, todo, p);
    } else {
      MapPartialSkip(b.hands, want.hands, comp, cur.hands, todo, p);
      MapPartialSkip(b.scores, want.scores, comp, cur.scores, todo, p);
      MapPartialSkip(b.stockpiles, want.stockpiles, comp, cur.stockpiles, todo, p);
    }
  }

  lemma PartialDone(b: Books, want: Books, comp: set<PlayerId>, cur: Books)
    requires Frame(b, want, comp) && Partial(b, want, comp, cur, {})
    ensures cur == want
  {
    MapPartialDone(b.hands, want.hands, comp, cur.hands);
    MapPartialDone(b.scores, want.scores, comp, cur.scores);
    MapPartialDone(b.stockpiles, want.stockpiles, comp, cur.stockpiles);
  }

  /** `want` holds the entries a pass computes for player `p`, and `p` is in `comp`
      exactly when some rank of `p`'s hand is complete. */
  ghost predicate WantsAt(b: Books, want: Books, comp: set<PlayerId>, p: PlayerId) {
    && p in b.hands
    && var done := CompletedRanks(b.hands[p]);
    && p in want.hands && want.hands[p] == HandAfter(b.hands[p], done)
    && (done == [] <==> p !in comp)
    && (done != [] ==> p in want.scores && want.scores[p] == ScoreOf(b.scores, p) + |done|)
    && (done != [] ==> p in want.stockpiles && want.stockpiles[p] == StockOf(b.stockpiles, p) + GroupsOf(b.hands[p], done))
  }

  lemma ExtractSetsAt(b: Books, p: PlayerId)
    requires p in b.hands
    ensures WantsAt(b, ExtractSets(b), Completing(CompletedByPlayer(b.hands)), p)
  {
  }

  lemma ExtractSetsWants(b: Books)
    ensures forall p {:trigger WantsAt(b, ExtractSets(b), Completing(CompletedByPlayer(b.hands)), p)} ::
      p in b.hands ==> WantsAt(b, ExtractSets(b), Completing(CompletedByPlayer(b.hands)), p)
  {
    forall p | p in b.hands ensures WantsAt(b, ExtractSets(b), Completing(CompletedByPlayer(b.hands)), p) {
      ExtractSetsAt(b, p);
    }
  }

  /** A player not yet processed still has the original records. */
  lemma PartialAt(b: Books, want: Books, comp: set<PlayerId>, cur: Books, todo: set<PlayerId>, p: PlayerId)
    requires Frame(b, want, comp) && Partial(b, want, comp, cur, todo) && p in todo
    ensures p in cur.hands && cur.hands[p] == b.hands[p]
    ensures ScoreOf(cur.scores, p) == ScoreOf(b.scores, p)
    ensures StockOf(cur.stockpiles, p) == StockOf(b.stockpiles, p)
  {
  }

  /** Before any player is processed, every player is still to do. */
  lemma PartialStart(b: Books, want: Books, comp: set<PlayerId>)
    requires Frame(b, want, comp)
    ensures Partial(b, want, comp, b, b.hands.Keys)
  {
    assert comp - b.hands.Keys == {};
  }

  /** What `CompleteSetsOf` does to a completing player not yet processed is `Processed`. */
  lemma ProcessedIsUpdate(b: Books, want: Books, comp: set<PlayerId>, cur: Books, p: PlayerId, rest: seq<Card>, gained: nat, groups: seq<seq<Card>>)
    requires p in comp && p in want.hands && want.hands[p] == rest
    requires ScoreOf(cur.scores, p) == ScoreOf(b.scores, p)
    requires StockOf(cur.stockpiles, p) == StockOf(b.stockpiles, p)
    requires p in want.scores && want.scores[p] == ScoreOf(b.scores, p) + gained
    requires p in want.stockpiles && want.stockpiles[p] == StockOf(b.stockpiles, p) + groups
    ensures Update(cur, p, rest, gained, groups) == Processed(cur, want, comp, p)
  {
  }

  /** Processing one more player keeps `Partial`. */
  lemma ExtractStep(b: Books, want: Books, comp: set<PlayerId>, cur: Books, todo: set<PlayerId>, p: PlayerId, next: Books)
    requires Frame(b, want, comp) && Partial(b, want, comp, cur, todo) && p in todo
    requires WantsAt(b, want, comp, p)
    requires p in cur.hands && next == AfterRanks(cur, p, cur.hands[p], CompletedRanks(cur.hands[p]))
    ensures Partial(b, want, comp, next, todo - {p})
  {
    PartialAt(b, want, comp, cur, todo, p);
    var done := CompletedRanks(b.hands[p]);
    if done != [] {
      ProcessedIsUpdate(b, want, comp, cur, p, HandAfter(b.hands[p], done), |done|, GroupsOf(b.hands[p], done));
    }
    PartialStep(b, want, comp, cur, todo, p);
  }

  /** The loop of lines 94-119 over the players, proved against the entries `want` a pass
      computes for each of them. */
  method CompleteAllSets(b: Books, ghost want: Books, ghost comp: set<PlayerId>) returns (r: Books)
    requires Frame(b, want, comp)
    requires forall p {:trigger WantsAt(b, want, comp, p)} :: p in b.hands ==> WantsAt(b, want, comp, p)
    ensures r == want
  {
    PartialStart(b, want, comp);
    r := b;
    var todo := b.hands.Keys;
    while todo != {}
      invariant Partial(b, want, comp, r, todo)
      decreases todo
    {
      var p :| p in todo;
      PartialAt(b, want, comp, r, todo, p);
      var next := CompleteSetsOf(r, p);
      ExtractStep(b, want, comp, r, todo, p, next);
      r := next;
      todo := todo - {p};
    }
    PartialDone(b, want, comp, r);
  }

  /** `checkAndHandleCompletedSets`: for each player, group the hand by rank and move every
      rank held exactly four times to the stockpile, scoring a point for each. */
  method CheckAndHandleCompletedSets(playerHands: map<PlayerId, seq<Card>>, playerScores: map<PlayerId, int>, playerStockpiles: map<PlayerId, seq<seq<Card>>>)
    returns (newHands: map<PlayerId, seq<Card>>, newScores: map<PlayerId, int>, newStockpiles: map<PlayerId, seq<seq<Card>>>)
    ensures Books(newHands, newScores, newStockpiles) == ExtractSets(Books(playerHands, playerScores, playerStockpiles))
  {
    var b := Books(playerHands, playerScores, playerStockpiles);
    ApplySetsFrame(b, CompletedByPlayer(playerHands));
    ExtractSetsWants(b);
    var r := CompleteAllSets(b, ExtractSets(b), Completing(CompletedByPlayer(playerHands)));
    newHands, newScores, newStockpiles := r.hands, r.scores, r.stockpiles;
  }

  // ---------------------------------------------------------------------------
  // What a pass of `checkAndHandleCompletedSets` does to one player

  /** The entries `WantsAt` fixes for player `p`, read through the records' defaults. */
  lemma WantsAtPlayer(b: Books, want: Books, comp: set<PlayerId>, p: PlayerId)
    requires Frame(b, want, comp) && WantsAt(b, want, comp, p)
    ensures p in want.hands && want.hands[p] == HandAfterSets(b.hands[p])
    ensures ScoreOf(want.scores, p) == ScoreOf(b.scores, p) + |CompletedRanks(b.hands[p])|
    ensures StockOf(want.stockpiles, p) == StockOf(b.stockpiles, p) + CompletedGroups(b.hands[p])
    ensures CompletedRanks(b.hands[p]) != [] ==> p in want.scores && p in want.stockpiles
  {
    var done := CompletedRanks(b.hands[p]);
    if done == [] {
      assert p !in comp;
      assert GroupsOf(b.hands[p], done) == [];
      assert StockOf(b.stockpiles, p) + [] == StockOf(b.stockpiles, p);
    }
  }

  /** Player `p`'s hand loses the rank found last, the score rises by the number of
      completed ranks, and their groups are appended to the stockpile in order. */
  lemma ExtractSetsPlayer(b: Books, p: PlayerId)
    requires p in b.hands
    ensures p in ExtractSets(b).hands && ExtractSets(b).hands[p] == HandAfterSets(b.hands[p])
    ensures ScoreOf(ExtractSets(b).scores, p) == ScoreOf(b.scores, p) + |CompletedRanks(b.hands[p])|
    ensures StockOf(ExtractSets(b).stockpiles, p) == StockOf(b.stockpiles, p) + CompletedGroups(b.hands[p])
    ensures CompletedRanks(b.hands[p]) != [] ==> p in ExtractSets(b).scores && p in ExtractSets(b).stockpiles
  {
    var comp := Completing(CompletedByPlayer(b.hands));
    ApplySetsFrame(b, CompletedByPlayer(b.hands));
    ExtractSetsAt(b, p);
    WantsAtPlayer(b, ExtractSets(b), comp, p);
  }

  /** A player without a completed rank keeps hand, score and stockpile entries as they were,
      and the score and stockpile records gain no other player. */
  lemma ExtractSetsOthers(b: Books, p: PlayerId)
    requires p !in b.hands || CompletedRanks(b.hands[p]) == []
    ensures p in b.hands ==> p in ExtractSets(b).hands && ExtractSets(b).hands[p] == b.hands[p]
    ensures p in ExtractSets(b).scores <==> p in b.scores
    ensures p in b.scores ==> ExtractSets(b).scores[p] == b.scores[p]
    ensures p in ExtractSets(b).stockpiles <==> p in b.stockpiles
    ensures p in b.stockpiles ==> ExtractSets(b).stockpiles[p] == b.stockpiles[p]
  {
    var done := CompletedByPlayer(b.hands);
    ApplySetsFrame(b, done);
    assert p !in Completing(done);
  }

  /** The groups of the completed ranks are books of those ranks. */
  lemma CompletedGroupsAreBooks(hand: seq<Card>)
    ensures |CompletedGroups(hand)| == |CompletedRanks(hand)|
    ensures forall i :: 0 <= i < |CompletedRanks(hand)| ==>
      IsBook(CompletedGroups(hand)[i]) && CompletedGroups(hand)[i][0].rank == CompletedRanks(hand)[i]
  {
    var rs := CompletedRanks(hand);
    GroupsOfSpec(hand, rs);
    CompletedRanksSpec(hand);
    forall i | 0 <= i < |rs|
      ensures IsBook(CompletedGroups(hand)[i]) && CompletedGroups(hand)[i][0].rank == rs[i]
    {
      assert rs[i] in rs;
      var g := CardsOfRank(hand, rs[i]);
      CardsOfRankMembers(hand, rs[i]);
      assert g[0] in g;
    }
  }

  /** A hand with fewer than eight cards completes at most one rank. */
  lemma SmallHandCompletesOne(hand: seq<Card>)
    requires |hand| < 8
    ensures |CompletedRanks(hand)| <= 1
  {
    var rs := CompletedRanks(hand);
    CompletedRanksSpec(hand);
    if |rs| >= 2 {
      assert rs[0] in rs && rs[1] in rs;
      TwoRanksFit(hand, rs[0], rs[1]);
    }
  }

  /** `rs` lists, each once, exactly the ranks `hand` holds four times. */
  predicate CompletesExactly(hand: seq<Card>, rs: seq<Rank>) {
    NoDup(rs) && forall r :: r in rs <==> Count(hand, r) == 4
  }

  lemma CompletedRanksExactly(hand: seq<Card>)
    ensures CompletesExactly(hand, CompletedRanks(hand))
  {
    CompletedRanksSpec(hand);
  }

  lemma GroupsOfOne(hand: seq<Card>, r: Rank)
    ensures GroupsOf(hand, [r]) == [CardsOfRank(hand, r)]
    ensures Flatten(GroupsOf(hand, [r])) == CardsOfRank(hand, r)
  {
    assert [r][..0] == [];
    assert Flatten([CardsOfRank(hand, r)]) == CardsOfRank(hand, r) + Flatten([]);
  }

  lemma CleanExtractionOf(hand: seq<Card>, rs: seq<Rank>)
    requires CompletesExactly(hand, rs) && |rs| <= 1
    ensures multiset(HandAfter(hand, rs)) + multiset(Flatten(GroupsOf(hand, rs))) == multiset(hand)
    ensures |HandAfter(hand, rs)| + 4 * |rs| == |hand|
    ensures NoCompleteRank(HandAfter(hand, rs))
  {
    if rs == [] {
      forall x ensures Count(hand, x) != 4 {
        assert x !in rs;
      }
    } else {
      var r := rs[0];
      assert rs == [r] && r in rs;
      var rest := RemoveSetFromHand(hand, r);
      GroupsOfOne(hand, r);
      RemoveSetSplits(hand, r);
      assert |multiset(rest)| + |multiset(CardsOfRank(hand, r))| == |multiset(hand)|;
      forall x ensures Count(rest, x) != 4 {
        CountOfRemoved(hand, r, x);
        if x != r {
          assert x !in rs;
        }
      }
    }
  }

  /** With at most one completed rank the pass is clean: the hand and the new groups together
      hold exactly the old hand, the hand loses four cards per completed rank, and no rank
      is complete afterwards. */
  lemma CleanExtraction(hand: seq<Card>)
    requires |CompletedRanks(hand)| <= 1
    ensures multiset(HandAfterSets(hand)) + multiset(Flatten(CompletedGroups(hand))) == multiset(hand)
    ensures |HandAfterSets(hand)| + 4 * |CompletedRanks(hand)| == |hand|
    ensures NoCompleteRank(HandAfterSets(hand))
  {
    CompletedRanksExactly(hand);
    CleanExtractionOf(hand, CompletedRanks(hand));
  }

  lemma TwoGroupsDuplicate(hand: seq<Card>, rs: seq<Rank>)
    requires CompletesExactly(hand, rs) && |rs| == 2
    ensures |HandAfter(hand, rs)| + |Flatten(GroupsOf(hand, rs))| == |hand| + 4
  {
    var r1, r2 := rs[0], rs[1];
    assert r1 in rs && r2 in rs;
    assert rs[..1] == [r1] && rs == [r1, r2];
    GroupsOfOne(hand, r1);
    var g := GroupsOf(hand, rs);
    assert g == [CardsOfRank(hand, r1), CardsOfRank(hand, r2)];
    assert Flatten(g) == CardsOfRank(hand, r1) + CardsOfRank(hand, r2) by {
      assert g[1..] == [CardsOfRank(hand, r2)];
      GroupsOfOne(hand, r2);
    }
    RemoveSetSplits(hand, r2);
    assert |multiset(RemoveSetFromHand(hand, r2))| + |multiset(CardsOfRank(hand, r2))| == |multiset(hand)|;
  }

  /** Two ranks completed at once: both groups are stockpiled, but the earlier group's cards
      stay in the hand, so the pass duplicates four cards. */
  lemma TwoCompletedRanksDuplicate(hand: seq<Card>)
    requires |CompletedRanks(hand)| == 2
    ensures |HandAfterSets(hand)| + |Flatten(CompletedGroups(hand))| == |hand| + 4
  {
    CompletedRanksExactly(hand);
    TwoGroupsDuplicate(hand, CompletedRanks(hand));
  }

  // ---------------------------------------------------------------------------
  // Moving cards between hands

  /** `fromCopy.findIndex(c => c.rank === card.rank && c.suit === card.suit)` */
  function FindIndex(s: seq<Card>, card: Card): (i: int)
    ensures -1 <= i < |s|
    ensures i == -1 <==> card !in s
    ensures 0 <= i ==> s[i] == card && card !in s[..i]
    decreases |s|
  {
    if s == [] then -1
    else if s[0] == card then 0
    else
      var i := FindIndex(s[1..], card);
      assert s[1..] == s[1..] && (i >= 0 ==> s[..i + 1] == [s[0]] + s[1..][..i]);
      if i == -1 then -1 else i + 1
  }

  /** Taking away one more card is taking it from what is left. */
  lemma MinusOneMore(m: multiset<Card>, cs: multiset<Card>, x: Card)
    ensures m - (cs + multiset{x}) == (m - cs) - multiset{x}
  {
    forall y ensures (m - (cs + multiset{x}))[y] == ((m - cs) - multiset{x})[y] {
    }
  }

  /** Cutting out the card at `idx` removes one occurrence of it. */
  lemma RemoveAtMultiset(s: seq<Card>, idx: nat)
    requires idx < |s|
    ensures multiset(s[..idx] + s[idx + 1..]) == multiset(s) - multiset{s[idx]}
  {
    assert s == s[..idx] + [s[idx]] + s[idx + 1..];
  }

  /** Removing a card that does not occur changes nothing. */
  lemma MinusAbsent(s: seq<Card>, card: Card)
    requires card !in s
    ensures multiset(s) - multiset{card} == multiset(s)
  {
    assert multiset(s)[card] == 0;
  }

  /** `s` with its first occurrence of `card` cut out, and `s` itself when it holds no
      such card. */
  function RemoveFirst(s: seq<Card>, card: Card): seq<Card>
    decreases |s|
  {
    if s == [] then []
    else if s[0] == card then s[1..]
    else [s[0]] + RemoveFirst(s[1..], card)
  }

  /** `RemoveFirst` is the splice at the first matching position: the cards before and
      after it stay, in their order, and a card that is absent changes nothing. */
  lemma {:induction false} RemoveFirstSplices(s: seq<Card>, card: Card)
    ensures card !in s ==> RemoveFirst(s, card) == s
    ensures card in s ==> var i := FindIndex(s, card); RemoveFirst(s, card) == s[..i] + s[i + 1..]
    decreases |s|
  {
    if s != [] && s[0] != card {
      RemoveFirstSplices(s[1..], card);
      if card in s {
        var i := FindIndex(s[1..], card);
        assert s[..i + 1] == [s[0]] + s[1..][..i];
        assert s[i + 2..] == s[1..][i + 1..];
      }
    }
  }

  /** The cards `transferCards` leaves in `from`: one first occurrence removed per card of
      `cards`, taken in order. */
  function RemoveEach(s: seq<Card>, cards: seq<Card>): seq<Card>
    decreases |cards|
  {
    if cards == [] then s
    else RemoveFirst(RemoveEach(s, cards[..|cards| - 1]), cards[|cards| - 1])
  }

  /** Removing one first occurrence takes one copy of the card away, if there is one. */
  lemma RemoveFirstMultiset(s: seq<Card>, card: Card)
    ensures multiset(RemoveFirst(s, card)) == multiset(s) - multiset{card}
  {
    RemoveFirstSplices(s, card);
    if card in s {
      RemoveAtMultiset(s, FindIndex(s, card));
    } else {
      MinusAbsent(s, card);
    }
  }

  /** `from` loses one copy of each transferred card it holds; absent cards are ignored. */
  lemma {:induction false} RemoveEachMultiset(s: seq<Card>, cards: seq<Card>)
    ensures multiset(RemoveEach(s, cards)) == multiset(s) - multiset(cards)
    decreases |cards|
  {
    if cards != [] {
      var init, last := cards[..|cards| - 1], cards[|cards| - 1];
      assert cards == init + [last];
      RemoveEachMultiset(s, init);
      RemoveFirstMultiset(RemoveEach(s, init), last);
      MinusOneMore(multiset(s), multiset(init), last);
    }
  }

  /** A card of `from` that is not transferred keeps its copies: only the transferred
      cards lose occurrences. */
  lemma RemoveEachKeepsOthers(s: seq<Card>, cards: seq<Card>, c: Card)
    requires c !in cards
    ensures multiset(RemoveEach(s, cards))[c] == multiset(s)[c]
  {
    RemoveEachMultiset(s, cards);
  }

  /** `transferCards`: `to` gains all of `cards`; `from` loses, card by card, the first
      matching occurrence, and the cards left keep their order. */
  method TransferCards(from: seq<Card>, to: seq<Card>, cards: seq<Card>) returns (newFrom: seq<Card>, newTo: seq<Card>)
    ensures newTo == to + cards
    ensures newFrom == RemoveEach(from, cards)
    ensures multiset(newFrom) == multiset(from) - multiset(cards)
  {
    newFrom := from;
    newTo := to + cards;
    for i := 0 to |cards|
      invariant newFrom == RemoveEach(from, cards[..i])
    {
      var card := cards[i];
      assert cards[..i + 1][..i] == cards[..i];
      RemoveFirstSplices(newFrom, card);
      var idx := FindIndex(newFrom, card);
      if idx != -1 {
        newFrom := newFrom[..idx] + newFrom[idx + 1..];
      }
    }
    assert cards[..|cards|] == cards;
    RemoveEachMultiset(from, cards);
  }

  // ---------------------------------------------------------------------------
  // Every hand empty

  /** `areAllHandsEmpty` */
  predicate AreAllHandsEmpty(hands: map<PlayerId, seq<Card>>) {
    forall p :: p in hands ==> hands[p] == []
  }

  /** `allHands.reduce((sum, hand) => sum + hand.length, 0)` */
  ghost function TotalCards(hands: map<PlayerId, seq<Card>>): nat
    decreases |hands|
  {
    if hands == map[] then 0
    else
      var p :| p in hands;
      |hands[p]| + TotalCards(hands - {p})
  }

  /** No cards in any hand exactly when every hand is empty. */
  lemma {:induction false} TotalCardsZero(hands: map<PlayerId, seq<Card>>)
    ensures TotalCards(hands) == 0 <==> AreAllHandsEmpty(hands)
    decreases |hands|
  {
    if hands != map[] {
      var p :| p in hands && TotalCards(hands) == |hands[p]| + TotalCards(hands - {p});
      var rest := hands - {p};
      assert |rest| < |hands| by {
        assert rest.Keys == hands.Keys - {p};
      }
      TotalCardsZero(rest);
      assert AreAllHandsEmpty(hands) <==> hands[p] == [] && AreAllHandsEmpty(rest) by {
        forall q | q in hands && q != p ensures q in rest && rest[q] == hands[q] {
        }
      }
    }
  }
}
