/** What the card chosen by `getNextCard` is, branch by branch, stated in
    terms of ranks and suits rather than comparators. */
module StrategyProperties {
  import opened Cards
  import opened Comparators
  import opened SimpleComputerPlayer

  /** The first queue of the leading block polls the highest card, suit breaking ties upwards. */
  lemma HighestFirst(s: set<Card>)
    requires s != {}
    ensures IsHighest(Least(RankDescSuitDesc, s), s)
  {
    var m := Least(RankDescSuitDesc, s);
    forall c | c in s
      ensures c.rank < m.rank || (c.rank == m.rank && c.suit <= m.suit)
    {
      assert Compare(RankDescSuitDesc, m, c) <= 0;
    }
  }

  /** The discard queues poll the lowest card, suit breaking ties downwards. */
  lemma LowestFirst(s: set<Card>)
    requires s != {}
    ensures IsLowest(Least(RankAscSuitAsc, s), s)
  {
    var m := Least(RankAscSuitAsc, s);
    forall c | c in s
      ensures m.rank < c.rank || (m.rank == c.rank && m.suit <= c.suit)
    {
      assert Compare(RankAscSuitAsc, m, c) <= 0;
    }
  }

  /** Within one suit, every descending-rank queue polls the card of highest rank
      first, and that card is the only one of highest rank. */
  lemma HighestOfOneSuit(o: Order, s: set<Card>, suit: Suit, best: Card)
    requires o == SuitDescRankDesc || o == RankDescSuitAsc || o == SuitAscRankDesc
    requires forall c :: c in s ==> c.suit == suit
    requires best in s && forall c :: c in s ==> c.rank <= best.rank
    ensures best == Least(o, s)
  {
    forall c | c in s
      ensures Compare(o, best, c) <= 0
    {
    }
    LeastUnique(o, s, best);
  }

  /** The card returned is always one of the hand's, and `null` is returned
      exactly when the hand is empty. */
  lemma NextCardFromHand(hand: set<Card>, trick: Trick, compareTo: (Card, Card) -> int)
    ensures NextCard(hand, trick, compareTo).None? <==> hand == {}
    ensures NextCard(hand, trick, compareTo).Some? ==> NextCard(hand, trick, compareTo).value in hand
  {
    var played := trick.played;
    if |played| > 0 && Matches(hand, played[0].suit) == {} && trick.trumps.Some?
       && Matches(hand, trick.trumps.value) != {} {
      var trumpCards := Matches(hand, trick.trumps.value);
      var best := Least(SuitAscRankDesc, trumpCards);
      if |played| == 3 && !Wins(compareTo, best, played) && trumpCards != {best} {
        assert Least(SuitAscRankDesc, trumpCards - {best}) in hand;
      }
    }
  }

  /** Leading without a trump suit: the highest card of the hand. */
  lemma LeadWithoutTrumps(hand: set<Card>, trick: Trick, compareTo: (Card, Card) -> int)
    requires trick.played == [] && trick.trumps.None? && hand != {}
    ensures NextCard(hand, trick, compareTo).Some?
    ensures IsHighest(NextCard(hand, trick, compareTo).value, hand)
  {
    HighestFirst(hand);
  }

  /** Leading with a trump suit: the highest trump if the hand holds one,
      and otherwise the highest card of the hand. */
  lemma LeadWithTrumps(hand: set<Card>, trick: Trick, compareTo: (Card, Card) -> int)
    requires trick.played == [] && trick.trumps.Some? && hand != {}
    ensures NextCard(hand, trick, compareTo).Some?
    ensures var r := NextCard(hand, trick, compareTo).value;
      var trumpCards := Matches(hand, trick.trumps.value);
      if trumpCards != {} then r in trumpCards && forall c :: c in trumpCards ==> c.rank <= r.rank
      else IsHighest(r, hand)
  {
    var trumpCards := Matches(hand, trick.trumps.value);
    if trumpCards != {} {
      var r := Least(SuitDescRankDesc, trumpCards);
      forall c | c in trumpCards
        ensures c.rank <= r.rank
      {
        assert Compare(SuitDescRankDesc, r, c) <= 0;
      }
    } else {
      HighestFirst(hand);
    }
  }

  /** Following with a card of the led suit, the card played is of the led suit. */
  lemma FollowSuit(hand: set<Card>, trick: Trick, compareTo: (Card, Card) -> int)
    requires trick.played != [] && Matches(hand, trick.played[0].suit) != {}
    ensures NextCard(hand, trick, compareTo).Some?
    ensures NextCard(hand, trick, compareTo).value in Matches(hand, trick.played[0].suit)
  {
  }

  /** Following suit when the strongest led-suit card `best` is beaten
      (`best.compareTo(c) == -1` for some played `c`): the lowest led-suit card. */
  lemma FollowSuitBeaten(hand: set<Card>, trick: Trick, compareTo: (Card, Card) -> int, best: Card)
    requires trick.played != []
    requires var matches := Matches(hand, trick.played[0].suit);
      best in matches && forall c :: c in matches ==> c.rank <= best.rank
    requires exists i :: 0 <= i < |trick.played| && compareTo(best, trick.played[i]) == -1
    ensures NextCard(hand, trick, compareTo).Some?
    ensures var r := NextCard(hand, trick, compareTo).value;
      var matches := Matches(hand, trick.played[0].suit);
      r in matches && forall c :: c in matches ==> r.rank <= c.rank
  {
    var matches := Matches(hand, trick.played[0].suit);
    HighestOfOneSuit(RankDescSuitAsc, matches, trick.played[0].suit, best);
    LowestFirst(matches);
  }

  /** Following suit when `best` wins and the player is not last to play
      (`played.size() != 3`): `best` itself. */
  lemma FollowSuitWinningNotLast(hand: set<Card>, trick: Trick, compareTo: (Card, Card) -> int, best: Card)
    requires trick.played != [] && |trick.played| != 3
    requires var matches := Matches(hand, trick.played[0].suit);
      best in matches && forall c :: c in matches ==> c.rank <= best.rank
    requires Wins(compareTo, best, trick.played)
    ensures NextCard(hand, trick, compareTo) == Some(best)
  {
    HighestOfOneSuit(RankDescSuitAsc, Matches(hand, trick.played[0].suit), trick.played[0].suit, best);
  }

  /** Following suit when `best` wins and the player is last to play: because
      the loop re-tests `best` rather than the polled card, it drains the queue
      and the lowest led-suit card is played, whether or not that card wins. */
  lemma FollowSuitWinningLast(hand: set<Card>, trick: Trick, compareTo: (Card, Card) -> int, best: Card)
    requires |trick.played| == 3
    requires var matches := Matches(hand, trick.played[0].suit);
      best in matches && forall c :: c in matches ==> c.rank <= best.rank
    requires Wins(compareTo, best, trick.played)
    ensures NextCard(hand, trick, compareTo).Some?
    ensures var r := NextCard(hand, trick, compareTo).value;
      var matches := Matches(hand, trick.played[0].suit);
      r in matches && forall c :: c in matches ==> r.rank <= c.rank
  {
    var matches := Matches(hand, trick.played[0].suit);
    HighestOfOneSuit(RankDescSuitAsc, matches, trick.played[0].suit, best);
    LowestFirst(matches);
  }

  /** An instance of `FollowSuitWinningLast` where the documented intent ("the
      least card needed to win") and the code part ways. With `compareTo`
      ordering by rank, the hand holds 2, 8 and 12 of the led suit against
      played 5, 6 and 7: 12 wins, 8 is the least card that wins, yet 2 is
      played and loses to every played card. */
  lemma LastToPlayMayLose()
    ensures var compareTo := (a: Card, b: Card) => if a.rank < b.rank then -1 else if a.rank > b.rank then 1 else 0;
      var hand := {Card(2, 1), Card(8, 1), Card(12, 1)};
      var trick := Trick([Card(5, 1), Card(6, 1), Card(7, 1)], None);
      && Wins(compareTo, Card(12, 1), trick.played)
      && Wins(compareTo, Card(8, 1), trick.played)
      && NextCard(hand, trick, compareTo) == Some(Card(2, 1))
      && !Wins(compareTo, Card(2, 1), trick.played)
  {
    var compareTo := (a: Card, b: Card) => if a.rank < b.rank then -1 else if a.rank > b.rank then 1 else 0;
    var hand := {Card(2, 1), Card(8, 1), Card(12, 1)};
    var trick := Trick([Card(5, 1), Card(6, 1), Card(7, 1)], None);
    assert Matches(hand, 1) == hand;
    FollowSuitWinningLast(hand, trick, compareTo, Card(12, 1));
  }

  /** With no led-suit card and no trump to play (no trump suit, or none in the
      hand), the lowest card of the hand is discarded. */
  lemma DiscardWithoutSuitOrTrump(hand: set<Card>, trick: Trick, compareTo: (Card, Card) -> int)
    requires trick.played != [] && Matches(hand, trick.played[0].suit) == {}
    requires trick.trumps.None? || Matches(hand, trick.trumps.value) == {}
    requires hand != {}
    ensures NextCard(hand, trick, compareTo).Some?
    ensures IsLowest(NextCard(hand, trick, compareTo).value, hand)
  {
    LowestFirst(hand);
  }

  /** With no led-suit card, trumping when a played trump outranks the highest
      trump `best`: the lowest card of the whole hand is discarded. */
  lemma TrumpOvertrumped(hand: set<Card>, trick: Trick, compareTo: (Card, Card) -> int, best: Card)
    requires trick.played != [] && Matches(hand, trick.played[0].suit) == {} && trick.trumps.Some?
    requires var trumpCards := Matches(hand, trick.trumps.value);
      best in trumpCards && forall c :: c in trumpCards ==> c.rank <= best.rank
    requires exists i :: (0 <= i < |trick.played| &&
      trick.played[i].suit == trick.trumps.value && best.rank < trick.played[i].rank)
    ensures NextCard(hand, trick, compareTo).Some?
    ensures IsLowest(NextCard(hand, trick, compareTo).value, hand)
  {
    HighestOfOneSuit(SuitAscRankDesc, Matches(hand, trick.trumps.value), trick.trumps.value, best);
    LowestFirst(hand);
  }

  /** With no led-suit card and no played trump above the highest trump `best`,
      a trump is played: `best` when the player is not last to play, and when
      last to play either the lowest trump (if `best` wins by `compareTo`, or is
      the only trump) or the second-highest trump (the loop stops after one poll). */
  lemma TrumpPlayed(hand: set<Card>, trick: Trick, compareTo: (Card, Card) -> int, best: Card)
    requires trick.played != [] && Matches(hand, trick.played[0].suit) == {} && trick.trumps.Some?
    requires var trumpCards := Matches(hand, trick.trumps.value);
      best in trumpCards && forall c :: c in trumpCards ==> c.rank <= best.rank
    requires forall i :: 0 <= i < |trick.played| && trick.played[i].suit == trick.trumps.value ==>
      trick.played[i].rank <= best.rank
    ensures NextCard(hand, trick, compareTo).Some?
    ensures var r := NextCard(hand, trick, compareTo).value;
      var trumpCards := Matches(hand, trick.trumps.value);
      && r in trumpCards
      && (|trick.played| != 3 ==> r == best)
      && (|trick.played| == 3 && (Wins(compareTo, best, trick.played) || trumpCards == {best}) ==>
            forall c :: c in trumpCards ==> r.rank <= c.rank)
      && (|trick.played| == 3 && !Wins(compareTo, best, trick.played) && trumpCards != {best} ==>
            r != best && forall c :: c in trumpCards && c != best ==> c.rank <= r.rank)
  {
    var trumpCards := Matches(hand, trick.trumps.value);
    HighestOfOneSuit(SuitAscRankDesc, trumpCards, trick.trumps.value, best);
    assert !Overtrumped(best, trick.played);
    LowestFirst(trumpCards);
    if |trick.played| == 3 && !Wins(compareTo, best, trick.played) && trumpCards != {best} {
      var r := Least(SuitAscRankDesc, trumpCards - {best});
      forall c | c in trumpCards && c != best
        ensures c.rank <= r.rank
      {
        assert Compare(SuitAscRankDesc, r, c) <= 0;
      }
    }
  }
}
