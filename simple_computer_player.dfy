/** `SimpleComputerPlayer.getNextCard`: the card a simple computer player puts
    on the current trick. The player's hand is passed in, and so is the
    comparison `Card.compareTo`, whose definition is not part of this model. */
module SimpleComputerPlayer {
  import opened Cards
  import opened Comparators
  import opened PriorityQueues

  /** The `win` test of the follow-suit branch (and the `stillWin` test of both
      last-to-play loops): no played card makes `play.compareTo(c)` exactly -1. */
  predicate Wins(compareTo: (Card, Card) -> int, play: Card, played: seq<Card>)
  {
    forall i :: 0 <= i < |played| ==> compareTo(play, played[i]) != -1
  }

  /** The `win` test of the trump branch, negated: some played card has the suit
      of `play` and a higher rank. */
  predicate Overtrumped(play: Card, played: seq<Card>)
  {
    exists i :: 0 <= i < |played| && played[i].suit == play.suit && play.rank < played[i].rank
  }

  /** The card `getNextCard` returns, with each priority queue replaced by the
      element it polls and each last-to-play loop by the card it stops on.
      `None` is the `null` that `poll()` gives on an empty hand. */
  ghost function NextCard(hand: set<Card>, trick: Trick, compareTo: (Card, Card) -> int): (r: Option<Card>)
  {
    var played := trick.played;
    if |played| == 0 then
      if trick.trumps.None? then Head(RankDescSuitDesc, hand)
      else if Matches(hand, trick.trumps.value) != {} then
        Head(SuitDescRankDesc, Matches(hand, trick.trumps.value))
      else Head(RankDescSuitDesc, hand)
    else if Matches(hand, played[0].suit) != {} then
      var matches := Matches(hand, played[0].suit);
      var best := Least(RankDescSuitAsc, matches);
      if !Wins(compareTo, best, played) || |played| == 3 then Some(Least(RankAscSuitAsc, matches))
      else Some(best)
    else if trick.trumps.Some? && Matches(hand, trick.trumps.value) != {} then
      var trumpCards := Matches(hand, trick.trumps.value);
      var best := Least(SuitAscRankDesc, trumpCards);
      if Overtrumped(best, played) then Some(Least(RankAscSuitAsc, hand))
      else if |played| != 3 then Some(best)
      else if Wins(compareTo, best, played) || trumpCards == {best} then Some(Least(RankAscSuitAsc, trumpCards))
      else Some(Least(SuitAscRankDesc, trumpCards - {best}))
    else Head(RankAscSuitAsc, hand)
  }

  /** A new `PriorityQueue` with the comparator for `order`, filled by the
      loop `for (Card c : cards) q.add(c);`, which visits the cards in any order. */
  method QueueOf(order: Order, cards: set<Card>) returns (q: CardQueue)
    ensures fresh(q) && q.order == order && q.elems == cards
  {
    q := new CardQueue(order);
    var rest := cards;
    while rest != {}
      invariant rest <= cards
      invariant q.elems == cards - rest
      decreases rest
    {
      var c :| c in rest;
      q.Add(c);
      rest := rest - {c};
    }
  }

  /** The last-to-play loop, after `play` has been polled from `q` and found to
      win. While `stillWin` holds, the queue is not empty and three cards have
      been played, it polls the next card into `last`; `stillWin` is re-tested
      on `play`, not on the polled card. So the loop stops after one poll when
      `play` does not win by `compareTo`, and otherwise drains the queue. */
  method LastToPlay(q: CardQueue, play: Card, played: seq<Card>, compareTo: (Card, Card) -> int)
    returns (last: Card)
    requires forall c :: c in q.elems ==> Compare(q.order, play, c) < 0
    modifies q
    ensures |played| != 3 ==> last == play
    ensures |played| == 3 && (old(q.elems) == {} || Wins(compareTo, play, played)) ==>
      IsGreatest(q.order, last, old(q.elems) + {play})
    ensures |played| == 3 && old(q.elems) != {} && !Wins(compareTo, play, played) ==>
      last == Least(q.order, old(q.elems))
    ensures |played| != 3 ==> q.elems == old(q.elems)
    ensures |played| == 3 && Wins(compareTo, play, played) ==> q.elems == {}
    ensures |played| == 3 && old(q.elems) != {} && !Wins(compareTo, play, played) ==>
      q.elems == old(q.elems) - {last}
  {
    ghost var queued := q.elems;
    last := play;
    var stillWin := true;
    while stillWin && !q.IsEmpty() && |played| == 3
      invariant q.elems <= queued
      invariant |played| != 3 ==> q.elems == queued
      invariant forall c :: c in q.elems ==> Compare(q.order, last, c) < 0
      invariant forall c :: c in queued + {play} ==> c in q.elems || Compare(q.order, c, last) <= 0
      invariant q.elems == queued ==> last == play && stillWin
      invariant q.elems != queued ==> last in queued && stillWin == Wins(compareTo, play, played)
      invariant !stillWin ==> last == Least(q.order, queued)
      decreases q.elems
    {
      var next := q.Poll();
      for i := 0 to |played|
        invariant stillWin == forall j :: 0 <= j < i ==> compareTo(play, played[j]) != -1
      {
        if compareTo(play, played[i]) == -1 {
          stillWin := false;
        }
      }
      last := next.value;
    }
  }

  /** `getNextCard(trick)`. Every path of the leading block returns, so
      `played[0]` below is only read when a card has been played. The result
      does not depend on the order in which the hand is visited. */
  method GetNextCard(hand: set<Card>, trick: Trick, compareTo: (Card, Card) -> int)
    returns (r: Option<Card>)
    ensures r == NextCard(hand, trick, compareTo)
  {
    var trumps := trick.trumps;
    var played := trick.played;
    if |played| == 0 {
      if trumps.None? {
        var q := QueueOf(RankDescSuitDesc, hand);
        r := q.Poll();
        return;
      }
      var matches := Matches(hand, trumps.value);
      if |matches| > 0 {
        var q := QueueOf(SuitDescRankDesc, matches);
        r := q.Poll();
        return;
      } else if |matches| == 0 {
        var q := QueueOf(RankDescSuitDesc, hand);
        r := q.Poll();
        return;
      }
    }
    var matches := Matches(hand, played[0].suit);
    if |matches| > 0 {
      var q := QueueOf(RankDescSuitAsc, matches);
      var polled := q.Poll();
      var play := polled.value;
      var win := true;
      for i := 0 to |played|
        invariant win == forall j :: 0 <= j < i ==> compareTo(play, played[j]) != -1
      {
        if compareTo(play, played[i]) == -1 {
          win := false;
        }
      }
      if !win {
        var qR := QueueOf(RankAscSuitAsc, matches);
        r := qR.Poll();
        return;
      }
      var last := LastToPlay(q, play, played, compareTo);
      if |played| == 3 {
        LowestOfOneSuit(RankDescSuitAsc, matches, played[0].suit, last);
      }
      return Some(last);
    }
    if trumps.Some? {
      var matchesT := Matches(hand, trumps.value);
      if |matchesT| > 0 {
        var q := QueueOf(SuitAscRankDesc, matchesT);
        var polled := q.Poll();
        var play := polled.value;
        var win := true;
        for i := 0 to |played|
          invariant win == forall j :: 0 <= j < i ==> !(play.suit == played[j].suit && play.rank < played[j].rank)
        {
          if play.suit == played[i].suit && play.rank < played[i].rank {
            win := false;
          }
        }
        if !win {
          var qR := QueueOf(RankAscSuitAsc, hand);
          r := qR.Poll();
          return;
        }
        var last := LastToPlay(q, play, played, compareTo);
        if |played| == 3 && (matchesT == {play} || Wins(compareTo, play, played)) {
          LowestOfOneSuit(SuitAscRankDesc, matchesT, trumps.value, last);
        }
        return Some(last);
      }
    }
    var q := QueueOf(RankAscSuitAsc, hand);
    r := q.Poll();
  }

  /** Within one suit, the card both descending-rank queues poll last is the
      card of lowest rank. */
  lemma LowestOfOneSuit(o: Order, s: set<Card>, suit: Suit, x: Card)
    requires o == RankDescSuitAsc || o == SuitAscRankDesc
    requires forall c :: c in s ==> c.suit == suit
    requires IsGreatest(o, x, s)
    ensures x == Least(RankAscSuitAsc, s)
  {
    forall c | c in s
      ensures Compare(RankAscSuitAsc, x, c) <= 0
    {
      assert Compare(o, c, x) <= 0;
    }
    LeastUnique(RankAscSuitAsc, s, x);
  }
}
