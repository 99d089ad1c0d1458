/** Cards, tricks and the hand query that the computer player reads.
    `Card`, `Hand`, `Trick` and `Suit` are defined outside the modelled file;
    only what `getNextCard` uses of them is represented here. */
module Cards {

  /** The ordinal of a `Card.Rank` value. */
  type Rank = nat

  /** The ordinal of a `Card.Suit` value. */
  type Suit = nat

  datatype Card = Card(rank: Rank, suit: Suit)

  /** A possibly absent value: `None` stands for Java's `null`. */
  datatype Option<T> = None | Some(value: T)

  /** What `getNextCard` reads of a `Trick`: `getCardsPlayed()` and `getTrumps()`
      (no trump suit is `None`). */
  datatype Trick = Trick(played: seq<Card>, trumps: Option<Suit>)

  /** `Hand.matches(suit)`: the cards of the hand that belong to `suit`. */
  function Matches(hand: set<Card>, suit: Suit): (m: set<Card>)
  {
    set c | c in hand && c.suit == suit
  }

  /** `x` is a card of `s` of greatest rank, and of greatest suit ordinal among those. */
  ghost predicate IsHighest(x: Card, s: set<Card>)
  {
    x in s && forall c :: c in s ==> c.rank < x.rank || (c.rank == x.rank && c.suit <= x.suit)
  }

  /** `x` is a card of `s` of least rank, and of least suit ordinal among those. */
  ghost predicate IsLowest(x: Card, s: set<Card>)
  {
    x in s && forall c :: c in s ==> x.rank < c.rank || (x.rank == c.rank && x.suit <= c.suit)
  }
}
