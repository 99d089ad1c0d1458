# Simple computer player: card choice

A Dafny model of `SimpleComputerPlayer.getNextCard`, the rule by which a
computer player in a four-player trick-taking game picks the card it puts on
the current trick. It reads the player's hand, the cards already played in
the trick and the trump suit (possibly none), and returns one card of the hand.

The model keeps the method's imperative shape:

- `Cards` (cards.dfy): a card is its rank and suit ordinals; a trick is the
  sequence of played cards and an optional trump suit; `Matches` is
  `Hand.matches(suit)`.
- `Comparators` (comparators.dfy): the comparator lambdas. The eight lambdas
  of the method are five distinct orders. `Compare` keeps each order's tests
  as the source writes them; the lambda at lines 142-148 tests its two suit
  cases the other way round, with the same result. Its contract proves that
  each order is the lexicographic order on a (rank, suit) or (suit, rank) key,
  with each part ascending or descending. `Least` and `Head` say what
  `poll()` returns.
- `PriorityQueues` (card_queue.dfy): `CardQueue`, a class standing for
  `java.util.PriorityQueue<Card>` with `add`, `poll` and `isEmpty`. `Poll`
  finds the comparator-least card with a selection loop.
- `SimpleComputerPlayer` (simple_computer_player.dfy): `GetNextCard` follows
  the source branch by branch. It builds queues by visiting the hand in an
  arbitrary order and computes `win` with loops over the played cards. The
  two identical last-to-play loops are one method, `LastToPlay`. The ghost
  function `NextCard` gives the result of each branch in closed form, and
  `GetNextCard` is proved to return exactly `NextCard`. So the card chosen
  does not depend on the order in which the hand is visited.
- `StrategyProperties` (strategy_properties.dfy): what `NextCard` returns in
  each branch, stated with ranks and suits only.

`Card.compareTo` is defined outside this file, so it is a parameter
`compareTo: (Card, Card) -> int`, tested for exactly `== -1` as the source does.
The trump branch's own win test (same suit and lower rank) is concrete.

### Where the code and its description differ

The model follows the code. The class comment promises that a player who is
last to play "conservatively plays the least card needed to win". The loop
that should do this re-tests `play`, the strongest card, rather than the card
it has just polled. In the follow-suit branch, `play` is already known to win
when the loop starts. So the loop empties the queue and returns the
lowest-ranked card of the led suit, whether or not that card wins
(`FollowSuitWinningLast`). `LastToPlayMayLose` gives a concrete hand in which
a winning card exists but a losing card is played. In the trump branch the
same loop stops after one poll when `play.compareTo(c) == -1` for some
played card `c`. The second-highest trump is then played (`TrumpPlayed`).
The comment at line 169 says "play the best card", but the code discards the
lowest card.

## Model

| member | source | states |
|---|---|---|
| `Comparators.Compare` | SimpleComputerPlayer.java:35-176 | each comparator lambda returns -1, 0 or 1; it is negative exactly when the first card's key is lexicographically smaller, positive exactly when it is larger, and 0 only for the same card |
| `Comparators.CompareAntisymmetric` | SimpleComputerPlayer.java:35-41 | swapping the two cards negates a lambda's result |
| `Comparators.CompareTransitive` | SimpleComputerPlayer.java:35-41 | each lambda's order is transitive, so a queue built with it has one least card |
| `Comparators.Least` | SimpleComputerPlayer.java:45 | every non-empty set of cards has an element that the comparator puts at or before every other element |
| `Comparators.LeastUnique` | SimpleComputerPlayer.java:45 | that least element is unique, so what `poll()` returns is determined by the set of queued cards alone |
| `Comparators.Head` | SimpleComputerPlayer.java:45 | `poll()` gives `null` exactly on an empty queue and otherwise its least card |
| `PriorityQueues.CardQueue.constructor` | SimpleComputerPlayer.java:35 | a new queue is empty and keeps the comparator it was given |
| `PriorityQueues.CardQueue.Add` | SimpleComputerPlayer.java:43 | `add` puts the card in the queue and nothing else changes |
| `PriorityQueues.CardQueue.Poll` | SimpleComputerPlayer.java:45 | `poll` returns the comparator-least queued card and removes exactly that card; on an empty queue it returns `null` and the queue stays empty |
| `SimpleComputerPlayer.QueueOf` | SimpleComputerPlayer.java:35-44 | a new queue filled card by card, in any visiting order, holds exactly the given cards |
| `SimpleComputerPlayer.LastToPlay` | SimpleComputerPlayer.java:107-119 | unless three cards have been played it returns `play`. When three have been played, it returns the card polled last (the queue is drained) if `play` wins by `compareTo` or the queue was empty. Otherwise it returns the first card polled after `play`. The queue is left untouched, drained, or short of that one card, respectively |
| `SimpleComputerPlayer.GetNextCard` | SimpleComputerPlayer.java:29-182 | returns exactly `NextCard`, whatever order the hand is visited in. Every path of the leading block returns, so the first played card is read only when one exists |
| `SimpleComputerPlayer.LowestOfOneSuit` | SimpleComputerPlayer.java:110-118 | among cards of one suit, the card that both descending-rank queues poll last is the lowest-ranked one |
| `StrategyProperties.HighestFirst` | SimpleComputerPlayer.java:35-45 | the leading queue polls a card of highest rank, and among those the one of highest suit ordinal |
| `StrategyProperties.LowestFirst` | SimpleComputerPlayer.java:170-181 | the discard queue polls a card of lowest rank, and among those the one of lowest suit ordinal |
| `StrategyProperties.HighestOfOneSuit` | SimpleComputerPlayer.java:77-87 | among cards of one suit, every descending-rank queue polls the highest-ranked card first |
| `StrategyProperties.NextCardFromHand` | SimpleComputerPlayer.java:29-182 | on every path the card returned belongs to the hand, and `null` is returned exactly when the hand is empty |
| `StrategyProperties.LeadWithoutTrumps` | SimpleComputerPlayer.java:33-45 | leading with no trump suit plays a card of highest rank, ties going to the highest suit ordinal |
| `StrategyProperties.LeadWithTrumps` | SimpleComputerPlayer.java:47-72 | leading with a trump suit plays the highest trump if the hand holds a trump, and otherwise the highest card (same tie-break) |
| `StrategyProperties.FollowSuit` | SimpleComputerPlayer.java:75-120 | a player holding a card of the led suit plays a card of the led suit |
| `StrategyProperties.FollowSuitBeaten` | SimpleComputerPlayer.java:87-106 | if the strongest led-suit card compares at -1 against some played card, the lowest-ranked led-suit card is played |
| `StrategyProperties.FollowSuitWinningNotLast` | SimpleComputerPlayer.java:107-119 | if the strongest led-suit card wins and the count of played cards is not 3, that card is played |
| `StrategyProperties.FollowSuitWinningLast` | SimpleComputerPlayer.java:107-119 | if the strongest led-suit card wins and 3 cards have been played, the lowest-ranked led-suit card is played |
| `StrategyProperties.LastToPlayMayLose` | SimpleComputerPlayer.java:110-118 | for one concrete hand, the last player plays a card that does not win, although two of its cards would win (against "the least card needed to win" at lines 15-17) |
| `StrategyProperties.DiscardWithoutSuitOrTrump` | SimpleComputerPlayer.java:169-181 | with no led-suit card and no trump to play, the lowest card of the hand is discarded, ties going to the lowest suit ordinal |
| `StrategyProperties.TrumpOvertrumped` | SimpleComputerPlayer.java:134-153 | when trumping and a played trump outranks the highest trump held, the lowest card of the whole hand is discarded |
| `StrategyProperties.TrumpPlayed` | SimpleComputerPlayer.java:154-166 | when trumping and no played trump outranks the highest trump, a trump is played. If not last to play, it is the highest trump. If last, it is the lowest trump when the highest wins by `compareTo` or is the only trump, and otherwise the second-highest trump |

## Left out

- The constructor and the `AbstractComputerPlayer`/`Player` plumbing: the player's hand is a parameter of `GetNextCard`.
- `Card.compareTo`: defined in a file that is not part of this model; it is an arbitrary function parameter.
- `Hand`, `Trick` and `Suit` internals: a hand is a set of cards, a trick is a sequence of played cards and an optional trump suit, and ranks and suits are their enum ordinals (unbounded naturals).
- `java.util.PriorityQueue` heap layout and duplicate handling: a queue is the set of its cards, which is exact here because each queue is filled from a set and the lambdas treat only identical cards as equal.
- Game engine, turn order, scoring and I/O: not part of the modelled file.
