/** The comparator lambdas that `getNextCard` hands to its priority queues,
    and what "the element `poll()` returns" means for each of them. */
module Comparators {
  import opened Cards

  /** The distinct orders among the comparator lambdas, named by the key they
      sort on (a `PriorityQueue` polls the least element first). */
  datatype Order =
    | RankDescSuitDesc  // SimpleComputerPlayer.java, lines 35-41 and 61-67
    | SuitDescRankDesc  // SimpleComputerPlayer.java, lines 49-55
    | RankDescSuitAsc   // SimpleComputerPlayer.java, lines 77-83
    | RankAscSuitAsc    // SimpleComputerPlayer.java, lines 95-101, 142-148 and 170-176
    | SuitAscRankDesc   // SimpleComputerPlayer.java, lines 124-130

  /** The sort key of `c` under `o`: a card is polled earlier when its key is smaller. */
  function Key(o: Order, c: Card): (k: (int, int))
  {
    match o
    case RankDescSuitDesc => (-(c.rank as int), -(c.suit as int))
    case SuitDescRankDesc => (-(c.suit as int), -(c.rank as int))
    case RankDescSuitAsc => (-(c.rank as int), c.suit)
    case RankAscSuitAsc => (c.rank, c.suit)
    case SuitAscRankDesc => (c.suit, -(c.rank as int))
  }

  /** Strict lexicographic order on key pairs. */
  predicate KeyLess(a: (int, int), b: (int, int))
  {
    a.0 < b.0 || (a.0 == b.0 && a.1 < b.1)
  }

  /** The comparator lambda for `o`, with its tests in the order the source writes them;
      the lambda at lines 142-148 tests its two suit cases the other way round
      (`<` before `>`), which gives the same result since at most one holds.
      Its result follows `java.util.Comparator`: negative when `c1` comes first.
      The contract says it is exactly the lexicographic order on `Key`, and
      that it treats no two distinct cards as equal. */
  function Compare(o: Order, c1: Card, c2: Card): (r: int)
    ensures r == -1 || r == 0 || r == 1
    ensures r < 0 <==> KeyLess(Key(o, c1), Key(o, c2))
    ensures r > 0 <==> KeyLess(Key(o, c2), Key(o, c1))
    ensures r == 0 <==> c1 == c2
  {
    match o
    case RankDescSuitDesc =>
      if c1.rank < c2.rank then 1
      else if c1.rank > c2.rank then -1
      else if c1.suit < c2.suit then 1
      else if c1.suit > c2.suit then -1
      else 0
    case SuitDescRankDesc =>
      if c1.suit < c2.suit then 1
      else if c1.suit > c2.suit then -1
      else if c1.rank < c2.rank then 1
      else if c1.rank > c2.rank then -1
      else 0
    case RankDescSuitAsc =>
      if c1.rank < c2.rank then 1
      else if c1.rank > c2.rank then -1
      else if c1.suit > c2.suit then 1
      else if c1.suit < c2.suit then -1
      else 0
    case RankAscSuitAsc =>
      if c1.rank < c2.rank then -1
      else if c1.rank > c2.rank then 1
      else if c1.suit > c2.suit then 1
      else if c1.suit < c2.suit then -1
      else 0
    case SuitAscRankDesc =>
      if c1.suit < c2.suit then -1
      else if c1.suit > c2.suit then 1
      else if c1.rank < c2.rank then 1
      else if c1.rank > c2.rank then -1
      else 0
  }

  /** `Compare(o, _, _)` is a total order: antisymmetric and transitive. */
  lemma CompareAntisymmetric(o: Order, a: Card, b: Card)
    ensures Compare(o, a, b) == -Compare(o, b, a)
  {
  }

  lemma CompareTransitive(o: Order, a: Card, b: Card, c: Card)
    requires Compare(o, a, b) <= 0 && Compare(o, b, c) <= 0
    ensures Compare(o, a, c) <= 0
  {
  }

  /** `m` is the element of `s` that `poll()` returns first under `o`. */
  ghost predicate IsLeast(o: Order, m: Card, s: set<Card>)
  {
    m in s && forall c :: c in s ==> Compare(o, m, c) <= 0
  }

  /** `m` is the element of `s` that `poll()` returns last under `o`. */
  ghost predicate IsGreatest(o: Order, m: Card, s: set<Card>)
  {
    m in s && forall c :: c in s ==> Compare(o, c, m) <= 0
  }

  /** The least element of a non-empty set under `o`, found by induction on the set. */
  ghost function Least(o: Order, s: set<Card>): (m: Card)
    requires s != {}
    ensures IsLeast(o, m, s)
    decreases s
  {
    var x :| x in s;
    if s == {x} then
      assert forall c :: c in s ==> c == x;
      assert Compare(o, x, x) == 0;
      x
    else
      var y := Least(o, s - {x});
      assert Compare(o, x, x) == 0 && Compare(o, y, y) == 0;
      if Compare(o, x, y) < 0 then
        assert forall c :: c in s - {x} ==> Compare(o, x, c) <= 0 by {
          forall c | c in s - {x} ensures Compare(o, x, c) <= 0 {
            CompareTransitive(o, x, y, c);
          }
        }
        x
      else
        CompareAntisymmetric(o, x, y);
        y
  }

  /** A set has only one least element, so `Least` is the only possible answer of `poll()`. */
  lemma LeastUnique(o: Order, s: set<Card>, m: Card)
    requires IsLeast(o, m, s)
    ensures m == Least(o, s)
  {
    var l := Least(o, s);
    CompareAntisymmetric(o, m, l);
  }

  /** What `PriorityQueue.poll()` returns on a queue holding `s`: `null` when it is empty. */
  ghost function Head(o: Order, s: set<Card>): (h: Option<Card>)
    ensures h.None? <==> s == {}
    ensures h.Some? ==> IsLeast(o, h.value, s)
  {
    if s == {} then None else Some(Least(o, s))
  }
}
